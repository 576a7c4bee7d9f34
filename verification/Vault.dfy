/** What both stores share: cookie values as text, plaintexts as their readers
    decode them, and the ledger of everything the fleet's keyring sealed. */
module Vault {
  import opened Common
  import opened Keyring
  import opened Envelope

  const PAYLOAD_V1 := 1

  /** A plaintext as decoding it turns out: a store-less session, a handle, a
      row's payload, or anything else. */
  datatype Plaintext =
    | Session(version: int, issuedAt: int, token: Option<Token>, subject: string)
    | Handle(handle: Bytes)
    | RowContents(version: int, subject: string, token: Option<Token>, idToken: string)
    | Unreadable

  /** The base64url text of an envelope: decoding undoes encoding. The decoder
      may accept further spellings. */
  datatype Codec = Codec(encode: Bytes -> string, decode: string -> Option<Bytes>)

  ghost predicate LeftInverse(c: Codec) {
    forall b {:trigger c.encode(b)} :: c.decode(c.encode(b)) == Some(b)
  }

  ghost predicate WideIds(r: Ring) {
    forall k | k in r.byUseAfter :: |k.kid| == COOKIE_KEY_ID_LENGTH
  }

  /** Every record was sealed under the key in force when it was sealed. */
  ghost predicate Honest(r: Ring, ledger: Ledger<Plaintext>) {
    && OneUse(ledger)
    && forall s | s in ledger :: HonestSlot(r, s, ledger[s].at)
  }

  predicate HonestSlot(r: Ring, s: Slot, at: int) {
    && |s.kid| == COOKIE_KEY_ID_LENGTH && |s.nonce| == NONCE_LENGTH && |s.body| >= TAG_LENGTH
    && SealingKey(r, at).Some? && SealingKey(r, at).value.kid == s.kid
  }

  datatype Sealed = Sealed(raw: Bytes, slot: Slot, ledger: Ledger<Plaintext>)

  /** The envelope writer. */
  function SealInto(r: Ring, at: int, ledger: Ledger<Plaintext>, kind: byte, domain: Bytes, p: Plaintext, d: Draw): Option<Sealed> {
    match SealingKey(r, at)
    case None => None
    case Some(k) =>
      var slot := SlotFor(kind, k.kid, domain, d);
      Some(Sealed(Raw(kind, k.kid, d), slot, ledger[slot := Record(p, at)]))
  }

  lemma SealKeepsHonest(r: Ring, at: int, ledger: Ledger<Plaintext>, kind: byte, domain: Bytes, p: Plaintext, d: Draw)
    requires ValidRing(r) && WideIds(r) && Honest(r, ledger) && WellDrawn(ledger, d)
    requires SealInto(r, at, ledger, kind, domain, p, d).Some?
    ensures var s := SealInto(r, at, ledger, kind, domain, p, d).value;
            && Honest(r, s.ledger) && s.slot !in ledger
            && s.ledger[s.slot] == Record(p, at)
            && forall t | t in ledger :: t in s.ledger && s.ledger[t] == ledger[t]
  {
    SealingKeyIsInForce(r, at);
  }

  /** The sealing key is in the ring it seals for. */
  lemma SealerIsInRing(r: Ring, at: int)
    requires ValidRing(r) && WideIds(r) && SealingKey(r, at).Some?
    ensures SealingKey(r, at).value.kid in r.keys && |SealingKey(r, at).value.kid| == COOKIE_KEY_ID_LENGTH
  {
    SealingKeyIsInForce(r, at);
  }

  // ----- retiring a key -----

  /** From `from` on, nothing is sealed under the key. */
  ghost predicate Superseded(r: Ring, kid: Bytes, from: int) {
    forall t | t >= from :: SealingKey(r, t).Some? && SealingKey(r, t).value.kid != kid
  }

  /** A key is superseded once a later one is in use. */
  lemma SupersededBy(r: Ring, k: Key, next: Key)
    requires ValidRing(r) && k in r.byUseAfter && next in r.byUseAfter && k.useAfter < next.useAfter
    ensures Superseded(r, k.kid, next.useAfter)
  {
    forall t | t >= next.useAfter ensures SealingKey(r, t).Some? && SealingKey(r, t).value.kid != k.kid {
      SealingKeyIsInForce(r, t);
    }
  }

  /** The ring with one key taken out. */
  ghost predicate Without(r: Ring, less: Ring, kid: Bytes) {
    && ValidRing(r) && ValidRing(less)
    && less.keys == r.keys - {kid}
  }

  lemma WithoutSealsAlike(r: Ring, less: Ring, kid: Bytes, from: int, t: int)
    requires Without(r, less, kid) && Superseded(r, kid, from) && t >= from
    ensures SealingKey(less, t) == SealingKey(r, t) && SealingKey(r, t).Some?
  {
    SealingKeyIsInForce(r, t);
    var k := SealingKey(r, t).value;
    assert k.kid in less.keys && less.keys[k.kid] == k;
    forall x | x in less.byUseAfter ensures x in r.byUseAfter {
      assert x.kid in r.keys && r.keys[x.kid] == less.keys[x.kid] == x;
    }
    SubringSealsAlike(r, less, t);
  }

  /** The plaintext was sealed under the key, before `from`. */
  ghost predicate SealedBefore(ledger: Ledger<Plaintext>, kind: byte, kid: Bytes, domain: Bytes, from: int, p: Plaintext) {
    exists d ::
      && SlotFor(kind, kid, domain, d) in ledger
      && ledger[SlotFor(kind, kid, domain, d)].plain == p && ledger[SlotFor(kind, kid, domain, d)].at < from
  }

  /** Taking a superseded key out of the ring loses only what was sealed under
      it, and all of that is older than its supersession. */
  lemma WithoutOpensAlike(r: Ring, less: Ring, kid: Bytes, from: int, t: int, ledger: Ledger<Plaintext>,
                          kind: byte, domain: Bytes, raw: Bytes)
    requires Without(r, less, kid) && Superseded(r, kid, from) && t >= from && Honest(r, ledger)
    ensures var a, b := Open(r, t, ledger, kind, domain, raw), Open(less, t, ledger, kind, domain, raw);
            && (b.Plain? ==> a == b)
            && (a.Plain? && a != b ==> b.Failed? && SealedBefore(ledger, kind, kid, domain, from, a.plain))
  {
    WithoutSealsAlike(r, less, kid, from, t);
    if Open(r, t, ledger, kind, domain, raw).Plain? {
      NothingForged(r, t, ledger, kind, domain, raw);
    }
  }
}
