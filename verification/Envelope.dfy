/** The sealed envelope: its byte layout, the labels values are bound to, and
    an ideal AEAD (AES-256-GCM as NIST SP 800-38D promises it): a body opens
    only under the key, nonce and additional data it was sealed with, which is
    to say only if a ledger of everything ever sealed has it. */
module Envelope {
  import opened Common
  import opened Keyring

  const ENVELOPE_V1: byte := 1
  const ENVELOPE_MAX_VERSION: byte := 16
  const NONCE_LENGTH := 12
  const TAG_LENGTH := 16
  const HEADER_LENGTH := 1 + 1 + COOKIE_KEY_ID_LENGTH + NONCE_LENGTH

  /** The kind byte: a whole session payload, or a handle to one. */
  const KIND_PAYLOAD: byte := 1
  const KIND_HANDLE: byte := 2

  predicate ValidKind(k: byte) {
    k == KIND_PAYLOAD || k == KIND_HANDLE
  }

  // ----- labels -----

  function Ascii(s: string): Bytes
    requires forall i | 0 <= i < |s| :: s[i] < 128 as char
  {
    seq(|s|, i requires 0 <= i < |s| => s[i] as int as byte)
  }

  const COLON: byte := 58
  const SESSION_PURPOSE: Bytes := [99, 111, 111, 107, 105, 101, 58]            // "cookie:"
  const REDIRECT_SUFFIX: Bytes := [97, 117, 116, 104, 95, 114, 101, 100, 105, 114, 58] // "auth_redir:"
  const STORE_PURPOSE: Bytes := [115, 116, 111, 114, 101, 58]                  // "store:"

  /** The byte constants spell what they should. */
  lemma PurposesAreSpelled()
    ensures SESSION_PURPOSE == Ascii("cookie:")
    ensures SESSION_PURPOSE + REDIRECT_SUFFIX == Ascii("cookie:auth_redir:")
    ensures STORE_PURPOSE == Ascii("store:")
  {
  }

  /** The separators of RFC 6265, none of which may be in a cookie name:
      "(),/:;<=>?@[\\]{} and the double quote. */
  const SEPARATORS: seq<byte> := [34, 40, 41, 44, 47, 58, 59, 60, 61, 62, 63, 64, 91, 92, 93, 123, 125]

  /** A non-empty HTTP token, section 4.1.1 of RFC 6265. */
  predicate ValidName(name: Bytes) {
    name != [] && forall i | 0 <= i < |name| :: 0x20 < name[i] < 0x7f && name[i] !in SEPARATORS
  }

  method ValidCookieName(name: Bytes) returns (ok: bool)
    ensures ok <==> ValidName(name)
  {
    if name == [] {
      return false;
    }
    for i := 0 to |name|
      invariant forall j | 0 <= j < i :: 0x20 < name[j] < 0x7f && name[j] !in SEPARATORS
    {
      var c := name[i];
      if c <= 0x20 || c >= 0x7f || c in SEPARATORS {
        return false;
      }
    }
    return true;
  }

  /** What a sealed value is for. */
  datatype Label =
    | SessionCookie(name: Bytes)
    | AuthRedirect(name: Bytes)
    | StoreRow(name: Bytes, id: Bytes)

  function HexDigit(n: int): byte
    requires 0 <= n < 16
  {
    if n < 10 then (48 + n) as byte else (87 + n) as byte
  }

  function Hex(b: Bytes): Bytes {
    if b == [] then [] else [HexDigit(b[0] as int / 16), HexDigit(b[0] as int % 16)] + Hex(b[1..])
  }

  /** The domain string: a purpose and a cookie name, and for a stored payload
      the id of its row. */
  function Domain(l: Label): Bytes {
    match l
    case SessionCookie(name) => SESSION_PURPOSE + name
    case AuthRedirect(name) => SESSION_PURPOSE + REDIRECT_SUFFIX + name
    case StoreRow(name, id) => STORE_PURPOSE + name + [COLON] + Hex(id)
  }

  lemma {:induction false} HexIsInjective(a: Bytes, b: Bytes)
    requires Hex(a) == Hex(b)
    ensures a == b
  {
    if a == [] || b == [] {
    } else {
      var x, y := a[0] as int, b[0] as int;
      assert Hex(a)[0] == HexDigit(x / 16) && Hex(a)[1] == HexDigit(x % 16);
      assert Hex(b)[0] == HexDigit(y / 16) && Hex(b)[1] == HexDigit(y % 16);
      assert x == y;
      assert Hex(a)[2..] == Hex(a[1..]) && Hex(b)[2..] == Hex(b[1..]);
      HexIsInjective(a[1..], b[1..]);
    }
  }

  lemma NameHasNoColon(name: Bytes)
    requires ValidName(name)
    ensures COLON !in name
  {
  }

  /** Two names without a colon, each closed by one, split alike. */
  lemma ColonSplits(a: Bytes, b: Bytes, x: Bytes, y: Bytes)
    requires COLON !in a && COLON !in b
    requires a + [COLON] + x == b + [COLON] + y
    ensures a == b && x == y
  {
    var s := a + [COLON] + x;
    assert s[|a|] == COLON && s[|b|] == COLON;
    assert forall i | 0 <= i < |a| :: s[i] == a[i];
    assert forall i | 0 <= i < |b| :: s[i] == (b + [COLON] + y)[i] == b[i];
    assert a == s[..|a|] && b == s[..|b|];
    assert x == s[|a| + 1..] && y == s[|b| + 1..];
  }

  /** No two labels collide, for any valid names and any row ids. */
  lemma LabelsAreInjective(a: Label, b: Label)
    requires ValidName(a.name) && ValidName(b.name)
    requires Domain(a) == Domain(b)
    ensures a == b
  {
    NameHasNoColon(a.name);
    NameHasNoColon(b.name);
    FirstByte(a);
    FirstByte(b);
    match (a, b)
    case (SessionCookie(m), SessionCookie(n)) => DropPrefix(SESSION_PURPOSE, m, n);
    case (AuthRedirect(m), AuthRedirect(n)) => DropPrefix(SESSION_PURPOSE + REDIRECT_SUFFIX, m, n);
    case (StoreRow(m, i), StoreRow(n, j)) =>
      assert Domain(a) == STORE_PURPOSE + (m + [COLON] + Hex(i));
      assert Domain(b) == STORE_PURPOSE + (n + [COLON] + Hex(j));
      DropPrefix(STORE_PURPOSE, m + [COLON] + Hex(i), n + [COLON] + Hex(j));
      ColonSplits(m, n, Hex(i), Hex(j));
      HexIsInjective(i, j);
    case (SessionCookie(m), AuthRedirect(n)) => RedirectIsNoSession(m, n);
    case (AuthRedirect(m), SessionCookie(n)) => RedirectIsNoSession(n, m);
    case (_, _) =>
  }

  lemma FirstByte(l: Label)
    ensures |Domain(l)| > 0 && Domain(l)[0] == if l.StoreRow? then STORE_PURPOSE[0] else SESSION_PURPOSE[0]
  {
  }

  lemma DropPrefix(p: Bytes, a: Bytes, b: Bytes)
    requires p + a == p + b
    ensures a == b
  {
    assert a == (p + a)[|p|..];
    assert b == (p + b)[|p|..];
  }

  lemma RedirectIsNoSession(m: Bytes, n: Bytes)
    requires COLON !in m
    ensures SESSION_PURPOSE + m != SESSION_PURPOSE + REDIRECT_SUFFIX + n
  {
    var session, redirect := SESSION_PURPOSE + m, SESSION_PURPOSE + REDIRECT_SUFFIX + n;
    assert redirect[17] == COLON;
    assert |session| > 17 ==> session[17] == m[10];
  }

  // ----- the additional authenticated data -----

  function Aad(version: byte, kind: byte, kid: Bytes, domain: Bytes): Bytes {
    [version, kind] + kid + domain
  }

  /** Only the last field varies in length, so the data says what it is. */
  lemma AadIsInjective(v: byte, k: byte, kid: Bytes, d: Bytes, v': byte, k': byte, kid': Bytes, d': Bytes)
    requires |kid| == |kid'|
    requires Aad(v, k, kid, d) == Aad(v', k', kid', d')
    ensures v == v' && k == k' && kid == kid' && d == d'
  {
    var a := Aad(v, k, kid, d);
    var b := Aad(v', k', kid', d');
    assert a[0] == v && b[0] == v' && a[1] == k && b[1] == k';
    assert kid == a[2..2 + |kid|] && kid' == b[2..2 + |kid|];
    assert d == a[2 + |kid|..] && d' == b[2 + |kid|..];
  }

  // ----- sealing and opening -----

  /** Everything the AEAD was ever asked to bind together. */
  datatype Slot = Slot(kid: Bytes, nonce: Bytes, body: Bytes, aad: Bytes)

  datatype Record<P> = Record(plain: P, at: int)

  type Ledger<P> = map<Slot, Record<P>>

  /** The randomness of one seal: the nonce, and the ciphertext and tag. */
  datatype Draw = Draw(nonce: Bytes, body: Bytes)

  ghost predicate WellDrawn<P>(ledger: Ledger<P>, d: Draw) {
    && |d.nonce| == NONCE_LENGTH && |d.body| >= TAG_LENGTH
    && forall s | s in ledger :: s.nonce != d.nonce || s.body != d.body
  }

  /** No nonce and body were ever bound to two things. */
  ghost predicate OneUse<P>(ledger: Ledger<P>) {
    forall s, t | s in ledger && t in ledger && s.nonce == t.nonce && s.body == t.body :: s == t
  }

  function Raw(kind: byte, kid: Bytes, d: Draw): Bytes {
    [ENVELOPE_V1, kind] + kid + d.nonce + d.body
  }

  function SlotFor(kind: byte, kid: Bytes, domain: Bytes, d: Draw): Slot {
    Slot(kid, d.nonce, d.body, Aad(ENVELOPE_V1, kind, kid, domain))
  }

  /** The header as the writer fills it in, byte by byte. */
  method FillHeader(kind: byte, kid: Bytes, nonce: Bytes) returns (buf: array<byte>)
    requires |kid| == COOKIE_KEY_ID_LENGTH && |nonce| == NONCE_LENGTH
    ensures fresh(buf) && buf[..] == [ENVELOPE_V1, kind] + kid + nonce
  {
    buf := new byte[HEADER_LENGTH];
    buf[0] := ENVELOPE_V1;
    buf[1] := kind;
    for i := 0 to COOKIE_KEY_ID_LENGTH
      invariant buf[0] == ENVELOPE_V1 && buf[1] == kind
      invariant forall j | 0 <= j < i :: buf[2 + j] == kid[j]
    {
      buf[2 + i] := kid[i];
    }
    for i := 0 to NONCE_LENGTH
      invariant buf[0] == ENVELOPE_V1 && buf[1] == kind
      invariant forall j | 0 <= j < COOKIE_KEY_ID_LENGTH :: buf[2 + j] == kid[j]
      invariant forall j | 0 <= j < i :: buf[2 + COOKIE_KEY_ID_LENGTH + j] == nonce[j]
    {
      buf[2 + COOKIE_KEY_ID_LENGTH + i] := nonce[i];
    }
  }

  datatype Opened<P> =
    | Plain(plain: P, kid: Bytes, current: bool)
    | Failed(wraps: Error)

  /** The envelope reader, check by check. */
  function Open<P>(ring: Ring, now: int, ledger: Ledger<P>, kind: byte, domain: Bytes, raw: Bytes): Opened<P> {
    match SealingKey(ring, now)
    case None => Failed({})
    case Some(sealWith) =>
      if |raw| < HEADER_LENGTH + TAG_LENGTH || raw[0] == 0 || raw[0] > ENVELOPE_MAX_VERSION || !ValidKind(raw[1])
      then Failed({NotSealed})
      else if raw[0] != ENVELOPE_V1 then Failed({UnknownVersion})
      else if raw[1] != kind then Failed({WrongSessionKind})
      else
        var kid := raw[2..2 + COOKIE_KEY_ID_LENGTH];
        if kid !in ring.keys then Failed({UnknownKey})
        else
          var nonce := raw[2 + COOKIE_KEY_ID_LENGTH..HEADER_LENGTH];
          var slot := Slot(kid, nonce, raw[HEADER_LENGTH..], Aad(raw[0], kind, kid, domain));
          if slot in ledger then Plain(ledger[slot].plain, kid, kid == sealWith.kid) else Failed({Authentication})
  }

  /** Reading an envelope back yields the fields it was written with. */
  lemma RawParses(kind: byte, kid: Bytes, d: Draw)
    requires |kid| == COOKIE_KEY_ID_LENGTH && |d.nonce| == NONCE_LENGTH
    ensures var raw := Raw(kind, kid, d);
            && |raw| == HEADER_LENGTH + |d.body| && raw[0] == ENVELOPE_V1 && raw[1] == kind
            && raw[2..2 + COOKIE_KEY_ID_LENGTH] == kid
            && raw[2 + COOKIE_KEY_ID_LENGTH..HEADER_LENGTH] == d.nonce
            && raw[HEADER_LENGTH..] == d.body
  {
  }

  /** The bytes are laid out as an envelope of this version. */
  ghost predicate LaidOutAs(raw: Bytes, version: byte) {
    exists kind: byte, kid: Bytes, d: Draw ::
      && raw == [version, kind] + kid + d.nonce + d.body && (kind == KIND_PAYLOAD || kind == KIND_HANDLE)
      && |kid| == COOKIE_KEY_ID_LENGTH && |d.nonce| == NONCE_LENGTH && |d.body| >= TAG_LENGTH
  }

  ghost predicate LaidOutIn(raw: Bytes, first: byte, last: byte) {
    exists v: byte :: first <= v <= last && LaidOutAs(raw, v)
  }

  /** What is no envelope of a version from 1 to 16 is refused as not sealed, and
      an envelope of another version than 1 as of an unknown version. */
  lemma ForeignBytesAreRefused<P>(ring: Ring, now: int, ledger: Ledger<P>, kind: byte, domain: Bytes, raw: Bytes)
    requires SealingKey(ring, now).Some?
    ensures Open(ring, now, ledger, kind, domain, raw) == Failed({NotSealed}) <==> !LaidOutIn(raw, 1, 16)
    ensures Open(ring, now, ledger, kind, domain, raw) == Failed({UnknownVersion}) <==> LaidOutIn(raw, 2, 16)
  {
    forall v: byte | LaidOutAs(raw, v) ensures IsEnvelope(raw) && raw[0] == v {
      var k: byte, kid: Bytes, d: Draw :|
        && raw == [v, k] + kid + d.nonce + d.body && (k == KIND_PAYLOAD || k == KIND_HANDLE)
        && |kid| == COOKIE_KEY_ID_LENGTH && |d.nonce| == NONCE_LENGTH && |d.body| >= TAG_LENGTH;
    }
    if IsEnvelope(raw) {
      var kid, d := raw[2..10], Draw(raw[10..22], raw[22..]);
      assert raw == [raw[0], raw[1]] + kid + d.nonce + d.body;
      assert LaidOutAs(raw, raw[0]);
    }
  }

  predicate IsEnvelope(raw: Bytes) {
    |raw| >= 38 && (raw[1] == KIND_PAYLOAD || raw[1] == KIND_HANDLE)
  }

  /** Envelope separation: a sealed value opens exactly when the kind and the
      domain match and its key is in the ring, and then as what was sealed;
      otherwise the failure says which of the three it was. */
  lemma OpensExactly<P>(ring: Ring, now: int, ledger: Ledger<P>, kind: byte, domain: Bytes,
                        sealKind: byte, kid: Bytes, sealDomain: Bytes, d: Draw)
    requires SealingKey(ring, now).Some? && OneUse(ledger)
    requires ValidKind(sealKind) && |kid| == COOKIE_KEY_ID_LENGTH && |d.nonce| == NONCE_LENGTH && |d.body| >= TAG_LENGTH
    requires SlotFor(sealKind, kid, sealDomain, d) in ledger
    ensures var r := Open(ring, now, ledger, kind, domain, Raw(sealKind, kid, d));
            r == if kind != sealKind then Failed({WrongSessionKind})
                 else if kid !in ring.keys then Failed({UnknownKey})
                 else if domain != sealDomain then Failed({Authentication})
                 else Plain(ledger[SlotFor(sealKind, kid, sealDomain, d)].plain, kid,
                            kid == SealingKey(ring, now).value.kid)
  {
    RawParses(sealKind, kid, d);
    var here, there := SlotFor(sealKind, kid, domain, d), SlotFor(sealKind, kid, sealDomain, d);
    if domain != sealDomain && here in ledger {
      assert here == there;
      AadIsInjective(ENVELOPE_V1, sealKind, kid, domain, ENVELOPE_V1, sealKind, kid, sealDomain);
    }
  }

  /** Nothing opens that was not sealed, with this kind and for this domain. */
  lemma NothingForged<P>(ring: Ring, now: int, ledger: Ledger<P>, kind: byte, domain: Bytes, raw: Bytes)
    requires Open(ring, now, ledger, kind, domain, raw).Plain?
    ensures exists kid, d ::
              && raw == Raw(kind, kid, d) && kid in ring.keys && |kid| == COOKIE_KEY_ID_LENGTH
              && |d.nonce| == NONCE_LENGTH && |d.body| >= TAG_LENGTH
              && SlotFor(kind, kid, domain, d) in ledger
              && ledger[SlotFor(kind, kid, domain, d)].plain == Open(ring, now, ledger, kind, domain, raw).plain
              && kid == Open(ring, now, ledger, kind, domain, raw).kid
  {
    var kid := raw[2..2 + COOKIE_KEY_ID_LENGTH];
    var d := Draw(raw[2 + COOKIE_KEY_ID_LENGTH..HEADER_LENGTH], raw[HEADER_LENGTH..]);
    assert raw == Raw(kind, kid, d);
    assert SlotFor(kind, kid, domain, d) in ledger;
  }
}
