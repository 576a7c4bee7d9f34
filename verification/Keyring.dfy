/** The cookie keyring: validation at construction, and the choice of the
    sealing key by time. */
module Keyring {
  import opened Common

  const COOKIE_KEY_SECRET_LENGTH := 32
  const COOKIE_KEY_ID_LENGTH := 8

  /** A key as it is configured. */
  datatype CookieKey = CookieKey(useAfter: int, secret: Bytes)

  /** A validated key. Its cipher is identified by the key id. */
  datatype Key = Key(kid: Bytes, useAfter: int)

  datatype Ring = Ring(keys: map<Bytes, Key>, byUseAfter: seq<Key>)

  /** The entry a configured key becomes; `kidOf` is the truncated hash. */
  function Entry(kidOf: Bytes -> Bytes, k: CookieKey): Key {
    Key(kidOf(k.secret), k.useAfter)
  }

  // ----- construction -----

  /** Latest use-after first. */
  predicate Descending(s: seq<Key>) {
    forall i, j | 0 <= i < j < |s| :: s[i].useAfter > s[j].useAfter
  }

  /** A ring a keyring may be: every key under its own id, sorted, and no two
      keys sharing an instant. */
  ghost predicate ValidRing(r: Ring) {
    && Descending(r.byUseAfter)
    && (forall kid | kid in r.keys :: r.keys[kid].kid == kid && r.keys[kid] in r.byUseAfter)
    && (forall k | k in r.byUseAfter :: k.kid in r.keys && r.keys[k.kid] == k)
  }

  /** What newCookieKeyring demands of the configured keys. */
  ghost predicate AcceptedKeys(keys: seq<CookieKey>, kidOf: Bytes -> Bytes, now: int) {
    && keys != []
    && (forall i | 0 <= i < |keys| :: |keys[i].secret| == COOKIE_KEY_SECRET_LENGTH)
    && NoClash(keys, kidOf)
    && (exists i | 0 <= i < |keys| :: keys[i].useAfter <= now)
  }

  predicate NoClash(keys: seq<CookieKey>, kidOf: Bytes -> Bytes) {
    forall i, j | 0 <= i < j < |keys| ::
      kidOf(keys[i].secret) != kidOf(keys[j].secret) && keys[i].useAfter != keys[j].useAfter
  }

  /** The ring holds exactly the configured keys. */
  ghost predicate Holds(r: Ring, keys: seq<CookieKey>, kidOf: Bytes -> Bytes) {
    && (forall i | 0 <= i < |keys| :: Key(kidOf(keys[i].secret), keys[i].useAfter) in r.byUseAfter)
    && (forall k | k in r.byUseAfter ::
          exists i | 0 <= i < |keys| :: k.kid == kidOf(keys[i].secret) && k.useAfter == keys[i].useAfter)
  }

  function Insert(k: Key, s: seq<Key>): seq<Key> {
    if s == [] || s[0].useAfter < k.useAfter then [k] + s else [s[0]] + Insert(k, s[1..])
  }

  lemma {:induction false} InsertSorts(k: Key, s: seq<Key>)
    requires Descending(s) && forall x | x in s :: x.useAfter != k.useAfter
    ensures Descending(Insert(k, s))
    ensures forall x :: x in Insert(k, s) <==> x == k || x in s
  {
    if s != [] && s[0].useAfter >= k.useAfter {
      assert forall x :: x in s <==> x == s[0] || x in s[1..];
      InsertSorts(k, s[1..]);
      var t := Insert(k, s[1..]);
      forall i | 0 <= i < |t| ensures t[i].useAfter < s[0].useAfter {
        assert t[i] in t;
      }
    }
  }

  function SortKeys(s: seq<Key>): seq<Key> {
    if s == [] then [] else Insert(s[0], SortKeys(s[1..]))
  }

  predicate Distinct(s: seq<Key>) {
    forall i, j | 0 <= i < j < |s| :: s[i].kid != s[j].kid && s[i].useAfter != s[j].useAfter
  }

  lemma {:induction false} SortKeysSorts(s: seq<Key>)
    requires Distinct(s)
    ensures Descending(SortKeys(s))
    ensures forall x :: x in SortKeys(s) <==> x in s
  {
    if s != [] {
      SortKeysSorts(s[1..]);
      assert forall x :: x in s <==> x == s[0] || x in s[1..];
      InsertSorts(s[0], SortKeys(s[1..]));
    }
  }

  /** The map half of a ring holds exactly the entries. */
  ghost predicate Indexed(ring: map<Bytes, Key>, entries: seq<Key>) {
    && (forall e | e in entries :: e.kid in ring && ring[e.kid] == e)
    && (forall kid | kid in ring :: ring[kid].kid == kid && ring[kid] in entries)
  }

  predicate EntriesOf(entries: seq<Key>, keys: seq<CookieKey>, kidOf: Bytes -> Bytes) {
    |entries| <= |keys| && forall j | 0 <= j < |entries| :: entries[j] == Entry(kidOf, keys[j])
  }

  /** The validation loop: one entry per key, or a refusal that names a
      secret of the wrong length or two keys that clash. */
  method CollectEntries(keys: seq<CookieKey>, kidOf: Bytes -> Bytes)
    returns (ok: bool, ring: map<Bytes, Key>, entries: seq<Key>)
    ensures ok <==> NoClash(keys, kidOf) && forall i | 0 <= i < |keys| :: |keys[i].secret| == COOKIE_KEY_SECRET_LENGTH
    ensures ok ==> EntriesOf(entries, keys, kidOf) && |entries| == |keys| && Distinct(entries) && Indexed(ring, entries)
  {
    ring, entries := map[], [];
    var instants: set<int> := {};
    var i := 0;
    while i < |keys|
      invariant |entries| == i <= |keys| && EntriesOf(entries, keys, kidOf)
      invariant forall j | 0 <= j < i :: |keys[j].secret| == COOKIE_KEY_SECRET_LENGTH
      invariant Distinct(entries) && Indexed(ring, entries)
      invariant InstantsOf(instants, entries)
    {
      var key := keys[i];
      if |key.secret| != COOKIE_KEY_SECRET_LENGTH {
        return false, ring, entries;
      }
      var entry := Entry(kidOf, key);
      if entry.kid in ring {
        KidClash(keys, kidOf, ring, entries);
        return false, ring, entries;
      }
      if key.useAfter in instants {
        InstantClash(keys, kidOf, instants, entries);
        return false, ring, entries;
      }
      AddEntry(ring, entries, instants, entry);
      ring := ring[entry.kid := entry];
      instants := instants + {key.useAfter};
      entries := entries + [entry];
      i := i + 1;
    }
    EntriesDoNotClash(entries, keys, kidOf);
    ok := true;
  }

  /** Validates the keys and builds the ring. A nil result is a refusal. */
  method NewCookieKeyring(keys: seq<CookieKey>, kidOf: Bytes -> Bytes, now: int) returns (r: Option<Ring>)
    ensures r.Some? <==> AcceptedKeys(keys, kidOf, now)
    ensures r.Some? ==> ValidRing(r.value) && Holds(r.value, keys, kidOf)
  {
    if keys == [] {
      return None;
    }
    var ok, ring, entries := CollectEntries(keys, kidOf);
    if !ok {
      return None;
    }
    SortKeysSorts(entries);
    var built := Ring(ring, SortKeys(entries));
    EntriesHold(entries, keys, kidOf, built);
    EligibleIff(keys, kidOf, built, now);
    var sealWith := FindSealingKey(built, now);
    return if sealWith.None? then None else Some(built);
  }

  lemma Clash(keys: seq<CookieKey>, kidOf: Bytes -> Bytes, i: nat, j: nat)
    requires i < j < |keys|
    requires kidOf(keys[i].secret) == kidOf(keys[j].secret) || keys[i].useAfter == keys[j].useAfter
    ensures !NoClash(keys, kidOf)
  {
  }

  lemma KidClash(keys: seq<CookieKey>, kidOf: Bytes -> Bytes, ring: map<Bytes, Key>, entries: seq<Key>)
    requires EntriesOf(entries, keys, kidOf) && |entries| < |keys| && Indexed(ring, entries)
    requires kidOf(keys[|entries|].secret) in ring
    ensures !NoClash(keys, kidOf)
  {
    var j :| 0 <= j < |entries| && entries[j] == ring[kidOf(keys[|entries|].secret)];
    Clash(keys, kidOf, j, |entries|);
  }

  lemma InstantClash(keys: seq<CookieKey>, kidOf: Bytes -> Bytes, instants: set<int>, entries: seq<Key>)
    requires EntriesOf(entries, keys, kidOf) && |entries| < |keys| && InstantsOf(instants, entries)
    requires keys[|entries|].useAfter in instants
    ensures !NoClash(keys, kidOf)
  {
    var e :| e in entries && e.useAfter == keys[|entries|].useAfter;
    var j :| 0 <= j < |entries| && entries[j] == e;
    Clash(keys, kidOf, j, |entries|);
  }

  lemma AddEntry(ring: map<Bytes, Key>, entries: seq<Key>, instants: set<int>, e: Key)
    requires Distinct(entries) && Indexed(ring, entries) && InstantsOf(instants, entries)
    requires e.kid !in ring && e.useAfter !in instants
    ensures Distinct(entries + [e]) && Indexed(ring[e.kid := e], entries + [e])
    ensures InstantsOf(instants + {e.useAfter}, entries + [e])
  {
    assert forall x :: x in entries + [e] <==> x == e || x in entries;
  }

  ghost predicate InstantsOf(instants: set<int>, entries: seq<Key>) {
    && (forall x | x in entries :: x.useAfter in instants)
    && (forall t | t in instants :: exists x | x in entries :: x.useAfter == t)
  }

  lemma EntriesHold(entries: seq<Key>, keys: seq<CookieKey>, kidOf: Bytes -> Bytes, r: Ring)
    requires EntriesOf(entries, keys, kidOf) && |entries| == |keys| && Distinct(entries) && Indexed(r.keys, entries)
    requires Descending(r.byUseAfter) && forall x :: x in r.byUseAfter <==> x in entries
    ensures ValidRing(r) && Holds(r, keys, kidOf)
  {
    forall i | 0 <= i < |keys| ensures Entry(kidOf, keys[i]) in r.byUseAfter {
      assert entries[i] in entries;
    }
  }

  lemma EntriesDoNotClash(entries: seq<Key>, keys: seq<CookieKey>, kidOf: Bytes -> Bytes)
    requires EntriesOf(entries, keys, kidOf) && |entries| == |keys| && Distinct(entries)
    ensures NoClash(keys, kidOf)
  {
    forall i, j | 0 <= i < j < |keys|
      ensures kidOf(keys[i].secret) != kidOf(keys[j].secret) && keys[i].useAfter != keys[j].useAfter
    {
      assert entries[i].kid != entries[j].kid && entries[i].useAfter != entries[j].useAfter;
    }
  }

  /** A ring that holds the keys can seal exactly if one of them is eligible. */
  lemma EligibleIff(keys: seq<CookieKey>, kidOf: Bytes -> Bytes, r: Ring, now: int)
    requires ValidRing(r) && Holds(r, keys, kidOf)
    ensures SealingKey(r, now).Some? <==> exists i | 0 <= i < |keys| :: keys[i].useAfter <= now
  {
    SealingFromIsLatest(r.byUseAfter, now);
    match SealingKey(r, now)
    case Some(k) =>
      var i :| 0 <= i < |keys| && k.kid == kidOf(keys[i].secret) && k.useAfter == keys[i].useAfter;
      assert keys[i].useAfter <= now;
    case None =>
      forall i | 0 <= i < |keys| ensures keys[i].useAfter > now {
        assert Entry(kidOf, keys[i]) in r.byUseAfter;
      }
  }

  // ----- the sealing key -----

  /** The first key of the list whose use-after has passed. */
  function SealingFrom(s: seq<Key>, now: int): Option<Key> {
    if s == [] then None else if s[0].useAfter <= now then Some(s[0]) else SealingFrom(s[1..], now)
  }

  function SealingKey(r: Ring, now: int): Option<Key> {
    SealingFrom(r.byUseAfter, now)
  }

  /** sealingKey's walk over the sorted keys. */
  method FindSealingKey(r: Ring, now: int) returns (k: Option<Key>)
    ensures k == SealingKey(r, now)
    ensures k.None? ==> forall x | x in r.byUseAfter :: x.useAfter > now
  {
    var i := 0;
    while i < |r.byUseAfter|
      invariant 0 <= i <= |r.byUseAfter|
      invariant SealingFrom(r.byUseAfter[i..], now) == SealingKey(r, now)
      invariant forall j | 0 <= j < i :: r.byUseAfter[j].useAfter > now
    {
      if r.byUseAfter[i].useAfter <= now {
        return Some(r.byUseAfter[i]);
      }
      assert r.byUseAfter[i..][1..] == r.byUseAfter[i + 1..];
      i := i + 1;
    }
    return None;
  }

  /** The key in force at `now`: of those whose use-after has passed, the one
      with the latest. */
  ghost predicate InForce(r: Ring, now: int, k: Key) {
    && k in r.byUseAfter && k.useAfter <= now
    && forall x | x in r.byUseAfter && x.useAfter <= now :: x.useAfter <= k.useAfter
  }

  lemma {:induction false} SealingFromIsLatest(s: seq<Key>, now: int)
    requires Descending(s)
    ensures match SealingFrom(s, now)
            case None => forall x | x in s :: x.useAfter > now
            case Some(k) => k in s && k.useAfter <= now && forall x | x in s && x.useAfter <= now :: x.useAfter <= k.useAfter
  {
    if s != [] {
      assert forall x :: x in s <==> x == s[0] || x in s[1..];
      SealingFromIsLatest(s[1..], now);
    }
  }

  /** For every ring a keyring may be, in whatever order its keys were
      configured, the sealing key is the one in force, there is one as soon as
      any use-after has passed, and it is the only one in force. */
  lemma SealingKeyIsInForce(r: Ring, now: int)
    requires ValidRing(r)
    ensures SealingKey(r, now).Some? <==> exists x | x in r.byUseAfter :: x.useAfter <= now
    ensures SealingKey(r, now).Some? ==> InForce(r, now, SealingKey(r, now).value)
    ensures forall k | InForce(r, now, k) :: SealingKey(r, now) == Some(k)
  {
    SealingFromIsLatest(r.byUseAfter, now);
    forall k | InForce(r, now, k) ensures SealingKey(r, now) == Some(k) {
      OneInForce(r, now, k, SealingKey(r, now).value);
    }
  }

  lemma OneInForce(r: Ring, now: int, a: Key, b: Key)
    requires Descending(r.byUseAfter) && InForce(r, now, a) && InForce(r, now, b)
    ensures a == b
  {
    var i :| 0 <= i < |r.byUseAfter| && r.byUseAfter[i] == a;
    var j :| 0 <= j < |r.byUseAfter| && r.byUseAfter[j] == b;
    assert a.useAfter == b.useAfter;
  }

  /** A keyring that was accepted once can seal at every later time. */
  lemma AcceptedRingKeepsSealing(r: Ring, keys: seq<CookieKey>, kidOf: Bytes -> Bytes, start: int, now: int)
    requires AcceptedKeys(keys, kidOf, start) && ValidRing(r) && Holds(r, keys, kidOf) && start <= now
    ensures SealingKey(r, now).Some?
  {
    var i :| 0 <= i < |keys| && keys[i].useAfter <= start;
    assert Entry(kidOf, keys[i]) in r.byUseAfter;
    SealingKeyIsInForce(r, now);
  }

  /** What is sealed at `a` is still under the sealing key at `b` exactly when
      no use-after passes in between. */
  lemma CurrentIffNoBoundary(r: Ring, a: int, b: int)
    requires ValidRing(r) && a <= b && SealingKey(r, a).Some?
    ensures SealingKey(r, b).Some?
    ensures SealingKey(r, a).value.kid == SealingKey(r, b).value.kid
            <==> forall x | x in r.byUseAfter :: !(a < x.useAfter <= b)
  {
    SealingKeyIsInForce(r, a);
    SealingKeyIsInForce(r, b);
    var ka := SealingKey(r, a).value;
    assert ka in r.byUseAfter && ka.useAfter <= b;
    if forall x | x in r.byUseAfter :: !(a < x.useAfter <= b) {
      assert InForce(r, b, ka);
    }
  }

  /** A ring with fewer keys seals alike as long as it kept the key in force. In
      particular the order the keys were configured in makes no difference. */
  lemma SubringSealsAlike(r: Ring, sub: Ring, now: int)
    requires ValidRing(r) && ValidRing(sub) && SealingKey(r, now).Some?
    requires forall x | x in sub.byUseAfter :: x in r.byUseAfter
    requires SealingKey(r, now).value in sub.byUseAfter
    ensures SealingKey(sub, now) == SealingKey(r, now)
  {
    SealingKeyIsInForce(r, now);
    SealingKeyIsInForce(sub, now);
    assert InForce(sub, now, SealingKey(r, now).value);
  }
}
