/** What every run of statements keeps of one row, whoever issues them and in
    whatever order. Nothing here assumes that a lease holder is prompt. */
module RowHistory {
  import opened Common
  import opened SessionRows

  datatype Event = Event(at: int, stmt: Stmt)

  /** The row named `id` before event `k`. */
  function RowAt(r0: Option<Row>, id: RowId, evs: seq<Event>, k: nat): Option<Row>
    requires k <= |evs|
  {
    if k == 0 then r0 else StepRow(RowAt(r0, id, evs, k - 1), id, evs[k - 1].at, evs[k - 1].stmt)
  }

  predicate LandsAt(r0: Option<Row>, id: RowId, evs: seq<Event>, k: nat)
    requires k < |evs|
  {
    Lands(RowAt(r0, id, evs, k), id, evs[k].at, evs[k].stmt)
  }

  /** Clocks move forward, nonces and handles are drawn once. */
  ghost predicate Legal(r0: Option<Row>, id: RowId, evs: seq<Event>) {
    && (forall i :: LegalEvent(r0, id, evs, i))
    && (forall i, j :: LegalPair(id, evs, i, j))
  }

  predicate LegalEvent(r0: Option<Row>, id: RowId, evs: seq<Event>, i: int) {
    0 <= i < |evs| ==>
      && StampedBefore(r0, evs[i].at)
      && (evs[i].stmt.Take? && r0.Some? ==> r0.value.leaseNonce != Some(evs[i].stmt.nonce))
      && (IsCreate(id, evs[i].stmt) ==> r0.None?)
  }

  predicate LegalPair(id: RowId, evs: seq<Event>, i: int, j: int) {
    0 <= i < j < |evs| ==>
      && evs[i].at < evs[j].at
      && (evs[i].stmt.Take? && evs[j].stmt.Take? ==> evs[i].stmt.nonce != evs[j].stmt.nonce)
      && !(IsCreate(id, evs[i].stmt) && IsCreate(id, evs[j].stmt))
  }

  predicate IsCreate(id: RowId, s: Stmt) {
    s.Create? && s.id == id
  }

  /** Every timestamp waiters poll is older than `t`. */
  predicate StampedBefore(r: Option<Row>, t: int) {
    r.Some? ==> r.value.refreshedAt < t && (r.value.failedAt.Some? ==> r.value.failedAt.value < t)
  }

  /** A write of the token set: a refresh that landed, or an Update. */
  predicate IsTokenWrite(s: Stmt) {
    s.Commit? || s.Update?
  }

  predicate IsFence(s: Stmt, id: RowId, nonce: Nonce) {
    (s.Commit? && s.id == id && s.nonce == nonce) || (s.Fail? && s.id == id && s.nonce == nonce)
  }

  predicate IsLease(s: Stmt, id: RowId, nonce: Nonce) {
    s.Take? && s.id == id && s.nonce == nonce
  }

  // ----- timestamps -----

  lemma {:induction false} StampsStayBehind(r0: Option<Row>, id: RowId, evs: seq<Event>, k: nat, t: int)
    requires Legal(r0, id, evs) && k <= |evs|
    requires StampedBefore(r0, t)
    requires forall i | 0 <= i < k :: evs[i].at < t
    ensures StampedBefore(RowAt(r0, id, evs, k), t)
  {
    if k > 0 {
      StampsStayBehind(r0, id, evs, k - 1, t);
    }
  }

  /** The timestamps before event `j` are older than event `k`. */
  lemma StampsBefore(r0: Option<Row>, id: RowId, evs: seq<Event>, j: nat, k: nat)
    requires Legal(r0, id, evs) && j <= k < |evs|
    ensures StampedBefore(RowAt(r0, id, evs, j), evs[k].at)
  {
    assert LegalEvent(r0, id, evs, k);
    forall i | 0 <= i < j ensures evs[i].at < evs[k].at {
      assert LegalPair(id, evs, i, k);
    }
    StampsStayBehind(r0, id, evs, j, evs[k].at);
  }

  // ----- the fence -----

  /** The row no longer carries the nonce. */
  predicate NonceGone(r: Option<Row>, nonce: Nonce) {
    r.None? || r.value.leaseNonce != Some(nonce)
  }

  lemma {:induction false} NonceStaysGone(r0: Option<Row>, id: RowId, evs: seq<Event>, nonce: Nonce, j: nat, k: nat)
    requires j <= k <= |evs|
    requires NonceGone(RowAt(r0, id, evs, j), nonce)
    requires forall i | j <= i < k :: !IsLease(evs[i].stmt, id, nonce)
    ensures NonceGone(RowAt(r0, id, evs, k), nonce)
  {
    if j < k {
      NonceStaysGone(r0, id, evs, nonce, j, k - 1);
    }
  }

  lemma {:induction false} Untouched(r0: Option<Row>, id: RowId, evs: seq<Event>, j: nat, k: nat)
    requires j <= k <= |evs|
    requires forall m | j <= m < k :: !LandsAt(r0, id, evs, m)
    ensures RowAt(r0, id, evs, k) == RowAt(r0, id, evs, j)
  {
    if j < k {
      Untouched(r0, id, evs, j, k - 1);
      assert !LandsAt(r0, id, evs, k - 1);
    }
  }

  /** Anything that lands on a leased row takes the nonce with it. */
  lemma LandingDropsNonce(r: Option<Row>, id: RowId, at: int, s: Stmt, nonce: Nonce)
    requires Lands(r, id, at, s)
    requires !IsLease(s, id, nonce)
    ensures NonceGone(StepRow(r, id, at, s), nonce)
  {
  }

  /** The write-back of a lease is a compare-and-swap on the whole row: it
      lands exactly when nothing at all landed on the row since the lease was
      taken, and then it replaces the very row the lease returned. */
  lemma FenceIsCompareAndSwap(r0: Option<Row>, id: RowId, evs: seq<Event>, i: nat, j: nat, nonce: Nonce)
    requires Legal(r0, id, evs) && i < j < |evs|
    requires IsLease(evs[i].stmt, id, nonce) && LandsAt(r0, id, evs, i)
    requires IsFence(evs[j].stmt, id, nonce)
    ensures LandsAt(r0, id, evs, j) <==> forall m | i < m < j :: !LandsAt(r0, id, evs, m)
    ensures LandsAt(r0, id, evs, j) ==> RowAt(r0, id, evs, j) == RowAt(r0, id, evs, i + 1)
  {
    forall m | i < m < |evs| ensures !IsLease(evs[m].stmt, id, nonce) {
      assert LegalPair(id, evs, i, m);
    }
    if m :| i < m < j && LandsAt(r0, id, evs, m) {
      LandingDropsNonce(RowAt(r0, id, evs, m), id, evs[m].at, evs[m].stmt, nonce);
      NonceStaysGone(r0, id, evs, nonce, m + 1, j);
    } else {
      Untouched(r0, id, evs, i + 1, j);
    }
  }

  /** A fenced write that lands was preceded by its own lease. */
  lemma {:induction false} LandedFenceHasLease(
    r0: Option<Row>, id: RowId, evs: seq<Event>, j: nat, nonce: Nonce) returns (i: nat)
    requires Legal(r0, id, evs) && j <= |evs|
    requires RowAt(r0, id, evs, j).Some? && RowAt(r0, id, evs, j).value.leaseNonce == Some(nonce)
    requires NonceGone(r0, nonce)
    ensures i < j && IsLease(evs[i].stmt, id, nonce) && LandsAt(r0, id, evs, i)
    ensures forall m | i < m < j :: !LandsAt(r0, id, evs, m)
  {
    if LandsAt(r0, id, evs, j - 1) {
      if !IsLease(evs[j - 1].stmt, id, nonce) {
        LandingDropsNonce(RowAt(r0, id, evs, j - 1), id, evs[j - 1].at, evs[j - 1].stmt, nonce);
      }
      i := j - 1;
    } else {
      i := LandedFenceHasLease(r0, id, evs, j - 1, nonce);
    }
  }

  // ----- what a later read finds -----

  predicate Advanced(now: Option<int>, seen: Option<int>) {
    now.Some? && (seen.None? || now.value > seen.value)
  }

  /** The two columns a waiter polls, as its first read saw them. */
  predicate Unmoved(r: Option<Row>, seenR: int, seenF: Option<int>) {
    r.Some? && r.value.refreshedAt == seenR && r.value.failedAt == seenF
  }

  /** Moved for good: gone, refreshed, or marked failed. */
  predicate Moved(r: Option<Row>, seenR: int, seenF: Option<int>) {
    r.None? || r.value.refreshedAt > seenR || Advanced(r.value.failedAt, seenF)
  }

  ghost predicate TokenWriteIn(r0: Option<Row>, id: RowId, evs: seq<Event>, i: nat, k: nat)
    requires k <= |evs|
  {
    exists j | i <= j < k :: IsTokenWrite(evs[j].stmt) && LandsAt(r0, id, evs, j)
  }

  ghost predicate FailureIn(r0: Option<Row>, id: RowId, evs: seq<Event>, i: nat, k: nat)
    requires k <= |evs|
  {
    exists j | i <= j < k :: evs[j].stmt.Fail? && LandsAt(r0, id, evs, j)
  }

  lemma {:induction false} GoneStaysGone(r0: Option<Row>, id: RowId, evs: seq<Event>, j: nat, k: nat)
    requires j <= k <= |evs|
    requires RowAt(r0, id, evs, j).None?
    requires forall m | j <= m < k :: !IsCreate(id, evs[m].stmt)
    ensures RowAt(r0, id, evs, k).None?
  {
    if j < k {
      GoneStaysGone(r0, id, evs, j, k - 1);
    }
  }

  /** A row that existed was created, so nothing creates it again. */
  lemma {:induction false} NoSecondCreate(r0: Option<Row>, id: RowId, evs: seq<Event>, i: nat)
    requires Legal(r0, id, evs) && i <= |evs|
    requires RowAt(r0, id, evs, i).Some?
    ensures forall m | i <= m < |evs| :: !IsCreate(id, evs[m].stmt)
  {
    if i > 0 && !IsCreate(id, evs[i - 1].stmt) {
      NoSecondCreate(r0, id, evs, i - 1);
    } else {
      forall m | i <= m < |evs| ensures !IsCreate(id, evs[m].stmt) {
        assert LegalEvent(r0, id, evs, m);
        assert LegalPair(id, evs, i - 1, m);
      }
    }
  }

  lemma StillThere(r0: Option<Row>, id: RowId, evs: seq<Event>, i: nat, m: nat, k: nat)
    requires Legal(r0, id, evs) && i <= m <= k <= |evs|
    requires RowAt(r0, id, evs, i).Some? && RowAt(r0, id, evs, k).Some?
    ensures RowAt(r0, id, evs, m).Some?
  {
    NoSecondCreate(r0, id, evs, i);
    if RowAt(r0, id, evs, m).None? {
      GoneStaysGone(r0, id, evs, m, k);
    }
  }

  /** Exactly what a read at `k` finds of the columns a read at `i` saw: the
      row is still there only if it was never gone in between, it is newer
      exactly when a token write landed in between, and short of that it
      carries a new failure marker exactly when a failure landed in between. */
  lemma {:induction false} ReadVerdict(r0: Option<Row>, id: RowId, evs: seq<Event>, i: nat, k: nat)
    requires Legal(r0, id, evs) && i <= k <= |evs|
    requires RowAt(r0, id, evs, i).Some? && RowAt(r0, id, evs, k).Some?
    ensures var seen, row := RowAt(r0, id, evs, i).value, RowAt(r0, id, evs, k).value;
            && row.refreshedAt >= seen.refreshedAt
            && (row.refreshedAt > seen.refreshedAt <==> TokenWriteIn(r0, id, evs, i, k))
            && (row.refreshedAt == seen.refreshedAt ==>
                  && (Advanced(row.failedAt, seen.failedAt) <==> FailureIn(r0, id, evs, i, k))
                  && (!FailureIn(r0, id, evs, i, k) ==> row.failedAt == seen.failedAt))
  {
    if i < k {
      NoSecondCreate(r0, id, evs, i);
      StillThere(r0, id, evs, i, k - 1, k);
      ReadVerdict(r0, id, evs, i, k - 1);
      StampsBefore(r0, id, evs, k - 1, k - 1);
      StampsBefore(r0, id, evs, i, k - 1);
      if LandsAt(r0, id, evs, k - 1) {
        var s := evs[k - 1].stmt;
        assert IsTokenWrite(s) ==> TokenWriteIn(r0, id, evs, i, k);
        assert s.Fail? ==> FailureIn(r0, id, evs, i, k);
      }
      TokenWriteExtends(r0, id, evs, i, k);
      FailureExtends(r0, id, evs, i, k);
    }
  }

  lemma TokenWriteExtends(r0: Option<Row>, id: RowId, evs: seq<Event>, i: nat, k: nat)
    requires i < k <= |evs|
    ensures TokenWriteIn(r0, id, evs, i, k) <==>
            TokenWriteIn(r0, id, evs, i, k - 1) || (IsTokenWrite(evs[k - 1].stmt) && LandsAt(r0, id, evs, k - 1))
  {
    if j :| i <= j < k && IsTokenWrite(evs[j].stmt) && LandsAt(r0, id, evs, j) {
      if j < k - 1 {
        assert TokenWriteIn(r0, id, evs, i, k - 1);
      }
    }
  }

  lemma FailureExtends(r0: Option<Row>, id: RowId, evs: seq<Event>, i: nat, k: nat)
    requires i < k <= |evs|
    ensures FailureIn(r0, id, evs, i, k) <==>
            FailureIn(r0, id, evs, i, k - 1) || (evs[k - 1].stmt.Fail? && LandsAt(r0, id, evs, k - 1))
  {
    if j :| i <= j < k && evs[j].stmt.Fail? && LandsAt(r0, id, evs, j) {
      if j < k - 1 {
        assert FailureIn(r0, id, evs, i, k - 1);
      }
    }
  }

  /** No ABA. Once a commit, an update or a failure lands after a read, the
      lease guard with what that read saw is false ever after, and whatever
      the next read finds, it has moved: the poll ends there. */
  lemma NoAba(r0: Option<Row>, id: RowId, evs: seq<Event>, i: nat, j: nat, k: nat)
    requires Legal(r0, id, evs) && i <= j < k <= |evs|
    requires RowAt(r0, id, evs, i).Some?
    requires (IsTokenWrite(evs[j].stmt) || evs[j].stmt.Fail?) && LandsAt(r0, id, evs, j)
    ensures var seen := RowAt(r0, id, evs, i).value;
            && Moved(RowAt(r0, id, evs, k), seen.refreshedAt, seen.failedAt)
            && forall at, nonce, lease ::
                 !Lands(RowAt(r0, id, evs, k), id, at, Take(id, nonce, lease, seen.refreshedAt, seen.failedAt))
  {
    if RowAt(r0, id, evs, k).Some? {
      ReadVerdict(r0, id, evs, i, k);
    }
  }

  /** Short of having moved, a row a later read finds is exactly unmoved. */
  lemma MovedOrUnmoved(r0: Option<Row>, id: RowId, evs: seq<Event>, i: nat, k: nat)
    requires Legal(r0, id, evs) && i <= k <= |evs|
    requires RowAt(r0, id, evs, i).Some?
    ensures var seen := RowAt(r0, id, evs, i).value;
            Unmoved(RowAt(r0, id, evs, k), seen.refreshedAt, seen.failedAt)
              != Moved(RowAt(r0, id, evs, k), seen.refreshedAt, seen.failedAt)
  {
    if RowAt(r0, id, evs, k).Some? {
      ReadVerdict(r0, id, evs, i, k);
    }
  }

  // ----- revocation -----

  /** A row that was there and is gone stays gone: no statement recreates it,
      and none lands on it. */
  lemma RevocationIsFinal(r0: Option<Row>, id: RowId, evs: seq<Event>, i: nat, j: nat, k: nat)
    requires Legal(r0, id, evs) && i <= j <= k <= |evs|
    requires RowAt(r0, id, evs, i).Some? && RowAt(r0, id, evs, j).None?
    ensures RowAt(r0, id, evs, k).None?
    ensures k < |evs| ==> !LandsAt(r0, id, evs, k)
  {
    NoSecondCreate(r0, id, evs, i);
    GoneStaysGone(r0, id, evs, j, k);
  }

  // ----- the lifetime of a row -----

  /** No statement moves the lifetime or the subject column of a row. */
  lemma {:induction false} LifetimeIsFixed(r0: Option<Row>, id: RowId, evs: seq<Event>, i: nat, k: nat)
    requires Legal(r0, id, evs) && i <= k <= |evs|
    requires RowAt(r0, id, evs, i).Some? && RowAt(r0, id, evs, k).Some?
    ensures var a, b := RowAt(r0, id, evs, i).value, RowAt(r0, id, evs, k).value;
            a.createdAt == b.createdAt && a.expiresAt == b.expiresAt && a.subject == b.subject
  {
    if i < k {
      NoSecondCreate(r0, id, evs, i);
      StillThere(r0, id, evs, i, k - 1, k);
      LifetimeIsFixed(r0, id, evs, i, k - 1);
    }
  }

  // ----- the spacing of leases -----

  ghost predicate LeaseFreeOfWrites(r0: Option<Row>, id: RowId, evs: seq<Event>, i: nat, k: nat)
    requires k <= |evs|
  {
    !TokenWriteIn(r0, id, evs, i, k) && !FailureIn(r0, id, evs, i, k)
  }

  /** Every lease on the row is asked for with the same length. */
  predicate LeaseLength(id: RowId, evs: seq<Event>, lease: int) {
    forall i | 0 <= i < |evs| && evs[i].stmt.Take? && evs[i].stmt.id == id :: evs[i].stmt.lease == lease
  }

  /** While nothing is written, the lease on the row runs at least until the
      end of any lease taken so far. */
  lemma {:induction false} LeaseHolds(r0: Option<Row>, id: RowId, evs: seq<Event>, i: nat, k: nat, lease: int)
    requires Legal(r0, id, evs) && i < k <= |evs| && LeaseLength(id, evs, lease)
    requires evs[i].stmt.Take? && LandsAt(r0, id, evs, i)
    requires RowAt(r0, id, evs, k).Some?
    requires LeaseFreeOfWrites(r0, id, evs, i, k)
    ensures var u := RowAt(r0, id, evs, k).value.leaseUntil; u.Some? && u.value >= evs[i].at + lease
  {
    if i + 1 < k {
      NoSecondCreate(r0, id, evs, i);
      StillThere(r0, id, evs, i, k - 1, k);
      TokenWriteExtends(r0, id, evs, i, k);
      FailureExtends(r0, id, evs, i, k);
      LeaseHolds(r0, id, evs, i, k - 1, lease);
      assert LegalPair(id, evs, i, k - 1);
    }
  }

  /** Two leases with no write between them are more than one lease apart. */
  lemma LeasesAreSpaced(r0: Option<Row>, id: RowId, evs: seq<Event>, i: nat, j: nat, lease: int)
    requires Legal(r0, id, evs) && i < j < |evs| && LeaseLength(id, evs, lease)
    requires evs[i].stmt.Take? && LandsAt(r0, id, evs, i)
    requires evs[j].stmt.Take? && LandsAt(r0, id, evs, j)
    requires LeaseFreeOfWrites(r0, id, evs, i, j)
    ensures evs[j].at > evs[i].at + lease
  {
    LeaseHolds(r0, id, evs, i, j, lease);
  }

  /** How many leases are taken on the row by the events from `i` to `k`. */
  function LeaseCount(r0: Option<Row>, id: RowId, evs: seq<Event>, i: nat, k: nat): nat
    requires i <= k <= |evs|
  {
    if i == k then 0 else
      LeaseCount(r0, id, evs, i, k - 1)
      + if evs[k - 1].stmt.Take? && LandsAt(r0, id, evs, k - 1) then 1 else 0
  }

  lemma LeaseFreeOfWritesShrinks(r0: Option<Row>, id: RowId, evs: seq<Event>, i: nat, j: nat, k: nat, l: nat)
    requires i <= j <= k <= l <= |evs| && LeaseFreeOfWrites(r0, id, evs, i, l)
    ensures LeaseFreeOfWrites(r0, id, evs, j, k)
  {
  }

  /** The last lease of a stretch that took one. */
  lemma {:induction false} LastLease(r0: Option<Row>, id: RowId, evs: seq<Event>, i: nat, k: nat) returns (j: nat)
    requires i <= k <= |evs| && LeaseCount(r0, id, evs, i, k) > 0
    ensures i <= j < k && evs[j].stmt.Take? && LandsAt(r0, id, evs, j)
    ensures LeaseCount(r0, id, evs, i, j) == LeaseCount(r0, id, evs, i, k) - 1
  {
    if evs[k - 1].stmt.Take? && LandsAt(r0, id, evs, k - 1) {
      j := k - 1;
    } else {
      j := LastLease(r0, id, evs, i, k - 1);
    }
  }

  lemma {:induction false} LeasesFillTheInterval(
    r0: Option<Row>, id: RowId, evs: seq<Event>, i: nat, k: nat, lease: int)
    requires Legal(r0, id, evs) && i < k <= |evs| && LeaseLength(id, evs, lease) && lease > 0
    requires LeaseFreeOfWrites(r0, id, evs, i, k)
    ensures (LeaseCount(r0, id, evs, i, k) - 1) * lease <= evs[k - 1].at - evs[i].at
  {
    var n := LeaseCount(r0, id, evs, i, k);
    if n <= 1 {
      assert LegalPair(id, evs, i, k - 1);
      FillBase(n, lease, evs[k - 1].at - evs[i].at);
    } else {
      var j := LastLease(r0, id, evs, i, k);
      var h := LastLease(r0, id, evs, i, j);
      LeaseFreeOfWritesShrinks(r0, id, evs, i, h, j, k);
      LeasesAreSpaced(r0, id, evs, h, j, lease);
      LeaseFreeOfWritesShrinks(r0, id, evs, i, i, h + 1, k);
      LeasesFillTheInterval(r0, id, evs, i, h + 1, lease);
      assert LeaseCount(r0, id, evs, i, h + 1) == n - 1;
      assert LegalPair(id, evs, j, k - 1);
      FillStep(n, lease, evs[h].at - evs[i].at, evs[k - 1].at - evs[i].at);
    }
  }

  lemma FillBase(n: int, d: int, span: int)
    requires n <= 1 && d > 0 && 0 <= span
    ensures (n - 1) * d <= span
  {
  }

  lemma FillStep(n: int, d: int, below: int, span: int)
    requires (n - 1 - 1) * d <= below && below + d <= span
    ensures (n - 1) * d <= span
  {
    assert (n - 1) * d == (n - 1 - 1) * d + d;
  }

  lemma QuotientBound(n: int, lease: int, d: int)
    requires lease > 0 && n * lease <= d
    ensures n <= d / lease
  {
    var q := d / lease;
    assert (n - q) * lease == n * lease - q * lease;
    BelowOne(n - q, lease);
  }

  lemma BelowOne(a: int, b: int)
    requires b > 0 && a * b < b
    ensures a < 1
  {
  }

  /** A stretch without writes spanning `d` sees at most 1 + d / lease
      exchanges started. */
  lemma LeasesInAnInterval(r0: Option<Row>, id: RowId, evs: seq<Event>, i: nat, k: nat, lease: int, d: int)
    requires Legal(r0, id, evs) && i < k <= |evs| && LeaseLength(id, evs, lease) && lease > 0
    requires LeaseFreeOfWrites(r0, id, evs, i, k)
    requires evs[k - 1].at - evs[i].at <= d
    ensures LeaseCount(r0, id, evs, i, k) <= 1 + d / lease
  {
    LeasesFillTheInterval(r0, id, evs, i, k, lease);
    QuotientBound(LeaseCount(r0, id, evs, i, k) - 1, lease, d);
  }

  /** One call's own successive leases are more than two leases apart: it
      asks again only after its write-back was fenced out, and with the row
      unmoved since its first read, at `h`, only another lease in between can
      have done that. */
  lemma OwnLeasesAreTwoApart(
    r0: Option<Row>, id: RowId, evs: seq<Event>, h: nat, i: nat, j: nat, k: nat, lease: int)
    requires Legal(r0, id, evs) && h <= i < j < k < |evs| && LeaseLength(id, evs, lease)
    requires RowAt(r0, id, evs, h).Some?
    requires evs[i].stmt.Take? && evs[i].stmt.id == id && LandsAt(r0, id, evs, i)
    requires IsFence(evs[j].stmt, id, evs[i].stmt.nonce) && !LandsAt(r0, id, evs, j)
    requires evs[k].stmt.Take? && evs[k].stmt.id == id && LandsAt(r0, id, evs, k)
    requires evs[k].stmt.seenRefreshedAt == RowAt(r0, id, evs, h).value.refreshedAt
    requires evs[k].stmt.seenFailedAt == RowAt(r0, id, evs, h).value.failedAt
    ensures evs[k].at > evs[i].at + 2 * lease
  {
    FenceIsCompareAndSwap(r0, id, evs, i, j, evs[i].stmt.nonce);
    var m :| i < m < j && LandsAt(r0, id, evs, m);
    ReadVerdict(r0, id, evs, h, k);
    assert LeaseFreeOfWrites(r0, id, evs, h, k);
    assert !IsTokenWrite(evs[m].stmt) && !evs[m].stmt.Fail?;
    NoSecondCreate(r0, id, evs, i);
    StillThere(r0, id, evs, i, m + 1, k);
    LeaseFreeOfWritesShrinks(r0, id, evs, h, i, m, k);
    LeaseFreeOfWritesShrinks(r0, id, evs, h, m, k, k);
    LeasesAreSpaced(r0, id, evs, i, m, lease);
    LeasesAreSpaced(r0, id, evs, m, k, lease);
  }

  /** A commit, an update, a failure or a new row leaves the lease free: until
      something else lands, whoever reads the row and asks with what it read
      gets the lease, at every later instant before the row expires. */
  lemma WriteFreesTheLease(r0: Option<Row>, id: RowId, evs: seq<Event>, j: nat, k: nat, at: int, nonce: Nonce, lease: int)
    requires j < k <= |evs| && LandsAt(r0, id, evs, j) && forall m | j < m < k :: !LandsAt(r0, id, evs, m)
    requires IsTokenWrite(evs[j].stmt) || evs[j].stmt.Fail? || evs[j].stmt.Create?
    ensures RowAt(r0, id, evs, k).Some?
    ensures var row := RowAt(r0, id, evs, k).value;
            at < row.expiresAt ==> Lands(Some(row), id, at, Take(id, nonce, lease, row.refreshedAt, row.failedAt))
  {
    Untouched(r0, id, evs, j + 1, k);
  }

  // ----- what a lost write says -----

  /** The caller, which first read the row at `h` and took the lease at `i`,
      was fenced out when it wrote back, at `j`. */
  ghost predicate LostWrite(r0: Option<Row>, id: RowId, evs: seq<Event>, h: nat, i: nat, j: nat) {
    && Legal(r0, id, evs) && h <= i < j < |evs|
    && RowAt(r0, id, evs, h).Some?
    && evs[i].stmt.Take? && evs[i].stmt.id == id && LandsAt(r0, id, evs, i)
    && evs[i].stmt.seenRefreshedAt == RowAt(r0, id, evs, h).value.refreshedAt
    && evs[i].stmt.seenFailedAt == RowAt(r0, id, evs, h).value.failedAt
    && IsFence(evs[j].stmt, id, evs[i].stmt.nonce) && !LandsAt(r0, id, evs, j)
  }

  /** From the lost write on, every read finds the row moved. */
  ghost predicate AnsweredFrom(r0: Option<Row>, id: RowId, evs: seq<Event>, i: nat, j: nat)
    requires i < |evs| && evs[i].stmt.Take?
  {
    forall k | j <= k <= |evs| :: Moved(RowAt(r0, id, evs, k), evs[i].stmt.seenRefreshedAt, evs[i].stmt.seenFailedAt)
  }

  /** The first thing to land after a lease: a takeover only once the lease
      has lapsed. */
  lemma {:induction false} FirstLanding(r0: Option<Row>, id: RowId, evs: seq<Event>, i: nat, j: nat) returns (m: nat)
    requires i < j <= |evs| && evs[i].stmt.Take? && LandsAt(r0, id, evs, i)
    requires LandedIn(r0, id, evs, i + 1, j)
    ensures i < m < j && LandsAt(r0, id, evs, m)
    ensures evs[m].stmt.Take? ==> evs[m].at > evs[i].at + evs[i].stmt.lease
    decreases j
  {
    m :| i + 1 <= m < j && LandsAt(r0, id, evs, m);
    if LandedIn(r0, id, evs, i + 1, m) {
      m := FirstLanding(r0, id, evs, i, m);
    } else {
      Untouched(r0, id, evs, i + 1, m);
    }
  }

  /** A write-back no later than the instant after its lease that is fenced out
      was beaten by a commit, an update, a failure or a delete, never by a
      takeover alone, and so the next read answers the caller. */
  lemma PromptLostWriteIsAnswered(r0: Option<Row>, id: RowId, evs: seq<Event>, h: nat, i: nat, j: nat)
    requires LostWrite(r0, id, evs, h, i, j)
    requires evs[j].at <= evs[i].at + evs[i].stmt.lease + 1
    ensures AnsweredFrom(r0, id, evs, i, j)
  {
    FenceIsCompareAndSwap(r0, id, evs, i, j, evs[i].stmt.nonce);
    var m := FirstLanding(r0, id, evs, i, j);
    assert LegalPair(id, evs, m, j);
    forall k | j <= k <= |evs|
      ensures Moved(RowAt(r0, id, evs, k), evs[i].stmt.seenRefreshedAt, evs[i].stmt.seenFailedAt)
    {
      LandingMoves(r0, id, evs, h, m, k);
    }
  }

  /** With this lease, every write-back this long after it that is fenced out
      finds the row moved. */
  ghost predicate AlwaysAnswered(lease: int, delay: int) {
    forall r0: Option<Row>, id: RowId, evs: seq<Event>, h: nat, i: nat, j: nat |
      LostWrite(r0, id, evs, h, i, j) && evs[i].stmt.lease == lease && evs[j].at == evs[i].at + delay ::
      AnsweredFrom(r0, id, evs, i, j)
  }

  /** A fenced-out write means that somebody else's answer is in the row, or
      that the row is gone, exactly for callers that write back no later than
      the instant after their lease. */
  lemma LostWriteIsAnsweredIff(lease: int, delay: int)
    requires lease > 0
    ensures AlwaysAnswered(lease, delay) <==> delay <= lease + 1
  {
    if delay <= lease + 1 {
      forall r0: Option<Row>, id: RowId, evs: seq<Event>, h: nat, i: nat, j: nat |
        LostWrite(r0, id, evs, h, i, j) && evs[i].stmt.lease == lease && evs[j].at == evs[i].at + delay
        ensures AnsweredFrom(r0, id, evs, i, j)
      {
        PromptLostWriteIsAnswered(r0, id, evs, h, i, j);
      }
    } else {
      var r0, id, evs := LostWriteWithoutAnswer(lease, delay);
      assert LostWrite(r0, id, evs, 0, 0, 2);
      assert !AnsweredFrom(r0, id, evs, 0, 2) by {
        MovedOrUnmoved(r0, id, evs, 0, 3);
      }
    }
  }

  ghost predicate LandedIn(r0: Option<Row>, id: RowId, evs: seq<Event>, i: nat, j: nat)
    requires j <= |evs|
  {
    exists m | i <= m < j :: LandsAt(r0, id, evs, m)
  }

  /** Anything but a lease that lands on the row moves it for good. */
  lemma LandingMoves(r0: Option<Row>, id: RowId, evs: seq<Event>, h: nat, m: nat, j: nat)
    requires Legal(r0, id, evs) && h <= m < j <= |evs|
    requires RowAt(r0, id, evs, h).Some?
    requires LandsAt(r0, id, evs, m) && !evs[m].stmt.Take?
    ensures Moved(RowAt(r0, id, evs, j), RowAt(r0, id, evs, h).value.refreshedAt, RowAt(r0, id, evs, h).value.failedAt)
  {
    if IsTokenWrite(evs[m].stmt) || evs[m].stmt.Fail? {
      NoAba(r0, id, evs, h, m, j);
    } else {
      NoSecondCreate(r0, id, evs, h);
      RevocationIsFinal(r0, id, evs, h, m + 1, j);
    }
  }

  /** A takeover alone fences a commit out and leaves the row unmoved, for
      every lease and every write-back late enough for it. */
  lemma LostWriteWithoutAnswer(lease: int, delay: int) returns (r0: Option<Row>, id: RowId, evs: seq<Event>)
    requires 0 < lease && lease + 1 < delay
    ensures |evs| == 3 && LostWrite(r0, id, evs, 0, 0, 2) && evs[2].stmt.Commit?
    ensures evs[0].stmt.lease == lease && evs[2].at == evs[0].at + delay
    ensures Unmoved(RowAt(r0, id, evs, 3), evs[0].stmt.seenRefreshedAt, evs[0].stmt.seenFailedAt)
  {
    id := [];
    r0 := Some(Row("sub", [], [], 0, None, None, None, 0, 0, lease + 10));
    evs := [Event(1, Take(id, 1, lease, 0, None)),
            Event(lease + 2, Take(id, 2, lease, 0, None)),
            Event(delay + 1, Commit(id, 1, [], [], 0))];
    assert RowAt(r0, id, evs, 0) == r0;
    assert RowAt(r0, id, evs, 1) == Some(Leased(r0.value, 1, lease, 1));
    assert RowAt(r0, id, evs, 2) == Some(Leased(r0.value, 2, lease, lease + 2));
    assert RowAt(r0, id, evs, 3) == RowAt(r0, id, evs, 2);
  }
}
