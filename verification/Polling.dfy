/** How a Refresh call that is waiting for another finds out. */
module Polling {
  import opened Common
  import opened SessionRows
  import opened RowHistory
  import opened RefreshWorld
  import opened StoreConf
  import opened RefreshLoop
  import opened RefreshMeaning
  import opened OwnLeases

  /** The read of a pass that starts now. */
  function PollOf(env: Env, x: Call, w: World): Outcome {
    DoStmt(env, Clock(env, w), x.id, Get(x.id))
  }

  ghost predicate WrittenBy(env: Env, x: Call, h: nat, w: World) {
    TokenWriteIn(Lookup(w.base, x.id), x.id, PollOf(env, x, w).w.log, h, ReadIndex(env, w))
  }

  ghost predicate FailedBy(env: Env, x: Call, h: nat, w: World) {
    FailureIn(Lookup(w.base, x.id), x.id, PollOf(env, x, w).w.log, h, ReadIndex(env, w))
  }

  /** When the pass reads the row, the wait is over: since the read at `h` a
      token was written, a failure was recorded, or the row went. */
  ghost predicate Settled(env: Env, x: Call, h: nat, w: World) {
    WrittenBy(env, x, h, w) || FailedBy(env, x, h, w) || RowIn(x, PollOf(env, x, w).w, ReadIndex(env, w)).None?
  }

  /** What the pass then answers, given what the row is when it is read. */
  ghost function PollAnswer(env: Env, x: Call, h: nat, w: World, l: Local): Result<StoredToken> {
    var v, k := PollOf(env, x, w).w, ReadIndex(env, w);
    if TimedOut(env, w, l) then Err({RefreshTimeout})
    else if !env.turns(Clock(env, w).turn).fault.Fine? then Err({})
    else
      match RowIn(x, v, k)
      case None => Err({NoSession})
      case Some(row) =>
        if row.expiresAt <= v.log[k].at then Err({NoSession}) else
          match x.sealer.open(x.id, row.payload)
          case None => Err({NoSession})
          case Some(p) =>
            if WrittenBy(env, x, h, w)
            then Ok(StoredToken(x.t.handle, p.subject, Some(p.token), p.idToken, row.createdAt, row.expiresAt, x.t.stale))
            else Err({RefreshFailed, RefreshRejected})
  }

  /** A read changes nothing, so it finds the row as it was before it. */
  lemma PollFinds(env: Env, x: Call, w: World)
    requires Consistent(w, x.id)
    ensures var o, k := PollOf(env, x, w), ReadIndex(env, w);
            && Consistent(o.w, x.id) && Later(w, o.w, x.id) && |w.log| <= k
            && (o.failed <==> !env.turns(Clock(env, w).turn).fault.Fine?)
            && (!o.failed ==>
                  && |o.w.log| == k + 1 && o.w.log[k] == Event(o.w.now, Get(x.id)) && o.row == RowIn(x, o.w, k))
  {
    var w1 := Clock(env, w);
    ElapseKeeps(env, w, x.id, 0);
    ElapseKeeps(env, w1, x.id, 0);
    StmtKeeps(env, w1, x.id, Get(x.id));
    LaterTransitive(w, w1, PollOf(env, x, w).w, x.id);
  }

  lemma SettledRowHasMoved(env: Env, x: Call, from: nat, h: nat, w: World, l: Local)
    requires HeadInv(env, x, from, h, w, l) && l.pass > 0 && Settled(env, x, h, w)
    requires !PollOf(env, x, w).failed && PollOf(env, x, w).row.Some?
    ensures var row := PollOf(env, x, w).row.value;
            && (row.refreshedAt > l.seenR <==> WrittenBy(env, x, h, w))
            && (row.refreshedAt > l.seenR || Advanced(row.failedAt, l.seenF))
  {
    PollFinds(env, x, w);
    var o := PollOf(env, x, w);
    FirstReadStays(x, w, o.w, from, h, l);
    ReadVerdict(Lookup(w.base, x.id), x.id, o.w.log, h, ReadIndex(env, w));
  }

  /** Once a commit, an update or a failure has landed after a call's first
      read, or the row is gone, its next pass ends it. If the read goes through,
      the answer is the new session, even if a failure was recorded as well;
      short of a new session the recorded failure; or that there is no session. */
  lemma NextReadEnds(env: Env, x: Call, from: nat, h: nat, w: World, l: Local)
    requires HeadInv(env, x, from, h, w, l) && l.pass > 0 && Settled(env, x, h, w)
    ensures Pass(env, x, w, l).Return? && Pass(env, x, w, l).r == PollAnswer(env, x, h, w, l)
  {
    PollFinds(env, x, w);
    var o := PollOf(env, x, w);
    if !o.failed && o.row.Some? {
      SettledRowHasMoved(env, x, from, h, w, l);
    }
  }

  /** The same, of every pass of every call but the first: it ends the call
      there, with that answer, and no pass follows. */
  lemma PollEndsTheCall(env: Env, x: Call, w: World, heads: seq<Head>, n: nat)
    requires Faithful(x.sealer) && Consistent(w, x.id) && w.mine == {}
    requires PassesOf(env, x, w, heads) && 0 < n < |heads|
    requires Settled(env, x, FirstReadOf(env, w), heads[n].w)
    ensures n == |heads| - 1
    ensures Refresh(env, x, w).1 == PollAnswer(env, x, FirstReadOf(env, w), heads[n].w, heads[n].l)
  {
    HeadsKeep(env, x, w, heads, n);
    assert n < |heads| - 1 ==> Follows(env, x, heads[n], heads[n + 1]);
    NextReadEnds(env, x, |w.log|, FirstReadOf(env, w), heads[n].w, heads[n].l);
    PassesEndTheCall(env, x, w, heads);
  }

  // ----- reads that settle nothing -----

  /** The read went through and found a session to go on with. */
  ghost predicate Readable(env: Env, x: Call, w: World) {
    var o := PollOf(env, x, w);
    && env.turns(Clock(env, w).turn).fault.Fine? && o.row.Some? && o.w.now < o.row.value.expiresAt
    && x.sealer.open(x.id, o.row.value.payload).Some?
  }

  /** The world when the call looks at what it read. */
  function LookedAt(env: Env, x: Call, w: World): World {
    Clock(env, PollOf(env, x, w).w)
  }

  /** The token found has more than the refresh margin left when it is looked at. */
  ghost predicate Fresh(env: Env, x: Call, w: World)
    requires Readable(env, x, w)
  {
    var p := x.sealer.open(x.id, PollOf(env, x, w).row.value.payload).value;
    p.token.expiry - (LookedAt(env, x, w).now + env.skew) > x.conf.refreshMargin
  }

  lemma AskDraws(env: Env, x: Call, w: World, l: Local)
    requires Consistent(w, x.id) && l.lost == 0 && !env.turns(w.turn).randFails
    ensures Drawn(env, w) in AskForLease(env, x, w, l).w.mine && w.nextNonce <= Drawn(env, w)
  {
    TakeKeeps(env, w, x.id, x.conf.refreshLease, l.seenR, l.seenF);
    var o := DoTake(env, w, x.id, x.conf.refreshLease, l.seenR, l.seenF);
    if !o.failed && o.landed {
      ExchangeProgresses(env, x, o.w, Drawn(env, w), o.row.value);
    } else if !o.failed {
      ElapseKeeps(env, o.w, x.id, if env.turns(o.w.turn).cancelled then 0 else l.backoff);
    }
  }

  /** The first pass of a call. A read that cannot be used ends it; a token with
      more than the margin left is the answer, and no lease is asked for; and
      otherwise the call asks for the lease. */
  lemma FirstPassDecides(env: Env, x: Call, w: World, l: Local)
    requires Consistent(w, x.id) && l.pass == 0 && l.lost == 0
    ensures var v, o := Pass(env, x, w, l), PollOf(env, x, w);
            if !Readable(env, x, w) then
              v == Return(o.w, Err(if env.turns(Clock(env, w).turn).fault.Fine? then {NoSession} else {}))
            else if Fresh(env, x, w) then
              v.Return? && v.w == LookedAt(env, x, w) && v.w.mine == w.mine && v.r.Ok? && ReadIndex(env, w) <= |v.w.log|
              && SessionAt(x, v.w, v.r.value, ReadIndex(env, w))
            else env.turns(LookedAt(env, x, w).turn).randFails || Drawn(env, LookedAt(env, x, w)) in v.w.mine
  {
    PollFinds(env, x, w);
    var w1, o, w2 := Clock(env, w), PollOf(env, x, w), LookedAt(env, x, w);
    ElapseKeeps(env, w, x.id, 0);
    StmtKeeps(env, w1, x.id, Get(x.id));
    ElapseKeeps(env, o.w, x.id, 0);
    if Readable(env, x, w) {
      RowAtPrefix(Lookup(w.base, x.id), x.id, o.w.log, w2.log, ReadIndex(env, w));
      if !Fresh(env, x, w) && !env.turns(w2.turn).randFails {
        AskDraws(env, x, w2, l.(seenR := o.row.value.refreshedAt, seenF := o.row.value.failedAt));
      }
    }
  }

  /** A fresh token is the whole call: no lease, no exchange, nothing written. */
  lemma FreshReadEndsTheCall(env: Env, x: Call, w: World)
    requires Consistent(w, x.id) && w.mine == {} && Readable(env, x, Clock(env, w)) && Fresh(env, x, Clock(env, w))
    ensures var (v, r) := Refresh(env, x, w);
            && FirstReadOf(env, w) <= |v.log|
            && r.Ok? && SessionAt(x, v, r.value, FirstReadOf(env, w))
            && v.mine == {} && OwnCount(x, v, |v.log|) == 0
  {
    ElapseKeeps(env, w, x.id, 0);
    var w1 := Clock(env, w);
    FirstPassDecides(env, x, w1, Begin(env, x, w1));
    LoopStep(env, x, w1, Begin(env, x, w1));
    NoneWithoutNonce(x, Refresh(env, x, w).0, |Refresh(env, x, w).0.log|);
  }

  lemma {:induction false} NoneWithoutNonce(x: Call, w: World, k: nat)
    requires w.mine == {}
    ensures OwnCount(x, w, k) == 0
  {
    if k > 0 {
      NoneWithoutNonce(x, w, k - 1);
    }
  }

  /** A later pass whose read settles nothing asks for the lease again. */
  lemma UnsettledReadAsksAgain(env: Env, x: Call, from: nat, h: nat, w: World, l: Local)
    requires HeadInv(env, x, from, h, w, l) && l.pass > 0 && !TimedOut(env, w, l)
    requires Readable(env, x, w) && !Settled(env, x, h, w)
    requires !env.turns(PollOf(env, x, w).w.turn).randFails
    ensures Drawn(env, PollOf(env, x, w).w) in Pass(env, x, w, l).w.mine
  {
    PollFinds(env, x, w);
    var o := PollOf(env, x, w);
    FirstReadStays(x, w, o.w, from, h, l);
    ReadVerdict(Lookup(w.base, x.id), x.id, o.w.log, h, ReadIndex(env, w));
    AskDraws(env, x, o.w, Counted(l));
  }

  // ----- backing off -----

  function Pow2(n: nat): nat {
    if n == 0 then 1 else 2 * Pow2(n - 1)
  }

  /** How long the wait number `n` is: 25 ms, doubling, capped at 500 ms. */
  function Backoff(n: nat): nat {
    Min(25 * MILLISECOND * Pow2(n), 500 * MILLISECOND)
  }

  function TotalBackoff(n: nat): nat {
    if n == 0 then 0 else TotalBackoff(n - 1) + Backoff(n - 1)
  }

  /** How many of the first `n` passes ended in a wait rather than a lost write. */
  function Waits(heads: seq<Head>, n: nat): nat
    requires n < |heads|
  {
    if n == 0 then 0 else Waits(heads, n - 1) + if heads[n].l.lost == 0 then 1 else 0
  }

  lemma PassWaits(env: Env, x: Call, w: World, l: Local)
    requires Consistent(w, x.id) && l.lost <= 1 && Pass(env, x, w, l).Again?
    ensures var v := Pass(env, x, w, l);
            && w.now <= v.w.now
            && v.l.backoff == (if v.l.lost == 0 then Min(2 * l.backoff, REFRESH_POLL_MAX) else l.backoff)
            && (v.l.lost == 0 ==> w.now + l.backoff <= v.w.now)
  {
    PollFinds(env, x, w);
    PassProgresses(env, x, w, l);
    var o := PollOf(env, x, w);
    JudgeWaits(env, x, o.w, Counted(l), o.row.value, x.sealer.open(x.id, o.row.value.payload).value);
  }

  lemma JudgeWaits(env: Env, x: Call, w: World, l: Local, row: Row, p: RowPayload)
    requires Consistent(w, x.id) && l.lost == 0
    ensures var v := Judge(env, x, w, l, row, p);
            v.Again? ==>
              && v.l.backoff == (if v.l.lost == 0 then Min(2 * l.backoff, REFRESH_POLL_MAX) else l.backoff)
              && (v.l.lost == 0 ==> w.now + l.backoff <= v.w.now)
  {
    if l.pass == 0 {
      ElapseKeeps(env, w, x.id, 0);
      AskWaits(env, x, Clock(env, w), l.(seenR := row.refreshedAt, seenF := row.failedAt));
    } else {
      AskWaits(env, x, w, l);
    }
  }

  lemma AskWaits(env: Env, x: Call, w: World, l: Local)
    requires Consistent(w, x.id) && l.lost == 0
    ensures var v := AskForLease(env, x, w, l);
            v.Again? ==>
              && v.l.backoff == (if v.l.lost == 0 then Min(2 * l.backoff, REFRESH_POLL_MAX) else l.backoff)
              && (v.l.lost == 0 ==> w.now + l.backoff <= v.w.now)
  {
    TakeKeeps(env, w, x.id, x.conf.refreshLease, l.seenR, l.seenF);
    var o := DoTake(env, w, x.id, x.conf.refreshLease, l.seenR, l.seenF);
    ElapseKeeps(env, o.w, x.id, l.backoff);
  }

  lemma NextBackoff(n: nat)
    ensures Backoff(n + 1) == Min(2 * Backoff(n), REFRESH_POLL_MAX)
  {
    assert Pow2(n + 1) == 2 * Pow2(n);
  }

  lemma StepWaits(env: Env, x: Call, a: Head, b: Head)
    requires Consistent(a.w, x.id) && a.l.lost <= 1 && Follows(env, x, a, b)
    ensures Consistent(b.w, x.id) && b.l.lost <= 1 && a.w.now <= b.w.now
    ensures b.l.backoff == if b.l.lost == 0 then Min(2 * a.l.backoff, REFRESH_POLL_MAX) else a.l.backoff
    ensures b.l.lost == 0 ==> a.w.now + a.l.backoff <= b.w.now
  {
    PassWaits(env, x, a.w, a.l);
    PassProgresses(env, x, a.w, a.l);
  }

  /** The waits of every call follow the schedule, and only a wait moves it on. */
  lemma {:induction false} CallsBackOff(env: Env, x: Call, w: World, heads: seq<Head>, n: nat)
    requires Consistent(w, x.id) && PassesOf(env, x, w, heads) && n < |heads|
    ensures heads[n].l.backoff == Backoff(Waits(heads, n))
    ensures heads[0].w.now + TotalBackoff(Waits(heads, n)) <= heads[n].w.now
    ensures Consistent(heads[n].w, x.id) && heads[n].l.lost <= 1
  {
    if n == 0 {
      ElapseKeeps(env, w, x.id, 0);
    } else {
      CallsBackOff(env, x, w, heads, n - 1);
      assert Follows(env, x, heads[n - 1], heads[n - 1 + 1]);
      StepWaits(env, x, heads[n - 1], heads[n]);
      NextBackoff(Waits(heads, n - 1));
    }
  }
}
