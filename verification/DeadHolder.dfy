/** A refresher that died holding the lease costs the next caller one slow
    request, not its session. */
module DeadHolder {
  import opened Common
  import opened SessionRows
  import opened RowHistory
  import opened RefreshWorld
  import opened StoreConf
  import opened RefreshLoop
  import opened RefreshMeaning

  /** Nobody else intervenes, nothing fails, and no step of the call is delayed
      by more than `delay`. */
  ghost predicate Undisturbed(env: Env, delay: nat) {
    forall k :: CalmTurn(env.turns(k), delay)
  }

  predicate CalmTurn(t: Turn, delay: nat) {
    t.others == [] && t.delay <= delay && t.fault.Fine? && !t.cancelled && !t.randFails
  }

  /** The row is as the dead holder left it, leased until `until`, and the
      caller has read it. */
  ghost predicate Waiting(x: Call, w: World, l: Local, row: Row, until: int) {
    && Consistent(w, x.id)
    && Lookup(w.rows, x.id) == Some(row) && row.leaseUntil == Some(until)
    && l.seenR == row.refreshedAt && l.seenF == row.failedAt
    && l.lost == 0 && 0 < l.backoff <= REFRESH_POLL_MAX
  }

  /** The call took the lease over, no later than `latest`. */
  ghost predicate TookOver(x: Call, w: World, latest: int) {
    exists i: nat | i < |w.log| ::
      && w.log[i].stmt.Take? && w.log[i].stmt.id == x.id && w.log[i].stmt.nonce in w.mine
      && LandsAt(Lookup(w.base, x.id), x.id, w.log, i) && w.log[i].at <= latest
  }

  lemma TookOverStays(x: Call, w: World, v: World, latest: int)
    requires Later(w, v, x.id) && TookOver(x, w, latest)
    ensures TookOver(x, v, latest)
  {
    var i: nat :| i < |w.log| && w.log[i].stmt.Take? && w.log[i].stmt.id == x.id && w.log[i].stmt.nonce in w.mine
      && LandsAt(Lookup(w.base, x.id), x.id, w.log, i) && w.log[i].at <= latest;
    RowAtPrefix(Lookup(w.base, x.id), x.id, w.log, v.log, i);
    assert v.log[i] == w.log[i];
  }

  /** With nobody else about, only time passes. */
  lemma CalmElapse(env: Env, w: World, delay: nat, least: nat)
    requires Undisturbed(env, delay)
    ensures Elapse(env, w, least).rows == w.rows
    ensures w.now + least <= Elapse(env, w, least).now <= w.now + least + delay
  {
    assert CalmTurn(env.turns(w.turn), delay);
    assert AdmitAll(w, []) == w;
  }

  /** Asking for the lease either takes it, or finds it still held and waits
      one backoff from there. */
  lemma AskTakesOverOrWaits(env: Env, x: Call, w: World, l: Local, row: Row, until: int, delay: nat)
    requires Undisturbed(env, delay) && Waiting(x, w, l, row, until)
    requires w.now + delay + 1 < row.expiresAt
    ensures var v := AskForLease(env, x, w, l);
            || TookOver(x, v.w, w.now + delay + 1)
            || (&& v.Again? && Waiting(x, v.w, v.l, row, until) && v.l.pass == l.pass + 1
                && v.l.deadline == l.deadline && v.w.now <= until + REFRESH_POLL_MAX + delay)
  {
    var v := AskForLease(env, x, w, l);
    var o := DoTake(env, w, x.id, x.conf.refreshLease, l.seenR, l.seenF);
    assert CalmTurn(env.turns(w.turn), delay) && CalmTurn(env.turns(o.w.turn), delay);
    CalmElapse(env, w, delay, 0);
    TakeKeeps(env, w, x.id, x.conf.refreshLease, l.seenR, l.seenF);
    if o.landed {
      var i := |o.w.log| - 1;
      assert o.w.log[i].at <= w.now + delay + 1;
      assert TookOver(x, o.w, w.now + delay + 1);
      ExchangeProgresses(env, x, o.w, Drawn(env, w), o.row.value);
      TookOverStays(x, o.w, v.w, w.now + delay + 1);
    } else {
      assert o.w.now <= until;
      CalmElapse(env, o.w, delay, l.backoff);
      ElapseKeeps(env, o.w, x.id, l.backoff);
    }
  }

  /** A pass that starts before the deadline reads the row as the holder left
      it and asks for the lease. */
  lemma PassTakesOverOrWaits(env: Env, x: Call, w: World, l: Local, row: Row, until: int, delay: nat)
    requires Undisturbed(env, delay) && Waiting(x, w, l, row, until) && l.pass > 0
    requires x.sealer.open(x.id, row.payload).Some?
    requires w.now + delay + env.skew < l.deadline
    requires w.now + 3 * delay + 2 < row.expiresAt
    ensures var v := Pass(env, x, w, l);
            || TookOver(x, v.w, w.now + 3 * delay + 2)
            || (&& v.Again? && Waiting(x, v.w, v.l, row, until) && v.l.pass == l.pass + 1
                && v.l.deadline == l.deadline && v.w.now <= until + REFRESH_POLL_MAX + delay)
  {
    ReadFindsIt(env, x, w, l, row, until, delay);
    var v := DoStmt(env, Clock(env, w), x.id, Get(x.id)).w;
    AskTakesOverOrWaits(env, x, v, l, row, until, delay);
    if TookOver(x, AskForLease(env, x, v, l).w, v.now + delay + 1) {
      TookOverEarlier(x, AskForLease(env, x, v, l).w, v.now + delay + 1, w.now + 3 * delay + 2);
    }
  }

  lemma ReadFindsIt(env: Env, x: Call, w: World, l: Local, row: Row, until: int, delay: nat)
    requires Undisturbed(env, delay) && Waiting(x, w, l, row, until) && l.pass > 0
    requires x.sealer.open(x.id, row.payload).Some?
    requires w.now + delay + env.skew < l.deadline
    requires w.now + 3 * delay + 2 < row.expiresAt
    ensures var v := DoStmt(env, Clock(env, w), x.id, Get(x.id)).w;
            && Pass(env, x, w, l) == AskForLease(env, x, v, l)
            && Waiting(x, v, l, row, until) && v.now <= w.now + 2 * delay + 1
  {
    var w1 := Clock(env, w);
    CalmElapse(env, w, delay, 0);
    ElapseKeeps(env, w, x.id, 0);
    var o := DoStmt(env, w1, x.id, Get(x.id));
    assert CalmTurn(env.turns(w1.turn), delay);
    CalmElapse(env, w1, delay, 0);
    StmtKeeps(env, w1, x.id, Get(x.id));
    assert o.row == Some(row);
  }

  lemma TookOverEarlier(x: Call, w: World, a: int, b: int)
    requires TookOver(x, w, a) && a <= b
    ensures TookOver(x, w, b)
  {
  }

  /** The pass starts before the deadline. */
  predicate InTime(env: Env, head: Head) {
    Clock(env, head.w).now + env.skew < head.l.deadline
  }

  /** Passes that start in time, of which the last takes the lease over. */
  ghost predicate TakesOverInTime(env: Env, x: Call, heads: seq<Head>, latest: int) {
    && Passes(env, x, heads)
    && TookOver(x, Pass(env, x, heads[|heads| - 1].w, heads[|heads| - 1].l).w, latest)
    && forall m | 0 < m < |heads| :: InTime(env, heads[m])
  }

  lemma TakesOverNow(env: Env, x: Call, head: Head, at: int, latest: int)
    requires TookOver(x, Pass(env, x, head.w, head.l).w, at) && at <= latest
    ensures TakesOverInTime(env, x, [head], latest)
  {
    TookOverEarlier(x, Pass(env, x, head.w, head.l).w, at, latest);
  }

  lemma TakesOverLater(env: Env, x: Call, head: Head, rest: seq<Head>, latest: int) returns (heads: seq<Head>)
    requires TakesOverInTime(env, x, rest, latest) && Follows(env, x, head, rest[0]) && InTime(env, rest[0])
    ensures TakesOverInTime(env, x, heads, latest) && heads[0] == head
  {
    heads := PutFirst(env, x, head, rest);
    assert heads[|heads| - 1] == rest[|rest| - 1];
    forall m | 0 < m < |heads| ensures InTime(env, heads[m]) {
      assert heads[m] == rest[m - 1];
    }
  }

  lemma {:induction false} LoopTakesOver(env: Env, x: Call, head: Head, row: Row, until: int, delay: nat)
    returns (heads: seq<Head>)
    requires Undisturbed(env, delay) && Waiting(x, head.w, head.l, row, until) && head.l.pass > 0
    requires x.sealer.open(x.id, row.payload).Some?
    requires head.w.now <= until + REFRESH_POLL_MAX + delay
    requires until + REFRESH_POLL_MAX + 2 * delay + env.skew < head.l.deadline
    requires until + REFRESH_POLL_MAX + 4 * delay + 2 < row.expiresAt
    ensures TakesOverInTime(env, x, heads, until + REFRESH_POLL_MAX + 4 * delay + 2)
    ensures heads[0] == head && InTime(env, head)
    decreases Life(head.w, x.id)
  {
    var latest := until + REFRESH_POLL_MAX + 4 * delay + 2;
    CalmElapse(env, head.w, delay, 0);
    PassTakesOverOrWaits(env, x, head.w, head.l, row, until, delay);
    PassProgresses(env, x, head.w, head.l);
    var v := Pass(env, x, head.w, head.l);
    if TookOver(x, v.w, head.w.now + 3 * delay + 2) {
      heads := [head];
      TakesOverNow(env, x, head, head.w.now + 3 * delay + 2, latest);
    } else {
      var rest := LoopTakesOver(env, x, Head(v.w, v.l), row, until, delay);
      heads := TakesOverLater(env, x, head, rest, latest);
    }
  }

  /** The first pass, which has no deadline to check. */
  lemma FirstPassTakesOverOrWaits(env: Env, x: Call, w: World, l: Local, row: Row, until: int, delay: nat)
    requires Undisturbed(env, delay) && Consistent(w, x.id) && l.pass == 0 && l.lost == 0
    requires 0 < l.backoff <= REFRESH_POLL_MAX
    requires Lookup(w.rows, x.id) == Some(row) && row.leaseUntil == Some(until)
    requires x.sealer.open(x.id, row.payload).Some?
    requires x.sealer.open(x.id, row.payload).value.token.expiry - (w.now + env.skew) <= x.conf.refreshMargin
    requires w.now + 4 * delay + 2 < row.expiresAt
    ensures var v := Pass(env, x, w, l);
            || TookOver(x, v.w, w.now + 4 * delay + 2)
            || (&& v.Again? && Waiting(x, v.w, v.l, row, until) && v.l.pass == 1
                && v.l.deadline == l.deadline && v.w.now <= until + REFRESH_POLL_MAX + delay)
  {
    var w1 := Clock(env, w);
    CalmElapse(env, w, delay, 0);
    ElapseKeeps(env, w, x.id, 0);
    var o := DoStmt(env, w1, x.id, Get(x.id));
    assert CalmTurn(env.turns(w1.turn), delay);
    CalmElapse(env, w1, delay, 0);
    StmtKeeps(env, w1, x.id, Get(x.id));
    assert o.row == Some(row);
    FirstJudgeTakesOverOrWaits(env, x, o.w, l, row, until, delay);
    assert Pass(env, x, w, l) == Judge(env, x, o.w, l, row, x.sealer.open(x.id, row.payload).value);
    if TookOver(x, Pass(env, x, w, l).w, o.w.now + 2 * delay + 1) {
      TookOverEarlier(x, Pass(env, x, w, l).w, o.w.now + 2 * delay + 1, w.now + 4 * delay + 2);
    }
  }

  lemma FirstJudgeTakesOverOrWaits(env: Env, x: Call, w: World, l: Local, row: Row, until: int, delay: nat)
    requires Undisturbed(env, delay) && Consistent(w, x.id) && l.pass == 0 && l.lost == 0
    requires 0 < l.backoff <= REFRESH_POLL_MAX
    requires Lookup(w.rows, x.id) == Some(row) && row.leaseUntil == Some(until)
    requires x.sealer.open(x.id, row.payload).Some?
    requires x.sealer.open(x.id, row.payload).value.token.expiry - (w.now + env.skew) <= x.conf.refreshMargin
    requires w.now + 2 * delay + 1 < row.expiresAt
    ensures var v := Judge(env, x, w, l, row, x.sealer.open(x.id, row.payload).value);
            || TookOver(x, v.w, w.now + 2 * delay + 1)
            || (&& v.Again? && Waiting(x, v.w, v.l, row, until) && v.l.pass == 1
                && v.l.deadline == l.deadline && v.w.now <= until + REFRESH_POLL_MAX + delay)
  {
    var w1, l1 := Clock(env, w), l.(seenR := row.refreshedAt, seenF := row.failedAt);
    CalmElapse(env, w, delay, 0);
    ElapseKeeps(env, w, x.id, 0);
    AskTakesOverOrWaits(env, x, w1, l1, row, until, delay);
    if TookOver(x, AskForLease(env, x, w1, l1).w, w1.now + delay + 1) {
      TookOverEarlier(x, AskForLease(env, x, w1, l1).w, w1.now + delay + 1, w.now + 2 * delay + 1);
    }
  }

  /** With the default wait, a caller that began more than two delays after
      the dead holder took the lease takes it over itself, within one poll of
      the lease lapsing: no pass up to then starts at or past its deadline. If
      it began more than four delays after, the lease is taken before the
      deadline, too. */
  lemma DeadHolderIsTakenOver(env: Env, x: Call, w: World, row: Row, until: int, delay: nat)
    returns (heads: seq<Head>)
    requires Undisturbed(env, delay) && Consistent(w, x.id) && w.mine == {}
    requires Lookup(w.rows, x.id) == Some(row) && row.leaseUntil == Some(until)
    requires x.conf.refreshWait == DefaultWait(x.conf.refreshLease)
    requires until - x.conf.refreshLease + 2 * delay < w.now
    requires x.sealer.open(x.id, row.payload).Some?
    requires x.sealer.open(x.id, row.payload).value.token.expiry - (w.now + env.skew) <= x.conf.refreshMargin
    requires Max(until + REFRESH_POLL_MAX, w.now + delay) + 4 * delay + 2 < row.expiresAt
    ensures var latest := Max(until + REFRESH_POLL_MAX, w.now + delay) + 4 * delay + 2;
            && PassesOf(env, x, w, heads) && TakesOverInTime(env, x, heads, latest)
            && TookOver(x, Refresh(env, x, w).0, latest)
            && (until - x.conf.refreshLease + 4 * delay + 2 < w.now && 5 * delay + 2 < x.conf.refreshWait ==>
                  latest < Clock(env, w).now + x.conf.refreshWait)
  {
    var latest := Max(until + REFRESH_POLL_MAX, w.now + delay) + 4 * delay + 2;
    CalmElapse(env, w, delay, 0);
    ElapseKeeps(env, w, x.id, 0);
    var first := Head(Clock(env, w), Begin(env, x, Clock(env, w)));
    FirstPassTakesOverOrWaits(env, x, first.w, first.l, row, until, delay);
    heads := TakesOverFrom(env, x, first, row, until, delay, latest);
    PassWithinCall(env, x, w, heads, |heads| - 1);
    TookOverStays(x, Pass(env, x, heads[|heads| - 1].w, heads[|heads| - 1].l).w, Refresh(env, x, w).0, latest);
  }

  lemma TakesOverFrom(env: Env, x: Call, first: Head, row: Row, until: int, delay: nat, latest: int)
    returns (heads: seq<Head>)
    requires Undisturbed(env, delay) && x.sealer.open(x.id, row.payload).Some?
    requires var v := Pass(env, x, first.w, first.l);
             || TookOver(x, v.w, first.w.now + 4 * delay + 2)
             || (&& v.Again? && Waiting(x, v.w, v.l, row, until) && v.l.pass == 1
                 && v.l.deadline == first.l.deadline && v.w.now <= until + REFRESH_POLL_MAX + delay)
    requires until + REFRESH_POLL_MAX + 2 * delay + env.skew < first.l.deadline
    requires until + REFRESH_POLL_MAX + 4 * delay + 2 <= latest && first.w.now + 4 * delay + 2 <= latest
    requires latest < row.expiresAt
    ensures TakesOverInTime(env, x, heads, latest) && heads[0] == first
  {
    var v := Pass(env, x, first.w, first.l);
    if TookOver(x, v.w, first.w.now + 4 * delay + 2) {
      heads := [first];
      TakesOverNow(env, x, first, first.w.now + 4 * delay + 2, latest);
    } else {
      var rest := LoopTakesOver(env, x, Head(v.w, v.l), row, until, delay);
      var last := rest[|rest| - 1];
      TookOverEarlier(x, Pass(env, x, last.w, last.l).w, until + REFRESH_POLL_MAX + 4 * delay + 2, latest);
      heads := TakesOverLater(env, x, first, rest, latest);
    }
  }
}
