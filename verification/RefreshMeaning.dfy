/** What a Refresh call's answer says about the session, whatever the other
    callers did meanwhile. */
module RefreshMeaning {
  import opened Common
  import opened SessionRows
  import opened RowHistory
  import opened RefreshWorld
  import opened StoreConf
  import opened RefreshLoop

  /** The row named by the call as it was before event `k` of the history. */
  function RowIn(x: Call, w: World, k: nat): Option<Row>
    requires k <= |w.log|
  {
    RowAt(Lookup(w.base, x.id), x.id, w.log, k)
  }

  /** The call, which began after `from` events, first read the row at `h`. */
  ghost predicate FirstRead(x: Call, w: World, from: nat, h: nat, l: Local) {
    && from <= h < |w.log|
    && w.log[h].stmt == Get(x.id)
    && Unmoved(RowIn(x, w, h), l.seenR, l.seenF)
  }

  /** Where in the history the read of a pass that starts now will stand. */
  function ReadIndex(env: Env, w: World): nat {
    |Elapse(env, Clock(env, w), 0).log|
  }

  /** Where in the history a call that starts now reads the row first. */
  function FirstReadOf(env: Env, w: World): nat {
    ReadIndex(env, Clock(env, w))
  }

  /** The session is the row as it was before event `k`: its payload opened, the
      row's own lifetime, and the handle and staleness the call was given. */
  ghost predicate SessionAt(x: Call, w: World, s: StoredToken, k: nat)
    requires k <= |w.log|
  {
    && RowIn(x, w, k).Some?
    && var row := RowIn(x, w, k).value;
    && x.sealer.open(x.id, row.payload).Some?
    && var p := x.sealer.open(x.id, row.payload).value;
    && s.token == Some(p.token) && s.subject == p.subject && s.idToken == p.idToken
    && s.issuedAt == row.createdAt && s.expiresAt == row.expiresAt
    && s.handle == x.t.handle && s.stale == x.t.stale
  }

  /** The session is the row as it was at an instant of the call, in one of
      three ways: the call's first read, at `h`, found a token with more than
      the refresh margin left; its last read found the row after a token had
      been written to it since; or the call wrote it itself. */
  ghost predicate Linearized(env: Env, x: Call, h: nat, w: World, s: StoredToken) {
    && h < |w.log| && w.log[h].stmt == Get(x.id)
    && (FoundFresh(env, x, h, w, s) || FoundWritten(x, h, w, s) || exists i | h < i < |w.log| - 1 :: Wrote(env, x, w, s, i))
  }

  ghost predicate FoundFresh(env: Env, x: Call, h: nat, w: World, s: StoredToken)
    requires h < |w.log|
  {
    SessionAt(x, w, s, h) && s.token.value.expiry - (w.log[h].at + env.skew) > x.conf.refreshMargin
  }

  ghost predicate FoundWritten(x: Call, h: nat, w: World, s: StoredToken) {
    var k := |w.log| - 1;
    && h < k && w.log[k].stmt == Get(x.id) && SessionAt(x, w, s, k)
    && TokenWriteIn(Lookup(w.base, x.id), x.id, w.log, h, k)
  }

  /** Event `i` is a lease this call took. */
  ghost predicate Own(x: Call, w: World, i: nat) {
    && i < |w.log| && w.log[i].stmt.Take? && w.log[i].stmt.id == x.id && w.log[i].stmt.nonce in w.mine
    && LandsAt(Lookup(w.base, x.id), x.id, w.log, i)
  }

  /** Event `j` writes back what the provider answered, on turn `q`, to the
      refresh token of the row that the lease at `i` returned: the payload that
      lease returned with the token it granted, or the failure. */
  ghost predicate WritesBack(env: Env, x: Call, w: World, i: nat, j: nat, q: nat) {
    && i < j < |w.log| && w.log[i].stmt.Take? && RowIn(x, w, i + 1).Some?
    && x.sealer.open(x.id, RowIn(x, w, i + 1).value.payload).Some?
    && var p := x.sealer.open(x.id, RowIn(x, w, i + 1).value.payload).value;
    && var answer := env.exchange(q, p.token);
    && match w.log[j].stmt
       case Commit(id, nonce, kid, sealed, accessExpiresAt) =>
         && id == x.id && nonce == w.log[i].stmt.nonce
         && answer.Granted? && answer.token.Some?
         && x.sealer.open(x.id, sealed) == Some(RowPayload(p.subject, answer.token.value, p.idToken))
         && x.sealer.seal(q + 1, x.id, RowPayload(p.subject, answer.token.value, p.idToken)) == Some((sealed, kid))
         && accessExpiresAt == answer.token.value.expiry
       case Fail(id, nonce) => id == x.id && nonce == w.log[i].stmt.nonce && (answer.Refused? || answer.token.None?)
       case _ => false
  }

  /** The call's last statement committed what the provider granted it under
      the lease at `i`, and the session is the row that left. */
  ghost predicate Wrote(env: Env, x: Call, w: World, s: StoredToken, i: nat) {
    var j := |w.log| - 1;
    && Own(x, w, i) && i < j && w.turn >= 2 && w.log[j].stmt.Commit? && LandsAt(Lookup(w.base, x.id), x.id, w.log, j)
    && WritesBack(env, x, w, i, j, w.turn - 2) && SessionAt(x, w, s, j + 1)
  }

  /** At some instant of the call there was no row, or it had expired, or its
      payload did not open. */
  ghost predicate SessionOver(x: Call, from: nat, w: World) {
    exists k | from <= k <= |w.log| :: SessionOverAt(x, w, k)
  }

  ghost predicate SessionOverAt(x: Call, w: World, k: nat)
    requires k <= |w.log|
  {
    match RowIn(x, w, k)
    case None => true
    case Some(row) => (k < |w.log| && row.expiresAt <= w.log[k].at) || x.sealer.open(x.id, row.payload).None?
  }

  /** The call's last read found that since its first, at `h`, an attempt that
      owned the lease had recorded a failure, and no token had been written. */
  ghost predicate FailureSeen(x: Call, h: nat, w: World) {
    var k := |w.log| - 1;
    && h < k && w.log[h].stmt == Get(x.id) && w.log[k].stmt == Get(x.id)
    && RowIn(x, w, h).Some? && RowIn(x, w, k).Some?
    && FailureIn(Lookup(w.base, x.id), x.id, w.log, h, k)
    && !TokenWriteIn(Lookup(w.base, x.id), x.id, w.log, h, k)
  }

  /** The call's own exchange was refused with `s`, and the call either still
      owned the lease it took at `i` when it recorded that, as its last
      statement, or that statement errored. */
  ghost predicate OwnRefusal(env: Env, x: Call, from: nat, w: World, s: Sentinel) {
    exists i | from <= i < |w.log| :: OwnRefusalAt(env, x, w, i, s)
  }

  /** The refusal is the answer to the call's last turn but one, posting the
      refresh token of the row that the lease at `i` returned. */
  ghost predicate OwnRefusalAt(env: Env, x: Call, w: World, i: nat, s: Sentinel)
    requires i < |w.log|
  {
    && w.log[i].stmt.Take? && w.log[i].stmt.id == x.id && w.log[i].stmt.nonce in w.mine
    && LandsAt(Lookup(w.base, x.id), x.id, w.log, i)
    && RowIn(x, w, i + 1).Some? && w.turn >= 2
    && (match x.sealer.open(x.id, RowIn(x, w, i + 1).value.payload)
        case None => false
        case Some(p) =>
          var answer := env.exchange(w.turn - 2, p.token);
          answer.Refused? && s in answer.wraps)
    && (RecordedLast(x, w, i) || !env.turns(w.turn - 1).fault.Fine?)
  }

  ghost predicate RecordedLast(x: Call, w: World, i: nat)
    requires i < |w.log| && w.log[i].stmt.Take?
  {
    var j := |w.log| - 1;
    i < j && w.log[j].stmt == Fail(x.id, w.log[i].stmt.nonce) && LandsAt(Lookup(w.base, x.id), x.id, w.log, j)
  }

  /** Why an error of a call that began after `from` events and first read the
      row at `h` wraps this. */
  ghost predicate Explained(env: Env, x: Call, from: nat, h: nat, w: World, s: Sentinel) {
    || OwnRefusal(env, x, from, w, s)
    || (match s
        case NoSession => SessionOver(x, from, w)
        case RefreshRejected => FailureSeen(x, h, w)
        case RefreshFailed => FailureSeen(x, h, w)
        case Cancelled => w.turn > 0 && env.turns(w.turn - 1).cancelled
        case _ => false)
  }

  /** Why an error wraps nothing: the last statement errored, no nonce could be
      drawn, the provider answered without a token, or sealing failed. */
  ghost predicate Hiccup(env: Env, x: Call, w: World) {
    || (w.turn > 0 && !env.turns(w.turn - 1).fault.Fine?)
    || env.turns(w.turn).randFails
    || (w.turn > 1 && GaveNothing(env, w.turn - 2))
    || exists p :: x.sealer.seal(w.turn, x.id, p).None?
  }

  ghost predicate GaveNothing(env: Env, q: nat) {
    exists tok :: env.exchange(q, tok) in {Granted(None), Refused({})}
  }

  /** What the answer of a call says that did not run out of time. */
  ghost predicate Meaning(env: Env, x: Call, from: nat, h: nat, w: World, r: Result<StoredToken>) {
    match r
    case Ok(s) => Linearized(env, x, h, w, s)
    case Err(e) => (forall s | s in e :: Explained(env, x, from, h, w, s)) && (e == {} ==> Hiccup(env, x, w))
  }

  /** The call ran out of time: nothing else, and not before its deadline. */
  predicate RanOut(env: Env, deadline: int, w: World, r: Result<StoredToken>) {
    r == Err({RefreshTimeout}) && deadline <= w.now + env.skew
  }

  // ----- the passes -----

  lemma FirstReadStays(x: Call, w: World, v: World, from: nat, h: nat, l: Local)
    requires FirstRead(x, w, from, h, l) && w.base == v.base && w.log <= v.log
    ensures FirstRead(x, v, from, h, l)
  {
    RowAtPrefix(Lookup(w.base, x.id), x.id, w.log, v.log, h);
  }

  /** At the head of a pass, of a call whose first read is at `h`. */
  ghost predicate HeadInv(env: Env, x: Call, from: nat, h: nat, w: World, l: Local) {
    && Consistent(w, x.id) && l.lost <= 1 && from <= |w.log|
    && (l.pass == 0 ==> h == ReadIndex(env, w))
    && (l.pass > 0 ==> FirstRead(x, w, from, h, l))
  }

  /** The last event is a lease this call took, and it returned `lease`. */
  ghost predicate JustTook(x: Call, w: World, lease: Row) {
    && |w.log| > 0 && Own(x, w, |w.log| - 1) && RowIn(x, w, |w.log|) == Some(lease)
  }

  lemma OwnStays(x: Call, w: World, v: World, i: nat)
    requires Later(w, v, x.id) && Own(x, w, i)
    ensures Own(x, v, i) && v.log[i] == w.log[i] && RowIn(x, v, i + 1) == RowIn(x, w, i + 1)
  {
    RowAtPrefix(Lookup(w.base, x.id), x.id, w.log, v.log, i);
    RowAtPrefix(Lookup(w.base, x.id), x.id, w.log, v.log, i + 1);
  }

  /** A write-back that lands replaced exactly the row the lease returned. */
  lemma CommitMeaning(env: Env, x: Call, from: nat, h: nat, v: World, i: nat, lease: Row, p: RowPayload, s: StoredToken)
    requires Consistent(v, x.id) && Own(x, v, i) && RowIn(x, v, i + 1) == Some(lease) && v.turn >= 2
    requires from <= h < i < |v.log| - 1 && v.log[h].stmt == Get(x.id)
    requires var j := |v.log| - 1;
             && v.log[j].stmt.Commit? && LandsAt(Lookup(v.base, x.id), x.id, v.log, j)
             && WritesBack(env, x, v, i, j, v.turn - 2) && x.sealer.open(x.id, v.log[j].stmt.payload) == Some(p)
    requires s == StoredToken(x.t.handle, p.subject, Some(p.token), p.idToken, lease.createdAt, lease.expiresAt, x.t.stale)
    ensures Linearized(env, x, h, v, s)
  {
    FenceIsCompareAndSwap(Lookup(v.base, x.id), x.id, v.log, i, |v.log| - 1, v.log[i].stmt.nonce);
    assert Wrote(env, x, v, s, i);
  }

  /** The world a write-back leaves behind, two turns after the lease. */
  lemma WriteBackRan(env: Env, x: Call, w: World, lease: Row, s: Stmt)
    requires Consistent(w, x.id) && JustTook(x, w, lease) && IsFence(s, x.id, w.log[|w.log| - 1].stmt.nonce)
    ensures var o, i := DoStmt(env, Elapse(env, w, 0), x.id, s), |w.log| - 1;
            && Consistent(o.w, x.id) && Later(w, o.w, x.id) && o.w.mine == w.mine && o.w.turn == w.turn + 2
            && Own(x, o.w, i) && o.w.log[i] == w.log[i] && RowIn(x, o.w, i + 1) == Some(lease)
            && (o.failed <==> !env.turns(w.turn + 1).fault.Fine?)
            && (!env.turns(w.turn + 1).fault.NotRun? ==>
                  var j := |o.w.log| - 1;
                  && i < j && o.w.log[j].stmt == s && (o.landed <==> LandsAt(Lookup(o.w.base, x.id), x.id, o.w.log, j)))
  {
    var i, w1 := |w.log| - 1, Elapse(env, w, 0);
    ElapseKeeps(env, w, x.id, 0);
    StmtKeeps(env, w1, x.id, s);
    var o := DoStmt(env, w1, x.id, s);
    LaterTransitive(w, w1, o.w, x.id);
    OwnStays(x, w, o.w, i);
  }

  lemma FailMeaning(env: Env, x: Call, from: nat, h: nat, w: World, lease: Row, p: RowPayload, cause: Error)
    requires Consistent(w, x.id) && from < |w.log| && JustTook(x, w, lease)
    requires x.sealer.open(x.id, lease.payload) == Some(p)
    requires env.exchange(w.turn, p.token) == Refused(cause) || (cause == {} && env.exchange(w.turn, p.token) == Granted(None))
    ensures var f := Failed(env, x, Elapse(env, w, 0), w.log[|w.log| - 1].stmt.nonce, cause);
            f.Done? ==> Meaning(env, x, from, h, f.w, f.r)
  {
    var i := |w.log| - 1;
    var fail := Fail(x.id, w.log[i].stmt.nonce);
    WriteBackRan(env, x, w, lease, fail);
    var o := DoStmt(env, Elapse(env, w, 0), x.id, fail);
    if o.failed || o.landed {
      assert !o.failed ==> RecordedLast(x, o.w, i);
      assert forall s | s in cause :: OwnRefusalAt(env, x, o.w, i, s);
      assert cause == {} ==> GaveNothing(env, w.turn);
    }
  }

  lemma GrantMeaning(env: Env, x: Call, from: nat, w: World, h: nat, l: Local, lease: Row, p: RowPayload, tok: Token)
    requires Faithful(x.sealer) && Consistent(w, x.id) && JustTook(x, w, lease)
    requires FirstRead(x, w, from, h, l) && h < |w.log| - 1
    requires x.sealer.open(x.id, lease.payload) == Some(p) && env.exchange(w.turn, p.token) == Granted(Some(tok))
    requires x.sealer.seal(w.turn + 1, x.id, p.(token := tok)).Some?
    ensures var (sealed, kid) := x.sealer.seal(w.turn + 1, x.id, p.(token := tok)).value;
            var o := DoStmt(env, Elapse(env, w, 0), x.id, Commit(x.id, w.log[|w.log| - 1].stmt.nonce, kid, sealed, tok.expiry));
            !o.failed && o.landed ==>
              Linearized(env, x, h, o.w, StoredToken(x.t.handle, p.subject, Some(tok), p.idToken, lease.createdAt,
                                                     lease.expiresAt, x.t.stale))
  {
    var (sealed, kid) := x.sealer.seal(w.turn + 1, x.id, p.(token := tok)).value;
    var i := |w.log| - 1;
    var commit := Commit(x.id, w.log[i].stmt.nonce, kid, sealed, tok.expiry);
    WriteBackRan(env, x, w, lease, commit);
    var o := DoStmt(env, Elapse(env, w, 0), x.id, commit);
    if !o.failed && o.landed {
      CommitMeaning(env, x, from, h, o.w, i, lease, p.(token := tok),
                    StoredToken(x.t.handle, p.subject, Some(tok), p.idToken, lease.createdAt, lease.expiresAt, x.t.stale));
    }
  }

  lemma ExchangeMeaning(env: Env, x: Call, from: nat, w: World, h: nat, l: Local, lease: Row)
    requires Faithful(x.sealer) && Consistent(w, x.id) && JustTook(x, w, lease)
    requires FirstRead(x, w, from, h, l) && h < |w.log| - 1
    ensures var e := RunExchange(env, x, w, w.log[|w.log| - 1].stmt.nonce, lease);
            e.Done? ==> Meaning(env, x, from, h, e.w, e.r)
  {
    match x.sealer.open(x.id, lease.payload)
    case None => assert SessionOverAt(x, w, |w.log|);
    case Some(p) =>
      match env.exchange(w.turn, p.token)
      case Refused(cause) => FailMeaning(env, x, from, h, w, lease, p, cause);
      case Granted(None) => FailMeaning(env, x, from, h, w, lease, p, {});
      case Granted(Some(tok)) =>
        if x.sealer.seal(w.turn + 1, x.id, p.(token := tok)).Some? {
          GrantMeaning(env, x, from, w, h, l, lease, p, tok);
        }
  }

  lemma LeaseMeaning(env: Env, x: Call, from: nat, w: World, h: nat, l: Local)
    requires Faithful(x.sealer) && Consistent(w, x.id) && FirstRead(x, w, from, h, l)
    ensures var v := AskForLease(env, x, w, l);
            && (v.Return? ==> Meaning(env, x, from, h, v.w, v.r))
            && (v.Again? ==> FirstRead(x, v.w, from, h, v.l))
  {
    TakeKeeps(env, w, x.id, x.conf.refreshLease, l.seenR, l.seenF);
    var o := DoTake(env, w, x.id, x.conf.refreshLease, l.seenR, l.seenF);
    if !env.turns(w.turn).randFails && !o.failed {
      FirstReadStays(x, w, o.w, from, h, l);
      if !o.landed {
        var least := if env.turns(o.w.turn).cancelled then 0 else l.backoff;
        ElapseKeeps(env, o.w, x.id, least);
        FirstReadStays(x, o.w, Elapse(env, o.w, least), from, h, l);
      } else {
        TakenMeaning(env, x, from, o.w, h, l, o.row.value);
      }
    }
  }

  lemma TakenMeaning(env: Env, x: Call, from: nat, w: World, h: nat, l: Local, lease: Row)
    requires Faithful(x.sealer) && Consistent(w, x.id) && JustTook(x, w, lease)
    requires FirstRead(x, w, from, h, l) && h < |w.log| - 1
    ensures var e := RunExchange(env, x, w, w.log[|w.log| - 1].stmt.nonce, lease);
            && (e.Done? ==> Meaning(env, x, from, h, e.w, e.r))
            && FirstRead(x, e.w, from, h, l)
  {
    var nonce := w.log[|w.log| - 1].stmt.nonce;
    ExchangeMeaning(env, x, from, w, h, l, lease);
    ExchangeProgresses(env, x, w, nonce, lease);
    FirstReadStays(x, w, RunExchange(env, x, w, nonce, lease).w, from, h, l);
  }

  lemma JudgeMeaning(env: Env, x: Call, from: nat, h: nat, w: World, l: Local, row: Row, p: RowPayload)
    requires Faithful(x.sealer) && Consistent(w, x.id) && from < |w.log|
    requires w.log[|w.log| - 1] == Event(w.now, Get(x.id)) && RowIn(x, w, |w.log| - 1) == Some(row)
    requires x.sealer.open(x.id, row.payload) == Some(p)
    requires if l.pass == 0 then h == |w.log| - 1 else h < |w.log| - 1 && FirstRead(x, w, from, h, l)
    ensures var v := Judge(env, x, w, l, row, p);
            && (v.Return? ==> Meaning(env, x, from, h, v.w, v.r))
            && (v.Again? ==> FirstRead(x, v.w, from, h, v.l))
  {
    var r0, k := Lookup(w.base, x.id), |w.log| - 1;
    if l.pass == 0 {
      var w1, l1 := Clock(env, w), l.(seenR := row.refreshedAt, seenF := row.failedAt);
      ElapseKeeps(env, w, x.id, 0);
      FirstReadStays(x, w, w1, from, k, l1);
      if p.token.expiry - (w1.now + env.skew) > x.conf.refreshMargin {
        RowAtPrefix(r0, x.id, w.log, w1.log, k);
        assert FoundFresh(env, x, k, w1, SessionOf(x.t, row, p));
      } else {
        LeaseMeaning(env, x, from, w1, k, l1);
      }
    } else {
      ReadVerdict(r0, x.id, w.log, h, k);
      if row.refreshedAt > l.seenR {
        assert FoundWritten(x, h, w, SessionOf(x.t, row, p));
      } else if !Advanced(row.failedAt, l.seenF) {
        LeaseMeaning(env, x, from, w, h, l);
      }
    }
  }

  lemma ReadMeaning(env: Env, x: Call, from: nat, h: nat, w: World, l: Local)
    requires Faithful(x.sealer) && Consistent(w, x.id) && l.lost <= 1 && from <= |w.log|
    requires if l.pass == 0 then h == |Elapse(env, w, 0).log| else FirstRead(x, w, from, h, l)
    ensures var v := ReadRow(env, x, w, l);
            && (v.Return? ==> Meaning(env, x, from, h, v.w, v.r))
            && (v.Again? ==> FirstRead(x, v.w, from, h, v.l))
  {
    var o := DoStmt(env, w, x.id, Get(x.id));
    StmtKeeps(env, w, x.id, Get(x.id));
    if !o.failed {
      var k := |o.w.log| - 1;
      assert RowIn(x, o.w, k) == o.row;
      if o.row.None? || o.row.value.expiresAt <= o.w.now || x.sealer.open(x.id, o.row.value.payload).None? {
        assert SessionOverAt(x, o.w, k);
      } else {
        if l.pass > 0 {
          FirstReadStays(x, w, o.w, from, h, l);
        }
        JudgeMeaning(env, x, from, h, o.w, l, o.row.value, x.sealer.open(x.id, o.row.value.payload).value);
      }
    }
  }

  lemma PassMeaning(env: Env, x: Call, from: nat, h: nat, w: World, l: Local)
    requires Faithful(x.sealer) && HeadInv(env, x, from, h, w, l)
    ensures var v := Pass(env, x, w, l);
            && (v.Return? ==> Meaning(env, x, from, h, v.w, v.r) || RanOut(env, l.deadline, v.w, v.r))
            && (v.Again? ==> HeadInv(env, x, from, h, v.w, v.l) && v.l.deadline == l.deadline)
  {
    DeadlineStays(env, x, w, l);
    PassProgresses(env, x, w, l);
    ElapseKeeps(env, w, x.id, 0);
    if !TimedOut(env, w, l) {
      var w1 := Clock(env, w);
      if l.pass > 0 {
        FirstReadStays(x, w, w1, from, h, l);
      }
      ReadMeaning(env, x, from, h, w1, Counted(l));
    }
  }

  lemma DeadlineStays(env: Env, x: Call, w: World, l: Local)
    ensures Pass(env, x, w, l).Again? ==> Pass(env, x, w, l).l.deadline == l.deadline
  {
  }

  lemma {:induction false} LoopMeaning(env: Env, x: Call, from: nat, h: nat, w: World, l: Local)
    requires Faithful(x.sealer) && HeadInv(env, x, from, h, w, l)
    ensures var (v, r) := Loop(env, x, w, l);
            && Consistent(v, x.id) && Later(w, v, x.id)
            && (Meaning(env, x, from, h, v, r) || RanOut(env, l.deadline, v, r))
    decreases Life(w, x.id)
  {
    PassProgresses(env, x, w, l);
    PassMeaning(env, x, from, h, w, l);
    var v := Pass(env, x, w, l);
    if v.Again? {
      LoopMeaning(env, x, from, h, v.w, v.l);
      LaterTransitive(w, v.w, Loop(env, x, w, l).0, x.id);
    }
  }

  /** Every answer of a Refresh call, against every environment. A session it
      returns is the row as it was at some instant of the call, and its token was
      good at the call's own first read, or found by its last read after it was
      written, or granted to the call and committed by it. An error that ends the session says so truthfully: the row was gone, expired
      or sealed shut at an instant of the call, or an attempt that owned the
      lease was refused: this one, or one whose failure the call's last read
      found recorded since its first, with no token written in between. */
  lemma RefreshMeansWhatItSays(env: Env, x: Call, w: World)
    requires Faithful(x.sealer) && Consistent(w, x.id)
    ensures var (v, r) := Refresh(env, x, w);
            && Consistent(v, x.id) && Later(w, v, x.id)
            && (|| Meaning(env, x, |w.log|, FirstReadOf(env, w), v, r)
                || RanOut(env, Clock(env, w).now + env.skew + x.conf.refreshWait, v, r))
  {
    ElapseKeeps(env, w, x.id, 0);
    var w1 := Clock(env, w);
    LoopMeaning(env, x, |w.log|, FirstReadOf(env, w), w1, Begin(env, x, w1));
    LaterTransitive(w, w1, Refresh(env, x, w).0, x.id);
  }

  /** A session whose row is gone when the call begins is not refreshed: the
      call reports no session, unless the read itself errored. */
  lemma RevokedSessionIsNotRefreshed(env: Env, x: Call, w: World)
    requires Consistent(w, x.id) && x.id !in w.rows
    ensures var (v, r) := Refresh(env, x, w);
            && x.id !in v.rows
            && (r == Err({NoSession}) || (r == Err({}) && v.turn > 0 && !env.turns(v.turn - 1).fault.Fine?))
  {
    ElapseKeeps(env, w, x.id, 0);
    var w1 := Clock(env, w);
    ElapseKeeps(env, w1, x.id, 0);
    var w2 := Clock(env, w1);
    StmtKeeps(env, w2, x.id, Get(x.id));
    assert Pass(env, x, w1, Begin(env, x, w1)) == ReadRow(env, x, w2, Begin(env, x, w1));
    if DoStmt(env, w2, x.id, Get(x.id)).failed {
      assert !env.turns(w2.turn).fault.Fine?;
    }
  }
}
