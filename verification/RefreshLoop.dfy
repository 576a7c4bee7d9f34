/** Store.Refresh: the loop of refresh.go, pass by pass. */
module RefreshLoop {
  import opened Common
  import opened SessionRows
  import opened RowHistory
  import opened RefreshWorld
  import opened StoreConf

  const MAX_LOST_WRITE_READS := 2

  /** What a row's payload holds once it is open. */
  datatype RowPayload = RowPayload(subject: string, token: Token, idToken: string)

  /** How payloads are sealed and opened: sealing may fail, and the number it
      is given stands for the randomness it draws. It yields the envelope and
      the id of the key it used. */
  datatype Sealer = Sealer(
    open: (RowId, Bytes) -> Option<RowPayload>,
    seal: (nat, RowId, RowPayload) -> Option<(Bytes, Bytes)>)

  /** What is sealed opens again, as what it was. */
  ghost predicate Faithful(s: Sealer) {
    forall k, id, p {:trigger s.seal(k, id, p)} ::
      s.seal(k, id, p).Some? ==> s.open(id, s.seal(k, id, p).value.0) == Some(p)
  }

  /** One call: whose session, and on which store. */
  datatype Call = Call(id: RowId, t: StoredToken, conf: Conf, sealer: Sealer)

  datatype Local = Local(pass: nat, seenR: int, seenF: Option<int>, backoff: nat, deadline: int, lost: nat)

  datatype Verdict =
    | Return(w: World, r: Result<StoredToken>)
    | Again(w: World, l: Local)

  datatype Exchanged =
    | Done(w: World, r: Result<StoredToken>)
    | LeaseLost(w: World)

  /** The token a read hands back: the caller's own handle, the row's rest. */
  function SessionOf(t: StoredToken, row: Row, p: RowPayload): StoredToken {
    StoredToken(t.handle, p.subject, Some(p.token), p.idToken, row.createdAt, row.expiresAt, t.stale)
  }

  /** Records a failed exchange. A marker that was fenced out means the failure
      is no longer this call's to report. */
  function Failed(env: Env, x: Call, w: World, nonce: Nonce, cause: Error): Exchanged {
    var o := DoStmt(env, w, x.id, Fail(x.id, nonce));
    if o.failed then Done(o.w, Err(cause))
    else if !o.landed then LeaseLost(o.w)
    else Done(o.w, Err(cause))
  }

  /** The winner's half: the exchange and the fenced write-back. */
  function RunExchange(env: Env, x: Call, w: World, nonce: Nonce, lease: Row): Exchanged {
    match x.sealer.open(x.id, lease.payload)
    case None => Done(w, Err({NoSession}))
    case Some(p) =>
      var w1 := Elapse(env, w, 0);
      match env.exchange(w.turn, p.token)
      case Refused(wraps) => Failed(env, x, w1, nonce, wraps)
      case Granted(None) => Failed(env, x, w1, nonce, {})
      case Granted(Some(tok)) =>
        var refreshed := p.(token := tok);
        match x.sealer.seal(w1.turn, x.id, refreshed)
        case None => Done(w1, Err({}))
        case Some((sealed, kid)) =>
          var o := DoStmt(env, w1, x.id, Commit(x.id, nonce, kid, sealed, tok.expiry));
          if o.failed then Done(o.w, Err({}))
          else if !o.landed then LeaseLost(o.w)
          else Done(o.w, Ok(StoredToken(x.t.handle, refreshed.subject, Some(tok), refreshed.idToken,
                                        lease.createdAt, lease.expiresAt, x.t.stale)))
  }

  /** From asking for the lease to the end of the pass. */
  function AskForLease(env: Env, x: Call, w: World, l: Local): Verdict {
    if env.turns(w.turn).randFails then Return(w, Err({})) else
      var o := DoTake(env, w, x.id, x.conf.refreshLease, l.seenR, l.seenF);
      if o.failed then Return(o.w, Err({}))
      else if !o.landed then
        var cancelled := env.turns(o.w.turn).cancelled;
        var w1 := Elapse(env, o.w, if cancelled then 0 else l.backoff);
        if cancelled then Return(w1, Err({Cancelled}))
        else Again(w1, l.(pass := l.pass + 1, backoff := Min(2 * l.backoff, REFRESH_POLL_MAX)))
      else
        match RunExchange(env, x, o.w, Drawn(env, w), o.row.value)
        case LeaseLost(w1) => Again(w1, l.(pass := l.pass + 1, lost := Min(l.lost + 1, MAX_LOST_WRITE_READS)))
        case Done(w1, r) => Return(w1, r)
  }

  /** What a read of the row, opened, leads to. */
  function Judge(env: Env, x: Call, w: World, l: Local, row: Row, p: RowPayload): Verdict {
    if l.pass == 0 then
      var w1 := Clock(env, w);
      if p.token.expiry - (w1.now + env.skew) > x.conf.refreshMargin then Return(w1, Ok(SessionOf(x.t, row, p)))
      else AskForLease(env, x, w1, l.(seenR := row.refreshedAt, seenF := row.failedAt))
    else if row.refreshedAt > l.seenR then Return(w, Ok(SessionOf(x.t, row, p)))
    else if Advanced(row.failedAt, l.seenF) then Return(w, Err({RefreshFailed, RefreshRejected}))
    else AskForLease(env, x, w, l)
  }

  /** From reading the row on. */
  function ReadRow(env: Env, x: Call, w: World, l: Local): Verdict {
    var o := DoStmt(env, w, x.id, Get(x.id));
    if o.failed then Return(o.w, Err({}))
    else if o.row.None? then Return(o.w, Err({NoSession}))
    else if o.row.value.expiresAt <= o.w.now then Return(o.w, Err({NoSession}))
    else
      match x.sealer.open(x.id, o.row.value.payload)
      case None => Return(o.w, Err({NoSession}))
      case Some(p) => Judge(env, x, o.w, l, o.row.value, p)
  }

  /** The budget has run out, and no lost write-back excuses another read. */
  predicate TimedOut(env: Env, w: World, l: Local) {
    l.pass > 0 && l.lost == 0 && l.deadline <= Clock(env, w).now + env.skew
  }

  /** One turn of the loop. */
  function Pass(env: Env, x: Call, w: World, l: Local): Verdict {
    var w1 := Clock(env, w);
    if TimedOut(env, w, l) then Return(w1, Err({RefreshTimeout}))
    else ReadRow(env, x, w1, Counted(l))
  }

  /** A read on the strength of a lost write is used up as it is made. */
  function Counted(l: Local): Local {
    l.(lost := if l.lost > 0 then l.lost - 1 else 0)
  }

  /** How long the session still has to live, which bounds the loop. */
  function Life(w: World, id: RowId): nat {
    if id in w.rows && w.now < w.rows[id].expiresAt then w.rows[id].expiresAt - w.now else 0
  }

  /** What every pass keeps, and the reason the loop ends: a pass that comes
      round again read a row that had not expired, at a later instant, and no
      statement moves the expiry of a row. The lost-write counter is 0 or 1
      whenever a pass starts, so its cap of two is never what ends the loop. */
  lemma PassProgresses(env: Env, x: Call, w: World, l: Local)
    requires Consistent(w, x.id) && l.lost <= 1
    ensures Consistent(Pass(env, x, w, l).w, x.id) && Later(w, Pass(env, x, w, l).w, x.id)
    ensures Pass(env, x, w, l).Again? ==> Life(Pass(env, x, w, l).w, x.id) < Life(w, x.id)
    ensures Pass(env, x, w, l).Again? ==> Pass(env, x, w, l).l.lost <= 1 && Pass(env, x, w, l).l.pass == l.pass + 1
  {
    var w1 := Clock(env, w);
    ElapseKeeps(env, w, x.id, 0);
    if !TimedOut(env, w, l) {
      ReadProgresses(env, x, w1, Counted(l));
      LaterTransitive(w, w1, Pass(env, x, w, l).w, x.id);
    }
  }

  lemma ReadProgresses(env: Env, x: Call, w: World, l: Local)
    requires Consistent(w, x.id) && l.lost == 0
    ensures Consistent(ReadRow(env, x, w, l).w, x.id) && Later(w, ReadRow(env, x, w, l).w, x.id)
    ensures ReadRow(env, x, w, l).Again? ==> Life(ReadRow(env, x, w, l).w, x.id) < Life(w, x.id)
    ensures ReadRow(env, x, w, l).Again? ==> ReadRow(env, x, w, l).l.lost <= 1 && ReadRow(env, x, w, l).l.pass == l.pass + 1
  {
    StmtKeeps(env, w, x.id, Get(x.id));
    var o := DoStmt(env, w, x.id, Get(x.id));
    if !o.failed && o.row.Some? && o.row.value.expiresAt > o.w.now && x.sealer.open(x.id, o.row.value.payload).Some? {
      var p := x.sealer.open(x.id, o.row.value.payload).value;
      JudgeProgresses(env, x, o.w, l, o.row.value, p);
      LaterTransitive(w, o.w, ReadRow(env, x, w, l).w, x.id);
    }
  }

  lemma JudgeProgresses(env: Env, x: Call, w: World, l: Local, row: Row, p: RowPayload)
    requires Consistent(w, x.id) && l.lost == 0
    ensures Consistent(Judge(env, x, w, l, row, p).w, x.id) && Later(w, Judge(env, x, w, l, row, p).w, x.id)
    ensures Judge(env, x, w, l, row, p).Again? ==>
              Judge(env, x, w, l, row, p).l.lost <= 1 && Judge(env, x, w, l, row, p).l.pass == l.pass + 1
  {
    if l.pass == 0 {
      var w1 := Clock(env, w);
      ElapseKeeps(env, w, x.id, 0);
      LeaseProgresses(env, x, w1, l.(seenR := row.refreshedAt, seenF := row.failedAt));
      LaterTransitive(w, w1, Judge(env, x, w, l, row, p).w, x.id);
    } else {
      LeaseProgresses(env, x, w, l);
    }
  }

  lemma LeaseProgresses(env: Env, x: Call, w: World, l: Local)
    requires Consistent(w, x.id) && l.lost == 0
    ensures Consistent(AskForLease(env, x, w, l).w, x.id) && Later(w, AskForLease(env, x, w, l).w, x.id)
    ensures AskForLease(env, x, w, l).Again? ==>
              AskForLease(env, x, w, l).l.lost <= 1 && AskForLease(env, x, w, l).l.pass == l.pass + 1
  {
    TakeKeeps(env, w, x.id, x.conf.refreshLease, l.seenR, l.seenF);
    var o := DoTake(env, w, x.id, x.conf.refreshLease, l.seenR, l.seenF);
    if !env.turns(w.turn).randFails && !o.failed {
      if !o.landed {
        ElapseKeeps(env, o.w, x.id, if env.turns(o.w.turn).cancelled then 0 else l.backoff);
      } else {
        ExchangeProgresses(env, x, o.w, Drawn(env, w), o.row.value);
      }
      LaterTransitive(w, o.w, AskForLease(env, x, w, l).w, x.id);
    }
  }

  lemma ExchangeProgresses(env: Env, x: Call, w: World, nonce: Nonce, lease: Row)
    requires Consistent(w, x.id)
    ensures Consistent(RunExchange(env, x, w, nonce, lease).w, x.id)
    ensures Later(w, RunExchange(env, x, w, nonce, lease).w, x.id)
    ensures RunExchange(env, x, w, nonce, lease).w.mine == w.mine
  {
    match x.sealer.open(x.id, lease.payload)
    case None =>
    case Some(p) =>
      ElapseKeeps(env, w, x.id, 0);
      var w1 := Elapse(env, w, 0);
      match env.exchange(w.turn, p.token)
      case Refused(_) => FailProgresses(env, x, w, w1, nonce);
      case Granted(None) => FailProgresses(env, x, w, w1, nonce);
      case Granted(Some(tok)) =>
        match x.sealer.seal(w1.turn, x.id, p.(token := tok))
        case None =>
        case Some((sealed, kid)) =>
          StmtKeeps(env, w1, x.id, Commit(x.id, nonce, kid, sealed, tok.expiry));
          LaterTransitive(w, w1, RunExchange(env, x, w, nonce, lease).w, x.id);
  }

  lemma FailProgresses(env: Env, x: Call, w: World, w1: World, nonce: Nonce)
    requires Consistent(w1, x.id) && Later(w, w1, x.id)
    ensures var o := DoStmt(env, w1, x.id, Fail(x.id, nonce));
            Consistent(o.w, x.id) && Later(w, o.w, x.id) && o.w.mine == w1.mine
  {
    StmtKeeps(env, w1, x.id, Fail(x.id, nonce));
    LaterTransitive(w, w1, DoStmt(env, w1, x.id, Fail(x.id, nonce)).w, x.id);
  }

  /** The loop from a given pass on. */
  function Loop(env: Env, x: Call, w: World, l: Local): (World, Result<StoredToken>)
    requires Consistent(w, x.id) && l.lost <= 1
    decreases Life(w, x.id)
  {
    PassProgresses(env, x, w, l);
    match Pass(env, x, w, l)
    case Return(w1, r) => (w1, r)
    case Again(w1, l1) => Loop(env, x, w1, l1)
  }

  lemma LoopUnfolds(env: Env, x: Call, w: World, l: Local)
    requires Consistent(w, x.id) && l.lost <= 1
    ensures var v := Pass(env, x, w, l);
            && (v.Return? ==> Loop(env, x, w, l) == (v.w, v.r))
            && (v.Again? ==>
                  && Consistent(v.w, x.id) && v.l.lost <= 1 && Life(v.w, x.id) < Life(w, x.id)
                  && Loop(env, x, w, l) == Loop(env, x, v.w, v.l))
  {
    PassProgresses(env, x, w, l);
  }

  lemma {:induction false} LoopIsLater(env: Env, x: Call, w: World, l: Local)
    requires Consistent(w, x.id) && l.lost <= 1
    ensures Consistent(Loop(env, x, w, l).0, x.id) && Later(w, Loop(env, x, w, l).0, x.id)
    decreases Life(w, x.id)
  {
    PassProgresses(env, x, w, l);
    var v := Pass(env, x, w, l);
    if v.Again? {
      LoopIsLater(env, x, v.w, v.l);
      LaterTransitive(w, v.w, Loop(env, x, w, l).0, x.id);
    }
  }

  function Begin(env: Env, x: Call, w: World): Local {
    Local(0, 0, None, REFRESH_POLL_MIN, w.now + env.skew + x.conf.refreshWait, 0)
  }

  /** The whole call, its handle already opened to `x.id`. */
  function Refresh(env: Env, x: Call, w: World): (World, Result<StoredToken>)
    requires Consistent(w, x.id)
  {
    ElapseKeeps(env, w, x.id, 0);
    var w1 := Clock(env, w);
    Loop(env, x, w1, Begin(env, x, w1))
  }

  // ----- the passes of a call -----

  /** Where a pass starts. */
  datatype Head = Head(w: World, l: Local)

  /** The pass that starts at `a` comes round, and the next starts at `b`. */
  predicate Follows(env: Env, x: Call, a: Head, b: Head) {
    Pass(env, x, a.w, a.l) == Again(b.w, b.l)
  }

  /** Passes of a loop, one after the other. */
  ghost predicate Passes(env: Env, x: Call, heads: seq<Head>) {
    |heads| > 0 && forall k | 0 <= k < |heads| - 1 :: Follows(env, x, heads[k], heads[k + 1])
  }

  /** The first passes of a call that begins now. */
  ghost predicate PassesOf(env: Env, x: Call, w: World, heads: seq<Head>) {
    Passes(env, x, heads) && heads[0] == Head(Clock(env, w), Begin(env, x, Clock(env, w)))
  }

  predicate EndsWith(env: Env, x: Call, last: Head, end: (World, Result<StoredToken>)) {
    Pass(env, x, last.w, last.l) == Return(end.0, end.1)
  }

  lemma LoopStep(env: Env, x: Call, w: World, l: Local)
    requires Consistent(w, x.id) && l.lost <= 1
    ensures Pass(env, x, w, l).Return? ==> EndsWith(env, x, Head(w, l), Loop(env, x, w, l))
    ensures Pass(env, x, w, l).Again? ==>
              var next := Pass(env, x, w, l);
              && Follows(env, x, Head(w, l), Head(next.w, next.l))
              && Consistent(next.w, x.id) && next.l.lost <= 1 && Life(next.w, x.id) < Life(w, x.id)
              && Loop(env, x, w, l) == Loop(env, x, next.w, next.l)
  {
    LoopUnfolds(env, x, w, l);
  }

  lemma {:induction false} LoopPasses(env: Env, x: Call, w: World, l: Local) returns (heads: seq<Head>)
    requires Consistent(w, x.id) && l.lost <= 1
    ensures Passes(env, x, heads) && heads[0] == Head(w, l)
    ensures EndsWith(env, x, heads[|heads| - 1], Loop(env, x, w, l))
    decreases Life(w, x.id)
  {
    LoopStep(env, x, w, l);
    var v := Pass(env, x, w, l);
    if v.Return? {
      heads := [Head(w, l)];
    } else {
      var rest := LoopPasses(env, x, v.w, v.l);
      heads := PutFirst(env, x, Head(w, l), rest);
    }
  }

  lemma PutFirst(env: Env, x: Call, first: Head, rest: seq<Head>) returns (heads: seq<Head>)
    requires Passes(env, x, rest) && Follows(env, x, first, rest[0])
    ensures heads == [first] + rest && Passes(env, x, heads)
  {
    heads := [first] + rest;
    forall k | 0 <= k < |heads| - 1 ensures Follows(env, x, heads[k], heads[k + 1]) {
      assert k > 0 ==> heads[k] == rest[k - 1] && heads[k + 1] == rest[k];
    }
  }

  /** Every call is a finite sequence of passes, and answers what the last of
      them returns. */
  lemma RefreshPasses(env: Env, x: Call, w: World) returns (heads: seq<Head>)
    requires Consistent(w, x.id)
    ensures PassesOf(env, x, w, heads)
    ensures EndsWith(env, x, heads[|heads| - 1], Refresh(env, x, w))
  {
    ElapseKeeps(env, w, x.id, 0);
    var w1 := Clock(env, w);
    heads := LoopPasses(env, x, w1, Begin(env, x, w1));
  }

  /** Passes whose last one returns are all the passes there are. */
  lemma PassesEndTheCall(env: Env, x: Call, w: World, heads: seq<Head>)
    requires Consistent(w, x.id) && PassesOf(env, x, w, heads)
    requires Pass(env, x, heads[|heads| - 1].w, heads[|heads| - 1].l).Return?
    ensures EndsWith(env, x, heads[|heads| - 1], Refresh(env, x, w))
  {
    ElapseKeeps(env, w, x.id, 0);
    LoopAlongPasses(env, x, heads, |heads| - 1);
    LoopStep(env, x, heads[|heads| - 1].w, heads[|heads| - 1].l);
  }

  lemma {:induction false} LoopAlongPasses(env: Env, x: Call, heads: seq<Head>, n: nat)
    requires Passes(env, x, heads) && n < |heads| && Consistent(heads[0].w, x.id) && heads[0].l.lost <= 1
    ensures Consistent(heads[n].w, x.id) && heads[n].l.lost <= 1
    ensures Loop(env, x, heads[n].w, heads[n].l) == Loop(env, x, heads[0].w, heads[0].l)
  {
    if n > 0 {
      LoopAlongPasses(env, x, heads, n - 1);
      assert Follows(env, x, heads[n - 1], heads[n - 1 + 1]);
      LoopStep(env, x, heads[n - 1].w, heads[n - 1].l);
    }
  }

  /** What a pass of the call leaves, the end of the call extends. */
  lemma PassWithinCall(env: Env, x: Call, w: World, heads: seq<Head>, n: nat)
    requires Consistent(w, x.id) && PassesOf(env, x, w, heads) && n < |heads|
    ensures Later(Pass(env, x, heads[n].w, heads[n].l).w, Refresh(env, x, w).0, x.id)
  {
    ElapseKeeps(env, w, x.id, 0);
    LoopAlongPasses(env, x, heads, n);
    LoopExtendsPass(env, x, heads[n].w, heads[n].l);
  }

  lemma LoopExtendsPass(env: Env, x: Call, w: World, l: Local)
    requires Consistent(w, x.id) && l.lost <= 1
    ensures Later(Pass(env, x, w, l).w, Loop(env, x, w, l).0, x.id)
  {
    LoopUnfolds(env, x, w, l);
    var v := Pass(env, x, w, l);
    if v.Again? {
      LoopIsLater(env, x, v.w, v.l);
    }
  }
}
