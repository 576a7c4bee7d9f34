/** The world one Refresh call runs in: the table, the clock, and an
    environment that may run any statements of other callers between any two
    of this call's own, fail any statement, and answer any exchange.

    The environment is an oracle, and what it proposes is sanitised rather
    than assumed: a statement of another caller is admitted only if it is
    later than everything before it, draws a fresh nonce, creates no row under
    an id that is already drawn, and does not present a nonce of this call. */
module RefreshWorld {
  import opened Common
  import opened SessionRows
  import opened RowHistory

  datatype World = World(
    base: Rows,            // the table when the history below began
    rows: Rows,
    now: int,
    issued: set<RowId>,    // ids of every handle ever drawn
    nextNonce: nat,        // every nonce drawn so far is below it
    mine: set<Nonce>,      // the nonces this call drew
    log: seq<Event>,
    turn: nat)

  datatype Fault =
    | Fine
    | NotRun       // the statement errored without running
    | RunAndLost   // the statement ran and its answer was lost

  datatype Turn = Turn(others: seq<Event>, delay: nat, fault: Fault, cancelled: bool, randFails: bool)

  datatype Answer = Refused(wraps: Error) | Granted(token: Option<Token>)

  /** `skew` is how far the process clock is ahead of the database's. */
  datatype Env = Env(turns: nat -> Turn, exchange: (nat, Token) -> Answer, skew: int)

  predicate Admissible(w: World, e: Event) {
    && w.now < e.at
    && (e.stmt.Take? ==> w.nextNonce <= e.stmt.nonce)
    && (e.stmt.Create? ==> e.stmt.id !in w.issued)
    && (e.stmt.Commit? || e.stmt.Fail? ==> e.stmt.nonce !in w.mine)
  }

  function Record(w: World, e: Event): World {
    w.(rows := Apply(w.rows, e.at, e.stmt), now := e.at, log := w.log + [e],
       nextNonce := if e.stmt.Take? then e.stmt.nonce + 1 else w.nextNonce,
       issued := if e.stmt.Create? then w.issued + {e.stmt.id} else w.issued)
  }

  function Admit(w: World, e: Event): World {
    if Admissible(w, e) then Record(w, e) else w
  }

  function AdmitAll(w: World, es: seq<Event>): World
    decreases |es|
  {
    if es == [] then w else AdmitAll(Admit(w, es[0]), es[1..])
  }

  /** The environment is free to do whatever the rules allow: a statement of
      another caller runs, at its instant, if that is later than everything
      before it, its nonce or handle is fresh, and it presents no nonce of this
      call; and it is the first of any that follow. */
  lemma OthersAreFree(w: World, e: Event, rest: seq<Event>)
    requires w.now < e.at && (e.stmt.Take? ==> e.stmt.nonce >= w.nextNonce) && (e.stmt.Create? ==> e.stmt.id !in w.issued)
    requires (e.stmt.Commit? ==> e.stmt.nonce !in w.mine) && (e.stmt.Fail? ==> e.stmt.nonce !in w.mine)
    ensures Admit(w, e).log == w.log + [e] && Admit(w, e).now == e.at && Admit(w, e).rows == Apply(w.rows, e.at, e.stmt)
    ensures AdmitAll(w, [e] + rest) == AdmitAll(Admit(w, e), rest)
  {
    assert ([e] + rest)[1..] == rest;
  }

  /** Time passes, by `least` at the very least. */
  function Elapse(env: Env, w: World, least: nat): World {
    var t := env.turns(w.turn);
    var w1 := AdmitAll(w, t.others);
    w1.(now := Max(w1.now, w.now + least) + t.delay, turn := w.turn + 1)
  }

  /** The world as the process clock is read, which then says now + skew. */
  function Clock(env: Env, w: World): World {
    Elapse(env, w, 0)
  }

  datatype Outcome = Outcome(w: World, failed: bool, landed: bool, row: Option<Row>)

  /** One statement of this call, now. */
  function Ran(w: World, fault: Fault, id: RowId, s: Stmt): (o: Outcome)
    ensures o.landed && s.Take? ==> o.row.Some?
  {
    if fault.NotRun? then Outcome(w, true, false, None) else
      var v := Record(w, Event(w.now + 1, s));
      Outcome(v, fault.RunAndLost?, Lands(Lookup(w.rows, id), id, v.now, s), Lookup(v.rows, id))
  }

  /** One statement of this call, after everybody else's turn. */
  function DoStmt(env: Env, w: World, id: RowId, s: Stmt): (o: Outcome)
    ensures o.landed && s.Take? ==> o.row.Some?
  {
    Ran(Elapse(env, w, 0), env.turns(w.turn).fault, id, s)
  }

  /** The nonce TakeRefreshLease will present: one nobody has drawn. */
  function Drawn(env: Env, w: World): Nonce {
    Elapse(env, w, 0).nextNonce
  }

  function DoTake(env: Env, w: World, id: RowId, lease: int, seenR: int, seenF: Option<int>): (o: Outcome)
    ensures o.landed ==> o.row.Some?
  {
    var n := Drawn(env, w);
    var o := DoStmt(env, w, id, Take(id, n, lease, seenR, seenF));
    o.(w := o.w.(nextNonce := n + 1, mine := o.w.mine + {n}))
  }

  // ----- what every world a call passes through keeps -----

  /** The row is what the history made of its beginning, and the history is
      legal and behind the clock. */
  ghost predicate History(r0: Option<Row>, id: RowId, log: seq<Event>, row: Option<Row>, now: int, nextNonce: nat) {
    && row == RowAt(r0, id, log, |log|)
    && Legal(r0, id, log)
    && (forall i | 0 <= i < |log| :: log[i].at <= now)
    && StampedBefore(r0, now + 1)
    && (forall i | 0 <= i < |log| && log[i].stmt.Take? :: log[i].stmt.nonce < nextNonce)
    && (r0.Some? && r0.value.leaseNonce.Some? ==> r0.value.leaseNonce.value < nextNonce)
  }

  ghost predicate Consistent(w: World, id: RowId) {
    id in w.issued && History(Lookup(w.base, id), id, w.log, Lookup(w.rows, id), w.now, w.nextNonce)
  }

  predicate NewEvent(w: World, id: RowId, e: Event) {
    w.now < e.at && !IsCreate(id, e.stmt) && (e.stmt.Take? ==> w.nextNonce <= e.stmt.nonce)
  }

  /** How a later world relates to an earlier one. */
  predicate Later(w: World, v: World, id: RowId) {
    && w.now <= v.now
    && w.base == v.base
    && w.issued <= v.issued
    && w.nextNonce <= v.nextNonce
    && w.mine <= v.mine
    && (forall n | n in v.mine && n !in w.mine :: w.nextNonce <= n)
    && w.log <= v.log
    && (forall i | |w.log| <= i < |v.log| :: NewEvent(w, id, v.log[i]))
    && (id in v.rows ==>
          id in w.rows && v.rows[id].expiresAt == w.rows[id].expiresAt && v.rows[id].createdAt == w.rows[id].createdAt)
  }

  lemma {:induction false} RowAtPrefix(r0: Option<Row>, id: RowId, a: seq<Event>, b: seq<Event>, k: nat)
    requires a <= b && k <= |a|
    ensures RowAt(r0, id, a, k) == RowAt(r0, id, b, k)
  {
    if k > 0 {
      RowAtPrefix(r0, id, a, b, k - 1);
    }
  }

  lemma HistoryGrows(r0: Option<Row>, id: RowId, log: seq<Event>, row: Option<Row>, now: int, nextNonce: nat, e: Event)
    requires History(r0, id, log, row, now, nextNonce) && now < e.at
    requires e.stmt.Take? ==> nextNonce <= e.stmt.nonce
    requires !IsCreate(id, e.stmt)
    ensures History(r0, id, log + [e], StepRow(row, id, e.at, e.stmt), e.at,
                    if e.stmt.Take? then e.stmt.nonce + 1 else nextNonce)
    ensures LandsAt(r0, id, log + [e], |log|) <==> Lands(row, id, e.at, e.stmt)
  {
    RowAtPrefix(r0, id, log, log + [e], |log|);
    forall i ensures LegalEvent(r0, id, log + [e], i) {
      assert LegalEvent(r0, id, log, i);
    }
    forall i, j ensures LegalPair(id, log + [e], i, j) {
      assert LegalPair(id, log, i, j);
    }
  }

  lemma RecordKeeps(w: World, id: RowId, e: Event)
    requires Consistent(w, id) && w.now < e.at
    requires e.stmt.Take? ==> w.nextNonce <= e.stmt.nonce
    requires !IsCreate(id, e.stmt)
    ensures var v := Record(w, e);
            && Consistent(v, id) && Later(w, v, id)
            && |v.log| == |w.log| + 1 && v.log[|w.log|] == e
            && (LandsAt(Lookup(w.base, id), id, v.log, |w.log|) <==> Lands(Lookup(w.rows, id), id, e.at, e.stmt))
            && Lookup(v.rows, id) == RowAt(Lookup(w.base, id), id, v.log, |v.log|)
  {
    HistoryGrows(Lookup(w.base, id), id, w.log, Lookup(w.rows, id), w.now, w.nextNonce, e);
  }

  lemma AdmitKeeps(w: World, id: RowId, e: Event)
    requires Consistent(w, id)
    ensures Consistent(Admit(w, e), id) && Later(w, Admit(w, e), id)
    ensures Admit(w, e).mine == w.mine && Admit(w, e).turn == w.turn
  {
    if Admissible(w, e) {
      RecordKeeps(w, id, e);
    }
  }

  lemma {:induction false} AdmitAllKeeps(w: World, id: RowId, es: seq<Event>)
    requires Consistent(w, id)
    ensures Consistent(AdmitAll(w, es), id) && Later(w, AdmitAll(w, es), id)
    ensures AdmitAll(w, es).mine == w.mine && AdmitAll(w, es).turn == w.turn
    decreases |es|
  {
    if es != [] {
      AdmitKeeps(w, id, es[0]);
      AdmitAllKeeps(Admit(w, es[0]), id, es[1..]);
    }
  }

  lemma ElapseKeeps(env: Env, w: World, id: RowId, least: nat)
    requires Consistent(w, id)
    ensures Consistent(Elapse(env, w, least), id) && Later(w, Elapse(env, w, least), id)
    ensures Elapse(env, w, least).mine == w.mine
    ensures Elapse(env, w, least).now >= w.now + least
  {
    AdmitAllKeeps(w, id, env.turns(w.turn).others);
  }

  lemma LaterTransitive(u: World, v: World, w: World, id: RowId)
    requires Later(u, v, id) && Later(v, w, id)
    ensures Later(u, w, id)
  {
  }

  /** The statement is the last event of the new history, and the outcome is
      what it did to the row. */
  ghost predicate StmtRan(w: World, o: Outcome, id: RowId, s: Stmt) {
    && |w.log| < |o.w.log|
    && var k := |o.w.log| - 1;
    && o.w.log[k] == Event(o.w.now, s)
    && (o.landed <==> LandsAt(Lookup(w.base, id), id, o.w.log, k))
    && o.row == RowAt(Lookup(w.base, id), id, o.w.log, k + 1)
  }

  lemma StmtKeeps(env: Env, w: World, id: RowId, s: Stmt)
    requires Consistent(w, id)
    requires !s.Create? && (s.Take? ==> Drawn(env, w) <= s.nonce)
    ensures var o := DoStmt(env, w, id, s);
            && Consistent(o.w, id) && Later(w, o.w, id) && o.w.mine == w.mine
            && (!env.turns(w.turn).fault.NotRun? ==> StmtRan(w, o, id, s))
            && (!o.failed ==> env.turns(w.turn).fault.Fine? && o.w.now > w.now)
  {
    ElapseKeeps(env, w, id, 0);
    var w1, o := Elapse(env, w, 0), DoStmt(env, w, id, s);
    if !env.turns(w.turn).fault.NotRun? {
      RecordKeeps(w1, id, Event(w1.now + 1, s));
      LaterTransitive(w, w1, o.w, id);
    }
  }

  lemma TakeKeeps(env: Env, w: World, id: RowId, lease: int, seenR: int, seenF: Option<int>)
    requires Consistent(w, id)
    ensures var o := DoTake(env, w, id, lease, seenR, seenF);
            var n := Drawn(env, w);
            && Consistent(o.w, id) && Later(w, o.w, id) && o.w.mine == w.mine + {n} && w.nextNonce <= n
            && (!env.turns(w.turn).fault.NotRun? ==> StmtRan(w, o, id, Take(id, n, lease, seenR, seenF)))
            && (!o.failed ==> env.turns(w.turn).fault.Fine? && o.w.now > w.now)
  {
    ElapseKeeps(env, w, id, 0);
    StmtKeeps(env, w, id, Take(id, Drawn(env, w), lease, seenR, seenF));
    var o := DoStmt(env, w, id, Take(id, Drawn(env, w), lease, seenR, seenF));
    HistoryAllowsMore(Lookup(o.w.base, id), id, o.w.log, Lookup(o.w.rows, id), o.w.now, o.w.nextNonce, Drawn(env, w) + 1);
  }

  lemma HistoryAllowsMore(
    r0: Option<Row>, id: RowId, log: seq<Event>, row: Option<Row>, now: int, nextNonce: nat, more: nat)
    requires History(r0, id, log, row, now, nextNonce) && nextNonce <= more
    ensures History(r0, id, log, row, now, more)
  {
  }
}
