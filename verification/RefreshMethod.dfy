/** Store.Refresh as it is written: a loop over a shared table that other
    callers write between any two of its statements. */
module RefreshMethod {
  import opened Common
  import opened SessionRows
  import opened RowHistory
  import opened RefreshWorld
  import opened StoreConf
  import opened RefreshLoop

  method RunLeaseStatement(table: SessionTable, e: Event)
    requires e.stmt.Take? || e.stmt.Commit? || e.stmt.Fail?
    modifies table
    ensures table.rows == Apply(old(table.rows), e.at, e.stmt)
  {
    match e.stmt {
      case Take(id, nonce, lease, seenR, seenF) =>
        var _ := table.TakeRefreshLease(id, nonce, lease, seenR, seenF, e.at);
      case Commit(id, nonce, keyId, payload, access) =>
        var _ := table.CommitRefresh(id, nonce, keyId, payload, access, e.at);
      case Fail(id, nonce) =>
        var _ := table.FailRefresh(id, nonce, e.at);
    }
  }

  method RunSessionStatement(table: SessionTable, e: Event)
    requires !e.stmt.Take? && !e.stmt.Commit? && !e.stmt.Fail?
    modifies table
    ensures table.rows == Apply(old(table.rows), e.at, e.stmt)
  {
    match e.stmt {
      case Create(id, subject, keyId, payload, access, maxAge) =>
        var _ := table.CreateSession(id, subject, keyId, payload, access, maxAge, e.at);
      case Get(id) =>
        var _ := table.GetSession(id, e.at);
        SameTable(table.rows, Apply(table.rows, e.at, e.stmt));
      case Update(id, keyId, payload, access) =>
        var _ := table.UpdateSession(id, keyId, payload, access, e.at);
      case Delete(id) =>
        var _ := table.DeleteSession(id, e.at);
      case DeleteSubject(subject) =>
        var _ := table.DeleteSubjectSessions(subject, e.at);
      case Sweep(ids) =>
        var _ := table.DeleteExpiredSessions(ids, e.at);
    }
  }

  /** The database as one call sees it. */
  class Database {
    const env: Env
    const table: SessionTable
    var now: int
    var issued: set<RowId>
    var nextNonce: nat
    var mine: set<Nonce>
    var turn: nat
    ghost const base: Rows
    ghost var log: seq<Event>

    constructor (env: Env, table: SessionTable, now: int, issued: set<RowId>, nextNonce: nat)
      ensures this.env == env && this.table == table
      ensures W() == World(table.rows, table.rows, now, issued, nextNonce, {}, [], 0)
    {
      this.env, this.table, this.now := env, table, now;
      this.issued, this.nextNonce, this.mine, this.turn := issued, nextNonce, {}, 0;
      this.base, this.log := table.rows, [];
    }

    ghost function W(): World
      reads this, table
    {
      World(base, table.rows, now, issued, nextNonce, mine, log, turn)
    }

    method Run(e: Event)
      modifies this, table
      ensures W() == Record(old(W()), e)
    {
      if e.stmt.Take? || e.stmt.Commit? || e.stmt.Fail? {
        RunLeaseStatement(table, e);
      } else {
        RunSessionStatement(table, e);
      }
      nextNonce := if e.stmt.Take? then e.stmt.nonce + 1 else nextNonce;
      issued := if e.stmt.Create? then issued + {e.stmt.id} else issued;
      now := e.at;
      log := log + [e];
    }

    /** Everybody else's turn, and the time it takes. */
    method Pause(least: nat)
      modifies this, table
      ensures W() == Elapse(env, old(W()), least)
    {
      var t, start := env.turns(turn), now;
      ghost var w := W();
      var i := 0;
      while i < |t.others|
        invariant 0 <= i <= |t.others| && turn == w.turn
        invariant AdmitAll(W(), t.others[i..]) == AdmitAll(w, t.others)
      {
        var e := t.others[i];
        ghost var u := W();
        if && now < e.at
           && (e.stmt.Take? ==> nextNonce <= e.stmt.nonce)
           && (e.stmt.Create? ==> e.stmt.id !in issued)
           && (e.stmt.Commit? || e.stmt.Fail? ==> e.stmt.nonce !in mine) {
          Run(e);
        }
        assert W() == Admit(u, e);
        assert t.others[i..][1..] == t.others[i + 1..];
        i := i + 1;
      }
      assert t.others[i..] == [];
      now := Max(now, start + least) + t.delay;
      turn := turn + 1;
    }

    method RunNow(fault: Fault, id: RowId, s: Stmt) returns (failed: bool, landed: bool, row: Option<Row>)
      modifies this, table
      ensures Outcome(W(), failed, landed, row) == Ran(old(W()), fault, id, s)
    {
      if fault.NotRun? {
        return true, false, None;
      }
      var before := if id in table.rows then Some(table.rows[id]) else None;
      landed := Lands(before, id, now + 1, s);
      Run(Event(now + 1, s));
      row := if id in table.rows then Some(table.rows[id]) else None;
      failed := fault.RunAndLost?;
    }

    method Execute(id: RowId, s: Stmt) returns (failed: bool, landed: bool, row: Option<Row>)
      modifies this, table
      ensures Outcome(W(), failed, landed, row) == DoStmt(env, old(W()), id, s)
    {
      var fault := env.turns(turn).fault;
      Pause(0);
      failed, landed, row := RunNow(fault, id, s);
    }

    method TakeLease(id: RowId, lease: int, seenR: int, seenF: Option<int>)
      returns (failed: bool, landed: bool, row: Option<Row>, nonce: Nonce)
      modifies this, table
      ensures Outcome(W(), failed, landed, row) == DoTake(env, old(W()), id, lease, seenR, seenF)
      ensures nonce == Drawn(env, old(W()))
    {
      var fault := env.turns(turn).fault;
      Pause(0);
      nonce := nextNonce;
      failed, landed, row := RunNow(fault, id, Take(id, nonce, lease, seenR, seenF));
      nextNonce := nonce + 1;
      mine := mine + {nonce};
    }
  }

  /** Records the failure; `lost` says the lease was no longer ours. */
  method RecordFailure(db: Database, x: Call, nonce: Nonce, cause: Error) returns (lost: bool, r: Result<StoredToken>)
    modifies db, db.table
    ensures (if lost then LeaseLost(db.W()) else Done(db.W(), r)) == Failed(db.env, x, old(db.W()), nonce, cause)
  {
    var failed, landed, _ := db.Execute(x.id, Fail(x.id, nonce));
    lost, r := !failed && !landed, Err(cause);
  }

  method RunTheExchange(db: Database, x: Call, nonce: Nonce, lease: Row)
    returns (lost: bool, r: Result<StoredToken>)
    modifies db, db.table
    ensures (if lost then LeaseLost(db.W()) else Done(db.W(), r)) == RunExchange(db.env, x, old(db.W()), nonce, lease)
  {
    var maybe := x.sealer.open(x.id, lease.payload);
    if maybe.None? {
      return false, Err({NoSession});
    }
    var payload := maybe.value;
    var answer := db.env.exchange(db.turn, payload.token);
    db.Pause(0);
    if answer.Refused? {
      lost, r := RecordFailure(db, x, nonce, answer.wraps);
      return;
    }
    if answer.token.None? {
      lost, r := RecordFailure(db, x, nonce, {});
      return;
    }
    var tok := answer.token.value;
    var refreshed := payload.(token := tok);
    var sealed := x.sealer.seal(db.turn, x.id, refreshed);
    if sealed.None? {
      return false, Err({});
    }
    var failed, landed, _ := db.Execute(x.id, Commit(x.id, nonce, sealed.value.1, sealed.value.0, tok.expiry));
    if failed {
      return false, Err({});
    }
    if !landed {
      return true, Err({});
    }
    return false, Ok(StoredToken(x.t.handle, refreshed.subject, Some(tok), refreshed.idToken,
                                 lease.createdAt, lease.expiresAt, x.t.stale));
  }

  /** The second half of a pass: take the lease and exchange, or wait for
      whoever holds it. */
  method AskOrWait(db: Database, x: Call, l: Local) returns (done: bool, r: Result<StoredToken>, next: Local)
    modifies db, db.table
    ensures (if done then Return(db.W(), r) else Again(db.W(), next)) == AskForLease(db.env, x, old(db.W()), l)
  {
    done, r, next := true, Err({}), l.(pass := l.pass + 1);
    if db.env.turns(db.turn).randFails {
      return;
    }
    var failed, taken, lease, nonce := db.TakeLease(x.id, x.conf.refreshLease, l.seenR, l.seenF);
    if failed {
      return;
    }
    if !taken {
      var cancelled := db.env.turns(db.turn).cancelled;
      db.Pause(if cancelled then 0 else l.backoff);
      done, r := cancelled, Err({Cancelled});
      next := next.(backoff := Min(2 * l.backoff, REFRESH_POLL_MAX));
    } else {
      var lost;
      lost, r := RunTheExchange(db, x, nonce, lease.value);
      done := !lost;
      next := next.(lost := Min(l.lost + 1, MAX_LOST_WRITE_READS));
    }
  }

  /** The first half of a pass: read the row and see whether it answers the
      call. The first read is what later ones are compared with. */
  method ReadAndJudge(db: Database, x: Call, l: Local) returns (done: bool, r: Result<StoredToken>, next: Local)
    modifies db, db.table
    ensures (if done then Return(db.W(), r) else AskForLease(db.env, x, db.W(), next))
            == ReadRow(db.env, x, old(db.W()), l)
  {
    done, r, next := true, Err({}), l;
    var failed, _, row := db.Execute(x.id, Get(x.id));
    if failed {
      return;
    }
    if row.None? || row.value.expiresAt <= db.now {
      r := Err({NoSession});
      return;
    }
    var payload := x.sealer.open(x.id, row.value.payload);
    if payload.None? {
      r := Err({NoSession});
      return;
    }
    ghost var verdict := Judge(db.env, x, db.W(), l, row.value, payload.value);
    assert verdict == ReadRow(db.env, x, old(db.W()), l);
    if l.pass == 0 {
      next := l.(seenR := row.value.refreshedAt, seenF := row.value.failedAt);
      db.Pause(0);
      if payload.value.token.expiry - (db.now + db.env.skew) > x.conf.refreshMargin {
        r := Ok(SessionOf(x.t, row.value, payload.value));
        return;
      }
    } else if row.value.refreshedAt > l.seenR {
      r := Ok(SessionOf(x.t, row.value, payload.value));
      return;
    } else if Advanced(row.value.failedAt, l.seenF) {
      r := Err({RefreshFailed, RefreshRejected});
      return;
    }
    done := false;
  }

  method OnePass(db: Database, x: Call, l: Local) returns (done: bool, r: Result<StoredToken>, next: Local)
    modifies db, db.table
    ensures (if done then Return(db.W(), r) else Again(db.W(), next)) == Pass(db.env, x, old(db.W()), l)
  {
    db.Pause(0);
    if l.pass > 0 && l.lost == 0 && db.now + db.env.skew >= l.deadline {
      return true, Err({RefreshTimeout}), l;
    }
    next := l.(lost := if l.lost > 0 then l.lost - 1 else 0);
    done, r, next := ReadAndJudge(db, x, next);
    if !done {
      done, r, next := AskOrWait(db, x, next);
    }
  }

  /** The call. Its answer, and the table it leaves, are those of the function
      the theorems are about; the loop ends whatever the environment does, and
      the lost-write counter never reaches its cap at the head of a pass. */
  method RefreshSession(db: Database, x: Call) returns (r: Result<StoredToken>)
    requires Consistent(db.W(), x.id)
    modifies db, db.table
    ensures (db.W(), r) == Refresh(db.env, x, old(db.W()))
  {
    ghost var goal := Refresh(db.env, x, db.W());
    ElapseKeeps(db.env, db.W(), x.id, 0);
    db.Pause(0);
    var l := Local(0, 0, None, REFRESH_POLL_MIN, db.now + db.env.skew + x.conf.refreshWait, 0);
    while true
      invariant Consistent(db.W(), x.id) && l.lost <= 1
      invariant Loop(db.env, x, db.W(), l) == goal
      decreases Life(db.W(), x.id)
    {
      LoopUnfolds(db.env, x, db.W(), l);
      var done;
      done, r, l := OnePass(db, x, l);
      if done {
        return;
      }
    }
  }
}
