/** What one Refresh call writes, and that its answer is what it wrote. */
module OwnWrites {
  import opened Common
  import opened SessionRows
  import opened RowHistory
  import opened RefreshWorld
  import opened RefreshLoop
  import opened RefreshMeaning
  import opened OwnLeases

  /** The lease at `i` was asked for with the configured length and with the
      columns the call saw at its first read, at `h`. */
  ghost predicate Asked(x: Call, w: World, h: nat, i: nat)
    requires i < |w.log| && w.log[i].stmt.Take?
  {
    && h < i && RowIn(x, w, h).Some? && w.log[i].stmt.lease == x.conf.refreshLease
    && w.log[i].stmt.seenRefreshedAt == RowIn(x, w, h).value.refreshedAt
    && w.log[i].stmt.seenFailedAt == RowIn(x, w, h).value.failedAt
  }

  ghost predicate AllAsked(x: Call, w: World, h: nat) {
    forall i: nat | Own(x, w, i) :: Asked(x, w, h, i)
  }

  /** Event `j` is a write-back of the call's own lease at `i`. */
  ghost predicate OwnWrite(x: Call, w: World, i: nat, j: nat) {
    Own(x, w, i) && i < j < |w.log| && IsFence(w.log[j].stmt, x.id, w.log[i].stmt.nonce)
  }

  ghost predicate Backed(env: Env, x: Call, w: World, i: nat, j: nat) {
    exists q: nat :: q < w.turn && WritesBack(env, x, w, i, j, q)
  }

  /** Every write-back of the call writes what the provider answered. */
  ghost predicate TrueWrites(env: Env, x: Call, w: World) {
    forall i: nat, j: nat | OwnWrite(x, w, i, j) :: Backed(env, x, w, i, j)
  }

  ghost predicate NoneLanded(x: Call, w: World) {
    forall i: nat, j: nat | OwnWrite(x, w, i, j) :: !LandsAt(Lookup(w.base, x.id), x.id, w.log, j)
  }

  /** The answer says what the write-back wrote: a commit whose outcome came back
      answers the session it left, with the token the provider granted; a failure
      answers the provider's error. */
  ghost predicate Repeats(env: Env, x: Call, w: World, i: nat, j: nat, r: Result<StoredToken>) {
    && w.turn >= 2 && WritesBack(env, x, w, i, j, w.turn - 2)
    && var answer := env.exchange(w.turn - 2, x.sealer.open(x.id, RowIn(x, w, i + 1).value.payload).value.token);
    if w.log[j].stmt.Fail? then r == Err(if answer.Refused? then answer.wraps else {})
    else if !env.turns(w.turn - 1).fault.Fine? then r == Err({})
    else r.Ok? && r.value.token == answer.token && SessionAt(x, w, r.value, j + 1)
  }

  /** A write-back that lands is the call's last statement, and its answer. */
  ghost predicate Settles(env: Env, x: Call, w: World, r: Result<StoredToken>) {
    forall i: nat, j: nat | OwnWrite(x, w, i, j) && LandsAt(Lookup(w.base, x.id), x.id, w.log, j) ::
      j == |w.log| - 1 && Repeats(env, x, w, i, j, r)
  }

  /** What the call keeps while it goes on. */
  ghost predicate Truthful(env: Env, x: Call, h: nat, w: World) {
    MineDrawn(w) && AllAsked(x, w, h) && TrueWrites(env, x, w) && NoneLanded(x, w)
  }

  /** What it has kept when it ends. */
  ghost predicate Told(env: Env, x: Call, h: nat, w: World, r: Result<StoredToken>) {
    AllAsked(x, w, h) && TrueWrites(env, x, w) && Settles(env, x, w, r)
  }

  lemma TruthfulTells(env: Env, x: Call, h: nat, w: World)
    requires Truthful(env, x, h, w)
    ensures forall r :: Told(env, x, h, w, r)
  {
  }

  // ----- the others' turns -----

  predicate IsOwnFence(mine: set<Nonce>, s: Stmt) {
    (s.Commit? && s.nonce in mine) || (s.Fail? && s.nonce in mine)
  }

  /** None of the new events presents a nonce of this call. */
  predicate NoOwnFence(w: World, v: World) {
    forall j | |w.log| <= j < |v.log| :: !IsOwnFence(w.mine, v.log[j].stmt)
  }

  lemma {:induction false} OthersPresentTheirOwn(w: World, es: seq<Event>)
    ensures w.log <= AdmitAll(w, es).log && AdmitAll(w, es).mine == w.mine && NoOwnFence(w, AdmitAll(w, es))
    decreases |es|
  {
    if es != [] {
      OthersPresentTheirOwn(Admit(w, es[0]), es[1..]);
    }
  }

  lemma ElapseIsOthers(env: Env, w: World, least: nat)
    ensures NoOwnFence(w, Elapse(env, w, least)) && Elapse(env, w, least).turn == w.turn + 1
  {
    OthersPresentTheirOwn(w, env.turns(w.turn).others);
  }

  lemma WritesBackStays(env: Env, x: Call, w: World, v: World, i: nat, j: nat)
    requires Later(w, v, x.id) && w.turn <= v.turn && j < |w.log| && Backed(env, x, w, i, j)
    ensures Backed(env, x, v, i, j)
    ensures LandsAt(Lookup(w.base, x.id), x.id, w.log, j) <==> LandsAt(Lookup(v.base, x.id), x.id, v.log, j)
  {
    var q: nat :| q < w.turn && WritesBack(env, x, w, i, j, q);
    RowAtPrefix(Lookup(w.base, x.id), x.id, w.log, v.log, i + 1);
    RowAtPrefix(Lookup(w.base, x.id), x.id, w.log, v.log, j);
    assert WritesBack(env, x, v, i, j, q);
  }

  lemma AskedStays(x: Call, w: World, v: World, h: nat, i: nat)
    requires Later(w, v, x.id) && Own(x, w, i) && Asked(x, w, h, i)
    ensures Asked(x, v, h, i)
  {
    RowAtPrefix(Lookup(w.base, x.id), x.id, w.log, v.log, h);
    assert v.log[i] == w.log[i];
  }

  /** A later world adds own writes only where it adds own fences. */
  lemma OldWrite(x: Call, w: World, v: World, i: nat, j: nat)
    requires Later(w, v, x.id) && Own(x, w, i) && OwnWrite(x, v, i, j) && (j < |w.log| || NoOwnFence(w, v))
    ensures OwnWrite(x, w, i, j)
  {
    assert v.log[i] == w.log[i];
    if j < |w.log| {
      assert v.log[j] == w.log[j];
    }
  }

  lemma TruthfulStays(env: Env, x: Call, h: nat, w: World, v: World)
    requires Truthful(env, x, h, w) && Later(w, v, x.id) && v.mine == w.mine && w.turn <= v.turn && NoOwnFence(w, v)
    ensures Truthful(env, x, h, v)
  {
    forall i: nat | Own(x, v, i) ensures Asked(x, v, h, i) {
      OwnIsStable(x, w, v, i);
      AskedStays(x, w, v, h, i);
    }
    forall i: nat, j: nat | OwnWrite(x, v, i, j)
      ensures Backed(env, x, v, i, j) && !LandsAt(Lookup(v.base, x.id), x.id, v.log, j)
    {
      OwnIsStable(x, w, v, i);
      OldWrite(x, w, v, i, j);
      WritesBackStays(env, x, w, v, i, j);
    }
  }

  // ----- the call's own statements -----

  lemma ReadStaysTruthful(env: Env, x: Call, h: nat, w: World)
    requires Consistent(w, x.id) && Truthful(env, x, h, w)
    ensures Truthful(env, x, h, DoStmt(env, w, x.id, Get(x.id)).w)
  {
    var o := DoStmt(env, w, x.id, Get(x.id));
    StmtKeeps(env, w, x.id, Get(x.id));
    ElapseIsOthers(env, w, 0);
    TruthfulStays(env, x, h, w, o.w);
  }

  lemma TakeStaysTruthful(env: Env, x: Call, from: nat, h: nat, w: World, l: Local)
    requires Consistent(w, x.id) && FirstRead(x, w, from, h, l) && Truthful(env, x, h, w)
    ensures Truthful(env, x, h, DoTake(env, w, x.id, x.conf.refreshLease, l.seenR, l.seenF).w)
  {
    var o := DoTake(env, w, x.id, x.conf.refreshLease, l.seenR, l.seenF);
    TakeKeeps(env, w, x.id, x.conf.refreshLease, l.seenR, l.seenF);
    ElapseIsOthers(env, w, 0);
    OwnAfterTake(env, x, w, l, 0);
    forall i: nat | Own(x, o.w, i) ensures Asked(x, o.w, h, i) {
      OwnAfterTake(env, x, w, l, i);
      if Own(x, w, i) {
        AskedStays(x, w, o.w, h, i);
      } else {
        FirstReadStays(x, w, o.w, from, h, l);
      }
    }
    forall i: nat, j: nat | OwnWrite(x, o.w, i, j)
      ensures Backed(env, x, o.w, i, j) && !LandsAt(Lookup(o.w.base, x.id), x.id, o.w.log, j)
    {
      OwnAfterTake(env, x, w, l, i);
      OldWrite(x, w, o.w, i, j);
      WritesBackStays(env, x, w, o.w, i, j);
    }
  }

  /** The statement writes back what the exchange of this turn answered. */
  ghost predicate Right(env: Env, x: Call, w: World, p: RowPayload, s: Stmt)
    requires |w.log| > 0 && w.log[|w.log| - 1].stmt.Take?
  {
    var nonce, answer := w.log[|w.log| - 1].stmt.nonce, env.exchange(w.turn, p.token);
    match s
    case Commit(id, n, kid, sealed, accessExpiresAt) =>
      && id == x.id && n == nonce && answer.Granted? && answer.token.Some?
      && x.sealer.seal(w.turn + 1, x.id, RowPayload(p.subject, answer.token.value, p.idToken)) == Some((sealed, kid))
      && accessExpiresAt == answer.token.value.expiry
    case Fail(id, n) => id == x.id && n == nonce && (answer.Refused? || answer.token.None?)
    case _ => false
  }

  /** Only the last event may be an own write that landed, of the lease at `k`. */
  ghost predicate OnlyLast(x: Call, w: World, k: nat) {
    forall i: nat, j: nat | OwnWrite(x, w, i, j) && LandsAt(Lookup(w.base, x.id), x.id, w.log, j) ::
      i == k && j == |w.log| - 1
  }

  ghost predicate LastLanded(x: Call, w: World, k: nat) {
    |w.log| > 0 && OwnWrite(x, w, k, |w.log| - 1) && LandsAt(Lookup(w.base, x.id), x.id, w.log, |w.log| - 1)
  }

  ghost predicate Almost(env: Env, x: Call, h: nat, w: World, k: nat) {
    MineDrawn(w) && AllAsked(x, w, h) && TrueWrites(env, x, w) && OnlyLast(x, w, k)
  }

  lemma AlmostTells(env: Env, x: Call, h: nat, w: World, k: nat)
    requires Almost(env, x, h, w, k)
    ensures !LastLanded(x, w, k) ==> Truthful(env, x, h, w) && forall r :: Told(env, x, h, w, r)
    ensures LastLanded(x, w, k) ==> forall r | Repeats(env, x, w, k, |w.log| - 1, r) :: Told(env, x, h, w, r)
  {
  }

  /** A write-back adds one own write at most: itself, of the lease just taken. */
  lemma WriteBackIsTrue(env: Env, x: Call, h: nat, w: World, lease: Row, p: RowPayload, s: Stmt)
    requires Faithful(x.sealer) && Consistent(w, x.id) && Truthful(env, x, h, w) && JustTook(x, w, lease)
    requires x.sealer.open(x.id, lease.payload) == Some(p) && Right(env, x, w, p, s)
    ensures var o, k := DoStmt(env, Elapse(env, w, 0), x.id, s), |w.log| - 1;
            && Almost(env, x, h, o.w, k) && o.w.turn == w.turn + 2
            && (LastLanded(x, o.w, k) ==>
                  && !env.turns(w.turn + 1).fault.NotRun? && o.landed && o.w.log[|o.w.log| - 1].stmt == s
                  && WritesBack(env, x, o.w, k, |o.w.log| - 1, w.turn) && RowIn(x, o.w, k + 1) == Some(lease))
            && (o.failed <==> !env.turns(w.turn + 1).fault.Fine?)
            && (!o.failed && o.landed ==> LastLanded(x, o.w, k))
  {
    var o, k := DoStmt(env, Elapse(env, w, 0), x.id, s), |w.log| - 1;
    WriteBackRan(env, x, w, lease, s);
    forall i: nat | Own(x, o.w, i) ensures Asked(x, o.w, h, i) {
      OwnIsStable(x, w, o.w, i);
      AskedStays(x, w, o.w, h, i);
    }
    forall i: nat, j: nat | OwnWrite(x, o.w, i, j)
      ensures Backed(env, x, o.w, i, j)
      ensures LandsAt(Lookup(o.w.base, x.id), x.id, o.w.log, j) ==>
                && i == k && j == |o.w.log| - 1 && !env.turns(w.turn + 1).fault.NotRun? && o.w.log[j].stmt == s
                && WritesBack(env, x, o.w, i, j, w.turn)
    {
      OwnIsStable(x, w, o.w, i);
      NewOrOldWrite(env, x, w, lease, s, i, j);
      if j < |w.log| {
        OldWrite(x, w, o.w, i, j);
        WritesBackStays(env, x, w, o.w, i, j);
      } else {
        assert WritesBack(env, x, o.w, i, j, w.turn);
      }
    }
  }

  lemma NewOrOldWrite(env: Env, x: Call, w: World, lease: Row, s: Stmt, i: nat, j: nat)
    requires Consistent(w, x.id) && JustTook(x, w, lease) && IsFence(s, x.id, w.log[|w.log| - 1].stmt.nonce)
    requires Own(x, w, i) && OwnWrite(x, DoStmt(env, Elapse(env, w, 0), x.id, s).w, i, j)
    ensures var o := DoStmt(env, Elapse(env, w, 0), x.id, s);
            j < |w.log| || (i == |w.log| - 1 && j == |o.w.log| - 1 && !env.turns(w.turn + 1).fault.NotRun? && o.w.log[j].stmt == s)
  {
    OnlyThisFence(env, x, w, s);
    WriteBackRan(env, x, w, lease, s);
    assert LegalPair(x.id, w.log, i, |w.log| - 1);
  }

  /** Of the events up to and including a statement of this call, only that one
      presents a nonce of this call. */
  lemma OnlyThisFence(env: Env, x: Call, w: World, s: Stmt)
    requires Consistent(w, x.id) && !s.Create? && !s.Take?
    ensures var o := DoStmt(env, Elapse(env, w, 0), x.id, s);
            forall m | |w.log| <= m < |o.w.log| && IsOwnFence(w.mine, o.w.log[m].stmt) ::
              m == |o.w.log| - 1 && !env.turns(w.turn + 1).fault.NotRun? && o.w.log[m].stmt == s
  {
    var w1 := Elapse(env, w, 0);
    var w2 := Elapse(env, w1, 0);
    ElapseIsOthers(env, w, 0);
    ElapseKeeps(env, w, x.id, 0);
    ElapseIsOthers(env, w1, 0);
    ElapseKeeps(env, w1, x.id, 0);
    assert forall m | |w.log| <= m < |w1.log| :: w2.log[m] == w1.log[m];
  }

  // ----- the passes -----

  lemma ExchangeTells(env: Env, x: Call, h: nat, w: World, lease: Row)
    requires Faithful(x.sealer) && Consistent(w, x.id) && Truthful(env, x, h, w) && JustTook(x, w, lease)
    ensures var e := RunExchange(env, x, w, w.log[|w.log| - 1].stmt.nonce, lease);
            if e.LeaseLost? then Truthful(env, x, h, e.w) else Told(env, x, h, e.w, e.r)
  {
    var nonce, w1 := w.log[|w.log| - 1].stmt.nonce, Elapse(env, w, 0);
    var e := RunExchange(env, x, w, nonce, lease);
    match x.sealer.open(x.id, lease.payload)
    case None => TruthfulTells(env, x, h, w);
    case Some(p) =>
      match env.exchange(w.turn, p.token)
      case Refused(_) => FailTells(env, x, h, w, lease, p);
      case Granted(None) => FailTells(env, x, h, w, lease, p);
      case Granted(Some(tok)) =>
        if x.sealer.seal(w.turn + 1, x.id, p.(token := tok)).Some? {
          GrantTells(env, x, h, w, lease, p, tok);
        } else {
          ElapseKeeps(env, w, x.id, 0);
          ElapseIsOthers(env, w, 0);
          TruthfulStays(env, x, h, w, w1);
          TruthfulTells(env, x, h, w1);
        }
  }

  lemma FailTells(env: Env, x: Call, h: nat, w: World, lease: Row, p: RowPayload)
    requires Faithful(x.sealer) && Consistent(w, x.id) && Truthful(env, x, h, w) && JustTook(x, w, lease)
    requires x.sealer.open(x.id, lease.payload) == Some(p)
    requires env.exchange(w.turn, p.token).Refused? || env.exchange(w.turn, p.token).token.None?
    ensures var a := env.exchange(w.turn, p.token);
            var f := Failed(env, x, Elapse(env, w, 0), w.log[|w.log| - 1].stmt.nonce, if a.Refused? then a.wraps else {});
            if f.LeaseLost? then Truthful(env, x, h, f.w) else Told(env, x, h, f.w, f.r)
  {
    var fail := Fail(x.id, w.log[|w.log| - 1].stmt.nonce);
    WriteBackIsTrue(env, x, h, w, lease, p, fail);
    FailConcludes(env, x, h, w, DoStmt(env, Elapse(env, w, 0), x.id, fail), lease, p);
  }

  /** What follows of the fenced statement's outcome for the call's answer. */
  lemma FailConcludes(env: Env, x: Call, h: nat, w: World, o: Outcome, lease: Row, p: RowPayload)
    requires |w.log| > 0 && Almost(env, x, h, o.w, |w.log| - 1) && o.w.turn == w.turn + 2
    requires x.sealer.open(x.id, lease.payload) == Some(p)
    requires LastLanded(x, o.w, |w.log| - 1) ==>
               && o.landed && o.w.log[|o.w.log| - 1].stmt.Fail? && RowIn(x, o.w, |w.log|) == Some(lease)
               && WritesBack(env, x, o.w, |w.log| - 1, |o.w.log| - 1, w.turn)
    ensures !o.landed ==> Truthful(env, x, h, o.w)
    ensures var a := env.exchange(w.turn, p.token); Told(env, x, h, o.w, Err(if a.Refused? then a.wraps else {}))
  {
    AlmostTells(env, x, h, o.w, |w.log| - 1);
  }

  lemma GrantTells(env: Env, x: Call, h: nat, w: World, lease: Row, p: RowPayload, tok: Token)
    requires Faithful(x.sealer) && Consistent(w, x.id) && Truthful(env, x, h, w) && JustTook(x, w, lease)
    requires x.sealer.open(x.id, lease.payload) == Some(p) && env.exchange(w.turn, p.token) == Granted(Some(tok))
    requires x.sealer.seal(w.turn + 1, x.id, p.(token := tok)).Some?
    ensures var e := RunExchange(env, x, w, w.log[|w.log| - 1].stmt.nonce, lease);
            if e.LeaseLost? then Truthful(env, x, h, e.w) else Told(env, x, h, e.w, e.r)
  {
    var (sealed, kid) := x.sealer.seal(w.turn + 1, x.id, p.(token := tok)).value;
    var commit := Commit(x.id, w.log[|w.log| - 1].stmt.nonce, kid, sealed, tok.expiry);
    WriteBackIsTrue(env, x, h, w, lease, p, commit);
    WriteBackRan(env, x, w, lease, commit);
    GrantConcludes(env, x, h, w, DoStmt(env, Elapse(env, w, 0), x.id, commit), lease, p, tok);
  }

  lemma GrantConcludes(env: Env, x: Call, h: nat, w: World, o: Outcome, lease: Row, p: RowPayload, tok: Token)
    requires |w.log| > 0 && Consistent(o.w, x.id) && Almost(env, x, h, o.w, |w.log| - 1) && o.w.turn == w.turn + 2
    requires x.sealer.open(x.id, lease.payload) == Some(p) && env.exchange(w.turn, p.token) == Granted(Some(tok))
    requires LastLanded(x, o.w, |w.log| - 1) ==>
               && o.landed && o.w.log[|o.w.log| - 1].stmt.Commit? && RowIn(x, o.w, |w.log|) == Some(lease)
               && WritesBack(env, x, o.w, |w.log| - 1, |o.w.log| - 1, w.turn)
    ensures !o.landed ==> Truthful(env, x, h, o.w)
    ensures !env.turns(w.turn + 1).fault.Fine? ==> Told(env, x, h, o.w, Err({}))
    ensures env.turns(w.turn + 1).fault.Fine? ==>
              Told(env, x, h, o.w, Ok(StoredToken(x.t.handle, p.subject, Some(tok), p.idToken, lease.createdAt,
                                                  lease.expiresAt, x.t.stale)))
  {
    AlmostTells(env, x, h, o.w, |w.log| - 1);
    if LastLanded(x, o.w, |w.log| - 1) {
      CommitRepeats(env, x, o.w, |w.log| - 1, lease, p, tok);
    }
  }

  lemma CommitRepeats(env: Env, x: Call, v: World, k: nat, lease: Row, p: RowPayload, tok: Token)
    requires Consistent(v, x.id) && LastLanded(x, v, k) && v.turn >= 2 && v.log[|v.log| - 1].stmt.Commit?
    requires WritesBack(env, x, v, k, |v.log| - 1, v.turn - 2) && RowIn(x, v, k + 1) == Some(lease)
    requires x.sealer.open(x.id, lease.payload) == Some(p) && env.exchange(v.turn - 2, p.token) == Granted(Some(tok))
    ensures !env.turns(v.turn - 1).fault.Fine? ==> Repeats(env, x, v, k, |v.log| - 1, Err({}))
    ensures env.turns(v.turn - 1).fault.Fine? ==>
              Repeats(env, x, v, k, |v.log| - 1,
                      Ok(StoredToken(x.t.handle, p.subject, Some(tok), p.idToken, lease.createdAt, lease.expiresAt, x.t.stale)))
  {
    FenceIsCompareAndSwap(Lookup(v.base, x.id), x.id, v.log, k, |v.log| - 1, v.log[k].stmt.nonce);
  }

  lemma AskTells(env: Env, x: Call, from: nat, h: nat, w: World, l: Local)
    requires Faithful(x.sealer) && Consistent(w, x.id) && FirstRead(x, w, from, h, l) && Truthful(env, x, h, w)
    ensures var v := AskForLease(env, x, w, l);
            if v.Again? then Truthful(env, x, h, v.w) else Told(env, x, h, v.w, v.r)
  {
    var o, v := DoTake(env, w, x.id, x.conf.refreshLease, l.seenR, l.seenF), AskForLease(env, x, w, l);
    TakeKeeps(env, w, x.id, x.conf.refreshLease, l.seenR, l.seenF);
    TakeStaysTruthful(env, x, from, h, w, l);
    if env.turns(w.turn).randFails {
      TruthfulTells(env, x, h, w);
    } else if o.failed {
      TruthfulTells(env, x, h, o.w);
    } else if !o.landed {
      var least := if env.turns(o.w.turn).cancelled then 0 else l.backoff;
      ElapseKeeps(env, o.w, x.id, least);
      ElapseIsOthers(env, o.w, least);
      TruthfulStays(env, x, h, o.w, Elapse(env, o.w, least));
      if v.Return? {
        TruthfulTells(env, x, h, v.w);
      }
    } else {
      ExchangeTells(env, x, h, o.w, o.row.value);
    }
  }

  lemma JudgeTells(env: Env, x: Call, from: nat, h: nat, w: World, l: Local, row: Row, p: RowPayload)
    requires Faithful(x.sealer) && Consistent(w, x.id) && from < |w.log| && Truthful(env, x, h, w)
    requires w.log[|w.log| - 1].stmt == Get(x.id) && RowIn(x, w, |w.log| - 1) == Some(row)
    requires if l.pass == 0 then h == |w.log| - 1 else FirstRead(x, w, from, h, l)
    ensures var v := Judge(env, x, w, l, row, p);
            if v.Again? then Truthful(env, x, h, v.w) else Told(env, x, h, v.w, v.r)
  {
    var v := Judge(env, x, w, l, row, p);
    if l.pass == 0 {
      var w1, l1 := Clock(env, w), l.(seenR := row.refreshedAt, seenF := row.failedAt);
      ElapseKeeps(env, w, x.id, 0);
      ElapseIsOthers(env, w, 0);
      TruthfulStays(env, x, h, w, w1);
      FirstReadStays(x, w, w1, from, h, l1);
      TruthfulTells(env, x, h, w1);
      AskTells(env, x, from, h, w1, l1);
    } else {
      TruthfulTells(env, x, h, w);
      AskTells(env, x, from, h, w, l);
    }
  }

  lemma ReadTells(env: Env, x: Call, from: nat, h: nat, w: World, l: Local)
    requires Faithful(x.sealer) && Consistent(w, x.id) && from <= |w.log| && Truthful(env, x, h, w)
    requires if l.pass == 0 then h == |Elapse(env, w, 0).log| else FirstRead(x, w, from, h, l)
    ensures var v := ReadRow(env, x, w, l);
            if v.Again? then Truthful(env, x, h, v.w) else Told(env, x, h, v.w, v.r)
  {
    var o := DoStmt(env, w, x.id, Get(x.id));
    StmtKeeps(env, w, x.id, Get(x.id));
    ReadStaysTruthful(env, x, h, w);
    TruthfulTells(env, x, h, o.w);
    if !o.failed && o.row.Some? && o.row.value.expiresAt > o.w.now && x.sealer.open(x.id, o.row.value.payload).Some? {
      if l.pass > 0 {
        FirstReadStays(x, w, o.w, from, h, l);
      }
      JudgeTells(env, x, from, h, o.w, l, o.row.value, x.sealer.open(x.id, o.row.value.payload).value);
    }
  }

  lemma PassTells(env: Env, x: Call, from: nat, h: nat, w: World, l: Local)
    requires Faithful(x.sealer) && HeadInv(env, x, from, h, w, l) && Truthful(env, x, h, w)
    ensures var v := Pass(env, x, w, l);
            if v.Again? then Truthful(env, x, h, v.w) else Told(env, x, h, v.w, v.r)
  {
    var w1 := Clock(env, w);
    ElapseKeeps(env, w, x.id, 0);
    ElapseIsOthers(env, w, 0);
    TruthfulStays(env, x, h, w, w1);
    if TimedOut(env, w, l) {
      TruthfulTells(env, x, h, w1);
    } else {
      if l.pass > 0 {
        FirstReadStays(x, w, w1, from, h, l);
      }
      ReadTells(env, x, from, h, w1, Counted(l));
    }
  }

  lemma {:induction false} LoopTells(env: Env, x: Call, from: nat, h: nat, w: World, l: Local)
    requires Faithful(x.sealer) && HeadInv(env, x, from, h, w, l) && Truthful(env, x, h, w)
    ensures var (v, r) := Loop(env, x, w, l); Told(env, x, h, v, r)
    decreases Life(w, x.id)
  {
    LoopStep(env, x, w, l);
    PassMeaning(env, x, from, h, w, l);
    PassTells(env, x, from, h, w, l);
    var v := Pass(env, x, w, l);
    if v.Again? {
      LoopTells(env, x, from, h, v.w, v.l);
    }
  }

  /** Of every call, against every environment. It asks for every lease it gets
      with the configured length and the columns of its first read. Whatever it
      writes back under a lease is what the provider answered to the refresh
      token that lease returned: the leased payload with the granted token,
      sealed, or a failure. And a write-back that lands is its last statement,
      and its answer: the session that left, with the granted token, or the
      provider's error. */
  lemma OwnWritesAreTrue(env: Env, x: Call, w: World)
    requires Faithful(x.sealer) && Consistent(w, x.id) && w.mine == {}
    ensures var (v, r) := Refresh(env, x, w); Told(env, x, FirstReadOf(env, w), v, r)
  {
    ElapseKeeps(env, w, x.id, 0);
    var w1 := Clock(env, w);
    LoopTells(env, x, |w.log|, FirstReadOf(env, w), w1, Begin(env, x, w1));
  }
}
