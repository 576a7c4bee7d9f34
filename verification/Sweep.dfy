/** DeleteExpired: a batch of expired rows, chosen in a fixed order past the
    rows that other sweepers have locked. */
module Sweep {
  import opened Common
  import opened SessionRows

  const MAX_INT32 := 0x7fff_ffff

  /** The limit a requested batch size comes to; the query counts in 32 bits. */
  function BatchSize(batch: int): (r: Result<nat>)
    ensures r.Ok? <==> batch > 0
    ensures r.Ok? ==> 1 <= r.value <= MAX_INT32 && (r.value == batch || r.value == MAX_INT32 < batch)
  {
    if batch <= 0 then Err({})
    else if batch > MAX_INT32 then Ok(MAX_INT32)
    else Ok(batch)
  }

  // ----- ORDER BY expires_at, id -----

  predicate BytesBefore(a: Bytes, b: Bytes) {
    b != [] && (a == [] || a[0] < b[0] || (a[0] == b[0] && BytesBefore(a[1..], b[1..])))
  }

  lemma {:induction false} BytesOrdered(a: Bytes, b: Bytes)
    ensures BytesBefore(a, b) ==> !BytesBefore(b, a)
    ensures BytesBefore(a, b) || a == b || BytesBefore(b, a)
    ensures !BytesBefore(a, a)
  {
    if a != [] {
      BytesOrdered(a[1..], a[1..]);
      if b != [] {
        BytesOrdered(a[1..], b[1..]);
        assert a == [a[0]] + a[1..] && b == [b[0]] + b[1..];
      }
    }
  }

  lemma {:induction false} BytesTransitive(a: Bytes, b: Bytes, c: Bytes)
    requires BytesBefore(a, b) && BytesBefore(b, c)
    ensures BytesBefore(a, c)
  {
    if a != [] && a[0] == b[0] == c[0] {
      BytesTransitive(a[1..], b[1..], c[1..]);
    }
  }

  predicate Before(rows: Rows, a: RowId, b: RowId)
    requires a in rows && b in rows
  {
    rows[a].expiresAt < rows[b].expiresAt || (rows[a].expiresAt == rows[b].expiresAt && BytesBefore(a, b))
  }

  /** A byte string that another extends, or that is smaller where they first
      differ. */
  ghost predicate Lexicographic(a: Bytes, b: Bytes) {
    exists k | 0 <= k <= |a| && k <= |b| :: FirstDiffers(a, b, k)
  }

  predicate FirstDiffers(a: Bytes, b: Bytes, k: nat)
    requires k <= |a| && k <= |b|
  {
    a[..k] == b[..k] && k < |b| && (k == |a| || a[k] < b[k])
  }

  lemma {:induction false} BytesBeforeIsLexicographic(a: Bytes, b: Bytes)
    ensures BytesBefore(a, b) <==> Lexicographic(a, b)
  {
    forall k | 0 < k <= |a| && k <= |b| && FirstDiffers(a, b, k) ensures a[0] == b[0] {
      assert a[..k][0] == a[0] && b[..k][0] == b[0];
    }
    if a == [] || b == [] || a[0] != b[0] {
      assert b != [] && (a == [] || a[0] < b[0]) ==> FirstDiffers(a, b, 0);
    } else {
      BytesBeforeIsLexicographic(a[1..], b[1..]);
      if Lexicographic(a, b) {
        var k :| 0 <= k <= |a| && k <= |b| && FirstDiffers(a, b, k);
        assert a[1..][..k - 1] == a[..k][1..] && b[1..][..k - 1] == b[..k][1..];
        assert FirstDiffers(a[1..], b[1..], k - 1);
      }
      if Lexicographic(a[1..], b[1..]) {
        var k :| 0 <= k <= |a[1..]| && k <= |b[1..]| && FirstDiffers(a[1..], b[1..], k);
        assert a[..k + 1] == [a[0]] + a[1..][..k] && b[..k + 1] == [b[0]] + b[1..][..k];
        assert FirstDiffers(a, b, k + 1);
      }
    }
  }

  /** The order of a batch: the longer expired first, and of those that expired
      together the one with the smaller id. */
  lemma OldestFirst(rows: Rows, a: RowId, b: RowId)
    requires a in rows && b in rows
    ensures Before(rows, a, b) <==>
            || rows[a].expiresAt < rows[b].expiresAt
            || (rows[a].expiresAt == rows[b].expiresAt && Lexicographic(a, b))
  {
    BytesBeforeIsLexicographic(a, b);
  }

  predicate IsLeast(rows: Rows, ids: set<RowId>, m: RowId)
    requires ids <= rows.Keys
  {
    m in ids && forall o | o in ids && o != m :: Before(rows, m, o)
  }

  lemma {:induction false} LeastExists(rows: Rows, ids: set<RowId>)
    requires ids <= rows.Keys && ids != {}
    ensures exists m :: IsLeast(rows, ids, m)
    decreases ids
  {
    var a :| a in ids;
    if ids == {a} {
      assert IsLeast(rows, ids, a);
    } else {
      LeastExists(rows, ids - {a});
      var m :| IsLeast(rows, ids - {a}, m);
      BytesOrdered(a, m);
      if Before(rows, m, a) {
        assert IsLeast(rows, ids, m);
      } else {
        forall o | o in ids && o != a ensures Before(rows, a, o) {
          assert o in ids - {a};
          if o != m && rows[a].expiresAt == rows[m].expiresAt == rows[o].expiresAt {
            BytesTransitive(a, m, o);
          }
        }
        assert IsLeast(rows, ids, a);
      }
    }
  }

  lemma LeastIsUnique(rows: Rows, ids: set<RowId>)
    requires ids <= rows.Keys
    ensures forall m, n | IsLeast(rows, ids, m) && IsLeast(rows, ids, n) :: m == n
  {
    forall m, n | IsLeast(rows, ids, m) && IsLeast(rows, ids, n) ensures m == n {
      BytesOrdered(m, n);
    }
  }

  /** The rows a sweep may take: expired, and not locked by another. */
  function Candidates(rows: Rows, locked: set<RowId>, at: int): set<RowId> {
    set id | id in rows && rows[id].expiresAt <= at && id !in locked
  }

  /** The first `limit` of the candidates. */
  function FirstOf(rows: Rows, ids: set<RowId>, limit: nat): set<RowId>
    requires ids <= rows.Keys
  {
    if limit == 0 || ids == {} then {} else
      LeastExists(rows, ids);
      LeastIsUnique(rows, ids);
      var m :| m in ids && IsLeast(rows, ids, m);
      {m} + FirstOf(rows, ids - {m}, limit - 1)
  }

  function SelectBatch(rows: Rows, locked: set<RowId>, at: int, limit: nat): set<RowId> {
    FirstOf(rows, Candidates(rows, locked, at), limit)
  }

  /** What the subquery promises: as many candidates as the limit allows, and
      none passed over for a later one. */
  ghost predicate IsBatch(rows: Rows, ids: set<RowId>, limit: nat, batch: set<RowId>)
    requires ids <= rows.Keys
  {
    && batch <= ids
    && |batch| == (if limit < |ids| then limit else |ids|)
    && forall a, b | a in batch && b in ids - batch :: Before(rows, a, b)
  }

  lemma {:induction false} FirstOfIsBatch(rows: Rows, ids: set<RowId>, limit: nat)
    requires ids <= rows.Keys
    ensures IsBatch(rows, ids, limit, FirstOf(rows, ids, limit))
    decreases limit
  {
    if limit > 0 && ids != {} {
      LeastExists(rows, ids);
      LeastIsUnique(rows, ids);
      var m :| m in ids && IsLeast(rows, ids, m);
      FirstOfIsBatch(rows, ids - {m}, limit - 1);
      var rest := FirstOf(rows, ids - {m}, limit - 1);
      assert FirstOf(rows, ids, limit) == {m} + rest;
    }
  }

  /** The order leaves the plan no choice: there is one batch. */
  lemma BatchIsDetermined(rows: Rows, ids: set<RowId>, limit: nat, a: set<RowId>, b: set<RowId>)
    requires ids <= rows.Keys && IsBatch(rows, ids, limit, a) && IsBatch(rows, ids, limit, b)
    ensures a == b
  {
    if x :| x in a && x !in b {
      if b <= a {
        assert b <= a - {x};
        Smaller(b, a - {x});
      } else {
        var y :| y in b && y !in a;
        assert Before(rows, x, y) && Before(rows, y, x);
        BytesOrdered(x, y);
      }
    } else if y :| y in b && y !in a {
      assert a <= b - {y};
      Smaller(a, b - {y});
    }
  }

  lemma {:induction false} Smaller<T>(a: set<T>, b: set<T>)
    requires a <= b
    ensures |a| <= |b|
  {
    if x :| x in a {
      Smaller(a - {x}, b - {x});
    }
  }

  // ----- sweepers that overlap -----

  /** A row a sweeper removed, as it was, and when. */
  datatype Grave = Grave(row: Row, at: int)

  /** A sweep under way: the rows it locked, and the limit it was given. */
  datatype Held = Held(ids: set<RowId>, limit: nat)

  datatype Answer = Answer(limit: nat, deleted: nat)

  /** The table with any number of sweepers at work on it. `issued` are the
      ids of every row there ever was, `dropped` of those that other
      statements removed. */
  datatype Db = Db(
    rows: Rows,
    now: int,
    held: map<nat, Held>,
    issued: set<RowId>,
    swept: map<RowId, Grave>,
    dropped: set<RowId>,
    answers: seq<Answer>)

  /** A sweep selects and locks its batch when it begins, and deletes it when
      it ends or lets go of it when it aborts. Any other statement is one
      atomic step, and waits while a row it would change is locked. */
  datatype Action =
    | Begin(sweeper: nat, batch: int)
    | End(sweeper: nat)
    | Abort(sweeper: nat)
    | Other(stmt: Stmt)

  datatype Move = Move(at: int, action: Action)

  function Locked(db: Db): set<RowId> {
    set s, id | s in db.held && id in db.held[s].ids :: id
  }

  predicate Blocked(db: Db, at: int, s: Stmt) {
    exists id | id in Locked(db) :: Lands(Lookup(db.rows, id), id, at, s)
  }

  predicate Enabled(db: Db, m: Move) {
    && db.now < m.at
    && match m.action
       case Begin(s, batch) => s !in db.held && BatchSize(batch).Ok?
       case End(s) => s in db.held
       case Abort(s) => s in db.held
       case Other(stmt) => !stmt.Sweep? && (stmt.Create? ==> stmt.id !in db.issued) && !Blocked(db, m.at, stmt)
  }

  function Graves(rows: Rows, gone: set<RowId>, at: int): map<RowId, Grave>
    requires gone <= rows.Keys
  {
    map id | id in gone :: Grave(rows[id], at)
  }

  function Step(db: Db, m: Move): Db
    requires Enabled(db, m)
  {
    var d := db.(now := m.at);
    match m.action
    case Begin(s, batch) =>
      var limit := BatchSize(batch).value;
      d.(held := db.held[s := Held(SelectBatch(db.rows, Locked(db), m.at, limit), limit)])
    case End(s) =>
      var gone := db.held[s].ids * db.rows.Keys;
      d.(rows := db.rows - gone,
         held := db.held - {s},
         swept := db.swept + Graves(db.rows, gone, m.at),
         answers := db.answers + [Answer(db.held[s].limit, |gone|)])
    case Abort(s) => d.(held := db.held - {s})
    case Other(stmt) =>
      var after := Apply(db.rows, m.at, stmt);
      d.(rows := after, issued := db.issued + after.Keys, dropped := db.dropped + (db.rows.Keys - after.Keys))
  }

  function Run(db: Db, moves: seq<Move>): Db
    decreases |moves|
  {
    if moves == [] then db
    else Run(if Enabled(db, moves[0]) then Step(db, moves[0]) else db, moves[1..])
  }

  function Total(answers: seq<Answer>): nat {
    if answers == [] then 0 else Total(answers[..|answers| - 1]) + answers[|answers| - 1].deleted
  }

  /** No two sweeps under way hold the same row. */
  ghost predicate Apart(held: map<nat, Held>) {
    forall s, t | s in held && t in held && s != t :: held[s].ids !! held[t].ids
  }

  /** A batch names expired rows that are still there, within its limit. */
  ghost predicate HeldWell(rows: Rows, now: int, h: Held) {
    && h.ids <= rows.Keys
    && |h.ids| <= h.limit <= MAX_INT32
    && forall id | id in h.ids :: rows[id].expiresAt <= now
  }

  ghost predicate AllHeldWell(rows: Rows, now: int, held: map<nat, Held>) {
    forall s | s in held :: HeldWell(rows, now, held[s])
  }

  /** Every row there ever was is in the table, in one sweeper's answer, or
      removed by somebody else, and in only one of the three. */
  ghost predicate Accounted(rows: set<RowId>, swept: set<RowId>, dropped: set<RowId>, issued: set<RowId>, total: nat) {
    && rows + swept + dropped == issued
    && rows !! swept && rows !! dropped && swept !! dropped
    && total == |swept|
  }

  /** Nobody swept a live row, or more than the limit. */
  ghost predicate Honest(swept: map<RowId, Grave>, answers: seq<Answer>) {
    && (forall id | id in swept :: swept[id].row.expiresAt <= swept[id].at)
    && (forall a | a in answers :: a.deleted <= a.limit <= MAX_INT32)
  }

  ghost predicate Inv(db: Db) {
    && Apart(db.held)
    && AllHeldWell(db.rows, db.now, db.held)
    && Accounted(db.rows.Keys, db.swept.Keys, db.dropped, db.issued, Total(db.answers))
    && Honest(db.swept, db.answers)
  }

  lemma HeldAges(rows: Rows, now: int, later: int, held: map<nat, Held>)
    requires AllHeldWell(rows, now, held) && now <= later
    ensures AllHeldWell(rows, later, held)
  {
    forall s | s in held ensures HeldWell(rows, later, held[s]) {
      assert HeldWell(rows, now, held[s]);
    }
  }

  lemma BeginKeeps(db: Db, m: Move)
    requires Inv(db) && Enabled(db, m) && m.action.Begin?
    ensures Inv(Step(db, m))
  {
    var limit := BatchSize(m.action.batch).value;
    var ids, batch := Candidates(db.rows, Locked(db), m.at), SelectBatch(db.rows, Locked(db), m.at, limit);
    FirstOfIsBatch(db.rows, ids, limit);
    HeldAges(db.rows, db.now, m.at, db.held);
    assert HeldWell(db.rows, m.at, Held(batch, limit));
    LocksAreSkipped(db, batch);
    AddHeld(db.rows, m.at, db.held, m.action.sweeper, Held(batch, limit));
  }

  lemma LocksAreSkipped(db: Db, batch: set<RowId>)
    requires forall id | id in batch :: id !in Locked(db)
    ensures forall s | s in db.held :: db.held[s].ids !! batch
  {
    forall s, id | s in db.held && id in db.held[s].ids ensures id !in batch {
      assert id in Locked(db);
    }
  }

  lemma AddHeld(rows: Rows, now: int, held: map<nat, Held>, s: nat, h: Held)
    requires Apart(held) && AllHeldWell(rows, now, held) && s !in held
    requires HeldWell(rows, now, h) && forall t | t in held :: held[t].ids !! h.ids
    ensures Apart(held[s := h]) && AllHeldWell(rows, now, held[s := h])
  {
  }

  lemma EndKeeps(db: Db, m: Move)
    requires Inv(db) && Enabled(db, m) && m.action.End?
    ensures Inv(Step(db, m))
  {
    var h := db.held[m.action.sweeper];
    assert HeldWell(db.rows, db.now, h);
    assert h.ids * db.rows.Keys == h.ids;
    HeldAges(db.rows, db.now, m.at, db.held);
    OthersKeepTheirs(db.rows, m.at, db.held, m.action.sweeper);
    EndAccounts(db.rows, db.swept, db.dropped, db.issued, db.answers, h, m.at);
  }

  lemma OthersKeepTheirs(rows: Rows, now: int, held: map<nat, Held>, s: nat)
    requires Apart(held) && AllHeldWell(rows, now, held) && s in held
    ensures Apart(held - {s}) && AllHeldWell(rows - held[s].ids, now, held - {s})
  {
    forall t | t in held - {s} ensures HeldWell(rows - held[s].ids, now, held[t]) {
      assert HeldWell(rows, now, held[t]) && held[t].ids !! held[s].ids;
    }
  }

  lemma EndAccounts(rows: Rows, swept: map<RowId, Grave>, dropped: set<RowId>, issued: set<RowId>, answers: seq<Answer>,
                    h: Held, at: int)
    requires Accounted(rows.Keys, swept.Keys, dropped, issued, Total(answers)) && Honest(swept, answers)
    requires HeldWell(rows, at, h)
    ensures var swept1 := swept + Graves(rows, h.ids, at);
            var answers1 := answers + [Answer(h.limit, |h.ids|)];
            && Accounted((rows - h.ids).Keys, swept1.Keys, dropped, issued, Total(answers1))
            && Honest(swept1, answers1)
  {
    RowsMove(rows, swept, h.ids, at);
    TotalGrows(answers, Answer(h.limit, |h.ids|));
    AccountsMove(rows.Keys, swept.Keys, dropped, issued, Total(answers), h.ids);
    GravesAreHonest(rows, swept, answers, h, at);
  }

  lemma RowsMove(rows: Rows, swept: map<RowId, Grave>, gone: set<RowId>, at: int)
    requires gone <= rows.Keys
    ensures (rows - gone).Keys == rows.Keys - gone
    ensures (swept + Graves(rows, gone, at)).Keys == swept.Keys + gone
  {
  }

  lemma TotalGrows(answers: seq<Answer>, a: Answer)
    ensures Total(answers + [a]) == Total(answers) + a.deleted
  {
    assert (answers + [a])[..|answers|] == answers;
  }

  lemma AccountsMove(rows: set<RowId>, swept: set<RowId>, dropped: set<RowId>, issued: set<RowId>, total: nat,
                     gone: set<RowId>)
    requires Accounted(rows, swept, dropped, issued, total) && gone <= rows
    ensures Accounted(rows - gone, swept + gone, dropped, issued, total + |gone|)
  {
  }

  lemma AccountsChange(rows: set<RowId>, swept: set<RowId>, dropped: set<RowId>, issued: set<RowId>, total: nat,
                       after: set<RowId>)
    requires Accounted(rows, swept, dropped, issued, total)
    requires forall id | id in after :: id in rows || id !in issued
    ensures Accounted(after, swept, dropped + (rows - after), issued + after, total)
  {
  }

  lemma GravesAreHonest(rows: Rows, swept: map<RowId, Grave>, answers: seq<Answer>, h: Held, at: int)
    requires Honest(swept, answers) && HeldWell(rows, at, h)
    ensures Honest(swept + Graves(rows, h.ids, at), answers + [Answer(h.limit, |h.ids|)])
  {
  }

  /** The rows a statement leaves were there before, its own new one apart. */
  lemma OnlyCreateAdds(rows: Rows, at: int, s: Stmt)
    ensures Apply(rows, at, s).Keys <= rows.Keys + if s.Create? then {s.id} else {}
  {
    forall id | id in Apply(rows, at, s) ensures id in rows || (s.Create? && id == s.id) {
      assert Lookup(Apply(rows, at, s), id) == StepRow(Lookup(rows, id), id, at, s);
    }
  }

  lemma LocksHold(db: Db, at: int, s: Stmt, h: Held)
    requires HeldWell(db.rows, db.now, h) && h.ids <= Locked(db) && db.now <= at && !Blocked(db, at, s)
    ensures HeldWell(Apply(db.rows, at, s), at, h)
  {
    forall id | id in h.ids ensures Lookup(Apply(db.rows, at, s), id) == Lookup(db.rows, id) {
      assert Lookup(Apply(db.rows, at, s), id) == StepRow(Lookup(db.rows, id), id, at, s);
    }
  }

  lemma OtherKeeps(db: Db, m: Move)
    requires Inv(db) && Enabled(db, m) && m.action.Other?
    ensures Inv(Step(db, m))
  {
    OnlyCreateAdds(db.rows, m.at, m.action.stmt);
    AccountsChange(db.rows.Keys, db.swept.Keys, db.dropped, db.issued, Total(db.answers),
                   Apply(db.rows, m.at, m.action.stmt).Keys);
    forall s | s in db.held ensures HeldWell(Apply(db.rows, m.at, m.action.stmt), m.at, db.held[s]) {
      assert HeldWell(db.rows, db.now, db.held[s]);
      LocksHold(db, m.at, m.action.stmt, db.held[s]);
    }
  }

  lemma StepKeeps(db: Db, m: Move)
    requires Inv(db) && Enabled(db, m)
    ensures Inv(Step(db, m))
  {
    match m.action
    case Begin(_, _) => BeginKeeps(db, m);
    case End(_) => EndKeeps(db, m);
    case Other(_) => OtherKeeps(db, m);
    case Abort(_) =>
      HeldAges(db.rows, db.now, m.at, db.held);
  }

  lemma {:induction false} RunKeeps(db: Db, moves: seq<Move>)
    requires Inv(db)
    ensures Inv(Run(db, moves))
    decreases |moves|
  {
    if moves != [] {
      if Enabled(db, moves[0]) {
        StepKeeps(db, moves[0]);
      }
      RunKeeps(if Enabled(db, moves[0]) then Step(db, moves[0]) else db, moves[1..]);
    }
  }

  /** A table nobody has swept yet. */
  function Fresh(rows: Rows, now: int): Db {
    Db(rows, now, map[], rows.Keys, map[], {}, [])
  }

  /** Conservation over every interleaving of sweepers and other statements:
      the answers sum to the rows swept, each row is swept by one sweeper and
      once, only past its expiry, never more of them than the limit; and what
      was ever in the table is still there, swept, or removed by others. */
  lemma SweepsConserveRows(rows: Rows, now: int, moves: seq<Move>)
    ensures var d := Run(Fresh(rows, now), moves);
            && Total(d.answers) == |d.swept|
            && |d.rows| + Total(d.answers) + |d.dropped| == |d.issued|
            && d.swept.Keys !! d.rows.Keys && d.swept.Keys !! d.dropped
            && (forall id | id in d.swept :: d.swept[id].row.expiresAt <= d.swept[id].at)
            && (forall a | a in d.answers :: a.deleted <= a.limit <= MAX_INT32)
            && (forall s, t | s in d.held && t in d.held && s != t :: d.held[s].ids !! d.held[t].ids)
  {
    RunKeeps(Fresh(rows, now), moves);
    var d := Run(Fresh(rows, now), moves);
    assert |d.rows| == |d.rows.Keys| && |d.swept| == |d.swept.Keys|;
    assert |d.rows.Keys + d.swept.Keys| == |d.rows.Keys| + |d.swept.Keys|;
  }

  /** What a sweep that finds nothing says: every expired row is another
      sweeper's. It says that the table is clean exactly when no other sweeper
      holds a row, which is what a single sweeper can count on. */
  lemma ZeroMeansNothingForMe(db: Db, m: Move)
    requires Inv(db) && Enabled(db, m) && m.action.Begin?
    ensures Step(db, m).held[m.action.sweeper].ids == {} <==>
            forall id | id in db.rows && db.rows[id].expiresAt <= m.at :: id in Locked(db)
    ensures Step(db, m).held[m.action.sweeper].ids == {} ==>
              ((forall id | id in db.rows :: m.at < db.rows[id].expiresAt) <==> Locked(db) == {})
  {
    var ids, limit := Candidates(db.rows, Locked(db), m.at), BatchSize(m.action.batch).value;
    FirstOfIsBatch(db.rows, ids, limit);
    if Step(db, m).held[m.action.sweeper].ids == {} {
      assert ids == {};
    }
    assert forall id | id in db.rows && db.rows[id].expiresAt <= m.at :: id in Locked(db) || id in ids;
    forall id | id in Locked(db) ensures id in db.rows && db.rows[id].expiresAt <= m.at {
      var s :| s in db.held && id in db.held[s].ids;
      assert HeldWell(db.rows, db.now, db.held[s]);
    }
  }

  // ----- a single sweeper -----

  /** The rows already expired at `start`. */
  function Backlog(rows: Rows, start: int): set<RowId> {
    set id | id in rows && rows[id].expiresAt <= start
  }

  /** A sweep with nobody else's locks in its way removes as much of the
      backlog as its limit allows: rows that expired since come after it. */
  lemma BacklogFirst(rows: Rows, start: int, at: int, limit: nat)
    requires start <= at
    ensures var batch := SelectBatch(rows, {}, at, limit);
            && Backlog(Apply(rows, at, SessionRows.Sweep(batch)), start) == Backlog(rows, start) - batch
            && |Backlog(rows, start) * batch| == (if limit < |Backlog(rows, start)| then limit else |Backlog(rows, start)|)
  {
    var ids, batch, b := Candidates(rows, {}, at), SelectBatch(rows, {}, at, limit), Backlog(rows, start);
    FirstOfIsBatch(rows, ids, limit);
    Smaller(b, ids);
    SweptExactly(rows, at, batch);
    if b <= batch {
      assert b * batch == b;
      Smaller(b, batch);
    } else {
      var y :| y in b && y !in batch;
      assert forall x | x in batch :: Before(rows, x, y);
      assert batch <= b;
      assert b * batch == batch;
      Smaller(batch, b);
      if |b| <= limit {
        assert |batch| >= |b|;
        Smaller(batch, b - {y});
      }
    }
  }

  lemma SweptExactly(rows: Rows, at: int, batch: set<RowId>)
    requires batch <= Candidates(rows, {}, at)
    ensures Apply(rows, at, SessionRows.Sweep(batch)) == rows - batch
  {
    SameTable(Apply(rows, at, SessionRows.Sweep(batch)), rows - batch);
  }

  /** A turn of the table: a sweep by the only sweeper, or any statement of
      anybody else. A turn that is not later than the last is not taken. */
  datatype Turn = Turn(at: int, other: Option<Stmt>)

  predicate Lively(ts: seq<Turn>) {
    forall t | t in ts && t.other.Some? && t.other.value.Create? :: t.other.value.maxAge >= 0
  }

  function TurnRows(rows: Rows, limit: nat, t: Turn): Rows {
    match t.other
    case None => Apply(rows, t.at, SessionRows.Sweep(SelectBatch(rows, {}, t.at, limit)))
    case Some(s) => Apply(rows, t.at, s)
  }

  function AfterTurns(rows: Rows, now: int, limit: nat, ts: seq<Turn>): Rows
    decreases |ts|
  {
    if ts == [] then rows
    else if ts[0].at <= now then AfterTurns(rows, now, limit, ts[1..])
    else AfterTurns(TurnRows(rows, limit, ts[0]), ts[0].at, limit, ts[1..])
  }

  /** How many sweeps the turns hold. */
  function Sweeps(now: int, ts: seq<Turn>): nat
    decreases |ts|
  {
    if ts == [] then 0
    else if ts[0].at <= now then Sweeps(now, ts[1..])
    else (if ts[0].other.None? then 1 else 0) + Sweeps(ts[0].at, ts[1..])
  }

  /** Nobody adds to the backlog: no statement moves a row's expiry, and a new
      row expires later. */
  lemma BacklogOnlyShrinks(rows: Rows, start: int, at: int, s: Stmt)
    requires start < at && (s.Create? ==> s.maxAge >= 0)
    ensures Backlog(Apply(rows, at, s), start) <= Backlog(rows, start)
  {
    forall id | id in Backlog(Apply(rows, at, s), start) ensures id in Backlog(rows, start) {
      assert Lookup(Apply(rows, at, s), id) == StepRow(Lookup(rows, id), id, at, s);
    }
  }

  lemma TurnShrinks(rows: Rows, start: int, limit: nat, t: Turn)
    requires start < t.at && (t.other.Some? && t.other.value.Create? ==> t.other.value.maxAge >= 0)
    ensures |Backlog(TurnRows(rows, limit, t), start)| <=
            Max(0, |Backlog(rows, start)| - if t.other.None? then limit else 0)
  {
    if t.other.None? {
      BacklogFirst(rows, start, t.at, limit);
      var b, batch := Backlog(rows, start), SelectBatch(rows, {}, t.at, limit);
      assert b == (b - batch) + b * batch;
    } else {
      BacklogOnlyShrinks(rows, start, t.at, t.other.value);
      Smaller(Backlog(TurnRows(rows, limit, t), start), Backlog(rows, start));
    }
  }

  /** What `k` sweeps leave of `n` rows. */
  function Rest(n: int, limit: nat, k: nat): int {
    Max(0, n - limit * k)
  }

  lemma OneMoreSweep(n: int, mid: int, last: int, limit: nat, k: nat, swept: bool)
    requires last <= Rest(mid, limit, k) && mid <= Max(0, n - if swept then limit else 0)
    ensures last <= Rest(n, limit, (if swept then 1 else 0) + k)
  {
    assert limit * (1 + k) == limit + limit * k;
  }

  /** However fast other callers create sessions that expire, the rows expired
      when a single sweeper started go first: every sweep takes its limit of
      them until none is left. */
  lemma {:induction false} BacklogRunsDown(rows: Rows, start: int, now: int, limit: nat, ts: seq<Turn>)
    requires start <= now && Lively(ts)
    ensures |Backlog(AfterTurns(rows, now, limit, ts), start)| <= Rest(|Backlog(rows, start)|, limit, Sweeps(now, ts))
    decreases |ts|
  {
    if ts == [] {
    } else if ts[0].at <= now {
      BacklogRunsDown(rows, start, now, limit, ts[1..]);
    } else {
      var after := TurnRows(rows, limit, ts[0]);
      TurnShrinks(rows, start, limit, ts[0]);
      BacklogRunsDown(after, start, ts[0].at, limit, ts[1..]);
      OneMoreSweep(|Backlog(rows, start)|, |Backlog(after, start)|,
                   |Backlog(AfterTurns(after, ts[0].at, limit, ts[1..]), start)|,
                   limit, Sweeps(ts[0].at, ts[1..]), ts[0].other.None?);
    }
  }

  method DeleteExpired(table: SessionTable, batch: int, at: int) returns (r: Result<nat>)
    modifies table
    ensures r.Ok? <==> batch > 0
    ensures r.Err? ==> table.rows == old(table.rows)
    ensures r.Ok? ==>
              var gone := SelectBatch(old(table.rows), {}, at, BatchSize(batch).value);
              && table.now == at && table.rows == old(table.rows) - gone && r.value == |gone| <= batch
              && IsBatch(old(table.rows), Candidates(old(table.rows), {}, at), BatchSize(batch).value, gone)
  {
    var size := BatchSize(batch);
    if size.Err? {
      return Err(size.wraps);
    }
    var ids := SelectBatch(table.rows, {}, at, size.value);
    FirstOfIsBatch(table.rows, Candidates(table.rows, {}, at), size.value);
    SweptExactly(table.rows, at, ids);
    assert (table.rows - ids).Keys == table.rows.Keys - ids;
    var affected := table.DeleteExpiredSessions(ids, at);
    return Ok(affected);
  }

  /** One sweeper with the table to itself, calling DeleteExpired until it
      returns 0. It ends, its answers sum to the rows it removed, and those
      are the rows past their expiry and no others. */
  method SweepUntilClean(table: SessionTable, batch: int) returns (total: nat)
    requires batch > 0
    modifies table
    ensures total == |old(table.rows)| - |table.rows|
    ensures old(table.now) <= table.now
    ensures Backlog(table.rows, table.now) == {}
    ensures forall id | id in old(table.rows) ::
              (id in table.rows <==> table.now < old(table.rows)[id].expiresAt)
              && (id in table.rows ==> table.rows[id] == old(table.rows)[id])
    ensures table.rows.Keys <= old(table.rows).Keys
  {
    total := 0;
    var deleted := 1;
    while deleted > 0
      invariant table.rows.Keys <= old(table.rows).Keys
      invariant forall id | id in table.rows :: table.rows[id] == old(table.rows)[id]
      invariant forall id | id in old(table.rows) && id !in table.rows :: old(table.rows)[id].expiresAt <= table.now
      invariant total == |old(table.rows)| - |table.rows|
      invariant old(table.now) <= table.now
      invariant deleted == 0 ==> Backlog(table.rows, table.now) == {}
      decreases |table.rows| + deleted
    {
      ghost var before := table.rows;
      var r := DeleteExpired(table, batch, table.now + 1);
      ghost var gone := SelectBatch(before, {}, table.now, BatchSize(batch).value);
      assert table.rows.Keys == before.Keys - gone;
      deleted := r.value;
      total := total + deleted;
    }
    assert forall id | id in table.rows :: id !in Backlog(table.rows, table.now);
  }
}
