/** The `howdah_session` table and the statements of queries.sql. A statement
    is atomic and runs at one instant, its `now()`. */
module SessionRows {
  import opened Common

  type RowId = Bytes

  /** A lease nonce: sixteen random bytes, of which only equality matters. */
  type Nonce = nat

  datatype Row = Row(
    subject: string,
    keyId: Bytes,
    payload: Bytes,
    accessExpiresAt: int,
    leaseUntil: Option<int>,
    leaseNonce: Option<Nonce>,
    failedAt: Option<int>,
    refreshedAt: int,
    createdAt: int,
    expiresAt: int)

  type Rows = map<RowId, Row>

  datatype Stmt =
    | Create(id: RowId, subject: string, keyId: Bytes, payload: Bytes, accessExpiresAt: int, maxAge: int)
    | Get(id: RowId)
    | Update(id: RowId, keyId: Bytes, payload: Bytes, accessExpiresAt: int)
    | Delete(id: RowId)
    | DeleteSubject(subject: string)
    | Sweep(ids: set<RowId>)
    | Take(id: RowId, nonce: Nonce, lease: int, seenRefreshedAt: int, seenFailedAt: Option<int>)
    | Commit(id: RowId, nonce: Nonce, keyId: Bytes, payload: Bytes, accessExpiresAt: int)
    | Fail(id: RowId, nonce: Nonce)

  /** The WHERE clause of TakeRefreshLease, the id apart. */
  predicate TakeGuard(r: Row, at: int, seenRefreshedAt: int, seenFailedAt: Option<int>) {
    && LeaseFree(r, at)
    && r.refreshedAt <= seenRefreshedAt
    && r.failedAt == seenFailedAt
    && r.expiresAt > at
  }

  predicate LeaseFree(r: Row, at: int) {
    r.leaseUntil.None? || r.leaseUntil.value < at
  }

  function NewRow(s: Stmt, at: int): Row
    requires s.Create?
  {
    Row(s.subject, s.keyId, s.payload, s.accessExpiresAt, None, None, None, at, at, at + s.maxAge)
  }

  /** The SET clause UpdateSession and CommitRefresh share. */
  function Written(r: Row, keyId: Bytes, payload: Bytes, accessExpiresAt: int, at: int): Row {
    r.(keyId := keyId, payload := payload, accessExpiresAt := accessExpiresAt,
       refreshedAt := at, leaseUntil := None, leaseNonce := None, failedAt := None)
  }

  function Leased(r: Row, nonce: Nonce, lease: int, at: int): Row {
    r.(leaseUntil := Some(at + lease), leaseNonce := Some(nonce))
  }

  function MarkedFailed(r: Row, at: int): Row {
    r.(failedAt := Some(at), leaseUntil := None, leaseNonce := None)
  }

  function Lookup(rows: Rows, id: RowId): Option<Row> {
    if id in rows then Some(rows[id]) else None
  }

  /** Whether the statement changes the row named `id`, given what that row
      is: a fence or a guard that lets the statement through. */
  predicate Lands(r: Option<Row>, id: RowId, at: int, s: Stmt) {
    match s
    case Create(i, _, _, _, _, _) => i == id && r.None?
    case Get(_) => false
    case Update(i, _, _, _) => i == id && r.Some?
    case Delete(i) => i == id && r.Some?
    case DeleteSubject(subject) => r.Some? && r.value.subject == subject
    case Sweep(ids) => id in ids && r.Some? && r.value.expiresAt <= at
    case Take(i, _, _, seenR, seenF) => i == id && r.Some? && TakeGuard(r.value, at, seenR, seenF)
    case Commit(i, n, _, _, _) => i == id && r.Some? && r.value.leaseNonce == Some(n)
    case Fail(i, n) => i == id && r.Some? && r.value.leaseNonce == Some(n)
  }

  /** What the statement leaves of the row named `id`. */
  function StepRow(r: Option<Row>, id: RowId, at: int, s: Stmt): Option<Row> {
    if !Lands(r, id, at, s) then r else
      match s
      case Create(_, _, _, _, _, _) => Some(NewRow(s, at))
      case Update(_, keyId, payload, access) => Some(Written(r.value, keyId, payload, access, at))
      case Take(_, nonce, lease, _, _) => Some(Leased(r.value, nonce, lease, at))
      case Commit(_, _, keyId, payload, access) => Some(Written(r.value, keyId, payload, access, at))
      case Fail(_, _) => Some(MarkedFailed(r.value, at))
      case _ => None
  }

  /** The table after the statement, every row stepped on its own. */
  function Apply(rows: Rows, at: int, s: Stmt): (after: Rows)
    ensures forall id :: Lookup(after, id) == StepRow(Lookup(rows, id), id, at, s)
  {
    var ids := rows.Keys + if s.Create? then {s.id} else {};
    map id | id in ids && StepRow(Lookup(rows, id), id, at, s).Some? ::
      StepRow(Lookup(rows, id), id, at, s).value
  }

  /** The table as the database holds it: each method is one statement of
      queries.sql, updating `rows` in place. */
  class SessionTable {
    var rows: Rows
    var now: int

    constructor (start: int)
      ensures rows == map[] && now == start
    {
      rows, now := map[], start;
    }

    method CreateSession(id: RowId, subject: string, keyId: Bytes, payload: Bytes,
                         accessExpiresAt: int, maxAge: int, at: int)
      returns (created: Option<Row>)
      modifies this
      ensures now == at
      ensures rows == Apply(old(rows), at, Create(id, subject, keyId, payload, accessExpiresAt, maxAge))
      ensures created.Some? <==> id !in old(rows)
      ensures created.Some? ==> Lookup(rows, id) == created
      ensures rows == if id in old(rows) then old(rows)
                      else old(rows)[id := Row(subject, keyId, payload, accessExpiresAt,
                                               None, None, None, at, at, at + maxAge)]
    {
      now := at;
      ghost var before := rows;
      if id in rows {
        created := None;
      } else {
        var r := Row(subject, keyId, payload, accessExpiresAt, None, None, None, at, at, at + maxAge);
        rows := rows[id := r];
        created := Some(r);
      }
      SameTable(rows, Apply(before, at, Create(id, subject, keyId, payload, accessExpiresAt, maxAge)));
    }

    method GetSession(id: RowId, at: int) returns (r: Option<Row>)
      modifies this`now
      ensures now == at
      ensures r == Lookup(rows, id)
    {
      now := at;
      r := if id in rows then Some(rows[id]) else None;
    }

    method UpdateSession(id: RowId, keyId: Bytes, payload: Bytes, accessExpiresAt: int, at: int)
      returns (affected: nat)
      modifies this
      ensures now == at
      ensures rows == Apply(old(rows), at, Update(id, keyId, payload, accessExpiresAt))
      ensures affected == if id in old(rows) then 1 else 0
      ensures affected == 0 ==> rows == old(rows)
      ensures affected == 1 ==>
                var was := old(rows)[id];
                rows == old(rows)[id := Row(was.subject, keyId, payload, accessExpiresAt,
                                            None, None, None, at, was.createdAt, was.expiresAt)]
    {
      now := at;
      ghost var before := rows;
      affected := 0;
      if id in rows {
        rows := rows[id := rows[id].(keyId := keyId, payload := payload, accessExpiresAt := accessExpiresAt,
                                     refreshedAt := at, leaseUntil := None, leaseNonce := None,
                                     failedAt := None)];
        affected := 1;
      }
      SameTable(rows, Apply(before, at, Update(id, keyId, payload, accessExpiresAt)));
    }

    method DeleteSession(id: RowId, at: int) returns (affected: nat)
      modifies this
      ensures now == at
      ensures rows == Apply(old(rows), at, Delete(id)) == old(rows) - {id}
      ensures affected == if id in old(rows) then 1 else 0
    {
      now := at;
      ghost var before := rows;
      affected := if id in rows then 1 else 0;
      rows := rows - {id};
      SameTable(rows, Apply(before, at, Delete(id)));
    }

    method DeleteSubjectSessions(subject: string, at: int) returns (affected: nat)
      modifies this
      ensures now == at
      ensures rows == Apply(old(rows), at, DeleteSubject(subject))
      ensures affected == |old(rows)| - |rows|
      ensures forall id :: id in rows <==> id in old(rows) && old(rows)[id].subject != subject
      ensures forall id | id in rows :: rows[id] == old(rows)[id]
    {
      now := at;
      ghost var before := rows;
      var theirs := set id | id in rows && rows[id].subject == subject;
      affected := |theirs|;
      assert (rows - theirs).Keys == rows.Keys - theirs;
      rows := rows - theirs;
      SameTable(rows, Apply(before, at, DeleteSubject(subject)));
    }

    /** Deletes those of `ids` that are past their absolute expiry. */
    method DeleteExpiredSessions(ids: set<RowId>, at: int) returns (affected: nat)
      modifies this
      ensures now == at
      ensures rows == Apply(old(rows), at, Sweep(ids))
      ensures affected == |old(rows)| - |rows|
      ensures forall id :: id in rows <==> id in old(rows) && !(id in ids && old(rows)[id].expiresAt <= at)
      ensures forall id | id in rows :: rows[id] == old(rows)[id]
    {
      now := at;
      ghost var before := rows;
      var dead := set id | id in ids && id in rows && rows[id].expiresAt <= at;
      affected := |dead|;
      assert (rows - dead).Keys == rows.Keys - dead;
      rows := rows - dead;
      SameTable(rows, Apply(before, at, Sweep(ids)));
    }

    method TakeRefreshLease(id: RowId, nonce: Nonce, lease: int, seenRefreshedAt: int,
                            seenFailedAt: Option<int>, at: int)
      returns (taken: Option<Row>)
      modifies this
      ensures now == at
      ensures rows == Apply(old(rows), at, Take(id, nonce, lease, seenRefreshedAt, seenFailedAt))
      ensures taken.Some? <==>
                && id in old(rows)
                && var was := old(rows)[id];
                && (was.leaseUntil.None? || was.leaseUntil.value < at)
                && was.refreshedAt <= seenRefreshedAt && was.failedAt == seenFailedAt && at < was.expiresAt
      ensures taken.None? ==> rows == old(rows)
      ensures taken.Some? ==>
                var was := old(rows)[id];
                && taken.value == Row(was.subject, was.keyId, was.payload, was.accessExpiresAt, Some(at + lease), Some(nonce),
                                      was.failedAt, was.refreshedAt, was.createdAt, was.expiresAt)
                && rows == old(rows)[id := taken.value]
    {
      now := at;
      ghost var before := rows;
      taken := None;
      if id in rows && TakeGuard(rows[id], at, seenRefreshedAt, seenFailedAt) {
        var r := rows[id].(leaseUntil := Some(at + lease), leaseNonce := Some(nonce));
        rows := rows[id := r];
        taken := Some(r);
      }
      SameTable(rows, Apply(before, at, Take(id, nonce, lease, seenRefreshedAt, seenFailedAt)));
    }

    method CommitRefresh(id: RowId, nonce: Nonce, keyId: Bytes, payload: Bytes, accessExpiresAt: int, at: int)
      returns (affected: nat)
      modifies this
      ensures now == at
      ensures rows == Apply(old(rows), at, Commit(id, nonce, keyId, payload, accessExpiresAt))
      ensures affected == if id in old(rows) && old(rows)[id].leaseNonce == Some(nonce) then 1 else 0
      ensures affected == 0 ==> rows == old(rows)
      ensures affected == 1 ==>
                var was := old(rows)[id];
                rows == old(rows)[id := Row(was.subject, keyId, payload, accessExpiresAt,
                                            None, None, None, at, was.createdAt, was.expiresAt)]
    {
      now := at;
      ghost var before := rows;
      affected := 0;
      if id in rows && rows[id].leaseNonce == Some(nonce) {
        rows := rows[id := rows[id].(payload := payload, keyId := keyId, accessExpiresAt := accessExpiresAt,
                                     refreshedAt := at, leaseUntil := None, leaseNonce := None,
                                     failedAt := None)];
        affected := 1;
      }
      SameTable(rows, Apply(before, at, Commit(id, nonce, keyId, payload, accessExpiresAt)));
    }

    method FailRefresh(id: RowId, nonce: Nonce, at: int) returns (affected: nat)
      modifies this
      ensures now == at
      ensures rows == Apply(old(rows), at, Fail(id, nonce))
      ensures affected == if id in old(rows) && old(rows)[id].leaseNonce == Some(nonce) then 1 else 0
      ensures affected == 0 ==> rows == old(rows)
      ensures affected == 1 ==>
                var was := old(rows)[id];
                rows == old(rows)[id := Row(was.subject, was.keyId, was.payload, was.accessExpiresAt,
                                            None, None, Some(at), was.refreshedAt, was.createdAt, was.expiresAt)]
    {
      now := at;
      ghost var before := rows;
      affected := 0;
      if id in rows && rows[id].leaseNonce == Some(nonce) {
        rows := rows[id := rows[id].(failedAt := Some(at), leaseUntil := None, leaseNonce := None)];
        affected := 1;
      }
      SameTable(rows, Apply(before, at, Fail(id, nonce)));
    }
  }

  /** Two tables with the same row under every id are the same table. */
  lemma SameTable(a: Rows, b: Rows)
    requires forall id :: Lookup(a, id) == Lookup(b, id)
    ensures a == b
  {
    forall id ensures id in a <==> id in b {
      assert Lookup(a, id) == Lookup(b, id);
    }
    forall id | id in a ensures a[id] == b[id] {
      assert Lookup(a, id) == Lookup(b, id);
    }
  }
}
