/** The Postgres store's half of a session's life: a sealed handle in the
    cookie, a sealed payload in the row, and the keyring both depend on. */
module PgStore {
  import opened Common
  import opened Keyring
  import opened Envelope
  import opened Vault
  import opened SessionRows
  import opened RefreshLoop

  /** `rowOf` is the hash that turns a handle into a row id. */
  datatype Store = Store(ring: Ring, name: Bytes, maxAge: int, codec: Codec, rowOf: Plaintext -> RowId)

  function HandleDomain(s: Store): Bytes {
    Domain(SessionCookie(s.name))
  }

  function RowDomain(s: Store, id: RowId): Bytes {
    Domain(StoreRow(s.name, id))
  }

  datatype Named = Named(id: RowId, current: bool)

  /** rowID: the row a cookie value names. */
  function RowIdOf(s: Store, ledger: Ledger<Plaintext>, at: int, handle: string): Result<Named> {
    match s.codec.decode(handle)
    case None => Err({NoSession, NotSealed})
    case Some(raw) =>
      match Open(s.ring, at, ledger, KIND_HANDLE, HandleDomain(s), raw)
      case Failed(wraps) => Err({NoSession} + wraps)
      case Plain(p, _, current) => Ok(Named(s.rowOf(p), current))
  }

  /** openPayload: every failure wraps ErrNoSession. */
  function OpenPayload(s: Store, ledger: Ledger<Plaintext>, at: int, id: RowId, raw: Bytes): Result<RowPayload> {
    match Open(s.ring, at, ledger, KIND_PAYLOAD, RowDomain(s, id), raw)
    case Failed(wraps) => Err({NoSession} + wraps)
    case Plain(p, _, _) =>
      if !p.RowContents? || p.version != PAYLOAD_V1 || p.token.None? then Err({NoSession})
      else Ok(RowPayload(p.subject, p.token.value, p.idToken))
  }

  /** The instants Get reads a clock at: this process's to open the handle, the
      database's for the row, this process's to open the payload. */
  datatype Instants = Instants(handle: int, row: int, payload: int)

  function Get(s: Store, ledger: Ledger<Plaintext>, rows: Rows, t: Instants, handle: string): Result<StoredToken> {
    match RowIdOf(s, ledger, t.handle, handle)
    case Err(wraps) => Err(wraps)
    case Ok(n) =>
      if n.id !in rows then Err({NoSession})
      else if rows[n.id].expiresAt <= t.row then Err({NoSession})
      else
        match OpenPayload(s, ledger, t.payload, n.id, rows[n.id].payload)
        case Err(wraps) => Err(wraps)
        case Ok(p) => Ok(StoredToken(handle, p.subject, Some(p.token), p.idToken,
                                     rows[n.id].createdAt, rows[n.id].expiresAt, !n.current))
  }

  /** What a write-back seals, a later read opens, as long as the key is there:
      this is what the refresh loop asks of its sealer. */
  lemma PayloadRoundTrips(s: Store, ledger: Ledger<Plaintext>, at: int, id: RowId, p: RowPayload, d: Draw,
                          later: Ledger<Plaintext>, ring: Ring, openAt: int)
    requires ValidRing(s.ring) && WideIds(s.ring) && Honest(s.ring, ledger) && WellDrawn(ledger, d)
    requires SealInto(s.ring, at, ledger, KIND_PAYLOAD, RowDomain(s, id),
                      RowContents(PAYLOAD_V1, p.subject, Some(p.token), p.idToken), d).Some?
    requires var sealed := SealInto(s.ring, at, ledger, KIND_PAYLOAD, RowDomain(s, id),
                                    RowContents(PAYLOAD_V1, p.subject, Some(p.token), p.idToken), d).value;
             sealed.slot in later && later[sealed.slot] == sealed.ledger[sealed.slot]
    requires OneUse(later) && SealingKey(ring, openAt).Some?
    ensures var raw := SealInto(s.ring, at, ledger, KIND_PAYLOAD, RowDomain(s, id),
                                RowContents(PAYLOAD_V1, p.subject, Some(p.token), p.idToken), d).value.raw;
            OpenPayload(s.(ring := ring), later, openAt, id, raw)
            == if SealingKey(s.ring, at).value.kid in ring.keys then Ok(p) else Err({NoSession, UnknownKey})
  {
    SealKeepsHonest(s.ring, at, ledger, KIND_PAYLOAD, RowDomain(s, id),
                    RowContents(PAYLOAD_V1, p.subject, Some(p.token), p.idToken), d);
    var kid := SealingKey(s.ring, at).value.kid;
    OpensExactly(ring, openAt, later, KIND_PAYLOAD, RowDomain(s, id), KIND_PAYLOAD, kid, RowDomain(s, id), d);
  }

  /** Store.Reseal: the handle is opened and sealed again, and no row is
      touched. */
  function Reseal(s: Store, ledger: Ledger<Plaintext>, openAt: int, at: int, t: StoredToken, d: Draw)
    : Result<(StoredToken, Ledger<Plaintext>)>
  {
    match s.codec.decode(t.handle)
    case None => Err({NoSession, NotSealed})
    case Some(raw) =>
      match Open(s.ring, openAt, ledger, KIND_HANDLE, HandleDomain(s), raw)
      case Failed(wraps) => Err({NoSession} + wraps)
      case Plain(p, _, _) =>
        match SealInto(s.ring, at, ledger, KIND_HANDLE, HandleDomain(s), p, d)
        case None => Err({})
        case Some(sealed) => Ok((t.(handle := s.codec.encode(sealed.raw), stale := false), sealed.ledger))
  }

  /** Re-sealing moves the handle and nothing else: the session keeps its token
      and all the rest, the new value names the same row, and what the old value
      names does not change. */
  lemma ResealKeepsTheSession(s: Store, ledger: Ledger<Plaintext>, openAt: int, at: int, t: StoredToken, d: Draw, readAt: int)
    requires ValidRing(s.ring) && WideIds(s.ring) && LeftInverse(s.codec)
    requires Honest(s.ring, ledger) && WellDrawn(ledger, d) && SealingKey(s.ring, readAt).Some?
    requires Reseal(s, ledger, openAt, at, t, d).Ok?
    ensures var (moved, after) := Reseal(s, ledger, openAt, at, t, d).value;
            && moved == t.(handle := moved.handle, stale := false) && moved.token == t.token
            && SealingKey(s.ring, at).Some?
            && RowIdOf(s, ledger, openAt, t.handle).Ok?
            && RowIdOf(s, after, readAt, moved.handle)
               == Ok(Named(RowIdOf(s, ledger, openAt, t.handle).value.id,
                           SealingKey(s.ring, at).value.kid == SealingKey(s.ring, readAt).value.kid))
            && RowIdOf(s, after, openAt, t.handle) == RowIdOf(s, ledger, openAt, t.handle)
  {
    var raw := s.codec.decode(t.handle).value;
    var p := Open(s.ring, openAt, ledger, KIND_HANDLE, HandleDomain(s), raw).plain;
    SealKeepsHonest(s.ring, at, ledger, KIND_HANDLE, HandleDomain(s), p, d);
    SealerIsInRing(s.ring, at);
    var after, kid := Reseal(s, ledger, openAt, at, t, d).value.1, SealingKey(s.ring, at).value.kid;
    OpensExactly(s.ring, readAt, after, KIND_HANDLE, HandleDomain(s), KIND_HANDLE, kid, HandleDomain(s), d);
  }

  // ----- runs -----

  /** Who logged in: what Create seals into the first payload of a row. */
  datatype Identity = Identity(subject: string, idToken: string)

  /** The ledger, the table, when each row was inserted, and the login that
      each row id was drawn for. */
  datatype Fleet = Fleet(ledger: Ledger<Plaintext>, rows: Rows, born: map<RowId, int>, logins: map<RowId, Identity>)

  /** The steps Create, Update, Refresh and Reseal are made of, plus every
      other statement. Sealing precedes the statement that uses the result. A
      rewrite opens a payload, with whatever ring its replica has, and seals
      what it found with a new token. */
  datatype Step =
    | SealHandle(p: Plaintext, at: int, d: Draw)
    | FirstPayload(id: RowId, subject: string, token: Token, idToken: string, at: int, d: Draw)
    | Rewrite(id: RowId, ring: Ring, raw: Bytes, openAt: int, token: Token, at: int, d: Draw)
    | Insert(stmt: Stmt, at: int)
    | Execute(stmt: Stmt, at: int)

  predicate SealsPayload(step: Step) {
    step.FirstPayload? || step.Rewrite?
  }

  /** What the step seals for the row, if it gets that far. */
  function Contents(s: Store, f: Fleet, step: Step): Option<Plaintext>
    requires SealsPayload(step)
  {
    match step
    case FirstPayload(_, subject, token, idToken, _, _) => Some(RowContents(PAYLOAD_V1, subject, Some(token), idToken))
    case Rewrite(id, ring, raw, openAt, token, _, _) =>
      match OpenPayload(s.(ring := ring), f.ledger, openAt, id, raw)
      case Err(_) => None
      case Ok(q) => Some(RowContents(PAYLOAD_V1, q.subject, Some(token), q.idToken))
  }

  predicate HandleRecord(s: Store, ledger: Ledger<Plaintext>, kid: Bytes, d: Draw) {
    SlotFor(KIND_HANDLE, kid, HandleDomain(s), d) in ledger
  }

  function HandleAt(s: Store, ledger: Ledger<Plaintext>, kid: Bytes, d: Draw): Record<Plaintext>
    requires HandleRecord(s, ledger, kid, d)
  {
    ledger[SlotFor(KIND_HANDLE, kid, HandleDomain(s), d)]
  }

  predicate RowRecord(s: Store, ledger: Ledger<Plaintext>, id: RowId, kid: Bytes, d: Draw) {
    SlotFor(KIND_PAYLOAD, kid, RowDomain(s, id), d) in ledger
  }

  function PayloadAt(s: Store, ledger: Ledger<Plaintext>, id: RowId, kid: Bytes, d: Draw): Record<Plaintext>
    requires RowRecord(s, ledger, id, kid, d)
  {
    ledger[SlotFor(KIND_PAYLOAD, kid, RowDomain(s, id), d)]
  }

  predicate Carries(p: Plaintext, who: Identity) {
    p.RowContents? && p.version == PAYLOAD_V1 && p.token.Some? && p.subject == who.subject && p.idToken == who.idToken
  }

  /** Writers behave as the store's methods do: Create draws a row id nobody
      drew before, seals the payload, and inserts the row at most `lag` after
      it sealed the handle and the payload for it; a handle is re-sealed and a
      payload rewritten only once the session exists. */
  ghost predicate Enabled(s: Store, f: Fleet, lag: nat, step: Step) {
    match step
    case SealHandle(p, at, d) => WellDrawn(f.ledger, d) && (s.rowOf(p) in f.born ==> f.born[s.rowOf(p)] <= at)
    case FirstPayload(id, _, _, _, _, d) => WellDrawn(f.ledger, d) && id !in f.logins
    case Rewrite(id, _, _, _, _, at, d) => WellDrawn(f.ledger, d) && (id in f.born ==> f.born[id] <= at)
    case Insert(stmt, at) =>
      && stmt.Create? && stmt.id !in f.born && stmt.maxAge == s.maxAge
      && stmt.id in f.logins && stmt.subject == f.logins[stmt.id].subject
      && (forall kid, d | HandleRecord(s, f.ledger, kid, d) && s.rowOf(HandleAt(s, f.ledger, kid, d).plain) == stmt.id ::
            at <= HandleAt(s, f.ledger, kid, d).at + lag)
      && (forall kid, d | RowRecord(s, f.ledger, stmt.id, kid, d) :: at <= PayloadAt(s, f.ledger, stmt.id, kid, d).at + lag)
    case Execute(stmt, _) => !stmt.Create?
  }

  function SealFor(s: Store, f: Fleet, step: Step): Option<Sealed>
    requires SealsPayload(step)
  {
    match Contents(s, f, step)
    case None => None
    case Some(p) => SealInto(s.ring, step.at, f.ledger, KIND_PAYLOAD, RowDomain(s, step.id), p, step.d)
  }

  function LedgerAfter(f: Fleet, sealed: Option<Sealed>): Ledger<Plaintext> {
    match sealed
    case None => f.ledger
    case Some(e) => e.ledger
  }

  function Do(s: Store, f: Fleet, step: Step): Fleet {
    match step
    case SealHandle(p, at, d) =>
      f.(ledger := LedgerAfter(f, SealInto(s.ring, at, f.ledger, KIND_HANDLE, HandleDomain(s), p, d)))
    case FirstPayload(id, subject, _, idToken, _, _) =>
      f.(ledger := LedgerAfter(f, SealFor(s, f, step)), logins := f.logins[id := Identity(subject, idToken)])
    case Rewrite(_, _, _, _, _, _, _) => f.(ledger := LedgerAfter(f, SealFor(s, f, step)))
    case Insert(stmt, at) =>
      if stmt.Create? then f.(rows := Apply(f.rows, at, stmt), born := f.born[stmt.id := at]) else f
    case Execute(stmt, at) => f.(rows := Apply(f.rows, at, stmt))
  }

  ghost predicate HandlesOld(s: Store, f: Fleet, lag: nat) {
    forall kid, d | HandleRecord(s, f.ledger, kid, d) ::
      var e := HandleAt(s, f.ledger, kid, d);
      s.rowOf(e.plain) in f.born ==> f.born[s.rowOf(e.plain)] <= e.at + lag
  }

  ghost predicate PayloadsOld(s: Store, f: Fleet, lag: nat) {
    forall id, kid, d | RowRecord(s, f.ledger, id, kid, d) && id in f.born ::
      f.born[id] <= PayloadAt(s, f.ledger, id, kid, d).at + lag
  }

  /** Every payload ever sealed for a row carries the identity of its login. */
  ghost predicate Identified(s: Store, f: Fleet) {
    forall id, kid, d | RowRecord(s, f.ledger, id, kid, d) ::
      id in f.logins && Carries(PayloadAt(s, f.ledger, id, kid, d).plain, f.logins[id])
  }

  ghost predicate RowsFixed(s: Store, f: Fleet) {
    && f.born.Keys <= f.logins.Keys
    && forall id | id in f.rows ::
         && id in f.born && f.rows[id].createdAt == f.born[id] && f.rows[id].expiresAt == f.born[id] + s.maxAge
         && f.rows[id].subject == f.logins[id].subject
  }

  ghost predicate Inv(s: Store, f: Fleet, lag: nat) {
    && Honest(s.ring, f.ledger)
    && HandlesOld(s, f, lag) && PayloadsOld(s, f, lag) && Identified(s, f) && RowsFixed(s, f)
  }

  ghost predicate GoodStore(s: Store) {
    ValidRing(s.ring) && WideIds(s.ring) && ValidName(s.name) && LeftInverse(s.codec)
  }

  /** Two seals share a slot only if they were for the same kind and domain. */
  lemma SlotsSeparate(k: byte, kid: Bytes, dom: Bytes, d: Draw, k': byte, kid': Bytes, dom': Bytes, d': Draw)
    requires SlotFor(k, kid, dom, d) == SlotFor(k', kid', dom', d')
    ensures k == k' && kid == kid' && dom == dom' && d == d'
  {
    AadIsInjective(ENVELOPE_V1, k, kid, dom, ENVELOPE_V1, k', kid', dom');
  }

  lemma SealHandleKeeps(s: Store, f: Fleet, lag: nat, step: Step)
    requires GoodStore(s) && Inv(s, f, lag) && Enabled(s, f, lag, step) && step.SealHandle?
    ensures Inv(s, Do(s, f, step), lag)
  {
    var sealed := SealInto(s.ring, step.at, f.ledger, KIND_HANDLE, HandleDomain(s), step.p, step.d);
    if sealed.Some? {
      SealKeepsHonest(s.ring, step.at, f.ledger, KIND_HANDLE, HandleDomain(s), step.p, step.d);
      var g, kid0 := Do(s, f, step), SealingKey(s.ring, step.at).value.kid;
      forall id, kid, d | RowRecord(s, g.ledger, id, kid, d)
        ensures RowRecord(s, f.ledger, id, kid, d) && PayloadAt(s, g.ledger, id, kid, d) == PayloadAt(s, f.ledger, id, kid, d)
      {
        if SlotFor(KIND_PAYLOAD, kid, RowDomain(s, id), d) == sealed.value.slot {
          SlotsSeparate(KIND_PAYLOAD, kid, RowDomain(s, id), d, KIND_HANDLE, kid0, HandleDomain(s), step.d);
        }
      }
      forall kid, d | HandleRecord(s, g.ledger, kid, d)
        ensures var e := HandleAt(s, g.ledger, kid, d);
                s.rowOf(e.plain) in g.born ==> g.born[s.rowOf(e.plain)] <= e.at + lag
      {
        if SlotFor(KIND_HANDLE, kid, HandleDomain(s), d) != sealed.value.slot {
          assert HandleRecord(s, f.ledger, kid, d);
        }
      }
    }
  }

  lemma SealPayloadKeeps(s: Store, f: Fleet, lag: nat, step: Step)
    requires GoodStore(s) && Inv(s, f, lag) && Enabled(s, f, lag, step) && SealsPayload(step)
    ensures Inv(s, Do(s, f, step), lag)
  {
    if SealFor(s, f, step).Some? {
      var p := Contents(s, f, step).value;
      SealKeepsHonest(s.ring, step.at, f.ledger, KIND_PAYLOAD, RowDomain(s, step.id), p, step.d);
      HandlesStayOld(s, f, lag, step);
      PayloadsStayOld(s, f, lag, step);
      IdentityStays(s, f, lag, step);
    }
  }

  lemma HandlesStayOld(s: Store, f: Fleet, lag: nat, step: Step)
    requires GoodStore(s) && Inv(s, f, lag) && Enabled(s, f, lag, step) && SealsPayload(step)
    requires SealFor(s, f, step).Some?
    ensures HandlesOld(s, Do(s, f, step), lag)
  {
    var p, g := Contents(s, f, step).value, Do(s, f, step);
    SealKeepsHonest(s.ring, step.at, f.ledger, KIND_PAYLOAD, RowDomain(s, step.id), p, step.d);
    forall kid, d | HandleRecord(s, g.ledger, kid, d)
      ensures HandleRecord(s, f.ledger, kid, d) && HandleAt(s, g.ledger, kid, d) == HandleAt(s, f.ledger, kid, d)
    {
      if SlotFor(KIND_HANDLE, kid, HandleDomain(s), d) == SealFor(s, f, step).value.slot {
        SlotsSeparate(KIND_HANDLE, kid, HandleDomain(s), d,
                      KIND_PAYLOAD, SealingKey(s.ring, step.at).value.kid, RowDomain(s, step.id), step.d);
      }
    }
  }

  lemma PayloadsStayOld(s: Store, f: Fleet, lag: nat, step: Step)
    requires GoodStore(s) && Inv(s, f, lag) && Enabled(s, f, lag, step) && SealsPayload(step)
    requires SealFor(s, f, step).Some?
    ensures PayloadsOld(s, Do(s, f, step), lag)
  {
    var g := Do(s, f, step);
    forall id, kid, d | RowRecord(s, g.ledger, id, kid, d) && id in g.born
      ensures g.born[id] <= PayloadAt(s, g.ledger, id, kid, d).at + lag
    {
      RowRecordNewOrOld(s, f, g, step, id, kid, d);
    }
  }

  /** A first payload carries the login it is sealed for, and a rewritten one
      the identity of a payload that opened, which was sealed before. */
  lemma ContentsAreIdentified(s: Store, f: Fleet, lag: nat, step: Step)
    requires Inv(s, f, lag) && SealsPayload(step) && Contents(s, f, step).Some?
    ensures step.id in Do(s, f, step).logins && Carries(Contents(s, f, step).value, Do(s, f, step).logins[step.id])
  {
    if step.Rewrite? {
      var kid, d := OpenedFromRecord(s, f, step.ring, step.openAt, step.id, step.raw);
    }
  }

  lemma IdentityStays(s: Store, f: Fleet, lag: nat, step: Step)
    requires GoodStore(s) && Inv(s, f, lag) && Enabled(s, f, lag, step) && SealsPayload(step)
    requires SealFor(s, f, step).Some?
    ensures Identified(s, Do(s, f, step))
  {
    var g := Do(s, f, step);
    ContentsAreIdentified(s, f, lag, step);
    forall id, kid, d | RowRecord(s, g.ledger, id, kid, d)
      ensures id in g.logins && Carries(PayloadAt(s, g.ledger, id, kid, d).plain, g.logins[id])
    {
      RowRecordNewOrOld(s, f, g, step, id, kid, d);
    }
  }

  /** A payload record after sealing one more: an old one, or the new one,
      which is for the row it was sealed for. */
  predicate NewOrOld(s: Store, f: Fleet, g: Fleet, step: Step, id: RowId, kid: Bytes, d: Draw)
    requires SealsPayload(step) && Contents(s, f, step).Some? && RowRecord(s, g.ledger, id, kid, d)
  {
    || (RowRecord(s, f.ledger, id, kid, d) && PayloadAt(s, g.ledger, id, kid, d) == PayloadAt(s, f.ledger, id, kid, d))
    || (id == step.id && PayloadAt(s, g.ledger, id, kid, d) == Record(Contents(s, f, step).value, step.at))
  }

  lemma RowRecordNewOrOld(s: Store, f: Fleet, g: Fleet, step: Step, id: RowId, kid: Bytes, d: Draw)
    requires GoodStore(s) && Honest(s.ring, f.ledger) && SealsPayload(step) && WellDrawn(f.ledger, step.d)
    requires SealFor(s, f, step).Some?
    requires g.ledger == SealFor(s, f, step).value.ledger && RowRecord(s, g.ledger, id, kid, d)
    ensures NewOrOld(s, f, g, step, id, kid, d)
  {
    var p := Contents(s, f, step).value;
    SealKeepsHonest(s.ring, step.at, f.ledger, KIND_PAYLOAD, RowDomain(s, step.id), p, step.d);
    var kid0 := SealingKey(s.ring, step.at).value.kid;
    if SlotFor(KIND_PAYLOAD, kid, RowDomain(s, id), d) == SlotFor(KIND_PAYLOAD, kid0, RowDomain(s, step.id), step.d) {
      SlotsSeparate(KIND_PAYLOAD, kid, RowDomain(s, id), d, KIND_PAYLOAD, kid0, RowDomain(s, step.id), step.d);
      LabelsAreInjective(StoreRow(s.name, id), StoreRow(s.name, step.id));
    }
  }

  /** A row that a statement leaves was there before, as old, or is new. */
  lemma RowFromBefore(rows: Rows, at: int, stmt: Stmt, id: RowId)
    requires id in Apply(rows, at, stmt)
    ensures var row := Apply(rows, at, stmt)[id];
            || (id in rows && row.createdAt == rows[id].createdAt && row.expiresAt == rows[id].expiresAt
                && row.subject == rows[id].subject)
            || (stmt.Create? && stmt.id == id && row == NewRow(stmt, at))
  {
    assert Lookup(Apply(rows, at, stmt), id) == StepRow(Lookup(rows, id), id, at, stmt);
  }

  lemma RowsStayFixed(s: Store, f: Fleet, lag: nat, step: Step)
    requires RowsFixed(s, f) && Enabled(s, f, lag, step) && (step.Insert? || step.Execute?)
    ensures RowsFixed(s, Do(s, f, step))
  {
    var g := Do(s, f, step);
    forall id | id in g.rows
      ensures id in g.born && g.rows[id].createdAt == g.born[id] && g.rows[id].expiresAt == g.born[id] + s.maxAge
      ensures id in g.logins && g.rows[id].subject == g.logins[id].subject
    {
      RowFromBefore(f.rows, step.at, step.stmt, id);
    }
  }

  lemma StatementKeeps(s: Store, f: Fleet, lag: nat, step: Step)
    requires GoodStore(s) && Inv(s, f, lag) && Enabled(s, f, lag, step) && (step.Insert? || step.Execute?)
    ensures Inv(s, Do(s, f, step), lag)
  {
    RowsStayFixed(s, f, lag, step);
  }

  ghost predicate Run(s: Store, lag: nat, fleets: seq<Fleet>, steps: seq<Step>) {
    && |fleets| == |steps| + 1
    && fleets[0] == Fleet(map[], map[], map[], map[])
    && forall k | 0 <= k < |steps| :: Enabled(s, fleets[k], lag, steps[k]) && fleets[k + 1] == Do(s, fleets[k], steps[k])
  }

  lemma {:induction false} InvAt(s: Store, lag: nat, fleets: seq<Fleet>, steps: seq<Step>, k: nat)
    requires GoodStore(s) && Run(s, lag, fleets, steps) && k < |fleets|
    ensures Inv(s, fleets[k], lag)
  {
    if k > 0 {
      InvAt(s, lag, fleets, steps, k - 1);
      var f, step := fleets[k - 1], steps[k - 1];
      assert fleets[k] == Do(s, f, step) && Enabled(s, f, lag, step);
      match step
      case SealHandle(_, _, _) => SealHandleKeeps(s, f, lag, step);
      case FirstPayload(_, _, _, _, _, _) => SealPayloadKeeps(s, f, lag, step);
      case Rewrite(_, _, _, _, _, _, _) => SealPayloadKeeps(s, f, lag, step);
      case Insert(_, _) => StatementKeeps(s, f, lag, step);
      case Execute(_, _) => StatementKeeps(s, f, lag, step);
    }
  }

  // ----- whole-run theorems -----

  /** A payload that opens is one that was sealed for the row. */
  lemma OpenedFromRecord(s: Store, f: Fleet, ring: Ring, at: int, id: RowId, raw: Bytes) returns (kid: Bytes, d: Draw)
    requires OpenPayload(s.(ring := ring), f.ledger, at, id, raw).Ok?
    ensures RowRecord(s, f.ledger, id, kid, d)
    ensures var p := PayloadAt(s, f.ledger, id, kid, d).plain;
            p.RowContents? && p.token.Some? &&
            OpenPayload(s.(ring := ring), f.ledger, at, id, raw) == Ok(RowPayload(p.subject, p.token.value, p.idToken))
  {
    NothingForged(ring, at, f.ledger, KIND_PAYLOAD, RowDomain(s, id), raw);
    kid, d :|
      && SlotFor(KIND_PAYLOAD, kid, RowDomain(s, id), d) in f.ledger
      && f.ledger[SlotFor(KIND_PAYLOAD, kid, RowDomain(s, id), d)].plain
         == Open(ring, at, f.ledger, KIND_PAYLOAD, RowDomain(s, id), raw).plain;
  }

  /** Absolute expiry, and a fixed identity: along any chain of Create, Update,
      Refresh and Reseal, whatever Get accepts is the session that Create fixed
      (issued-at and expiry as the row was inserted, subject and id token as the
      login brought them), and it accepts nothing at or past the insertion plus
      the maximum age. */
  lemma AbsoluteExpiry(s: Store, lag: nat, fleets: seq<Fleet>, steps: seq<Step>, k: nat, ring: Ring, t: Instants, handle: string)
    requires GoodStore(s) && Run(s, lag, fleets, steps) && k < |fleets|
    requires Get(s.(ring := ring), fleets[k].ledger, fleets[k].rows, t, handle).Ok?
    ensures var f := fleets[k];
            var r := Get(s.(ring := ring), f.ledger, f.rows, t, handle).value;
            var named := RowIdOf(s.(ring := ring), f.ledger, t.handle, handle);
            && named.Ok? && named.value.id in f.born && named.value.id in f.logins
            && var id := named.value.id;
            && r.issuedAt == f.born[id] && r.expiresAt == f.born[id] + s.maxAge
            && t.row < f.born[id] + s.maxAge
            && r.subject == f.logins[id].subject && r.idToken == f.logins[id].idToken
            && f.rows[id].subject == r.subject
  {
    InvAt(s, lag, fleets, steps, k);
    var f := fleets[k];
    var id := RowIdOf(s.(ring := ring), f.ledger, t.handle, handle).value.id;
    var kid, d := OpenedFromRecord(s, f, ring, t.payload, id, f.rows[id].payload);
  }

  /** What Get answers, in full, for a handle that was sealed and a row whose
      payload was: it is accepted exactly while both keys are in the ring, the
      row is there and the maximum age has not passed, as the login's session
      with the token sealed into the row, under the handle given, and stale
      exactly if the handle's key no longer seals. */
  lemma SealedHandleAnswers(s: Store, f: Fleet, lag: nat, ring: Ring, t: Instants, kid: Bytes, d: Draw, kid': Bytes, d': Draw)
    requires GoodStore(s) && Inv(s, f, lag) && HandleRecord(s, f.ledger, kid, d)
    requires SealingKey(ring, t.handle).Some? && SealingKey(ring, t.payload).Some?
    requires var id := s.rowOf(HandleAt(s, f.ledger, kid, d).plain);
             id in f.rows ==> f.rows[id].payload == Raw(KIND_PAYLOAD, kid', d') && RowRecord(s, f.ledger, id, kid', d')
    ensures var id, handle := s.rowOf(HandleAt(s, f.ledger, kid, d).plain), s.codec.encode(Raw(KIND_HANDLE, kid, d));
            && (id in f.rows ==> id in f.born && id in f.logins && RowRecord(s, f.ledger, id, kid', d')
                                 && PayloadAt(s, f.ledger, id, kid', d').plain.RowContents?)
            && Get(s.(ring := ring), f.ledger, f.rows, t, handle)
               == if kid !in ring.keys then Err({NoSession, UnknownKey})
                  else if id !in f.rows || f.born[id] + s.maxAge <= t.row then Err({NoSession})
                  else if kid' !in ring.keys then Err({NoSession, UnknownKey})
                  else Ok(StoredToken(handle, f.logins[id].subject, PayloadAt(s, f.ledger, id, kid', d').plain.token,
                                      f.logins[id].idToken, f.born[id], f.born[id] + s.maxAge,
                                      kid != SealingKey(ring, t.handle).value.kid))
  {
    var id := s.rowOf(HandleAt(s, f.ledger, kid, d).plain);
    SealedHandleNames(s, f, ring, t.handle, kid, d);
    if id in f.rows {
      SealedPayloadReads(s, f, lag, ring, t.payload, id, kid', d');
    }
  }

  lemma SealedHandleNames(s: Store, f: Fleet, ring: Ring, at: int, kid: Bytes, d: Draw)
    requires GoodStore(s) && Honest(s.ring, f.ledger) && HandleRecord(s, f.ledger, kid, d) && SealingKey(ring, at).Some?
    ensures RowIdOf(s.(ring := ring), f.ledger, at, s.codec.encode(Raw(KIND_HANDLE, kid, d)))
            == if kid !in ring.keys then Err({NoSession, UnknownKey})
               else Ok(Named(s.rowOf(HandleAt(s, f.ledger, kid, d).plain), kid == SealingKey(ring, at).value.kid))
  {
    var slot := SlotFor(KIND_HANDLE, kid, HandleDomain(s), d);
    assert HonestSlot(s.ring, slot, f.ledger[slot].at);
    OpensExactly(ring, at, f.ledger, KIND_HANDLE, HandleDomain(s), KIND_HANDLE, kid, HandleDomain(s), d);
  }

  lemma SealedPayloadReads(s: Store, f: Fleet, lag: nat, ring: Ring, at: int, id: RowId, kid: Bytes, d: Draw)
    requires GoodStore(s) && Inv(s, f, lag) && RowRecord(s, f.ledger, id, kid, d) && SealingKey(ring, at).Some?
    ensures id in f.logins && Carries(PayloadAt(s, f.ledger, id, kid, d).plain, f.logins[id])
    ensures OpenPayload(s.(ring := ring), f.ledger, at, id, Raw(KIND_PAYLOAD, kid, d))
            == if kid !in ring.keys then Err({NoSession, UnknownKey})
               else Ok(RowPayload(f.logins[id].subject, PayloadAt(s, f.ledger, id, kid, d).plain.token.value, f.logins[id].idToken))
  {
    var slot := SlotFor(KIND_PAYLOAD, kid, RowDomain(s, id), d);
    assert HonestSlot(s.ring, slot, f.ledger[slot].at);
    OpensExactly(ring, at, f.ledger, KIND_PAYLOAD, RowDomain(s, id), KIND_PAYLOAD, kid, RowDomain(s, id), d);
  }

  /** Whatever Get accepts, under any ring, is a sealed handle and a row whose
      payload was sealed for it, and the answer is what they say. */
  lemma AcceptedWasSealed(s: Store, ledger: Ledger<Plaintext>, rows: Rows, t: Instants, handle: string)
    returns (kid: Bytes, d: Draw, kid': Bytes, d': Draw)
    requires Get(s, ledger, rows, t, handle).Ok?
    ensures s.codec.decode(handle) == Some(Raw(KIND_HANDLE, kid, d)) && kid in s.ring.keys && HandleRecord(s, ledger, kid, d)
    ensures var id, r := s.rowOf(HandleAt(s, ledger, kid, d).plain), Get(s, ledger, rows, t, handle).value;
            && id in rows && t.row < rows[id].expiresAt
            && rows[id].payload == Raw(KIND_PAYLOAD, kid', d') && kid' in s.ring.keys && RowRecord(s, ledger, id, kid', d')
            && r.handle == handle && r.issuedAt == rows[id].createdAt && r.expiresAt == rows[id].expiresAt
            && r.token.Some? && PayloadAt(s, ledger, id, kid', d').plain == RowContents(PAYLOAD_V1, r.subject, r.token, r.idToken)
            && SealingKey(s.ring, t.handle).Some? && (r.stale <==> kid != SealingKey(s.ring, t.handle).value.kid)
  {
    kid, d := NamedFromRecord(s, ledger, t.handle, handle);
    var id := s.rowOf(HandleAt(s, ledger, kid, d).plain);
    kid', d' := ReadFromRecord(s, ledger, t.payload, id, rows[id].payload);
  }

  lemma NamedFromRecord(s: Store, ledger: Ledger<Plaintext>, at: int, handle: string) returns (kid: Bytes, d: Draw)
    requires RowIdOf(s, ledger, at, handle).Ok?
    ensures s.codec.decode(handle) == Some(Raw(KIND_HANDLE, kid, d)) && kid in s.ring.keys && HandleRecord(s, ledger, kid, d)
    ensures SealingKey(s.ring, at).Some?
    ensures RowIdOf(s, ledger, at, handle)
            == Ok(Named(s.rowOf(HandleAt(s, ledger, kid, d).plain), kid == SealingKey(s.ring, at).value.kid))
  {
    var raw := s.codec.decode(handle).value;
    var r := Open(s.ring, at, ledger, KIND_HANDLE, HandleDomain(s), raw);
    NothingForged(s.ring, at, ledger, KIND_HANDLE, HandleDomain(s), raw);
    kid, d :|
      && raw == Raw(KIND_HANDLE, kid, d) && kid in s.ring.keys && SlotFor(KIND_HANDLE, kid, HandleDomain(s), d) in ledger
      && ledger[SlotFor(KIND_HANDLE, kid, HandleDomain(s), d)].plain == r.plain && kid == r.kid;
  }

  lemma ReadFromRecord(s: Store, ledger: Ledger<Plaintext>, at: int, id: RowId, raw: Bytes) returns (kid: Bytes, d: Draw)
    requires OpenPayload(s, ledger, at, id, raw).Ok?
    ensures raw == Raw(KIND_PAYLOAD, kid, d) && kid in s.ring.keys && RowRecord(s, ledger, id, kid, d)
    ensures var q := OpenPayload(s, ledger, at, id, raw).value;
            PayloadAt(s, ledger, id, kid, d).plain == RowContents(PAYLOAD_V1, q.subject, Some(q.token), q.idToken)
  {
    var r := Open(s.ring, at, ledger, KIND_PAYLOAD, RowDomain(s, id), raw);
    NothingForged(s.ring, at, ledger, KIND_PAYLOAD, RowDomain(s, id), raw);
    kid, d :|
      && raw == Raw(KIND_PAYLOAD, kid, d) && kid in s.ring.keys && SlotFor(KIND_PAYLOAD, kid, RowDomain(s, id), d) in ledger
      && ledger[SlotFor(KIND_PAYLOAD, kid, RowDomain(s, id), d)].plain == r.plain && kid == r.kid;
  }

  /** A payload that Create, Update or a refresh seals opens, for that row, as
      the login's identity with the token the step was handed. */
  lemma PayloadCarriesTheToken(s: Store, f: Fleet, lag: nat, step: Step, openAt: int)
    requires GoodStore(s) && Inv(s, f, lag) && Enabled(s, f, lag, step) && SealsPayload(step)
    requires SealingKey(s.ring, openAt).Some?
    ensures SealFor(s, f, step).None? <==>
            SealingKey(s.ring, step.at).None? ||
            (step.Rewrite? && OpenPayload(s.(ring := step.ring), f.ledger, step.openAt, step.id, step.raw).Err?)
    ensures SealFor(s, f, step).Some? ==>
              var g := Do(s, f, step);
              && step.id in g.logins
              && OpenPayload(s, g.ledger, openAt, step.id, SealFor(s, f, step).value.raw)
                 == Ok(RowPayload(g.logins[step.id].subject, step.token, g.logins[step.id].idToken))
              && (step.FirstPayload? ==> g.logins[step.id] == Identity(step.subject, step.idToken))
              && (step.Rewrite? ==> g.logins == f.logins)
  {
    if SealFor(s, f, step).Some? {
      var g, kid := Do(s, f, step), SealingKey(s.ring, step.at).value.kid;
      SealPayloadKeeps(s, f, lag, step);
      ContentsAreIdentified(s, f, lag, step);
      SealerIsInRing(s.ring, step.at);
      assert s.(ring := s.ring) == s;
      SealedPayloadReads(s, g, lag, s.ring, openAt, step.id, kid, step.d);
      TokenIsSealed(s, f, step);
    }
  }

  /** A handle that Create or Reseal seals names the row of what was sealed. */
  lemma HandleNamesItsRow(s: Store, f: Fleet, lag: nat, step: Step, at: int)
    requires GoodStore(s) && Inv(s, f, lag) && Enabled(s, f, lag, step) && step.SealHandle?
    requires SealingKey(s.ring, step.at).Some? && SealingKey(s.ring, at).Some?
    ensures var kid := SealingKey(s.ring, step.at).value.kid;
            RowIdOf(s, Do(s, f, step).ledger, at, s.codec.encode(Raw(KIND_HANDLE, kid, step.d)))
            == Ok(Named(s.rowOf(step.p), kid == SealingKey(s.ring, at).value.kid))
  {
    SealHandleKeeps(s, f, lag, step);
    SealerIsInRing(s.ring, step.at);
    assert s.(ring := s.ring) == s;
    SealedHandleNames(s, Do(s, f, step), s.ring, at, SealingKey(s.ring, step.at).value.kid, step.d);
  }

  lemma TokenIsSealed(s: Store, f: Fleet, step: Step)
    requires SealsPayload(step) && SealFor(s, f, step).Some?
    ensures var kid := SealingKey(s.ring, step.at).value.kid;
            && SealFor(s, f, step).value.raw == Raw(KIND_PAYLOAD, kid, step.d)
            && RowRecord(s, Do(s, f, step).ledger, step.id, kid, step.d)
            && PayloadAt(s, Do(s, f, step).ledger, step.id, kid, step.d).plain.RowContents?
            && PayloadAt(s, Do(s, f, step).ledger, step.id, kid, step.d).plain.token == Some(step.token)
  {
  }

  /** What Create fixed of a session, no later step of the run changes. */
  lemma {:induction false} CreateIsRemembered(s: Store, lag: nat, fleets: seq<Fleet>, steps: seq<Step>, j: nat, k: nat, id: RowId)
    requires Run(s, lag, fleets, steps) && j <= k < |fleets|
    ensures id in fleets[j].logins ==> id in fleets[k].logins && fleets[k].logins[id] == fleets[j].logins[id]
    ensures id in fleets[j].born ==> id in fleets[k].born && fleets[k].born[id] == fleets[j].born[id]
  {
    if j < k {
      CreateIsRemembered(s, lag, fleets, steps, j, k - 1, id);
      assert Enabled(s, fleets[k - 1], lag, steps[k - 1]) && fleets[k] == Do(s, fleets[k - 1], steps[k - 1]);
    }
  }

  lemma RetiredKeyIsNotMissed(s: Store, f: Fleet, lag: nat, less: Ring, kid: Bytes, from: int, t: Instants, handle: string)
    requires GoodStore(s) && Inv(s, f, lag)
    requires Without(s.ring, less, kid) && Superseded(s.ring, kid, from)
    requires from <= t.handle && from <= t.payload && from + s.maxAge + lag - 1 <= t.row
    ensures var a, b := Get(s, f.ledger, f.rows, t, handle), Get(s.(ring := less), f.ledger, f.rows, t, handle);
            a == b || (a.Err? && b.Err? && NoSession in a.wraps && NoSession in b.wraps)
  {
    if s.codec.decode(handle).Some? {
      var raw := s.codec.decode(handle).value;
      WithoutOpensAlike(s.ring, less, kid, from, t.handle, f.ledger, KIND_HANDLE, HandleDomain(s), raw);
      var named := RowIdOf(s, f.ledger, t.handle, handle);
      if named.Ok? && named.value.id in f.rows {
        var id := named.value.id;
        WithoutOpensAlike(s.ring, less, kid, from, t.payload, f.ledger, KIND_PAYLOAD, RowDomain(s, id), f.rows[id].payload);
        RetiredIsExpired(s, f, lag, kid, from, t, raw, id);
      }
    }
  }

  /** A session whose handle or payload was sealed before `from` has expired. */
  lemma RetiredIsExpired(s: Store, f: Fleet, lag: nat, kid: Bytes, from: int, t: Instants, raw: Bytes, id: RowId)
    requires Inv(s, f, lag) && id in f.rows && from + s.maxAge + lag - 1 <= t.row
    ensures forall p | SealedBefore(f.ledger, KIND_HANDLE, kid, HandleDomain(s), from, p) && s.rowOf(p) == id ::
              f.rows[id].expiresAt <= t.row
    ensures forall p | SealedBefore(f.ledger, KIND_PAYLOAD, kid, RowDomain(s, id), from, p) ::
              f.rows[id].expiresAt <= t.row
  {
    forall p | SealedBefore(f.ledger, KIND_HANDLE, kid, HandleDomain(s), from, p) && s.rowOf(p) == id
      ensures f.rows[id].expiresAt <= t.row
    {
      var d :| SlotFor(KIND_HANDLE, kid, HandleDomain(s), d) in f.ledger
        && f.ledger[SlotFor(KIND_HANDLE, kid, HandleDomain(s), d)].plain == p
        && f.ledger[SlotFor(KIND_HANDLE, kid, HandleDomain(s), d)].at < from;
      assert HandleRecord(s, f.ledger, kid, d);
    }
    forall p | SealedBefore(f.ledger, KIND_PAYLOAD, kid, RowDomain(s, id), from, p) ensures f.rows[id].expiresAt <= t.row {
      var d :| SlotFor(KIND_PAYLOAD, kid, RowDomain(s, id), d) in f.ledger
        && f.ledger[SlotFor(KIND_PAYLOAD, kid, RowDomain(s, id), d)].plain == p
        && f.ledger[SlotFor(KIND_PAYLOAD, kid, RowDomain(s, id), d)].at < from;
      assert RowRecord(s, f.ledger, id, kid, d);
    }
  }

  /** Key retirement, after every run: with Create's seal-to-insert lag bounded,
      a key superseded at `from` may be dropped `lag` later than the maximum
      session age says. From then on no cookie value is answered differently
      without it, except in how a refusal is worded. */
  lemma RetiringAKeyIsSafe(s: Store, lag: nat, fleets: seq<Fleet>, steps: seq<Step>, k: nat,
                           less: Ring, kid: Bytes, from: int, t: Instants, handle: string)
    requires GoodStore(s) && Run(s, lag, fleets, steps) && k < |fleets|
    requires Without(s.ring, less, kid) && Superseded(s.ring, kid, from)
    requires from <= t.handle && from <= t.payload && from + s.maxAge + lag - 1 <= t.row
    ensures var f := fleets[k];
            var a, b := Get(s, f.ledger, f.rows, t, handle), Get(s.(ring := less), f.ledger, f.rows, t, handle);
            a == b || (a.Err? && b.Err? && NoSession in a.wraps && NoSession in b.wraps)
  {
    InvAt(s, lag, fleets, steps, k);
    RetiredKeyIsNotMissed(s, fleets[k], lag, less, kid, from, t, handle);
  }

  // ----- why the lag counts -----

  /** A login that seals in the last instant of the key `kid` and inserts its
      row `lag` later. */
  datatype Late = Late(s: Store, kid: Bytes, from: int, lag: nat, h: Plaintext, p: RowPayload, d1: Draw, d2: Draw)

  ghost predicate GoodLate(x: Late) {
    && GoodStore(x.s) && SealingKey(x.s.ring, x.from - 1).Some? && SealingKey(x.s.ring, x.from - 1).value.kid == x.kid
    && |x.d1.nonce| == |x.d2.nonce| == NONCE_LENGTH && |x.d1.body| >= TAG_LENGTH && |x.d2.body| >= TAG_LENGTH
    && x.d1 != x.d2
  }

  function LateId(x: Late): RowId {
    x.s.rowOf(x.h)
  }

  function LateContents(x: Late): Plaintext {
    RowContents(PAYLOAD_V1, x.p.subject, Some(x.p.token), x.p.idToken)
  }

  function LateInsert(x: Late): Stmt {
    Create(LateId(x), x.p.subject, x.kid, Raw(KIND_PAYLOAD, x.kid, x.d2), 0, x.s.maxAge)
  }

  function LateSteps(x: Late): seq<Step> {
    [SealHandle(x.h, x.from - 1, x.d1), FirstPayload(LateId(x), x.p.subject, x.p.token, x.p.idToken, x.from - 1, x.d2),
     Insert(LateInsert(x), x.from - 1 + x.lag)]
  }

  function HandleSlot(x: Late): Slot {
    SlotFor(KIND_HANDLE, x.kid, HandleDomain(x.s), x.d1)
  }

  function RowSlot(x: Late): Slot {
    SlotFor(KIND_PAYLOAD, x.kid, RowDomain(x.s, LateId(x)), x.d2)
  }

  function LateFleets(x: Late): seq<Fleet> {
    var l1: Ledger<Plaintext> := map[HandleSlot(x) := Record(x.h, x.from - 1)];
    var l2 := l1[RowSlot(x) := Record(LateContents(x), x.from - 1)];
    var logins := map[LateId(x) := Identity(x.p.subject, x.p.idToken)];
    [Fleet(map[], map[], map[], map[]), Fleet(l1, map[], map[], map[]), Fleet(l2, map[], map[], logins),
     Fleet(l2, Apply(map[], x.from - 1 + x.lag, LateInsert(x)), map[LateId(x) := x.from - 1 + x.lag], logins)]
  }

  lemma LateSealsPayload(x: Late)
    requires GoodLate(x)
    ensures Enabled(x.s, LateFleets(x)[1], x.lag, LateSteps(x)[1])
    ensures Do(x.s, LateFleets(x)[1], LateSteps(x)[1]) == LateFleets(x)[2]
  {
    assert LateFleets(x)[2].logins == LateFleets(x)[1].logins[LateId(x) := Identity(x.p.subject, x.p.idToken)];
  }

  lemma LateInserts(x: Late)
    requires GoodLate(x)
    ensures Enabled(x.s, LateFleets(x)[2], x.lag, LateSteps(x)[2])
    ensures Do(x.s, LateFleets(x)[2], LateSteps(x)[2]) == LateFleets(x)[3]
  {
    assert LateFleets(x)[3].born == LateFleets(x)[2].born[LateId(x) := x.from - 1 + x.lag];
  }

  /** The bound is exact, whatever the store: a login in the last instant of a
      key leads to a live session that every replica without the key refuses
      one instant before the lag has passed as well as the maximum age. With a
      lag of two instants that is still so at the supersession plus the maximum
      session age. */
  lemma RetirementMustWaitOutTheLag(x: Late, less: Ring, t: int)
    returns (fleets: seq<Fleet>, steps: seq<Step>, handle: string)
    requires GoodLate(x) && Without(x.s.ring, less, x.kid) && Superseded(x.s.ring, x.kid, x.from)
    requires x.from <= t == x.from + x.s.maxAge + x.lag - 2
    ensures Run(x.s, x.lag, fleets, steps) && |fleets| > 0
    ensures var f := fleets[|fleets| - 1];
            && Get(x.s, f.ledger, f.rows, Instants(t, t, t), handle).Ok?
            && Get(x.s.(ring := less), f.ledger, f.rows, Instants(t, t, t), handle) == Err({NoSession, UnknownKey})
  {
    var s, id := x.s, LateId(x);
    fleets, steps := LateFleets(x), LateSteps(x);
    handle := s.codec.encode(Raw(KIND_HANDLE, x.kid, x.d1));
    assert Do(s, fleets[0], steps[0]) == fleets[1];
    LateSealsPayload(x);
    LateInserts(x);
    assert Run(s, x.lag, fleets, steps);
    LateLeaves(x);
    LateRow(x);
    LateAnswers(x, less, t, LateFleets(x)[3].ledger, LateFleets(x)[3].rows);
  }

  /** What the login left in the ledger. */
  ghost predicate LateLedger(x: Late, ledger: Ledger<Plaintext>) {
    && OneUse(ledger) && |x.kid| == COOKIE_KEY_ID_LENGTH
    && HandleSlot(x) in ledger && ledger[HandleSlot(x)].plain == x.h
    && RowSlot(x) in ledger && ledger[RowSlot(x)].plain == LateContents(x)
  }

  lemma LateLeaves(x: Late)
    requires GoodLate(x) && Run(x.s, x.lag, LateFleets(x), LateSteps(x))
    ensures LateLedger(x, LateFleets(x)[3].ledger)
  {
    InvAt(x.s, x.lag, LateFleets(x), LateSteps(x), 3);
    if HandleSlot(x) == RowSlot(x) {
      SlotsSeparate(KIND_HANDLE, x.kid, HandleDomain(x.s), x.d1, KIND_PAYLOAD, x.kid, RowDomain(x.s, LateId(x)), x.d2);
    }
  }

  lemma LateHandleOpens(x: Late, ring: Ring, ledger: Ledger<Plaintext>, t: int)
    requires GoodLate(x) && LateLedger(x, ledger) && SealingKey(ring, t).Some?
    ensures var r := RowIdOf(x.s.(ring := ring), ledger, t, x.s.codec.encode(Raw(KIND_HANDLE, x.kid, x.d1)));
            if x.kid in ring.keys then r.Ok? && r.value.id == LateId(x) else r == Err({NoSession, UnknownKey})
  {
    var hd := HandleDomain(x.s);
    OpensExactly(ring, t, ledger, KIND_HANDLE, hd, KIND_HANDLE, x.kid, hd, x.d1);
  }

  lemma LatePayloadOpens(x: Late, ledger: Ledger<Plaintext>, t: int)
    requires GoodLate(x) && LateLedger(x, ledger) && SealingKey(x.s.ring, t).Some? && x.kid in x.s.ring.keys
    ensures OpenPayload(x.s, ledger, t, LateId(x), Raw(KIND_PAYLOAD, x.kid, x.d2)).Ok?
  {
    var rd := RowDomain(x.s, LateId(x));
    OpensExactly(x.s.ring, t, ledger, KIND_PAYLOAD, rd, KIND_PAYLOAD, x.kid, rd, x.d2);
  }

  lemma LateRow(x: Late)
    ensures Lookup(LateFleets(x)[3].rows, LateId(x)) == Some(NewRow(LateInsert(x), x.from - 1 + x.lag))
  {
    assert LateFleets(x)[3].rows == Apply(map[], x.from - 1 + x.lag, LateInsert(x));
  }

  lemma GetOpens(s: Store, ledger: Ledger<Plaintext>, rows: Rows, t: Instants, handle: string, row: Row)
    requires RowIdOf(s, ledger, t.handle, handle).Ok?
    requires Lookup(rows, RowIdOf(s, ledger, t.handle, handle).value.id) == Some(row) && t.row < row.expiresAt
    requires OpenPayload(s, ledger, t.payload, RowIdOf(s, ledger, t.handle, handle).value.id, row.payload).Ok?
    ensures Get(s, ledger, rows, t, handle).Ok?
  {
  }

  lemma LateAnswers(x: Late, less: Ring, t: int, ledger: Ledger<Plaintext>, rows: Rows)
    requires GoodLate(x) && Without(x.s.ring, less, x.kid) && Superseded(x.s.ring, x.kid, x.from)
    requires LateLedger(x, ledger)
    requires Lookup(rows, LateId(x)) == Some(NewRow(LateInsert(x), x.from - 1 + x.lag))
    requires x.from <= t < x.from - 1 + x.lag + x.s.maxAge
    ensures var handle := x.s.codec.encode(Raw(KIND_HANDLE, x.kid, x.d1));
            && Get(x.s, ledger, rows, Instants(t, t, t), handle).Ok?
            && Get(x.s.(ring := less), ledger, rows, Instants(t, t, t), handle) == Err({NoSession, UnknownKey})
  {
    WithoutSealsAlike(x.s.ring, less, x.kid, x.from, t);
    SealerIsInRing(x.s.ring, x.from - 1);
    assert x.s.(ring := x.s.ring) == x.s;
    LateHandleOpens(x, x.s.ring, ledger, t);
    LateHandleOpens(x, less, ledger, t);
    LatePayloadOpens(x, ledger, t);
    var handle := x.s.codec.encode(Raw(KIND_HANDLE, x.kid, x.d1));
    GetOpens(x.s, ledger, rows, Instants(t, t, t), handle, NewRow(LateInsert(x), x.from - 1 + x.lag));
  }
}
