/** CookieTokenStore: the session sealed whole into the cookie value. */
module CookieStore {
  import opened Common
  import opened Keyring
  import opened Envelope
  import opened Vault

  datatype Store = Store(ring: Ring, name: Bytes, maxAge: int, codec: Codec)

  function SessionDomain(s: Store): Bytes {
    Domain(SessionCookie(s.name))
  }

  /** Opens a cookie value. The keyring reads the clock at `openAt`, the age
      check at `checkAt`. */
  function Get(s: Store, ledger: Ledger<Plaintext>, openAt: int, checkAt: int, handle: string): Result<StoredToken> {
    match s.codec.decode(handle)
    case None => Err({NoSession, NotSealed})
    case Some(raw) =>
      match Open(s.ring, openAt, ledger, KIND_PAYLOAD, SessionDomain(s), raw)
      case Failed(wraps) => Err({NoSession} + wraps)
      case Plain(p, _, current) =>
        if !p.Session? || p.version != PAYLOAD_V1 || p.token.None? then Err({NoSession})
        else if checkAt - p.issuedAt >= s.maxAge then Err({NoSession})
        else Ok(StoredToken(handle, p.subject, p.token, "", p.issuedAt, p.issuedAt + s.maxAge, !current))
  }

  datatype SealResult = Refused | Written(session: StoredToken, ledger: Ledger<Plaintext>)

  /** Seals a session into a new cookie value: every write of this store, Reseal
      included, comes down to this. */
  function Seal(s: Store, ledger: Ledger<Plaintext>, at: int, t: StoredToken, d: Draw): SealResult {
    if t.token.None? then Refused else
      match SealInto(s.ring, at, ledger, KIND_PAYLOAD, SessionDomain(s),
                     Session(PAYLOAD_V1, t.issuedAt, t.token, t.subject), d)
      case None => Refused
      case Some(sealed) =>
        Written(StoredToken(s.codec.encode(sealed.raw), t.subject, t.token, "", t.issuedAt, t.issuedAt + s.maxAge, false),
                sealed.ledger)
  }

  /** Re-sealing moves the handle and nothing else: the session keeps its token,
      and the new value opens as that session until it expires, stale only once
      the key it was sealed under no longer seals. */
  lemma ResealKeepsTheSession(s: Store, ledger: Ledger<Plaintext>, at: int, t: StoredToken, d: Draw, openAt: int, checkAt: int)
    requires ValidRing(s.ring) && WideIds(s.ring) && LeftInverse(s.codec)
    requires Honest(s.ring, ledger) && WellDrawn(ledger, d) && SealingKey(s.ring, openAt).Some?
    ensures Seal(s, ledger, at, t, d).Refused? <==> t.token.None? || SealingKey(s.ring, at).None?
    ensures Seal(s, ledger, at, t, d).Written? ==>
              var w := Seal(s, ledger, at, t, d);
              && w.session.token == t.token && t.token.Some?
              && w.session.subject == t.subject && w.session.issuedAt == t.issuedAt
              && Get(s, w.ledger, openAt, checkAt, w.session.handle)
                 == if checkAt >= t.issuedAt + s.maxAge then Err({NoSession})
                    else Ok(w.session.(stale := SealingKey(s.ring, at).value.kid != SealingKey(s.ring, openAt).value.kid))
  {
    var p := Session(PAYLOAD_V1, t.issuedAt, t.token, t.subject);
    if t.token.Some? && SealingKey(s.ring, at).Some? {
      SealKeepsHonest(s.ring, at, ledger, KIND_PAYLOAD, SessionDomain(s), p, d);
      SealerIsInRing(s.ring, at);
      var w, kid := Seal(s, ledger, at, t, d), SealingKey(s.ring, at).value.kid;
      OpensExactly(s.ring, openAt, w.ledger, KIND_PAYLOAD, SessionDomain(s), KIND_PAYLOAD, kid, SessionDomain(s), d);
    }
  }

  // ----- runs -----

  datatype Login = Login(issuedAt: int, subject: string)

  /** A session some write handed out, the login it descends from, and when it
      was sealed. */
  datatype Minted = Minted(session: StoredToken, login: nat, sealedAt: int)

  datatype Fleet = Fleet(ledger: Ledger<Plaintext>, minted: seq<Minted>, logins: seq<Login>)

  datatype Op =
    | Create(subject: string, token: Option<Token>, issuedAt: int, sealAt: int, d: Draw)
    | Update(i: nat, token: Option<Token>, openAt: int, checkAt: int, sealAt: int, d: Draw)
    | Refresh(i: nat, token: Option<Token>, sealAt: int, d: Draw)
    | Reseal(i: nat, sealAt: int, d: Draw)

  /** Clocks are read in program order, and a session is written again only
      after it was handed out. */
  ghost predicate Enabled(f: Fleet, op: Op) {
    && WellDrawn(f.ledger, op.d)
    && match op
       case Create(_, _, issuedAt, sealAt, _) => issuedAt <= sealAt
       case Update(i, _, openAt, checkAt, sealAt, _) =>
         i < |f.minted| && f.minted[i].sealedAt <= openAt <= checkAt <= sealAt
       case Refresh(i, _, sealAt, _) => i < |f.minted| && f.minted[i].sealedAt <= sealAt
       case Reseal(i, sealAt, _) => i < |f.minted| && f.minted[i].sealedAt <= sealAt
  }

  function Mint(f: Fleet, r: SealResult, login: nat, at: int): Fleet {
    match r
    case Refused => f
    case Written(session, ledger) => f.(ledger := ledger, minted := f.minted + [Minted(session, login, at)])
  }

  function Do(s: Store, f: Fleet, op: Op): Fleet
    requires op.Create? || op.i < |f.minted|
  {
    match op
    case Create(subject, token, issuedAt, sealAt, d) =>
      var t := StoredToken("", subject, token, "", issuedAt, 0, false);
      Mint(f.(logins := f.logins + [Login(issuedAt, subject)]), Seal(s, f.ledger, sealAt, t, d), |f.logins|, sealAt)
    case Update(i, token, openAt, checkAt, sealAt, d) =>
      if token.None? then f else
        (match Get(s, f.ledger, openAt, checkAt, f.minted[i].session.handle)
         case Err(_) => f
         case Ok(t) => Mint(f, Seal(s, f.ledger, sealAt, t.(token := token), d), f.minted[i].login, sealAt))
    case Refresh(i, token, sealAt, d) =>
      var t := f.minted[i].session;
      if token.None? then f else
        Mint(f, Seal(s, f.ledger, sealAt, StoredToken("", t.subject, token, "", t.issuedAt, 0, false), d),
             f.minted[i].login, sealAt)
    case Reseal(i, sealAt, d) =>
      Mint(f, Seal(s, f.ledger, sealAt, f.minted[i].session, d), f.minted[i].login, sealAt)
  }

  /** Every session handed out is the session its login began, and its handle
      is in the ledger as such. */
  ghost predicate Traced(s: Store, f: Fleet, i: nat)
    requires i < |f.minted|
  {
    var m := f.minted[i];
    && m.login < |f.logins| && f.logins[m.login].issuedAt <= m.sealedAt
    && m.session.issuedAt == f.logins[m.login].issuedAt && m.session.subject == f.logins[m.login].subject
    && m.session.expiresAt == m.session.issuedAt + s.maxAge && m.session.token.Some?
    && exists kid, d :: InLedger(s, f, m, kid, d)
  }

  predicate InLedger(s: Store, f: Fleet, m: Minted, kid: Bytes, d: Draw) {
    && m.session.handle == s.codec.encode(Raw(KIND_PAYLOAD, kid, d))
    && SlotFor(KIND_PAYLOAD, kid, SessionDomain(s), d) in f.ledger
    && f.ledger[SlotFor(KIND_PAYLOAD, kid, SessionDomain(s), d)]
       == Record(Session(PAYLOAD_V1, m.session.issuedAt, m.session.token, m.session.subject), m.sealedAt)
  }

  /** A session in the ledger began before it was sealed. */
  ghost predicate Ordered(s: Store, ledger: Ledger<Plaintext>) {
    forall kid, d | SlotFor(KIND_PAYLOAD, kid, SessionDomain(s), d) in ledger ::
      var e := ledger[SlotFor(KIND_PAYLOAD, kid, SessionDomain(s), d)]; e.plain.Session? ==> e.plain.issuedAt <= e.at
  }

  ghost predicate Inv(s: Store, f: Fleet) {
    && Honest(s.ring, f.ledger) && Ordered(s, f.ledger)
    && forall i | 0 <= i < |f.minted| :: Traced(s, f, i)
  }

  ghost predicate GoodStore(s: Store) {
    ValidRing(s.ring) && WideIds(s.ring) && LeftInverse(s.codec)
  }

  /** Whatever Get accepts, under any ring, was sealed for this cookie, as a
      session of this version with a token, and has not expired. */
  lemma AcceptedWasSealed(s: Store, ledger: Ledger<Plaintext>, openAt: int, checkAt: int, handle: string)
    requires Get(s, ledger, openAt, checkAt, handle).Ok?
    ensures var r := Get(s, ledger, openAt, checkAt, handle).value;
            && r.handle == handle && r.token.Some? && r.idToken == ""
            && r.expiresAt == r.issuedAt + s.maxAge && checkAt < r.expiresAt
            && exists kid, d ::
                 && s.codec.decode(handle) == Some(Raw(KIND_PAYLOAD, kid, d)) && kid in s.ring.keys
                 && SlotFor(KIND_PAYLOAD, kid, SessionDomain(s), d) in ledger
                 && ledger[SlotFor(KIND_PAYLOAD, kid, SessionDomain(s), d)].plain
                    == Session(PAYLOAD_V1, r.issuedAt, r.token, r.subject)
                 && (r.stale <==> kid != SealingKey(s.ring, openAt).value.kid)
  {
    NothingForged(s.ring, openAt, ledger, KIND_PAYLOAD, SessionDomain(s), s.codec.decode(handle).value);
  }

  /** What Get answers for a handle the fleet minted, under any ring: it is
      accepted exactly while its key is in the ring and the login's absolute
      expiry has not come, and then as the session of that login, carrying the
      token the handle was minted with, stale if its key no longer seals. */
  lemma MintedHandleOpensUntilExpiry(s: Store, f: Fleet, i: nat, ring: Ring, openAt: int, checkAt: int)
    requires GoodStore(s) && Inv(s, f) && i < |f.minted| && SealingKey(ring, openAt).Some?
    ensures f.minted[i].login < |f.logins| && SealingKey(s.ring, f.minted[i].sealedAt).Some?
    ensures var m, login := f.minted[i].session, f.logins[f.minted[i].login];
            var kid := SealingKey(s.ring, f.minted[i].sealedAt).value.kid;
            Get(s.(ring := ring), f.ledger, openAt, checkAt, m.handle)
            == if kid !in ring.keys then Err({NoSession, UnknownKey})
               else if checkAt >= login.issuedAt + s.maxAge then Err({NoSession})
               else Ok(StoredToken(m.handle, login.subject, m.token, "", login.issuedAt, login.issuedAt + s.maxAge,
                                   kid != SealingKey(ring, openAt).value.kid))
  {
    assert Traced(s, f, i);
    var m := f.minted[i];
    var kid, d :| InLedger(s, f, m, kid, d);
    assert HonestSlot(s.ring, SlotFor(KIND_PAYLOAD, kid, SessionDomain(s), d), m.sealedAt);
    OpensExactly(ring, openAt, f.ledger, KIND_PAYLOAD, SessionDomain(s), KIND_PAYLOAD, kid, SessionDomain(s), d);
  }

  lemma MintKeeps(s: Store, f: Fleet, t: StoredToken, login: nat, at: int, d: Draw)
    requires GoodStore(s) && Inv(s, f) && WellDrawn(f.ledger, d)
    requires login < |f.logins| && f.logins[login].issuedAt <= at
    requires t.issuedAt == f.logins[login].issuedAt && t.subject == f.logins[login].subject
    ensures Inv(s, Mint(f, Seal(s, f.ledger, at, t, d), login, at))
  {
    var p := Session(PAYLOAD_V1, t.issuedAt, t.token, t.subject);
    if t.token.Some? && SealInto(s.ring, at, f.ledger, KIND_PAYLOAD, SessionDomain(s), p, d).Some? {
      SealKeepsHonest(s.ring, at, f.ledger, KIND_PAYLOAD, SessionDomain(s), p, d);
      var kid := SealingKey(s.ring, at).value.kid;
      var g := Mint(f, Seal(s, f.ledger, at, t, d), login, at);
      assert InLedger(s, g, g.minted[|f.minted|], kid, d);
      assert Traced(s, g, |f.minted|);
      forall i | 0 <= i < |f.minted| ensures Traced(s, g, i) {
        assert Traced(s, f, i) && g.minted[i] == f.minted[i];
        var kid', d' :| InLedger(s, f, f.minted[i], kid', d');
        assert InLedger(s, g, g.minted[i], kid', d');
      }
      OrderedStays(s, f.ledger, at, p, d);
    }
  }

  lemma OrderedStays(s: Store, ledger: Ledger<Plaintext>, at: int, p: Plaintext, d: Draw)
    requires GoodStore(s) && Honest(s.ring, ledger) && Ordered(s, ledger) && WellDrawn(ledger, d)
    requires SealInto(s.ring, at, ledger, KIND_PAYLOAD, SessionDomain(s), p, d).Some?
    requires p.Session? && p.issuedAt <= at
    ensures Ordered(s, SealInto(s.ring, at, ledger, KIND_PAYLOAD, SessionDomain(s), p, d).value.ledger)
  {
  }

  lemma StepKeeps(s: Store, f: Fleet, op: Op)
    requires GoodStore(s) && Inv(s, f) && Enabled(f, op)
    ensures Inv(s, Do(s, f, op))
    ensures f.minted <= Do(s, f, op).minted && f.logins <= Do(s, f, op).logins
  {
    match op
    case Create(subject, token, issuedAt, sealAt, d) =>
      var g := f.(logins := f.logins + [Login(issuedAt, subject)]);
      forall i | 0 <= i < |g.minted| ensures Traced(s, g, i) {
        assert Traced(s, f, i);
        var kid', d' :| InLedger(s, f, f.minted[i], kid', d');
        assert InLedger(s, g, g.minted[i], kid', d');
      }
      MintKeeps(s, g, StoredToken("", subject, token, "", issuedAt, 0, false), |f.logins|, sealAt, d);
    case Update(i, token, openAt, checkAt, sealAt, d) =>
      assert Traced(s, f, i);
      var r := Get(s, f.ledger, openAt, checkAt, f.minted[i].session.handle);
      if token.Some? && r.Ok? {
        MintedHandleOpensUntilExpiry(s, f, i, s.ring, openAt, checkAt);
        assert s.(ring := s.ring) == s;
        MintKeeps(s, f, r.value.(token := token), f.minted[i].login, sealAt, d);
      }
    case Refresh(i, token, sealAt, d) =>
      assert Traced(s, f, i);
      var t := f.minted[i].session;
      MintKeeps(s, f, StoredToken("", t.subject, token, "", t.issuedAt, 0, false), f.minted[i].login, sealAt, d);
    case Reseal(i, sealAt, d) =>
      assert Traced(s, f, i);
      MintKeeps(s, f, f.minted[i].session, f.minted[i].login, sealAt, d);
  }

  /** The login an operation is for, and the token it is to put in the cookie:
      the one it was handed, or for Reseal the one the session has. */
  function LoginOf(f: Fleet, op: Op): nat
    requires op.Create? || op.i < |f.minted|
  {
    if op.Create? then |f.logins| else f.minted[op.i].login
  }

  function TokenFor(f: Fleet, op: Op): Option<Token>
    requires op.Create? || op.i < |f.minted|
  {
    if op.Reseal? then f.minted[op.i].session.token else op.token
  }

  ghost predicate IsRefused(s: Store, f: Fleet, op: Op)
    requires op.Create? || op.i < |f.minted|
  {
    || TokenFor(f, op).None? || SealingKey(s.ring, op.sealAt).None?
    || (op.Update? && Get(s, f.ledger, op.openAt, op.checkAt, f.minted[op.i].session.handle).Err?)
  }

  /** Every operation that is not refused hands out one session more, of the
      login it is for and with the token it was handed, and its cookie opens as
      that until the login's expiry. */
  lemma OpsMintWhatTheyAreGiven(s: Store, f: Fleet, op: Op, openAt: int, checkAt: int)
    requires GoodStore(s) && Inv(s, f) && Enabled(f, op) && SealingKey(s.ring, openAt).Some?
    ensures var g := Do(s, f, op);
            && g.logins == (if op.Create? then f.logins + [Login(op.issuedAt, op.subject)] else f.logins)
            && (IsRefused(s, f, op) ==> g.minted == f.minted)
            && (!IsRefused(s, f, op) ==>
                  && |g.minted| == |f.minted| + 1 && g.minted[..|f.minted|] == f.minted
                  && var m := g.minted[|f.minted|];
                  && m.login == LoginOf(f, op) && m.session.token == TokenFor(f, op) && m.sealedAt == op.sealAt
                  && m.login < |g.logins|
                  && var login := g.logins[m.login];
                  && var r := Get(s, g.ledger, openAt, checkAt, m.session.handle);
                  && (checkAt >= login.issuedAt + s.maxAge ==> r == Err({NoSession}))
                  && (checkAt < login.issuedAt + s.maxAge ==>
                        r.Ok? && r.value.token == TokenFor(f, op) && r.value.subject == login.subject))
  {
    StepKeeps(s, f, op);
    MintsOne(s, f, op);
    if !IsRefused(s, f, op) {
      var g := Do(s, f, op);
      MintedHandleOpensUntilExpiry(s, g, |f.minted|, s.ring, openAt, checkAt);
      SealerIsInRing(s.ring, op.sealAt);
      assert s.(ring := s.ring) == s;
    }
  }

  lemma MintsOne(s: Store, f: Fleet, op: Op)
    requires Enabled(f, op)
    ensures var g := Do(s, f, op);
            && g.logins == (if op.Create? then f.logins + [Login(op.issuedAt, op.subject)] else f.logins)
            && (IsRefused(s, f, op) ==> g.minted == f.minted)
            && (!IsRefused(s, f, op) ==>
                  && |g.minted| == |f.minted| + 1 && g.minted[..|f.minted|] == f.minted
                  && var m := g.minted[|f.minted|];
                  m.login == LoginOf(f, op) && m.session.token == TokenFor(f, op) && m.sealedAt == op.sealAt)
  {
  }

  ghost predicate Run(s: Store, fleets: seq<Fleet>, ops: seq<Op>) {
    && |fleets| == |ops| + 1
    && fleets[0].minted == [] && fleets[0].logins == []
    && Honest(s.ring, fleets[0].ledger) && Ordered(s, fleets[0].ledger)
    && forall k | 0 <= k < |ops| :: Enabled(fleets[k], ops[k]) && fleets[k + 1] == Do(s, fleets[k], ops[k])
  }

  lemma {:induction false} InvAt(s: Store, fleets: seq<Fleet>, ops: seq<Op>, k: nat)
    requires GoodStore(s) && Run(s, fleets, ops) && k < |fleets|
    ensures Inv(s, fleets[k])
  {
    if k > 0 {
      InvAt(s, fleets, ops, k - 1);
      StepKeeps(s, fleets[k - 1], ops[k - 1]);
      assert fleets[k] == Do(s, fleets[k - 1], ops[k - 1]);
    }
  }

  /** Absolute expiry over any chain of Create, Update, Refresh and Reseal: the
      issued-at and the subject of every descendant are those of the login, and
      no ring accepts its handle at or past the login plus the maximum age. */
  lemma AbsoluteExpiry(s: Store, fleets: seq<Fleet>, ops: seq<Op>, k: nat, i: nat, ring: Ring, openAt: int, checkAt: int)
    requires GoodStore(s) && Run(s, fleets, ops) && k < |fleets| && i < |fleets[k].minted|
    requires SealingKey(ring, openAt).Some?
    ensures var f := fleets[k]; var m := f.minted[i];
            && m.login < |f.logins|
            && m.session.issuedAt == f.logins[m.login].issuedAt && m.session.subject == f.logins[m.login].subject
            && m.session.expiresAt == f.logins[m.login].issuedAt + s.maxAge
            && (checkAt >= f.logins[m.login].issuedAt + s.maxAge ==>
                  var r := Get(s.(ring := ring), f.ledger, openAt, checkAt, m.session.handle);
                  r.Err? && NoSession in r.wraps)
  {
    InvAt(s, fleets, ops, k);
    assert Traced(s, fleets[k], i);
    MintedHandleOpensUntilExpiry(s, fleets[k], i, ring, openAt, checkAt);
  }

  lemma RetiredKeyIsNotMissed(s: Store, f: Fleet, less: Ring, kid: Bytes, from: int, openAt: int, checkAt: int, handle: string)
    requires GoodStore(s) && Inv(s, f)
    requires Without(s.ring, less, kid) && Superseded(s.ring, kid, from)
    requires from <= openAt <= checkAt && from + s.maxAge <= checkAt
    ensures var a, b := Get(s, f.ledger, openAt, checkAt, handle), Get(s.(ring := less), f.ledger, openAt, checkAt, handle);
            a == b || (a.Err? && b.Err? && NoSession in a.wraps && NoSession in b.wraps)
  {
    if s.codec.decode(handle).Some? {
      var raw := s.codec.decode(handle).value;
      WithoutOpensAlike(s.ring, less, kid, from, openAt, f.ledger, KIND_PAYLOAD, SessionDomain(s), raw);
    }
  }

  /** Key retirement is safe, after every run: once a key has been superseded
      for the maximum session age, dropping it changes no answer to any cookie
      value, except in how a refusal is worded. */
  lemma RetiringAKeyIsSafe(s: Store, fleets: seq<Fleet>, ops: seq<Op>, k: nat,
                           less: Ring, kid: Bytes, from: int, openAt: int, checkAt: int, handle: string)
    requires GoodStore(s) && Run(s, fleets, ops) && k < |fleets|
    requires Without(s.ring, less, kid) && Superseded(s.ring, kid, from)
    requires from <= openAt <= checkAt && from + s.maxAge <= checkAt
    ensures var f := fleets[k];
            var a, b := Get(s, f.ledger, openAt, checkAt, handle), Get(s.(ring := less), f.ledger, openAt, checkAt, handle);
            a == b || (a.Err? && b.Err? && NoSession in a.wraps && NoSession in b.wraps)
  {
    InvAt(s, fleets, ops, k);
    RetiredKeyIsNotMissed(s, fleets[k], less, kid, from, openAt, checkAt, handle);
  }
}
