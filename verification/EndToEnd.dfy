/** The request side over the Postgres store: only a session that is over
    loses its cookie. */
module EndToEnd {
  import opened Common
  import opened SessionRows
  import opened RowHistory
  import opened RefreshWorld
  import opened StoreConf
  import opened RefreshLoop
  import opened RefreshMeaning
  import opened RequestAuth

  /** The store as this replica runs it. `name` opens a cookie value into the
      id of the row it names and whether its key is the current one. */
  datatype Site = Site(
    conf: Conf,
    sealer: Sealer,
    name: string -> Result<(RowId, bool)>,
    reseal: StoredToken -> Result<StoredToken>,
    cookieName: string,
    verify: string -> bool)

  function CallOn(site: Site, id: RowId, t: StoredToken): Call {
    Call(id, t, site.conf, site.sealer)
  }

  /** Store.Get. */
  function StoreGet(env: Env, site: Site, w: World, handle: string): (World, Result<StoredToken>) {
    match site.name(handle)
    case Err(e) => (w, Err(e))
    case Ok((id, current)) =>
      var o := DoStmt(env, w, id, Get(id));
      if o.failed then (o.w, Err({}))
      else if o.row.None? || o.row.value.expiresAt <= o.w.now then (o.w, Err({NoSession}))
      else
        match site.sealer.open(id, o.row.value.payload)
        case None => (o.w, Err({NoSession}))
        case Some(p) => (o.w, Ok(StoredToken(handle, p.subject, Some(p.token), p.idToken,
                                             o.row.value.createdAt, o.row.value.expiresAt, !current)))
  }

  /** The session is the row, opened, under the handle given; it is stale
      exactly if the handle came in under a key that no longer seals. */
  predicate IsSession(site: Site, id: RowId, row: Row, handle: string, current: bool, s: StoredToken) {
    && site.sealer.open(id, row.payload).Some?
    && var p := site.sealer.open(id, row.payload).value;
    && s.handle == handle && s.token == Some(p.token) && s.subject == p.subject && s.idToken == p.idToken
    && s.issuedAt == row.createdAt && s.expiresAt == row.expiresAt && (s.stale <==> !current)
  }

  /** What Get answers: the row it read, if that had not expired and opened,
      and else that there is no session, or that the read errored. */
  lemma GetKeeps(env: Env, site: Site, w: World, handle: string)
    requires site.name(handle).Ok? && Consistent(w, site.name(handle).value.0)
    ensures var (v, r), id := StoreGet(env, site, w, handle), site.name(handle).value.0;
            && Consistent(v, id) && Later(w, v, id)
            && (r.Ok? ==>
                  && id in v.rows && v.now < v.rows[id].expiresAt
                  && IsSession(site, id, v.rows[id], handle, site.name(handle).value.1, r.value))
            && (r.Err? ==> r.wraps == {NoSession} || (r.wraps == {} && v.turn > 0 && !env.turns(v.turn - 1).fault.Fine?))
            && (r.Err? && NoSession in r.wraps ==>
                  id !in v.rows || v.rows[id].expiresAt <= v.now || site.sealer.open(id, v.rows[id].payload).None?)
            && (r.Err? && SessionGone(r.wraps) ==> forall t :: SessionOver(CallOn(site, id, t), |w.log|, v))
  {
    var id := site.name(handle).value.0;
    StmtKeeps(env, w, id, Get(id));
    var o := DoStmt(env, w, id, Get(id));
    if !o.failed {
      forall t ensures StoreGet(env, site, w, handle).1.Err? ==> SessionOver(CallOn(site, id, t), |w.log|, o.w) {
        var k, x := |o.w.log| - 1, CallOn(site, id, t);
        assert RowIn(x, o.w, k) == o.row;
        assert StoreGet(env, site, w, handle).1.Err? ==> SessionOverAt(x, o.w, k);
      }
    }
  }

  /** The request as the store answers it: Get, and Refresh of what Get found. */
  ghost function AuthOver(env: Env, site: Site, w: World, handle: string): Auth
    requires site.name(handle).Ok? ==> Consistent(w, site.name(handle).value.0)
  {
    var g := StoreGet(env, site, w, handle);
    var refreshed: Result<Option<StoredToken>> :=
      if g.1.Err? then Err({}) else Lift(RefreshAfter(env, site, w, handle).1);
    Auth(site.cookieName, Store(_ => g.1, _ => refreshed, site.reseal), site.verify)
  }

  function Lift(r: Result<StoredToken>): Result<Option<StoredToken>> {
    match r
    case Ok(s) => Ok(Some(s))
    case Err(e) => Err(e)
  }

  /** Store.Refresh on the session Get found: the handle names the row again. */
  ghost function RefreshAfter(env: Env, site: Site, w: World, handle: string): (World, Result<StoredToken>)
    requires site.name(handle).Ok? && Consistent(w, site.name(handle).value.0)
    requires StoreGet(env, site, w, handle).1.Ok?
  {
    GetKeeps(env, site, w, handle);
    var g := StoreGet(env, site, w, handle);
    Refresh(env, CallOn(site, site.name(handle).value.0, g.1.value), g.0)
  }

  /** exchangeToken wraps every refusal in ErrRefreshRejected, and no provider
      error wraps ErrNoSession. */
  ghost predicate HowdahExchange(env: Env) {
    forall q, tok :: ProperRefusal(env.exchange(q, tok))
  }

  predicate ProperRefusal(a: Answer) {
    a.Refused? ==> RefreshRejected in a.wraps && NoSession !in a.wraps
  }

  /** Why a session may be over, in the history that a request leaves behind
      which began after `from` events and whose refresh first read at `h`. */
  ghost predicate Over(env: Env, x: Call, from: nat, h: nat, w: World) {
    SessionOver(x, from, w) || FailureSeen(x, h, w) || OwnRefusal(env, x, from, w, RefreshRejected)
  }

  lemma OverFromEarlier(env: Env, x: Call, a: nat, b: nat, h: nat, w: World)
    requires a <= b && Over(env, x, b, h, w)
    ensures Over(env, x, a, h, w)
  {
  }

  /** A refresh that ends the session ends it for one of those reasons. */
  lemma RefreshGoneMeansOver(env: Env, x: Call, w: World)
    requires Faithful(x.sealer) && Consistent(w, x.id) && HowdahExchange(env)
    requires Refresh(env, x, w).1.Err? && SessionGone(Refresh(env, x, w).1.wraps)
    ensures Over(env, x, |w.log|, FirstReadOf(env, w), Refresh(env, x, w).0)
  {
    RefreshMeansWhatItSays(env, x, w);
    RefusalIsNotNoSession(env, x, |w.log|, Refresh(env, x, w).0);
  }

  lemma RefusalIsNotNoSession(env: Env, x: Call, from: nat, w: World)
    requires HowdahExchange(env)
    ensures !OwnRefusal(env, x, from, w, NoSession)
  {
    assert forall q, tok :: ProperRefusal(env.exchange(q, tok));
  }

  /** A refresh does not move the handle. */
  lemma RefreshKeepsTheHandle(env: Env, x: Call, w: World)
    requires Faithful(x.sealer) && Consistent(w, x.id)
    ensures Refresh(env, x, w).1.Ok? ==> Refresh(env, x, w).1.value.handle == x.t.handle
  {
    RefreshMeansWhatItSays(env, x, w);
  }

  /** What a cleared cookie tells of a store that found the session: its
      refresh ended it, or moved it to a handle that cannot be set. */
  lemma ClearedAfterGet(a: Auth, handle: string, now: int)
    requires Resolve(a, Some(handle), now).cookies == [Clear]
    requires a.store.get(handle).Ok?
    ensures var session := a.store.get(handle).value;
            || session.token.None?
            || (match a.store.refresh(session)
                case Err(e) => SessionGone(e)
                case Ok(None) => true
                case Ok(Some(refreshed)) =>
                  || refreshed.token.None?
                  || (session.stale && a.store.reseal(refreshed).Ok? && !Fits(a, a.store.reseal(refreshed).value))
                  || refreshed.handle != session.handle)
  {
    CookieDiscipline(a, Some(handle), now);
  }

  lemma ClearedWithoutGet(a: Auth, handle: string, now: int)
    requires Resolve(a, Some(handle), now).cookies == [Clear]
    requires a.store.get(handle).Err?
    ensures SessionGone(a.store.get(handle).wraps)
  {
  }

  lemma RefreshYieldsAToken(env: Env, x: Call, w: World)
    requires Faithful(x.sealer) && Consistent(w, x.id)
    ensures Refresh(env, x, w).1.Ok? ==> Refresh(env, x, w).1.value.token.Some?
  {
    RefreshMeansWhatItSays(env, x, w);
  }

  /** What the refresh of a session that Get found makes of its cookie. */
  ghost predicate LostAfterGet(env: Env, site: Site, w: World, handle: string)
    requires site.name(handle).Ok? && Consistent(w, site.name(handle).value.0)
    requires StoreGet(env, site, w, handle).1.Ok?
  {
    var g, r := StoreGet(env, site, w, handle), RefreshAfter(env, site, w, handle);
    var session := g.1.value;
    || Over(env, CallOn(site, site.name(handle).value.0, session), |w.log|, FirstReadOf(env, g.0), r.0)
    || (session.stale && r.1.Ok? && site.reseal(r.1.value).Ok?
        && !Fits(AuthOver(env, site, w, handle), site.reseal(r.1.value).value))
  }

  lemma RefreshEndsIt(env: Env, site: Site, w: World, handle: string)
    requires Faithful(site.sealer) && HowdahExchange(env)
    requires site.name(handle).Ok? && Consistent(w, site.name(handle).value.0)
    requires StoreGet(env, site, w, handle).1.Ok?
    requires RefreshAfter(env, site, w, handle).1.Err? && SessionGone(RefreshAfter(env, site, w, handle).1.wraps)
    ensures LostAfterGet(env, site, w, handle)
  {
    var g := StoreGet(env, site, w, handle);
    GetKeeps(env, site, w, handle);
    var x := CallOn(site, site.name(handle).value.0, g.1.value);
    RefreshGoneMeansOver(env, x, g.0);
    OverFromEarlier(env, x, |w.log|, |g.0.log|, FirstReadOf(env, g.0), RefreshAfter(env, site, w, handle).0);
  }

  /** End to end: if a request's session cookie is cleared, its value names no
      row this replica's keyring can open, or the row was missing, expired or
      sealed shut at an instant of the request, or the provider refused an
      exchange on behalf of an attempt that owned the lease when it recorded
      the refusal (or could not record it), or the handle came in under a
      retiring key and its re-sealed form is too large to set. A timeout, a
      lost lease, a cancelled wait and a read error are none of these, and
      leave the cookie alone. */
  lemma OnlyADeadSessionLosesItsCookie(env: Env, site: Site, w: World, handle: string, now: int)
    requires Faithful(site.sealer) && HowdahExchange(env)
    requires site.name(handle).Ok? ==> Consistent(w, site.name(handle).value.0)
    requires Resolve(AuthOver(env, site, w, handle), Some(handle), now).cookies == [Clear]
    ensures site.name(handle).Ok? ==>
              var id, g := site.name(handle).value.0, StoreGet(env, site, w, handle);
              if g.1.Err? then forall t :: SessionOver(CallOn(site, id, t), |w.log|, g.0)
              else LostAfterGet(env, site, w, handle)
  {
    var a := AuthOver(env, site, w, handle);
    if site.name(handle).Ok? {
      GetKeeps(env, site, w, handle);
      var g := StoreGet(env, site, w, handle);
      if g.1.Err? {
        ClearedWithoutGet(a, handle, now);
      } else {
        ClearedAfterGet(a, handle, now);
        var x, r := CallOn(site, site.name(handle).value.0, g.1.value), RefreshAfter(env, site, w, handle);
        if r.1.Err? {
          RefreshEndsIt(env, site, w, handle);
        } else {
          RefreshKeepsTheHandle(env, x, g.0);
          RefreshYieldsAToken(env, x, g.0);
        }
      }
    }
  }

  // ----- logging out -----

  /** Store.Update; `draw` stands for the randomness of the seal. */
  function StoreUpdate(env: Env, site: Site, w: World, handle: string, tok: Option<Token>, draw: nat)
    : (World, Result<StoredToken>)
  {
    var g := StoreGet(env, site, w, handle);
    if tok.None? then (w, Err({}))
    else if g.1.Err? then g
    else
      var id, session := site.name(handle).value.0, g.1.value;
      match site.sealer.seal(draw, id, RowPayload(session.subject, tok.value, session.idToken))
      case None => (g.0, Err({}))
      case Some((sealed, kid)) =>
        var o := DoStmt(env, g.0, id, Update(id, kid, sealed, tok.value.expiry));
        if o.failed then (o.w, Err({}))
        else if !o.landed then (o.w, Err({NoSession}))
        else (o.w, Ok(session.(token := tok)))
  }

  /** An Update that answered left a row that opens as the session with the
      token it was given, with no lease and no failure marker on it, and
      answered that session; if the row went meanwhile there is no session. */
  lemma UpdateWritesTheToken(env: Env, site: Site, w: World, handle: string, tok: Token, draw: nat)
    requires Faithful(site.sealer) && site.name(handle).Ok? && Consistent(w, site.name(handle).value.0)
    ensures var (v, r), id := StoreUpdate(env, site, w, handle, Some(tok), draw), site.name(handle).value.0;
            && Consistent(v, id) && Later(w, v, id)
            && (r.Ok? ==>
                  && id in v.rows && site.sealer.open(id, v.rows[id].payload).Some?
                  && site.sealer.open(id, v.rows[id].payload).value.token == tok && v.rows[id].accessExpiresAt == tok.expiry
                  && v.rows[id].refreshedAt == v.now && v.rows[id].leaseUntil.None? && v.rows[id].leaseNonce.None?
                  && v.rows[id].failedAt.None?
                  && IsSession(site, id, v.rows[id], handle, site.name(handle).value.1, r.value))
            && (r.Err? ==> SessionGone(r.wraps) || r.wraps == {})
  {
    GetKeeps(env, site, w, handle);
    var g, id := StoreGet(env, site, w, handle), site.name(handle).value.0;
    if g.1.Ok? {
      var p := RowPayload(g.1.value.subject, tok, g.1.value.idToken);
      if site.sealer.seal(draw, id, p).Some? {
        var (sealed, kid) := site.sealer.seal(draw, id, p).value;
        UpdateLands(env, g.0, id, kid, sealed, tok.expiry);
        LaterTransitive(w, g.0, DoStmt(env, g.0, id, Update(id, kid, sealed, tok.expiry)).w, id);
      }
    }
  }

  lemma UpdateLands(env: Env, w: World, id: RowId, kid: Bytes, sealed: Bytes, accessExpiresAt: int)
    requires Consistent(w, id)
    ensures var o := DoStmt(env, w, id, Update(id, kid, sealed, accessExpiresAt));
            && Consistent(o.w, id) && Later(w, o.w, id)
            && (!o.failed && o.landed ==>
                  && id in w.rows && id in o.w.rows
                  && o.w.rows[id] == Row(o.w.rows[id].subject, kid, sealed, accessExpiresAt, None, None, None, o.w.now,
                                         w.rows[id].createdAt, w.rows[id].expiresAt))
            && (!o.failed ==> (o.landed <==> id in o.w.rows))
  {
    var s := Update(id, kid, sealed, accessExpiresAt);
    StmtKeeps(env, w, id, s);
    var o := DoStmt(env, w, id, s);
    if !o.failed {
      assert Lookup(o.w.rows, id) == StepRow(Lookup(Elapse(env, w, 0).rows, id), id, o.w.now, s);
    }
  }

  /** Store.Delete: a handle that names no row is not an error. */
  function StoreDelete(env: Env, site: Site, w: World, handle: string): (World, Result<()>) {
    match site.name(handle)
    case Err(e) => (w, if NoSession in e then Ok(()) else Err(e))
    case Ok((id, _)) =>
      var o := DoStmt(env, w, id, Delete(id));
      (o.w, if o.failed then Err({}) else Ok(()))
  }

  lemma DeleteRemoves(env: Env, site: Site, w: World, handle: string)
    requires site.name(handle).Ok? && Consistent(w, site.name(handle).value.0)
    ensures var d, id := StoreDelete(env, site, w, handle), site.name(handle).value.0;
            && Consistent(d.0, id) && Later(w, d.0, id)
            && (d.1.Ok? ==> id !in d.0.rows)
            && (d.1.Err? ==> d.1.wraps == {} && !env.turns(w.turn).fault.Fine?)
  {
    var id := site.name(handle).value.0;
    StmtKeeps(env, w, id, Delete(id));
    var o := DoStmt(env, w, id, Delete(id));
    if !o.failed {
      assert Lookup(o.w.rows, id) == StepRow(Lookup(Elapse(env, w, 0).rows, id), id, o.w.now, Delete(id));
    }
  }

  /** Deleting by a value that opens to nothing succeeds and changes nothing:
      there is no row it could name. */
  lemma DeleteOfNothing(env: Env, site: Site, w: World, handle: string)
    requires site.name(handle).Err?
    ensures StoreDelete(env, site, w, handle) ==
            (w, if NoSession in site.name(handle).wraps then Ok(()) else Err(site.name(handle).wraps))
  {
  }

  /** No session, or a statement that errored. */
  ghost predicate Refuses<T>(env: Env, a: (World, Result<T>)) {
    || a.1 == Err({NoSession})
    || (a.1 == Err({}) && a.0.turn > 0 && !env.turns(a.0.turn - 1).fault.Fine?)
  }

  lemma GoneIsRefused(env: Env, site: Site, w: World, handle: string)
    requires site.name(handle).Ok? && Consistent(w, site.name(handle).value.0) && site.name(handle).value.0 !in w.rows
    ensures var g := StoreGet(env, site, w, handle);
            Refuses(env, g) && site.name(handle).value.0 !in g.0.rows
  {
    var id := site.name(handle).value.0;
    StmtKeeps(env, w, id, Get(id));
  }

  /** Logout is a revocation: once Delete has answered, on any replica and
      with any refresh in flight, every later Get, Update or Refresh by any
      handle that names the row is refused, and none brings the row back. */
  lemma LogoutIsFinal(env: Env, site: Site, w: World, handle: string,
                      env': Env, site': Site, v: World, handle': string, tok: Token, draw: nat, t: StoredToken)
    requires site.name(handle).Ok? && site'.name(handle').Ok?
    requires site'.name(handle').value.0 == site.name(handle).value.0
    requires Consistent(w, site.name(handle).value.0) && Consistent(v, site.name(handle).value.0)
    requires StoreDelete(env, site, w, handle).1.Ok?
    requires Later(StoreDelete(env, site, w, handle).0, v, site.name(handle).value.0)
    ensures var id := site.name(handle).value.0;
            var get, update, refresh := StoreGet(env', site', v, handle'),
                                        StoreUpdate(env', site', v, handle', Some(tok), draw),
                                        Refresh(env', CallOn(site', id, t), v);
            && Refuses(env', get) && Refuses(env', update) && Refuses(env', refresh)
            && id !in get.0.rows && id !in update.0.rows && id !in refresh.0.rows
  {
    DeleteRemoves(env, site, w, handle);
    GoneIsRefused(env', site', v, handle');
    RevokedSessionIsNotRefreshed(env', CallOn(site', site.name(handle).value.0, t), v);
  }
}
