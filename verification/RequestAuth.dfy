/** The request side: resolving the session cookie through an arbitrary store,
    refreshing it near expiry, and deciding which Set-Cookie the response
    carries. */
module RequestAuth {
  import opened Common
  import opened StoreConf

  const TOKEN_REFRESH_MARGIN := 10 * SECOND
  const COOKIE_SIZE_LIMIT := 4096
  const COOKIE_ATTRIBUTE_BUDGET := 120

  /** What the store answers this request: any store that hands back a session
      whenever Get or Reseal reports no error. Refresh may hand back nothing,
      and any session may lack its token. */
  datatype Store = Store(
    get: string -> Result<StoredToken>,
    refresh: StoredToken -> Result<Option<StoredToken>>,
    reseal: StoredToken -> Result<StoredToken>)

  datatype Auth = Auth(cookieName: string, store: Store, verify: string -> bool)

  datatype SetCookie = Put(value: string, expires: int) | Clear

  /** The failure means the session itself is over. */
  predicate SessionGone(e: Error) {
    NoSession in e || RefreshRejected in e
  }

  /** The session cookies a response carries, in the order they were written. */
  class Response {
    var cookies: seq<SetCookie>

    constructor ()
      ensures cookies == []
    {
      cookies := [];
    }

    method Set(c: SetCookie)
      modifies this
      ensures cookies == old(cookies) + [c]
    {
      cookies := cookies + [c];
    }
  }

  // ----- what is written -----

  /** The cookies a step writes, and what it comes to. */
  datatype Written<+T> = Written(cookies: seq<SetCookie>, result: Result<T>)

  predicate Fits(a: Auth, session: StoredToken) {
    |session.handle| + |a.cookieName| + COOKIE_ATTRIBUTE_BUDGET <= COOKIE_SIZE_LIMIT
  }

  function Reject<T>(e: Error): Written<T> {
    Written(if SessionGone(e) then [Clear] else [], Err(e))
  }

  function ReadCookie(a: Auth, cookie: Option<string>): (w: Written<StoredToken>)
    ensures w.result.Ok? ==> w.result.value.token.Some?
  {
    match cookie
    case None => Written([], Err({NoSession}))
    case Some(value) =>
      match a.store.get(value)
      case Err(e) => Reject(e)
      case Ok(session) => if session.token.None? then Reject({NoSession}) else Written([], Ok(session))
  }

  /** The session with a new handle, or the one given if that fails. */
  function Resealed(a: Auth, session: StoredToken): StoredToken {
    match a.store.reseal(session)
    case Err(_) => session
    case Ok(s) => s
  }

  function CheckExpiry(a: Auth, session: StoredToken, now: int): Written<Option<Token>>
    requires session.token.Some?
  {
    if session.token.value.expiry - now > TOKEN_REFRESH_MARGIN then
      var moved := if session.stale then Resealed(a, session) else session;
      Written(if moved.handle != session.handle && Fits(a, moved) then [Put(moved.handle, moved.expiresAt)] else [],
              Ok(session.token))
    else
      match a.store.refresh(session)
      case Err(e) => Written([], Err(e))
      case Ok(None) => Written([], Err({NoSession}))
      case Ok(Some(refreshed)) =>
        if refreshed.token.None? then Written([], Err({NoSession})) else
          var moved := if session.stale then Resealed(a, refreshed) else refreshed;
          if moved.handle == session.handle then Written([], Ok(moved.token))
          else if Fits(a, moved) then Written([Put(moved.handle, moved.expiresAt)], Ok(moved.token))
          else Written([], Err({NoSession}))
  }

  /** What all three entry points do to the cookie: read it, check it, and
      clear it if what failed was the session. */
  function Resolve(a: Auth, cookie: Option<string>, now: int): Written<Option<Token>> {
    var read := ReadCookie(a, cookie);
    match read.result
    case Err(e) => Written(read.cookies, Err(e))
    case Ok(session) =>
      var checked := CheckExpiry(a, session, now);
      match checked.result
      case Err(e) => Written(read.cookies + checked.cookies + if SessionGone(e) then [Clear] else [], Err(e))
      case Ok(token) => Written(read.cookies + checked.cookies, Ok(token))
  }

  /** Cookie discipline: at most one session Set-Cookie; it is a clearing
      exactly when the request carried a cookie and its session is over; and a
      value that is put is a handle the store moved to, and fits. */
  lemma CookieDiscipline(a: Auth, cookie: Option<string>, now: int)
    ensures var w := Resolve(a, cookie, now);
            && |w.cookies| <= 1
            && (w.cookies == [Clear] <==>
                  cookie.Some? && w.result.Err? && (NoSession in w.result.wraps || RefreshRejected in w.result.wraps))
            && (w.result.Err? && w.cookies != [] ==> w.cookies == [Clear])
            && (|w.cookies| == 1 && w.cookies[0].Put? ==>
                  && cookie.Some? && w.cookies[0].value != a.store.get(cookie.value).value.handle
                  && |w.cookies[0].value| + |a.cookieName| + COOKIE_ATTRIBUTE_BUDGET <= COOKIE_SIZE_LIMIT)
  {
    var w := Resolve(a, cookie, now);
    assert |w.cookies| <= 1;
    assert w.cookies != [] ==> w.cookies == [w.cookies[0]];
  }

  /** What a request carries away that brings no session: the reason, and a
      cleared cookie if it brought one and the session is over. */
  lemma NoSessionToGoOnWith(a: Auth, cookie: Option<string>, now: int)
    ensures var w := Resolve(a, cookie, now);
            match cookie
            case None => w == Written([], Err({NoSession}))
            case Some(value) =>
              match a.store.get(value)
              case Err(e) => w == Written(if NoSession in e || RefreshRejected in e then [Clear] else [], Err(e))
              case Ok(session) => session.token.None? ==> w == Written([Clear], Err({NoSession}))
  {
  }

  /** A session whose token has more than ten seconds left goes on with the
      store's token. Its cookie is replaced exactly if it came in under a
      retiring key and the store re-sealed it into another handle that fits. */
  lemma FreshSessionGoesOn(a: Auth, value: string, session: StoredToken, now: int)
    requires a.store.get(value) == Ok(session) && session.token.Some?
    requires session.token.value.expiry - now > 10 * SECOND
    ensures var w := Resolve(a, Some(value), now);
            && w.result == Ok(session.token)
            && (w.cookies != [] <==>
                  && session.stale && a.store.reseal(session).Ok?
                  && a.store.reseal(session).value.handle != session.handle
                  && |a.store.reseal(session).value.handle| + |a.cookieName| + 120 <= 4096)
            && (w.cookies != [] ==>
                  w.cookies == [Put(a.store.reseal(session).value.handle, a.store.reseal(session).value.expiresAt)])
  {
  }

  /** The session a refreshed one goes on as: re-sealed if the request's was
      under a retiring key and the store can, else as it is. */
  ghost predicate GoesOnAs(a: Auth, session: StoredToken, refreshed: StoredToken, on: StoredToken) {
    if session.stale && a.store.reseal(refreshed).Ok? then on == a.store.reseal(refreshed).value else on == refreshed
  }

  /** A session with no more than that left goes on as what the store's Refresh
      made of it, with that one's token. If its handle moved, the cookie is
      replaced by the new handle until the new expiry, or, if that cannot be set,
      the request ends without a session. */
  lemma RefreshedSessionGoesOn(a: Auth, value: string, session: StoredToken, refreshed: StoredToken, on: StoredToken, now: int)
    requires a.store.get(value) == Ok(session) && session.token.Some?
    requires session.token.value.expiry - now <= 10 * SECOND
    requires a.store.refresh(session) == Ok(Some(refreshed)) && refreshed.token.Some? && GoesOnAs(a, session, refreshed, on)
    ensures var w := Resolve(a, Some(value), now);
            if on.handle == session.handle then w == Written([], Ok(on.token))
            else if |on.handle| + |a.cookieName| + 120 <= 4096 then w == Written([Put(on.handle, on.expiresAt)], Ok(on.token))
            else w == Written([Clear], Err({NoSession}))
  {
  }

  /** A refresh that fails fails the request the same way, and one that hands
      back nothing, or no token, leaves no session. */
  lemma FailedRefreshGoesNowhere(a: Auth, value: string, session: StoredToken, now: int)
    requires a.store.get(value) == Ok(session) && session.token.Some?
    requires session.token.value.expiry - now <= 10 * SECOND
    ensures var w := Resolve(a, Some(value), now);
            match a.store.refresh(session)
            case Err(e) => w == Written(if NoSession in e || RefreshRejected in e then [Clear] else [], Err(e))
            case Ok(None) => w == Written([Clear], Err({NoSession}))
            case Ok(Some(refreshed)) => refreshed.token.None? ==> w == Written([Clear], Err({NoSession}))
  {
  }

  /** The session cookie a browser holds after the response. */
  function InBrowser(cookie: string, cookies: seq<SetCookie>): Option<string> {
    if cookies == [] then Some(cookie)
    else match cookies[|cookies| - 1] case Put(value, _) => Some(value) case Clear => None
  }

  /** No refreshed session is lost on the way: whoever goes on with one leaves
      its handle in the browser. */
  lemma BrowserKeepsUp(a: Auth, session: StoredToken, refreshed: StoredToken, on: StoredToken, now: int)
    requires a.store.get(session.handle) == Ok(session) && session.token.Some?
    requires session.token.value.expiry - now <= 10 * SECOND
    requires a.store.refresh(session) == Ok(Some(refreshed)) && refreshed.token.Some? && GoesOnAs(a, session, refreshed, on)
    ensures var w := Resolve(a, Some(session.handle), now);
            InBrowser(session.handle, w.cookies) == if w.result.Ok? then Some(on.handle) else None
  {
    RefreshedSessionGoesOn(a, session.handle, session, refreshed, on, now);
  }

  // ----- the handlers, as they write to the response -----

  method ClearTokenCookie(w: Response)
    modifies w
    ensures w.cookies == old(w.cookies) + [Clear]
  {
    w.Set(Clear);
  }

  method SetTokenCookie(a: Auth, w: Response, session: StoredToken) returns (ok: bool)
    modifies w
    ensures ok <==> Fits(a, session)
    ensures w.cookies == old(w.cookies) + if ok then [Put(session.handle, session.expiresAt)] else []
  {
    var size := |session.handle| + |a.cookieName| + COOKIE_ATTRIBUTE_BUDGET;
    if size > COOKIE_SIZE_LIMIT {
      return false;
    }
    w.Set(Put(session.handle, session.expiresAt));
    return true;
  }

  method RejectTokenCookie(w: Response, e: Error)
    modifies w
    ensures w.cookies == old(w.cookies) + Reject<StoredToken>(e).cookies
  {
    if SessionGone(e) {
      ClearTokenCookie(w);
    }
  }

  method ReadTokenCookie(a: Auth, w: Response, cookie: Option<string>) returns (r: Result<StoredToken>)
    modifies w
    ensures w.cookies == old(w.cookies) + ReadCookie(a, cookie).cookies && r == ReadCookie(a, cookie).result
    ensures r.Ok? ==> r.value.token.Some?
  {
    if cookie.None? {
      return Err({NoSession});
    }
    r := a.store.get(cookie.value);
    if r.Err? {
      RejectTokenCookie(w, r.wraps);
      return;
    }
    if r.value.token.None? {
      RejectTokenCookie(w, {NoSession});
      return Err({NoSession});
    }
  }

  method ResealSession(a: Auth, session: StoredToken) returns (s: StoredToken)
    ensures a.store.reseal(session).Err? ==> s == session
    ensures a.store.reseal(session).Ok? ==> s == a.store.reseal(session).value
  {
    var r := a.store.reseal(session);
    s := if r.Err? then session else r.value;
  }

  method MigrateSessionCookie(a: Auth, w: Response, session: StoredToken)
    modifies w
    ensures var moved := Resealed(a, session);
            w.cookies == old(w.cookies) +
              if moved.handle != session.handle && Fits(a, moved) then [Put(moved.handle, moved.expiresAt)] else []
  {
    var resealed := ResealSession(a, session);
    if resealed.handle == session.handle {
      return;
    }
    var _ := SetTokenCookie(a, w, resealed);
  }

  method CheckTokenExpiry(a: Auth, w: Response, session: StoredToken, now: int) returns (r: Result<Option<Token>>)
    requires session.token.Some?
    modifies w
    ensures w.cookies == old(w.cookies) + CheckExpiry(a, session, now).cookies && r == CheckExpiry(a, session, now).result
  {
    if session.token.value.expiry - now > TOKEN_REFRESH_MARGIN {
      if session.stale {
        MigrateSessionCookie(a, w, session);
      }
      return Ok(session.token);
    }
    var answer := a.store.refresh(session);
    if answer.Err? {
      return Err(answer.wraps);
    }
    if answer.value.None? || answer.value.value.token.None? {
      return Err({NoSession});
    }
    var refreshed := answer.value.value;
    if session.stale {
      refreshed := ResealSession(a, refreshed);
    }
    if refreshed.handle != session.handle {
      var ok := SetTokenCookie(a, w, refreshed);
      if !ok {
        return Err({NoSession});
      }
    }
    return Ok(refreshed.token);
  }

  /** What a request comes to. `Crashed` is the nil dereference of a session
      that lost its token between Refresh and Reseal. */
  datatype Reply =
    | Authenticated(token: Token)
    | Anonymous
    | ToLogin
    | Unavailable
    | NoContent
    | Unauthorized
    | Crashed

  method RequireAuth(a: Auth, w: Response, cookie: Option<string>, now: int) returns (reply: Reply)
    modifies w
    ensures w.cookies == old(w.cookies) + Resolve(a, cookie, now).cookies
    ensures reply == match Resolve(a, cookie, now).result
                     case Err(e) => if SessionGone(e) then ToLogin else Unavailable
                     case Ok(None) => Crashed
                     case Ok(Some(token)) => if a.verify(token.access) then Authenticated(token) else ToLogin
  {
    var session := ReadTokenCookie(a, w, cookie);
    if session.Err? {
      return if SessionGone(session.wraps) then ToLogin else Unavailable;
    }
    var token := CheckTokenExpiry(a, w, session.value, now);
    if token.Err? {
      if !SessionGone(token.wraps) {
        return Unavailable;
      }
      ClearTokenCookie(w);
      return ToLogin;
    }
    if token.value.None? {
      return Crashed;
    }
    return if a.verify(token.value.value.access) then Authenticated(token.value.value) else ToLogin;
  }

  method OptionalAuth(a: Auth, w: Response, cookie: Option<string>, now: int) returns (reply: Reply)
    modifies w
    ensures w.cookies == old(w.cookies) + Resolve(a, cookie, now).cookies
    ensures reply == match Resolve(a, cookie, now).result
                     case Err(_) => Anonymous
                     case Ok(None) => Crashed
                     case Ok(Some(token)) => if a.verify(token.access) then Authenticated(token) else Anonymous
  {
    var session := ReadTokenCookie(a, w, cookie);
    if session.Err? {
      return Anonymous;
    }
    var token := CheckTokenExpiry(a, w, session.value, now);
    if token.Err? {
      if SessionGone(token.wraps) {
        ClearTokenCookie(w);
      }
      return Anonymous;
    }
    if token.value.None? {
      return Crashed;
    }
    return if a.verify(token.value.value.access) then Authenticated(token.value.value) else Anonymous;
  }

  method Keepalive(a: Auth, w: Response, cookie: Option<string>, now: int) returns (reply: Reply)
    modifies w
    ensures w.cookies == old(w.cookies) + Resolve(a, cookie, now).cookies
    ensures reply == match Resolve(a, cookie, now).result
                     case Err(e) => if SessionGone(e) then Unauthorized else Unavailable
                     case Ok(_) => NoContent
  {
    var session := ReadTokenCookie(a, w, cookie);
    if session.Err? {
      return if SessionGone(session.wraps) then Unauthorized else Unavailable;
    }
    var token := CheckTokenExpiry(a, w, session.value, now);
    if token.Err? {
      if !SessionGone(token.wraps) {
        return Unavailable;
      }
      ClearTokenCookie(w);
      return Unauthorized;
    }
    return NoContent;
  }

  /** A resolved session carries a token, unless it was stale, had to be
      refreshed, and Reseal dropped the token: nothing checks for that. */
  lemma ResolvedSessionHasTokenUnlessResealDropsIt(a: Auth, cookie: Option<string>, now: int)
    ensures Resolve(a, cookie, now).result == Ok(None) <==>
            && cookie.Some? && a.store.get(cookie.value).Ok?
            && var session := a.store.get(cookie.value).value;
            && session.token.Some? && session.token.value.expiry - now <= TOKEN_REFRESH_MARGIN && session.stale
            && a.store.refresh(session).Ok? && a.store.refresh(session).value.Some?
            && var refreshed := a.store.refresh(session).value.value;
            && refreshed.token.Some? && a.store.reseal(refreshed).Ok?
            && var moved := a.store.reseal(refreshed).value;
            && moved.token.None? && (moved.handle == session.handle || Fits(a, moved))
  {
  }
}
