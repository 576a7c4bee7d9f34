/** Values every module shares: options, byte strings, OAuth2 tokens, and
    errors seen the way `errors.Is` sees them. */
module Common {

  datatype Option<+T> = None | Some(value: T)

  newtype byte = x: int | 0 <= x < 256

  type Bytes = seq<byte>

  /** The identities an error may wrap. An error is the set of the sentinels
      `errors.Is` answers true for; wrapping and joining are set union. */
  datatype Sentinel =
    | NoSession
    | RefreshRejected
    | RefreshFailed
    | RefreshTimeout
    | Cancelled
    | NotSealed
    | UnknownVersion
    | UnknownKey
    | WrongSessionKind
    | Authentication

  type Error = set<Sentinel>

  datatype Result<+T> = Ok(value: T) | Err(wraps: Error)

  /** An OAuth2 token set. */
  datatype Token = Token(access: string, refresh: string, expiry: int)

  /** The session a store hands out. */
  datatype StoredToken = StoredToken(
    handle: string,
    subject: string,
    token: Option<Token>,
    idToken: string,
    issuedAt: int,
    expiresAt: int,
    stale: bool)

  function Max(a: int, b: int): int {
    if a < b then b else a
  }

  function Min(a: int, b: int): int {
    if a < b then a else b
  }
}
