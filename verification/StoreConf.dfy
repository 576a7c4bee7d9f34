/** The resolved configuration of the Postgres store. Durations are in
    microseconds, the resolution the database keeps. */
module StoreConf {
  import opened Common

  const MILLISECOND := 1000
  const SECOND := 1000 * MILLISECOND

  const DEFAULT_REFRESH_LEASE := 20 * SECOND
  const DEFAULT_TOKEN_REQUEST_TIMEOUT := 10 * SECOND
  const DEFAULT_REFRESH_MARGIN := 10 * SECOND
  const DEFAULT_WRITE_TIMEOUT := 5 * SECOND
  const DEFAULT_MAX_SESSION_AGE := 12 * 3600 * SECOND
  const REFRESH_POLL_MIN := 25 * MILLISECOND
  const REFRESH_POLL_MAX := 500 * MILLISECOND

  datatype Conf = Conf(
    maxSessionAge: int,
    refreshLease: int,
    tokenRequestTimeout: int,
    refreshMargin: int,
    writeTimeout: int,
    refreshWait: int)

  /** What a store needs of its configuration: every duration is positive, the
      margin is not negative, and the lease outlasts the round trip and the
      write-back together. */
  predicate Accepted(c: Conf) {
    && 0 < c.maxSessionAge && 0 < c.refreshLease && 0 < c.tokenRequestTimeout
    && 0 < c.refreshWait && 0 < c.writeTimeout
    && 0 <= c.refreshMargin
    && c.tokenRequestTimeout + c.writeTimeout < c.refreshLease
  }

  method Validate(c: Conf) returns (ok: bool)
    ensures ok <==> Accepted(c)
    ensures ok <==> && c.maxSessionAge > 0 && c.refreshLease > 0 && c.tokenRequestTimeout > 0 && c.refreshWait > 0
                    && c.writeTimeout > 0 && c.refreshMargin >= 0
                    && c.refreshLease > c.tokenRequestTimeout + c.writeTimeout
  {
    var durations := [c.maxSessionAge, c.refreshLease, c.tokenRequestTimeout, c.refreshWait, c.writeTimeout];
    var i := 0;
    while i < |durations|
      invariant 0 <= i <= |durations|
      invariant forall j | 0 <= j < i :: durations[j] > 0
    {
      if durations[i] <= 0 {
        assert exists j | 0 <= j < 5 :: durations[j] <= 0;
        return false;
      }
      i := i + 1;
    }
    assert durations[0] > 0 && durations[1] > 0 && durations[2] > 0 && durations[3] > 0 && durations[4] > 0;
    if c.refreshMargin < 0 {
      return false;
    }
    return c.tokenRequestTimeout + c.writeTimeout < c.refreshLease;
  }

  /** What a store without options runs with. */
  function DefaultConf(): Conf {
    Conf(DEFAULT_MAX_SESSION_AGE, DEFAULT_REFRESH_LEASE, DEFAULT_TOKEN_REQUEST_TIMEOUT, DEFAULT_REFRESH_MARGIN,
         DEFAULT_WRITE_TIMEOUT, DefaultWait(DEFAULT_REFRESH_LEASE))
  }

  /** The defaults are accepted, and so is the default wait with any other
      accepted lease. */
  lemma DefaultsAreAccepted(c: Conf)
    ensures Accepted(DefaultConf())
    ensures DefaultConf() == Conf(43_200_000_000, 20_000_000, 10_000_000, 10_000_000, 5_000_000, 20_500_000)
    ensures Accepted(c) ==> Accepted(c.(refreshWait := DefaultWait(c.refreshLease)))
  {
  }

  /** The wait New falls back on when no option set one. */
  function DefaultWait(refreshLease: int): int {
    refreshLease + REFRESH_POLL_MAX
  }
}
