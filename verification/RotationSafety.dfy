/** Any number of refreshers, one session, and a provider that may rotate the
    refresh token on every exchange. Refresh tokens are numbered by the
    provider, which honours only the current one. */
module RotationSafety {
  import opened Common
  import opened SessionRows
  import opened StoreConf

  type CallerId = nat

  datatype Phase =
    | Idle
    | Holding(nonce: Nonce, token: nat, until: int, takenAt: int)
    | Posted(nonce: Nonce, token: nat, until: int, postedAt: int)
    | Answered(nonce: Nonce, token: nat, until: int, answeredAt: int)
    | Refused(nonce: Nonce)

  /** An exchange is in flight from the post until its write-back. */
  predicate InFlight(p: Phase) {
    p.Posted? || p.Answered?
  }

  datatype Sys = Sys(row: Option<Row>, now: int, current: nat, callers: map<CallerId, Phase>, drawn: set<Nonce>)

  datatype Step =
    | TakeLease(c: CallerId, nonce: Nonce, seenRefreshedAt: int, seenFailedAt: Option<int>)
    | Post(c: CallerId)
    | Answer(c: CallerId, rotate: bool)   // the provider answers, refusing any token but the current one
    | Outage(c: CallerId)                 // the exchange fails and the provider did not act
    | AnswerLost(c: CallerId, rotate: bool) // the provider acted and the answer was lost
    | CommitBack(c: CallerId, sealed: Bytes)
    | CommitError(c: CallerId)            // the write-back of a token errors
    | FailBack(c: CallerId)
    | FailError(c: CallerId)
    | Die(c: CallerId)
    | Other(stmt: Stmt)                   // any other statement, by anybody

  datatype Action = Action(at: int, step: Step)

  /** The session a run is about, and how its column opens. */
  datatype Session = Session(id: RowId, open: Bytes -> Option<nat>, conf: Conf)

  function PhaseOf(s: Sys, c: CallerId): Phase {
    if c in s.callers then s.callers[c] else Idle
  }

  /** Every statement has an instant of its own; what happens between a caller
      and the provider may share one. */
  predicate IsStatement(s: Step) {
    !s.Post? && !s.Answer? && !s.Outage? && !s.AnswerLost? && !s.Die?
  }

  predicate Enabled(x: Session, s: Sys, a: Action) {
    && s.now <= a.at && (IsStatement(a.step) ==> s.now < a.at)
    && match a.step
       case TakeLease(c, nonce, _, _) => PhaseOf(s, c).Idle? && nonce !in s.drawn
       case Post(c) => PhaseOf(s, c).Holding?
       case Answer(c, _) => PhaseOf(s, c).Posted?
       case Outage(c) => PhaseOf(s, c).Posted?
       case AnswerLost(c, _) => PhaseOf(s, c).Posted?
       case CommitBack(c, sealed) => PhaseOf(s, c).Answered? && x.open(sealed) == Some(PhaseOf(s, c).token)
       case CommitError(c) => PhaseOf(s, c).Answered?
       case FailBack(c) => PhaseOf(s, c).Refused?
       case FailError(c) => PhaseOf(s, c).Refused?
       case Die(_) => true
       case Other(stmt) => !stmt.Take? && !stmt.Commit? && !stmt.Fail? && !(stmt.Create? && stmt.id == x.id)
  }

  /** The provider after it was posted `token`. */
  function Provider(s: Sys, token: nat, rotate: bool): nat {
    if token == s.current && rotate then s.current + 1 else s.current
  }

  function Do(x: Session, s: Sys, a: Action): Sys
    requires Enabled(x, s, a)
  {
    var t := s.(now := a.at);
    match a.step
    case TakeLease(c, nonce, seenR, seenF) =>
      var take := Take(x.id, nonce, x.conf.refreshLease, seenR, seenF);
      var row := StepRow(s.row, x.id, a.at, take);
      var phase :=
        if Lands(s.row, x.id, a.at, take) && x.open(row.value.payload).Some?
        then Holding(nonce, x.open(row.value.payload).value, a.at + x.conf.refreshLease, a.at)
        else Idle;
      t.(row := row, drawn := s.drawn + {nonce}, callers := s.callers[c := phase])
    case Post(c) =>
      var p := PhaseOf(s, c);
      t.(callers := s.callers[c := Posted(p.nonce, p.token, p.until, a.at)])
    case Answer(c, rotate) =>
      var p := PhaseOf(s, c);
      var current := Provider(s, p.token, rotate);
      var next := if p.token == s.current then Answered(p.nonce, current, p.until, a.at) else Refused(p.nonce);
      t.(current := current, callers := s.callers[c := next])
    case Outage(c) =>
      t.(callers := s.callers[c := Refused(PhaseOf(s, c).nonce)])
    case AnswerLost(c, rotate) =>
      var p := PhaseOf(s, c);
      t.(current := Provider(s, p.token, rotate), callers := s.callers[c := Refused(p.nonce)])
    case CommitBack(c, sealed) =>
      t.(row := StepRow(s.row, x.id, a.at, Commit(x.id, PhaseOf(s, c).nonce, [], sealed, 0)),
         callers := s.callers[c := Idle])
    case CommitError(c) => t.(callers := s.callers[c := Idle])
    case FailBack(c) =>
      t.(row := StepRow(s.row, x.id, a.at, Fail(x.id, PhaseOf(s, c).nonce)), callers := s.callers[c := Idle])
    case FailError(c) => t.(callers := s.callers[c := Idle])
    case Die(c) => t.(callers := s.callers[c := Idle])
    case Other(stmt) => t.(row := StepRow(s.row, x.id, a.at, stmt))
  }

  // ----- the premises of the theorem -----

  /** No exchange outlives the lease it was started under. */
  predicate Timely(s: Sys, a: Action) {
    && (forall c | c in s.callers && InFlight(s.callers[c]) :: a.at <= s.callers[c].until)
    && (a.step.Post? && PhaseOf(s, a.step.c).Holding? ==> a.at <= PhaseOf(s, a.step.c).until)
  }

  /** Nothing the protocol cannot survive: no answer is lost, no commit
      errors, nobody dies mid-exchange, and no out-of-band Update. */
  predicate Clean(x: Session, s: Sys, a: Action) {
    match a.step
    case AnswerLost(_, _) => false
    case CommitError(_) => false
    case Die(c) => !InFlight(PhaseOf(s, c))
    case Other(stmt) => !(stmt.Update? && stmt.id == x.id)
    case _ => true
  }

  predicate Start(x: Session, s: Sys) {
    && s.callers == map[]
    && s.row.Some? && s.row.value.leaseUntil.None? && s.row.value.leaseNonce.None?
    && x.open(s.row.value.payload) == Some(s.current)
  }

  // ----- the invariant -----

  /** The caller's lease has not lapsed. */
  predicate Live(s: Sys, p: Phase) {
    (p.Holding? || InFlight(p)) && s.now <= p.until
  }

  predicate Owns(r: Option<Row>, p: Phase)
    requires p.Holding? || InFlight(p)
  {
    r.Some? ==> r.value.leaseNonce == Some(p.nonce) && r.value.leaseUntil == Some(p.until)
  }

  predicate RowHolds(x: Session, r: Option<Row>, token: nat) {
    r.Some? ==> x.open(r.value.payload) == Some(token)
  }

  ghost predicate Quiet(s: Sys) {
    forall c | c in s.callers :: !InFlight(s.callers[c])
  }

  ghost predicate SomeAnswered(s: Sys) {
    exists c | c in s.callers :: s.callers[c].Answered?
  }

  ghost predicate Inv(x: Session, s: Sys) {
    && (forall c | c in s.callers && InFlight(s.callers[c]) :: Live(s, s.callers[c]))
    && (forall c | c in s.callers && Live(s, s.callers[c]) :: Owns(s.row, s.callers[c]))
    && (forall c, d | c in s.callers && d in s.callers && Live(s, s.callers[c]) && Live(s, s.callers[d]) :: c == d)
    && (forall c | c in s.callers && Live(s, s.callers[c]) :: s.callers[c].token == s.current)
    && (RowHolds(x, s.row, s.current) || SomeAnswered(s))
    && (forall c | c in s.callers && !s.callers[c].Idle? :: s.callers[c].nonce in s.drawn)
    && (forall c, d | c in s.callers && d in s.callers && !s.callers[c].Idle? && !s.callers[d].Idle?
                      && s.callers[c].nonce == s.callers[d].nonce :: c == d)
  }

  lemma TakeLeaseKeeps(x: Session, s: Sys, a: Action)
    requires Inv(x, s) && Enabled(x, s, a) && Timely(s, a) && Clean(x, s, a) && a.step.TakeLease?
    ensures Inv(x, Do(x, s, a))
  {
    AnsweredSurvives(x, s, a);
  }

  lemma ExchangeKeeps(x: Session, s: Sys, a: Action)
    requires Inv(x, s) && Enabled(x, s, a) && Timely(s, a) && Clean(x, s, a)
    requires a.step.Post? || a.step.Answer? || a.step.Outage?
    ensures Inv(x, Do(x, s, a))
  {
    var t := Do(x, s, a);
    assert t.callers[a.step.c] == PhaseOf(t, a.step.c);
  }

  lemma CommitKeeps(x: Session, s: Sys, a: Action)
    requires Inv(x, s) && Enabled(x, s, a) && Timely(s, a) && Clean(x, s, a) && a.step.CommitBack?
    ensures Inv(x, Do(x, s, a))
  {
  }

  lemma FailBackKeeps(x: Session, s: Sys, a: Action)
    requires Inv(x, s) && Enabled(x, s, a) && Timely(s, a) && Clean(x, s, a) && a.step.FailBack?
    ensures Inv(x, Do(x, s, a))
  {
    AnsweredSurvives(x, s, a);
  }

  lemma OtherKeeps(x: Session, s: Sys, a: Action)
    requires Inv(x, s) && Enabled(x, s, a) && Timely(s, a) && Clean(x, s, a)
    requires a.step.FailError? || a.step.Die? || a.step.Other?
    ensures Inv(x, Do(x, s, a))
  {
    AnsweredSurvives(x, s, a);
  }

  lemma AnsweredSurvives(x: Session, s: Sys, a: Action)
    requires Enabled(x, s, a) && Clean(x, s, a) && !a.step.CommitBack?
    ensures SomeAnswered(s) ==> SomeAnswered(Do(x, s, a))
  {
    if SomeAnswered(s) {
      var c :| c in s.callers && s.callers[c].Answered?;
      assert Do(x, s, a).callers[c].Answered?;
    }
  }

  lemma StepKeeps(x: Session, s: Sys, a: Action)
    requires Inv(x, s) && Enabled(x, s, a) && Timely(s, a) && Clean(x, s, a)
    ensures Inv(x, Do(x, s, a))
  {
    match a.step
    case TakeLease(_, _, _, _) => TakeLeaseKeeps(x, s, a);
    case Post(_) => ExchangeKeeps(x, s, a);
    case Answer(_, _) => ExchangeKeeps(x, s, a);
    case Outage(_) => ExchangeKeeps(x, s, a);
    case CommitBack(_, _) => CommitKeeps(x, s, a);
    case FailBack(_) => FailBackKeeps(x, s, a);
    case _ => OtherKeeps(x, s, a);
  }

  // ----- runs -----

  /** A run: every action is enabled where it happens. */
  ghost predicate Run(x: Session, states: seq<Sys>, actions: seq<Action>) {
    && |states| == |actions| + 1
    && (forall k | 0 <= k < |actions| ::
          Enabled(x, states[k], actions[k]) && states[k + 1] == Do(x, states[k], actions[k]))
  }

  ghost predicate Disciplined(x: Session, states: seq<Sys>, actions: seq<Action>)
    requires |states| == |actions| + 1
  {
    forall k | 0 <= k < |actions| :: Timely(states[k], actions[k]) && Clean(x, states[k], actions[k])
  }

  lemma {:induction false} InvAt(x: Session, states: seq<Sys>, actions: seq<Action>, k: nat)
    requires Run(x, states, actions) && Start(x, states[0]) && Disciplined(x, states, actions)
    requires k < |states|
    ensures Inv(x, states[k])
  {
    if k > 0 {
      InvAt(x, states, actions, k - 1);
      StepKeeps(x, states[k - 1], actions[k - 1]);
      assert states[k] == Do(x, states[k - 1], actions[k - 1]);
    }
  }

  /** Rotation safety. In every disciplined run, whatever the number of
      callers: no two exchanges are ever in flight, every exchange posts the
      provider's current refresh token, the provider answers no exchange with
      a refusal of its own, and whenever no exchange is in flight the row, if
      it is still there, holds the current token. */
  lemma RotationIsSafe(x: Session, states: seq<Sys>, actions: seq<Action>, k: nat)
    requires Run(x, states, actions) && Start(x, states[0]) && Disciplined(x, states, actions)
    requires k < |states|
    ensures forall c, d :: InFlight(PhaseOf(states[k], c)) && InFlight(PhaseOf(states[k], d)) ==> c == d
    ensures Quiet(states[k]) ==> RowHolds(x, states[k].row, states[k].current)
    ensures k < |actions| && actions[k].step.Post? ==>
              PhaseOf(states[k], actions[k].step.c).token == states[k].current
    ensures k < |actions| && actions[k].step.Answer? ==>
              PhaseOf(states[k + 1], actions[k].step.c).Answered?
  {
    InvAt(x, states, actions, k);
    if k < |actions| && actions[k].step.Post? {
      assert Timely(states[k], actions[k]);
    }
  }

  // ----- why the configuration is checked -----

  /** The timeouts are honoured: the post follows the lease within `delta`, the
      exchange returns within the token request timeout, and the write-back
      lands within the write timeout. */
  predicate Prompt(x: Session, delta: int, s: Sys, a: Action) {
    && (a.step.Post? && PhaseOf(s, a.step.c).Holding? ==> a.at <= PhaseOf(s, a.step.c).takenAt + delta)
    && (forall c | c in s.callers && s.callers[c].Posted? ::
          a.at <= s.callers[c].postedAt + x.conf.tokenRequestTimeout)
    && (forall c | c in s.callers && s.callers[c].Answered? ::
          a.at <= s.callers[c].answeredAt + x.conf.writeTimeout)
  }

  ghost predicate PromptRun(x: Session, delta: int, states: seq<Sys>, actions: seq<Action>) {
    && Run(x, states, actions) && Start(x, states[0])
    && forall k | 0 <= k < |actions| :: Prompt(x, delta, states[k], actions[k]) && Clean(x, states[k], actions[k])
  }

  /** The lease covers the way to the provider, the round trip and the
      write-back. */
  predicate Covers(c: Conf, delta: int) {
    delta + c.tokenRequestTimeout + c.writeTimeout <= c.refreshLease
  }

  /** How much of its lease every exchange has left. */
  predicate Slack(x: Session, s: Sys) {
    && (forall c | c in s.callers && s.callers[c].Holding? ::
          s.callers[c].until == s.callers[c].takenAt + x.conf.refreshLease)
    && (forall c | c in s.callers && s.callers[c].Posted? ::
          s.callers[c].postedAt + x.conf.tokenRequestTimeout + x.conf.writeTimeout <= s.callers[c].until)
    && (forall c | c in s.callers && s.callers[c].Answered? ::
          s.callers[c].answeredAt + x.conf.writeTimeout <= s.callers[c].until)
  }

  lemma {:induction false} SlackAt(x: Session, delta: int, states: seq<Sys>, actions: seq<Action>, k: nat)
    requires PromptRun(x, delta, states, actions) && Covers(x.conf, delta)
    requires k < |states|
    ensures Slack(x, states[k])
  {
    if k > 0 {
      SlackAt(x, delta, states, actions, k - 1);
      assert states[k] == Do(x, states[k - 1], actions[k - 1]);
      assert Prompt(x, delta, states[k - 1], actions[k - 1]);
    }
  }

  /** If the lease covers them, honouring the timeouts is all it takes: no
      exchange outlives its lease, so rotation is safe. */
  lemma PromptRunsAreSafe(x: Session, delta: int, states: seq<Sys>, actions: seq<Action>, k: nat)
    requires PromptRun(x, delta, states, actions) && Covers(x.conf, delta)
    requires 0 <= x.conf.tokenRequestTimeout && 0 <= x.conf.writeTimeout && k < |states|
    ensures Disciplined(x, states, actions)
    ensures forall c, d :: InFlight(PhaseOf(states[k], c)) && InFlight(PhaseOf(states[k], d)) ==> c == d
    ensures Quiet(states[k]) ==> RowHolds(x, states[k].row, states[k].current)
  {
    forall i | 0 <= i < |actions| ensures Timely(states[i], actions[i]) {
      SlackAt(x, delta, states, actions, i);
      assert Prompt(x, delta, states[i], actions[i]);
    }
    RotationIsSafe(x, states, actions, k);
  }

  ghost predicate NoOverlap(states: seq<Sys>) {
    forall k, c, d | 0 <= k < |states| && InFlight(PhaseOf(states[k], c)) && InFlight(PhaseOf(states[k], d)) :: c == d
  }

  /** In no prompt run do two exchanges overlap. */
  ghost predicate NeverOverlaps(conf: Conf, delta: int) {
    forall x: Session, states: seq<Sys>, actions: seq<Action> |
      x.conf == conf && PromptRun(x, delta, states, actions) :: NoOverlap(states)
  }

  /** The bound is exact: exchanges never overlap if and only if the lease
      covers the way to the provider, the round trip and the write-back. */
  lemma LeaseBoundIsExact(conf: Conf, delta: int)
    requires 0 <= delta && 0 <= conf.tokenRequestTimeout && 0 <= conf.writeTimeout && 0 < conf.refreshLease
    ensures NeverOverlaps(conf, delta) <==> Covers(conf, delta)
  {
    if Covers(conf, delta) {
      forall x: Session, states: seq<Sys>, actions: seq<Action> | x.conf == conf && PromptRun(x, delta, states, actions)
        ensures NoOverlap(states)
      {
        forall k | 0 <= k < |states|
          ensures forall c, d :: InFlight(PhaseOf(states[k], c)) && InFlight(PhaseOf(states[k], d)) ==> c == d
        {
          PromptRunsAreSafe(x, delta, states, actions, k);
        }
      }
    } else {
      var x, states, actions := ShortLeaseDoublesTheExchange(conf, delta);
    }
  }

  /** What the configuration check is for: of configurations with positive
      timeouts, it accepts exactly those that leave a holder any time at all
      to get to the provider without risking a second exchange. */
  lemma AcceptedConfLeavesTime(conf: Conf)
    requires 0 < conf.maxSessionAge && 0 < conf.refreshLease && 0 < conf.tokenRequestTimeout
    requires 0 < conf.refreshWait && 0 < conf.writeTimeout && 0 <= conf.refreshMargin
    ensures Accepted(conf) <==> exists delta :: delta > 0 && NeverOverlaps(conf, delta)
  {
    if Accepted(conf) {
      var delta := conf.refreshLease - conf.tokenRequestTimeout - conf.writeTimeout;
      LeaseBoundIsExact(conf, delta);
      assert delta > 0 && NeverOverlaps(conf, delta);
    }
    if delta :| delta > 0 && NeverOverlaps(conf, delta) {
      LeaseBoundIsExact(conf, delta);
    }
  }

  // ----- why each premise is there -----

  /** A session whose column wraps the token its length says, before anybody
      has asked for a refresh. */
  function SampleSession(conf: Conf): Session {
    Session([], (b: Bytes) => Some(|b|), conf)
  }

  function SampleStart(conf: Conf): Sys {
    Sys(Some(Row("sub", [], [], 0, None, None, None, 0, 0, conf.refreshLease + 10)), 0, 0, map[], {})
  }

  function SampleConf(): Conf {
    Conf(100, 20, 10, 0, 5, 20)
  }

  /** Four actions and the states they lead through. */
  function Played(x: Session, s: Sys, a: seq<Action>): (states: seq<Sys>)
    requires |a| == 4
    requires Enabled(x, s, a[0])
    requires Enabled(x, Do(x, s, a[0]), a[1])
    requires Enabled(x, Do(x, Do(x, s, a[0]), a[1]), a[2])
    requires Enabled(x, Do(x, Do(x, Do(x, s, a[0]), a[1]), a[2]), a[3])
    ensures Run(x, states, a) && states[0] == s
  {
    var s1 := Do(x, s, a[0]);
    var s2 := Do(x, s1, a[1]);
    var s3 := Do(x, s2, a[2]);
    [s, s1, s2, s3, Do(x, s3, a[3])]
  }

  /** One action more. */
  lemma Extend(x: Session, states: seq<Sys>, actions: seq<Action>, a: Action)
    requires Run(x, states, actions) && Enabled(x, states[|states| - 1], a)
    ensures Run(x, states + [Do(x, states[|states| - 1], a)], actions + [a])
  {
  }

  /** Two exchanges are in flight at once, of the same token. */
  ghost predicate Overlap(states: seq<Sys>) {
    exists k | 0 <= k < |states| ::
      && InFlight(PhaseOf(states[k], 0)) && InFlight(PhaseOf(states[k], 1))
      && PhaseOf(states[k], 0).token == PhaseOf(states[k], 1).token
  }

  /** A lease that does not cover the timeouts lets two exchanges of the same
      refresh token overlap, although every timeout is honoured. */
  lemma ShortLeaseDoublesTheExchange(conf: Conf, delta: int)
    returns (x: Session, states: seq<Sys>, actions: seq<Action>)
    requires 0 <= delta && 0 <= conf.tokenRequestTimeout && 0 <= conf.writeTimeout && 0 < conf.refreshLease
    requires !Covers(conf, delta)
    ensures x.conf == conf && PromptRun(x, delta, states, actions) && Overlap(states) && !NoOverlap(states)
  {
    if delta > conf.refreshLease {
      x, states, actions := PostedTooLate(conf, delta);
    } else if delta + conf.tokenRequestTimeout > conf.refreshLease {
      x, states, actions := AnsweredTooLate(conf, delta);
    } else {
      x, states, actions := WrittenTooLate(conf, delta);
    }
    var k :| 0 <= k < |states| && InFlight(PhaseOf(states[k], 0)) && InFlight(PhaseOf(states[k], 1));
  }

  lemma PostedTooLate(conf: Conf, delta: int) returns (x: Session, states: seq<Sys>, actions: seq<Action>)
    requires 0 < conf.refreshLease < delta && 0 <= conf.tokenRequestTimeout
    ensures x.conf == conf && PromptRun(x, delta, states, actions) && Overlap(states)
  {
    var t := conf.refreshLease + 2;
    x := SampleSession(conf);
    actions := [Action(1, TakeLease(0, 0, 0, None)), Action(t, TakeLease(1, 1, 0, None)),
                Action(t, Post(0)), Action(t, Post(1))];
    states := Played(x, SampleStart(conf), actions);
    assert InFlight(PhaseOf(states[4], 0)) && InFlight(PhaseOf(states[4], 1));
  }

  lemma AnsweredTooLate(conf: Conf, delta: int) returns (x: Session, states: seq<Sys>, actions: seq<Action>)
    requires 0 <= delta <= conf.refreshLease && 0 < conf.refreshLease
    requires delta + conf.tokenRequestTimeout > conf.refreshLease
    ensures x.conf == conf && PromptRun(x, delta, states, actions) && Overlap(states)
  {
    var t := conf.refreshLease + 2;
    x := SampleSession(conf);
    actions := [Action(1, TakeLease(0, 0, 0, None)), Action(1 + delta, Post(0)),
                Action(t, TakeLease(1, 1, 0, None)), Action(t, Post(1))];
    states := Played(x, SampleStart(conf), actions);
    assert InFlight(PhaseOf(states[4], 0)) && InFlight(PhaseOf(states[4], 1));
  }

  lemma WrittenTooLate(conf: Conf, delta: int) returns (x: Session, states: seq<Sys>, actions: seq<Action>)
    requires 0 <= delta && 0 <= conf.tokenRequestTimeout && 0 < conf.refreshLease
    requires delta + conf.tokenRequestTimeout <= conf.refreshLease && !Covers(conf, delta)
    ensures x.conf == conf && PromptRun(x, delta, states, actions) && Overlap(states)
  {
    x, states, actions := WrittenLate(conf, delta);
    var last := Action(conf.refreshLease + 2, Post(1));
    Extend(x, states, actions, last);
    SecondPosts(x, states, last);
    states, actions := states + [Do(x, states[|states| - 1], last)], actions + [last];
  }

  lemma WrittenLate(conf: Conf, delta: int) returns (x: Session, states: seq<Sys>, actions: seq<Action>)
    requires 0 <= delta && 0 <= conf.tokenRequestTimeout && 0 < conf.refreshLease
    requires delta + conf.tokenRequestTimeout <= conf.refreshLease && !Covers(conf, delta)
    ensures x.conf == conf && PromptRun(x, delta, states, actions)
    ensures var s, last := states[|states| - 1], Action(conf.refreshLease + 2, Post(1));
            Prompt(x, delta, s, last) && s.now == last.at && SecondHolds(s)
  {
    var t, answered := conf.refreshLease + 2, 1 + delta + conf.tokenRequestTimeout;
    x := SampleSession(conf);
    actions := [Action(1, TakeLease(0, 0, 0, None)), Action(1 + delta, Post(0)),
                Action(answered, Answer(0, false)), Action(t, TakeLease(1, 1, 0, None))];
    states := Played(x, SampleStart(conf), actions);
  }

  /** One exchange is in flight, and a second caller holds the lease with the
      same token. */
  predicate SecondHolds(s: Sys) {
    InFlight(PhaseOf(s, 0)) && PhaseOf(s, 1).Holding? && PhaseOf(s, 0).token == PhaseOf(s, 1).token
  }

  lemma SecondPosts(x: Session, states: seq<Sys>, last: Action)
    requires |states| > 0 && SecondHolds(states[|states| - 1])
    requires last.step == Post(1) && states[|states| - 1].now <= last.at
    ensures Overlap(states + [Do(x, states[|states| - 1], last)])
  {
    var more := states + [Do(x, states[|states| - 1], last)];
    assert InFlight(PhaseOf(more[|states|], 0)) && InFlight(PhaseOf(more[|states|], 1));
  }

  /** Every action is timely, and clean but for steps of one kind. */
  ghost predicate OnlyUnclean(x: Session, states: seq<Sys>, actions: seq<Action>, kind: Step -> bool) {
    && Run(x, states, actions) && Start(x, states[0]) && Accepted(x.conf)
    && forall k | 0 <= k < |actions| ::
         Timely(states[k], actions[k]) && (Clean(x, states[k], actions[k]) || kind(actions[k].step))
  }

  /** The row is there and holds a token the provider refuses, and nobody is
      about to replace it. */
  ghost predicate Stranded(x: Session, s: Sys) {
    Quiet(s) && s.row.Some? && !RowHolds(x, s.row, s.current)
  }

  /** The window that cannot be closed: the provider rotated, the commit
      errored, and the row is left with a token the provider refuses. */
  lemma CommitErrorStrandsTheSession() returns (x: Session, states: seq<Sys>, actions: seq<Action>)
    ensures OnlyUnclean(x, states, actions, (s: Step) => s.CommitError?) && |states| > 0
    ensures Stranded(x, states[|states| - 1])
  {
    x := SampleSession(SampleConf());
    actions := [Action(1, TakeLease(0, 0, 0, None)), Action(2, Post(0)),
                Action(3, Answer(0, true)), Action(4, CommitError(0))];
    states := Played(x, SampleStart(x.conf), actions);
  }

  /** An answer lost after the provider rotated strands the session too,
      although every statement went through. */
  lemma LostAnswerStrandsTheSession() returns (x: Session, states: seq<Sys>, actions: seq<Action>)
    ensures OnlyUnclean(x, states, actions, (s: Step) => s.AnswerLost?) && |states| > 0
    ensures Stranded(x, states[|states| - 1])
  {
    x := SampleSession(SampleConf());
    actions := [Action(1, TakeLease(0, 0, 0, None)), Action(2, Post(0)),
                Action(3, AnswerLost(0, true)), Action(4, FailBack(0))];
    states := Played(x, SampleStart(x.conf), actions);
  }

  /** So does a refresher that dies between the answer and its write-back. */
  lemma DeathMidExchangeStrandsTheSession() returns (x: Session, states: seq<Sys>, actions: seq<Action>)
    ensures OnlyUnclean(x, states, actions, (s: Step) => s.Die?) && |states| > 0
    ensures Stranded(x, states[|states| - 1])
  {
    x := SampleSession(SampleConf());
    actions := [Action(1, TakeLease(0, 0, 0, None)), Action(2, Post(0)),
                Action(3, Answer(0, true)), Action(4, Die(0))];
    states := Played(x, SampleStart(x.conf), actions);
  }

  /** An out-of-band Update releases the lease of an exchange in flight, even
      if it writes the very token that is current, and lets a second start. */
  lemma UpdateDoublesTheExchange() returns (x: Session, states: seq<Sys>, actions: seq<Action>)
    ensures OnlyUnclean(x, states, actions, (s: Step) => s.Other? && s.stmt.Update?)
    ensures Overlap(states)
  {
    x, states, actions := UpdateReleasesTheLease();
    var last := Action(5, Post(1));
    Extend(x, states, actions, last);
    SecondPosts(x, states, last);
    states, actions := states + [Do(x, states[|states| - 1], last)], actions + [last];
  }

  lemma UpdateReleasesTheLease() returns (x: Session, states: seq<Sys>, actions: seq<Action>)
    ensures OnlyUnclean(x, states, actions, (s: Step) => s.Other? && s.stmt.Update?)
    ensures var s, last := states[|states| - 1], Action(5, Post(1));
            SecondHolds(s) && s.now < 5 && Timely(s, last)
  {
    x := SampleSession(SampleConf());
    actions := [Action(1, TakeLease(0, 0, 0, None)), Action(2, Post(0)),
                Action(3, Other(Update([], [], [], 0))), Action(4, TakeLease(1, 1, 3, None))];
    states := Played(x, SampleStart(x.conf), actions);
  }
}
