/** How often one Refresh call exchanges, and why it may outlive its deadline:
    only on the strength of a lost write-back, and those are rare. */
module OwnLeases {
  import opened Common
  import opened SessionRows
  import opened RowHistory
  import opened RefreshWorld
  import opened StoreConf
  import opened RefreshLoop
  import opened RefreshMeaning

  /** Its write-back was fenced out. */
  ghost predicate FencedOut(x: Call, w: World, i: nat)
    requires i < |w.log| && w.log[i].stmt.Take?
  {
    exists j | i < j < |w.log| ::
      IsFence(w.log[j].stmt, x.id, w.log[i].stmt.nonce) && !LandsAt(Lookup(w.base, x.id), x.id, w.log, j)
  }

  ghost predicate Spaced(x: Call, w: World) {
    LeaseLength(x.id, w.log, x.conf.refreshLease) ==>
      forall i: nat, k: nat | i < k && Own(x, w, i) && Own(x, w, k) ::
        w.log[k].at > w.log[i].at + 2 * x.conf.refreshLease
  }

  predicate MineDrawn(w: World) {
    forall n | n in w.mine :: n < w.nextNonce
  }

  /** At the head of a pass: every lease so far came after the first read and
      was fenced out. */
  ghost predicate OwnInv(x: Call, from: nat, w: World, l: Local) {
    && MineDrawn(w) && Spaced(x, w)
    && (l.pass == 0 ==> w.mine == {} && l.lost == 0)
    && (l.pass > 0 ==> exists h: nat :: FirstRead(x, w, from, h, l) && AllFencedOut(x, w, h))
  }

  /** Nothing the others do makes a lease this call's own. */
  lemma OwnIsStable(x: Call, w: World, v: World, i: nat)
    requires Later(w, v, x.id) && v.mine == w.mine && MineDrawn(w)
    ensures Own(x, v, i) <==> Own(x, w, i)
  {
    if i < |w.log| {
      RowAtPrefix(Lookup(w.base, x.id), x.id, w.log, v.log, i);
      assert v.log[i] == w.log[i];
    }
  }

  lemma FencedOutStays(x: Call, w: World, v: World, i: nat)
    requires w.base == v.base && w.log <= v.log
    requires i < |w.log| && w.log[i].stmt.Take? && FencedOut(x, w, i)
    ensures v.log[i] == w.log[i] && FencedOut(x, v, i)
  {
    var j :| i < j < |w.log| &&
      IsFence(w.log[j].stmt, x.id, w.log[i].stmt.nonce) && !LandsAt(Lookup(w.base, x.id), x.id, w.log, j);
    RowAtPrefix(Lookup(w.base, x.id), x.id, w.log, v.log, j);
    assert v.log[j] == w.log[j];
  }

  lemma SpacedStays(x: Call, w: World, v: World)
    requires Later(w, v, x.id) && v.mine == w.mine && MineDrawn(w) && Spaced(x, w)
    ensures Spaced(x, v)
  {
    if LeaseLength(x.id, v.log, x.conf.refreshLease) {
      LeaseLengthShrinks(x.id, w.log, v.log, x.conf.refreshLease);
      forall i: nat, k: nat | i < k && Own(x, v, i) && Own(x, v, k)
        ensures v.log[k].at > v.log[i].at + 2 * x.conf.refreshLease
      {
        OwnIsStable(x, w, v, i);
        OwnIsStable(x, w, v, k);
        assert v.log[i] == w.log[i] && v.log[k] == w.log[k];
      }
    }
  }

  ghost predicate AllFencedOut(x: Call, w: World, h: nat) {
    forall i: nat | Own(x, w, i) :: h < i && FencedOut(x, w, i)
  }

  lemma AllFencedOutStays(x: Call, w: World, v: World, h: nat)
    requires Later(w, v, x.id) && v.mine == w.mine && MineDrawn(w) && AllFencedOut(x, w, h)
    ensures AllFencedOut(x, v, h)
  {
    forall i: nat | Own(x, v, i) ensures h < i && FencedOut(x, v, i) {
      OwnIsStable(x, w, v, i);
      FencedOutStays(x, w, v, i);
    }
  }

  /** Which leases are own after asking for one more. */
  lemma OwnAfterTake(env: Env, x: Call, w: World, l: Local, i: nat)
    requires Consistent(w, x.id) && MineDrawn(w)
    ensures var o := DoTake(env, w, x.id, x.conf.refreshLease, l.seenR, l.seenF);
            && MineDrawn(o.w)
            && (Own(x, o.w, i) ==>
                  (Own(x, w, i) || (|w.log| <= i == |o.w.log| - 1 && !env.turns(w.turn).fault.NotRun?)))
            && (Own(x, w, i) ==> Own(x, o.w, i))
  {
    TakeKeeps(env, w, x.id, x.conf.refreshLease, l.seenR, l.seenF);
    var o := DoTake(env, w, x.id, x.conf.refreshLease, l.seenR, l.seenF);
    ElapseKeeps(env, w, x.id, 0);
    var w1 := Elapse(env, w, 0);
    if i < |w.log| {
      RowAtPrefix(Lookup(w.base, x.id), x.id, w.log, o.w.log, i);
      assert o.w.log[i] == w.log[i];
    }
    if i < |w1.log| {
      assert o.w.log[i] == w1.log[i];
    }
  }

  /** A lease taken now, by the last event of `v`, is more than two leases
      after any that was fenced out before. */
  lemma NewLeaseIsSpaced(x: Call, from: nat, w: World, v: World, h: nat, l: Local, i: nat)
    requires Consistent(v, x.id) && w.base == v.base && w.log <= v.log && |w.log| < |v.log|
    requires FirstRead(x, v, from, h, l) && h < i
    requires Own(x, w, i) && FencedOut(x, w, i)
    requires var k := |v.log| - 1;
             && v.log[k].stmt.Take? && v.log[k].stmt.id == x.id && LandsAt(Lookup(v.base, x.id), x.id, v.log, k)
             && v.log[k].stmt.seenRefreshedAt == l.seenR && v.log[k].stmt.seenFailedAt == l.seenF
    requires LeaseLength(x.id, v.log, x.conf.refreshLease)
    ensures v.log[|v.log| - 1].at > w.log[i].at + 2 * x.conf.refreshLease
  {
    var r0 := Lookup(w.base, x.id);
    RowAtPrefix(r0, x.id, w.log, v.log, i);
    var j :| i < j < |w.log| &&
      IsFence(w.log[j].stmt, x.id, w.log[i].stmt.nonce) && !LandsAt(r0, x.id, w.log, j);
    RowAtPrefix(r0, x.id, w.log, v.log, j);
    assert v.log[i] == w.log[i] && v.log[j] == w.log[j];
    OwnLeasesAreTwoApart(r0, x.id, v.log, h, i, j, |v.log| - 1, x.conf.refreshLease);
  }

  lemma LeaseLengthShrinks(id: RowId, a: seq<Event>, b: seq<Event>, lease: int)
    requires a <= b && LeaseLength(id, b, lease)
    ensures LeaseLength(id, a, lease)
  {
    forall i | 0 <= i < |a| && a[i].stmt.Take? && a[i].stmt.id == id ensures a[i].stmt.lease == lease {
      assert b[i] == a[i];
    }
  }

  lemma LeaseOwn(env: Env, x: Call, from: nat, w: World, h: nat, l: Local)
    requires Consistent(w, x.id) && FirstRead(x, w, from, h, l)
    requires MineDrawn(w) && Spaced(x, w) && AllFencedOut(x, w, h)
    ensures var o := DoTake(env, w, x.id, x.conf.refreshLease, l.seenR, l.seenF);
            Spaced(x, o.w)
  {
    var o := DoTake(env, w, x.id, x.conf.refreshLease, l.seenR, l.seenF);
    TakeKeeps(env, w, x.id, x.conf.refreshLease, l.seenR, l.seenF);
    FirstReadStays(x, w, o.w, from, h, l);
    if LeaseLength(x.id, o.w.log, x.conf.refreshLease) {
      LeaseLengthShrinks(x.id, w.log, o.w.log, x.conf.refreshLease);
      forall i: nat, k: nat | i < k && Own(x, o.w, i) && Own(x, o.w, k)
        ensures o.w.log[k].at > o.w.log[i].at + 2 * x.conf.refreshLease
      {
        OwnAfterTake(env, x, w, l, i);
        OwnAfterTake(env, x, w, l, k);
        assert o.w.log[i] == w.log[i];
        if Own(x, w, k) {
          assert o.w.log[k] == w.log[k];
        } else {
          NewLeaseIsSpaced(x, from, w, o.w, h, l, i);
        }
      }
    }
  }

  /** After a lease that landed, the write-back either settles the call or is
      fenced out; it takes no further lease. */
  lemma ExchangeOwn(env: Env, x: Call, w: World, lease: Row)
    requires Consistent(w, x.id) && |w.log| > 0
    requires w.log[|w.log| - 1].stmt.Take?
    ensures var e := RunExchange(env, x, w, w.log[|w.log| - 1].stmt.nonce, lease);
            e.LeaseLost? ==> w.log <= e.w.log && w.base == e.w.base && |w.log| < |e.w.log| && FencedOut(x, e.w, |w.log| - 1)
  {
    var i := |w.log| - 1;
    var nonce := w.log[i].stmt.nonce;
    if x.sealer.open(x.id, lease.payload).Some? {
      var p := x.sealer.open(x.id, lease.payload).value;
      ElapseKeeps(env, w, x.id, 0);
      var w1 := Elapse(env, w, 0);
      match env.exchange(w.turn, p.token)
      case Refused(_) => FenceOwn(env, x, w, w1, Fail(x.id, nonce));
      case Granted(None) => FenceOwn(env, x, w, w1, Fail(x.id, nonce));
      case Granted(Some(tok)) =>
        if x.sealer.seal(w1.turn, x.id, p.(token := tok)).Some? {
          var (sealed, kid) := x.sealer.seal(w1.turn, x.id, p.(token := tok)).value;
          FenceOwn(env, x, w, w1, Commit(x.id, nonce, kid, sealed, tok.expiry));
        }
    }
  }

  lemma FenceOwn(env: Env, x: Call, w: World, w1: World, s: Stmt)
    requires Consistent(w1, x.id) && Later(w, w1, x.id) && |w.log| > 0
    requires w.log[|w.log| - 1].stmt.Take? && IsFence(s, x.id, w.log[|w.log| - 1].stmt.nonce)
    ensures var o := DoStmt(env, w1, x.id, s);
            !o.failed && !o.landed ==>
              w.log <= o.w.log && w.base == o.w.base && |w.log| < |o.w.log| && FencedOut(x, o.w, |w.log| - 1)
  {
    StmtKeeps(env, w1, x.id, s);
    var o := DoStmt(env, w1, x.id, s);
    LaterTransitive(w, w1, o.w, x.id);
    if !o.failed && !o.landed {
      assert o.w.log[|w.log| - 1] == w.log[|w.log| - 1];
      assert IsFence(o.w.log[|o.w.log| - 1].stmt, x.id, w.log[|w.log| - 1].stmt.nonce);
    }
  }

  lemma AskOwn(env: Env, x: Call, from: nat, w: World, h: nat, l: Local)
    requires Consistent(w, x.id) && FirstRead(x, w, from, h, l) && l.lost == 0
    requires MineDrawn(w) && Spaced(x, w) && AllFencedOut(x, w, h)
    ensures var v := AskForLease(env, x, w, l);
            && Spaced(x, v.w)
            && (v.Again? ==> OwnInv(x, from, v.w, v.l))
  {
    var o := DoTake(env, w, x.id, x.conf.refreshLease, l.seenR, l.seenF);
    var v := AskForLease(env, x, w, l);
    TakeKeeps(env, w, x.id, x.conf.refreshLease, l.seenR, l.seenF);
    LeaseOwn(env, x, from, w, h, l);
    OwnAfterTake(env, x, w, l, 0);
    if !env.turns(w.turn).randFails && !o.failed {
      FirstReadStays(x, w, o.w, from, h, l);
      if !o.landed {
        NotTakenOwn(env, x, w, h, l);
        ElapseKeeps(env, o.w, x.id, if env.turns(o.w.turn).cancelled then 0 else l.backoff);
        AllFencedOutStays(x, o.w, v.w, h);
      } else {
        ExchangeProgresses(env, x, o.w, Drawn(env, w), o.row.value);
        if v.Again? {
          LostOwn(env, x, w, h, l);
        }
      }
      SpacedStays(x, o.w, v.w);
      FirstReadStays(x, o.w, v.w, from, h, l);
    }
  }

  lemma NotTakenOwn(env: Env, x: Call, w: World, h: nat, l: Local)
    requires Consistent(w, x.id) && MineDrawn(w) && AllFencedOut(x, w, h)
    requires var o := DoTake(env, w, x.id, x.conf.refreshLease, l.seenR, l.seenF);
             !o.failed && !o.landed
    ensures AllFencedOut(x, DoTake(env, w, x.id, x.conf.refreshLease, l.seenR, l.seenF).w, h)
  {
    var o := DoTake(env, w, x.id, x.conf.refreshLease, l.seenR, l.seenF);
    TakeKeeps(env, w, x.id, x.conf.refreshLease, l.seenR, l.seenF);
    forall i: nat | Own(x, o.w, i) ensures h < i && FencedOut(x, o.w, i) {
      OwnAfterTake(env, x, w, l, i);
      FencedOutStays(x, w, o.w, i);
    }
  }

  lemma LostOwn(env: Env, x: Call, w: World, h: nat, l: Local)
    requires Consistent(w, x.id) && MineDrawn(w) && AllFencedOut(x, w, h) && h < |w.log|
    requires var o := DoTake(env, w, x.id, x.conf.refreshLease, l.seenR, l.seenF);
             && !o.failed && o.landed
             && RunExchange(env, x, o.w, Drawn(env, w), o.row.value).LeaseLost?
    ensures var o := DoTake(env, w, x.id, x.conf.refreshLease, l.seenR, l.seenF);
            var v := RunExchange(env, x, o.w, Drawn(env, w), o.row.value).w;
            && AllFencedOut(x, v, h)
            && |o.w.log| > |w.log| && Own(x, v, |o.w.log| - 1) && FencedOut(x, v, |o.w.log| - 1)
  {
    var o := DoTake(env, w, x.id, x.conf.refreshLease, l.seenR, l.seenF);
    TakenOwn(env, x, w, h, l);
    TakeKeeps(env, w, x.id, x.conf.refreshLease, l.seenR, l.seenF);
    LostAfterTake(env, x, o.w, h, o.row.value);
  }

  lemma LostAfterTake(env: Env, x: Call, w: World, h: nat, lease: Row)
    requires Consistent(w, x.id) && MineDrawn(w) && h < |w.log| - 1
    requires Own(x, w, |w.log| - 1) && FencedBut(x, w, h, |w.log| - 1)
    requires RunExchange(env, x, w, w.log[|w.log| - 1].stmt.nonce, lease).LeaseLost?
    ensures var v := RunExchange(env, x, w, w.log[|w.log| - 1].stmt.nonce, lease).w;
            && AllFencedOut(x, v, h) && Own(x, v, |w.log| - 1) && FencedOut(x, v, |w.log| - 1)
  {
    var v, k := RunExchange(env, x, w, w.log[|w.log| - 1].stmt.nonce, lease).w, |w.log| - 1;
    ExchangeProgresses(env, x, w, w.log[k].stmt.nonce, lease);
    ExchangeOwn(env, x, w, lease);
    OwnIsStable(x, w, v, k);
    FencedButStays(x, w, v, h, k);
  }

  /** Every own lease but the one at `k` is fenced out. */
  ghost predicate FencedBut(x: Call, w: World, h: nat, k: nat) {
    forall i: nat | Own(x, w, i) && i != k :: h < i && FencedOut(x, w, i)
  }

  lemma FencedButStays(x: Call, w: World, v: World, h: nat, k: nat)
    requires Later(w, v, x.id) && v.mine == w.mine && MineDrawn(w) && FencedBut(x, w, h, k)
    ensures FencedBut(x, v, h, k)
  {
    forall i: nat | Own(x, v, i) && i != k ensures h < i && FencedOut(x, v, i) {
      OwnIsStable(x, w, v, i);
      FencedOutStays(x, w, v, i);
    }
  }

  lemma TakenOwn(env: Env, x: Call, w: World, h: nat, l: Local)
    requires Consistent(w, x.id) && MineDrawn(w) && AllFencedOut(x, w, h)
    requires var o := DoTake(env, w, x.id, x.conf.refreshLease, l.seenR, l.seenF);
             !o.failed && o.landed
    ensures var o := DoTake(env, w, x.id, x.conf.refreshLease, l.seenR, l.seenF);
            && |o.w.log| > |w.log| && MineDrawn(o.w)
            && Own(x, o.w, |o.w.log| - 1) && FencedBut(x, o.w, h, |o.w.log| - 1)
  {
    var o := DoTake(env, w, x.id, x.conf.refreshLease, l.seenR, l.seenF);
    var k := |o.w.log| - 1;
    TakeKeeps(env, w, x.id, x.conf.refreshLease, l.seenR, l.seenF);
    OwnAfterTake(env, x, w, l, k);
    forall i: nat | Own(x, o.w, i) && i != k ensures h < i && FencedOut(x, o.w, i) {
      OwnAfterTake(env, x, w, l, i);
      FencedOutStays(x, w, o.w, i);
    }
  }

  /** The first pass: its read is the first read. */
  lemma FirstJudgeOwn(env: Env, x: Call, from: nat, w: World, l: Local, row: Row, p: RowPayload)
    requires Consistent(w, x.id) && from < |w.log| && l.pass == 0 && l.lost == 0
    requires w.log[|w.log| - 1].stmt == Get(x.id) && RowIn(x, w, |w.log| - 1) == Some(row)
    requires w.mine == {} && Spaced(x, w)
    ensures var v := Judge(env, x, w, l, row, p);
            Spaced(x, v.w) && (v.Again? ==> OwnInv(x, from, v.w, v.l))
  {
    var w1 := Clock(env, w);
    ElapseKeeps(env, w, x.id, 0);
    SpacedStays(x, w, w1);
    var h, l1 := |w.log| - 1, l.(seenR := row.refreshedAt, seenF := row.failedAt);
    FirstReadStays(x, w, w1, from, h, l1);
    AskOwn(env, x, from, w1, h, l1);
  }

  lemma PassOwn(env: Env, x: Call, from: nat, w: World, l: Local)
    requires Consistent(w, x.id) && l.lost <= 1 && from <= |w.log| && OwnInv(x, from, w, l)
    ensures var v := Pass(env, x, w, l);
            Spaced(x, v.w) && (v.Again? ==> OwnInv(x, from, v.w, v.l))
  {
    var w1 := Clock(env, w);
    ElapseKeeps(env, w, x.id, 0);
    if TimedOut(env, w, l) {
      SpacedStays(x, w, w1);
    } else {
      ReadOwn(env, x, from, w, w1, l, Counted(l));
    }
  }

  lemma ReadOwn(env: Env, x: Call, from: nat, w: World, w1: World, l: Local, l1: Local)
    requires OwnInv(x, from, w, l) && Later(w, w1, x.id) && w1.mine == w.mine && from <= |w.log|
    requires l1 == l.(lost := 0) && Consistent(w1, x.id)
    ensures var v := ReadRow(env, x, w1, l1);
            Spaced(x, v.w) && (v.Again? ==> OwnInv(x, from, v.w, v.l))
  {
    ReadStays(env, x, w, w1);
    var o := DoStmt(env, w1, x.id, Get(x.id));
    if !o.failed && o.row.Some? && o.row.value.expiresAt > o.w.now && x.sealer.open(x.id, o.row.value.payload).Some? {
      JudgeOwn(env, x, from, w, o.w, l, l1, o.row.value, x.sealer.open(x.id, o.row.value.payload).value);
    }
  }

  lemma ReadStays(env: Env, x: Call, w: World, w1: World)
    requires Consistent(w1, x.id) && Later(w, w1, x.id) && w1.mine == w.mine && MineDrawn(w) && Spaced(x, w)
    ensures var o := DoStmt(env, w1, x.id, Get(x.id));
            && Consistent(o.w, x.id) && Later(w, o.w, x.id) && o.w.mine == w.mine && Spaced(x, o.w)
            && (!o.failed ==>
                  && |w.log| < |o.w.log| && o.w.log[|o.w.log| - 1].stmt == Get(x.id)
                  && RowIn(x, o.w, |o.w.log| - 1) == o.row)
  {
    StmtKeeps(env, w1, x.id, Get(x.id));
    var o := DoStmt(env, w1, x.id, Get(x.id));
    LaterTransitive(w, w1, o.w, x.id);
    SpacedStays(x, w, o.w);
  }

  lemma JudgeOwn(env: Env, x: Call, from: nat, w: World, w1: World, l: Local, l1: Local, row: Row, p: RowPayload)
    requires OwnInv(x, from, w, l) && Later(w, w1, x.id) && w1.mine == w.mine && from <= |w.log| < |w1.log|
    requires l1 == l.(lost := 0) && Consistent(w1, x.id) && Spaced(x, w1)
    requires w1.log[|w1.log| - 1].stmt == Get(x.id) && RowIn(x, w1, |w1.log| - 1) == Some(row)
    ensures var v := Judge(env, x, w1, l1, row, p);
            Spaced(x, v.w) && (v.Again? ==> OwnInv(x, from, v.w, v.l))
  {
    if l.pass == 0 {
      FirstJudgeOwn(env, x, from, w1, l1, row, p);
    } else {
      var h: nat :| FirstRead(x, w, from, h, l) && AllFencedOut(x, w, h);
      FirstReadStays(x, w, w1, from, h, l);
      AllFencedOutStays(x, w, w1, h);
      AskOwn(env, x, from, w1, h, l1);
    }
  }

  lemma {:induction false} LoopOwn(env: Env, x: Call, from: nat, w: World, l: Local)
    requires Consistent(w, x.id) && l.lost <= 1 && from <= |w.log| && OwnInv(x, from, w, l)
    ensures Spaced(x, Loop(env, x, w, l).0)
    decreases Life(w, x.id)
  {
    PassProgresses(env, x, w, l);
    PassOwn(env, x, from, w, l);
    var v := Pass(env, x, w, l);
    if v.Again? {
      LoopOwn(env, x, from, v.w, v.l);
    }
  }

  /** A fleet with one lease length sees one call's exchanges more than two
      leases apart, whatever the others do. */
  lemma OwnExchangesAreSpaced(env: Env, x: Call, w: World)
    requires Consistent(w, x.id) && w.mine == {}
    ensures Spaced(x, Refresh(env, x, w).0)
  {
    ElapseKeeps(env, w, x.id, 0);
    var w1 := Clock(env, w);
    LoopOwn(env, x, |w.log|, w1, Begin(env, x, w1));
  }

  // ----- passes past the deadline -----

  /** After the first `n` events the call took a lease whose write-back was
      then fenced out. */
  ghost predicate LostSince(x: Call, w: World, n: nat) {
    exists i: nat :: n <= i && Own(x, w, i) && FencedOut(x, w, i)
  }

  /** Other callers' events do not count. */
  lemma NoneOwnBetween(x: Call, w: World, w1: World, v: World)
    requires Consistent(w1, x.id) && MineDrawn(w) && Later(w, w1, x.id) && w1.mine == w.mine && Later(w1, v, x.id)
    ensures LostSince(x, v, |w.log|) <==> LostSince(x, v, |w1.log|)
  {
    forall i: nat | |w.log| <= i && Own(x, v, i) ensures |w1.log| <= i {
      assert i < |w1.log| ==> v.log[i] == w1.log[i] && NewEvent(w, x.id, w1.log[i]);
    }
  }

  /** A pass that comes round from asking for the lease has a lost write to its
      name exactly if it took the lease and was fenced out. */
  lemma AskLost(env: Env, x: Call, w: World, l: Local)
    requires Consistent(w, x.id) && MineDrawn(w) && l.lost == 0
    ensures var v := AskForLease(env, x, w, l);
            v.Again? ==> v.l.lost <= 1 && (v.l.lost == 1 <==> LostSince(x, v.w, |w.log|))
  {
    var o := DoTake(env, w, x.id, x.conf.refreshLease, l.seenR, l.seenF);
    var v := AskForLease(env, x, w, l);
    TakeKeeps(env, w, x.id, x.conf.refreshLease, l.seenR, l.seenF);
    if v.Again? && o.landed {
      TakenIsLost(env, x, w, l);
    } else if v.Again? {
      OwnAfterTake(env, x, w, l, 0);
      ElapseKeeps(env, o.w, x.id, l.backoff);
      forall i: nat | Own(x, v.w, i) ensures i < |w.log| {
        OwnIsStable(x, o.w, v.w, i);
        OwnAfterTake(env, x, w, l, i);
      }
    }
  }

  lemma TakenIsLost(env: Env, x: Call, w: World, l: Local)
    requires Consistent(w, x.id) && MineDrawn(w)
    requires var o := DoTake(env, w, x.id, x.conf.refreshLease, l.seenR, l.seenF);
             && !o.failed && o.landed
             && RunExchange(env, x, o.w, Drawn(env, w), o.row.value).LeaseLost?
    ensures var o := DoTake(env, w, x.id, x.conf.refreshLease, l.seenR, l.seenF);
            LostSince(x, RunExchange(env, x, o.w, Drawn(env, w), o.row.value).w, |w.log|)
  {
    var o := DoTake(env, w, x.id, x.conf.refreshLease, l.seenR, l.seenF);
    var v, k := RunExchange(env, x, o.w, Drawn(env, w), o.row.value).w, |o.w.log| - 1;
    TakeKeeps(env, w, x.id, x.conf.refreshLease, l.seenR, l.seenF);
    OwnAfterTake(env, x, w, l, k);
    assert Own(x, o.w, k);
    ExchangeProgresses(env, x, o.w, Drawn(env, w), o.row.value);
    ExchangeOwn(env, x, o.w, o.row.value);
    OwnIsStable(x, o.w, v, k);
    assert |w.log| <= k && Own(x, v, k) && FencedOut(x, v, k);
  }

  lemma JudgeLost(env: Env, x: Call, w: World, l: Local, row: Row, p: RowPayload)
    requires Consistent(w, x.id) && MineDrawn(w) && l.lost == 0
    ensures var v := Judge(env, x, w, l, row, p);
            v.Again? ==> v.l.lost <= 1 && (v.l.lost == 1 <==> LostSince(x, v.w, |w.log|))
  {
    if l.pass == 0 {
      var w1, l1 := Clock(env, w), l.(seenR := row.refreshedAt, seenF := row.failedAt);
      ElapseKeeps(env, w, x.id, 0);
      AskLost(env, x, w1, l1);
      LeaseProgresses(env, x, w1, l1);
      NoneOwnBetween(x, w, w1, AskForLease(env, x, w1, l1).w);
    } else {
      AskLost(env, x, w, l);
    }
  }

  lemma ReadLost(env: Env, x: Call, w: World, l: Local)
    requires Consistent(w, x.id) && MineDrawn(w) && l.lost == 0
    ensures var v := ReadRow(env, x, w, l);
            v.Again? ==> v.l.lost <= 1 && (v.l.lost == 1 <==> LostSince(x, v.w, |w.log|))
  {
    var o, v := DoStmt(env, w, x.id, Get(x.id)), ReadRow(env, x, w, l);
    StmtKeeps(env, w, x.id, Get(x.id));
    if v.Again? {
      var p := x.sealer.open(x.id, o.row.value.payload).value;
      JudgeLost(env, x, o.w, l, o.row.value, p);
      JudgeProgresses(env, x, o.w, l, o.row.value, p);
      NoneOwnBetween(x, w, o.w, v.w);
    }
  }

  lemma PassLost(env: Env, x: Call, w: World, l: Local)
    requires Consistent(w, x.id) && MineDrawn(w) && l.lost <= 1
    ensures var v := Pass(env, x, w, l);
            v.Again? ==> v.l.lost <= 1 && (v.l.lost == 1 <==> LostSince(x, v.w, |w.log|))
  {
    var w1 := Clock(env, w);
    ElapseKeeps(env, w, x.id, 0);
    if !TimedOut(env, w, l) {
      ReadLost(env, x, w1, Counted(l));
      ReadProgresses(env, x, w1, Counted(l));
      NoneOwnBetween(x, w, w1, Pass(env, x, w, l).w);
    }
  }

  /** What the head of every pass keeps. */
  ghost predicate Kept(env: Env, x: Call, from: nat, h: nat, w: World, l: Local) {
    HeadInv(env, x, from, h, w, l) && OwnInv(x, from, w, l)
  }

  lemma PassKept(env: Env, x: Call, from: nat, h: nat, a: Head, b: Head)
    requires Faithful(x.sealer) && Kept(env, x, from, h, a.w, a.l) && Follows(env, x, a, b)
    ensures Kept(env, x, from, h, b.w, b.l) && b.l.pass == a.l.pass + 1 && b.l.deadline == a.l.deadline
  {
    PassProgresses(env, x, a.w, a.l);
    PassMeaning(env, x, from, h, a.w, a.l);
    PassOwn(env, x, from, a.w, a.l);
  }

  lemma FirstKept(env: Env, x: Call, w: World, first: Head)
    requires Consistent(w, x.id) && w.mine == {} && first == Head(Clock(env, w), Begin(env, x, Clock(env, w)))
    ensures Kept(env, x, |w.log|, FirstReadOf(env, w), first.w, first.l)
    ensures first.l.pass == 0 && first.l.deadline == Clock(env, w).now + env.skew + x.conf.refreshWait
  {
    ElapseKeeps(env, w, x.id, 0);
  }

  /** Every pass of a call starts from what the loop keeps. */
  lemma {:induction false} HeadsKeep(env: Env, x: Call, w: World, heads: seq<Head>, n: nat)
    requires Faithful(x.sealer) && Consistent(w, x.id) && w.mine == {}
    requires PassesOf(env, x, w, heads) && n < |heads|
    ensures Kept(env, x, |w.log|, FirstReadOf(env, w), heads[n].w, heads[n].l)
    ensures heads[n].l.pass == n && heads[n].l.deadline == Clock(env, w).now + env.skew + x.conf.refreshWait
  {
    if n == 0 {
      FirstKept(env, x, w, heads[0]);
    } else {
      HeadsKeep(env, x, w, heads, n - 1);
      assert Follows(env, x, heads[n - 1], heads[n - 1 + 1]);
      PassKept(env, x, |w.log|, FirstReadOf(env, w), heads[n - 1], heads[n]);
    }
  }

  /** What a pass that came round owes to the one before it. */
  lemma OwedTo(env: Env, x: Call, last: Head, head: Head)
    requires Consistent(last.w, x.id) && MineDrawn(last.w) && last.l.lost <= 1 && Follows(env, x, last, head)
    ensures head.l.lost <= 1
    ensures head.l.lost == 1 <==> LostSince(x, head.w, |last.w.log|)
  {
    PassLost(env, x, last.w, last.l);
  }

  /** Passes beyond the deadline only follow a lost write: a later pass of a
      call times out exactly if it starts at or past the deadline and the pass
      before it did not take a lease whose write-back was fenced out. */
  lemma OverdueReadFollowsLostWrite(env: Env, x: Call, w: World, heads: seq<Head>, n: nat)
    requires Faithful(x.sealer) && Consistent(w, x.id) && w.mine == {}
    requires PassesOf(env, x, w, heads) && 0 < n < |heads|
    ensures var last, head := heads[n - 1], heads[n];
            var overdue := Clock(env, w).now + x.conf.refreshWait <= Clock(env, head.w).now;
            && head.l.lost <= 1
            && (head.l.lost == 1 <==> LostSince(x, head.w, |last.w.log|))
            && (TimedOut(env, head.w, head.l) <==> overdue && !LostSince(x, head.w, |last.w.log|))
  {
    HeadsKeep(env, x, w, heads, n - 1);
    HeadsKeep(env, x, w, heads, n);
    assert Follows(env, x, heads[n - 1], heads[n - 1 + 1]);
    OwedTo(env, x, heads[n - 1], heads[n]);
  }

  /** How many exchanges the call started, up to event `k`. */
  ghost function OwnCount(x: Call, w: World, k: nat): nat {
    if k == 0 then 0 else OwnCount(x, w, k - 1) + if Own(x, w, k - 1) then 1 else 0
  }

  lemma {:induction false} LastOwn(x: Call, w: World, k: nat) returns (j: nat)
    requires OwnCount(x, w, k) > 0
    ensures j < k && Own(x, w, j) && OwnCount(x, w, j) == OwnCount(x, w, k) - 1
  {
    if Own(x, w, k - 1) {
      j := k - 1;
    } else {
      j := LastOwn(x, w, k - 1);
    }
  }

  /** `n` leases, two lease lengths apart, fit into `span`. */
  predicate Fills(n: int, lease: int, span: int) {
    (n - 1) * (2 * lease) <= span
  }

  lemma {:induction false} OwnLeasesFill(x: Call, w: World, k: nat, j: nat) returns (i: nat)
    requires Spaced(x, w) && LeaseLength(x.id, w.log, x.conf.refreshLease) && x.conf.refreshLease > 0
    requires j < k && Own(x, w, j) && OwnCount(x, w, j) == OwnCount(x, w, k) - 1
    ensures i <= j && Own(x, w, i)
    ensures Fills(OwnCount(x, w, k), x.conf.refreshLease, w.log[j].at - w.log[i].at)
    decreases k
  {
    var n, d := OwnCount(x, w, k), 2 * x.conf.refreshLease;
    if n == 1 {
      i := j;
      FillBase(n, d, 0);
    } else {
      var h := LastOwn(x, w, j);
      i := OwnLeasesFill(x, w, j, h);
      FillStep(n, d, w.log[h].at - w.log[i].at, w.log[j].at - w.log[i].at);
    }
  }

  /** An own lease was taken during the call and before the row expired. */
  lemma OwnLeaseWithinLife(x: Call, w: World, v: World, i: nat)
    requires Consistent(w, x.id) && Consistent(v, x.id) && Later(w, v, x.id) && w.mine == {}
    requires Own(x, v, i)
    ensures x.id in w.rows && w.now <= v.log[i].at < w.rows[x.id].expiresAt
  {
    var r0, from := Lookup(w.base, x.id), |w.log|;
    OwnComesLater(x, w, v, i);
    RowAtPrefix(r0, x.id, w.log, v.log, from);
    if RowAt(r0, x.id, v.log, from).None? {
      GoneStaysGone(r0, x.id, v.log, from, i);
    }
    LifetimeIsFixed(r0, x.id, v.log, from, i);
  }

  lemma OwnComesLater(x: Call, w: World, v: World, i: nat)
    requires Consistent(w, x.id) && Later(w, v, x.id) && w.mine == {}
    requires Own(x, v, i)
    ensures |w.log| <= i
  {
  }

  /** The most exchanges that fit into the life of a session, two lease
      lengths apart. */
  function MostExchanges(life: nat, lease: int): (n: int)
    requires lease > 0
    ensures n >= 1
  {
    QuotientBound(0, 2 * lease, life);
    1 + life / (2 * lease)
  }

  /** One call starts at most one exchange, and one more for every two lease
      lengths the session has left to live. */
  lemma ExchangesAreBounded(env: Env, x: Call, w: World)
    requires Faithful(x.sealer) && Consistent(w, x.id) && w.mine == {} && Accepted(x.conf)
    ensures var v := Refresh(env, x, w).0;
            LeaseLength(x.id, v.log, x.conf.refreshLease) ==>
              OwnCount(x, v, |v.log|) <= MostExchanges(Life(w, x.id), x.conf.refreshLease)
  {
    var v := Refresh(env, x, w).0;
    RefreshMeansWhatItSays(env, x, w);
    OwnExchangesAreSpaced(env, x, w);
    forall i: nat, j: nat | Own(x, v, i) && Own(x, v, j) ensures v.log[j].at - v.log[i].at <= Life(w, x.id) {
      OwnLeasesWithinLife(x, w, v, i, j);
    }
    SpacedAreBounded(x, v, Life(w, x.id));
  }

  lemma SpacedAreBounded(x: Call, v: World, life: nat)
    requires Spaced(x, v) && x.conf.refreshLease > 0
    requires forall i: nat, j: nat | Own(x, v, i) && Own(x, v, j) :: v.log[j].at - v.log[i].at <= life
    ensures LeaseLength(x.id, v.log, x.conf.refreshLease) ==>
              OwnCount(x, v, |v.log|) <= MostExchanges(life, x.conf.refreshLease)
  {
    var n := OwnCount(x, v, |v.log|);
    if LeaseLength(x.id, v.log, x.conf.refreshLease) && n > 0 {
      var j := LastOwn(x, v, |v.log|);
      var i := OwnLeasesFill(x, v, |v.log|, j);
      SpanBounds(n, x.conf.refreshLease, v.log[j].at - v.log[i].at, life);
    }
  }

  lemma SpanBounds(n: int, lease: int, span: int, life: nat)
    requires lease > 0 && Fills(n, lease, span) && span <= life
    ensures n <= MostExchanges(life, lease)
  {
    QuotientBound(n - 1, 2 * lease, life);
  }

  lemma OwnLeasesWithinLife(x: Call, w: World, v: World, i: nat, j: nat)
    requires Consistent(w, x.id) && Consistent(v, x.id) && Later(w, v, x.id) && w.mine == {}
    requires Own(x, v, i) && Own(x, v, j)
    ensures v.log[j].at - v.log[i].at <= Life(w, x.id)
  {
    OwnLeaseWithinLife(x, w, v, i);
    OwnLeaseWithinLife(x, w, v, j);
  }
}
