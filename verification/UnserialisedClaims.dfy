/**
 `BufferRef` without the pool mutex: which commits can make a claim come before the
 grace period is over.
 */
module UnserialisedClaims {
  import opened BlockWords
  import opened BlockProtocol
  import opened BlockInvariants
  import opened BlockHistory
  import opened PoolProtocol

  /** Event `m` is a successful claim CAS of actor `a`. */
  predicate Claims(init: Block, events: seq<Event>, m: nat, a: nat) {
    && m < |events| && events[m].Act? && events[m].actor == a
    && var s := At(init, events, m);
       a < |s.actors| && s.actors[a].ReserveClaim? && s.refcount == 0
  }

  predicate AboutToClaim(s: Block, a: nat) {
    a < |s.actors| && s.actors[a].ReserveClaim?
  }

  /** Event `t` is the timestamp load of the reservation that actor `a` is about to claim before event `m`. */
  predicate Loads(init: Block, events: seq<Event>, t: nat, a: nat, m: nat)
    requires m <= |events|
  {
    && t < m && events[t].Act? && events[t].actor == a && !AboutToClaim(At(init, events, t), a)
    && forall n :: t < n <= m ==> AboutToClaim(At(init, events, n), a)
  }

  /** Every commit from the `from`-th on is at least a grace period old. */
  predicate OldFrom(s: Block, from: nat) {
    forall k :: from <= k < |s.log| ==> s.log[k].at + GRACE_PERIOD_US <= s.clock
  }

  // ----- the load -----

  lemma ClaimPending(s: Block, e: Event, a: nat)
    requires AboutToClaim(Apply(s, e), a)
    ensures e.Act? && e.actor == a ==>
      a < |s.actors| && s.actors[a].ReserveStamp? && GracePassed(s.stamp, s.actors[a].now)
    ensures !(e.Act? && e.actor == a) ==> AboutToClaim(s, a)
  {
    if e.Act? && e.actor < |s.actors| && e.actor != a {
      StepFrame(s, e.actor, e.choice);
    } else if e.Act? && e.actor == a && !(s.actors[a].ReserveStamp? && GracePassed(s.stamp, s.actors[a].now)) {
      PendingStep(s, a, e.choice);
    }
  }

  lemma CallsPending(s: Block, a: nat, choice: Choice)
    requires a < |s.actors|
    ensures Releasing(s.actors[a]) ==> !AboutToClaim(ReleaseStep(s, a), a)
    ensures Acquiring(s.actors[a]) ==> !AboutToClaim(AcquireStep(s, a, choice), a)
  {
  }

  lemma ReservePending(s: Block, a: nat)
    requires a < |s.actors| && Reserving(s.actors[a])
    requires !(s.actors[a].ReserveStamp? && GracePassed(s.stamp, s.actors[a].now))
    ensures !AboutToClaim(ReserveStep(s, a), a)
  {
  }

  lemma RestPending(s: Block, a: nat, choice: Choice)
    requires a < |s.actors| && (s.actors[a].Idle? || s.actors[a].Reserved? || s.actors[a].Quarantined?)
    ensures !AboutToClaim(Apply(s, Act(a, choice)), a)
  {
  }

  lemma PendingStep(s: Block, a: nat, choice: Choice)
    requires a < |s.actors| && !(s.actors[a].ReserveStamp? && GracePassed(s.stamp, s.actors[a].now))
    ensures !AboutToClaim(Apply(s, Act(a, choice)), a)
  {
    var s', pc := Apply(s, Act(a, choice)), s.actors[a];
    CallsPending(s, a, choice);
    if Reserving(pc) {
      ReservePending(s, a);
      assert s' == ReserveStep(s, a);
    } else if Releasing(pc) {
      assert s' == ReleaseStep(s, a);
    } else if Acquiring(pc) {
      assert s' == AcquireStep(s, a, choice);
    } else if pc.Held? {
      OwnerMoves(s, a, choice);
      assert s' == OwnerStep(s, a, choice);
    } else {
      RestPending(s, a, choice);
    }
  }

  /** Whoever is about to claim has loaded the timestamp, at one event. */
  lemma {:induction false} ClaimLoaded(init: Block, events: seq<Event>, a: nat, m: nat) returns (t: nat)
    requires Init(init) && m <= |events| && AboutToClaim(At(init, events, m), a)
    ensures Loads(init, events, t, a, m)
    decreases m
  {
    assert m > 0;
    var s, e := At(init, events, m - 1), events[m - 1];
    AtNext(init, events, m - 1);
    ClaimPending(s, e, a);
    if AboutToClaim(s, a) {
      t := ClaimLoaded(init, events, a, m - 1);
    } else {
      t := m - 1;
    }
  }

  // ----- the invariant -----

  /** As under the mutex, except that time may pass between the timestamp load and the claim. */
  predicate ClaimsInv(s: Block) {
    StampOk(s) && forall i :: 0 <= i < |s.actors| && !s.actors[i].ReserveClaim? ==> ClockOk(s, s.actors[i])
  }

  /** The event claims the block only if every commit is old enough. */
  predicate ClaimsInTime(s: Block, e: Event) {
    e.Act? && AboutToClaim(s, e.actor) && s.refcount == 0 ==> GraceElapsed(s)
  }

  lemma ClaimActStep(s: Block, a: nat, choice: Choice)
    requires Inv(s) && !s.overflowed && ClaimsInv(s) && a < |s.actors| && ClaimsInTime(s, Act(a, choice))
    ensures ClaimsInv(Apply(s, Act(a, choice)))
  {
    var s' := Apply(s, Act(a, choice));
    var pc := s.actors[a];
    HistoryStepHolds(s, a, choice);
    if pc.ReserveClaim? && s.refcount != 0 {
      assert s' == Goto(s, a, Idle);
    } else {
      if i :| 0 <= i < |s.actors| && Claiming(s.actors[i]) {
        assert ClockOk(s, s.actors[i]);
      }
      ActorClock(s, a, choice);
    }
    forall i | 0 <= i < |s'.actors| && !s'.actors[i].ReserveClaim? ensures ClockOk(s', s'.actors[i]) {
      if i != a {
        assert ClockOk(s, s.actors[i]);
        assert pc.ReleaseStamp? ==> !Publisher(s.actors[i]);
      }
    }
  }

  lemma ClaimStep(s: Block, e: Event)
    requires Inv(s) && !s.overflowed && ClaimsInv(s) && ClaimsInTime(s, e)
    ensures ClaimsInv(Apply(s, e))
  {
    if e.Act? {
      if e.actor < |s.actors| {
        ClaimActStep(s, e.actor, e.choice);
      }
    } else {
      var s' := Apply(s, e);
      assert s'.actors == s.actors && s'.log == s.log;
      forall i | 0 <= i < |s'.actors| && !s'.actors[i].ReserveClaim? ensures ClockOk(s', s'.actors[i]) {
        assert ClockOk(s, s.actors[i]);
      }
    }
  }

  /** Every claim before event `m` came at least a grace period after every commit. */
  ghost predicate InTimeBefore(init: Block, events: seq<Event>, m: nat)
    requires m <= |events|
  {
    forall n: nat, a: nat :: n < m && Claims(init, events, n, a) ==> GraceElapsed(At(init, events, n))
  }

  lemma {:induction false} ClaimsRun(init: Block, events: seq<Event>, m: nat)
    requires Init(init) && m <= |events| && !At(init, events, m).overflowed && InTimeBefore(init, events, m)
    ensures ClaimsInv(At(init, events, m))
    decreases m
  {
    if m > 0 {
      var s, e := At(init, events, m - 1), events[m - 1];
      AtNext(init, events, m - 1);
      InitInv(init);
      RunInv(init, events[..m - 1]);
      OverflowStep(s, e);
      ClaimsRun(init, events, m - 1);
      if e.Act? && AboutToClaim(s, e.actor) && s.refcount == 0 {
        assert Claims(init, events, m - 1, e.actor);
      }
      ClaimStep(s, e);
    }
  }

  lemma LogStep(s: Block, e: Event)
    requires Inv(s)
    ensures s.log <= Apply(s, e).log && s.clock <= Apply(s, e).clock
    ensures s.overflowed ==> Apply(s, e).overflowed
  {
    OverflowStep(s, e);
    if e.Act? && e.actor < |s.actors| {
      HistoryStepHolds(s, e.actor, e.choice);
    }
  }

  /** Time goes on, and what is committed stays in the log. */
  lemma {:induction false} LogGrows(init: Block, events: seq<Event>, t: nat, m: nat)
    requires Init(init) && t <= m <= |events|
    ensures At(init, events, t).log <= At(init, events, m).log
    ensures At(init, events, t).clock <= At(init, events, m).clock
    ensures At(init, events, t).overflowed ==> At(init, events, m).overflowed
    decreases m
  {
    if t < m {
      LogGrows(init, events, t, m - 1);
      AtNext(init, events, m - 1);
      InitInv(init);
      RunInv(init, events[..m - 1]);
      LogStep(At(init, events, m - 1), events[m - 1]);
    }
  }

  /** At the load, every commit stamped so far is old enough. */
  lemma OldAtLoad(init: Block, events: seq<Event>, t: nat, a: nat, m: nat)
    requires Init(init) && m <= |events| && Loads(init, events, t, a, m)
    requires !At(init, events, t).overflowed && InTimeBefore(init, events, t)
    ensures GraceElapsed(At(init, events, t))
  {
    var s := At(init, events, t);
    AtNext(init, events, t);
    assert AboutToClaim(At(init, events, t + 1), a);
    ClaimPending(s, events[t], a);
    ClaimsRun(init, events, t);
    assert ClockOk(s, s.actors[a]);
  }

  /**
   Which commits make a claim early.  As long as no earlier claim was early, a claim
   comes at least a grace period after every commit if and only if it does so for
   those stamped between its own timestamp load and its CAS.
   */
  lemma OnlyCommitsSinceLoad(init: Block, events: seq<Event>, t: nat, a: nat, m: nat)
    requires Init(init) && Claims(init, events, m, a) && Loads(init, events, t, a, m)
    requires !At(init, events, m).overflowed && InTimeBefore(init, events, m)
    ensures GraceElapsed(At(init, events, m)) <==> OldFrom(At(init, events, m), |At(init, events, t).log|)
  {
    var s, s' := At(init, events, t), At(init, events, m);
    LogGrows(init, events, t, m);
    OldAtLoad(init, events, t, a, m);
    forall k | 0 <= k < |s.log| ensures s'.log[k].at + GRACE_PERIOD_US <= s'.clock {
      assert s'.log[k] == s.log[k];
    }
  }

  /** Every claim before event `m` is in time with respect to the commits stamped since its timestamp load. */
  ghost predicate WindowsBefore(init: Block, events: seq<Event>, m: nat)
    requires m <= |events|
  {
    forall n: nat, a: nat, t: nat ::
      n < m && Claims(init, events, n, a) && Loads(init, events, t, a, n) ==>
        OldFrom(At(init, events, n), |At(init, events, t).log|)
  }

  /**
   Over whole runs: the grace period is kept by every claim if and only if no claim
   is early for a commit stamped between its own timestamp load and its CAS.
   */
  lemma {:induction false} GraceKeptExactly(init: Block, events: seq<Event>, m: nat)
    requires Init(init) && m <= |events| && !At(init, events, m).overflowed
    ensures InTimeBefore(init, events, m) <==> WindowsBefore(init, events, m)
    decreases m
  {
    if m > 0 {
      LogGrows(init, events, m - 1, m);
      GraceKeptExactly(init, events, m - 1);
      if WindowsBefore(init, events, m) {
        forall n: nat, a: nat | n < m && Claims(init, events, n, a) ensures GraceElapsed(At(init, events, n)) {
          if n == m - 1 {
            var t := ClaimLoaded(init, events, a, n);
            OnlyCommitsSinceLoad(init, events, t, a, n);
          }
        }
      }
    }
  }
}
