/**
 The block protocol under the pool mutex.  `GpuBufferPool::reserve_for_publish`
 and `commit` run with the mutex held; `cancel` does not take it, and neither do
 subscribers.
 */
module PoolProtocol {
  import opened Machine
  import opened BlockWords
  import opened BlockProtocol
  import opened BlockInvariants
  import opened BlockHistory

  datatype Pooled = Pooled(block: Block, mutex: Option<nat>)

  datatype PoolEvent =
    | Lock(actor: nat)
    | Unlock(actor: nat)
    | Inner(event: Event)

  /** Inside a reserve or a commit call. */
  predicate Serial(pc: Pc) {
    || Reserving(pc) || pc.ReleaseClock? || pc.ReleaseStamp?
    || (pc.ReleaseCheck? && pc.published) || (pc.ReleaseDrop? && pc.published)
  }

  /** The event starts a call that the pool makes only with the mutex held. */
  predicate NeedsMutex(s: Block, e: Event) {
    && e.Act? && e.actor < |s.actors|
    && (|| (s.actors[e.actor].Idle? && e.choice.Reserve?)
        || (s.actors[e.actor].Reserved? && e.choice.Commit?))
  }

  function PoolApply(p: Pooled, e: PoolEvent): Pooled {
    match e
    case Lock(a) => if p.mutex.None? then p.(mutex := Some(a)) else p
    case Unlock(a) =>
      if p.mutex == Some(a) && (a < |p.block.actors| ==> !Serial(p.block.actors[a])) then p.(mutex := None) else p
    case Inner(event) =>
      if NeedsMutex(p.block, event) && p.mutex != Some(event.actor) then p
      else p.(block := Apply(p.block, event))
  }

  function PoolRun(p: Pooled, events: seq<PoolEvent>): Pooled
    decreases |events|
  {
    if events == [] then p else PoolRun(PoolApply(p, events[0]), events[1..])
  }

  predicate PoolInit(p: Pooled) {
    Init(p.block) && p.mutex.None?
  }

  // ----- the invariant -----

  /** No commit so far is later than `t`. */
  predicate CommittedBy(s: Block, t: nat) {
    forall k :: 0 <= k < |s.log| ==> s.log[k].at <= t
  }

  predicate ClockOk(s: Block, pc: Pc) {
    match pc
    case ReserveCheck(now) => now <= s.clock
    case ReserveStamp(now) => now <= s.clock
    case ReserveClaim => GraceElapsed(s)
    case ReserveReadUid => GraceElapsed(s)
    case ReserveOverflow => GraceElapsed(s)
    case ReserveStoreUid(_) => GraceElapsed(s)
    case ReserveClearStamp(_) => GraceElapsed(s)
    case ReleaseStamp(_, now) => 0 < now <= s.clock && CommittedBy(s, now)
    case Held(_, raced, timely, _) => timely ==> !raced
    case _ => true
  }

  /** A timestamp of 0 means that every commit is old enough; any other is that of the latest commit. */
  predicate StampOk(s: Block) {
    && 0 < s.clock && CommittedBy(s, s.clock)
    && if s.stamp == 0 then GraceElapsed(s) else CommittedBy(s, s.stamp)
  }

  predicate GraceInv(p: Pooled) {
    var s := p.block;
    && StampOk(s)
    && (forall i :: 0 <= i < |s.actors| && Serial(s.actors[i]) ==> p.mutex == Some(i))
    && (forall i :: 0 <= i < |s.actors| ==> ClockOk(s, s.actors[i]))
  }

  // ----- one step -----

  /** How a step moves the clock obligations of the actor that takes it. */
  lemma ReserveClock(s: Block, a: nat)
    requires a < |s.actors| && Reserving(s.actors[a]) && ClockOk(s, s.actors[a])
    requires if s.stamp == 0 then GraceElapsed(s) else CommittedBy(s, s.stamp)
    ensures ClockOk(ReserveStep(s, a), ReserveStep(s, a).actors[a])
    ensures ReserveStep(s, a).clock == s.clock
    ensures Serial(ReserveStep(s, a).actors[a]) ==> Serial(s.actors[a])
  {
  }

  lemma ReleaseClockOk(s: Block, a: nat)
    requires a < |s.actors| && Releasing(s.actors[a]) && ClockOk(s, s.actors[a])
    requires 0 < s.clock && CommittedBy(s, s.clock)
    ensures ClockOk(ReleaseStep(s, a), ReleaseStep(s, a).actors[a])
    ensures ReleaseStep(s, a).clock == s.clock
    ensures Serial(ReleaseStep(s, a).actors[a]) ==> Serial(s.actors[a])
  {
  }

  lemma AcquireClock(s: Block, a: nat, choice: Choice)
    requires a < |s.actors| && Acquiring(s.actors[a])
    requires SomeClaiming(s) ==> GraceElapsed(s)
    ensures ClockOk(AcquireStep(s, a, choice), AcquireStep(s, a, choice).actors[a])
    ensures AcquireStep(s, a, choice).clock == s.clock
    ensures !Serial(AcquireStep(s, a, choice).actors[a])
  {
  }

  lemma OwnerClock(s: Block, a: nat, s': Block)
    requires a < |s.actors| && s.actors[a].Held? && ClockOk(s, s.actors[a]) && OwnerMove(s, a, s')
    ensures ClockOk(s', s'.actors[a]) && s'.clock == s.clock && !Serial(s'.actors[a])
  {
  }

  lemma IdleClock(s: Block, a: nat, choice: Choice)
    requires a < |s.actors| && (s.actors[a].Idle? || s.actors[a].Reserved? || s.actors[a].Quarantined?)
    ensures ClockOk(Apply(s, Act(a, choice)), Apply(s, Act(a, choice)).actors[a])
    ensures Apply(s, Act(a, choice)).clock == s.clock
    ensures Serial(Apply(s, Act(a, choice)).actors[a]) ==> NeedsMutex(s, Act(a, choice))
  {
  }

  lemma ClaimingElapsed(p: Pooled)
    requires GraceInv(p)
    ensures SomeClaiming(p.block) ==> GraceElapsed(p.block)
  {
    if i :| 0 <= i < |p.block.actors| && Claiming(p.block.actors[i]) {
      assert ClockOk(p.block, p.block.actors[i]);
    }
  }

  lemma ActorClock(s: Block, a: nat, choice: Choice)
    requires StampOk(s) && (SomeClaiming(s) ==> GraceElapsed(s)) && a < |s.actors| && ClockOk(s, s.actors[a])
    ensures
      var s' := Apply(s, Act(a, choice));
      && ClockOk(s', s'.actors[a]) && s'.clock == s.clock
      && (Serial(s'.actors[a]) ==> Serial(s.actors[a]) || NeedsMutex(s, Act(a, choice)))
  {
    var s' := Apply(s, Act(a, choice));
    var pc := s.actors[a];
    if Reserving(pc) {
      assert s' == ReserveStep(s, a);
      ReserveClock(s, a);
    } else if Releasing(pc) {
      assert s' == ReleaseStep(s, a);
      ReleaseClockOk(s, a);
    } else if Acquiring(pc) {
      assert s' == AcquireStep(s, a, choice);
      AcquireClock(s, a, choice);
    } else if pc.Held? {
      assert s' == OwnerStep(s, a, choice);
      OwnerMoves(s, a, choice);
      OwnerClock(s, a, s');
    } else {
      IdleClock(s, a, choice);
    }
  }

  lemma GraceActStep(p: Pooled, a: nat, choice: Choice)
    requires GraceInv(p) && a < |p.block.actors|
    requires NeedsMutex(p.block, Act(a, choice)) ==> p.mutex == Some(a)
    ensures GraceInv(p.(block := Apply(p.block, Act(a, choice))))
  {
    var s, s' := p.block, Apply(p.block, Act(a, choice));
    assert ClockOk(s, s.actors[a]);
    ClaimingElapsed(p);
    ActorClock(s, a, choice);
    HistoryStepHolds(s, a, choice);
    forall i | 0 <= i < |s'.actors| ensures ClockOk(s', s'.actors[i]) {
      assert ClockOk(s, s.actors[i]);
      if i != a && s.actors[a].ReleaseStamp? {
        assert Serial(s.actors[a]) && !Serial(s.actors[i]);
      }
    }
  }

  lemma GraceStep(p: Pooled, e: PoolEvent)
    requires GraceInv(p)
    ensures GraceInv(PoolApply(p, e))
  {
    if e.Inner? && e.event.Act? {
      if e.event.actor < |p.block.actors| && (NeedsMutex(p.block, e.event) ==> p.mutex == Some(e.event.actor)) {
        GraceActStep(p, e.event.actor, e.event.choice);
      }
    } else {
      var s, s' := p.block, PoolApply(p, e).block;
      assert s'.actors == s.actors && s'.log == s.log;
      forall i | 0 <= i < |s'.actors| ensures ClockOk(s', s'.actors[i]) {
        assert ClockOk(s, s.actors[i]);
      }
    }
  }

  predicate PoolInv(p: Pooled) {
    FullInv(p.block) && GraceInv(p)
  }

  lemma {:induction false} PoolRunInv(p: Pooled, events: seq<PoolEvent>)
    requires PoolInv(p)
    ensures PoolInv(PoolRun(p, events))
    decreases |events|
  {
    if events != [] {
      GraceStep(p, events[0]);
      if events[0].Inner? {
        FullStep(p.block, events[0].event);
      }
      PoolRunInv(PoolApply(p, events[0]), events[1..]);
    }
  }

  lemma PoolReachable(init: Pooled, events: seq<PoolEvent>)
    requires PoolInit(init)
    ensures PoolInv(PoolRun(init, events))
  {
    FullInit(init.block);
    PoolRunInv(init, events);
  }

  /** The block events of a pool run, position by position; what only concerns the mutex lets no time pass. */
  function Project(p: Pooled, events: seq<PoolEvent>): (inner: seq<Event>)
    ensures |inner| == |events|
    decreases |events|
  {
    if events == [] then []
    else
      var e := events[0];
      var allowed := e.Inner? && (NeedsMutex(p.block, e.event) ==> p.mutex == Some(e.event.actor));
      [if allowed then e.event else Tick(0)] + Project(PoolApply(p, e), events[1..])
  }

  /** A run of the pool is a run of the block, at every position: the mutex only removes interleavings. */
  lemma {:induction false} PoolProjects(p: Pooled, events: seq<PoolEvent>, m: nat)
    requires m <= |events|
    ensures PoolRun(p, events[..m]).block == At(p.block, Project(p, events), m)
    decreases m
  {
    var inner := Project(p, events);
    if m == 0 {
      assert events[..0] == [] && inner[..0] == [];
    } else {
      var p' := PoolApply(p, events[0]);
      assert p'.block == Apply(p.block, inner[0]);
      PoolProjects(p', events[1..], m - 1);
      assert events[..m][1..] == events[1..][..m - 1] && inner[..m][1..] == inner[1..][..m - 1];
    }
  }

  /**
   Under the mutex, whenever a claim CAS succeeds, every commit of the block is
   at least a grace period old at that moment.
   */
  lemma GracePeriodBeforeClaim(init: Pooled, events: seq<PoolEvent>, a: nat)
    requires PoolInit(init)
    requires
      var s := PoolRun(init, events).block;
      a < |s.actors| && s.actors[a] == ReserveClaim && s.refcount == 0
    ensures
      var s := PoolRun(init, events).block;
      && Apply(s, Act(a, Proceed)).actors[a].ReserveReadUid?
      && forall k :: 0 <= k < |s.log| ==> s.log[k].at + GRACE_PERIOD_US <= s.clock
  {
    PoolReachable(init, events);
    var s := PoolRun(init, events).block;
    assert ClockOk(s, s.actors[a]);
  }

  /** Actor `a` holds a reference whose final uid check was pool event `k`. */
  predicate PoolHoldsSince(init: Pooled, events: seq<PoolEvent>, a: nat, k: nat) {
    HoldsSince(init.block, Project(init, events), a, k, |events|)
  }

  /** The final check of that reference ran within a grace period of the commit of its generation. */
  predicate CheckedInTime(init: Pooled, events: seq<PoolEvent>, a: nat, k: nat)
    requires k <= |events|
  {
    && PoolHoldsSince(init, events, a, k)
    && var check := PoolRun(init, events[..k]).block;
       Timely(check, check.uid)
  }

  lemma TimelyHold(init: Pooled, events: seq<PoolEvent>, a: nat, k: nat)
    requires k <= |events| && CheckedInTime(init, events, a, k)
    ensures
      var s := PoolRun(init, events).block;
      Holds(s, a) && s.actors[a].timely && s.actors[a].uid == PoolRun(init, events[..k]).block.uid
  {
    var inner := Project(init, events);
    assert events[..|events|] == events;
    PoolProjects(init, events, k);
    PoolProjects(init, events, |events|);
    HoldIsChecked(init.block, inner, a, k, |events|);
  }

  /** In a state of the pool: what a timely reference keeps out. */
  lemma TimelyExcludes(p: Pooled, a: nat)
    requires PoolInv(p) && !p.block.overflowed && Holds(p.block, a) && p.block.actors[a].timely
    ensures
      var s := p.block;
      && s.uid == s.actors[a].uid && Committed(s, s.uid)
      && forall j :: 0 <= j < |s.actors| && Publisher(s.actors[j]) ==> s.actors[j] == ReleaseDrop(s.uid, true)
  {
    var s := p.block;
    assert ClockOk(s, s.actors[a]) && HeldOk(s, s.actors[a]) && PublisherHistoryOk(s, s.actors[a]);
    var k :| 0 <= k < |s.log| && s.log[k].uid == s.uid;
    forall j | 0 <= j < |s.actors| && Publisher(s.actors[j])
      ensures s.actors[j] == ReleaseDrop(s.uid, true)
    {
      assert ActorOk(s, s.actors[j]) && PublisherHistoryOk(s, s.actors[j]);
    }
  }

  /**
   A reference whose final uid check ran within a grace period of the commit of its
   generation is never overtaken: while it is held the shared uid stays where it is,
   and no reservation is outstanding or being made, but for the last step of the
   commit that published that very generation.
   */
  lemma TimelyReferenceExcludesReuse(init: Pooled, events: seq<PoolEvent>, a: nat, k: nat)
    requires PoolInit(init) && !PoolRun(init, events).block.overflowed
    requires k <= |events| && CheckedInTime(init, events, a, k)
    ensures
      var s := PoolRun(init, events).block;
      && Holds(s, a) && s.uid == s.actors[a].uid == PoolRun(init, events[..k]).block.uid
      && forall j :: 0 <= j < |s.actors| && Publisher(s.actors[j]) ==> s.actors[j] == ReleaseDrop(s.uid, true)
  {
    PoolReachable(init, events);
    TimelyHold(init, events, a, k);
    TimelyExcludes(PoolRun(init, events), a);
  }

  /**
   Read/write exclusion, end to end.  While a GPU read of a timely reference with a
   completion event is in flight, in any run with any number of publishers and
   subscribers, its generation is the current one, nobody owns a reservation that
   could write the block, nobody is making one, and no event can drop the reference
   before the read is done.
   */
  lemma NoGenerationOverwrittenWhileRead(init: Pooled, events: seq<PoolEvent>, r: GpuRead, k: nat, e: Event)
    requires PoolInit(init) && !PoolRun(init, events).block.overflowed
    requires r in PoolRun(init, events).block.gpuReads && r.guarded
    requires k <= |events| && CheckedInTime(init, events, r.actor, k)
    ensures
      var s := PoolRun(init, events).block;
      && s.uid == r.uid && Holds(s, r.actor) && Holds(Apply(s, e), r.actor)
      && forall j :: 0 <= j < |s.actors| && Publisher(s.actors[j]) ==> s.actors[j] == ReleaseDrop(r.uid, true)
  {
    PoolReachable(init, events);
    var s := PoolRun(init, events).block;
    assert ReadOk(s, r);
    HeldSurvives(s, r.actor, e);
    TimelyReferenceExcludesReuse(init, events, r.actor, k);
  }
}
