/**
 Two runs that show why the hypotheses of the exclusion theorem are needed.
 */
module BlockWitness {
  import opened Machine
  import opened BlockWords
  import opened BlockProtocol
  import opened BlockInvariants
  import opened BlockSolo
  import opened PoolProtocol

  function Lift(events: seq<Event>): seq<PoolEvent> {
    seq(|events|, i requires 0 <= i < |events| => Inner(events[i]))
  }

  /** Events of the mutex holder, if any, and events that start no reserve or commit. */
  predicate Allowed(holder: Option<nat>, events: seq<Event>) {
    forall i :: 0 <= i < |events| && events[i].Act? && Some(events[i].actor) != holder ==>
      !events[i].choice.Reserve? && !events[i].choice.Commit?
  }

  lemma {:induction false} LiftIsRun(p: Pooled, events: seq<Event>)
    requires Allowed(p.mutex, events)
    ensures PoolRun(p, Lift(events)) == p.(block := Run(p.block, events))
    decreases |events|
  {
    if events != [] {
      assert Lift(events)[1..] == Lift(events[1..]);
      LiftIsRun(PoolApply(p, Inner(events[0])), events[1..]);
    }
  }

  lemma {:induction false} PoolConcat(p: Pooled, first: seq<PoolEvent>, second: seq<PoolEvent>)
    ensures PoolRun(p, first + second) == PoolRun(PoolRun(p, first), second)
    decreases |first|
  {
    if first == [] {
      assert first + second == second;
    } else {
      assert (first + second)[1..] == first[1..] + second;
      PoolConcat(PoolApply(p, first[0]), first[1..], second);
    }
  }

  /** One call made under the mutex: lock, the events, unlock. */
  function Locked(a: nat, events: seq<Event>): seq<PoolEvent> {
    [Lock(a)] + Lift(events) + [Unlock(a)]
  }

  lemma LockedIsRun(p: Pooled, a: nat, events: seq<Event>)
    requires p.mutex.None? && Allowed(Some(a), events)
    requires a < |p.block.actors| ==> !Serial(Run(p.block, events).actors[a])
    ensures PoolRun(p, Locked(a, events)) == p.(block := Run(p.block, events))
  {
    var p1 := PoolApply(p, Lock(a));
    LiftIsRun(p1, events);
    var p2 := PoolRun(p1, Lift(events));
    PoolConcat(p, [Lock(a)], Lift(events));
    assert PoolRun(p, [Lock(a)]) == PoolRun(p1, []);
    PoolConcat(p, [Lock(a)] + Lift(events), [Unlock(a)]);
    assert PoolRun(p2, [Unlock(a)]) == PoolRun(PoolApply(p2, Unlock(a)), []);
  }

  lemma {:induction false} ProceedsAllowed(a: nat, holder: Option<nat>, n: nat)
    ensures Allowed(holder, Proceeds(a, n))
  {
    if n > 0 {
      ProceedsAllowed(a, holder, n - 1);
    }
  }

  /** A whole acquire of the current generation, a bind and a GPU read. */
  function ReadCall(s: Block, a: nat, n: nat): seq<Event> {
    Call(a, Acquire(s.uid), n) + [Act(a, Bind(true)), Act(a, StartRead)]
  }

  lemma BindStep(s: Block, a: nat)
    requires a < |s.actors| && s.actors[a].Held? && s.actors[a].stage == Publication
    ensures Apply(s, Act(a, Bind(true))) == Goto(s, a, s.actors[a].(stage := Handle(true, s.gpu.ready)))
  {
    assert Apply(s, Act(a, Bind(true))) == OwnerStep(s, a, Bind(true));
  }

  lemma ReadStep(s: Block, a: nat, waits: set<GpuWrite>)
    requires a < |s.actors| && s.actors[a].Held? && s.actors[a].stage == Handle(true, waits)
    ensures Apply(s, Act(a, StartRead)) == AddRead(s, a, s.actors[a].uid, true, waits)
  {
    assert Apply(s, Act(a, StartRead)) == OwnerStep(s, a, StartRead) == HandleStep(s, a, StartRead, true, waits);
  }

  lemma TwoEvents(s: Block, first: Event, second: Event)
    ensures Run(s, [first, second]) == Apply(Apply(s, first), second)
  {
    var s1, events := Apply(s, first), [first, second];
    assert events[1..] == [second] && [second][1..] == [];
    assert Run(s1, [second]) == Run(Apply(s1, second), []);
  }

  lemma BindAndRead(s: Block, a: nat)
    requires a < |s.actors| && s.actors[a].Held? && s.actors[a].stage == Publication
    ensures
      var pc := s.actors[a];
      Run(s, [Act(a, Bind(true)), Act(a, StartRead)]) ==
      AddRead(Goto(s, a, pc.(stage := Handle(true, s.gpu.ready))), a, pc.uid, true, s.gpu.ready)
  {
    TwoEvents(s, Act(a, Bind(true)), Act(a, StartRead));
    BindStep(s, a);
    ReadStep(Goto(s, a, s.actors[a].(stage := Handle(true, s.gpu.ready))), a, s.gpu.ready);
  }

  lemma ReadAlone(s: Block, a: nat, n: nat)
    requires a < |s.actors| && s.actors[a] == Idle && s.refcount != U32_MAX && 4 <= n
    ensures
      var s' := Run(s, ReadCall(s, a, n));
      && OnlyMoves(s, s', a) && s'.uid == s.uid && s'.overflowed == s.overflowed && s'.gpu == s.gpu
      && GpuRead(s.readCount, a, s.uid, true, s.gpu.ready) in s'.gpuReads
      && Holds(s', a) && s'.actors[a].timely == Timely(s, s.uid)
  {
    var call, rest := Call(a, Acquire(s.uid), n), [Act(a, Bind(true)), Act(a, StartRead)];
    SoloAcquire(s, a, s.uid, n);
    var s1 := Run(s, call);
    SameTimely(s, Rechecking(s, a));
    BindAndRead(s1, a);
    RunConcat(s, call, rest);
  }

  lemma SameTimely(s: Block, s': Block)
    requires s'.log == s.log && s'.clock == s.clock
    ensures forall uid :: Timely(s', uid) == Timely(s, uid)
  {
  }

  /** A reservation takes this many steps up to its claim CAS, and as many after it. */
  const CLAIM_STEPS: nat := 3

  /** The events by which a whole acquire slips into the middle of a reservation. */
  function RaceCall(s: Block, a: nat, b: nat, m: nat): seq<Event>
    requires a < |s.actors|
  {
    Call(a, Reserve, CLAIM_STEPS) + ReadCall(Claimed(s, a), b, m) + Proceeds(a, CLAIM_STEPS)
  }

  lemma RaceAllowed(s: Block, a: nat, b: nat, m: nat)
    requires a < |s.actors|
    ensures Allowed(Some(a), RaceCall(s, a, b, m))
  {
    ProceedsAllowed(a, Some(a), CLAIM_STEPS);
    ProceedsAllowed(b, Some(a), m);
  }

  lemma RaceRun(s: Block, a: nat, b: nat, m: nat)
    requires a != b && a < |s.actors| && b < |s.actors| && s.actors[a] == Idle && s.actors[b] == Idle
    requires Reusable(WordsOf(s), s.clock) && 4 <= m
    ensures
      var s' := Run(s, RaceCall(s, a, b, m));
      && s'.actors[a] == Reserved(s.uid + 1) && s'.overflowed == s.overflowed
      && exists r :: r in s'.gpuReads && r.guarded && r.actor == b && r.uid == s.uid
  {
    var s1, n := Claimed(s, a), CLAIM_STEPS;
    ClaimHalf(s, a, n);
    ReadAlone(s1, b, m);
    var s2 := Run(s1, ReadCall(s1, b, m));
    AloneIsRun(s2, a, n);
    ClaimAlone(s2, a, n);
    RunConcat(s, Call(a, Reserve, n), ReadCall(s1, b, m));
    RunConcat(s, Call(a, Reserve, n) + ReadCall(s1, b, m), Proceeds(a, n));
  }

  /**
   Without timeliness the exclusion fails, mutex and all.  Wherever a block is
   reusable, idle actors `a` and `b` can go on as follows: `b` runs a whole
   acquire of the current generation between the claim CAS and the uid store of
   `a`, and is reading it while `a` holds the reservation for the next one.
   */
  lemma LateAcquireRace(p: Pooled, a: nat, b: nat) returns (events: seq<PoolEvent>)
    requires p.mutex.None? && a != b && a < |p.block.actors| && b < |p.block.actors|
    requires p.block.actors[a] == Idle && p.block.actors[b] == Idle
    requires Reusable(WordsOf(p.block), p.block.clock)
    ensures
      var s := PoolRun(p, events).block;
      && a < |s.actors| && s.actors[a] == Reserved(p.block.uid + 1) && s.overflowed == p.block.overflowed
      && exists r :: r in s.gpuReads && r.guarded && r.actor == b && r.uid == p.block.uid
  {
    var m: nat := 4;
    RaceRun(p.block, a, b, m);
    RaceAllowed(p.block, a, b, m);
    LockedIsRun(p, a, RaceCall(p.block, a, b, m));
    events := Locked(a, RaceCall(p.block, a, b, m));
  }

  /** A block with two idle actors, as created. */
  function Fresh(): Block {
    Block(1, 0, 0, 1, [Idle, Idle], false, [], [], {}, 0, Gpu({}, 0, {}, {}))
  }

  /** A reservation and its commit by actor 0, each under the mutex. */
  function LockedPublish(stream: nat, n: nat): seq<PoolEvent> {
    Locked(0, Call(0, Reserve, n)) + Locked(0, Call(0, Commit(stream), n))
  }

  lemma PublicationRun(p: Pooled, stream: nat, n: nat)
    requires 6 <= n && p.mutex.None? && |p.block.actors| > 0 && p.block.actors[0] == Idle
    requires Reusable(WordsOf(p.block), p.block.clock)
    ensures
      PoolRun(p, LockedPublish(stream, n)) ==
      p.(block := AfterRelease(Recorded(AfterReserve(p.block, 0), Commit(stream)), 0, p.block.uid + 1, true))
  {
    var reserve, commit := Call(0, Reserve, n), Call(0, Commit(stream), n);
    SoloReserve(p.block, 0, n);
    var s := Run(p.block, reserve);
    ProceedsAllowed(0, Some(0), n);
    LockedIsRun(p, 0, reserve);
    SoloRelease(s, 0, Commit(stream), n);
    LockedIsRun(p.(block := s), 0, commit);
    PoolConcat(p, Locked(0, reserve), Locked(0, commit));
  }

  lemma NothingRecorded(gpu: Gpu, stream: nat)
    requires gpu.writes == {}
    ensures RecordReady(gpu, stream) == gpu.(ready := {}, missed := {})
  {
    assert (set w | w in gpu.writes && w.stream == stream) == {};
  }

  lemma Wait(p: Pooled, us: nat)
    ensures PoolRun(p, [Inner(Tick(us))]) == p.(block := p.block.(clock := p.block.clock + us))
  {
    var wait := [Inner(Tick(us))];
    assert PoolRun(p, wait) == PoolRun(PoolApply(p, wait[0]), wait[1..]) == PoolApply(p, wait[0]);
  }

  /** From a fresh block such a state is reached with a committed generation: publish and wait. */
  lemma CommittedBlockBecomesReusable() returns (init: Pooled, events: seq<PoolEvent>)
    ensures PoolInit(init)
    ensures
      var p := PoolRun(init, events);
      && p.mutex.None? && p.block.actors == [Idle, Idle] && !p.block.overflowed
      && Reusable(WordsOf(p.block), p.block.clock)
      && p.block.log == [Publish(p.block.uid, 1)] && p.block.clock == 1 + GRACE_PERIOD_US
  {
    init := Pooled(Fresh(), None);
    var n: nat := 6;
    PublicationRun(init, 0, n);
    var published := LockedPublish(0, n);
    Wait(PoolRun(init, published), GRACE_PERIOD_US);
    PoolConcat(init, published, [Inner(Tick(GRACE_PERIOD_US))]);
    events := published + [Inner(Tick(GRACE_PERIOD_US))];
  }

  lemma TestHalf(s: Block, n: nat)
    requires |s.actors| == 2 && s.actors[0] == Idle && s.refcount == 0 && s.stamp == 0 && 2 <= n
    ensures Run(s, Call(0, Reserve, n)) == Alone(Goto(s, 0, ReserveClaim), 0, n - 2)
  {
    CallIsAlone(s, 0, Reserve, n);
    var s0 := Goto(s, 0, ReserveCheck(s.clock));
    assert Apply(s, Act(0, Reserve)) == s0;
    var s1 := Goto(s, 0, ReserveStamp(s.clock));
    assert Next(s0, 0) == s1;
    var s2 := Goto(s, 0, ReserveClaim);
    assert Next(s1, 0) == s2;
    assert Alone(s0, 0, n) == Alone(s1, 0, n - 1) == Alone(s2, 0, n - 2);
  }

  /** A whole publication by actor 1 while actor 0 is about to claim. */
  lemma PublishBeforeClaim(n: nat)
    requires 6 <= n
    ensures
      Run(Goto(Fresh(), 0, ReserveClaim), Call(1, Reserve, n) + Call(1, Commit(0), n)) ==
      Block(2, 0, 1, 1, [ReserveClaim, Idle], false, [2], [Publish(2, 1)], {}, 0, Gpu({}, 0, {}, {}))
  {
    var s1 := Goto(Fresh(), 0, ReserveClaim);
    SoloReserve(s1, 1, n);
    var s2 := Run(s1, Call(1, Reserve, n));
    NothingRecorded(s2.gpu, 0);
    SoloRelease(s2, 1, Commit(0), n);
    RunConcat(s1, Call(1, Reserve, n), Call(1, Commit(0), n));
  }

  lemma ClaimStep(s: Block)
    requires |s.actors| == 2 && s.actors[0] == ReserveClaim && s.refcount == 0
    ensures Run(s, [Act(0, Proceed)]) == Claimed(s, 0)
  {
    var claim := [Act(0, Proceed)];
    assert Apply(s, claim[0]) == Claimed(s, 0);
    assert Run(s, claim) == Run(Claimed(s, 0), claim[1..]) == Claimed(s, 0);
  }

  /**
   Without the mutex the grace period fails: actor 0 tests the old timestamp,
   actor 1 reserves and commits, and actor 0 claims the block at the very
   microsecond of that commit.
   */
  lemma UnserialisedClaimRace() returns (init: Block, events: seq<Event>)
    ensures Init(init)
    ensures
      var s := Run(init, events);
      && |s.actors| == 2 && s.actors[0] == ReserveReadUid && !s.overflowed
      && |s.log| == 1 && s.clock < s.log[0].at + GRACE_PERIOD_US
  {
    init := Fresh();
    var two: nat, n: nat := 2, 6;
    var test, publish, claim := Call(0, Reserve, two), Call(1, Reserve, n) + Call(1, Commit(0), n), [Act(0, Proceed)];
    TestHalf(init, two);
    PublishBeforeClaim(n);
    var s := Run(Goto(init, 0, ReserveClaim), publish);
    ClaimStep(s);
    RunConcat(init, test, publish);
    RunConcat(init, test + publish, claim);
    events := test + publish + claim;
  }
}
