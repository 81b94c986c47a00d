/**
 What every step of the block protocol keeps, and what it means in every
 reachable state: conservation of the reference count, one reservation at a
 time, fresh generations, and the exact shape of the publisher/subscriber race.
 */
module BlockInvariants {
  import opened Machine
  import opened BlockWords
  import opened BlockProtocol

  // ----- sums over actors -----

  lemma {:induction false} UnitsUpdate(actors: seq<Pc>, a: nat, pc: Pc)
    requires a < |actors|
    ensures Units(actors[a := pc]) == Units(actors) - Unit(actors[a]) + Unit(pc)
  {
    if a == 0 {
      assert actors[0 := pc][1..] == actors[1..];
    } else {
      assert actors[a := pc][1..] == actors[1..][a - 1 := pc];
      UnitsUpdate(actors[1..], a - 1, pc);
    }
  }

  lemma {:induction false} UnitsBound(actors: seq<Pc>, a: nat)
    requires a < |actors|
    ensures Unit(actors[a]) <= Units(actors)
  {
    if a > 0 {
      UnitsBound(actors[1..], a - 1);
    }
  }

  lemma {:induction false} UnitsIdle(actors: seq<Pc>)
    requires forall i :: 0 <= i < |actors| ==> actors[i] == Idle
    ensures Units(actors) == 0
  {
    if actors != [] {
      UnitsIdle(actors[1..]);
    }
  }

  /** A zero sum means that nobody answers for a unit. */
  lemma UnitsZero(actors: seq<Pc>)
    requires Units(actors) == 0
    ensures forall i :: 0 <= i < |actors| ==> Unit(actors[i]) == 0
  {
    forall i | 0 <= i < |actors| ensures Unit(actors[i]) == 0 {
      UnitsBound(actors, i);
    }
  }

  // ----- the invariant -----

  predicate Conserved(s: Block) {
    s.refcount == Units(s.actors) <= U32_MAX
  }

  predicate OnePublisher(s: Block) {
    forall i, j :: 0 <= i < |s.actors| && 0 <= j < |s.actors| && i != j ==>
      !(Publisher(s.actors[i]) && Publisher(s.actors[j]))
  }

  /** What a publisher remembers agrees with the shared uid. */
  predicate ActorOk(s: Block, pc: Pc) {
    match pc
    case ReserveStoreUid(next) => next == s.uid + 1 <= U64_MAX
    case ReserveOverflow => s.uid == U64_MAX
    case ReserveClearStamp(uid) => uid == s.uid
    case Reserved(uid) => uid == s.uid
    case ReleaseCheck(uid, _) => uid == s.uid
    case ReleaseClock(uid) => uid == s.uid
    case ReleaseStamp(uid, _) => uid == s.uid
    case ReleaseDrop(uid, _) => uid == s.uid
    case Quarantined(uid) => uid == s.uid
    case Underflow => false
    case _ => true
  }

  predicate ActorsOk(s: Block) {
    forall i :: 0 <= i < |s.actors| ==> ActorOk(s, s.actors[i])
  }

  /** The race, exactly: where the uid stands while a reference is held. */
  predicate HeldOk(s: Block, pc: Pc) {
    pc.Held? ==>
      if pc.raced then s.uid == if SomeClaiming(s) then pc.uid else pc.uid + 1
      else s.uid == pc.uid && !SomeClaiming(s)
  }

  predicate HeldAllOk(s: Block) {
    forall i :: 0 <= i < |s.actors| ==> HeldOk(s, s.actors[i])
  }

  /** Holds of every state, whether or not the overflow branch has run. */
  predicate UidOk(s: Block) {
    && 0 < s.uid <= U64_MAX && s.refcount <= U32_MAX && 0 < s.clock
    && (s.overflowed ==> s.uid == U64_MAX)
    && (s.overflowed ==> forall i :: 0 <= i < |s.actors| ==> !s.actors[i].ReserveStoreUid?)
  }

  predicate Inv(s: Block) {
    && UidOk(s)
    && (!s.overflowed ==> Conserved(s) && OnePublisher(s) && ActorsOk(s) && HeldAllOk(s))
  }

  // ----- one step -----

  /** What a step does to its actor and to the shared words, seen alone. */
  predicate LocalStep(s: Block, a: nat, s': Block)
    requires a < |s.actors|
  {
    && |s'.actors| == |s.actors| && s'.actors == s.actors[a := s'.actors[a]]
    && s'.clock == s.clock
    && var pc, pc' := s.actors[a], s'.actors[a];
    && s'.refcount <= U32_MAX
    && s'.overflowed == (s.overflowed || pc.ReserveOverflow?)
    && (!pc.ReserveOverflow? ==> s'.refcount == s.refcount - Unit(pc) + Unit(pc'))
    && (Publisher(pc') ==> Publisher(pc) || s.refcount == 0)
    && s'.uid == (if pc.ReserveStoreUid? then pc.next else s.uid)
    && (Claiming(pc') <==> (Claiming(pc) && !pc.ReserveStoreUid? && !pc.ReserveOverflow?)
                           || (pc.ReserveClaim? && s.refcount == 0))
    && (pc.ReserveClaim? && s.refcount == 0 ==> Publisher(pc'))
    && (pc.ReserveOverflow? ==> pc' == Idle)
    && ActorOk(s', pc')
    && (pc'.Held? ==> pc.Held? || pc.AcquireRecheck?)
    && (pc.Held? && pc'.Held? ==> pc' == pc.(stage := pc'.stage))
    && (pc.AcquireRecheck? && pc'.Held? ==> pc'.uid == s.uid && pc'.raced == SomeClaiming(s))
  }

  predicate Ready(s: Block, a: nat) {
    && a < |s.actors| && s.uid <= U64_MAX
    && Unit(s.actors[a]) <= s.refcount <= U32_MAX && ActorOk(s, s.actors[a])
  }

  lemma ReserveLocal(s: Block, a: nat)
    requires Ready(s, a) && Reserving(s.actors[a])
    ensures LocalStep(s, a, ReserveStep(s, a))
  {
  }

  lemma ReleaseLocal(s: Block, a: nat)
    requires Ready(s, a) && Releasing(s.actors[a])
    ensures LocalStep(s, a, ReleaseStep(s, a))
  {
  }

  lemma AcquireLocal(s: Block, a: nat, choice: Choice)
    requires Ready(s, a) && Acquiring(s.actors[a])
    ensures LocalStep(s, a, AcquireStep(s, a, choice))
  {
  }

  /** All that a step of a reference's owner can do: change the stage and the reads, or drop the reference. */
  predicate OwnerMove(s: Block, a: nat, s': Block)
    requires a < |s.actors| && s.actors[a].Held?
  {
    && |s'.actors| == |s.actors| && s'.actors == s.actors[a := s'.actors[a]]
    && s' == s.(refcount := s'.refcount, actors := s'.actors, gpuReads := s'.gpuReads, readCount := s'.readCount)
    && var pc, pc' := s.actors[a], s'.actors[a];
       && (|| (s'.gpuReads == s.gpuReads && s'.readCount == s.readCount)
           || (pc.stage.Handle? && s' == AddRead(s, a, pc.uid, pc.stage.completion, pc.stage.waits)))
       && if pc'.Held? then pc' == pc.(stage := pc'.stage) && s'.refcount == s.refcount
          else pc' == (if s.refcount == 0 then Underflow else Idle) && s'.refcount == FetchSub(s.refcount)
  }

  lemma HandleMoves(s: Block, a: nat, choice: Choice, completion: bool, waits: set<GpuWrite>)
    requires a < |s.actors| && s.actors[a].Held?
    ensures s.actors[a].stage == Handle(completion, waits) ==>
      OwnerMove(s, a, HandleStep(s, a, choice, completion, waits))
  {
    assert s.actors[a := s.actors[a]] == s.actors;
  }

  lemma StageMoves(s: Block, a: nat, stage: Stage)
    requires a < |s.actors| && s.actors[a].Held?
    ensures OwnerMove(s, a, s) && OwnerMove(s, a, Goto(s, a, s.actors[a].(stage := stage)))
    ensures OwnerMove(s, a, DropUnit(s, a))
  {
    assert s.actors[a := s.actors[a]] == s.actors;
  }

  lemma OwnerMoves(s: Block, a: nat, choice: Choice)
    requires a < |s.actors| && s.actors[a].Held?
    ensures OwnerMove(s, a, OwnerStep(s, a, choice))
  {
    match s.actors[a].stage
    case Publication => StageMoves(s, a, Handle(choice.Bind? && choice.completion, s.gpu.ready));
    case Handle(completion, waits) => HandleMoves(s, a, choice, completion, waits);
    case Queued =>
      StageMoves(s, a, Retained);
      StageMoves(s, a, Synchronised);
    case _ => StageMoves(s, a, Synchronised);
  }

  lemma OwnerLocal(s: Block, a: nat, s': Block)
    requires Ready(s, a) && s.actors[a].Held? && OwnerMove(s, a, s')
    ensures LocalStep(s, a, s')
  {
  }

  lemma IdleLocal(s: Block, a: nat, choice: Choice)
    requires Ready(s, a) && (s.actors[a].Idle? || s.actors[a].Reserved? || s.actors[a].Quarantined?)
    ensures LocalStep(s, a, Apply(s, Act(a, choice)))
  {
  }

  lemma LocalStepHolds(s: Block, a: nat, choice: Choice)
    requires Ready(s, a)
    ensures LocalStep(s, a, Apply(s, Act(a, choice)))
  {
    var s' := Apply(s, Act(a, choice));
    var pc := s.actors[a];
    if Reserving(pc) {
      assert s' == ReserveStep(s, a);
      ReserveLocal(s, a);
    } else if Releasing(pc) {
      assert s' == ReleaseStep(s, a);
      ReleaseLocal(s, a);
    } else if Acquiring(pc) {
      assert s' == AcquireStep(s, a, choice);
      AcquireLocal(s, a, choice);
    } else if pc.Held? {
      assert s' == OwnerStep(s, a, choice);
      OwnerMoves(s, a, choice);
      OwnerLocal(s, a, s');
    } else {
      IdleLocal(s, a, choice);
    }
  }

  lemma StepOf(s: Block, a: nat, choice: Choice)
    requires Inv(s) && !s.overflowed && a < |s.actors|
    ensures LocalStep(s, a, Apply(s, Act(a, choice)))
    ensures ActorOk(s, s.actors[a]) && HeldOk(s, s.actors[a])
  {
    UnitsBound(s.actors, a);
    LocalStepHolds(s, a, choice);
  }

  lemma OnePublisherStep(s: Block, a: nat, s': Block)
    requires Inv(s) && !s.overflowed && a < |s.actors| && LocalStep(s, a, s')
    ensures OnePublisher(s')
  {
    if s.refcount == 0 {
      UnitsZero(s.actors);
    }
  }

  lemma ActorsOkStep(s: Block, a: nat, s': Block)
    requires Inv(s) && !s.overflowed && a < |s.actors| && LocalStep(s, a, s')
    ensures ActorsOk(s')
  {
    forall i | 0 <= i < |s'.actors| ensures ActorOk(s', s'.actors[i]) {
      if i != a {
        assert ActorOk(s, s.actors[i]);
        if s.actors[a].ReserveStoreUid? {
          assert Publisher(s.actors[a]);
        }
      }
    }
  }

  lemma ClaimingFrame(s: Block, s': Block, a: nat)
    requires a < |s.actors| == |s'.actors| && s'.actors == s.actors[a := s'.actors[a]]
    requires Claiming(s'.actors[a]) == Claiming(s.actors[a])
    ensures SomeClaiming(s') == SomeClaiming(s)
  {
    if i :| 0 <= i < |s.actors| && Claiming(s.actors[i]) {
      assert Claiming(s'.actors[i]);
    }
    if i :| 0 <= i < |s'.actors| && Claiming(s'.actors[i]) {
      assert Claiming(s.actors[i]);
    }
  }

  lemma HeldStep(s: Block, a: nat, s': Block)
    requires Inv(s) && !s.overflowed && !s'.overflowed && a < |s.actors| && LocalStep(s, a, s')
    ensures HeldAllOk(s')
  {
    var pc := s.actors[a];
    if pc.ReserveClaim? && s.refcount == 0 {
      UnitsZero(s.actors);
    } else if pc.ReserveStoreUid? {
      assert ActorOk(s, pc) && Claiming(pc);
      assert SomeClaiming(s) && !SomeClaiming(s');
      forall i | 0 <= i < |s'.actors| ensures HeldOk(s', s'.actors[i]) {
        assert HeldOk(s, s.actors[i]);
      }
    } else {
      ClaimingFrame(s, s', a);
      forall i | 0 <= i < |s'.actors| ensures HeldOk(s', s'.actors[i]) {
        assert HeldOk(s, s.actors[i]);
      }
    }
  }

  lemma CallFrame(s: Block, a: nat, choice: Choice)
    requires a < |s.actors|
    ensures Reserving(s.actors[a]) ==> OnlyMoves(s, ReserveStep(s, a), a)
    ensures Releasing(s.actors[a]) ==> OnlyMoves(s, ReleaseStep(s, a), a)
    ensures Acquiring(s.actors[a]) ==> OnlyMoves(s, AcquireStep(s, a, choice), a)
  {
  }

  lemma RestFrame(s: Block, a: nat, choice: Choice)
    requires a < |s.actors|
    requires s.actors[a].Idle? || s.actors[a].Reserved? || s.actors[a].Quarantined? || s.actors[a].Held?
    ensures OnlyMoves(s, Apply(s, Act(a, choice)), a)
  {
  }

  lemma StepFrame(s: Block, a: nat, choice: Choice)
    requires a < |s.actors|
    ensures OnlyMoves(s, Apply(s, Act(a, choice)), a)
  {
    var s', pc := Apply(s, Act(a, choice)), s.actors[a];
    CallFrame(s, a, choice);
    if Reserving(pc) {
      assert s' == ReserveStep(s, a);
    } else if Releasing(pc) {
      assert s' == ReleaseStep(s, a);
    } else if Acquiring(pc) {
      assert s' == AcquireStep(s, a, choice);
    } else {
      RestFrame(s, a, choice);
    }
  }

  /** The bounds that survive even the overflow branch. */
  predicate Bounded(s: Block, s': Block, pc': Pc) {
    && s.uid <= s'.uid <= U64_MAX && s'.refcount <= U32_MAX && s'.clock == s.clock
    && (s.overflowed ==> s'.overflowed && s'.uid == s.uid && !pc'.ReserveStoreUid?)
  }

  lemma CallBounds(s: Block, a: nat, choice: Choice)
    requires UidOk(s) && s.overflowed && a < |s.actors|
    ensures Reserving(s.actors[a]) ==> Bounded(s, ReserveStep(s, a), ReserveStep(s, a).actors[a])
    ensures Releasing(s.actors[a]) ==> Bounded(s, ReleaseStep(s, a), ReleaseStep(s, a).actors[a])
    ensures Acquiring(s.actors[a]) ==> Bounded(s, AcquireStep(s, a, choice), AcquireStep(s, a, choice).actors[a])
  {
  }

  lemma OwnerBounds(s: Block, a: nat, s': Block)
    requires UidOk(s) && s.overflowed && a < |s.actors| && s.actors[a].Held? && OwnerMove(s, a, s')
    ensures Bounded(s, s', s'.actors[a])
  {
  }

  lemma OverflowedStep(s: Block, a: nat, choice: Choice)
    requires UidOk(s) && s.overflowed && a < |s.actors|
    ensures UidOk(Apply(s, Act(a, choice)))
    ensures Bounded(s, Apply(s, Act(a, choice)), Apply(s, Act(a, choice)).actors[a])
  {
    var s', pc := Apply(s, Act(a, choice)), s.actors[a];
    CallBounds(s, a, choice);
    StepFrame(s, a, choice);
    if Reserving(pc) {
      assert s' == ReserveStep(s, a);
    } else if Releasing(pc) {
      assert s' == ReleaseStep(s, a);
    } else if Acquiring(pc) {
      assert s' == AcquireStep(s, a, choice);
    } else if pc.Held? {
      assert s' == OwnerStep(s, a, choice);
      OwnerMoves(s, a, choice);
      OwnerBounds(s, a, s');
    }
  }

  lemma OverflowStep(s: Block, e: Event)
    requires Inv(s)
    ensures UidOk(Apply(s, e))
    ensures s.uid <= Apply(s, e).uid && s.clock <= Apply(s, e).clock
    ensures s.overflowed ==> Apply(s, e).overflowed
  {
    if e.Act? && e.actor < |s.actors| {
      if s.overflowed {
        OverflowedStep(s, e.actor, e.choice);
      } else {
        StepOf(s, e.actor, e.choice);
        NoStoreAfterOverflow(s, e.actor, Apply(s, e));
      }
    }
  }

  /** The overflow branch runs while no other reservation is being made. */
  lemma NoStoreAfterOverflow(s: Block, a: nat, s': Block)
    requires Inv(s) && !s.overflowed && a < |s.actors| && LocalStep(s, a, s')
    ensures s'.overflowed ==> forall i :: 0 <= i < |s'.actors| ==> !s'.actors[i].ReserveStoreUid?
    ensures s.uid <= s'.uid && (s'.overflowed ==> s'.uid == U64_MAX)
  {
    assert ActorOk(s, s.actors[a]);
    if s'.overflowed {
      assert Publisher(s.actors[a]);
      forall i | 0 <= i < |s'.actors| ensures !s'.actors[i].ReserveStoreUid? {
        assert i != a && s.actors[i].ReserveStoreUid? ==> Publisher(s.actors[i]);
      }
    }
  }

  /** Events that move no actor change nothing the invariant looks at. */
  lemma QuietStep(s: Block, e: Event)
    requires Inv(s) && !e.Act?
    ensures Inv(Apply(s, e))
  {
    var s' := Apply(s, e);
    assert s'.actors == s.actors && SomeClaiming(s') == SomeClaiming(s);
    forall i | 0 <= i < |s.actors| && !s.overflowed
      ensures ActorOk(s', s'.actors[i]) && HeldOk(s', s'.actors[i])
    {
      assert ActorOk(s, s.actors[i]) && HeldOk(s, s.actors[i]);
    }
  }

  /** Every event keeps the invariant. */
  lemma InvStep(s: Block, e: Event)
    requires Inv(s)
    ensures Inv(Apply(s, e))
  {
    OverflowStep(s, e);
    if !e.Act? {
      QuietStep(s, e);
    } else if e.actor < |s.actors| && !Apply(s, e).overflowed {
      var s' := Apply(s, e);
      StepOf(s, e.actor, e.choice);
      UnitsUpdate(s.actors, e.actor, s'.actors[e.actor]);
      OnePublisherStep(s, e.actor, s');
      ActorsOkStep(s, e.actor, s');
      HeldStep(s, e.actor, s');
    }
  }

  lemma InitInv(s: Block)
    requires Init(s)
    ensures Inv(s)
  {
    UnitsIdle(s.actors);
  }

  lemma {:induction false} RunInv(s: Block, events: seq<Event>)
    requires Inv(s)
    ensures Inv(Run(s, events))
    decreases |events|
  {
    if events != [] {
      InvStep(s, events[0]);
      RunInv(Apply(s, events[0]), events[1..]);
    }
  }

  // ----- conservation -----

  function Count(actors: seq<Pc>, kind: Pc -> bool): nat {
    if actors == [] then 0 else (if kind(actors[0]) then 1 else 0) + Count(actors[1..], kind)
  }

  lemma {:induction false} UnitsSplit(actors: seq<Pc>)
    ensures Units(actors) == Count(actors, Publisher) + Count(actors, Tentative) + Count(actors, (pc: Pc) => pc.Held?)
  {
    if actors != [] {
      UnitsSplit(actors[1..]);
    }
  }

  lemma {:induction false} CountBound(actors: seq<Pc>, kind: Pc -> bool)
    requires forall i, j :: 0 <= i < |actors| && 0 <= j < |actors| && i != j ==> !(kind(actors[i]) && kind(actors[j]))
    ensures Count(actors, kind) <= 1
    ensures (forall i :: 0 <= i < |actors| ==> !kind(actors[i])) ==> Count(actors, kind) == 0
  {
    if actors != [] {
      var rest := actors[1..];
      CountBound(rest, kind);
      if kind(actors[0]) {
        forall i | 0 <= i < |rest| ensures !kind(rest[i]) {
          assert rest[i] == actors[i + 1];
        }
      }
    }
  }

  /**
   In every reachable state short of the uid overflow branch, the reference
   count is the outstanding reservation, the tentative increments and the held
   references, it has not wrapped, and every actor about to decrement finds at
   least one unit, so no underflow branch is ever entered.
   */
  lemma RefcountConservation(init: Block, events: seq<Event>)
    requires Init(init)
    ensures
      var s := Run(init, events);
      && (s.uid < U64_MAX ==> !s.overflowed)
      && (!s.overflowed ==>
            && s.refcount == Count(s.actors, Publisher) + Count(s.actors, Tentative)
                             + Count(s.actors, (pc: Pc) => pc.Held?)
            && Count(s.actors, Publisher) <= 1
            && s.refcount <= U32_MAX
            && forall i :: 0 <= i < |s.actors| ==>
                 s.actors[i] != Underflow && Unit(s.actors[i]) <= s.refcount)
  {
    var s := Run(init, events);
    InitInv(init);
    RunInv(init, events);
    if !s.overflowed {
      UnitsSplit(s.actors);
      CountBound(s.actors, Publisher);
      forall i | 0 <= i < |s.actors| ensures s.actors[i] != Underflow && Unit(s.actors[i]) <= s.refcount {
        UnitsBound(s.actors, i);
        assert ActorOk(s, s.actors[i]);
      }
    }
  }

  /**
   At most one reservation is outstanding, its uid is the shared uid, and so the
   uid test of commit and cancel cannot fail.
   */
  lemma PublisherExclusivity(init: Block, events: seq<Event>, a: nat, choice: Choice)
    requires Init(init)
    requires var s := Run(init, events); !s.overflowed && a < |s.actors| && Publisher(s.actors[a])
    ensures
      var s := Run(init, events);
      && (forall i :: 0 <= i < |s.actors| && i != a ==> !Publisher(s.actors[i]))
      && (HoldsReservation(s.actors[a]) ==> s.actors[a].uid == s.uid)
      && (s.actors[a].ReleaseCheck? ==> !Apply(s, Act(a, choice)).actors[a].Quarantined?)
  {
    InitInv(init);
    RunInv(init, events);
    var s := Run(init, events);
    assert ActorOk(s, s.actors[a]);
  }

  /** A later generation is being made, or has been made, while `pc` holds its own. */
  predicate Overtaken(s: Block, pc: Pc)
    requires pc.Held?
  {
    s.uid != pc.uid || SomeClaiming(s)
  }

  lemma {:induction false} RunSnoc(s: Block, events: seq<Event>, e: Event)
    ensures Run(s, events + [e]) == Apply(Run(s, events), e)
    decreases |events|
  {
    if events == [] {
      assert Run(Apply(s, e), []) == Apply(s, e);
      assert ([e])[1..] == [];
    } else {
      assert (events + [e])[1..] == events[1..] + [e];
      RunSnoc(Apply(s, events[0]), events[1..], e);
    }
  }

  /** The state before event `m`. */
  function At(init: Block, events: seq<Event>, m: nat): Block
    requires m <= |events|
  {
    Run(init, events[..m])
  }

  lemma AtNext(init: Block, events: seq<Event>, m: nat)
    requires m < |events|
    ensures At(init, events, m + 1) == Apply(At(init, events, m), events[m])
  {
    assert events[..m + 1] == events[..m] + [events[m]];
    RunSnoc(init, events[..m], events[m]);
  }

  lemma AtEnd(init: Block, events: seq<Event>)
    ensures At(init, events, |events|) == Run(init, events)
  {
    assert events[..|events|] == events;
  }

  predicate Holds(s: Block, a: nat) {
    a < |s.actors| && s.actors[a].Held?
  }

  /** Event `k` gave actor `a` the reference it still holds after event `m - 1`. */
  predicate HoldsSince(init: Block, events: seq<Event>, a: nat, k: nat, m: nat)
    requires m <= |events|
  {
    && k < m && events[k].Act? && events[k].actor == a && !Holds(At(init, events, k), a)
    && forall n :: k < n <= m ==> Holds(At(init, events, n), a)
  }

  /** `s` is the state in which the final uid check of the reference `pc` of actor `a` ran. */
  predicate FinalCheck(s: Block, a: nat, pc: Pc)
    requires pc.Held?
  {
    && a < |s.actors| && s.actors[a] == AcquireRecheck(pc.uid) && s.uid == pc.uid
    && pc.raced == SomeClaiming(s) && pc.timely == Timely(s, pc.uid)
  }

  lemma HoldBegins(init: Block, events: seq<Event>, a: nat, k: nat)
    requires k < |events| && HoldsSince(init, events, a, k, k + 1)
    ensures Holds(At(init, events, k + 1), a)
    ensures FinalCheck(At(init, events, k), a, At(init, events, k + 1).actors[a])
  {
    var s, s' := At(init, events, k), At(init, events, k + 1);
    AtNext(init, events, k);
    assert Holds(s', a);
    FinalCheckStep(s, s', events[k], a);
  }

  lemma HoldContinues(init: Block, events: seq<Event>, a: nat, m: nat)
    requires m < |events| && Holds(At(init, events, m + 1), a)
    ensures var s, s' := At(init, events, m), At(init, events, m + 1);
            if Holds(s, a) then s'.actors[a] == s.actors[a].(stage := s'.actors[a].stage)
            else events[m].Act? && events[m].actor == a
  {
    AtNext(init, events, m);
    HeldFrame(At(init, events, m), events[m], a);
  }

  /** The event that began the current hold is its final uid check, and the flags record the state it ran in. */
  lemma {:induction false} HoldIsChecked(init: Block, events: seq<Event>, a: nat, k: nat, m: nat)
    requires m <= |events| && HoldsSince(init, events, a, k, m)
    ensures Holds(At(init, events, m), a) && FinalCheck(At(init, events, k), a, At(init, events, m).actors[a])
    decreases m
  {
    assert Holds(At(init, events, m), a);
    if m - 1 == k {
      HoldBegins(init, events, a, k);
    } else {
      assert Holds(At(init, events, m - 1), a);
      HoldIsChecked(init, events, a, k, m - 1);
      HoldContinues(init, events, a, m - 1);
    }
  }

  /** Every held reference has one final check, at which its current hold began. */
  lemma {:induction false} HeldOrigin(init: Block, events: seq<Event>, a: nat, m: nat) returns (k: nat)
    requires Init(init) && m <= |events| && Holds(At(init, events, m), a)
    ensures HoldsSince(init, events, a, k, m)
    ensures FinalCheck(At(init, events, k), a, At(init, events, m).actors[a])
    ensures forall l: nat :: HoldsSince(init, events, a, l, m) ==> l == k
    decreases m
  {
    assert m > 0;
    HoldContinues(init, events, a, m - 1);
    if Holds(At(init, events, m - 1), a) {
      k := HeldOrigin(init, events, a, m - 1);
    } else {
      k := m - 1;
    }
    HoldIsChecked(init, events, a, k, m);
  }

  lemma FinalCheckStep(s: Block, s': Block, e: Event, a: nat)
    requires !Holds(s, a) && Holds(s', a) && e.Act? && e.actor == a && s' == Apply(s, e)
    ensures FinalCheck(s, a, s'.actors[a])
  {
    if Acquiring(s.actors[a]) {
      assert s' == AcquireStep(s, a, e.choice);
    }
  }

  /** A hold goes on unchanged but for its stage, unless the event is its actor's first. */
  lemma HeldFrame(s: Block, e: Event, a: nat)
    requires Holds(Apply(s, e), a)
    ensures Holds(s, a) ==> Apply(s, e).actors[a] == s.actors[a].(stage := Apply(s, e).actors[a].stage)
    ensures !Holds(s, a) ==> e.Act? && e.actor == a
  {
    if e.Act? && e.actor != a && e.actor < |s.actors| {
      StepFrame(s, e.actor, e.choice);
    } else if e.Act? && e.actor == a && Holds(s, a) {
      assert Apply(s, e) == OwnerStep(s, a, e.choice);
    }
  }

  /** Event `m` is the uid store of actor `j` that ends generation `uid`. */
  predicate Stores(init: Block, events: seq<Event>, m: nat, j: nat, uid: nat) {
    && m < |events| && events[m].Act? && events[m].actor == j
    && var s := At(init, events, m);
       j < |s.actors| && s.actors[j] == ReserveStoreUid(uid + 1) && s.uid == uid
  }

  /** A reservation seen between its claim and its uid store goes on to store the next uid; until then the uid stays. */
  lemma {:induction false} ClaimLeadsToStore(init: Block, events: seq<Event>, k: nat, j: nat, m: nat)
    requires Init(init) && k <= m <= |events| && !At(init, events, m).overflowed
    requires var s := At(init, events, k); j < |s.actors| && Claiming(s.actors[j])
    ensures
      var u := At(init, events, k).uid;
      || (var s := At(init, events, m); s.uid == u && j < |s.actors| && Claiming(s.actors[j]))
      || exists n: nat :: k <= n < m && Stores(init, events, n, j, u)
    decreases m
  {
    if m > k {
      var s, s', e := At(init, events, m - 1), At(init, events, m), events[m - 1];
      AtNext(init, events, m - 1);
      InitInv(init);
      RunInv(init, events[..m - 1]);
      OverflowStep(s, e);
      ClaimLeadsToStore(init, events, k, j, m - 1);
      var u := At(init, events, k).uid;
      if s.uid == u && j < |s.actors| && Claiming(s.actors[j]) {
        assert ActorOk(s, s.actors[j]);
        if e.Act? && e.actor < |s.actors| {
          StepOf(s, e.actor, e.choice);
          if s.actors[e.actor].ReserveStoreUid? {
            assert e.actor == j;
            assert Stores(init, events, m - 1, j, u);
          }
        }
      }
    }
  }

  /**
   The race, exactly.  Let a reference for u be held since the final check that is
   event `k`.  It is overtaken if and only if that check ran between the claim CAS
   and the uid store of a reservation; the uid is u until that very reservation
   stores u + 1, and u + 1 from then on.  Otherwise it is pinned at u.
   */
  lemma RaceCharacterised(init: Block, events: seq<Event>, a: nat, k: nat)
    requires Init(init) && !Run(init, events).overflowed && HoldsSince(init, events, a, k, |events|)
    ensures Holds(Run(init, events), a)
    ensures
      var check, s := At(init, events, k), Run(init, events);
      var u := s.actors[a].uid;
      && a < |check.actors| && check.actors[a] == AcquireRecheck(u) && check.uid == u
      && (Overtaken(s, s.actors[a]) <==> SomeClaiming(check))
      && (s.uid == u || s.uid == u + 1)
      && (s.uid == u + 1 ==>
            exists m: nat, j: nat :: k < m < |events| && j < |check.actors| && Claiming(check.actors[j])
                                     && Stores(init, events, m, j, u))
  {
    var check, s := At(init, events, k), Run(init, events);
    AtEnd(init, events);
    HoldIsChecked(init, events, a, k, |events|);
    InitInv(init);
    RunInv(init, events);
    assert HeldOk(s, s.actors[a]);
    if s.uid == s.actors[a].uid + 1 {
      var j: nat :| j < |check.actors| && Claiming(check.actors[j]);
      ClaimLeadsToStore(init, events, k, j, |events|);
      var m: nat :| k <= m < |events| && Stores(init, events, m, j, check.uid);
    }
  }
}
