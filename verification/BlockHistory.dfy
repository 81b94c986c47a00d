/**
 The history of one block: the generations it hands out, the commits it stamps,
 and the GPU reads that stand behind its held references.
 */
module BlockHistory {
  import opened BlockWords
  import opened BlockProtocol
  import opened BlockInvariants

  /** Holds a generation that has not been and will not be published without its commit stamp. */
  predicate Unstamped(pc: Pc) {
    HoldsReservation(pc) && !(pc.ReleaseDrop? && pc.published)
  }

  /** Has cleared the stamp and will not clear it again. */
  predicate Cleared(pc: Pc) {
    || pc.Reserved? || pc.ReleaseCheck? || pc.ReleaseClock? || pc.ReleaseStamp?
    || (pc.ReleaseDrop? && !pc.published)
  }

  predicate Committed(s: Block, uid: nat) {
    exists k :: 0 <= k < |s.log| && s.log[k].uid == uid
  }

  predicate PublisherHistoryOk(s: Block, pc: Pc) {
    && (HoldsReservation(pc) ==> s.uid in s.generations)
    && (Unstamped(pc) ==> forall k :: 0 <= k < |s.log| ==> s.log[k].uid < s.uid)
    && (Cleared(pc) ==> s.stamp == 0)
    && (pc.Held? && pc.timely ==> Committed(s, pc.uid))
  }

  /** Generations and commits are strictly increasing, and only generations are committed. */
  predicate Increasing(s: Block) {
    && (forall i, j :: 0 <= i < j < |s.generations| ==> s.generations[i] < s.generations[j])
    && (forall i, j :: 0 <= i < j < |s.log| ==> s.log[i].uid < s.log[j].uid)
    && (forall i :: 0 <= i < |s.generations| ==> s.generations[i] <= s.uid)
    && (forall k :: 0 <= k < |s.log| ==> s.log[k].uid in s.generations)
  }

  predicate HistoryOk(s: Block) {
    && Increasing(s)
    && (forall i :: 0 <= i < |s.actors| ==> PublisherHistoryOk(s, s.actors[i]))
  }

  /** A reference in this stage is not dropped before its completion event has been synchronised. */
  predicate Guarding(stage: Stage) {
    stage.Queued? || stage.Retained? || (stage.Handle? && stage.completion)
  }

  /** A guarded read belongs to a reference that has not been synchronised. */
  predicate ReadOk(s: Block, r: GpuRead) {
    r.guarded ==>
      && r.actor < |s.actors| && s.actors[r.actor].Held?
      && s.actors[r.actor].uid == r.uid && Guarding(s.actors[r.actor].stage)
  }

  /** The reads in flight are numbered apart. */
  predicate Numbered(s: Block) {
    && (forall r :: r in s.gpuReads ==> r.serial < s.readCount)
    && (forall r, q :: r in s.gpuReads && q in s.gpuReads && r.serial == q.serial ==> r == q)
  }

  predicate ReadsOk(s: Block) {
    forall r :: r in s.gpuReads ==> ReadOk(s, r)
  }

  // ----- one step -----

  predicate HistoryStep(s: Block, a: nat, s': Block)
    requires a < |s.actors|
  {
    && OnlyMoves(s, s', a)
    && var pc, pc' := s.actors[a], s'.actors[a];
    && s'.generations == (if pc.ReserveStoreUid? then s.generations + [pc.next] else s.generations)
    && s'.log == (if pc.ReleaseStamp? then s.log + [Publish(pc.uid, pc.now)] else s.log)
    && s'.stamp == (if pc.ReserveClearStamp? then 0 else if pc.ReleaseStamp? then pc.now else s.stamp)
    && (HoldsReservation(pc') ==> HoldsReservation(pc) || pc.ReserveStoreUid?)
    && (Unstamped(pc') ==> (Unstamped(pc) && !pc.ReleaseStamp?) || pc.ReserveStoreUid?)
    && (Cleared(pc') ==> (Cleared(pc) && !pc.ReleaseStamp?) || pc.ReserveClearStamp?)
    && (pc'.Held? && pc'.timely ==> (pc.Held? && pc.timely && pc'.uid == pc.uid) || Committed(s, pc'.uid))
  }

  lemma ReserveHistory(s: Block, a: nat)
    requires a < |s.actors| && Reserving(s.actors[a])
    ensures HistoryStep(s, a, ReserveStep(s, a)) && ReserveStep(s, a).gpuReads == s.gpuReads
  {
  }

  lemma ReleaseHistory(s: Block, a: nat)
    requires a < |s.actors| && Releasing(s.actors[a])
    ensures HistoryStep(s, a, ReleaseStep(s, a)) && ReleaseStep(s, a).gpuReads == s.gpuReads
  {
  }

  lemma AcquireHistory(s: Block, a: nat, choice: Choice)
    requires a < |s.actors| && Acquiring(s.actors[a])
    ensures HistoryStep(s, a, AcquireStep(s, a, choice)) && AcquireStep(s, a, choice).gpuReads == s.gpuReads
  {
  }

  lemma OwnerHistory(s: Block, a: nat, s': Block)
    requires a < |s.actors| && s.actors[a].Held? && OwnerMove(s, a, s')
    ensures HistoryStep(s, a, s')
  {
  }

  lemma IdleHistory(s: Block, a: nat, choice: Choice)
    requires a < |s.actors| && (s.actors[a].Idle? || s.actors[a].Reserved? || s.actors[a].Quarantined?)
    ensures HistoryStep(s, a, Apply(s, Act(a, choice))) && Apply(s, Act(a, choice)).gpuReads == s.gpuReads
  {
  }

  lemma HistoryStepHolds(s: Block, a: nat, choice: Choice)
    requires a < |s.actors|
    ensures HistoryStep(s, a, Apply(s, Act(a, choice)))
    ensures !s.actors[a].Held? ==> Apply(s, Act(a, choice)).gpuReads == s.gpuReads
  {
    var s' := Apply(s, Act(a, choice));
    var pc := s.actors[a];
    if Reserving(pc) {
      assert s' == ReserveStep(s, a);
      ReserveHistory(s, a);
    } else if Releasing(pc) {
      assert s' == ReleaseStep(s, a);
      ReleaseHistory(s, a);
    } else if Acquiring(pc) {
      assert s' == AcquireStep(s, a, choice);
      AcquireHistory(s, a, choice);
    } else if pc.Held? {
      assert s' == OwnerStep(s, a, choice);
      OwnerMoves(s, a, choice);
      OwnerHistory(s, a, s');
    } else {
      IdleHistory(s, a, choice);
    }
  }

  lemma CommittedStays(s: Block, s': Block)
    requires s.log <= s'.log
    ensures forall uid :: Committed(s, uid) ==> Committed(s', uid)
  {
    forall uid | Committed(s, uid) ensures Committed(s', uid) {
      var k :| 0 <= k < |s.log| && s.log[k].uid == uid;
      assert s'.log[k] == s.log[k];
    }
  }

  lemma PublisherHistoryStep(s: Block, a: nat, s': Block, i: nat)
    requires Inv(s) && HistoryOk(s) && !s.overflowed && i < |s.actors| && a < |s.actors|
    requires LocalStep(s, a, s') && HistoryStep(s, a, s')
    ensures PublisherHistoryOk(s', s'.actors[i])
  {
    assert PublisherHistoryOk(s, s.actors[i]) && PublisherHistoryOk(s, s.actors[a]);
    assert ActorOk(s, s.actors[i]) && ActorOk(s, s.actors[a]);
    assert i != a ==> !(Publisher(s.actors[i]) && Publisher(s.actors[a]));
    CommittedStays(s, s');
    forall k | 0 <= k < |s.log| ensures s.log[k].uid <= s.uid {
      var g :| 0 <= g < |s.generations| && s.generations[g] == s.log[k].uid;
    }
  }

  lemma IncreasingStep(s: Block, a: nat, s': Block)
    requires Increasing(s) && a < |s.actors| && ActorOk(s, s.actors[a]) && PublisherHistoryOk(s, s.actors[a])
    requires LocalStep(s, a, s') && HistoryStep(s, a, s')
    ensures Increasing(s')
  {
    forall k | 0 <= k < |s'.log| ensures s'.log[k].uid in s'.generations {
      if k < |s.log| {
        assert s.log[k].uid in s.generations;
      }
    }
  }

  lemma HistoryActStep(s: Block, a: nat, choice: Choice)
    requires Inv(s) && HistoryOk(s) && !s.overflowed && a < |s.actors|
    ensures HistoryOk(Apply(s, Act(a, choice)))
  {
    var s' := Apply(s, Act(a, choice));
    StepOf(s, a, choice);
    HistoryStepHolds(s, a, choice);
    IncreasingStep(s, a, s');
    forall i | 0 <= i < |s'.actors| ensures PublisherHistoryOk(s', s'.actors[i]) {
      PublisherHistoryStep(s, a, s', i);
    }
  }

  lemma ReadsStep(s: Block, e: Event)
    requires ReadsOk(s)
    ensures ReadsOk(Apply(s, e))
  {
    var s' := Apply(s, e);
    if e.Act? && e.actor < |s.actors| {
      HistoryStepHolds(s, e.actor, e.choice);
      forall r | r in s'.gpuReads ensures ReadOk(s', r) {
        if r in s.gpuReads {
          assert ReadOk(s, r);
        }
      }
    } else {
      forall r | r in s'.gpuReads ensures ReadOk(s', r) {
        assert ReadOk(s, r);
      }
    }
  }

  lemma CallReads(s: Block, a: nat, choice: Choice)
    requires a < |s.actors|
    ensures Reserving(s.actors[a]) ==> ReserveStep(s, a).readCount == s.readCount
    ensures Releasing(s.actors[a]) ==> ReleaseStep(s, a).readCount == s.readCount
    ensures Acquiring(s.actors[a]) ==> AcquireStep(s, a, choice).readCount == s.readCount
  {
  }

  lemma ReadsMove(s: Block, a: nat, choice: Choice)
    requires a < |s.actors|
    ensures
      var s' := Apply(s, Act(a, choice));
      || (s'.gpuReads == s.gpuReads && s'.readCount == s.readCount)
      || (exists r :: s'.gpuReads == s.gpuReads + {r} && r.serial == s.readCount == s'.readCount - 1)
  {
    var s', pc := Apply(s, Act(a, choice)), s.actors[a];
    HistoryStepHolds(s, a, choice);
    CallReads(s, a, choice);
    if Reserving(pc) {
      assert s' == ReserveStep(s, a);
    } else if Releasing(pc) {
      assert s' == ReleaseStep(s, a);
    } else if Acquiring(pc) {
      assert s' == AcquireStep(s, a, choice);
    } else if pc.Held? {
      assert s' == OwnerStep(s, a, choice);
      OwnerMoves(s, a, choice);
      if pc.stage.Handle? && s' == AddRead(s, a, pc.uid, pc.stage.completion, pc.stage.waits) {
        assert GpuRead(s.readCount, a, pc.uid, pc.stage.completion, pc.stage.waits).serial == s.readCount;
      }
    }
  }

  /** A read in flight ends when it is done, which takes the writes it waits for to be done, and by nothing else. */
  lemma ReadEndsExactly(s: Block, e: Event, r: GpuRead)
    requires r in s.gpuReads
    ensures r !in Apply(s, e).gpuReads <==> e == ReadDone(r) && r.waits !! s.gpu.writes
  {
    if e.Act? && e.actor < |s.actors| {
      ReadsMove(s, e.actor, e.choice);
    }
  }

  lemma NumbersStep(s: Block, e: Event)
    requires Numbered(s)
    ensures Numbered(Apply(s, e))
  {
    if e.Act? && e.actor < |s.actors| {
      ReadsMove(s, e.actor, e.choice);
    }
  }

  lemma HistoryEventStep(s: Block, e: Event)
    requires Inv(s) && !s.overflowed && HistoryOk(s)
    ensures HistoryOk(Apply(s, e))
  {
    if e.Act? && e.actor < |s.actors| {
      HistoryActStep(s, e.actor, e.choice);
    } else {
      var s' := Apply(s, e);
      forall i | 0 <= i < |s'.actors| ensures PublisherHistoryOk(s', s'.actors[i]) {
        assert PublisherHistoryOk(s, s.actors[i]);
      }
    }
  }

  predicate FullInv(s: Block) {
    Inv(s) && ReadsOk(s) && Numbered(s) && (!s.overflowed ==> HistoryOk(s))
  }

  lemma FullStep(s: Block, e: Event)
    requires FullInv(s)
    ensures FullInv(Apply(s, e))
  {
    InvStep(s, e);
    ReadsStep(s, e);
    NumbersStep(s, e);
    OverflowStep(s, e);
    if !s.overflowed {
      HistoryEventStep(s, e);
    }
  }

  lemma {:induction false} FullRun(s: Block, events: seq<Event>)
    requires FullInv(s)
    ensures FullInv(Run(s, events))
    decreases |events|
  {
    if events != [] {
      FullStep(s, events[0]);
      FullRun(Apply(s, events[0]), events[1..]);
    }
  }

  lemma FullInit(s: Block)
    requires Init(s)
    ensures FullInv(s)
  {
    InitInv(s);
  }

  /**
   Successive reservations carry strictly increasing generations, every commit
   publishes one of them, and no generation of a block is published twice.
   */
  lemma FreshGenerations(init: Block, events: seq<Event>)
    requires Init(init)
    ensures
      var s := Run(init, events);
      !s.overflowed ==>
        && (forall i, j :: 0 <= i < j < |s.generations| ==> s.generations[i] < s.generations[j])
        && (forall i, j :: 0 <= i < j < |s.log| ==> s.log[i].uid < s.log[j].uid)
        && (forall k :: 0 <= k < |s.log| ==> s.log[k].uid in s.generations)
  {
    FullInit(init);
    FullRun(init, events);
  }

  /**
   A reference bound with a completion event whose GPU reads are still running
   is not dropped: whatever the next event is, the actor still holds it.
   */
  lemma ReadPinsReference(init: Block, events: seq<Event>, r: GpuRead, e: Event)
    requires Init(init)
    requires r in Run(init, events).gpuReads && r.guarded
    ensures
      var s := Run(init, events);
      && r.actor < |s.actors| && s.actors[r.actor].Held? && s.actors[r.actor].uid == r.uid
      && Apply(s, e).actors[r.actor].Held? && Apply(s, e).actors[r.actor].uid == r.uid
  {
    FullInit(init);
    FullRun(init, events);
    var s := Run(init, events);
    assert ReadOk(s, r);
    HeldSurvives(s, r.actor, e);
  }

  /** A reference with a guarded read in flight survives any one event. */
  lemma HeldSurvives(s: Block, a: nat, e: Event)
    requires a < |s.actors| && s.actors[a].Held? && Guarding(s.actors[a].stage)
    requires exists r :: r in s.gpuReads && r.guarded && r.actor == a
    ensures Apply(s, e).actors[a].Held? && Apply(s, e).actors[a].uid == s.actors[a].uid
  {
    if e.Act? && e.actor == a {
      assert Apply(s, e) == OwnerStep(s, a, e.choice);
    } else if e.Act? && e.actor < |s.actors| {
      StepFrame(s, e.actor, e.choice);
    }
  }

  /** The timestamp is set by commit stamps only. */
  lemma StampStep(s: Block, e: Event)
    ensures |Apply(s, e).log| >= |s.log|
    ensures s.stamp == 0 && |Apply(s, e).log| == |s.log| ==> Apply(s, e).stamp == 0
  {
    if e.Act? && e.actor < |s.actors| {
      HistoryStepHolds(s, e.actor, e.choice);
    }
  }

  lemma {:induction false} StampStaysClear(init: Block, events: seq<Event>, k: nat, m: nat)
    requires k <= m <= |events| && At(init, events, k).stamp == 0
    ensures |At(init, events, m).log| >= |At(init, events, k).log|
    ensures |At(init, events, m).log| == |At(init, events, k).log| ==> At(init, events, m).stamp == 0
    decreases m
  {
    if m > k {
      StampStaysClear(init, events, k, m - 1);
      AtNext(init, events, m - 1);
      StampStep(At(init, events, m - 1), events[m - 1]);
    }
  }

  /**
   A cancelled reservation leaves no waiting time behind: from the step that returns
   its unit until the next commit stamp, whatever others do in between, the timestamp
   is 0 and no reader of it has to wait.
   */
  lemma CancelLeavesNoWait(init: Block, events: seq<Event>, a: nat, k: nat)
    requires Init(init) && k < |events| && !At(init, events, k).overflowed
    requires
      var s := At(init, events, k);
      a < |s.actors| && s.actors[a].ReleaseDrop? && !s.actors[a].published
    requires |Run(init, events).log| == |At(init, events, k).log|
    ensures Run(init, events).stamp == 0
    ensures forall now: nat :: GracePassed(Run(init, events).stamp, now)
  {
    FullInit(init);
    FullRun(init, events[..k]);
    var s := At(init, events, k);
    assert PublisherHistoryOk(s, s.actors[a]);
    StampStaysClear(init, events, k, |events|);
    AtEnd(init, events);
  }
}
