/**
 GPU writes beside GPU reads.  The owner of a reservation enqueues writes, the ready
 event recorded by `prepare_publish` stands for those on its stream, and a bound
 reader waits for it.  Cancelling returns the unit without waiting for writes.
 */
module WriteExclusion {
  import opened Machine
  import opened BlockProtocol
  import opened BlockInvariants
  import opened BlockHistory
  import opened BlockSolo
  import opened BlockWitness
  import opened PoolProtocol

  /** Between recording the ready event and the end of the commit. */
  predicate Committing(pc: Pc) {
    || pc.ReleaseClock? || pc.ReleaseStamp?
    || ((pc.ReleaseCheck? || pc.ReleaseDrop?) && pc.published)
  }

  /** Owns its generation and has not begun to give it up. */
  predicate Writable(pc: Pc) {
    pc.ReserveClearStamp? || pc.Reserved?
  }

  /** Every write in flight is one the ready event stands for or one it missed. */
  predicate Accounted(gpu: Gpu, waits: set<GpuWrite>) {
    gpu.writes <= waits + gpu.missed
  }

  predicate TimelyHeld(s: Block, a: nat) {
    Holds(s, a) && s.actors[a].timely
  }

  predicate ReaderOk(s: Block, a: nat) {
    TimelyHeld(s, a) && s.actors[a].stage.Handle? ==> Accounted(s.gpu, s.actors[a].stage.waits)
  }

  predicate WriteInv(s: Block) {
    && (forall i :: 0 <= i < |s.actors| && Committing(s.actors[i]) ==> Accounted(s.gpu, s.gpu.ready))
    && (Committed(s, s.uid) ==> Accounted(s.gpu, s.gpu.ready))
    && (forall i :: 0 <= i < |s.actors| ==> ReaderOk(s, i))
    && (forall r :: r in s.gpuReads && r.guarded && TimelyHeld(s, r.actor) ==> Accounted(s.gpu, r.waits))
  }

  // ----- one step -----

  /** What one step of actor `a` does to writing and reading. */
  predicate WriteStep(s: Block, a: nat, s': Block)
    requires a < |s.actors|
  {
    && OnlyMoves(s, s', a)
    && var pc, pc' := s.actors[a], s'.actors[a];
    && (pc.Reserved? || s'.gpu == s.gpu)
    && (Committing(pc') ==>
          && (Committing(pc) || (pc.Reserved? && Accounted(s'.gpu, s'.gpu.ready)))
          && pc'.uid == pc.uid)
    && (Writable(pc') ==> Writable(pc) || pc.ReserveStoreUid?)
    && (pc'.Held? && pc'.stage.Handle? ==> pc.Held? && (pc.stage == pc'.stage || pc'.stage.waits == s.gpu.ready))
    && (forall r :: r in s'.gpuReads && r !in s.gpuReads ==>
          r.actor == a && pc.Held? && pc.stage.Handle? && pc.stage.waits == r.waits && pc'.Held?)
  }

  lemma ReserveWrites(s: Block, a: nat)
    requires a < |s.actors| && Reserving(s.actors[a])
    ensures WriteStep(s, a, ReserveStep(s, a))
  {
  }

  lemma ReleaseWrites(s: Block, a: nat)
    requires a < |s.actors| && Releasing(s.actors[a])
    ensures WriteStep(s, a, ReleaseStep(s, a))
  {
  }

  lemma AcquireWrites(s: Block, a: nat, choice: Choice)
    requires a < |s.actors| && Acquiring(s.actors[a])
    ensures WriteStep(s, a, AcquireStep(s, a, choice))
  {
  }

  lemma HandleWrites(s: Block, a: nat, choice: Choice, completion: bool, waits: set<GpuWrite>)
    requires a < |s.actors| && s.actors[a].Held? && s.actors[a].stage == Handle(completion, waits)
    ensures WriteStep(s, a, HandleStep(s, a, choice, completion, waits))
  {
  }

  lemma OwnerWrites(s: Block, a: nat, choice: Choice)
    requires a < |s.actors| && s.actors[a].Held?
    ensures WriteStep(s, a, OwnerStep(s, a, choice))
  {
    var stage := s.actors[a].stage;
    if stage.Handle? {
      HandleWrites(s, a, choice, stage.completion, stage.waits);
    }
  }

  lemma ReservedWrites(s: Block, a: nat, choice: Choice)
    requires a < |s.actors| && s.actors[a].Reserved?
    ensures WriteStep(s, a, ReservedStep(s, a, s.actors[a].uid, choice))
  {
  }

  lemma WriteStepHolds(s: Block, a: nat, choice: Choice)
    requires a < |s.actors|
    ensures WriteStep(s, a, Apply(s, Act(a, choice)))
  {
    var s', pc := Apply(s, Act(a, choice)), s.actors[a];
    if Reserving(pc) {
      assert s' == ReserveStep(s, a);
      ReserveWrites(s, a);
    } else if Releasing(pc) {
      assert s' == ReleaseStep(s, a);
      ReleaseWrites(s, a);
    } else if Acquiring(pc) {
      assert s' == AcquireStep(s, a, choice);
      AcquireWrites(s, a, choice);
    } else if pc.Held? {
      assert s' == OwnerStep(s, a, choice);
      OwnerWrites(s, a, choice);
    } else if pc.Reserved? {
      assert s' == ReservedStep(s, a, pc.uid, choice);
      ReservedWrites(s, a, choice);
    }
  }

  /** While a timely reference is held, or the current generation is committed, nobody can write. */
  lemma NoWriter(p: Pooled, a: nat)
    requires PoolInv(p) && !p.block.overflowed && a < |p.block.actors| && p.block.actors[a].Reserved?
    ensures !Committed(p.block, p.block.uid)
    ensures forall i :: 0 <= i < |p.block.actors| ==> !TimelyHeld(p.block, i) && !Committing(p.block.actors[i])
  {
    var s := p.block;
    assert PublisherHistoryOk(s, s.actors[a]);
    forall i | 0 <= i < |s.actors| ensures !TimelyHeld(s, i) && !Committing(s.actors[i]) {
      if TimelyHeld(s, i) {
        TimelyExcludes(p, i);
      }
    }
  }

  lemma CommittedStep(p: Pooled, a: nat, choice: Choice)
    requires PoolInv(p) && WriteInv(p.block) && a < |p.block.actors|
    requires var s' := Apply(p.block, Act(a, choice)); !s'.overflowed && Committed(s', s'.uid)
    ensures var s' := Apply(p.block, Act(a, choice)); Accounted(s'.gpu, s'.gpu.ready)
  {
    var s, s' := p.block, Apply(p.block, Act(a, choice));
    OverflowStep(s, Act(a, choice));
    StepOf(s, a, choice);
    HistoryStepHolds(s, a, choice);
    WriteStepHolds(s, a, choice);
    assert ActorOk(s, s.actors[a]);
    var k :| 0 <= k < |s'.log| && s'.log[k].uid == s'.uid;
    if !s.actors[a].ReleaseStamp? {
      assert s.log[k].uid in s.generations;
      var g :| 0 <= g < |s.generations| && s.generations[g] == s.log[k].uid;
      assert Committed(s, s.uid);
      if s.actors[a].Reserved? {
        NoWriter(p, a);
      }
    }
  }

  lemma NoReadsBefore(s: Block, a: nat)
    requires ReadsOk(s) && !Holds(s, a)
    ensures forall r :: r in s.gpuReads && r.guarded ==> r.actor != a
  {
    forall r | r in s.gpuReads && r.guarded ensures r.actor != a {
      assert ReadOk(s, r);
    }
  }

  lemma ReadersStep(p: Pooled, a: nat, choice: Choice, i: nat)
    requires PoolInv(p) && WriteInv(p.block) && a < |p.block.actors|
    requires var s' := Apply(p.block, Act(a, choice)); !s'.overflowed && TimelyHeld(s', i)
    ensures
      var s' := Apply(p.block, Act(a, choice));
      && ReaderOk(s', i)
      && forall r :: r in s'.gpuReads && r.guarded && r.actor == i ==> Accounted(s'.gpu, r.waits)
  {
    var s, s', e := p.block, Apply(p.block, Act(a, choice)), Act(a, choice);
    OverflowStep(s, e);
    WriteStepHolds(s, a, choice);
    HeldFrame(s, e, i);
    if Holds(s, i) {
      TimelyExcludes(p, i);
      assert s'.gpu == s.gpu && ReaderOk(s, i);
    } else {
      FinalCheckStep(s, s', e, i);
      NoReadsBefore(s, i);
    }
  }

  lemma WriteActStep(p: Pooled, a: nat, choice: Choice)
    requires PoolInv(p) && WriteInv(p.block) && a < |p.block.actors| && !Apply(p.block, Act(a, choice)).overflowed
    ensures WriteInv(Apply(p.block, Act(a, choice)))
  {
    var s, s' := p.block, Apply(p.block, Act(a, choice));
    OverflowStep(s, Act(a, choice));
    WriteStepHolds(s, a, choice);
    if Committed(s', s'.uid) {
      CommittedStep(p, a, choice);
    }
    forall i | 0 <= i < |s'.actors| && Committing(s'.actors[i]) ensures Accounted(s'.gpu, s'.gpu.ready) {
      if s.actors[a].Reserved? {
        NoWriter(p, a);
      }
    }
    forall i | 0 <= i < |s'.actors| && TimelyHeld(s', i)
      ensures ReaderOk(s', i)
      ensures forall r :: r in s'.gpuReads && r.guarded && r.actor == i ==> Accounted(s'.gpu, r.waits)
    {
      ReadersStep(p, a, choice, i);
    }
  }

  /** A write in flight ends when it is done, and by nothing else: in particular not when its reservation ends. */
  lemma WriteEndsExactly(s: Block, e: Event, w: GpuWrite)
    requires w in s.gpu.writes
    ensures w !in Apply(s, e).gpu.writes <==> e == WriteDone(w)
  {
    if e.Act? && e.actor < |s.actors| {
      var a := e.actor;
      WriteStepHolds(s, a, e.choice);
      if s.actors[a].Reserved? {
        assert Apply(s, e) == ReservedStep(s, a, s.actors[a].uid, e.choice);
      }
    }
  }

  // ----- runs -----

  lemma WritePoolStep(p: Pooled, e: PoolEvent)
    requires PoolInv(p) && WriteInv(p.block) && !PoolApply(p, e).block.overflowed
    ensures WriteInv(PoolApply(p, e).block)
  {
    var s, s' := p.block, PoolApply(p, e).block;
    if s' != s && e.Inner? {
      if e.event.Act? {
        if e.event.actor < |s.actors| {
          WriteActStep(p, e.event.actor, e.event.choice);
        }
      } else {
        assert s'.gpu.writes <= s.gpu.writes && s'.gpu.ready == s.gpu.ready && s'.gpu.missed == s.gpu.missed;
        forall i | 0 <= i < |s'.actors| ensures ReaderOk(s', i) {
          assert ReaderOk(s, i);
        }
      }
    }
  }

  lemma {:induction false} WriteRun(p: Pooled, events: seq<PoolEvent>)
    requires PoolInv(p) && WriteInv(p.block) && !PoolRun(p, events).block.overflowed
    ensures WriteInv(PoolRun(p, events).block)
    decreases |events|
  {
    if events != [] {
      var q := PoolApply(p, events[0]);
      PoolRunInv(p, [events[0]]);
      assert PoolRun(p, [events[0]]) == PoolRun(q, []);
      if q.block.overflowed {
        StaysOverflowed(q, events[1..]);
      }
      WritePoolStep(p, events[0]);
      WriteRun(q, events[1..]);
    }
  }

  lemma {:induction false} StaysOverflowed(p: Pooled, events: seq<PoolEvent>)
    requires PoolInv(p) && p.block.overflowed
    ensures PoolRun(p, events).block.overflowed
    decreases |events|
  {
    if events != [] {
      if events[0].Inner? {
        OverflowStep(p.block, events[0].event);
      }
      PoolRunInv(p, [events[0]]);
      assert PoolRun(p, [events[0]]) == PoolRun(PoolApply(p, events[0]), []);
      StaysOverflowed(PoolApply(p, events[0]), events[1..]);
    }
  }

  /** The GPU may be executing the read: the writes it waits for are done. */
  predicate Executing(s: Block, r: GpuRead) {
    r in s.gpuReads && r.waits !! s.gpu.writes
  }

  /** A write beside a timely read that executes is one that the ready event missed, and no event starts one. */
  lemma OnlyMissed(init: Pooled, events: seq<PoolEvent>, r: GpuRead, k: nat, e: Event)
    requires PoolInit(init) && !PoolRun(init, events).block.overflowed
    requires Executing(PoolRun(init, events).block, r) && r.guarded
    requires k <= |events| && CheckedInTime(init, events, r.actor, k)
    ensures
      var s := PoolRun(init, events).block;
      && s.uid == r.uid && Committed(s, r.uid)
      && s.gpu.writes <= s.gpu.missed && Apply(s, e).gpu.writes <= s.gpu.writes
  {
    PoolReachable(init, events);
    FullInit(init.block);
    WriteRun(init, events);
    TimelyHold(init, events, r.actor, k);
    var p := PoolRun(init, events);
    TimelyExcludes(p, r.actor);
    assert ReadOk(p.block, r);
    if e.Act? && e.actor < |p.block.actors| {
      WriteStepHolds(p.block, e.actor, e.choice);
    }
  }

  // ----- from the commit on -----

  /** The writes in flight that a recording of the ready event on `stream` does not capture. */
  function Strays(gpu: Gpu, stream: nat): set<GpuWrite> {
    set w | w in gpu.writes && w.stream != stream
  }

  /** Pool event `c` records the ready event of generation `uid` on `stream`, and begins its commit by actor `a`. */
  predicate Commits(init: Pooled, events: seq<PoolEvent>, c: nat, a: nat, uid: nat, stream: nat) {
    && c < |events| && events[c] == Inner(Act(a, Commit(stream)))
    && var p := PoolRun(init, events[..c]);
       p.mutex == Some(a) && a < |p.block.actors| && p.block.actors[a] == Reserved(uid)
  }

  lemma PoolNext(init: Pooled, events: seq<PoolEvent>, m: nat)
    requires m < |events|
    ensures PoolRun(init, events[..m + 1]) == PoolApply(PoolRun(init, events[..m]), events[m])
  {
    var p := PoolRun(init, events[..m]);
    assert events[..m + 1] == events[..m] + [events[m]];
    PoolConcat(init, events[..m], [events[m]]);
    assert PoolRun(p, [events[m]]) == PoolRun(PoolApply(p, events[m]), []);
  }

  /** Generation `uid` is committed, or somebody is committing it. */
  predicate CommitSeen(s: Block, uid: nat) {
    Committed(s, uid) || exists i :: 0 <= i < |s.actors| && Committing(s.actors[i]) && s.actors[i].uid == uid
  }

  lemma CommitSeenStep(p: Pooled, e: PoolEvent, uid: nat)
    requires CommitSeen(PoolApply(p, e).block, uid) && !CommitSeen(p.block, uid)
    ensures e.Inner? && e.event.Act? && e.event.choice.Commit? && p.mutex == Some(e.event.actor)
    ensures e.event.actor < |p.block.actors| && p.block.actors[e.event.actor] == Reserved(uid)
  {
    var s, s' := p.block, PoolApply(p, e).block;
    if e.Inner? && e.event.Act? && e.event.actor < |s.actors| {
      var a := e.event.actor;
      HistoryStepHolds(s, a, e.event.choice);
      WriteStepHolds(s, a, e.event.choice);
      if !Committed(s', uid) {
        var i :| 0 <= i < |s'.actors| && Committing(s'.actors[i]) && s'.actors[i].uid == uid;
        assert i == a && s.actors[a] == Reserved(uid);
      }
    }
  }

  /** A committed generation was committed by some event. */
  lemma {:induction false} CommitBegan(init: Pooled, events: seq<PoolEvent>, m: nat, uid: nat)
      returns (c: nat, a: nat, stream: nat)
    requires PoolInit(init) && m <= |events| && CommitSeen(PoolRun(init, events[..m]).block, uid)
    ensures Commits(init, events, c, a, uid, stream)
    decreases m
  {
    assert m > 0;
    PoolNext(init, events, m - 1);
    var p := PoolRun(init, events[..m - 1]);
    if CommitSeen(p.block, uid) {
      c, a, stream := CommitBegan(init, events, m - 1, uid);
    } else {
      CommitSeenStep(p, events[m - 1], uid);
      c, a, stream := m - 1, events[m - 1].event.actor, events[m - 1].event.choice.stream;
    }
  }

  /** Nobody can write the block's generation any more. */
  predicate Sealed(s: Block) {
    forall i :: 0 <= i < |s.actors| ==> !Writable(s.actors[i])
  }

  lemma SealedStep(p: Pooled, e: PoolEvent)
    requires PoolInv(p) && Sealed(p.block) && !p.block.overflowed && PoolApply(p, e).block.uid == p.block.uid
    ensures
      var s, s' := p.block, PoolApply(p, e).block;
      Sealed(s') && s'.gpu.missed == s.gpu.missed
  {
    var s := p.block;
    if e.Inner? && e.event.Act? && e.event.actor < |s.actors| {
      StepOf(s, e.event.actor, e.event.choice);
      WriteStepHolds(s, e.event.actor, e.event.choice);
    }
  }

  lemma PoolStep(p: Pooled, e: PoolEvent)
    requires PoolInv(p)
    ensures PoolInv(PoolApply(p, e)) && p.block.uid <= PoolApply(p, e).block.uid
    ensures p.block.overflowed ==> PoolApply(p, e).block.overflowed
  {
    GraceStep(p, e);
    if e.Inner? {
      FullStep(p.block, e.event);
      OverflowStep(p.block, e.event);
    }
  }

  lemma {:induction false} UidGrows(p: Pooled, events: seq<PoolEvent>)
    requires PoolInv(p)
    ensures p.block.uid <= PoolRun(p, events).block.uid
    ensures p.block.overflowed ==> PoolRun(p, events).block.overflowed
    decreases |events|
  {
    if events != [] {
      PoolStep(p, events[0]);
      UidGrows(PoolApply(p, events[0]), events[1..]);
    }
  }

  /** What the ready event missed is settled for as long as the generation stays. */
  lemma {:induction false} MissedStays(p: Pooled, events: seq<PoolEvent>)
    requires PoolInv(p) && Sealed(p.block)
    requires !PoolRun(p, events).block.overflowed && PoolRun(p, events).block.uid == p.block.uid
    ensures PoolRun(p, events).block.gpu.missed == p.block.gpu.missed
    decreases |events|
  {
    if events != [] {
      var q := PoolApply(p, events[0]);
      UidGrows(p, events);
      PoolStep(p, events[0]);
      UidGrows(q, events[1..]);
      SealedStep(p, events[0]);
      MissedStays(q, events[1..]);
    }
  }

  /** A commit seals its generation, and the ready event misses the strays. */
  lemma CommitSeals(p: Pooled, a: nat, stream: nat)
    requires PoolInv(p) && !p.block.overflowed && p.mutex == Some(a)
    requires a < |p.block.actors| && p.block.actors[a].Reserved?
    ensures
      var q := PoolApply(p, Inner(Act(a, Commit(stream))));
      && Sealed(q.block) && q.block.uid == p.block.uid == p.block.actors[a].uid
      && q.block.gpu.missed == Strays(p.block.gpu, stream)
  {
    var s, s' := p.block, PoolApply(p, Inner(Act(a, Commit(stream)))).block;
    assert s' == ReservedStep(s, a, s.actors[a].uid, Commit(stream));
    assert ActorOk(s, s.actors[a]);
    forall i | 0 <= i < |s'.actors| ensures !Writable(s'.actors[i]) {
      assert Publisher(s.actors[a]) && (i != a ==> !Publisher(s.actors[i]));
    }
  }

  /** While the generation committed at event `c` is current, the ready event has missed what strayed at `c`. */
  lemma MissedAreStrays(init: Pooled, events: seq<PoolEvent>, c: nat, a: nat, uid: nat, stream: nat)
    requires PoolInit(init) && !PoolRun(init, events).block.overflowed && PoolRun(init, events).block.uid == uid
    requires Commits(init, events, c, a, uid, stream)
    ensures PoolRun(init, events).block.gpu.missed == Strays(PoolRun(init, events[..c]).block.gpu, stream)
  {
    var p := PoolRun(init, events[..c]);
    var q := PoolApply(p, events[c]);
    assert events == events[..c + 1] + events[c + 1..];
    PoolConcat(init, events[..c + 1], events[c + 1..]);
    PoolNext(init, events, c);
    PoolReachable(init, events[..c]);
    PoolStep(p, events[c]);
    UidGrows(q, events[c + 1..]);
    CommitSeals(p, a, stream);
    MissedStays(q, events[c + 1..]);
  }

  /**
   Writes beside reads.  While a read of a timely reference with a completion event
   executes, no event starts a write, and every write in flight was in flight, on another
   stream, when the ready event of that generation was recorded.
   */
  lemma NoWriteBesideRead(init: Pooled, events: seq<PoolEvent>, r: GpuRead, k: nat, e: Event)
      returns (c: nat, a: nat, stream: nat)
    requires PoolInit(init) && !PoolRun(init, events).block.overflowed
    requires Executing(PoolRun(init, events).block, r) && r.guarded
    requires k <= |events| && CheckedInTime(init, events, r.actor, k)
    ensures Commits(init, events, c, a, r.uid, stream)
    ensures PoolRun(init, events).block.gpu.writes <= Strays(PoolRun(init, events[..c]).block.gpu, stream)
    ensures Apply(PoolRun(init, events).block, e).gpu.writes <= PoolRun(init, events).block.gpu.writes
  {
    OnlyMissed(init, events, r, k, e);
    assert events[..|events|] == events;
    c, a, stream := CommitBegan(init, events, |events|, r.uid);
    MissedAreStrays(init, events, c, a, r.uid, stream);
  }

  // ----- the condition, exactly -----

  /** After these events a timely guarded read of generation `uid` executes beside a write. */
  ghost predicate ReadBesideWrite(init: Pooled, events: seq<PoolEvent>, uid: nat) {
    var s := PoolRun(init, events).block;
    && !s.overflowed && s.gpu.writes != {}
    && exists r: GpuRead, k: nat ::
         k <= |events| && CheckedInTime(init, events, r.actor, k) && Executing(s, r) && r.guarded && r.uid == uid
  }

  /** `prepare_publish` up to the recording of the ready event on `stream`. */
  function Prepare(a: nat, stream: nat): seq<PoolEvent> {
    [Lock(a), Inner(Act(a, Commit(stream)))]
  }

  /** Actor `a` is about to publish its reservation, and actor `b` has nothing to do. */
  predicate Publishing(p: Pooled, a: nat, b: nat) {
    && !p.block.overflowed && (p.mutex.None? || p.mutex == Some(a))
    && a < |p.block.actors| && p.block.actors[a].Reserved?
    && b < |p.block.actors| && p.block.actors[b] == Idle
  }

  lemma LockTaken(p: Pooled, a: nat)
    requires p.mutex.None? || p.mutex == Some(a)
    ensures PoolRun(p, [Lock(a)]) == p.(mutex := Some(a))
  {
    assert PoolRun(p, [Lock(a)]) == PoolRun(PoolApply(p, Lock(a)), []);
  }

  /** Writes finish, in any order. */
  lemma {:induction false} FinishWrites(s: Block, done: set<GpuWrite>) returns (events: seq<Event>)
    ensures Run(s, events) == s.(gpu := s.gpu.(writes := s.gpu.writes - done))
    ensures forall i :: 0 <= i < |events| ==> events[i].WriteDone?
    decreases |done|
  {
    events := [];
    if done == {} {
      assert s.gpu.writes - done == s.gpu.writes;
    } else {
      var w :| w in done;
      var s' := Apply(s, WriteDone(w));
      events := FinishWrites(s', done - {w});
      assert s.gpu.writes - {w} - (done - {w}) == s.gpu.writes - done;
      assert ([WriteDone(w)] + events)[1..] == events;
      events := [WriteDone(w)] + events;
    }
  }

  /** What a commit leaves for a reader `b`. */
  lemma CommitReadable(s: Block, a: nat, b: nat, stream: nat, n: nat)
    requires Inv(s) && !s.overflowed && a < |s.actors| && s.actors[a].Reserved?
    requires b < |s.actors| && s.actors[b] == Idle && 6 <= n
    ensures
      var s' := Run(s, Call(a, Commit(stream), n));
      && s'.gpu == RecordReady(s.gpu, stream) && s'.uid == s.actors[a].uid && Timely(s', s'.uid)
      && !s'.overflowed && b < |s'.actors| && s'.actors[b] == Idle && s'.refcount < U32_MAX
  {
    SoloRelease(s, a, Commit(stream), n);
    assert ActorOk(s, s.actors[a]);
    UnitsBound(s.actors, a);
    var s' := Run(s, Call(a, Commit(stream), n));
    assert s'.log[|s.log|] == Publish(s.uid, s'.clock);
  }

  /** A commit, the end of the writes it captured, and a read by another actor: the strays go on beside it. */
  lemma CommitAndRead(s: Block, a: nat, b: nat, stream: nat, n: nat) returns (events: seq<Event>, r: GpuRead)
    requires Inv(s) && !s.overflowed && a < |s.actors| && s.actors[a].Reserved?
    requires b < |s.actors| && s.actors[b] == Idle && 6 <= n
    ensures Allowed(Some(a), events) && |events| > 0 && events[0] == Act(a, Commit(stream))
    ensures
      var s' := Run(s, events);
      && !s'.overflowed && s'.gpu.writes == Strays(s.gpu, stream)
      && TimelyHeld(s', r.actor) && Executing(s', r) && r.guarded && r.uid == s.actors[a].uid
  {
    var commit := Call(a, Commit(stream), n);
    CommitReadable(s, a, b, stream, n);
    var s1 := Run(s, commit);
    var dones := FinishWrites(s1, s1.gpu.ready);
    var s2 := Run(s1, dones);
    assert s2.gpu.writes == Strays(s.gpu, stream);
    SameTimely(s1, s2);
    ReadAlone(s2, b, n);
    var read := ReadCall(s2, b, n);
    RunConcat(s, commit, dones);
    RunConcat(s, commit + dones, read);
    ProceedsAllowed(a, Some(a), n);
    ProceedsAllowed(b, Some(a), n);
    events := commit + dones + read;
    r := GpuRead(s2.readCount, b, s2.uid, true, s2.gpu.ready);
  }

  lemma StraysOverlap(init: Pooled, events: seq<PoolEvent>, a: nat, b: nat, stream: nat)
      returns (more: seq<PoolEvent>)
    requires PoolInit(init) && Publishing(PoolRun(init, events), a, b)
    requires Strays(PoolRun(init, events).block.gpu, stream) != {}
    ensures
      ReadBesideWrite(init, events + Prepare(a, stream) + more, PoolRun(init, events).block.actors[a].uid)
  {
    var p := PoolRun(init, events);
    PoolReachable(init, events);
    var rest, r := CommitAndRead(p.block, a, b, stream, 6);
    LockTaken(p, a);
    PoolConcat(init, events, [Lock(a)]);
    LiftIsRun(p.(mutex := Some(a)), rest);
    PoolConcat(init, events + [Lock(a)], Lift(rest));
    more := Lift(rest)[1..];
    var all := events + Prepare(a, stream) + more;
    assert all == events + [Lock(a)] + Lift(rest);
    var k := TimelyCheck(init, all, r.actor);
  }

  lemma OverlapNeedsStrays(init: Pooled, events: seq<PoolEvent>, a: nat, b: nat, stream: nat, more: seq<PoolEvent>)
    requires PoolInit(init) && Publishing(PoolRun(init, events), a, b)
    requires ReadBesideWrite(init, events + Prepare(a, stream) + more, PoolRun(init, events).block.actors[a].uid)
    ensures Strays(PoolRun(init, events).block.gpu, stream) != {}
  {
    var p, all := PoolRun(init, events), events + Prepare(a, stream) + more;
    var uid, c := p.block.actors[a].uid, |events| + 1;
    var s := PoolRun(init, all).block;
    var r: GpuRead, k: nat :|
      k <= |all| && CheckedInTime(init, all, r.actor, k) && Executing(s, r) && r.guarded && r.uid == uid;
    OnlyMissed(init, all, r, k, Tick(0));
    LockTaken(p, a);
    PoolConcat(init, events, [Lock(a)]);
    assert all[..c] == events + [Lock(a)] && all[c] == Prepare(a, stream)[1];
    assert Commits(init, all, c, a, uid, stream);
    MissedAreStrays(init, all, c, a, uid, stream);
  }

  /**
   The exact condition.  Let a publisher be about to publish its reservation.  Some
   timely reader with a completion event can then read that generation beside a write
   if and only if, when the ready event is recorded, a write is in flight on another
   stream.
   */
  lemma WriteBesideReadExactly(init: Pooled, events: seq<PoolEvent>, a: nat, b: nat, stream: nat)
    requires PoolInit(init) && Publishing(PoolRun(init, events), a, b)
    ensures
      var p := PoolRun(init, events);
      (exists more :: ReadBesideWrite(init, events + Prepare(a, stream) + more, p.block.actors[a].uid))
      <==> exists w :: w in p.block.gpu.writes && w.stream != stream
  {
    var p := PoolRun(init, events);
    if w :| w in p.block.gpu.writes && w.stream != stream {
      assert w in Strays(p.block.gpu, stream);
      var more := StraysOverlap(init, events, a, b, stream);
    }
    if more :| ReadBesideWrite(init, events + Prepare(a, stream) + more, p.block.actors[a].uid) {
      OverlapNeedsStrays(init, events, a, b, stream, more);
      var w :| w in Strays(p.block.gpu, stream);
    }
  }

  // ----- one stream -----

  /** Every write of the block and every recording of its ready event is on this stream. */
  predicate OnStream(e: PoolEvent, stream: nat) {
    e.Inner? && e.event.Act? ==>
      match e.event.choice
      case StartWrite(s) => s == stream
      case Commit(s) => s == stream
      case Quarantine(Some(s)) => s == stream
      case _ => true
  }

  predicate SameStream(gpu: Gpu, stream: nat) {
    gpu.missed == {} && forall w :: w in gpu.writes ==> w.stream == stream
  }

  lemma ReservedSameStream(s: Block, a: nat, choice: Choice, stream: nat)
    requires a < |s.actors| && s.actors[a].Reserved? && SameStream(s.gpu, stream)
    requires OnStream(Inner(Act(a, choice)), stream)
    ensures SameStream(ReservedStep(s, a, s.actors[a].uid, choice).gpu, stream)
  {
  }

  lemma SameStreamStep(p: Pooled, e: PoolEvent, stream: nat)
    requires SameStream(p.block.gpu, stream) && OnStream(e, stream)
    ensures SameStream(PoolApply(p, e).block.gpu, stream)
  {
    var s := p.block;
    if PoolApply(p, e).block != s && e.Inner? && e.event.Act? && e.event.actor < |s.actors| {
      var a, choice := e.event.actor, e.event.choice;
      WriteStepHolds(s, a, choice);
      if s.actors[a].Reserved? {
        assert Apply(s, e.event) == ReservedStep(s, a, s.actors[a].uid, choice);
        ReservedSameStream(s, a, choice, stream);
      }
    }
  }

  lemma {:induction false} SameStreamRun(p: Pooled, events: seq<PoolEvent>, stream: nat)
    requires SameStream(p.block.gpu, stream) && forall i :: 0 <= i < |events| ==> OnStream(events[i], stream)
    ensures SameStream(PoolRun(p, events).block.gpu, stream)
    decreases |events|
  {
    if events != [] {
      SameStreamStep(p, events[0], stream);
      SameStreamRun(PoolApply(p, events[0]), events[1..], stream);
    }
  }

  /**
   A publisher that uses one stream for a block never writes it beside a read: also
   when it cancels reservations without waiting for the writes it has enqueued.
   */
  lemma OneStreamExcludesWrites(init: Pooled, events: seq<PoolEvent>, r: GpuRead, k: nat, stream: nat)
    requires PoolInit(init) && !PoolRun(init, events).block.overflowed
    requires forall i :: 0 <= i < |events| ==> OnStream(events[i], stream)
    requires Executing(PoolRun(init, events).block, r) && r.guarded
    requires k <= |events| && CheckedInTime(init, events, r.actor, k)
    ensures PoolRun(init, events).block.gpu.writes == {}
  {
    SameStreamRun(init, events, stream);
    OnlyMissed(init, events, r, k, Tick(0));
  }

  // ----- two streams -----

  /** Reserve, write on stream 0, and cancel: the write goes on. */
  lemma CancelledWrite(n: nat) returns (w: GpuWrite, events: seq<PoolEvent>)
    requires 6 <= n
    ensures w.stream == 0
    ensures
      PoolRun(Pooled(Fresh(), None), events) ==
      Pooled(Block(2, 0, 0, 1, [Idle, Idle], false, [2], [], {}, 0, Gpu({w}, 1, {}, {})), None)
  {
    var init := Pooled(Fresh(), None);
    w := GpuWrite(0, 0, 2, 0);
    var reserve, rest := Call(0, Reserve, n), [Act(0, StartWrite(0))] + Call(0, Cancel, n);
    SoloReserve(Fresh(), 0, n);
    var s1 := Run(Fresh(), reserve);
    ProceedsAllowed(0, Some(0), n);
    LockedIsRun(init, 0, reserve);
    var s2 := s1.(gpu := Gpu({w}, 1, {}, {}));
    assert AddWrite(s1.gpu, 0, 2, 0) == s2.gpu;
    assert Apply(s1, rest[0]) == ReservedStep(s1, 0, 2, StartWrite(0)) == s2;
    SoloRelease(s2, 0, Cancel, n);
    assert rest[1..] == Call(0, Cancel, n);
    assert Run(s1, rest) == Run(s2, rest[1..]);
    var p1 := Pooled(s1, None);
    ProceedsAllowed(0, None, n);
    LiftIsRun(p1, rest);
    PoolConcat(init, Locked(0, reserve), Lift(rest));
    events := Locked(0, reserve) + Lift(rest);
  }

  /**
   With two streams the exclusion of writes fails: a reservation is cancelled while its
   write is in flight, the next generation is published on another stream, and a timely
   reader with a completion event executes its read beside that write.
   */
  lemma CancelledWriteOverlapsRead() returns (init: Pooled, events: seq<PoolEvent>, uid: nat)
    ensures PoolInit(init) && ReadBesideWrite(init, events, uid)
  {
    init := Pooled(Fresh(), None);
    var n: nat := 6;
    var w, first := CancelledWrite(n);
    var p, reserve := PoolRun(init, first), Call(0, Reserve, n);
    SoloReserve(p.block, 0, n);
    ProceedsAllowed(0, Some(0), n);
    LockedIsRun(p, 0, reserve);
    PoolConcat(init, first, Locked(0, reserve));
    events, uid := first + Locked(0, reserve), 3;
    var q := PoolRun(init, events);
    assert q.block.actors[0] == Reserved(3) && w in q.block.gpu.writes;
    WriteBesideReadExactly(init, events, 0, 1, 1);
    var more :| ReadBesideWrite(init, events + Prepare(0, 1) + more, 3);
    events := events + Prepare(0, 1) + more;
  }

  lemma TimelyCheck(init: Pooled, events: seq<PoolEvent>, a: nat) returns (k: nat)
    requires PoolInit(init) && TimelyHeld(PoolRun(init, events).block, a)
    ensures k <= |events| && CheckedInTime(init, events, a, k)
  {
    var inner := Project(init, events);
    assert events[..|events|] == events;
    PoolProjects(init, events, |events|);
    k := HeldOrigin(init.block, inner, a, |events|);
    PoolProjects(init, events, k);
  }
}
