/**
 The shared metadata of one GPU block (`BlockMetadata`) and the operations of
 `BufferRef` as a transition system.

 One event is one atomic operation on the shared words, one clock reading, or
 one move of the subscriber-side owner of a reference.  Any number of actors
 take steps in any order; an actor is one chain of calls that holds at most one
 unit of the reference count.  Memory is sequentially consistent.
 */
module BlockProtocol {

  import opened Machine
  import opened BlockWords

  /** Where the owner of an acquired reference is. */
  datatype Stage =
    | Publication                // MappedPublication, not bound to a stream
    | Handle(completion: bool, waits: set<GpuWrite>)
      // ReadHandle, with or without a completion event; its stream waits for `waits`
    | Queued                     // event recorded, waiting in the deferred queue
    | Retained                   // record, context push or synchronise failed
    | Synchronised               // event synchronised, about to be dropped

  /** The atomic operation an actor performs next. */
  datatype Pc =
    | Idle
    | ReserveCheck(now: nat)                       // load refcount
    | ReserveStamp(now: nat)                       // load publish_timestamp_us
    | ReserveClaim                                 // CAS refcount 0 -> 1
    | ReserveReadUid                               // load uid
    | ReserveOverflow                              // store refcount 0
    | ReserveStoreUid(next: nat)                   // store uid
    | ReserveClearStamp(uid: nat)                  // store publish_timestamp_us 0
    | Reserved(uid: nat)                           // reservation handed out
    | ReleaseCheck(uid: nat, published: bool)      // load uid
    | ReleaseClock(uid: nat)                       // read the clock
    | ReleaseStamp(uid: nat, now: nat)             // store publish_timestamp_us
    | ReleaseDrop(uid: nat, published: bool)       // fetch_sub
    | Quarantined(uid: nat)                        // reservation kept for good
    | Underflow                                    // store refcount 0 after an underflow
    | AcquireCheck(uid: nat)                       // load uid
    | AcquireLoad(uid: nat)                        // load refcount
    | AcquireCas(uid: nat, observed: nat)          // CAS observed -> observed + 1
    | AcquireRecheck(uid: nat)                     // load uid again
    | AcquireRollback(uid: nat)                    // fetch_sub
    | Held(uid: nat, raced: bool, timely: bool, stage: Stage)

  /** What an actor does where the program leaves it a choice. */
  datatype Choice =
    | Proceed
    | Reserve
    | Acquire(uid: nat)
    | StartWrite(stream: nat)
    | Commit(stream: nat)
    | Cancel
    | Quarantine(recorded: Option<nat>)
    | SpuriousFailure
    | Bind(completion: bool)
    | StartRead
    | Drop
    | Fail

  /** A write enqueued by the owner of a reservation, numbered in order. */
  datatype GpuWrite = GpuWrite(serial: nat, actor: nat, uid: nat, stream: nat)

  /** A read enqueued through a handle, numbered in order; it starts once the writes in `waits` are done. */
  datatype GpuRead = GpuRead(serial: nat, actor: nat, uid: nat, guarded: bool, waits: set<GpuWrite>)

  /**
   The writes in flight and how many there have been; the writes that the block's
   ready event stands for; and the writes in flight that it did not capture when it
   was last recorded.
   */
  datatype Gpu = Gpu(writes: set<GpuWrite>, count: nat, ready: set<GpuWrite>, missed: set<GpuWrite>)

  datatype Publish = Publish(uid: nat, at: nat)

  /**
   The shared words, the clock and the actors; below them history that no step
   reads: whether the overflow branch ran, the generations handed out, the
   commit stamps, the GPU reads in flight and how many there have been, and the
   state of GPU writing.
   */
  datatype Block = Block(
    uid: nat, refcount: nat, stamp: nat, clock: nat, actors: seq<Pc>,
    overflowed: bool, generations: seq<nat>, log: seq<Publish>, gpuReads: set<GpuRead>,
    readCount: nat, gpu: Gpu)

  datatype Event =
    | Tick(us: nat)
    | ReadDone(read: GpuRead)
    | WriteDone(write: GpuWrite)
    | Act(actor: nat, choice: Choice)

  predicate Reserving(pc: Pc) {
    pc.ReserveCheck? || pc.ReserveStamp? || pc.ReserveClaim? || Claiming(pc) || pc.ReserveClearStamp?
  }

  predicate Releasing(pc: Pc) {
    pc.ReleaseCheck? || pc.ReleaseClock? || pc.ReleaseStamp? || pc.ReleaseDrop? || pc.Underflow?
  }

  predicate Acquiring(pc: Pc) {
    pc.AcquireCheck? || pc.AcquireLoad? || pc.AcquireCas? || Tentative(pc)
  }

  /** A reservation has won its CAS and has not stored the new uid yet. */
  predicate Claiming(pc: Pc) {
    pc.ReserveReadUid? || pc.ReserveOverflow? || pc.ReserveStoreUid?
  }

  predicate HoldsReservation(pc: Pc) {
    || pc.ReserveClearStamp? || pc.Reserved? || pc.Quarantined?
    || pc.ReleaseCheck? || pc.ReleaseClock? || pc.ReleaseStamp? || pc.ReleaseDrop?
  }

  predicate Publisher(pc: Pc) {
    Claiming(pc) || HoldsReservation(pc)
  }

  predicate Tentative(pc: Pc) {
    pc.AcquireRecheck? || pc.AcquireRollback?
  }

  /** The units of the reference count an actor answers for. */
  function Unit(pc: Pc): nat {
    if Publisher(pc) || Tentative(pc) || pc.Held? then 1 else 0
  }

  function Units(actors: seq<Pc>): nat {
    if actors == [] then 0 else Unit(actors[0]) + Units(actors[1..])
  }

  predicate SomeClaiming(s: Block) {
    exists i :: 0 <= i < |s.actors| && Claiming(s.actors[i])
  }

  /** `uid` was committed less than a grace period ago. */
  predicate Timely(s: Block, uid: nat) {
    exists k :: 0 <= k < |s.log| && s.log[k].uid == uid && s.clock < s.log[k].at + GRACE_PERIOD_US
  }

  /** Every commit of this block is at least a grace period old. */
  predicate GraceElapsed(s: Block) {
    forall k :: 0 <= k < |s.log| ==> s.log[k].at + GRACE_PERIOD_US <= s.clock
  }

  /** Between `s` and `s'` only actor `a` has moved. */
  predicate OnlyMoves(s: Block, s': Block, a: nat) {
    && |s'.actors| == |s.actors|
    && forall i :: 0 <= i < |s.actors| && i != a ==> s'.actors[i] == s.actors[i]
  }

  function Goto(s: Block, a: nat, pc: Pc): Block
    requires a < |s.actors|
  {
    s.(actors := s.actors[a := pc])
  }

  /** `fetch_sub(1)` followed by the underflow test of release paths. */
  function DropUnit(s: Block, a: nat): Block
    requires a < |s.actors|
  {
    Goto(s.(refcount := FetchSub(s.refcount)), a, if s.refcount == 0 then Underflow else Idle)
  }

  /** One step of `reserve_for_publish`. */
  function ReserveStep(s: Block, a: nat): (s': Block)
    requires a < |s.actors|
    ensures |s'.actors| == |s.actors|
  {
    match s.actors[a]
    case ReserveCheck(now) => Goto(s, a, if s.refcount != 0 then Idle else ReserveStamp(now))
    case ReserveStamp(now) => Goto(s, a, if GracePassed(s.stamp, now) then ReserveClaim else Idle)
    case ReserveClaim =>
      if s.refcount == 0 then Goto(s.(refcount := 1), a, ReserveReadUid) else Goto(s, a, Idle)
    case ReserveReadUid =>
      Goto(s, a, if s.uid == U64_MAX then ReserveOverflow else ReserveStoreUid(s.uid + 1))
    case ReserveOverflow => Goto(s.(refcount := 0, overflowed := true), a, Idle)
    case ReserveStoreUid(next) =>
      Goto(s.(uid := next, generations := s.generations + [next]), a, ReserveClearStamp(next))
    case ReserveClearStamp(uid) => Goto(s.(stamp := 0), a, Reserved(uid))
    case _ => s
  }

  /** One step of `release_publisher_reservation`. */
  function ReleaseStep(s: Block, a: nat): (s': Block)
    requires a < |s.actors|
    ensures |s'.actors| == |s.actors|
  {
    match s.actors[a]
    case ReleaseCheck(uid, published) =>
      Goto(s, a, if s.uid != uid then Quarantined(uid)
                 else if published then ReleaseClock(uid) else ReleaseDrop(uid, false))
    case ReleaseClock(uid) => Goto(s, a, ReleaseStamp(uid, s.clock))
    case ReleaseStamp(uid, now) =>
      Goto(s.(stamp := now, log := s.log + [Publish(uid, now)]), a, ReleaseDrop(uid, true))
    case ReleaseDrop(_, _) => DropUnit(s, a)
    case Underflow => Goto(s.(refcount := 0), a, Idle)
    case _ => s
  }

  /** One step of `acquire`. */
  function AcquireStep(s: Block, a: nat, choice: Choice): (s': Block)
    requires a < |s.actors|
    ensures |s'.actors| == |s.actors|
  {
    match s.actors[a]
    case AcquireCheck(uid) => Goto(s, a, if s.uid != uid then Idle else AcquireLoad(uid))
    case AcquireLoad(uid) => Goto(s, a, AcquireCas(uid, s.refcount))
    case AcquireCas(uid, observed) =>
      if observed == U32_MAX then Goto(s, a, Idle)
      else if choice != SpuriousFailure && s.refcount == observed then
        Goto(s.(refcount := observed + 1), a, AcquireRecheck(uid))
      else Goto(s, a, AcquireCas(uid, s.refcount))
    case AcquireRecheck(uid) =>
      Goto(s, a, if s.uid != uid then AcquireRollback(uid)
                 else Held(uid, SomeClaiming(s), Timely(s, uid), Publication))
    case AcquireRollback(uid) => Goto(s.(refcount := FetchSub(s.refcount)), a, Idle)
    case _ => s
  }

  /** `cuEventRecord` of the ready event: it stands for what is in flight on that stream. */
  function RecordReady(gpu: Gpu, stream: nat): Gpu {
    var captured := set w | w in gpu.writes && w.stream == stream;
    gpu.(ready := captured, missed := gpu.writes - captured)
  }

  function AddWrite(gpu: Gpu, actor: nat, uid: nat, stream: nat): Gpu {
    gpu.(writes := gpu.writes + {GpuWrite(gpu.count, actor, uid, stream)}, count := gpu.count + 1)
  }

  /**
   The owner of a reservation enqueues writes, and ends with `prepare_publish`, which
   records the ready event before it commits, with a cancellation, or with a
   quarantine before or after the ready event was recorded.
   */
  function ReservedStep(s: Block, a: nat, uid: nat, choice: Choice): (s': Block)
    requires a < |s.actors|
    ensures |s'.actors| == |s.actors|
  {
    match choice
    case StartWrite(stream) => s.(gpu := AddWrite(s.gpu, a, uid, stream))
    case Commit(stream) => Goto(s.(gpu := RecordReady(s.gpu, stream)), a, ReleaseCheck(uid, true))
    case Cancel => Goto(s, a, ReleaseCheck(uid, false))
    case Quarantine(None) => Goto(s, a, Quarantined(uid))
    case Quarantine(Some(stream)) => Goto(s.(gpu := RecordReady(s.gpu, stream)), a, Quarantined(uid))
    case _ => s
  }

  function AddRead(s: Block, a: nat, uid: nat, guarded: bool, waits: set<GpuWrite>): Block {
    s.(gpuReads := s.gpuReads + {GpuRead(s.readCount, a, uid, guarded, waits)}, readCount := s.readCount + 1)
  }

  /** A GPU read through a handle, and its destruction. */
  function HandleStep(s: Block, a: nat, choice: Choice, completion: bool, waits: set<GpuWrite>): (s': Block)
    requires a < |s.actors| && s.actors[a].Held?
    ensures |s'.actors| == |s.actors|
    ensures s'.actors[a].Held? ==> s'.actors[a] == s.actors[a].(stage := s'.actors[a].stage)
  {
    var pc := s.actors[a];
    if choice.StartRead? then AddRead(s, a, pc.uid, completion, waits)
    else if choice.Drop? && !completion then DropUnit(s, a)
    else if choice.Drop? then Goto(s, a, pc.(stage := Queued))
    else if choice.Fail? && completion then Goto(s, a, pc.(stage := Retained))
    else s
  }

  /**
   One step of the owner of a reference: binding to a stream, enqueueing a GPU
   read, destroying the handle, the deferred worker, and the final drop.  A
   synchronise succeeds only once the reads before the event are done.  Binding
   makes the stream wait for the ready event as last recorded.
   */
  function OwnerStep(s: Block, a: nat, choice: Choice): (s': Block)
    requires a < |s.actors| && s.actors[a].Held?
    ensures |s'.actors| == |s.actors|
    ensures s'.actors[a].Held? ==> s'.actors[a] == s.actors[a].(stage := s'.actors[a].stage)
  {
    var pc := s.actors[a];
    match pc.stage
    case Publication =>
      if choice.Bind? then Goto(s, a, pc.(stage := Handle(choice.completion, s.gpu.ready)))
      else if choice.Drop? then DropUnit(s, a)
      else s
    case Handle(completion, waits) => HandleStep(s, a, choice, completion, waits)
    case Queued =>
      if choice.Fail? then Goto(s, a, pc.(stage := Retained))
      else if exists r :: r in s.gpuReads && r.guarded && r.actor == a then s
      else Goto(s, a, pc.(stage := Synchronised))
    case Retained => s
    case Synchronised => DropUnit(s, a)
  }

  function Apply(s: Block, e: Event): (s': Block)
    ensures |s'.actors| == |s.actors|
  {
    match e
    case Tick(us) => s.(clock := s.clock + us)
    case ReadDone(read) => if read.waits !! s.gpu.writes then s.(gpuReads := s.gpuReads - {read}) else s
    case WriteDone(write) => s.(gpu := s.gpu.(writes := s.gpu.writes - {write}))
    case Act(a, choice) =>
      if a >= |s.actors| then s else
      match s.actors[a]
      case Idle =>
        if choice.Reserve? then Goto(s, a, ReserveCheck(s.clock))
        else if choice.Acquire? then Goto(s, a, AcquireCheck(choice.uid))
        else s
      case Reserved(uid) =>
        ReservedStep(s, a, uid, choice)
      case Held(_, _, _, _) => OwnerStep(s, a, choice)
      case Quarantined(_) => s
      case pc =>
        if Acquiring(pc) then AcquireStep(s, a, choice)
        else if Releasing(pc) then ReleaseStep(s, a)
        else ReserveStep(s, a)
  }

  function Run(s: Block, events: seq<Event>): (s': Block)
    ensures |s'.actors| == |s.actors|
    decreases |events|
  {
    if events == [] then s else Run(Apply(s, events[0]), events[1..])
  }

  /** A metadata object as `BufferMetadata::create` leaves it, before any call. */
  predicate Init(s: Block) {
    && 1 <= s.uid < U64_MAX && s.refcount == 0 && s.stamp == 0 && 0 < s.clock
    && (forall i :: 0 <= i < |s.actors| ==> s.actors[i] == Idle)
    && !s.overflowed && s.generations == [] && s.log == [] && s.gpuReads == {} && s.readCount == 0
    && s.gpu == Gpu({}, 0, {}, {})
  }
}
