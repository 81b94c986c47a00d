/**
 `GpuBufferPool`: initialisation that is all or nothing, destruction, and the
 round-robin reservation of blocks.
 */
module BufferPool {
  import opened Machine
  import opened BlockWords
  import opened Hosts
  import RoundRobin

  /** `VmmFdBlockState`: what has been acquired for one block's memory so far. */
  datatype Memory = Memory(range: Option<nat>, allocation: Option<nat>, fd: Option<nat>, server: Option<nat>)

  const NO_MEMORY: Memory := Memory(None, None, None, None)

  datatype PoolBlock = PoolBlock(blockId: nat, metadata: Option<nat>, event: Option<nat>, memory: Memory)

  const EMPTY_BLOCK: PoolBlock := PoolBlock(0, None, None, NO_MEMORY)

  datatype Reservation = Reservation(metadata: nat, blockId: nat, uid: nat, index: nat)

  function MemoryOf(m: Memory): set<Resource> {
    Handle(Range, m.range) + Handle(Allocation, m.allocation) + Handle(FileDescriptor, m.fd) + Handle(Server, m.server)
  }

  function NameOf(b: PoolBlock): set<Resource> {
    if b.metadata.Some? then {Resource(Name, b.blockId)} else {}
  }

  function NamesOf(blocks: seq<PoolBlock>): set<Resource> {
    set i, r | 0 <= i < |blocks| && r in NameOf(blocks[i]) :: r
  }

  function MemoriesOf(blocks: seq<PoolBlock>): set<Resource> {
    set i, r | 0 <= i < |blocks| && r in MemoryOf(blocks[i].memory) :: r
  }

  function EventsOf(blocks: seq<PoolBlock>): set<Resource> {
    set i, r | 0 <= i < |blocks| && r in Handle(Event, blocks[i].event) :: r
  }

  /** Everything the blocks of a pool own. */
  function Owned(blocks: seq<PoolBlock>): set<Resource> {
    NamesOf(blocks) + MemoriesOf(blocks) + EventsOf(blocks)
  }

  predicate HasMemory(b: PoolBlock) {
    b.memory.range.Some? && b.memory.allocation.Some? && b.memory.fd.Some? && b.memory.server.Some?
  }

  predicate Complete(b: PoolBlock) {
    b.metadata.Some? && b.event.Some? && HasMemory(b)
  }

  predicate Distinct(blocks: seq<PoolBlock>) {
    forall i, j :: 0 <= i < j < |blocks| ==>
      blocks[i].blockId != blocks[j].blockId && blocks[i].metadata != blocks[j].metadata
  }

  /** The name of a block id issued while the counter went from `from` to `to`. */
  predicate IssuedName(r: Resource, from: nat, to: nat) {
    r.kind == Name && from <= r.id < to
  }

  /**
   Between `before` and `after` nothing appeared that is not in `kept`, nothing
   went, and `kept` is new; except that stale names which an earlier process with
   this pid had left under the block ids issued in between may have gone or been
   taken over.
   */
  predicate OnlyAdds(before: set<Resource>, after: set<Resource>, kept: set<Resource>, from: nat, to: nat) {
    && after <= before + kept
    && forall r :: r in before && (r !in after || r in kept) ==> IssuedName(r, from, to)
  }

  class GpuBufferPool {
    const host: Host
    const blockCount: nat
    var blocks: seq<PoolBlock>
    var nextBlock: nat
    var initialised: bool
    var context: Option<nat>

    ghost predicate Valid()
      reads this, host
    {
      && host.Valid()
      && Owned(blocks) + Handle(Context, context) <= host.live
      && (if initialised then
            && |blocks| == blockCount > 0 && nextBlock < |blocks| && Distinct(blocks)
            && (forall i :: 0 <= i < |blocks| ==> Complete(blocks[i]) && blocks[i].blockId < host.nextBlockId)
            && (forall i :: 0 <= i < |blocks| ==> blocks[i].metadata.value in host.objects)
          else blocks == [] && context.None?)
    }

    constructor (host: Host, blockCount: nat)
      requires host.Valid()
      ensures Valid() && !initialised && this.host == host && this.blockCount == blockCount
    {
      this.host, this.blockCount := host, blockCount;
      blocks, nextBlock, initialised, context := [], 0, false, None;
    }

    /** The pool does not depend on what the metadata words hold. */
    twostate lemma WordsChanged()
      requires old(Valid()) && unchanged(this)
      requires host.calls == old(host.calls) && host.live == old(host.live) && host.nextHandle == old(host.nextHandle)
      requires host.nextBlockId == old(host.nextBlockId) && host.objects.Keys == old(host.objects.Keys)
      ensures Valid()
    {
    }

    // ----- memory of one block -----

    /** The first half of one iteration: a mapped range, or what was acquired of it. */
    method AllocateRange() returns (m: Memory, ok: bool)
      requires host.Valid()
      modifies host`calls, host`live, host`nextHandle
      ensures host.Valid() && host.nextHandle >= old(host.nextHandle)
      ensures host.live == old(host.live) + MemoryOf(m) && old(host.live) !! MemoryOf(m)
      ensures m.fd.None? && m.server.None? && (ok ==> m.range.Some? && m.allocation.Some?)
      ensures host.calls >= old(host.calls) && (ok <==> host.NoneFailed(old(host.calls), host.calls))
    {
      m, ok := NO_MEMORY, false;
      var range := host.Acquire(Range);
      m := m.(range := range);
      if range.None? {
        return;
      }
      var allocation := host.Acquire(Allocation);
      m := m.(allocation := allocation);
      if allocation.None? {
        return;
      }
      var mapped := host.Attempt();
      if !mapped {
        return;
      }
      ok := host.Attempt();
    }

    /** The acquisitions of one iteration; on failure `m` holds what was acquired. */
    method AllocateMemory() returns (m: Memory, ok: bool)
      requires host.Valid()
      modifies host`calls, host`live, host`nextHandle
      ensures host.Valid() && host.nextHandle >= old(host.nextHandle)
      ensures host.live == old(host.live) + MemoryOf(m) && old(host.live) !! MemoryOf(m)
      ensures ok ==> m.range.Some? && m.allocation.Some? && m.fd.Some? && m.server.Some?
      ensures host.calls >= old(host.calls) && (ok <==> host.NoneFailed(old(host.calls), host.calls))
    {
      m, ok := AllocateRange();
      if !ok {
        return;
      }
      var fd := host.Acquire(FileDescriptor);
      m := m.(fd := fd);
      if fd.None? {
        ok := false;
        return;
      }
      var server := host.Acquire(Server);
      m := m.(server := server);
      ok := server.Some?;
    }

    /** `~VmmFdBlockState`. */
    method DestroyState(m: Memory)
      modifies host`live
      ensures host.live == old(host.live) - MemoryOf(m)
    {
      host.Release(Server, m.server);
      host.Release(FileDescriptor, m.fd);
      host.Release(Range, m.range);
      host.Release(Allocation, m.allocation);
    }

    /** `destroy_vmm_fd_memory`. */
    method DestroyMemory()
      modifies this`blocks, host`live
      ensures |blocks| == |old(blocks)|
      ensures forall i :: 0 <= i < |blocks| ==> blocks[i] == old(blocks)[i].(memory := NO_MEMORY)
      ensures host.live == old(host.live) - MemoriesOf(old(blocks))
    {
      var i := 0;
      while i < |blocks|
        invariant i <= |blocks| == |old(blocks)|
        invariant forall j :: 0 <= j < i ==> blocks[j] == old(blocks)[j].(memory := NO_MEMORY)
        invariant forall j :: i <= j < |blocks| ==> blocks[j] == old(blocks)[j]
        invariant host.live == old(host.live) - MemoriesOf(old(blocks)[..i])
      {
        DestroyState(blocks[i].memory);
        blocks := blocks[i := blocks[i].(memory := NO_MEMORY)];
        Snoc(old(blocks)[..i], old(blocks)[i]);
        assert old(blocks)[..i + 1] == old(blocks)[..i] + [old(blocks)[i]];
        i := i + 1;
      }
      assert old(blocks)[..i] == old(blocks);
    }

    /** One iteration of `allocate_vmm_fd_memory`: memory for block `i`, or nothing. */
    method AllocateBlockMemory(i: nat) returns (ok: bool)
      requires host.Valid() && i < |blocks|
      modifies this`blocks, host`calls, host`live, host`nextHandle
      ensures host.Valid() && host.nextHandle >= old(host.nextHandle)
      ensures host.calls >= old(host.calls) && (ok <==> host.NoneFailed(old(host.calls), host.calls))
      ensures !ok ==> blocks == old(blocks) && host.live == old(host.live)
      ensures ok ==>
        && |blocks| == |old(blocks)| && HasMemory(blocks[i])
        && blocks == old(blocks)[i := old(blocks)[i].(memory := blocks[i].memory)]
        && host.live == old(host.live) + MemoryOf(blocks[i].memory) && old(host.live) !! MemoryOf(blocks[i].memory)
    {
      var m;
      m, ok := AllocateMemory();
      if ok {
        blocks := blocks[i := blocks[i].(memory := m)];
      } else {
        DestroyState(m);
      }
    }

    /** `allocate_vmm_fd_memory`: memory for every block, or for none. */
    method AllocateAllMemory() returns (ok: bool)
      requires host.Valid() && forall i :: 0 <= i < |blocks| ==> blocks[i].memory == NO_MEMORY
      modifies this`blocks, host`calls, host`live, host`nextHandle
      ensures host.Valid() && host.nextHandle >= old(host.nextHandle) && |blocks| == |old(blocks)|
      ensures forall i :: 0 <= i < |blocks| ==> blocks[i] == old(blocks)[i].(memory := blocks[i].memory)
      ensures host.live == old(host.live) + MemoriesOf(blocks) && old(host.live) !! MemoriesOf(blocks)
      ensures forall i :: 0 <= i < |blocks| ==> if ok then HasMemory(blocks[i]) else blocks[i].memory == NO_MEMORY
      ensures host.calls >= old(host.calls) && (ok <==> host.NoneFailed(old(host.calls), host.calls))
    {
      var known := host.Attempt();
      if !known {
        NoMemories(blocks);
        return false;
      }
      NoMemories(blocks);
      var i := 0;
      while i < |blocks|
        invariant i <= |blocks| == |old(blocks)| && host.Valid() && host.nextHandle >= old(host.nextHandle)
        invariant forall j :: 0 <= j < |blocks| ==> blocks[j] == old(blocks)[j].(memory := blocks[j].memory)
        invariant host.calls >= old(host.calls) && host.NoneFailed(old(host.calls), host.calls)
        invariant forall j :: 0 <= j < i ==> HasMemory(blocks[j])
        invariant forall j :: i <= j < |blocks| ==> blocks[j].memory == NO_MEMORY
        invariant host.live == old(host.live) + MemoriesOf(blocks) && old(host.live) !! MemoriesOf(blocks)
      {
        ghost var before := blocks;
        ok := AllocateBlockMemory(i);
        if !ok {
          DestroyMemory();
          NoMemories(blocks);
          return;
        }
        BlockChanged(before, i, blocks[i]);
        i := i + 1;
      }
      return true;
    }

    /** The event loop of `allocate_blocks`; on failure the events created so far stay with their blocks. */
    method CreateEvents() returns (ok: bool)
      requires host.Valid() && forall i :: 0 <= i < |blocks| ==> blocks[i].event.None?
      modifies this`blocks, host`calls, host`live, host`nextHandle
      ensures host.Valid() && host.nextHandle >= old(host.nextHandle) && |blocks| == |old(blocks)|
      ensures forall i :: 0 <= i < |blocks| ==> blocks[i] == old(blocks)[i].(event := blocks[i].event)
      ensures host.live == old(host.live) + EventsOf(blocks) && old(host.live) !! EventsOf(blocks)
      ensures ok ==> forall i :: 0 <= i < |blocks| ==> blocks[i].event.Some?
      ensures host.calls >= old(host.calls) && (ok <==> host.NoneFailed(old(host.calls), host.calls))
    {
      NoEvents(blocks);
      var i := 0;
      while i < |blocks|
        invariant i <= |blocks| == |old(blocks)| && host.Valid() && host.nextHandle >= old(host.nextHandle)
        invariant forall j :: 0 <= j < |blocks| ==> blocks[j] == old(blocks)[j].(event := blocks[j].event)
        invariant host.calls >= old(host.calls) && host.NoneFailed(old(host.calls), host.calls)
        invariant forall j :: 0 <= j < i ==> blocks[j].event.Some?
        invariant forall j :: i <= j < |blocks| ==> blocks[j].event.None?
        invariant host.live == old(host.live) + EventsOf(blocks) && old(host.live) !! EventsOf(blocks)
      {
        var event := CreateEvent();
        if event.None? {
          return false;
        }
        BlockChanged(blocks, i, blocks[i].(event := event));
        blocks := blocks[i := blocks[i].(event := event)];
        i := i + 1;
      }
      return true;
    }

    /** `InterprocessEvent::create`: the event goes again if its IPC handle cannot be had. */
    method CreateEvent() returns (event: Option<nat>)
      requires host.Valid()
      modifies host`calls, host`live, host`nextHandle
      ensures host.Valid() && host.nextHandle >= old(host.nextHandle)
      ensures host.live == old(host.live) + Handle(Event, event) && old(host.live) !! Handle(Event, event)
      ensures host.calls >= old(host.calls) && (event.Some? <==> host.NoneFailed(old(host.calls), host.calls))
    {
      event := None;
      var current := host.Attempt();
      if !current {
        return;
      }
      var created := host.Acquire(Event);
      if created.None? {
        return;
      }
      var exported := host.Attempt();
      if !exported {
        host.Release(Event, created);
        return;
      }
      event := created;
    }

    /** `allocate_blocks`. */
    method AllocateBlocks() returns (ok: bool)
      requires host.Valid()
      requires forall i :: 0 <= i < |blocks| ==> blocks[i].memory == NO_MEMORY && blocks[i].event.None?
      modifies this`blocks, host`calls, host`live, host`nextHandle
      ensures host.Valid() && host.nextHandle >= old(host.nextHandle) && |blocks| == |old(blocks)|
      ensures forall i :: 0 <= i < |blocks| ==>
        blocks[i].blockId == old(blocks)[i].blockId && blocks[i].metadata == old(blocks)[i].metadata
      ensures host.live == old(host.live) + MemoriesOf(blocks) + EventsOf(blocks)
      ensures old(host.live) !! MemoriesOf(blocks) + EventsOf(blocks)
      ensures ok ==> forall i :: 0 <= i < |blocks| ==> HasMemory(blocks[i]) && blocks[i].event.Some?
      ensures host.calls >= old(host.calls) && (ok <==> host.NoneFailed(old(host.calls), host.calls))
    {
      var current := host.Attempt();
      if !current {
        NoMemories(blocks);
        NoEvents(blocks);
        return false;
      }
      ok := AllocateAllMemory();
      if !ok {
        NoMemories(blocks);
        NoEvents(blocks);
        return;
      }
      ghost var held := blocks;
      ok := CreateEvents();
      SameMemories(held, blocks);
    }

    /** `ready_event.reset()` for every block; an event survives when no context can be made current. */
    method DestroyEvents()
      modifies this`blocks, host`live
      ensures |blocks| == |old(blocks)|
      ensures forall i :: 0 <= i < |blocks| ==> blocks[i] == old(blocks)[i].(event := None)
      ensures host.live == old(host.live) - (if host.cleanupWorks then EventsOf(old(blocks)) else {})
    {
      var i := 0;
      while i < |blocks|
        invariant i <= |blocks| == |old(blocks)|
        invariant forall j :: 0 <= j < i ==> blocks[j] == old(blocks)[j].(event := None)
        invariant forall j :: i <= j < |blocks| ==> blocks[j] == old(blocks)[j]
        invariant host.live == old(host.live) - (if host.cleanupWorks then EventsOf(old(blocks)[..i]) else {})
      {
        if host.cleanupWorks {
          host.Release(Event, blocks[i].event);
        }
        blocks := blocks[i := blocks[i].(event := None)];
        Snoc(old(blocks)[..i], old(blocks)[i]);
        assert old(blocks)[..i + 1] == old(blocks)[..i] + [old(blocks)[i]];
        i := i + 1;
      }
      assert old(blocks)[..i] == old(blocks);
    }

    /** The last loop of `destroy_blocks`. */
    method UnlinkNames()
      modifies this`blocks, host`live
      ensures host.live == old(host.live) - NamesOf(old(blocks))
    {
      var i := 0;
      while i < |blocks|
        invariant i <= |blocks| == |old(blocks)|
        invariant forall j :: i <= j < |blocks| ==> blocks[j] == old(blocks)[j]
        invariant host.live == old(host.live) - NamesOf(old(blocks)[..i])
      {
        if blocks[i].metadata.Some? {
          host.Release(Name, Some(blocks[i].blockId));
        }
        blocks := blocks[i := blocks[i].(metadata := None, blockId := 0)];
        Snoc(old(blocks)[..i], old(blocks)[i]);
        assert old(blocks)[..i + 1] == old(blocks)[..i] + [old(blocks)[i]];
        i := i + 1;
      }
      assert old(blocks)[..i] == old(blocks);
    }

    /** `destroy_blocks`: everything the pool owns goes. */
    method DestroyBlocks()
      modifies this`blocks, this`nextBlock, this`initialised, this`context, host`live
      ensures blocks == [] && nextBlock == 0 && !initialised && context.None?
      ensures host.live == old(host.live) - NamesOf(old(blocks)) - MemoriesOf(old(blocks))
                           - Handle(Context, old(context))
                           - (if host.cleanupWorks then EventsOf(old(blocks)) else {})
    {
      DestroyEvents();
      SameMemories(old(blocks), blocks);
      DestroyMemory();
      SameNames(old(blocks), blocks);
      UnlinkNames();
      blocks, nextBlock, initialised := [], 0, false;
      host.Release(Context, context);
      context := None;
    }

    // ----- initialise -----

    /**
     The metadata of one block: a fresh id and a new object.  A stale name left
     by an earlier process with this pid is unlinked and replaced.
     */
    method CreateBlockMetadata(random: nat) returns (b: PoolBlock)
      requires host.Valid()
      modifies host`calls, host`live, host`nextHandle, host`nextBlockId, host`objects
      ensures host.Valid() && host.nextHandle >= old(host.nextHandle)
      ensures host.nextBlockId == if old(host.nextBlockId) < U32_MAX then old(host.nextBlockId) + 1 else U32_MAX
      ensures host.calls >= old(host.calls)
      ensures b.metadata.Some? <==> old(host.nextBlockId) < U32_MAX && host.NoneFailed(old(host.calls), host.calls)
      ensures b.event.None? && b.memory == NO_MEMORY
      ensures b.metadata.None? ==> host.objects == old(host.objects)
      ensures b.metadata.Some? ==>
        && b.blockId == old(host.nextBlockId) < host.nextBlockId
        && b.metadata.value !in old(host.objects) && b.metadata.value >= old(host.nextHandle)
        && host.objects == old(host.objects)[b.metadata.value := Words(InitialUid(random), 0, 0)]
      ensures NameOf(b) <= host.live
      ensures OnlyAdds(old(host.live), host.live, NameOf(b), old(host.nextBlockId), host.nextBlockId)
    {
      b := EMPTY_BLOCK;
      var id := host.AllocateBlockId();
      if id.None? {
        return;
      }
      var object_, exists_ := host.CreateMetadata(id.value, InitialUid(random));
      if exists_ {
        var unlinked := host.Attempt();
        if unlinked {
          host.Release(Name, id);
          object_, exists_ := host.CreateMetadata(id.value, InitialUid(random));
        }
      }
      if object_.Some? {
        b := PoolBlock(id.value, object_, None, NO_MEMORY);
      }
    }

    /** The block loop of `initialise`; on failure the blocks hold what was created so far. */
    method CreateAllMetadata(random: nat -> nat) returns (ok: bool)
      requires host.Valid() && forall i :: 0 <= i < |blocks| ==> blocks[i] == EMPTY_BLOCK
      modifies this`blocks, host`calls, host`live, host`nextHandle, host`nextBlockId, host`objects
      ensures host.Valid() && host.nextHandle >= old(host.nextHandle) && host.nextBlockId >= old(host.nextBlockId)
      ensures |blocks| == |old(blocks)| && Fresh(blocks, old(host.nextBlockId), host.nextBlockId)
      ensures NamesOf(blocks) <= host.live
      ensures OnlyAdds(old(host.live), host.live, NamesOf(blocks), old(host.nextBlockId), host.nextBlockId)
      ensures Extends(old(host.objects), host.objects)
      ensures host.calls >= old(host.calls)
      ensures ok <==> old(host.nextBlockId) + |blocks| <= U32_MAX && host.NoneFailed(old(host.calls), host.calls)
      ensures ok ==> Created(blocks, |blocks|, old(host.objects), host.objects) && Distinct(blocks)
    {
      ghost var live, objects, from := host.live, host.objects, host.nextBlockId;
      var i := 0;
      while i < |blocks|
        invariant i <= |blocks| == |old(blocks)| && host.Valid()
        invariant host.nextHandle >= old(host.nextHandle) && host.nextBlockId == from + i
        invariant host.calls >= old(host.calls) && host.NoneFailed(old(host.calls), host.calls)
        invariant Created(blocks, i, objects, host.objects) && Names(live, objects, from)
      {
        var done := CreateNextMetadata(i, random(i), live, objects, from);
        if !done {
          return false;
        }
        i := i + 1;
      }
      assert blocks[..i] == blocks;
      return true;
    }

    /** The names and objects created since the ledger was as given. */
    ghost predicate Names(live: set<Resource>, objects: map<nat, Words>, from: nat)
      reads this, host
    {
      && from <= host.nextBlockId && Fresh(blocks, from, host.nextBlockId) && Extends(objects, host.objects)
      && NamesOf(blocks) <= host.live && OnlyAdds(live, host.live, NamesOf(blocks), from, host.nextBlockId)
    }

    /** One iteration: the metadata of block `i`. */
    method CreateNextMetadata(i: nat, random: nat, ghost live: set<Resource>, ghost objects: map<nat, Words>,
                              ghost from: nat) returns (done: bool)
      requires host.Valid() && i < |blocks| && host.nextBlockId == from + i
      requires Created(blocks, i, objects, host.objects) && Names(live, objects, from)
      modifies this`blocks, host`calls, host`live, host`nextHandle, host`nextBlockId, host`objects
      ensures host.Valid() && host.nextHandle >= old(host.nextHandle) && |blocks| == |old(blocks)|
      ensures host.calls >= old(host.calls)
      ensures done <==> old(host.nextBlockId) < U32_MAX && host.NoneFailed(old(host.calls), host.calls)
      ensures Names(live, objects, from)
      ensures done ==> host.nextBlockId == from + i + 1 && Created(blocks, i + 1, objects, host.objects)
    {
      ghost var id, names, before := host.nextBlockId, host.live, host.objects;
      NamesIssuedBelow(blocks, from, id);
      var b := CreateBlockMetadata(random);
      Compose(live, names, host.live, NamesOf(blocks), NameOf(b), from, id, host.nextBlockId);
      done := b.metadata.Some?;
      if done {
        BlockChanged(blocks, i, b);
        CreatedNext(blocks, i, b, from, id, objects, before, host.objects);
        blocks := blocks[i := b];
      }
    }

    /** What stays live when the pool destroys its blocks. */
    ghost function Bare(): set<Resource>
      reads this, host
    {
      host.live - NamesOf(blocks) - MemoriesOf(blocks) - Handle(Context, context)
      - (if host.cleanupWorks then EventsOf(blocks) else {})
    }

    predicate BadArguments(byteSize: nat) {
      blockCount == 0 || blockCount > U32_MAX || byteSize == 0
    }

    /**
     `initialise`: for every choice of failing calls, either a complete pool whose
     blocks have distinct ids never issued before, or no pool and nothing left
     live that it created.  Only an event can survive a failure, and only if no
     context can be made current to destroy it.
     */
    method Initialise(byteSize: nat, random: nat -> nat) returns (ok: bool)
      requires Valid()
      modifies this, host
      ensures Valid() && host.nextBlockId >= old(host.nextBlockId)
      ensures Extends(old(host.objects), host.objects)
      ensures BadArguments(byteSize) ==>
        !ok && blocks == old(blocks) && initialised == old(initialised) && host.live == old(host.live)
      ensures !BadArguments(byteSize) ==> initialised == ok
      ensures ok <==>
        && !BadArguments(byteSize) && old(host.nextBlockId) + blockCount <= U32_MAX
        && host.NoneFailed(old(host.calls), host.calls)
      ensures !BadArguments(byteSize) && !ok && host.cleanupWorks ==>
        OnlyAdds(old(Bare()), host.live, {}, old(host.nextBlockId), host.nextBlockId)
      ensures !BadArguments(byteSize) && !ok ==> forall r :: r in host.live && r !in old(Bare()) ==> r.kind == Event
      ensures ok ==>
        && OnlyAdds(old(Bare()), host.live, Owned(blocks) + Handle(Context, context),
                    old(host.nextBlockId), host.nextBlockId)
        && (forall i :: 0 <= i < |blocks| ==> old(host.nextBlockId) <= blocks[i].blockId < host.nextBlockId)
        && (forall i :: 0 <= i < |blocks| ==> blocks[i].metadata.value !in old(host.objects))
    {
      if BadArguments(byteSize) {
        return false;
      }
      if initialised || blocks != [] {
        DestroyBlocks();
      }
      NothingOwned();
      ok := Build(random);
    }

    /** `initialise` once the previous pool is gone. */
    method Build(random: nat -> nat) returns (ok: bool)
      requires host.Valid() && blocks == [] && !initialised && context.None? && blockCount > 0
      modifies this, host
      ensures Valid() && host.nextBlockId >= old(host.nextBlockId) && initialised == ok
      ensures ok <==> old(host.nextBlockId) + blockCount <= U32_MAX && host.NoneFailed(old(host.calls), host.calls)
      ensures Extends(old(host.objects), host.objects)
      ensures !ok && host.cleanupWorks ==>
        OnlyAdds(old(host.live), host.live, {}, old(host.nextBlockId), host.nextBlockId)
      ensures !ok ==> forall r :: r in host.live && r !in old(host.live) ==> r.kind == Event
      ensures ok ==>
        && OnlyAdds(old(host.live), host.live, Owned(blocks) + Handle(Context, context),
                    old(host.nextBlockId), host.nextBlockId)
        && (forall i :: 0 <= i < |blocks| ==> old(host.nextBlockId) <= blocks[i].blockId < host.nextBlockId)
        && (forall i :: 0 <= i < |blocks| ==> blocks[i].metadata.value !in old(host.objects))
    {
      ghost var from := host.nextBlockId;
      ghost var before := host.live;
      context := host.Acquire(Context);
      if context.None? {
        NothingOwned();
        return false;
      }
      ok := BuildBlocks(random, before);
      host.FirstCall(old(host.calls), host.calls);
      if ok {
        initialised, nextBlock := true, 0;
      } else {
        Abandon(before, from);
      }
    }

    /** The blocks, once the context has been acquired. */
    method BuildBlocks(random: nat -> nat, ghost before: set<Resource>) returns (ok: bool)
      requires host.Valid() && host.live == before + Handle(Context, context) && before !! Handle(Context, context)
      modifies this`blocks, host
      ensures host.Valid() && host.nextBlockId >= old(host.nextBlockId) && host.calls >= old(host.calls)
      ensures ok <==> old(host.nextBlockId) + blockCount <= U32_MAX && host.NoneFailed(old(host.calls), host.calls)
      ensures Extends(old(host.objects), host.objects) && |blocks| == blockCount
      ensures Owned(blocks) + Handle(Context, context) <= host.live
      ensures OnlyAdds(before, host.live, Owned(blocks) + Handle(Context, context), old(host.nextBlockId),
                       host.nextBlockId)
      ensures ok ==> Distinct(blocks) && forall i :: 0 <= i < |blocks| ==>
        && Complete(blocks[i]) && old(host.nextBlockId) <= blocks[i].blockId < host.nextBlockId
        && blocks[i].metadata.value in host.objects && blocks[i].metadata.value !in old(host.objects)
    {
      ghost var from, withContext := host.nextBlockId, host.live;
      blocks := seq(blockCount, _ => EMPTY_BLOCK);
      ok := FillBlocks(random);
      Compose(before, withContext, host.live, Handle(Context, context), Owned(blocks), from, from, host.nextBlockId);
      assert Handle(Context, context) + Owned(blocks) == Owned(blocks) + Handle(Context, context);
    }

    /** What a failed `initialise` has acquired goes again. */
    method Abandon(ghost before: set<Resource>, ghost from: nat)
      requires host.Valid()
      requires OnlyAdds(before, host.live, Owned(blocks) + Handle(Context, context), from, host.nextBlockId)
      modifies this`blocks, this`nextBlock, this`initialised, this`context, host`live
      ensures Valid() && !initialised
      ensures host.cleanupWorks ==> OnlyAdds(before, host.live, {}, from, host.nextBlockId)
      ensures forall r :: r in host.live && r !in before ==> r.kind == Event
    {
      Undo(before, host.live, Owned(blocks) + Handle(Context, context), from, host.nextBlockId);
      DestroyBlocks();
      NothingOwned();
    }

    /** The metadata loop followed by `allocate_blocks`; on failure the blocks hold what was acquired. */
    method FillBlocks(random: nat -> nat) returns (ok: bool)
      requires host.Valid() && forall i :: 0 <= i < |blocks| ==> blocks[i] == EMPTY_BLOCK
      modifies this`blocks, host
      ensures host.Valid() && host.nextBlockId >= old(host.nextBlockId) && |blocks| == |old(blocks)|
      ensures Extends(old(host.objects), host.objects)
      ensures host.calls >= old(host.calls)
      ensures ok <==> old(host.nextBlockId) + |blocks| <= U32_MAX && host.NoneFailed(old(host.calls), host.calls)
      ensures Owned(blocks) <= host.live
      ensures OnlyAdds(old(host.live), host.live, Owned(blocks), old(host.nextBlockId), host.nextBlockId)
      ensures ok ==> Distinct(blocks) && forall i :: 0 <= i < |blocks| ==>
        && Complete(blocks[i]) && old(host.nextBlockId) <= blocks[i].blockId < host.nextBlockId
        && blocks[i].metadata.value in host.objects && blocks[i].metadata.value !in old(host.objects)
    {
      ghost var from, before := host.nextBlockId, host.live;
      ok := CreateAllMetadata(random);
      ghost var named := blocks;
      NamesIssuedBelow(named, from, host.nextBlockId);
      FreshOwnsNames(named, from, host.nextBlockId);
      if !ok {
        return;
      }
      ghost var mid := host.live;
      ok := AllocateBlocks();
      SameNames(named, blocks);
      Compose(before, mid, host.live, NamesOf(named), MemoriesOf(blocks) + EventsOf(blocks), from,
              host.nextBlockId, host.nextBlockId);
      assert NamesOf(named) + (MemoriesOf(blocks) + EventsOf(blocks)) == Owned(blocks);
    }

    /** `reset`. */
    method Reset()
      requires Valid()
      modifies this, host`live
      ensures Valid() && !initialised && host.live == old(Bare())
    {
      DestroyBlocks();
      NothingOwned();
    }

    // ----- reservations -----

    /** The block that `reserve_for_publish` takes; `times[k]` is the clock read at block `k`. */
    ghost function Choice(times: seq<nat>): Option<nat>
      requires Valid() && |times| == |blocks|
      reads this, host
    {
      if initialised then RoundRobin.Scan(ReusableBlocks(blocks, host.objects, times), nextBlock, 0) else None
    }

    /** The pool is initialised and one of its blocks is reusable. */
    ghost predicate Available(times: seq<nat>)
      requires |times| == |blocks|
      reads this, host
    {
      initialised && exists k :: 0 <= k < |blocks| && ReusableAt(k, times[k])
    }

    predicate ReusableAt(k: nat, now: nat)
      requires k < |blocks|
      reads this, host
    {
      && blocks[k].metadata.Some? && blocks[k].metadata.value in host.objects
      && Reusable(host.objects[blocks[k].metadata.value], now)
    }

    lemma ChoiceIfAvailable(times: seq<nat>)
      requires Valid() && |times| == |blocks|
      ensures Choice(times).Some? <==> Available(times)
    {
      if initialised {
        var reusable := ReusableBlocks(blocks, host.objects, times);
        RoundRobin.ScanIsNearest(reusable, nextBlock, 0);
        assert forall k :: 0 <= k < |blocks| ==>
          reusable[k] == ReusableAt(k, times[k]);
      }
    }

    /** `reserve_for_publish`: reserves the first reusable block in cyclic order and moves the cursor past it. */
    method ReserveForPublish(times: seq<nat>) returns (r: Option<Reservation>)
      requires Valid() && |times| == |blocks|
      modifies this`nextBlock, host`objects
      ensures Valid()
      ensures old(Choice(times)).None? ==> r.None? && nextBlock == old(nextBlock) && host.objects == old(host.objects)
      ensures old(Choice(times)).Some? ==>
        var k := old(Choice(times)).value;
        && k < |blocks| && Reserved(k, times[k], old(host.objects), host.objects, r)
        && nextBlock == RoundRobin.Cyclic(k + 1, |blocks|)
    {
      r := None;
      if !initialised || blocks == [] {
        return;
      }
      r := ReserveFirst(times);
      WordsChanged();
      if r.Some? {
        nextBlock := RoundRobin.Cyclic(r.value.index + 1, |blocks|);
      }
    }

    /** Others change the metadata words. */
    method Interfere(objects: map<nat, Words>)
      requires Valid() && objects.Keys == host.objects.Keys
      modifies host`objects
      ensures Valid() && host.objects == objects
    {
      host.objects := objects;
      WordsChanged();
    }

    /** A reservation for which block `k` is reusable gets that block or moves the cursor nearer to it. */
    method ReserveBefore(k: nat, times: seq<nat>) returns (r: Option<Reservation>)
      requires Valid() && initialised && k < |blocks| == |times|
      requires Reusable(host.objects[blocks[k].metadata.value], times[k])
      modifies this`nextBlock, host`objects
      ensures Valid() && host.objects.Keys == old(host.objects).Keys && r.Some?
      ensures
        || r.value.index == k
        || RoundRobin.Distance(|blocks|, nextBlock, k) < RoundRobin.Distance(|blocks|, old(nextBlock), k)
    {
      ghost var reusable := ReusableBlocks(blocks, host.objects, times);
      RoundRobin.ScanIsNearest(reusable, nextBlock, 0);
      RoundRobin.DistanceIndex(|blocks|, nextBlock, k);
      if RoundRobin.Scan(reusable, nextBlock, 0) != Some(k) {
        RoundRobin.PassedOverComesNearer(reusable, nextBlock, k);
      }
      r := ReserveForPublish(times);
    }

    /**
     No starvation: a publisher that goes on reserving, while others do as they like with
     the words, gets block `k` after at most its cyclic distance of other blocks, if block
     `k` is reusable every time.
     */
    method ReserveUntil(k: nat, times: nat -> seq<nat>, others: nat -> map<nat, Words>)
        returns (rounds: nat, r: Option<Reservation>)
      requires Valid() && initialised && k < |blocks|
      requires forall i ::
        && |times(i)| == |blocks| && others(i).Keys == host.objects.Keys
        && Reusable(others(i)[blocks[k].metadata.value], times(i)[k])
      modifies this`nextBlock, host`objects
      ensures Valid() && r.Some? && r.value.index == k
      ensures rounds <= RoundRobin.Distance(|blocks|, old(nextBlock), k)
    {
      rounds := 0;
      Interfere(others(0));
      r := ReserveBefore(k, times(0));
      while r.value.index != k
        invariant Valid() && r.Some? && host.objects.Keys == old(host.objects).Keys
        invariant
          rounds + (if r.value.index == k then 0 else RoundRobin.Distance(|blocks|, nextBlock, k) + 1)
          <= RoundRobin.Distance(|blocks|, old(nextBlock), k)
        decreases RoundRobin.Distance(|blocks|, old(nextBlock), k) - rounds
      {
        rounds := rounds + 1;
        Interfere(others(rounds));
        r := ReserveBefore(k, times(rounds));
      }
    }

    /** The scan over the blocks. */
    method ReserveFirst(times: seq<nat>) returns (r: Option<Reservation>)
      requires nextBlock < |blocks| == |times|
      requires forall i :: 0 <= i < |blocks| ==> blocks[i].metadata.Some? && blocks[i].metadata.value in host.objects
      modifies host`objects
      ensures host.objects.Keys == old(host.objects).Keys
      ensures
        match RoundRobin.Scan(ReusableBlocks(blocks, old(host.objects), times), nextBlock, 0)
        case None => r.None? && host.objects == old(host.objects)
        case Some(k) => k < |blocks| && Reserved(k, times[k], old(host.objects), host.objects, r)
    {
      ghost var reusable := ReusableBlocks(blocks, host.objects, times);
      r := None;
      var offset := 0;
      while offset < |blocks|
        invariant offset <= |blocks| && r.None? && host.objects == old(host.objects)
        invariant RoundRobin.Scan(reusable, nextBlock, offset) == RoundRobin.Scan(reusable, nextBlock, 0)
      {
        var index := RoundRobin.Cyclic(nextBlock + offset, |blocks|);
        ghost var free := reusable[index];
        RoundRobin.ScanStep(reusable, nextBlock, offset, index);
        r := TryReserve(index, times[index]);
        assert r.Some? == free;
        if r.Some? {
          return;
        }
        offset := offset + 1;
      }
    }

    /** Block `k` has been reserved at time `now`, and nothing else has changed. */
    ghost predicate Reserved(k: nat, now: nat, before: map<nat, Words>, after: map<nat, Words>, r: Option<Reservation>)
      requires k < |blocks| && blocks[k].metadata.Some? && blocks[k].metadata.value in before
      reads this
    {
      var metadata := blocks[k].metadata.value;
      var words := before[metadata];
      && Reusable(words, now)
      && r == Some(Reservation(metadata, blocks[k].blockId, words.uid + 1, k))
      && after == before[metadata := Words(words.uid + 1, 1, 0)]
    }

    /** One iteration of the scan. */
    method TryReserve(index: nat, now: nat) returns (r: Option<Reservation>)
      requires index < |blocks| && blocks[index].metadata.Some? && blocks[index].metadata.value in host.objects
      modifies host`objects
      ensures host.objects.Keys == old(host.objects).Keys
      ensures r.Some? <==> Reusable(old(host.objects)[blocks[index].metadata.value], now)
      ensures r.Some? ==> Reserved(index, now, old(host.objects), host.objects, r)
      ensures r.None? ==> host.objects == old(host.objects)
    {
      var metadata := blocks[index].metadata.value;
      var uid := host.ReserveForPublish(metadata, now);
      r := if uid.None? then None else Some(Reservation(metadata, blocks[index].blockId, uid.value, index));
      assert uid.None? ==> host.objects == old(host.objects);
    }

    /** `owns`: the reservation is of a block this pool has now. */
    predicate Owns(r: Reservation)
      reads this
    {
      && initialised && r.index < |blocks|
      && blocks[r.index].blockId == r.blockId && blocks[r.index].metadata == Some(r.metadata)
    }

    /** `commit`. */
    method Commit(r: Reservation, now: nat) returns (done: bool)
      requires Valid() && r.metadata in host.objects
      modifies host`objects
      ensures Valid()
      ensures !Owns(r) ==> !done && host.objects == old(host.objects)
      ensures Owns(r) ==>
        && host.objects ==
           old(host.objects)[r.metadata := ReleaseWords(old(host.objects)[r.metadata], r.uid, true, now).0]
        && done == ReleaseWords(old(host.objects)[r.metadata], r.uid, true, now).1
    {
      if !Owns(r) {
        return false;
      }
      done := host.ReleaseReservation(r.metadata, r.uid, true, now);
    }

    /** `cancel`: also after a reset. */
    method Cancel(r: Reservation, now: nat) returns (done: bool)
      requires Valid() && r.metadata in host.objects
      modifies host`objects
      ensures Valid()
      ensures host.objects ==
              old(host.objects)[r.metadata := ReleaseWords(old(host.objects)[r.metadata], r.uid, false, now).0]
      ensures done == ReleaseWords(old(host.objects)[r.metadata], r.uid, false, now).1
    {
      done := host.ReleaseReservation(r.metadata, r.uid, false, now);
    }
  }

  /** Which blocks a reservation scan would find reusable. */
  function ReusableBlocks(blocks: seq<PoolBlock>, objects: map<nat, Words>, times: seq<nat>): (r: seq<bool>)
    requires |times| == |blocks|
    requires forall i :: 0 <= i < |blocks| ==> blocks[i].metadata.Some? && blocks[i].metadata.value in objects
    ensures |r| == |blocks|
  {
    seq(|blocks|, k requires 0 <= k < |blocks| => Reusable(objects[blocks[k].metadata.value], times[k]))
  }

  lemma Compose(a: set<Resource>, b: set<Resource>, c: set<Resource>, first: set<Resource>, second: set<Resource>,
                from: nat, mid: nat, to: nat)
    requires OnlyAdds(a, b, first, from, mid) && OnlyAdds(b, c, second, mid, to) && from <= mid <= to
    ensures OnlyAdds(a, c, first + second, from, to)
  {
  }

  /** Releasing what was kept leaves what was there before. */
  lemma Undo(before: set<Resource>, after: set<Resource>, kept: set<Resource>, from: nat, to: nat)
    requires OnlyAdds(before, after, kept, from, to)
    ensures OnlyAdds(before, after - kept, {}, from, to)
  {
  }

  lemma NothingOwned()
    ensures Owned([]) == {}
  {
  }

  lemma FreshOwnsNames(blocks: seq<PoolBlock>, from: nat, to: nat)
    requires Fresh(blocks, from, to)
    ensures MemoriesOf(blocks) == {} && EventsOf(blocks) == {}
    ensures forall r :: r in NamesOf(blocks) ==> IssuedName(r, from, to)
  {
  }

  /** The first `n` blocks have distinct ids and distinct new objects; the others have nothing. */
  predicate Created(blocks: seq<PoolBlock>, n: nat, before: map<nat, Words>, after: map<nat, Words>) {
    && n <= |blocks|
    && (forall i :: 0 <= i < n ==>
          blocks[i].metadata.Some? && blocks[i].metadata.value in after && blocks[i].metadata.value !in before)
    && Distinct(blocks[..n])
    && forall i :: n <= i < |blocks| ==> blocks[i] == EMPTY_BLOCK
  }

  lemma CreatedNext(blocks: seq<PoolBlock>, n: nat, b: PoolBlock, from: nat, id: nat,
                    before: map<nat, Words>, mid: map<nat, Words>, after: map<nat, Words>)
    requires n < |blocks| && Created(blocks, n, before, mid) && Extends(before, mid) && Fresh(blocks, from, id)
    requires b.metadata.Some? && b.blockId == id && b.metadata.value !in mid
    requires Extends(mid, after) && b.metadata.value in after
    ensures Created(blocks[n := b], n + 1, before, after)
  {
    var next := blocks[n := b];
    forall i | 0 <= i < n ensures next[i] == blocks[..n][i] {
    }
    forall i, j | 0 <= i < j < n + 1 ensures
      next[i].blockId != next[j].blockId && next[i].metadata != next[j].metadata {
    }
  }

  /** Blocks under construction: ids from the counter's range, no memory and no event. */
  predicate Fresh(blocks: seq<PoolBlock>, from: nat, to: nat) {
    forall i :: 0 <= i < |blocks| ==>
      && blocks[i].event.None? && blocks[i].memory == NO_MEMORY
      && (blocks[i].metadata.Some? ==> from <= blocks[i].blockId < to)
  }

  lemma NamesIssuedBelow(blocks: seq<PoolBlock>, from: nat, to: nat)
    requires Fresh(blocks, from, to)
    ensures forall r :: r in NamesOf(blocks) ==> IssuedName(r, from, to)
  {
  }

  lemma SameNames(a: seq<PoolBlock>, b: seq<PoolBlock>)
    requires |a| == |b|
    requires forall i :: 0 <= i < |a| ==> a[i].metadata == b[i].metadata && a[i].blockId == b[i].blockId
    ensures NamesOf(a) == NamesOf(b)
  {
    forall r ensures r in NamesOf(a) <==> r in NamesOf(b) {
      if r in NamesOf(a) {
        var i :| 0 <= i < |a| && r in NameOf(a[i]);
        assert r in NameOf(b[i]);
      }
      if r in NamesOf(b) {
        var i :| 0 <= i < |b| && r in NameOf(b[i]);
        assert r in NameOf(a[i]);
      }
    }
  }

  lemma NoMemories(blocks: seq<PoolBlock>)
    requires forall i :: 0 <= i < |blocks| ==> blocks[i].memory == NO_MEMORY
    ensures MemoriesOf(blocks) == {}
  {
  }

  lemma NoEvents(blocks: seq<PoolBlock>)
    requires forall i :: 0 <= i < |blocks| ==> blocks[i].event.None?
    ensures EventsOf(blocks) == {}
  {
  }

  lemma SameMemories(a: seq<PoolBlock>, b: seq<PoolBlock>)
    requires |a| == |b| && forall i :: 0 <= i < |a| ==> a[i].memory == b[i].memory
    ensures MemoriesOf(a) == MemoriesOf(b)
  {
    forall r ensures r in MemoriesOf(a) <==> r in MemoriesOf(b) {
      if r in MemoriesOf(a) {
        var i :| 0 <= i < |a| && r in MemoryOf(a[i].memory);
        assert r in MemoryOf(b[i].memory);
      }
      if r in MemoriesOf(b) {
        var i :| 0 <= i < |b| && r in MemoryOf(b[i].memory);
        assert r in MemoryOf(a[i].memory);
      }
    }
  }

  /** Giving a block that owned nothing of a kind its resources adds exactly these. */
  lemma BlockChanged(blocks: seq<PoolBlock>, k: nat, b: PoolBlock)
    requires k < |blocks|
    ensures blocks[k].memory == NO_MEMORY ==> MemoriesOf(blocks[k := b]) == MemoriesOf(blocks) + MemoryOf(b.memory)
    ensures blocks[k].event.None? ==> EventsOf(blocks[k := b]) == EventsOf(blocks) + Handle(Event, b.event)
    ensures blocks[k].metadata.None? ==> NamesOf(blocks[k := b]) == NamesOf(blocks) + NameOf(b)
  {
    var after := blocks[k := b];
    assert after[k] == b;
    forall r | r in MemoriesOf(blocks) && blocks[k].memory == NO_MEMORY ensures r in MemoriesOf(after) {
      var i :| 0 <= i < |blocks| && r in MemoryOf(blocks[i].memory);
      assert after[i] == blocks[i];
    }
    forall r | r in EventsOf(blocks) && blocks[k].event.None? ensures r in EventsOf(after) {
      var i :| 0 <= i < |blocks| && r in Handle(Event, blocks[i].event);
      assert after[i] == blocks[i];
    }
    forall r | r in NamesOf(blocks) && blocks[k].metadata.None? ensures r in NamesOf(after) {
      var i :| 0 <= i < |blocks| && r in NameOf(blocks[i]);
      assert after[i] == blocks[i];
    }
  }

  lemma Snoc(blocks: seq<PoolBlock>, b: PoolBlock)
    ensures MemoriesOf(blocks + [b]) == MemoriesOf(blocks) + MemoryOf(b.memory)
    ensures EventsOf(blocks + [b]) == EventsOf(blocks) + Handle(Event, b.event)
    ensures NamesOf(blocks + [b]) == NamesOf(blocks) + NameOf(b)
  {
    var all := blocks + [b];
    assert all[|blocks|] == b;
    forall r | r in MemoriesOf(blocks) ensures r in MemoriesOf(all) {
      var i :| 0 <= i < |blocks| && r in MemoryOf(blocks[i].memory);
      assert all[i] == blocks[i];
    }
    forall r | r in EventsOf(blocks) ensures r in EventsOf(all) {
      var i :| 0 <= i < |blocks| && r in Handle(Event, blocks[i].event);
      assert all[i] == blocks[i];
    }
    forall r | r in NamesOf(blocks) ensures r in NamesOf(all) {
      var i :| 0 <= i < |blocks| && r in NameOf(blocks[i]);
      assert all[i] == blocks[i];
    }
  }
}
