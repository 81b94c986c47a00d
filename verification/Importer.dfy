/**
 `VmmFdMemoryImporter::import` with its failure ladder, and the release of what it
 imported; the size both sides give an allocation.
 */
module Importer {
  import opened Machine
  import opened Hosts

  /** `align_up` and `align_up_size`. */
  function AlignUp(value: nat, alignment: nat): nat {
    if alignment == 0 || value % alignment == 0 then value
    else Wrap(value + alignment - value % alignment, U64_MODULUS)
  }

  /** The allocation size that `import` maps. */
  function AllocationSize(byteSize: nat, granularity: nat): nat {
    if AlignUp(byteSize, granularity) == 0 then granularity else AlignUp(byteSize, granularity)
  }

  /** The next multiple exists below 2^64. */
  predicate Fits(value: nat, alignment: nat)
    requires alignment > 0
  {
    value % alignment == 0 || value + alignment - value % alignment <= U64_MAX
  }

  lemma NextMultiple(value: nat, alignment: nat)
    requires alignment > 0
    ensures (value + alignment - value % alignment) % alignment == 0
  {
    var q := value / alignment;
    assert value + alignment - value % alignment == alignment * (q + 1) + 0;
    RemainderUnique(value + alignment - value % alignment, alignment, q + 1, 0);
  }

  /** The result is the least multiple of the granularity that holds the value exactly when that multiple fits. */
  lemma AlignUpExact(value: nat, alignment: nat)
    requires 0 < alignment <= U64_MAX && value <= U64_MAX
    ensures Fits(value, alignment) <==> value <= AlignUp(value, alignment)
    ensures Fits(value, alignment) ==>
      AlignUp(value, alignment) % alignment == 0 && AlignUp(value, alignment) < value + alignment
  {
    if value % alignment != 0 {
      NextMultiple(value, alignment);
      var sum := value + alignment - value % alignment;
      if !Fits(value, alignment) {
        WrapIsMod(sum, U64_MODULUS);
        RemainderUnique(sum, U64_MODULUS, 1, sum - U64_MODULUS);
      }
    }
  }

  /** The publisher's and the subscriber's size agree for every block that is not empty. */
  lemma SizesAgree(byteSize: nat, granularity: nat)
    requires 0 < byteSize <= U64_MAX && 0 < granularity <= U64_MAX && Fits(byteSize, granularity)
    ensures AllocationSize(byteSize, granularity) == AlignUp(byteSize, granularity) > 0
  {
    AlignUpExact(byteSize, granularity);
  }

  /** `ImportedResources`. */
  datatype Imported = Imported(
    context: Option<nat>,
    allocation: Option<nat>,
    range: Option<nat>,
    event: Option<nat>,
    size: nat)

  function ResourcesOf(r: Imported): set<Resource> {
    Handle(Context, r.context) + Handle(Allocation, r.allocation) + Handle(Range, r.range) + Handle(Event, r.event)
  }

  /** `request_fd_from_publisher`: its socket is closed on every path. */
  method RequestFd(host: Host, pathTooLong: bool) returns (fd: Option<nat>)
    requires host.Valid()
    modifies host`calls, host`live, host`nextHandle
    ensures host.Valid() && host.live == old(host.live) + Handle(FileDescriptor, fd)
    ensures old(host.live) !! Handle(FileDescriptor, fd)
    ensures host.calls >= old(host.calls)
    ensures fd.Some? <==> !pathTooLong && host.NoneFailed(old(host.calls), host.calls)
  {
    fd := None;
    var socket := host.Acquire(Socket);
    if socket.None? {
      return;
    }
    if pathTooLong {
      host.Release(Socket, socket);
      return;
    }
    var connected := host.Attempt();
    if !connected {
      host.Release(Socket, socket);
      return;
    }
    // recvmsg and the check of its control message
    var received := host.Attempt();
    if !received {
      host.Release(Socket, socket);
      return;
    }
    fd := host.Acquire(FileDescriptor);
    host.Release(Socket, socket);
  }

  /**
   `import`: a context, an allocation, a mapped range and an event, or nothing at
   all, whichever call fails.  The descriptor received is closed in every case.
   */
  method Import(host: Host, pathTooLong: bool, byteSize: nat, granularity: nat) returns (r: Option<Imported>)
    requires host.Valid()
    modifies host`calls, host`live, host`nextHandle
    ensures host.Valid()
    ensures host.calls >= old(host.calls)
    ensures r.Some? <==> !pathTooLong && host.NoneFailed(old(host.calls), host.calls)
    ensures r.None? ==> host.live == old(host.live)
    ensures r.Some? ==>
      && r.value.context.Some? && r.value.allocation.Some? && r.value.range.Some? && r.value.event.Some?
      && r.value.size == AllocationSize(byteSize, granularity)
      && host.live == old(host.live) + ResourcesOf(r.value) && old(host.live) !! ResourcesOf(r.value)
  {
    r := None;
    if pathTooLong {
      return;
    }
    var fd := RequestFd(host, pathTooLong);
    if fd.None? {
      return;
    }
    r := ImportFrom(host, fd, AllocationSize(byteSize, granularity));
  }

  /** `import` once the descriptor has been received. */
  method ImportFrom(host: Host, fd: Option<nat>, size: nat) returns (r: Option<Imported>)
    requires host.Valid() && fd.Some? && Resource(FileDescriptor, fd.value) in host.live
    modifies host`calls, host`live, host`nextHandle
    ensures host.Valid() && host.calls >= old(host.calls)
    ensures r.Some? <==> host.NoneFailed(old(host.calls), host.calls)
    ensures r.None? ==> host.live == old(host.live) - Handle(FileDescriptor, fd)
    ensures r.Some? ==>
      && r.value.context.Some? && r.value.allocation.Some? && r.value.range.Some? && r.value.event.Some?
      && r.value.size == size && old(host.live) !! ResourcesOf(r.value)
      && host.live == old(host.live) - Handle(FileDescriptor, fd) + ResourcesOf(r.value)
  {
    r := None;
    var context, allocation := ImportAllocation(host, fd);
    if allocation.None? {
      return;
    }
    var range, event := MapRange(host);
    if event.None? {
      host.Release(Allocation, allocation);
      host.Release(Context, context);
      return;
    }
    r := Some(Imported(context, allocation, range, event, size));
  }

  /** The context and the imported allocation, or neither; the descriptor is closed. */
  method ImportAllocation(host: Host, fd: Option<nat>) returns (context: Option<nat>, allocation: Option<nat>)
    requires host.Valid() && fd.Some? && Resource(FileDescriptor, fd.value) in host.live
    modifies host`calls, host`live, host`nextHandle
    ensures host.Valid() && host.calls >= old(host.calls)
    ensures allocation.Some? <==> host.NoneFailed(old(host.calls), host.calls)
    ensures allocation.None? ==> host.live == old(host.live) - Handle(FileDescriptor, fd)
    ensures allocation.Some? ==>
      && context.Some? && old(host.live) !! Handle(Context, context) + Handle(Allocation, allocation)
      && host.live ==
         old(host.live) - Handle(FileDescriptor, fd) + Handle(Context, context) + Handle(Allocation, allocation)
  {
    allocation := None;
    context := host.Acquire(Context);
    if context.None? {
      host.Release(FileDescriptor, fd);
      return;
    }
    var pushed := host.Attempt();
    if !pushed {
      host.Release(FileDescriptor, fd);
      host.Release(Context, context);
      return;
    }
    allocation := host.Acquire(Allocation);
    host.Release(FileDescriptor, fd);
    if allocation.None? {
      host.Release(Context, context);
    }
  }

  /** The steps after the allocation: the range is given back unless everything works. */
  method MapRange(host: Host) returns (range: Option<nat>, event: Option<nat>)
    requires host.Valid()
    modifies host`calls, host`live, host`nextHandle
    ensures host.Valid() && (event.Some? ==> range.Some?)
    ensures host.calls >= old(host.calls) && (event.Some? <==> host.NoneFailed(old(host.calls), host.calls))
    ensures event.None? ==> host.live == old(host.live)
    ensures event.Some? ==>
      && host.live == old(host.live) + Handle(Range, range) + Handle(Event, event)
      && old(host.live) !! Handle(Range, range) + Handle(Event, event)
  {
    range, event := None, None;
    var known := host.Attempt();
    if !known {
      return;
    }
    range := host.Acquire(Range);
    if range.None? {
      return;
    }
    var mapped := host.Attempt();
    if !mapped {
      host.Release(Range, range);
      return;
    }
    var accessible := host.Attempt();
    if !accessible {
      host.Release(Range, range);
      return;
    }
    event := host.Acquire(Event);
    if event.None? {
      host.Release(Range, range);
    }
  }

  /** `release_imported_resources`, then the last reference to the context. */
  method Release(host: Host, r: Imported) returns (ok: bool)
    modifies host`live
    ensures host.live == old(host.live) - Released(r, host.cleanupWorks)
    ensures ok <==> r.context.None? || host.cleanupWorks
  {
    ok := true;
    if r.context.Some? && host.cleanupWorks {
      if r.size != 0 {
        host.Release(Range, r.range);
      }
      host.Release(Allocation, r.allocation);
      host.Release(Event, r.event);
    } else if r.context.Some? {
      ok := false;
    }
    host.Release(Context, r.context);
  }

  /** What a release gives back; `works` is whether the context could be made current. */
  function Released(r: Imported, works: bool): set<Resource> {
    if r.context.None? then {}
    else if !works then Handle(Context, r.context)
    else
      (if r.size == 0 then {} else Handle(Range, r.range))
      + Handle(Allocation, r.allocation) + Handle(Event, r.event) + Handle(Context, r.context)
  }

  /** A release gives back all that was imported exactly when the context works and the mapping is not empty. */
  lemma ReleasesEverything(r: Imported, works: bool)
    requires r.context.Some? && r.allocation.Some? && r.range.Some? && r.event.Some?
    ensures Released(r, works) == ResourcesOf(r) <==> works && r.size != 0
  {
    assert Resource(Range, r.range.value) in ResourcesOf(r);
  }

  /** What a release leaves: all but the context if that cannot be made current, and the range of an empty mapping. */
  lemma LeftBehind(r: Imported, works: bool)
    requires r.context.Some?
    ensures ResourcesOf(r) - Released(r, works) ==
      if !works then Handle(Allocation, r.allocation) + Handle(Range, r.range) + Handle(Event, r.event)
      else if r.size == 0 then Handle(Range, r.range)
      else {}
    ensures Released(r, works) <= ResourcesOf(r)
  {
  }

  /** An import and its release leave the ledger as it was. */
  method ImportAndRelease(host: Host, pathTooLong: bool, byteSize: nat, granularity: nat)
    requires host.Valid() && host.cleanupWorks && 0 < granularity
    modifies host`calls, host`live, host`nextHandle
    ensures host.live == old(host.live)
  {
    var r := Import(host, pathTooLong, byteSize, granularity);
    if r.Some? {
      ReleasesEverything(r.value, true);
      var ok := Release(host, r.value);
    }
  }
}
