/**
 What the publisher process asks of the CUDA driver and the operating system: a
 ledger of live resources, a call counter that decides which acquiring calls
 fail, the process-wide block id counter, and the shared metadata objects.
 */
module Hosts {
  import opened Machine
  import opened BlockWords

  datatype Kind = Range | Allocation | FileDescriptor | Server | Event | Context | Socket | Name

  /** A live resource.  A name is identified by its block id, everything else by its handle. */
  datatype Resource = Resource(kind: Kind, id: nat)

  function Handle(kind: Kind, handle: Option<nat>): set<Resource> {
    if handle.Some? then {Resource(kind, handle.value)} else {}
  }

  /** `initial_uid` of eight random bytes: those bytes, but never 0, and never the value whose increment overflows. */
  function InitialUid(random: nat): (uid: nat)
    ensures 0 < uid < U64_MAX
    ensures 0 < random < U64_MAX ==> uid == random
    ensures random == 0 || random == U64_MAX ==> uid == 1
  {
    var value := Wrap(random, U64_MODULUS);
    if value == 0 || value == U64_MAX then 1 else value
  }

  class Host {
    /** Which acquiring calls fail, by position in the run. */
    const fails: nat -> bool
    /** Whether a context can be made current while cleaning up. */
    const cleanupWorks: bool

    var calls: nat
    var live: set<Resource>
    var nextHandle: nat
    var nextBlockId: nat
    var objects: map<nat, Words>

    ghost predicate Valid()
      reads this
    {
      && (forall r :: r in live && r.kind != Name ==> r.id < nextHandle)
      && (forall o :: o in objects ==> o < nextHandle)
      && nextBlockId <= U32_MAX
    }

    predicate Fails(call: nat) {
      fails(call)
    }

    /** No call from the `from`-th up to the `to`-th has failed. */
    ghost predicate NoneFailed(from: nat, to: nat) {
      forall c :: from <= c < to ==> !Fails(c)
    }

    lemma FirstCall(from: nat, to: nat)
      requires from < to
      ensures NoneFailed(from, to) <==> !Fails(from) && NoneFailed(from + 1, to)
    {
    }

    constructor (fails: nat -> bool, cleanupWorks: bool)
      ensures Valid() && live == {} && objects == map[]
      ensures this.fails == fails && this.cleanupWorks == cleanupWorks
    {
      this.fails, this.cleanupWorks := fails, cleanupWorks;
      calls, live, nextHandle, nextBlockId, objects := 0, {}, 0, 0, map[];
    }

    /** A call that acquires nothing and may fail. */
    method Attempt() returns (ok: bool)
      modifies this`calls
      ensures ok == !Fails(old(calls)) && calls == old(calls) + 1
    {
      ok := !Fails(calls);
      calls := calls + 1;
    }

    /** A call that acquires a resource, or fails and acquires nothing. */
    method Acquire(kind: Kind) returns (handle: Option<nat>)
      requires Valid() && kind != Name
      modifies this`calls, this`live, this`nextHandle
      ensures Valid() && nextHandle >= old(nextHandle)
      ensures handle.Some? <==> !Fails(old(calls))
      ensures calls == old(calls) + 1
      ensures handle.Some? ==> handle.value == old(nextHandle) < nextHandle
      ensures live == old(live) + Handle(kind, handle) && old(live) !! Handle(kind, handle)
    {
      var ok := Attempt();
      handle := None;
      if ok {
        handle := Some(nextHandle);
        live := live + {Resource(kind, nextHandle)};
        nextHandle := nextHandle + 1;
      }
    }

    method Release(kind: Kind, handle: Option<nat>)
      modifies this`live
      ensures live == old(live) - Handle(kind, handle)
    {
      if handle.Some? {
        live := live - {Resource(kind, handle.value)};
      }
    }

    /** `allocate_process_block_id`. */
    method AllocateBlockId() returns (id: Option<nat>)
      requires Valid()
      modifies this`nextBlockId
      ensures Valid()
      ensures id.None? <==> old(nextBlockId) == U32_MAX
      ensures id.Some? ==> id.value == old(nextBlockId) && nextBlockId == old(nextBlockId) + 1
      ensures id.None? ==> nextBlockId == old(nextBlockId)
    {
      id := None;
      if nextBlockId != U32_MAX {
        id := Some(nextBlockId);
        nextBlockId := nextBlockId + 1;
      }
    }

    /**
     `BufferMetadata::create`: exclusive creation of the name, then ftruncate and
     mmap, each of which takes the name back when it fails.
     */
    method CreateMetadata(blockId: nat, initialUid: nat) returns (object_: Option<nat>, exists_: bool)
      requires Valid()
      modifies this`calls, this`live, this`nextHandle, this`objects
      ensures Valid() && nextHandle >= old(nextHandle)
      ensures exists_ <==> Resource(Name, blockId) in old(live)
      ensures calls >= old(calls) && (object_.Some? <==> !exists_ && NoneFailed(old(calls), calls))
      ensures exists_ ==> calls == old(calls)
      ensures object_.None? ==> live == old(live) && objects == old(objects)
      ensures object_.Some? ==>
        && live == old(live) + {Resource(Name, blockId)}
        && object_.value !in old(objects) && old(nextHandle) <= object_.value
        && objects == old(objects)[object_.value := Words(initialUid, 0, 0)]
    {
      object_, exists_ := None, Resource(Name, blockId) in live;
      if exists_ {
        return;
      }
      var created := Attempt();
      if !created {
        return;
      }
      live := live + {Resource(Name, blockId)};
      var truncated := Attempt();
      if !truncated {
        live := live - {Resource(Name, blockId)};
        return;
      }
      var mapped := Attempt();
      if !mapped {
        live := live - {Resource(Name, blockId)};
        return;
      }
      object_ := Some(nextHandle);
      objects := objects[nextHandle := Words(initialUid, 0, 0)];
      nextHandle := nextHandle + 1;
    }

    // ----- BufferRef calls that run without interference -----

    method ReserveForPublish(object_: nat, now: nat) returns (uid: Option<nat>)
      requires object_ in objects
      modifies this`objects
      ensures objects == old(objects)[object_ := ReserveWords(old(objects)[object_], now).0]
      ensures uid == ReserveWords(old(objects)[object_], now).1
    {
      uid := None;
      var words := objects[object_];
      assert objects[object_ := words] == objects;
      if words.refcount != 0 {
        return;
      }
      if words.stamp != 0 && (now < words.stamp || now - words.stamp < GRACE_PERIOD_US) {
        return;
      }
      objects := objects[object_ := words.(refcount := 1)];
      if words.uid == U64_MAX {
        objects := objects[object_ := words.(refcount := 0)];
        return;
      }
      objects := objects[object_ := objects[object_].(uid := words.uid + 1)];
      objects := objects[object_ := objects[object_].(stamp := 0)];
      uid := Some(words.uid + 1);
    }

    method ReleaseReservation(object_: nat, uid: nat, published: bool, now: nat) returns (done: bool)
      requires object_ in objects
      modifies this`objects
      ensures objects == old(objects)[object_ := ReleaseWords(old(objects)[object_], uid, published, now).0]
      ensures done == ReleaseWords(old(objects)[object_], uid, published, now).1
    {
      assert objects[object_ := objects[object_]] == objects;
      if objects[object_].uid != uid {
        return false;
      }
      if published {
        objects := objects[object_ := objects[object_].(stamp := now)];
      }
      var previous := objects[object_].refcount;
      objects := objects[object_ := objects[object_].(refcount := FetchSub(previous))];
      if previous == 0 {
        objects := objects[object_ := objects[object_].(refcount := 0)];
        return false;
      }
      return true;
    }

    /** `BufferRef::acquire`. */
    method AcquireReference(object_: nat, uid: nat) returns (acquired: bool)
      requires object_ in objects
      modifies this`objects
      ensures objects == old(objects)[object_ := AcquireWords(old(objects)[object_], uid).0]
      ensures acquired == AcquireWords(old(objects)[object_], uid).1
    {
      assert objects[object_ := objects[object_]] == objects;
      if objects[object_].uid != uid || objects[object_].refcount == U32_MAX {
        return false;
      }
      objects := objects[object_ := objects[object_].(refcount := objects[object_].refcount + 1)];
      // Without interference the second check of the uid cannot fail.
      return true;
    }

    /** `BufferRef::release`. */
    method DropReference(object_: nat)
      requires object_ in objects
      modifies this`objects
      ensures objects == old(objects)[object_ := DropWords(old(objects)[object_])]
    {
      var previous := objects[object_].refcount;
      objects := objects[object_ := objects[object_].(refcount := FetchSub(previous))];
      if previous == 0 {
        objects := objects[object_ := objects[object_].(refcount := 0)];
      }
    }
  }
}
