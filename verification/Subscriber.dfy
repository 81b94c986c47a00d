/**
 The subscriber's side of a process: mapping a descriptor, binding it to a stream,
 releasing it, and the deferred-release worker.  The release queue is one per
 process, so its deques are fields here.  Publications and handles are named by
 their position.
 */
module Subscriber {
  import opened Machine
  import opened BlockWords
  import opened Hosts
  import opened ReadLedger

  /** How the calls that follow a successful acquisition go. */
  datatype MapCalls = MapCalls(imported: bool, hasPointer: bool, context: bool)
  datatype BindCalls = BindCalls(streamValid: bool, completionCreated: bool, readyEnqueued: bool)

  datatype Op =
    | Map(mapping: Option<nat>, uid: nat, calls: MapCalls, bindCalls: BindCalls)
    | Acquire(mapping: Option<nat>, uid: nat, calls: MapCalls)
    | Bind(i: nat, bind: BindCalls)
    | DestroyPublication(i: nat)
    | MovePublication(i: nat, j: nat)
    | DestroyHandle(i: nat, release: ReleaseCalls)
    | MoveConstructHandle(i: nat)
    | MoveAssignHandle(i: nat, j: nat, release: ReleaseCalls)
    | Take
    | Finish(wait: WaitCalls)
    | Interfere(object_: nat, uid: nat, stamp: nat, held: nat)

  /** `make_bound` succeeds. */
  predicate Binds(r: Ref, calls: BindCalls) {
    calls.streamValid && (r.context ==> calls.completionCreated) && calls.readyEnqueued
  }

  /** The slots after the content of `i` has been moved to `j`, what was there being released. */
  function Moved(slots: seq<Option<Ref>>, i: nat, j: nat): seq<Option<Ref>> {
    if i < |slots| && j < |slots| && i != j then slots[j := slots[i]][i := None] else slots
  }

  function Emptied(slots: seq<Option<Ref>>, i: nat): seq<Option<Ref>> {
    if i < |slots| then slots[i := None] else slots
  }

  /** When a released handle's reference goes back to the publisher. */
  datatype When = Now | Later | Never

  function Outcome(slot: Option<Ref>, calls: ReleaseCalls): When {
    if slot.None? || !slot.value.context then Now
    else if RecordedOk(calls) then Later
    else Never
  }

  /** The items whose wait succeeded, or those whose wait did not, in order; the first is the worker's `k`-th. */
  function Selected(items: seq<Ref>, calls: nat -> WaitCalls, completed: bool, k: nat): seq<Ref> {
    if items == [] then []
    else (if Completed(calls(k)) == completed then [items[0]] else []) + Selected(items[1..], calls, completed, k + 1)
  }

  lemma SelectedStep(items: seq<Ref>, calls: nat -> WaitCalls, k: nat, released: seq<Ref>, failed: seq<Ref>)
    requires items != []
    ensures
      (released + if Completed(calls(k)) then [items[0]] else []) + Selected(items[1..], calls, true, k + 1) ==
      released + Selected(items, calls, true, k)
    ensures
      (failed + if Completed(calls(k)) then [] else [items[0]]) + Selected(items[1..], calls, false, k + 1) ==
      failed + Selected(items, calls, false, k)
  {
  }

  class Process {
    const host: Host
    var publications: seq<Option<Ref>>
    var handles: seq<Option<Ref>>
    var items: seq<Ref>
    var inHand: Option<Ref>
    var failed: seq<Ref>
    var acquired: nat
    /** References held by other processes, and publisher reservations. */
    var others: map<nat, nat>
    ghost var turns: seq<Ref>
    ghost var taken: nat
    ghost var released: seq<Ref>
    ghost var fates: seq<Fate>
    /** The calls made for references, with their results; only `RecordEvent`, `Wait` and `ReturnUnit` add to it. */
    ghost var log: seq<Call>
    /** The operations performed. */
    ghost var history: seq<Op>

    ghost function AllBooks(): Books
      reads this, host
    {
      Books(Places(publications, handles, turns, taken, inHand, failed, released), fates, log, host.objects, others)
    }

    ghost predicate Valid()
      reads this, host
    {
      Tied() && Right(AllBooks())
    }

    /** The fields that exist at run time agree with the history. */
    ghost predicate Tied()
      reads this
    {
      acquired == |fates| && taken <= |turns| && items == turns[taken..]
    }

    constructor (host: Host)
      ensures Valid() && this.host == host && publications == [] && handles == [] && fates == [] && log == []
    {
      this.host := host;
      publications, handles, items, inHand, failed, acquired := [], [], [], None, [], 0;
      others := map o | o in host.objects :: host.objects[o].refcount;
      turns, taken, released, fates, log, history := [], 0, [], [], [], [];
    }

    // ----- calls -----

    /** `push_current` and `cuEventRecord`. */
    method RecordEvent(r: Ref, calls: ReleaseCalls) returns (ok: bool)
      modifies this`log
      ensures ok == RecordedOk(calls) && log == old(log) + RecordCalls(r.id, calls)
    {
      ok := calls.pushed;
      log := log + [Push(r.id, ok)];
      if ok {
        ok := calls.recorded;
        log := log + [Record(r.id, ok)];
      }
    }

    /** `push_current` and `cuEventSynchronize`. */
    method Wait(r: Ref, calls: WaitCalls) returns (ok: bool)
      modifies this`log
      ensures ok == Completed(calls) && log == old(log) + SynchroniseCalls(r.id, calls)
    {
      ok := calls.pushed;
      log := log + [Push(r.id, ok)];
      if ok {
        ok := calls.synchronised;
        log := log + [Synchronise(r.id, ok)];
      }
    }

    /** `BufferRef::release`. */
    method ReturnUnit(r: Ref)
      requires r.object_ in host.objects
      modifies this`log, host`objects
      ensures log == old(log) + [Return(r.id)] && host.objects == Drop(old(host.objects), Some(r))
    {
      host.DropReference(r.object_);
      log := log + [Return(r.id)];
    }

    // ----- mapping and binding -----

    /**
     `map_descriptor` once a metadata mapping has or has not been found: a
     publication, or no change to any reference count.
     */
    method AcquirePublication(mapping: Option<nat>, uid: nat, calls: MapCalls) returns (p: Option<nat>)
      requires Valid() && (mapping.Some? ==> mapping.value in host.objects)
      modifies this`publications, this`acquired, this`fates, host`objects
      ensures Valid() && Evolves(old(AllBooks()), AllBooks())
      ensures p.Some? <==>
        && mapping.Some? && AcquireWords(old(host.objects)[mapping.value], uid).1
        && calls.imported && calls.hasPointer
      ensures p.None? ==> AllBooks() == old(AllBooks())
      ensures p.Some? ==>
        && p.value == |old(publications)|
        && AllBooks() == Published(old(AllBooks()), Ref(old(acquired), mapping.value, uid, calls.context))
    {
      p := None;
      if mapping.None? {
        return;
      }
      ghost var b := AllBooks();
      var got := TryAcquire(mapping.value, uid, calls.imported && calls.hasPointer);
      if !got {
        return;
      }
      var r := Ref(acquired, mapping.value, uid, calls.context);
      PublishKeeps(b, r);
      p := Some(|publications|);
      AddPublication(r, b);
    }

    method AddPublication(r: Ref, ghost b: Books)
      requires Tied() && r.object_ in b.objects
      requires AllBooks() == b.(objects := b.objects[r.object_ := AcquireWords(b.objects[r.object_], r.uid).0])
      modifies this`publications, this`acquired, this`fates
      ensures Tied() && AllBooks() == Published(b, r)
    {
      fates := fates + [Fate(r, InPublication(|publications|), false, None)];
      publications, acquired := publications + [Some(r)], acquired + 1;
    }

    /** The acquisition, and its destructor when no publication comes of it. */
    method TryAcquire(object_: nat, uid: nat, usable: bool) returns (got: bool)
      requires object_ in host.objects
      modifies host`objects
      ensures got <==> AcquireWords(old(host.objects)[object_], uid).1 && usable
      ensures host.objects ==
        if got then old(host.objects)[object_ := AcquireWords(old(host.objects)[object_], uid).0] else old(host.objects)
    {
      assert host.objects[object_ := host.objects[object_]] == host.objects;
      got := host.AcquireReference(object_, uid);
      if got && !usable {
        host.DropReference(object_);
        got := false;
        assert host.objects[object_] == old(host.objects)[object_];
      }
    }

    /** `make_bound`: either everything moves into a new handle, or the publication is untouched. */
    method MakeBound(i: nat, calls: BindCalls) returns (h: Option<nat>)
      requires Valid() && i < |publications|
      modifies this`publications, this`handles, this`fates
      ensures Valid() && Evolves(old(AllBooks()), AllBooks())
      ensures h.Some? <==> old(publications)[i].Some? && Binds(old(publications)[i].value, calls)
      ensures h.Some? <==>
        && old(publications)[i].Some? && calls.streamValid && calls.readyEnqueued
        && (old(publications)[i].value.context ==> calls.completionCreated)
      ensures h.None? ==> AllBooks() == old(AllBooks())
      ensures h.Some? ==>
        && h.value == |old(handles)| && publications == old(publications)[i := None]
        && handles == old(handles) + [old(publications)[i]]
    {
      h := None;
      if publications[i].None? || !calls.streamValid {
        return;
      }
      var r := publications[i].value;
      if r.context && !calls.completionCreated {
        return;
      }
      if !calls.readyEnqueued {
        return;
      }
      BindKeeps(AllBooks(), i, r);
      h := Some(|handles|);
      MoveToHandle(i, r);
    }

    method MoveToHandle(i: nat, r: Ref)
      requires Tied() && Has(publications, i, r) && r.id < |fates|
      modifies this`publications, this`handles, this`fates
      ensures Tied() && AllBooks() == Bound(old(AllBooks()), i, r)
      ensures handles == old(handles) + [Some(r)] && publications == old(publications)[i := None]
    {
      fates := fates[r.id := Fate(r, InHandle(|handles|), true, None)];
      handles, publications := handles + [Some(r)], publications[i := None];
      assert fates == old(AllBooks()).fates[r.id := fates[r.id]] && log == old(log) + [];
    }

    /** The destructor of a publication, and the first half of an assignment to it. */
    method DestroyPublication(i: nat)
      requires Valid() && i < |publications|
      modifies this`publications, this`released, this`fates, this`log, host`objects
      ensures Valid() && Evolves(old(AllBooks()), AllBooks())
      ensures publications == old(publications)[i := None]
      ensures host.objects == Drop(old(host.objects), old(publications)[i])
      ensures released == old(released) + Listed(old(publications)[i])
    {
      var slot := publications[i];
      if slot.None? {
        assert publications[i := None] == publications;
        return;
      }
      var r := slot.value;
      KnownRef(AllBooks(), r, InPublication(i));
      DiscardKeeps(AllBooks(), i, r);
      ReturnPublication(i, r);
    }

    method ReturnPublication(i: nat, r: Ref)
      requires Tied() && Has(publications, i, r) && r.id < |fates| && r.object_ in host.objects
      modifies this`publications, this`released, this`fates, this`log, host`objects
      ensures Tied() && AllBooks() == Discarded(old(AllBooks()), i, r)
    {
      ReturnUnit(r);
      fates := fates[r.id := Fate(r, Released(|released|), false, None)];
      publications, released := publications[i := None], released + [r];
    }

    /** Move assignment between publications: what the target owned is released. */
    method MoveAssignPublication(i: nat, j: nat)
      requires Valid() && i < |publications| && j < |publications| && i != j
      modifies this`publications, this`released, this`fates, this`log, host`objects
      ensures Valid() && Evolves(old(AllBooks()), AllBooks())
      ensures publications == old(publications)[j := old(publications)[i]][i := None]
      ensures host.objects == Drop(old(host.objects), old(publications)[j])
      ensures released == old(released) + Listed(old(publications)[j])
    {
      ghost var b := AllBooks();
      DestroyPublication(j);
      ghost var c := AllBooks();
      MovePublication(i, j);
      EvolvesThen(b, c, AllBooks());
    }

    /** Moves a publication into an empty slot. */
    method MovePublication(i: nat, j: nat)
      requires Valid() && i < |publications| && j < |publications| && i != j && publications[j].None?
      modifies this`publications, this`fates
      ensures Valid() && Evolves(old(AllBooks()), AllBooks())
      ensures publications == old(publications)[j := old(publications)[i]][i := None]
    {
      var slot := publications[i];
      if slot.None? {
        assert publications[j := slot][i := None] == publications;
        return;
      }
      ShiftPublicationKeeps(AllBooks(), i, j, slot.value);
      ShiftPublication(i, j, slot.value);
    }

    method ShiftPublication(i: nat, j: nat, r: Ref)
      requires Tied() && Has(publications, i, r) && Vacant(publications, j) && r.id < |fates|
      modifies this`publications, this`fates
      ensures Tied() && AllBooks() == ShiftedPublication(old(AllBooks()), i, j, r)
    {
      fates := fates[r.id := Fate(r, InPublication(j), false, None)];
      publications := publications[j := Some(r)][i := None];
      assert log == old(log) + [];
    }

    /**
     `BufferMapper::map`: a handle that holds one more reference, or no change to
     any count, whatever fails on the way.
     */
    method Map(mapping: Option<nat>, uid: nat, calls: MapCalls, bindCalls: BindCalls) returns (h: Option<nat>)
      requires Valid() && (mapping.Some? ==> mapping.value in host.objects)
      modifies this`publications, this`handles, this`acquired, this`released, this`fates, this`log, host`objects
      ensures Valid() && Evolves(old(AllBooks()), AllBooks())
      ensures h.Some? <==>
        && mapping.Some? && AcquireWords(old(host.objects)[mapping.value], uid).1
        && calls.imported && calls.hasPointer
        && Binds(Ref(old(acquired), mapping.value, uid, calls.context), bindCalls)
      ensures h.None? ==> host.objects == old(host.objects) && handles == old(handles)
      ensures h.Some? ==>
        && handles == old(handles) + [Some(Ref(old(acquired), mapping.value, uid, calls.context))]
        && host.objects == old(host.objects)[mapping.value := AcquireWords(old(host.objects)[mapping.value], uid).0]
    {
      h := None;
      ghost var b := AllBooks();
      var p := AcquirePublication(mapping, uid, calls);
      if p.None? {
        return;
      }
      ghost var c := AllBooks();
      AcquireThenDrop(b.objects, Ref(acquired - 1, mapping.value, uid, calls.context));
      h := BindOrDestroy(p.value, bindCalls);
      EvolvesThen(b, c, AllBooks());
    }

    /** `make_bound`, and the publication's destructor, which does nothing once the publication has been moved from. */
    method BindOrDestroy(i: nat, calls: BindCalls) returns (h: Option<nat>)
      requires Valid() && i < |publications| && publications[i].Some?
      modifies this`publications, this`handles, this`released, this`fates, this`log, host`objects
      ensures Valid() && Evolves(old(AllBooks()), AllBooks())
      ensures h.Some? <==> Binds(old(publications)[i].value, calls)
      ensures handles == old(handles) + if h.Some? then [old(publications)[i]] else []
      ensures host.objects == Drop(old(host.objects), if h.Some? then None else old(publications)[i])
    {
      h := MakeBound(i, calls);
      if h.None? {
        DestroyPublication(i);
      }
    }

    // ----- releasing -----

    /** The completion event was recorded: the item goes to the queue. */
    method Enqueue(i: nat, r: Ref, ghost b: Books, ghost c: ReleaseCalls)
      requires Tied() && Has(b.places.handles, i, r) && r.context && RecordedOk(c) && r.id < |b.fates|
      requires AllBooks() == b.(log := b.log + RecordCalls(r.id, c))
      modifies this`handles, this`items, this`turns, this`fates
      ensures Tied() && AllBooks() == Enqueued(b, i, c, r)
    {
      fates := fates[r.id := Fate(r, Queued(|turns|), true, Some(|turns|))];
      handles, items, turns := handles[i := None], items + [r], turns + [r];
      assert AllBooks() == Enqueued(b, i, c, r);
    }

    /** The completion event could not be recorded: the item is retained. */
    method RetainFailed(i: nat, r: Ref, ghost b: Books, ghost c: ReleaseCalls)
      requires Tied() && Has(b.places.handles, i, r) && r.context && !RecordedOk(c) && r.id < |b.fates|
      requires AllBooks() == b.(log := b.log + RecordCalls(r.id, c))
      modifies this`handles, this`failed, this`fates
      ensures Tied() && AllBooks() == RetainedHandle(b, i, c, r)
    {
      fates := fates[r.id := Fate(r, Retained(|failed|), true, None)];
      handles, failed := handles[i := None], failed + [r];
      assert AllBooks() == RetainedHandle(b, i, c, r);
    }

    /** There is no completion event: the reference is released at once. */
    method ReleaseNow(i: nat, r: Ref)
      requires Valid() && Has(handles, i, r) && !r.context
      modifies this`handles, this`released, this`fates, this`log, host`objects
      ensures Valid() && Evolves(old(AllBooks()), AllBooks())
      ensures r.id < |old(fates)| && AllBooks() == ReleasedNow(old(AllBooks()), i, r)
    {
      KnownRef(AllBooks(), r, InHandle(i));
      ReleaseKeeps(AllBooks(), i, r);
      ReturnHandle(i, r);
    }

    method ReturnHandle(i: nat, r: Ref)
      requires Tied() && Has(handles, i, r) && !r.context && r.id < |fates| && r.object_ in host.objects
      modifies this`handles, this`released, this`fates, this`log, host`objects
      ensures Tied() && AllBooks() == ReleasedNow(old(AllBooks()), i, r)
    {
      ReturnUnit(r);
      fates := fates[r.id := Fate(r, Released(|released|), true, None)];
      handles, released := handles[i := None], released + [r];
    }

    /** What becomes of the reference in `slot` when its handle is released. */
    twostate predicate HandleReleased(slot: Option<Ref>, calls: ReleaseCalls)
      reads this, host
    {
      var outcome := Outcome(slot, calls);
      && released == old(released) + Listed(if outcome == Now then slot else None)
      && turns == old(turns) + Listed(if outcome == Later then slot else None)
      && failed == old(failed) + Listed(if outcome == Never then slot else None)
      && host.objects == Drop(old(host.objects), if outcome == Now then slot else None)
    }

    /**
     `Impl::release`: a handle without completion event drops its reference; one
     with an event hands it to the worker if the event was recorded, and otherwise
     retains it.
     */
    method ReleaseHandle(i: nat, calls: ReleaseCalls)
      requires Valid() && i < |handles|
      modifies this`handles, this`items, this`failed, this`released, this`turns, this`fates, this`log, host`objects
      ensures Valid() && Evolves(old(AllBooks()), AllBooks())
      ensures handles == old(handles)[i := None] && HandleReleased(old(handles)[i], calls)
    {
      var slot := handles[i];
      if slot.None? {
        assert handles[i := None] == handles;
        return;
      }
      if !slot.value.context {
        ReleaseNow(i, slot.value);
      } else {
        ReleaseDeferred(i, slot.value, calls);
      }
    }

    /** `submit`. */
    method ReleaseDeferred(i: nat, r: Ref, calls: ReleaseCalls)
      requires Valid() && Has(handles, i, r) && r.context
      modifies this`handles, this`items, this`failed, this`turns, this`fates, this`log
      ensures Valid() && Evolves(old(AllBooks()), AllBooks())
      ensures handles == old(handles)[i := None]
      ensures turns == old(turns) + (if RecordedOk(calls) then [r] else [])
      ensures failed == old(failed) + (if RecordedOk(calls) then [] else [r])
    {
      SubmitKeeps(AllBooks(), i, calls, r);
      Submit(i, r, calls);
    }

    method Submit(i: nat, r: Ref, calls: ReleaseCalls)
      requires Tied() && Has(handles, i, r) && r.context && r.id < |fates|
      modifies this`handles, this`items, this`failed, this`turns, this`fates, this`log
      ensures Tied() && AllBooks() == Submitted(old(AllBooks()), i, calls, r)
    {
      ghost var b := AllBooks();
      var ok := RecordEvent(r, calls);
      if ok {
        Enqueue(i, r, b, calls);
      } else {
        RetainFailed(i, r, b, calls);
      }
    }

    method MoveConstructHandle(i: nat)
      requires Valid() && i < |handles|
      modifies this`handles, this`fates
      ensures Valid() && Evolves(old(AllBooks()), AllBooks())
      ensures handles == old(handles)[i := None] + [old(handles)[i]]
    {
      ghost var b := AllBooks();
      EmptyHandleKeeps(b);
      handles := handles + [None];
      ghost var c := AllBooks();
      assert c == b.(places := b.places.(handles := b.places.handles + [None]));
      MoveHandle(i, |handles| - 1);
      EvolvesThen(b, c, AllBooks());
    }

    /** Moves a handle into an empty slot. */
    method MoveHandle(i: nat, j: nat)
      requires Valid() && i < |handles| && j < |handles| && i != j && handles[j].None?
      modifies this`handles, this`fates
      ensures Valid() && Evolves(old(AllBooks()), AllBooks())
      ensures handles == old(handles)[j := old(handles)[i]][i := None]
    {
      var slot := handles[i];
      if slot.None? {
        assert handles[j := slot][i := None] == handles;
        return;
      }
      ShiftHandleKeeps(AllBooks(), i, j, slot.value);
      ShiftHandle(i, j, slot.value);
    }

    method ShiftHandle(i: nat, j: nat, r: Ref)
      requires Tied() && Has(handles, i, r) && Vacant(handles, j) && r.id < |fates|
      modifies this`handles, this`fates
      ensures Tied() && AllBooks() == ShiftedHandle(old(AllBooks()), i, j, r)
    {
      fates := fates[r.id := Fate(r, InHandle(j), true, None)];
      handles := handles[j := Some(r)][i := None];
      assert log == old(log) + [];
    }

    /** Move assignment between handles: the target's reference goes where its own destructor would send it. */
    method MoveAssignHandle(i: nat, j: nat, calls: ReleaseCalls)
      requires Valid() && i < |handles| && j < |handles| && i != j
      modifies this`handles, this`items, this`failed, this`released, this`turns, this`fates, this`log, host`objects
      ensures Valid() && Evolves(old(AllBooks()), AllBooks())
      ensures handles == old(handles)[j := old(handles)[i]][i := None]
      ensures HandleReleased(old(handles)[j], calls)
    {
      ghost var b := AllBooks();
      ReleaseHandle(j, calls);
      ghost var c := AllBooks();
      MoveHandle(i, j);
      EvolvesThen(b, c, AllBooks());
    }

    // ----- the worker -----

    /** The worker waits for an item and takes the oldest. */
    method Take()
      requires Valid() && inHand.None? && items != []
      modifies this`items, this`inHand, this`taken, this`fates
      ensures Valid() && Evolves(old(AllBooks()), AllBooks())
      ensures inHand == Some(old(items)[0]) && items == old(items)[1..] && taken == old(taken) + 1
    {
      var r := items[0];
      TakeKeeps(AllBooks(), r);
      PopItem(r);
    }

    method PopItem(r: Ref)
      requires Tied() && inHand.None? && items != [] && r == items[0] && r.id < |fates|
      modifies this`items, this`inHand, this`taken, this`fates
      ensures Tied() && MayTake(old(AllBooks()).places, r) && AllBooks() == Taken(old(AllBooks()), r)
      ensures inHand == Some(r) && items == old(items)[1..] && taken == old(taken) + 1
    {
      fates := fates[r.id := Fate(r, InHand, true, Some(taken))];
      items, inHand, taken := items[1..], Some(r), taken + 1;
      assert log == old(log) + [];
    }

    /** The worker drops what it took once its event has completed, and retains it when it cannot tell. */
    method Finish(calls: WaitCalls)
      requires Valid() && inHand.Some?
      modifies this`inHand, this`failed, this`released, this`fates, this`log, host`objects
      ensures Valid() && Evolves(old(AllBooks()), AllBooks()) && inHand.None?
      ensures released == old(released) + Listed(if Completed(calls) then old(inHand) else None)
      ensures failed == old(failed) + Listed(if Completed(calls) then None else old(inHand))
      ensures host.objects == Drop(old(host.objects), if Completed(calls) then old(inHand) else None)
    {
      var r := inHand.value;
      SettleKeeps(AllBooks(), calls, r);
      WaitAndSettle(r, calls);
    }

    method WaitAndSettle(r: Ref, calls: WaitCalls)
      requires Tied() && inHand == Some(r) && taken > 0 && r.id < |fates| && r.object_ in host.objects
      modifies this`inHand, this`failed, this`released, this`fates, this`log, host`objects
      ensures Tied() && AllBooks() == Settled(old(AllBooks()), calls, r)
    {
      ghost var b := AllBooks();
      var ok := Wait(r, calls);
      if ok {
        ReleaseItem(r, b, calls);
      } else {
        RetainItem(r, b, calls);
      }
    }

    method RetainItem(r: Ref, ghost b: Books, ghost c: WaitCalls)
      requires Tied() && InTheHand(b.places, r) && !Completed(c) && r.id < |b.fates| && r.object_ in b.objects
      requires AllBooks() == b.(log := b.log + SynchroniseCalls(r.id, c))
      modifies this`inHand, this`failed, this`fates
      ensures Tied() && AllBooks() == RetainedTaken(b, c, r)
    {
      fates := fates[r.id := Fate(r, Retained(|failed|), true, Some(taken - 1))];
      inHand, failed := None, failed + [r];
      assert AllBooks() == RetainedTaken(b, c, r);
    }

    method ReleaseItem(r: Ref, ghost b: Books, ghost c: WaitCalls)
      requires Tied() && InTheHand(b.places, r) && Completed(c) && r.id < |b.fates| && r.object_ in b.objects
      requires AllBooks() == b.(log := b.log + SynchroniseCalls(r.id, c))
      modifies this`inHand, this`released, this`fates, this`log, host`objects
      ensures Tied() && AllBooks() == ReleasedTaken(b, c, r)
    {
      ReturnUnit(r);
      fates := fates[r.id := Fate(r, Released(|released|), true, Some(taken - 1))];
      inHand, released := None, released + [r];
      assert b.log + SynchroniseCalls(r.id, c) + [Return(r.id)] == b.log + (SynchroniseCalls(r.id, c) + [Return(r.id)]);
      assert AllBooks() == ReleasedTaken(b, c, r);
    }

    /** One turn of the worker's loop. */
    method RunOnce(calls: WaitCalls)
      requires Valid() && inHand.None? && items != []
      modifies this`items, this`inHand, this`taken, this`failed, this`released, this`fates, this`log, host`objects
      ensures Valid() && Evolves(old(AllBooks()), AllBooks()) && inHand.None? && items == old(items)[1..]
      ensures released == old(released) + (if Completed(calls) then [old(items)[0]] else [])
      ensures failed == old(failed) + (if Completed(calls) then [] else [old(items)[0]])
    {
      ghost var b := AllBooks();
      Take();
      ghost var c := AllBooks();
      Finish(calls);
      EvolvesThen(b, c, AllBooks());
    }

    /**
     The worker's loop until the queue is empty: the items are taken in the order
     in which they were enqueued, and each is released or retained as its own
     calls decide.
     */
    method Run(calls: nat -> WaitCalls)
      requires Valid() && inHand.None?
      modifies this`items, this`inHand, this`taken, this`failed, this`released, this`fates, this`log, host`objects
      ensures Valid() && Evolves(old(AllBooks()), AllBooks()) && inHand.None? && items == [] && taken == |turns|
      ensures released == old(released) + Selected(old(items), calls, true, 0)
      ensures failed == old(failed) + Selected(old(items), calls, false, 0)
    {
      ghost var b := AllBooks();
      var k := 0;
      while items != []
        invariant Valid() && inHand.None? && Evolves(b, AllBooks())
        invariant released + Selected(items, calls, true, k) == old(released) + Selected(old(items), calls, true, 0)
        invariant failed + Selected(items, calls, false, k) == old(failed) + Selected(old(items), calls, false, 0)
        decreases |items|
      {
        ghost var c := AllBooks();
        SelectedStep(items, calls, k, released, failed);
        RunOnce(calls(k));
        EvolvesThen(b, c, AllBooks());
        k := k + 1;
      }
    }

    // ----- other processes -----

    /** Other processes and publishers change what they hold and the rest of the words. */
    method Interfere(object_: nat, uid: nat, stamp: nat, held: nat)
      requires Valid() && object_ in host.objects
      modifies host`objects, this`others
      ensures Valid() && Evolves(old(AllBooks()), AllBooks())
      ensures others == old(others)[object_ := held]
    {
      InterferenceKeeps(AllBooks(), object_, uid, stamp, held);
      var words := host.objects[object_];
      host.objects := host.objects[object_ := Words(uid, words.refcount - others[object_] + held, stamp)];
      others := others[object_ := held];
    }

    // ----- whole runs -----

    /** What each operation does; one whose publication, handle or object does not exist does nothing. */
    twostate predicate Effect(op: Op)
      reads this, host
    {
      match op
      case Map(mapping, uid, calls, bindCalls) =>
        var r := Ref(old(acquired), if mapping.Some? then mapping.value else 0, uid, calls.context);
        handles == old(handles) + if old(Acquires(mapping, uid, calls)) && Binds(r, bindCalls) then [Some(r)] else []
      case Acquire(mapping, uid, calls) =>
        var r := Ref(old(acquired), if mapping.Some? then mapping.value else 0, uid, calls.context);
        publications == old(publications) + if old(Acquires(mapping, uid, calls)) then [Some(r)] else []
      case Bind(i, calls) =>
        var slot := if i < |old(publications)| then old(publications)[i] else None;
        if slot.Some? && Binds(slot.value, calls) then
          publications == Emptied(old(publications), i) && handles == old(handles) + [slot]
        else publications == old(publications) && handles == old(handles)
      case DestroyPublication(i) => publications == Emptied(old(publications), i)
      case MovePublication(i, j) => publications == Moved(old(publications), i, j)
      case DestroyHandle(i, _) => handles == Emptied(old(handles), i)
      case MoveConstructHandle(i) =>
        handles == if i < |old(handles)| then old(handles)[i := None] + [old(handles)[i]] else old(handles)
      case MoveAssignHandle(i, j, _) => handles == Moved(old(handles), i, j)
      case Take => taken == old(taken) + if old(inHand).None? && old(items) != [] then 1 else 0
      case Finish(_) => inHand.None?
      case Interfere(object_, _, _, held) =>
        others == if object_ in old(host.objects) then old(others)[object_ := held] else old(others)
    }

    /** An acquisition of a publication succeeds. */
    predicate Acquires(mapping: Option<nat>, uid: nat, calls: MapCalls)
      reads this, host
    {
      && mapping.Some? && mapping.value in host.objects
      && AcquireWords(host.objects[mapping.value], uid).1 && calls.imported && calls.hasPointer
    }

    /** One operation. */
    method Perform(op: Op)
      requires Valid()
      modifies this, host`objects
      ensures Valid() && Evolves(old(AllBooks()), AllBooks())
      ensures Effect(op) && history == old(history) + [op]
    {
      history := history + [op];
      match op {
        case Map(_, _, _, _) => PerformMapping(op);
        case Acquire(_, _, _) => PerformMapping(op);
        case Bind(_, _) => PerformMapping(op);
        case DestroyPublication(_) => PerformMapping(op);
        case MovePublication(_, _) => PerformMapping(op);
        case _ => PerformReading(op);
      }
    }

    predicate PublicationOp(op: Op) {
      op.Map? || op.Acquire? || op.Bind? || op.DestroyPublication? || op.MovePublication?
    }

    /** The operations on publications. */
    method PerformMapping(op: Op)
      requires Valid()
      modifies this`publications, this`handles, this`acquired, this`released, this`fates, this`log, host`objects
      ensures Valid() && Evolves(old(AllBooks()), AllBooks())
      ensures PublicationOp(op) ==> Effect(op)
    {
      match op {
        case Map(mapping, uid, calls, bindCalls) =>
          if mapping.None? || mapping.value in host.objects {
            var h := Map(mapping, uid, calls, bindCalls);
          }
        case Acquire(mapping, uid, calls) =>
          if mapping.None? || mapping.value in host.objects {
            var p := AcquirePublication(mapping, uid, calls);
          }
        case Bind(i, calls) =>
          if i < |publications| {
            var h := MakeBound(i, calls);
          }
        case DestroyPublication(i) =>
          if i < |publications| {
            DestroyPublication(i);
          }
        case MovePublication(i, j) =>
          if i < |publications| && j < |publications| && i != j {
            MoveAssignPublication(i, j);
          }
        case _ =>
      }
    }

    /** The operations on handles, the worker's and those of others. */
    method PerformReading(op: Op)
      requires Valid()
      modifies this`handles, this`items, this`inHand, this`taken, this`failed, this`released, this`turns, this`fates,
               this`log, this`others, host`objects
      ensures Valid() && Evolves(old(AllBooks()), AllBooks())
      ensures !PublicationOp(op) ==> Effect(op)
    {
      match op {
        case DestroyHandle(i, calls) =>
          if i < |handles| {
            ReleaseHandle(i, calls);
          }
        case MoveConstructHandle(i) =>
          if i < |handles| {
            MoveConstructHandle(i);
          }
        case MoveAssignHandle(i, j, calls) =>
          if i < |handles| && j < |handles| && i != j {
            MoveAssignHandle(i, j, calls);
          }
        case Take =>
          if inHand.None? && items != [] {
            Take();
          }
        case Finish(calls) =>
          if inHand.Some? {
            Finish(calls);
          }
        case Interfere(object_, uid, stamp, held) =>
          if object_ in host.objects {
            Interfere(object_, uid, stamp, held);
          }
        case _ =>
      }
    }

    /** Any sequence of operations. */
    method Execute(ops: seq<Op>)
      requires Valid()
      modifies this, host`objects
      ensures Valid() && Evolves(old(AllBooks()), AllBooks()) && history == old(history) + ops
    {
      ghost var b := AllBooks();
      for k := 0 to |ops|
        invariant Valid() && Evolves(b, AllBooks()) && history == old(history) + ops[..k]
      {
        ghost var c := AllBooks();
        Perform(ops[k]);
        assert ops[..k + 1] == ops[..k] + [ops[k]];
        EvolvesThen(b, c, AllBooks());
      }
      assert ops[..|ops|] == ops;
    }
  }

  lemma KnownRef(b: Books, r: Ref, place: Place)
    requires Right(b) && Found(b.places, r, place) && !place.Queued?
    ensures r.id < |b.fates| && r.object_ in b.objects
  {
    RightMeans(b);
    assert At(b.fates, r, place);
  }

  lemma AcquireThenDrop(objects: map<nat, Words>, r: Ref)
    requires r.object_ in objects
    ensures Drop(objects[r.object_ := AcquireWords(objects[r.object_], r.uid).0], Some(r)) ==
            if AcquireWords(objects[r.object_], r.uid).1 then objects else Drop(objects, Some(r))
  {
    assert objects[r.object_ := objects[r.object_]] == objects;
  }

  function Listed(r: Option<Ref>): seq<Ref> {
    if r.None? then [] else [r.value]
  }
}
