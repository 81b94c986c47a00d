/**
 Where every reference that a subscriber has acquired is: in a mapped publication,
 in a read handle, queued for the release worker, in the worker's hands, retained
 after a failure, or released; and which driver calls have been made for it.
 */
module ReadLedger {
  import opened Machine
  import opened BlockWords

  /** One successful `BufferRef::acquire`; a resource with a context gets a completion event when it is bound. */
  datatype Ref = Ref(id: nat, object_: nat, uid: nat, context: bool)

  /** How the calls go that record a completion event and that wait for it. */
  datatype ReleaseCalls = ReleaseCalls(pushed: bool, recorded: bool)
  datatype WaitCalls = WaitCalls(pushed: bool, synchronised: bool)

  /** A call made for the reference `id`: its context pushed, its event recorded or synchronised, its unit returned. */
  datatype Call =
    | Push(id: nat, ok: bool)
    | Record(id: nat, ok: bool)
    | Synchronise(id: nat, ok: bool)
    | Return(id: nat)

  /** A reference's place; the numbers are positions. */
  datatype Place =
    | InPublication(slot: nat)
    | InHandle(slot: nat)
    | Queued(turn: nat)
    | InHand
    | Retained(position: nat)
    | Released(position: nat)

  /** Where a reference is, whether it has been bound, and its turn in the queue if it has been enqueued. */
  datatype Fate = Fate(ref: Ref, place: Place, bound: bool, turn: Option<nat>)

  /** `turns` are all items ever enqueued, of which the worker has taken the first `taken`. */
  datatype Places = Places(
    publications: seq<Option<Ref>>,
    handles: seq<Option<Ref>>,
    turns: seq<Ref>,
    taken: nat,
    inHand: Option<Ref>,
    failed: seq<Ref>,
    released: seq<Ref>)

  /** Everything about the references of a process, the calls made for them in order, and the shared words. */
  datatype Books = Books(
    places: Places,
    fates: seq<Fate>,
    log: seq<Call>,
    objects: map<nat, Words>,
    others: map<nat, nat>)

  // ----- places -----

  predicate At(fates: seq<Fate>, r: Ref, place: Place) {
    r.id < |fates| && fates[r.id].ref == r && fates[r.id].place == place
  }

  /** What each place holds is recorded as being there, hence nowhere else. */
  ghost predicate Placed(p: Places, fates: seq<Fate>) {
    && p.taken <= |p.turns|
    && (forall i :: 0 <= i < |p.publications| && p.publications[i].Some? ==>
          At(fates, p.publications[i].value, InPublication(i)))
    && (forall i :: 0 <= i < |p.handles| && p.handles[i].Some? ==> At(fates, p.handles[i].value, InHandle(i)))
    && (forall k :: p.taken <= k < |p.turns| ==> At(fates, p.turns[k], Queued(k)))
    && (p.inHand.Some? ==> At(fates, p.inHand.value, InHand) && p.taken > 0 && p.turns[p.taken - 1] == p.inHand.value)
    && (forall k :: 0 <= k < |p.failed| ==> At(fates, p.failed[k], Retained(k)))
    && (forall k :: 0 <= k < |p.released| ==> At(fates, p.released[k], Released(k)))
  }

  /** Every reference is where it is recorded to be. */
  predicate Found(p: Places, r: Ref, place: Place) {
    match place
    case InPublication(i) => i < |p.publications| && p.publications[i] == Some(r)
    case InHandle(i) => i < |p.handles| && p.handles[i] == Some(r)
    case Queued(k) => p.taken <= k < |p.turns| && p.turns[k] == r
    case InHand => p.inHand == Some(r)
    case Retained(k) => k < |p.failed| && p.failed[k] == r
    case Released(k) => k < |p.released| && p.released[k] == r
  }

  /** How many items the worker is done with. */
  function Finished(p: Places): int {
    if p.inHand.Some? then p.taken - 1 else p.taken
  }

  /** A reference has a turn if and only if it has been enqueued, which takes a binding and a completion event. */
  predicate TurnOk(p: Places, f: Fate) {
    && (f.turn.Some? ==> f.bound && f.ref.context && f.turn.value < |p.turns| && p.turns[f.turn.value] == f.ref)
    && match f.place
       case InPublication(_) => !f.bound && f.turn.None?
       case InHandle(_) => f.bound && f.turn.None?
       case Queued(k) => f.turn == Some(k)
       case InHand => f.turn.Some? && f.turn.value == p.taken - 1
       case Retained(_) => f.bound && f.ref.context
       case Released(_) =>
         && (f.bound && f.ref.context ==> f.turn.Some?)
         && (f.turn.Some? ==> f.turn.value < Finished(p))
  }

  /** Queue items are released in the order in which they were enqueued. */
  predicate Ordered(p: Places, fates: seq<Fate>) {
    && (forall k :: 0 <= k < |p.released| ==> p.released[k].id < |fates|)
    && (forall k, l :: 0 <= k < l < |p.released| ==>
          Precedes(fates[p.released[k].id].turn, fates[p.released[l].id].turn))
  }

  predicate Precedes(a: Option<nat>, b: Option<nat>) {
    a.Some? && b.Some? ==> a.value < b.value
  }

  /** Every reference is in exactly one place, and queue items keep their order. */
  ghost predicate Sound(p: Places, fates: seq<Fate>) {
    && Placed(p, fates) && Ordered(p, fates)
    && (forall r :: 0 <= r < |fates| ==>
          fates[r].ref.id == r && Found(p, fates[r].ref, fates[r].place) && TurnOk(p, fates[r]))
  }

  /** A reference is found in the place recorded for it and in no other. */
  lemma ExactlyOnePlace(p: Places, fates: seq<Fate>, r: nat, place: Place)
    requires Sound(p, fates) && r < |fates|
    ensures Found(p, fates[r].ref, place) <==> place == fates[r].place
  {
    assert fates[r].ref.id == r;
  }

  // ----- calls -----

  /** The calls made for one reference, in order. */
  function CallsFor(log: seq<Call>, id: nat): seq<Call> {
    if log == [] then []
    else
      var n := |log| - 1;
      CallsFor(log[..n], id) + if log[n].id == id then [log[n]] else []
  }

  function RecordCalls(id: nat, calls: ReleaseCalls): seq<Call> {
    [Push(id, calls.pushed)] + if calls.pushed then [Record(id, calls.recorded)] else []
  }

  function SynchroniseCalls(id: nat, calls: WaitCalls): seq<Call> {
    [Push(id, calls.pushed)] + if calls.pushed then [Synchronise(id, calls.synchronised)] else []
  }

  predicate RecordedOk(calls: ReleaseCalls) {
    calls.pushed && calls.recorded
  }

  /** The worker could wait for the item's event to complete. */
  predicate Completed(calls: WaitCalls) {
    calls.pushed && calls.synchronised
  }

  /**
   The only calls that can have been made for a reference where it is: an item is
   queued after its event was recorded and released after that event was
   synchronised; after a failed call it is retained, and nothing more is called.
   */
  ghost predicate Legal(f: Fate, calls: seq<Call>) {
    var id := f.ref.id;
    var recorded := RecordCalls(id, ReleaseCalls(true, true));
    match f.place
    case InPublication(_) => calls == []
    case InHandle(_) => calls == []
    case Queued(_) => calls == recorded
    case InHand => calls == recorded
    case Retained(_) =>
      if f.turn.None? then exists c :: !RecordedOk(c) && calls == RecordCalls(id, c)
      else exists c :: !Completed(c) && calls == recorded + SynchroniseCalls(id, c)
    case Released(_) =>
      calls == (if f.turn.None? then [] else recorded + SynchroniseCalls(id, WaitCalls(true, true))) + [Return(id)]
  }

  ghost predicate Logged(log: seq<Call>, fates: seq<Fate>) {
    && (forall i :: 0 <= i < |log| ==> log[i].id < |fates|)
    && (forall r :: 0 <= r < |fates| ==> Legal(fates[r], CallsFor(log, r)))
  }

  lemma {:induction false} CallsAppend(log: seq<Call>, more: seq<Call>, id: nat)
    ensures CallsFor(log + more, id) == CallsFor(log, id) + CallsFor(more, id)
    decreases |more|
  {
    if more == [] {
      assert log + more == log;
    } else {
      var n := |more| - 1;
      CallsAppend(log, more[..n], id);
      assert (log + more)[..|log| + n] == log + more[..n];
    }
  }

  lemma {:induction false} OwnCalls(more: seq<Call>, id: nat, other: nat)
    requires forall i :: 0 <= i < |more| ==> more[i].id == id
    ensures CallsFor(more, other) == if other == id then more else []
    decreases |more|
  {
    if more != [] {
      OwnCalls(more[..|more| - 1], id, other);
    }
  }

  lemma {:induction false} NoCalls(log: seq<Call>, id: nat)
    requires forall i :: 0 <= i < |log| ==> log[i].id != id
    ensures CallsFor(log, id) == []
    decreases |log|
  {
    if log != [] {
      NoCalls(log[..|log| - 1], id);
    }
  }

  /** A call is among those made for its reference. */
  lemma {:induction false} CallIsListed(log: seq<Call>, m: nat)
    requires m < |log|
    ensures log[m] in CallsFor(log, log[m].id)
    decreases |log|
  {
    if m < |log| - 1 {
      CallIsListed(log[..|log| - 1], m);
    }
  }

  /** The calls made for a reference are in the log in the same order. */
  lemma {:induction false} CallPositions(log: seq<Call>, id: nat) returns (p: seq<nat>)
    ensures |p| == |CallsFor(log, id)|
    ensures forall i :: 0 <= i < |p| ==> p[i] < |log| && log[p[i]] == CallsFor(log, id)[i]
    ensures forall i, j :: 0 <= i < j < |p| ==> p[i] < p[j]
    ensures forall m: nat :: m < |log| && log[m].id == id ==> m in p
    decreases |log|
  {
    p := [];
    if log != [] {
      var n := |log| - 1;
      p := CallPositions(log[..n], id);
      ghost var before := p;
      if log[n].id == id {
        p := p + [n];
        assert p[|before|] == n;
      }
      forall m: nat | m < n && log[m].id == id ensures m in p {
        assert log[..n][m] == log[m];
      }
    }
  }

  /** Calls for one reference that fit its next place keep the log legal. */
  lemma LogGrows(log: seq<Call>, fates: seq<Fate>, f: Fate, more: seq<Call>)
    requires Logged(log, fates) && f.ref.id < |fates|
    requires forall i :: 0 <= i < |more| ==> more[i].id == f.ref.id
    requires Legal(f, CallsFor(log, f.ref.id) + more)
    ensures Logged(log + more, fates[f.ref.id := f])
  {
    var fates' := fates[f.ref.id := f];
    forall r | 0 <= r < |fates'| ensures Legal(fates'[r], CallsFor(log + more, r)) {
      CallsAppend(log, more, r);
      OwnCalls(more, f.ref.id, r);
      assert CallsFor(log, r) + [] == CallsFor(log, r);
    }
  }

  // ----- counts -----

  /** The references on one object that have not been released. */
  function Live(fates: seq<Fate>, object_: nat): nat {
    if fates == [] then 0
    else Live(fates[..|fates| - 1], object_) + One(fates[|fates| - 1], object_)
  }

  function One(f: Fate, object_: nat): nat {
    if f.ref.object_ == object_ && !f.place.Released? then 1 else 0
  }

  /** Each object's count is the references held here plus those held by others. */
  predicate Counted(objects: map<nat, Words>, fates: seq<Fate>, others: map<nat, nat>) {
    && objects.Keys == others.Keys
    && (forall r :: 0 <= r < |fates| ==> fates[r].ref.object_ in objects)
    && (forall o :: o in objects ==> objects[o].refcount == Live(fates, o) + others[o])
  }

  lemma {:induction false} LiveUpdate(fates: seq<Fate>, r: nat, f: Fate, object_: nat)
    requires r < |fates|
    ensures Live(fates[r := f], object_) + One(fates[r], object_) == Live(fates, object_) + One(f, object_)
  {
    var n := |fates| - 1;
    if r == n {
      assert fates[r := f][..n] == fates[..n];
    } else {
      LiveUpdate(fates[..n], r, f, object_);
      assert fates[r := f][..n] == fates[..n][r := f];
    }
  }

  /** The objects after a reference, if there is one, has been released. */
  function Drop(objects: map<nat, Words>, r: Option<Ref>): map<nat, Words> {
    if r.None? || r.value.object_ !in objects then objects
    else objects[r.value.object_ := DropWords(objects[r.value.object_])]
  }

  /** `BufferRef::release` of an unreleased reference takes exactly its own unit back, without underflow. */
  lemma ReleaseKeepsCount(objects: map<nat, Words>, fates: seq<Fate>, others: map<nat, nat>, f: Fate)
    requires Counted(objects, fates, others)
    requires f.ref.id < |fates| && fates[f.ref.id].ref == f.ref && !fates[f.ref.id].place.Released? && f.place.Released?
    ensures objects[f.ref.object_].refcount > 0
    ensures Counted(Drop(objects, Some(f.ref)), fates[f.ref.id := f], others)
  {
    forall o | o in objects
      ensures Live(fates[f.ref.id := f], o) == Live(fates, o) - if f.ref.object_ == o then 1 else 0
    {
      LiveUpdate(fates, f.ref.id, f, o);
    }
  }

  /** A move changes no count. */
  lemma MoveKeepsCount(objects: map<nat, Words>, fates: seq<Fate>, others: map<nat, nat>, f: Fate)
    requires Counted(objects, fates, others)
    requires f.ref.id < |fates| && fates[f.ref.id].ref == f.ref
    requires !fates[f.ref.id].place.Released? && !f.place.Released?
    ensures Counted(objects, fates[f.ref.id := f], others)
  {
    forall o | o in objects ensures Live(fates[f.ref.id := f], o) == Live(fates, o) {
      LiveUpdate(fates, f.ref.id, f, o);
    }
  }

  /** A successful `BufferRef::acquire` adds exactly one unit. */
  lemma AcquireKeepsCount(objects: map<nat, Words>, fates: seq<Fate>, others: map<nat, nat>, f: Fate)
    requires Counted(objects, fates, others) && f.ref.object_ in objects && !f.place.Released?
    requires AcquireWords(objects[f.ref.object_], f.ref.uid).1
    ensures Counted(objects[f.ref.object_ := AcquireWords(objects[f.ref.object_], f.ref.uid).0], fates + [f], others)
  {
    var fates' := fates + [f];
    assert fates'[..|fates'| - 1] == fates;
  }

  // ----- the books -----

  /** The three accounts that the books keep. */
  datatype Account = Placement | Logging | Counting

  ghost predicate Balanced(b: Books, a: Account) {
    match a
    case Placement => Sound(b.places, b.fates)
    case Logging => Logged(b.log, b.fates)
    case Counting => Counted(b.objects, b.fates, b.others)
  }

  /** The invariant of every run. */
  ghost predicate Right(b: Books) {
    forall a: Account :: Balanced(b, a)
  }

  lemma RightMeans(b: Books)
    ensures Right(b) <==>
            Sound(b.places, b.fates) && Logged(b.log, b.fates) && Counted(b.objects, b.fates, b.others)
  {
    assert Balanced(b, Placement) == Sound(b.places, b.fates);
    assert Balanced(b, Logging) == Logged(b.log, b.fates);
    assert Balanced(b, Counting) == Counted(b.objects, b.fates, b.others);
  }

  /** Neither released nor retained for good. */
  predicate Free(f: Fate) {
    !f.place.Released? && !f.place.Retained?
  }

  /** A released reference stays released, a retained one is never released, and calls are only added. */
  predicate Evolves(before: Books, after: Books) {
    && |before.fates| <= |after.fates| && before.log <= after.log
    && before.places.turns <= after.places.turns && before.places.released <= after.places.released
    && forall r :: 0 <= r < |before.fates| ==>
         && after.fates[r].ref == before.fates[r].ref
         && (!Free(before.fates[r]) ==> after.fates[r].place == before.fates[r].place)
  }

  lemma EvolvesThen(a: Books, b: Books, c: Books)
    requires Evolves(a, b) && Evolves(b, c)
    ensures Evolves(a, c)
  {
  }

  /** The books after `calls` were made for the reference of `f`, which now is where `f` says. */
  function After(b: Books, p: Places, f: Fate, calls: seq<Call>): Books
    requires f.ref.id < |b.fates|
  {
    Books(p, b.fates[f.ref.id := f], b.log + calls,
          if f.place.Released? then Drop(b.objects, Some(f.ref)) else b.objects, b.others)
  }

  lemma CountAfter(b: Books, p: Places, f: Fate, calls: seq<Call>)
    requires Counted(b.objects, b.fates, b.others)
    requires f.ref.id < |b.fates| && b.fates[f.ref.id].ref == f.ref && !b.fates[f.ref.id].place.Released?
    ensures var a := After(b, p, f, calls); Counted(a.objects, a.fates, a.others)
  {
    if f.place.Released? {
      ReleaseKeepsCount(b.objects, b.fates, b.others, f);
    } else {
      MoveKeepsCount(b.objects, b.fates, b.others, f);
    }
  }

  lemma EvolvesAfter(b: Books, p: Places, f: Fate, calls: seq<Call>)
    requires f.ref.id < |b.fates| && b.fates[f.ref.id].ref == f.ref && Free(b.fates[f.ref.id])
    requires b.places.turns <= p.turns && b.places.released <= p.released
    ensures Evolves(b, After(b, p, f, calls))
  {
  }

  /** The calls made so far for a reference that is free. */
  function CallsSoFar(f: Fate): seq<Call> {
    if f.place.Queued? || f.place.InHand? then RecordCalls(f.ref.id, ReleaseCalls(true, true)) else []
  }

  lemma FreeCalls(log: seq<Call>, fates: seq<Fate>, id: nat)
    requires Logged(log, fates) && id < |fates| && fates[id].ref.id == id && Free(fates[id])
    ensures CallsFor(log, id) == CallsSoFar(fates[id])
  {
    assert Legal(fates[id], CallsFor(log, id));
  }

  /** A free reference may go from `from` to `to` with these calls. */
  ghost predicate MayGo(from: Fate, to: Fate, calls: seq<Call>) {
    && from.ref == to.ref && Free(from)
    && (forall i :: 0 <= i < |calls| ==> calls[i].id == to.ref.id)
    && Legal(to, CallsSoFar(from) + calls)
  }

  lemma AfterKeeps(b: Books, p: Places, f: Fate, calls: seq<Call>)
    requires Right(b) && f.ref.id < |b.fates| && MayGo(b.fates[f.ref.id], f, calls)
    requires Sound(p, b.fates[f.ref.id := f])
    requires b.places.turns <= p.turns && b.places.released <= p.released
    ensures Right(After(b, p, f, calls)) && Evolves(b, After(b, p, f, calls))
  {
    RightMeans(b);
    FreeCalls(b.log, b.fates, f.ref.id);
    LogGrows(b.log, b.fates, f, calls);
    CountAfter(b, p, f, calls);
    RightMeans(After(b, p, f, calls));
    EvolvesAfter(b, p, f, calls);
  }

  // ----- what each operation keeps -----

  predicate Has(slots: seq<Option<Ref>>, i: nat, r: Ref) {
    i < |slots| && slots[i] == Some(r)
  }

  predicate Vacant(slots: seq<Option<Ref>>, i: nat) {
    i < |slots| && slots[i].None?
  }

  predicate MayTake(p: Places, r: Ref) {
    p.taken < |p.turns| && p.inHand.None? && r == p.turns[p.taken]
  }

  predicate InTheHand(p: Places, r: Ref) {
    p.inHand == Some(r) && p.taken > 0
  }

  /** A new reference in a new publication. */
  lemma PublishSound(p: Places, fates: seq<Fate>, r: Ref)
    requires Sound(p, fates) && r.id == |fates|
    ensures Sound(p.(publications := p.publications + [Some(r)]),
                  fates + [Fate(r, InPublication(|p.publications|), false, None)])
  {
  }

  lemma PublishLogged(log: seq<Call>, fates: seq<Fate>, f: Fate)
    requires Logged(log, fates) && f.ref.id == |fates| && f.place.InPublication?
    ensures Logged(log, fates + [f])
  {
    NoCalls(log, |fates|);
  }

  function Published(b: Books, r: Ref): Books
    requires r.object_ in b.objects
  {
    Books(b.places.(publications := b.places.publications + [Some(r)]),
          b.fates + [Fate(r, InPublication(|b.places.publications|), false, None)], b.log,
          b.objects[r.object_ := AcquireWords(b.objects[r.object_], r.uid).0], b.others)
  }

  lemma PublishKeeps(b: Books, r: Ref)
    requires Right(b) && r.id == |b.fates| && r.object_ in b.objects && AcquireWords(b.objects[r.object_], r.uid).1
    ensures Right(Published(b, r)) && Evolves(b, Published(b, r))
  {
    RightMeans(b);
    PublishSound(b.places, b.fates, r);
    var f := Fate(r, InPublication(|b.places.publications|), false, None);
    PublishLogged(b.log, b.fates, f);
    AcquireKeepsCount(b.objects, b.fates, b.others, f);
    RightMeans(Published(b, r));
  }

  lemma EmptyHandleSound(p: Places, fates: seq<Fate>)
    requires Sound(p, fates)
    ensures Sound(p.(handles := p.handles + [None]), fates)
  {
  }

  lemma EmptyHandleKeeps(b: Books)
    requires Right(b)
    ensures Right(b.(places := b.places.(handles := b.places.handles + [None])))
  {
    RightMeans(b);
    EmptyHandleSound(b.places, b.fates);
    RightMeans(b.(places := b.places.(handles := b.places.handles + [None])));
  }

  lemma DiscardSound(p: Places, fates: seq<Fate>, i: nat, r: Ref)
    requires Sound(p, fates) && Has(p.publications, i, r)
    ensures At(fates, r, InPublication(i))
    ensures Sound(p.(publications := p.publications[i := None], released := p.released + [r]),
                  fates[r.id := Fate(r, Released(|p.released|), false, None)])
  {
  }

  function Discarded(b: Books, i: nat, r: Ref): Books
    requires r.id < |b.fates| && Has(b.places.publications, i, r)
  {
    var p := b.places;
    After(b, p.(publications := p.publications[i := None], released := p.released + [r]),
          Fate(r, Released(|p.released|), false, None),
          [Return(r.id)])
  }

  /** A publication is destroyed. */
  lemma DiscardKeeps(b: Books, i: nat, r: Ref)
    requires Right(b) && Has(b.places.publications, i, r)
    ensures r.id < |b.fates|
    ensures Right(Discarded(b, i, r)) && Evolves(b, Discarded(b, i, r))
  {
    RightMeans(b);
    DiscardSound(b.places, b.fates, i, r);
    var after := Discarded(b, i, r);
    AfterKeeps(b, after.places, after.fates[r.id], [Return(r.id)]);
  }

  lemma BindSound(p: Places, fates: seq<Fate>, i: nat, r: Ref)
    requires Sound(p, fates) && Has(p.publications, i, r)
    ensures At(fates, r, InPublication(i))
    ensures Sound(p.(publications := p.publications[i := None], handles := p.handles + [Some(r)]),
                  fates[r.id := Fate(r, InHandle(|p.handles|), true, None)])
  {
  }

  function Bound(b: Books, i: nat, r: Ref): Books
    requires r.id < |b.fates| && Has(b.places.publications, i, r)
  {
    var p := b.places;
    After(b, p.(publications := p.publications[i := None], handles := p.handles + [Some(r)]),
          Fate(r, InHandle(|p.handles|), true, None),
          [])
  }

  /** `make_bound` moves the reference from the publication to a new handle. */
  lemma BindKeeps(b: Books, i: nat, r: Ref)
    requires Right(b) && Has(b.places.publications, i, r)
    ensures r.id < |b.fates|
    ensures Right(Bound(b, i, r)) && Evolves(b, Bound(b, i, r))
  {
    RightMeans(b);
    BindSound(b.places, b.fates, i, r);
    var after := Bound(b, i, r);
    AfterKeeps(b, after.places, after.fates[r.id], []);
  }

  lemma ShiftPublicationSound(p: Places, fates: seq<Fate>, i: nat, j: nat, r: Ref)
    requires Sound(p, fates) && Has(p.publications, i, r) && Vacant(p.publications, j)
    ensures At(fates, r, InPublication(i))
    ensures Sound(p.(publications := p.publications[j := Some(r)][i := None]),
                  fates[r.id := Fate(r, InPublication(j), false, None)])
  {
  }

  function ShiftedPublication(b: Books, i: nat, j: nat, r: Ref): Books
    requires r.id < |b.fates| && Has(b.places.publications, i, r) && Vacant(b.places.publications, j)
  {
    var p := b.places;
    After(b, p.(publications := p.publications[j := Some(r)][i := None]),
          Fate(r, InPublication(j), false, None),
          [])
  }

  /** A publication is moved into slot `j`, which owns nothing any more. */
  lemma ShiftPublicationKeeps(b: Books, i: nat, j: nat, r: Ref)
    requires Right(b) && Has(b.places.publications, i, r) && Vacant(b.places.publications, j)
    ensures r.id < |b.fates|
    ensures Right(ShiftedPublication(b, i, j, r)) && Evolves(b, ShiftedPublication(b, i, j, r))
  {
    RightMeans(b);
    ShiftPublicationSound(b.places, b.fates, i, j, r);
    var after := ShiftedPublication(b, i, j, r);
    AfterKeeps(b, after.places, after.fates[r.id], []);
  }

  lemma ShiftHandleSound(p: Places, fates: seq<Fate>, i: nat, j: nat, r: Ref)
    requires Sound(p, fates) && Has(p.handles, i, r) && Vacant(p.handles, j)
    ensures At(fates, r, InHandle(i))
    ensures Sound(p.(handles := p.handles[j := Some(r)][i := None]),
                  fates[r.id := Fate(r, InHandle(j), true, None)])
  {
  }

  function ShiftedHandle(b: Books, i: nat, j: nat, r: Ref): Books
    requires r.id < |b.fates| && Has(b.places.handles, i, r) && Vacant(b.places.handles, j)
  {
    var p := b.places;
    After(b, p.(handles := p.handles[j := Some(r)][i := None]),
          Fate(r, InHandle(j), true, None),
          [])
  }

  /** A handle is moved into slot `j`, which owns nothing any more. */
  lemma ShiftHandleKeeps(b: Books, i: nat, j: nat, r: Ref)
    requires Right(b) && Has(b.places.handles, i, r) && Vacant(b.places.handles, j)
    ensures r.id < |b.fates|
    ensures Right(ShiftedHandle(b, i, j, r)) && Evolves(b, ShiftedHandle(b, i, j, r))
  {
    RightMeans(b);
    ShiftHandleSound(b.places, b.fates, i, j, r);
    var after := ShiftedHandle(b, i, j, r);
    AfterKeeps(b, after.places, after.fates[r.id], []);
  }

  lemma ReleaseSound(p: Places, fates: seq<Fate>, i: nat, r: Ref)
    requires Sound(p, fates) && Has(p.handles, i, r) && !r.context
    ensures At(fates, r, InHandle(i))
    ensures Sound(p.(handles := p.handles[i := None], released := p.released + [r]),
                  fates[r.id := Fate(r, Released(|p.released|), true, None)])
  {
  }

  function ReleasedNow(b: Books, i: nat, r: Ref): Books
    requires r.id < |b.fates| && Has(b.places.handles, i, r) && !r.context
  {
    var p := b.places;
    After(b, p.(handles := p.handles[i := None], released := p.released + [r]),
          Fate(r, Released(|p.released|), true, None),
          [Return(r.id)])
  }

  /** `Impl::release` of a handle without completion event. */
  lemma ReleaseKeeps(b: Books, i: nat, r: Ref)
    requires Right(b) && Has(b.places.handles, i, r) && !r.context
    ensures r.id < |b.fates|
    ensures Right(ReleasedNow(b, i, r)) && Evolves(b, ReleasedNow(b, i, r))
  {
    RightMeans(b);
    ReleaseSound(b.places, b.fates, i, r);
    var after := ReleasedNow(b, i, r);
    AfterKeeps(b, after.places, after.fates[r.id], [Return(r.id)]);
  }

  lemma EnqueueSound(p: Places, fates: seq<Fate>, i: nat, r: Ref)
    requires Sound(p, fates) && Has(p.handles, i, r) && r.context
    ensures At(fates, r, InHandle(i))
    ensures Sound(p.(handles := p.handles[i := None], turns := p.turns + [r]),
                  fates[r.id := Fate(r, Queued(|p.turns|), true, Some(|p.turns|))])
  {
  }

  function Enqueued(b: Books, i: nat, c: ReleaseCalls, r: Ref): Books
    requires r.id < |b.fates| && Has(b.places.handles, i, r) && r.context && RecordedOk(c)
  {
    var p := b.places;
    After(b, p.(handles := p.handles[i := None], turns := p.turns + [r]),
          Fate(r, Queued(|p.turns|), true, Some(|p.turns|)),
          RecordCalls(r.id, c))
  }

  /** `Impl::release` of a handle whose completion event has been recorded. */
  lemma EnqueueKeeps(b: Books, i: nat, c: ReleaseCalls, r: Ref)
    requires Right(b) && Has(b.places.handles, i, r) && r.context && RecordedOk(c)
    ensures r.id < |b.fates|
    ensures Right(Enqueued(b, i, c, r)) && Evolves(b, Enqueued(b, i, c, r))
  {
    RightMeans(b);
    EnqueueSound(b.places, b.fates, i, r);
    var after := Enqueued(b, i, c, r);
    AfterKeeps(b, after.places, after.fates[r.id], RecordCalls(r.id, c));
  }

  lemma RetainHandleSound(p: Places, fates: seq<Fate>, i: nat, r: Ref)
    requires Sound(p, fates) && Has(p.handles, i, r) && r.context
    ensures At(fates, r, InHandle(i))
    ensures Sound(p.(handles := p.handles[i := None], failed := p.failed + [r]),
                  fates[r.id := Fate(r, Retained(|p.failed|), true, None)])
  {
  }

  function RetainedHandle(b: Books, i: nat, c: ReleaseCalls, r: Ref): Books
    requires r.id < |b.fates| && Has(b.places.handles, i, r) && r.context && !RecordedOk(c)
  {
    var p := b.places;
    After(b, p.(handles := p.handles[i := None], failed := p.failed + [r]),
          Fate(r, Retained(|p.failed|), true, None),
          RecordCalls(r.id, c))
  }

  /** `Impl::release` of a handle whose completion event could not be recorded. */
  lemma RetainHandleKeeps(b: Books, i: nat, c: ReleaseCalls, r: Ref)
    requires Right(b) && Has(b.places.handles, i, r) && r.context && !RecordedOk(c)
    ensures r.id < |b.fates|
    ensures Right(RetainedHandle(b, i, c, r)) && Evolves(b, RetainedHandle(b, i, c, r))
  {
    RightMeans(b);
    RetainHandleSound(b.places, b.fates, i, r);
    var after := RetainedHandle(b, i, c, r);
    AfterKeeps(b, after.places, after.fates[r.id], RecordCalls(r.id, c));
  }

  lemma TakeSound(p: Places, fates: seq<Fate>, r: Ref)
    requires Sound(p, fates) && MayTake(p, r)
    ensures At(fates, r, Queued(p.taken))
    ensures Sound(p.(taken := p.taken + 1, inHand := Some(r)),
                  fates[r.id := Fate(r, InHand, true, Some(p.taken))])
  {
  }

  function Taken(b: Books, r: Ref): Books
    requires r.id < |b.fates| && MayTake(b.places, r)
  {
    var p := b.places;
    After(b, p.(taken := p.taken + 1, inHand := Some(r)),
          Fate(r, InHand, true, Some(p.taken)),
          [])
  }

  /** The worker takes the oldest item. */
  lemma TakeKeeps(b: Books, r: Ref)
    requires Right(b) && MayTake(b.places, r)
    ensures r.id < |b.fates|
    ensures Right(Taken(b, r)) && Evolves(b, Taken(b, r))
  {
    RightMeans(b);
    TakeSound(b.places, b.fates, r);
    var after := Taken(b, r);
    AfterKeeps(b, after.places, after.fates[r.id], []);
  }

  lemma RetainTakenSound(p: Places, fates: seq<Fate>, r: Ref)
    requires Sound(p, fates) && InTheHand(p, r)
    ensures At(fates, r, InHand)
    ensures Sound(p.(inHand := None, failed := p.failed + [r]),
                  fates[r.id := Fate(r, Retained(|p.failed|), true, Some(p.taken - 1))])
  {
  }

  function RetainedTaken(b: Books, c: WaitCalls, r: Ref): Books
    requires r.id < |b.fates| && InTheHand(b.places, r) && !Completed(c)
  {
    var p := b.places;
    After(b, p.(inHand := None, failed := p.failed + [r]),
          Fate(r, Retained(|p.failed|), true, Some(p.taken - 1)),
          SynchroniseCalls(r.id, c))
  }

  /** The worker keeps an item whose event it could not wait for. */
  lemma RetainTakenKeeps(b: Books, c: WaitCalls, r: Ref)
    requires Right(b) && InTheHand(b.places, r) && !Completed(c)
    ensures r.id < |b.fates|
    ensures Right(RetainedTaken(b, c, r)) && Evolves(b, RetainedTaken(b, c, r))
  {
    RightMeans(b);
    RetainTakenSound(b.places, b.fates, r);
    var after := RetainedTaken(b, c, r);
    AfterKeeps(b, after.places, after.fates[r.id], SynchroniseCalls(r.id, c));
  }

  lemma ReleaseTakenSound(p: Places, fates: seq<Fate>, r: Ref)
    requires Sound(p, fates) && InTheHand(p, r)
    ensures At(fates, r, InHand)
    ensures Sound(p.(inHand := None, released := p.released + [r]),
                  fates[r.id := Fate(r, Released(|p.released|), true, Some(p.taken - 1))])
  {
  }

  function ReleasedTaken(b: Books, c: WaitCalls, r: Ref): Books
    requires r.id < |b.fates| && InTheHand(b.places, r) && Completed(c)
  {
    var p := b.places;
    After(b, p.(inHand := None, released := p.released + [r]),
          Fate(r, Released(|p.released|), true, Some(p.taken - 1)),
          SynchroniseCalls(r.id, c) + [Return(r.id)])
  }

  /** The worker releases an item whose event has completed. */
  lemma ReleaseTakenKeeps(b: Books, c: WaitCalls, r: Ref)
    requires Right(b) && InTheHand(b.places, r) && Completed(c)
    ensures r.id < |b.fates|
    ensures Right(ReleasedTaken(b, c, r)) && Evolves(b, ReleasedTaken(b, c, r))
  {
    RightMeans(b);
    ReleaseTakenSound(b.places, b.fates, r);
    var after := ReleasedTaken(b, c, r);
    AfterKeeps(b, after.places, after.fates[r.id], SynchroniseCalls(r.id, c) + [Return(r.id)]);
  }

  /** What a handle with completion event does with its reference. */
  function Submitted(b: Books, i: nat, c: ReleaseCalls, r: Ref): Books
    requires r.id < |b.fates| && Has(b.places.handles, i, r) && r.context
  {
    if RecordedOk(c) then Enqueued(b, i, c, r) else RetainedHandle(b, i, c, r)
  }

  lemma SubmitKeeps(b: Books, i: nat, c: ReleaseCalls, r: Ref)
    requires Right(b) && Has(b.places.handles, i, r) && r.context
    ensures r.id < |b.fates|
    ensures Right(Submitted(b, i, c, r)) && Evolves(b, Submitted(b, i, c, r))
  {
    if RecordedOk(c) {
      EnqueueKeeps(b, i, c, r);
    } else {
      RetainHandleKeeps(b, i, c, r);
    }
  }

  /** What the worker does with the item it has taken. */
  function Settled(b: Books, c: WaitCalls, r: Ref): Books
    requires r.id < |b.fates| && InTheHand(b.places, r)
  {
    if Completed(c) then ReleasedTaken(b, c, r) else RetainedTaken(b, c, r)
  }

  lemma SettleKeeps(b: Books, c: WaitCalls, r: Ref)
    requires Right(b) && b.places.inHand == Some(r)
    ensures InTheHand(b.places, r) && r.id < |b.fates| && r.object_ in b.objects
    ensures Right(Settled(b, c, r)) && Evolves(b, Settled(b, c, r))
  {
    RightMeans(b);
    assert At(b.fates, r, InHand);
    if Completed(c) {
      ReleaseTakenKeeps(b, c, r);
    } else {
      RetainTakenKeeps(b, c, r);
    }
  }

  /** Others change what they hold of one object, and the rest of its words. */
  lemma InterferenceKeeps(b: Books, object_: nat, uid: nat, stamp: nat, held: nat)
    requires Right(b) && object_ in b.objects
    ensures object_ in b.others && b.objects[object_].refcount >= b.others[object_]
    ensures
      var words := Words(uid, b.objects[object_].refcount - b.others[object_] + held, stamp);
      var after := b.(objects := b.objects[object_ := words], others := b.others[object_ := held]);
      Right(after) && Evolves(b, after)
  {
    RightMeans(b);
    var words := Words(uid, b.objects[object_].refcount - b.others[object_] + held, stamp);
    RightMeans(b.(objects := b.objects[object_ := words], others := b.others[object_ := held]));
  }

  // ----- what the books say -----

  /**
   A bound reference with a completion event that has been released was released once,
   after its event had been recorded and then synchronised, and no call for it failed.
   */
  lemma ReleasedAfterCompletion(b: Books, id: nat) returns (i: nat, j: nat, k: nat)
    requires Right(b) && id < |b.fates|
    requires b.fates[id].place.Released? && b.fates[id].bound && b.fates[id].ref.context
    ensures i < j < k < |b.log|
    ensures b.log[i] == Record(id, true) && b.log[j] == Synchronise(id, true) && b.log[k] == Return(id)
    ensures forall m: nat :: m < |b.log| && b.log[m].id == id ==> (b.log[m].Return? ==> m == k) && !Failed(b.log[m])
  {
    HasTurn(b, id);
    CompletedCalls(b.fates[id], CallsFor(b.log, id));
    i, j, k := CompletionInLog(b.log, id);
  }

  lemma HasTurn(b: Books, id: nat)
    requires Right(b) && id < |b.fates|
    requires b.fates[id].place.Released? && b.fates[id].bound && b.fates[id].ref.context
    ensures b.fates[id].turn.Some? && b.fates[id].ref.id == id && Legal(b.fates[id], CallsFor(b.log, id))
  {
    RightMeans(b);
  }

  function CompletionCalls(id: nat): seq<Call> {
    [Push(id, true), Record(id, true), Push(id, true), Synchronise(id, true), Return(id)]
  }

  lemma CompletedCalls(f: Fate, calls: seq<Call>)
    requires Legal(f, calls) && f.place.Released? && f.turn.Some?
    ensures calls == CompletionCalls(f.ref.id)
  {
  }

  lemma CompletionInLog(log: seq<Call>, id: nat) returns (i: nat, j: nat, k: nat)
    requires CallsFor(log, id) == CompletionCalls(id)
    ensures i < j < k < |log|
    ensures log[i] == Record(id, true) && log[j] == Synchronise(id, true) && log[k] == Return(id)
    ensures forall m: nat :: m < |log| && log[m].id == id ==> (log[m].Return? ==> m == k) && !Failed(log[m])
  {
    var p := CallPositions(log, id);
    i, j, k := p[1], p[3], p[4];
    forall m: nat | m < |log| && log[m].id == id ensures (log[m].Return? ==> m == k) && !Failed(log[m]) {
      var n :| 0 <= n < |p| && p[n] == m;
      assert log[m] == CompletionCalls(id)[n];
    }
  }

  predicate Failed(c: Call) {
    !c.Return? && !c.ok
  }

  /** A reference for which a call failed is retained, and so is never released. */
  lemma FailedIsRetained(b: Books, m: nat)
    requires Right(b) && m < |b.log| && Failed(b.log[m])
    ensures b.log[m].id < |b.fates| && b.fates[b.log[m].id].place.Retained?
  {
    RightMeans(b);
    CallIsListed(b.log, m);
    var f := b.fates[b.log[m].id];
    assert Legal(f, CallsFor(b.log, b.log[m].id));
    FailedCall(f, CallsFor(b.log, b.log[m].id), b.log[m]);
  }

  lemma FailedCall(f: Fate, calls: seq<Call>, c: Call)
    requires Legal(f, calls) && c in calls && Failed(c)
    ensures f.place.Retained?
  {
  }

  /** Queue items are released in the order in which they were enqueued. */
  lemma ReleasedInOrder(b: Books, k: nat, l: nat)
    requires Right(b) && k < l < |b.places.released|
    ensures b.places.released[k].id < |b.fates| && b.places.released[l].id < |b.fates|
    ensures
      var first, second := b.fates[b.places.released[k].id].turn, b.fates[b.places.released[l].id].turn;
      first.Some? && second.Some? ==>
        && first.value < second.value < |b.places.turns|
        && b.places.turns[first.value] == b.places.released[k] && b.places.turns[second.value] == b.places.released[l]
  {
    RightMeans(b);
    assert At(b.fates, b.places.released[k], Released(k)) && At(b.fates, b.places.released[l], Released(l));
  }
}
