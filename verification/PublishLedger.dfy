/**
 What is owed for every publisher reservation ever made: who owns it, how it
 ended, and which unit of its block's reference count it still accounts for.
 */
module PublishLedger {
  import opened Machine
  import opened BlockWords

  /** A reservation, named by its metadata object and the uid it made. */
  datatype Token = Token(object_: nat, uid: nat)

  datatype Fate = Outstanding | Committed | Cancelled | Quarantined

  predicate Unreturned(f: Fate) {
    f == Outstanding || f == Quarantined
  }

  /** The publisher's share of an object's reference count. */
  function PublisherUnit(fates: map<Token, Fate>, object_: nat, uid: nat): nat {
    var t := Token(object_, uid);
    if t in fates && Unreturned(fates[t]) then 1 else 0
  }

  /**
   The discipline of `PublishBlock`.  `owners[i]` is the reservation held by the
   `i`-th live block and `readers[o]` the references subscribers hold on object `o`.
   Every outstanding reservation has exactly one owner, and every object's count
   is its readers plus one unit for its unreturned reservation, if it has one.
   */
  ghost predicate Linear(fates: map<Token, Fate>, owners: seq<Option<Token>>, objects: map<nat, Words>,
                         readers: map<nat, nat>) {
    forall a: Account :: Balanced(fates, owners, objects, readers, a)
  }

  datatype Account = Ownership | Counting

  ghost predicate Balanced(fates: map<Token, Fate>, owners: seq<Option<Token>>, objects: map<nat, Words>,
                           readers: map<nat, nat>, a: Account) {
    match a
    case Ownership => Owned(fates, owners)
    case Counting => Counted(fates, objects, readers)
  }

  lemma LinearMeans(fates: map<Token, Fate>, owners: seq<Option<Token>>, objects: map<nat, Words>,
                    readers: map<nat, nat>)
    ensures Linear(fates, owners, objects, readers) <==> Owned(fates, owners) && Counted(fates, objects, readers)
  {
    assert Balanced(fates, owners, objects, readers, Ownership) == Owned(fates, owners);
    assert Balanced(fates, owners, objects, readers, Counting) == Counted(fates, objects, readers);
  }

  predicate Owned(fates: map<Token, Fate>, owners: seq<Option<Token>>) {
    && (forall i :: 0 <= i < |owners| && owners[i].Some? ==>
          owners[i].value in fates && fates[owners[i].value] == Outstanding)
    && (forall i, j :: 0 <= i < j < |owners| && owners[i].Some? ==> owners[i] != owners[j])
    && (forall t :: t in fates && fates[t] == Outstanding ==> Some(t) in owners)
  }

  predicate Counted(fates: map<Token, Fate>, objects: map<nat, Words>, readers: map<nat, nat>) {
    && (forall t :: t in fates ==>
          && t.object_ in objects && t.uid <= objects[t.object_].uid
          && (Unreturned(fates[t]) ==> t.uid == objects[t.object_].uid))
    && objects.Keys == readers.Keys
    && (forall o :: o in objects ==>
          objects[o].refcount == readers[o] + PublisherUnit(fates, o, objects[o].uid))
  }

  /** A reservation is never forgotten, and its end is final. */
  predicate Evolves(before: map<Token, Fate>, after: map<Token, Fate>) {
    forall t :: t in before ==> t in after && (before[t] != Outstanding ==> after[t] == before[t])
  }

  /** The objects after the unit of a reservation, if there is one, has been returned. */
  function Returned(objects: map<nat, Words>, t: Option<Token>, published: bool, now: nat): map<nat, Words>
    requires t.Some? ==> t.value.object_ in objects
  {
    if t.None? then objects
    else objects[t.value.object_ := ReleaseWords(objects[t.value.object_], t.value.uid, published, now).0]
  }

  /** The reservation, if there is one, has come to its end. */
  function Settle(fates: map<Token, Fate>, t: Option<Token>, fate: Fate): map<Token, Fate> {
    if t.None? then fates else fates[t.value := fate]
  }

  // ----- what the discipline gives -----

  /** No two unreturned reservations are of the same object. */
  predicate OnePerObject(fates: map<Token, Fate>) {
    forall s, t ::
      s in fates && t in fates && Unreturned(fates[s]) && Unreturned(fates[t]) && s.object_ == t.object_ ==> s == t
  }

  /** One object has at most one unreturned reservation. */
  lemma OneUnreturned(fates: map<Token, Fate>, owners: seq<Option<Token>>, objects: map<nat, Words>,
                      readers: map<nat, nat>)
    requires Linear(fates, owners, objects, readers)
    ensures OnePerObject(fates)
  {
    LinearMeans(fates, owners, objects, readers);
  }

  /** Returning an owned reservation always succeeds: neither the uid nor the underflow branch is reached. */
  lemma ReturnSucceeds(fates: map<Token, Fate>, objects: map<nat, Words>, readers: map<nat, nat>, t: Token,
                       published: bool, now: nat)
    requires Counted(fates, objects, readers) && t in fates && Unreturned(fates[t])
    ensures ReleaseWords(objects[t.object_], t.uid, published, now).1
    ensures ReleaseWords(objects[t.object_], t.uid, published, now).0.refcount == readers[t.object_]
  {
    assert Token(t.object_, t.uid) == t;
  }

  /** A quarantined block is not reserved again, at any time. */
  lemma QuarantineIsFinal(before: map<Token, Fate>, after: map<Token, Fate>, objects: map<nat, Words>,
                          readers: map<nat, nat>, t: Token, now: nat)
    requires t in before && before[t] == Quarantined && Evolves(before, after) && Counted(after, objects, readers)
    ensures objects[t.object_].uid == t.uid && !Reusable(objects[t.object_], now)
  {
    assert Token(t.object_, t.uid) == t;
  }

  /** Once no block is live every reservation has been committed, cancelled or quarantined. */
  lemma NothingOutstanding(fates: map<Token, Fate>, objects: map<nat, Words>, readers: map<nat, nat>)
    requires Linear(fates, [], objects, readers)
    ensures forall t :: t in fates ==> fates[t] != Outstanding
  {
    LinearMeans(fates, [], objects, readers);
  }

  // ----- what each operation keeps -----

  /** A new reservation, held by a new block. */
  lemma ReserveKeeps(fates: map<Token, Fate>, owners: seq<Option<Token>>, objects: map<nat, Words>,
                     readers: map<nat, nat>, after: map<nat, Words>, t: Token, now: nat)
    requires Linear(fates, owners, objects, readers) && t.object_ in objects && Reusable(objects[t.object_], now)
    requires t.uid == objects[t.object_].uid + 1 && after == objects[t.object_ := Words(t.uid, 1, 0)]
    ensures t !in fates && Linear(fates[t := Outstanding], owners + [Some(t)], after, readers)
  {
    LinearMeans(fates, owners, objects, readers);
    ReserveKeepsAccounts(fates, owners, objects, readers, after, t, now);
    LinearMeans(fates[t := Outstanding], owners + [Some(t)], after, readers);
  }

  lemma ReserveKeepsAccounts(fates: map<Token, Fate>, owners: seq<Option<Token>>, objects: map<nat, Words>,
                             readers: map<nat, nat>, after: map<nat, Words>, t: Token, now: nat)
    requires Owned(fates, owners) && Counted(fates, objects, readers)
    requires t.object_ in objects && Reusable(objects[t.object_], now)
    requires t.uid == objects[t.object_].uid + 1 && after == objects[t.object_ := Words(t.uid, 1, 0)]
    ensures t !in fates && Owned(fates[t := Outstanding], owners + [Some(t)])
    ensures Counted(fates[t := Outstanding], after, readers)
  {
    var object_ := t.object_;
    var fates', owners' := fates[t := Outstanding], owners + [Some(t)];
    assert owners'[|owners|] == Some(t);
    assert PublisherUnit(fates, object_, objects[object_].uid) == 0;
    forall s | s in fates' && fates'[s] == Outstanding ensures Some(s) in owners' {
      if s != t {
        var i :| 0 <= i < |owners| && owners[i] == Some(s);
        assert owners'[i] == Some(s);
      }
    }
  }

  /** Committing or cancelling the reservation that block `i` holds, if any: it succeeds and keeps the discipline. */
  lemma ReturnKeeps(fates: map<Token, Fate>, owners: seq<Option<Token>>, objects: map<nat, Words>,
                    readers: map<nat, nat>, i: nat, published: bool, now: nat)
    requires Linear(fates, owners, objects, readers) && i < |owners|
    ensures
      var t := owners[i];
      && (t.Some? ==>
            && t.value.object_ in objects
            && ReleaseWords(objects[t.value.object_], t.value.uid, published, now).1)
      && Linear(Settle(fates, t, if published then Committed else Cancelled), owners[i := None],
                Returned(objects, t, published, now), readers)
  {
    var t, fate := owners[i], if published then Committed else Cancelled;
    LinearMeans(fates, owners, objects, readers);
    if t.Some? {
      ReturnSucceeds(fates, objects, readers, t.value, published, now);
      ReturnKeepsCount(fates, objects, readers, t.value, published, now, fate);
      SettleKeepsOwned(fates, owners, i, fate);
    } else {
      assert owners[i := None] == owners;
    }
    LinearMeans(Settle(fates, t, fate), owners[i := None], Returned(objects, t, published, now), readers);
  }

  lemma ReturnKeepsCount(fates: map<Token, Fate>, objects: map<nat, Words>, readers: map<nat, nat>, t: Token,
                         published: bool, now: nat, fate: Fate)
    requires Counted(fates, objects, readers) && t in fates && Unreturned(fates[t]) && !Unreturned(fate)
    ensures Counted(fates[t := fate], Returned(objects, Some(t), published, now), readers)
  {
    assert Token(t.object_, t.uid) == t;
  }

  /** Giving up the reservation that block `i` holds, if any, without returning its unit. */
  lemma QuarantineKeeps(fates: map<Token, Fate>, owners: seq<Option<Token>>, objects: map<nat, Words>,
                        readers: map<nat, nat>, i: nat)
    requires Linear(fates, owners, objects, readers) && i < |owners|
    ensures Linear(Settle(fates, owners[i], Quarantined), owners[i := None], objects, readers)
  {
    LinearMeans(fates, owners, objects, readers);
    if owners[i].Some? {
      SettleKeepsOwned(fates, owners, i, Quarantined);
    } else {
      assert owners[i := None] == owners;
    }
    LinearMeans(Settle(fates, owners[i], Quarantined), owners[i := None], objects, readers);
  }

  lemma SettleKeepsOwned(fates: map<Token, Fate>, owners: seq<Option<Token>>, i: nat, fate: Fate)
    requires Owned(fates, owners) && i < |owners| && owners[i].Some? && fate != Outstanding
    ensures Owned(fates[owners[i].value := fate], owners[i := None])
  {
    var t := owners[i].value;
    forall s | s in fates && s != t && fates[s] == Outstanding ensures Some(s) in owners[i := None] {
      var j :| 0 <= j < |owners| && owners[j] == Some(s);
      assert owners[i := None][j] == Some(s);
    }
  }

  /** Moving a reservation from block `i` to the empty block `j`. */
  lemma MoveKeeps(fates: map<Token, Fate>, owners: seq<Option<Token>>, i: nat, j: nat)
    requires Owned(fates, owners) && i < |owners| && j < |owners| && i != j && owners[j].None?
    ensures Owned(fates, owners[j := owners[i]][i := None])
  {
    var owners' := owners[j := owners[i]][i := None];
    forall s | s in fates && fates[s] == Outstanding ensures Some(s) in owners' {
      var k :| 0 <= k < |owners| && owners[k] == Some(s);
      assert owners'[if k == i then j else k] == Some(s);
    }
  }

  /** `prepare_publish` of block `i`, committed or not. */
  lemma PrepareKeeps(fates: map<Token, Fate>, owners: seq<Option<Token>>, objects: map<nat, Words>,
                     readers: map<nat, nat>, i: nat, committed: bool, now: nat, after: map<nat, Words>)
    requires Linear(fates, owners, objects, readers) && i < |owners|
    requires owners[i].Some? ==> owners[i].value.object_ in objects
    requires after == if committed then Returned(objects, owners[i], true, now) else objects
    ensures Linear(Settle(fates, owners[i], if committed then Committed else Quarantined), owners[i := None],
                   after, readers)
  {
    if committed {
      ReturnKeeps(fates, owners, objects, readers, i, true, now);
    } else {
      QuarantineKeeps(fates, owners, objects, readers, i);
    }
  }

  /** Move assignment from block `j` to block `i`. */
  lemma MoveAssignKeeps(fates: map<Token, Fate>, owners: seq<Option<Token>>, objects: map<nat, Words>,
                        readers: map<nat, nat>, i: nat, j: nat, now: nat, after: map<nat, Words>)
    requires Linear(fates, owners, objects, readers) && i < |owners| && j < |owners| && i != j
    requires owners[i].Some? ==> owners[i].value.object_ in objects
    requires after == Returned(objects, owners[i], false, now)
    ensures Linear(Settle(fates, owners[i], Cancelled), owners[i := owners[j]][j := None], after, readers)
  {
    var fates' := Settle(fates, owners[i], Cancelled);
    ReturnKeeps(fates, owners, objects, readers, i, false, now);
    LinearMeans(fates', owners[i := None], after, readers);
    MoveKeeps(fates', owners[i := None], j, i);
    assert owners[i := None][i := owners[j]][j := None] == owners[i := owners[j]][j := None];
    LinearMeans(fates', owners[i := owners[j]][j := None], after, readers);
  }

  /** Empty blocks come and go. */
  lemma EmptyBlockKeeps(fates: map<Token, Fate>, owners: seq<Option<Token>>, i: nat)
    requires Owned(fates, owners)
    ensures Owned(fates, owners + [None])
    ensures i < |owners| && owners[i].None? ==> Owned(fates, owners[..i] + owners[i + 1..])
  {
    forall s | s in fates && fates[s] == Outstanding
      ensures Some(s) in owners + [None]
      ensures i < |owners| && owners[i].None? ==> Some(s) in owners[..i] + owners[i + 1..] {
      var k :| 0 <= k < |owners| && owners[k] == Some(s);
      assert (owners + [None])[k] == Some(s);
      if i < |owners| && owners[i].None? {
        assert (owners[..i] + owners[i + 1..])[if k < i then k else k - 1] == Some(s);
      }
    }
  }

  /** Objects created by a later `initialise` start with a count of 0 and no reservation. */
  lemma NewObjectsKeep(fates: map<Token, Fate>, before: map<nat, Words>, after: map<nat, Words>, readers: map<nat, nat>)
    requires Counted(fates, before, readers)
    requires Extends(before, after)
    ensures Counted(fates, after, map o | o in after :: if o in readers then readers[o] else 0)
  {
  }

  /** A subscriber's `acquire`: it gains a reference exactly when the count goes up. */
  lemma ReaderAdded(fates: map<Token, Fate>, objects: map<nat, Words>, readers: map<nat, nat>, object_: nat, uid: nat,
                    after: map<nat, Words>, held: nat)
    requires Counted(fates, objects, readers) && object_ in objects
    requires after == objects[object_ := AcquireWords(objects[object_], uid).0]
    requires held == readers[object_] + if AcquireWords(objects[object_], uid).1 then 1 else 0
    ensures Counted(fates, after, readers[object_ := held])
  {
  }

  /** A subscriber's `release` of a reference it holds. */
  lemma ReaderRemoved(fates: map<Token, Fate>, objects: map<nat, Words>, readers: map<nat, nat>, object_: nat,
                      after: map<nat, Words>)
    requires Counted(fates, objects, readers) && object_ in objects && readers[object_] > 0
    requires after == objects[object_ := DropWords(objects[object_])]
    ensures Counted(fates, after, readers[object_ := readers[object_] - 1])
  {
  }

  /** Only outstanding reservations come to an end. */
  lemma SettleEvolves(fates: map<Token, Fate>, owners: seq<Option<Token>>, objects: map<nat, Words>,
                      readers: map<nat, nat>, i: nat)
    requires Linear(fates, owners, objects, readers) && i < |owners|
    ensures Evolves(fates, Settle(fates, owners[i], Committed)) && Evolves(fates, Settle(fates, owners[i], Cancelled))
    ensures Evolves(fates, Settle(fates, owners[i], Quarantined))
  {
    LinearMeans(fates, owners, objects, readers);
  }

  lemma EvolvesThen(a: map<Token, Fate>, b: map<Token, Fate>, c: map<Token, Fate>)
    requires Evolves(a, b) && Evolves(b, c)
    ensures Evolves(a, c)
  {
  }

  // ----- the same for both accounts at once -----

  lemma DestroyKeeps(fates: map<Token, Fate>, owners: seq<Option<Token>>, objects: map<nat, Words>,
                     readers: map<nat, nat>, i: nat)
    requires Linear(fates, owners, objects, readers) && i < |owners| && owners[i].None?
    ensures Linear(fates, owners[..i] + owners[i + 1..], objects, readers)
  {
    LinearMeans(fates, owners, objects, readers);
    EmptyBlockKeeps(fates, owners, i);
    LinearMeans(fates, owners[..i] + owners[i + 1..], objects, readers);
  }

  lemma MoveConstructKeeps(fates: map<Token, Fate>, owners: seq<Option<Token>>, objects: map<nat, Words>,
                           readers: map<nat, nat>, i: nat)
    requires Linear(fates, owners, objects, readers) && i < |owners|
    ensures Linear(fates, owners[i := None] + [owners[i]], objects, readers)
  {
    LinearMeans(fates, owners, objects, readers);
    EmptyBlockKeeps(fates, owners, 0);
    MoveKeeps(fates, owners + [None], i, |owners|);
    assert (owners + [None])[|owners| := owners[i]][i := None] == owners[i := None] + [owners[i]];
    LinearMeans(fates, owners[i := None] + [owners[i]], objects, readers);
  }

  lemma InitialiseKeeps(fates: map<Token, Fate>, owners: seq<Option<Token>>, before: map<nat, Words>,
                        after: map<nat, Words>, readers: map<nat, nat>)
    requires Linear(fates, owners, before, readers) && Extends(before, after)
    ensures Linear(fates, owners, after, map o | o in after :: if o in readers then readers[o] else 0)
  {
    LinearMeans(fates, owners, before, readers);
    NewObjectsKeep(fates, before, after, readers);
    LinearMeans(fates, owners, after, map o | o in after :: if o in readers then readers[o] else 0);
  }

  lemma AcquireKeeps(fates: map<Token, Fate>, owners: seq<Option<Token>>, objects: map<nat, Words>,
                     readers: map<nat, nat>, object_: nat, uid: nat, after: map<nat, Words>, held: nat)
    requires Linear(fates, owners, objects, readers) && object_ in objects && object_ in readers
    requires after == objects[object_ := AcquireWords(objects[object_], uid).0]
    requires held == readers[object_] + if AcquireWords(objects[object_], uid).1 then 1 else 0
    ensures Linear(fates, owners, after, readers[object_ := held])
  {
    LinearMeans(fates, owners, objects, readers);
    ReaderAdded(fates, objects, readers, object_, uid, after, held);
    LinearMeans(fates, owners, after, readers[object_ := held]);
  }

  lemma ReaderKeeps(fates: map<Token, Fate>, owners: seq<Option<Token>>, objects: map<nat, Words>,
                    readers: map<nat, nat>, object_: nat, uid: nat, after: map<nat, Words>, readers': map<nat, nat>)
    requires Linear(fates, owners, objects, readers) && object_ in objects && object_ in readers
    requires after == objects[object_ := AcquireWords(objects[object_], uid).0]
    requires readers' ==
      if AcquireWords(objects[object_], uid).1 then readers[object_ := readers[object_] + 1] else readers
    ensures Linear(fates, owners, after, readers')
  {
    var held := readers[object_] + if AcquireWords(objects[object_], uid).1 then 1 else 0;
    AcquireKeeps(fates, owners, objects, readers, object_, uid, after, held);
    assert readers[object_ := held] == readers';
  }

  lemma DropKeeps(fates: map<Token, Fate>, owners: seq<Option<Token>>, objects: map<nat, Words>,
                  readers: map<nat, nat>, object_: nat, after: map<nat, Words>)
    requires Linear(fates, owners, objects, readers) && object_ in objects && object_ in readers && readers[object_] > 0
    requires after == objects[object_ := DropWords(objects[object_])]
    ensures Linear(fates, owners, after, readers[object_ := readers[object_] - 1])
  {
    LinearMeans(fates, owners, objects, readers);
    ReaderRemoved(fates, objects, readers, object_, after);
    LinearMeans(fates, owners, after, readers[object_ := readers[object_] - 1]);
  }

  lemma KnownObjects(fates: map<Token, Fate>, owners: seq<Option<Token>>, objects: map<nat, Words>,
                     readers: map<nat, nat>)
    requires Linear(fates, owners, objects, readers)
    ensures objects.Keys == readers.Keys
    ensures forall i :: 0 <= i < |owners| && owners[i].Some? ==> Returnable(owners[i].value, objects)
  {
    LinearMeans(fates, owners, objects, readers);
    forall i | 0 <= i < |owners| && owners[i].Some? ensures Returnable(owners[i].value, objects) {
      assert Token(owners[i].value.object_, owners[i].value.uid) == owners[i].value;
    }
  }

  lemma OwnersKnown(fates: map<Token, Fate>, owners: seq<Option<Token>>, objects: map<nat, Words>,
                    readers: map<nat, nat>)
    requires Linear(fates, owners, objects, readers)
    ensures forall i :: 0 <= i < |owners| && owners[i].Some? ==> owners[i].value in fates
  {
    LinearMeans(fates, owners, objects, readers);
  }

  /** The reservation's unit can be given back. */
  predicate Returnable(t: Token, objects: map<nat, Words>) {
    t.object_ in objects && objects[t.object_].uid == t.uid && objects[t.object_].refcount > 0
  }
}
