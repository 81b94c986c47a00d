/**
 Any program that acquires, moves, prepares, cancels and destroys publish blocks
 while the manager is reset and subscribers come and go.
 */
module PublishProgram {
  import opened Machine
  import opened BlockWords
  import L = PublishLedger
  import opened Publisher

  datatype Op =
    | Acquire(clock: nat -> nat)
    | MoveConstruct(from: nat)
    | MoveAssign(to: nat, from: nat, now: nat)
    | PreparePublish(block: nat, recorded: bool, built: bool, now: nat)
    | Cancel(block: nat, now: nat)
    | Destroy(block: nat, now: nat)
    | Reset
    | Initialise(random: nat -> nat)
    | SubscriberAcquire(object_: nat, uid: nat)
    | SubscriberRelease(object_: nat)

  /** The pool gives up its blocks, or has them made anew. */
  predicate NewsPool(op: Op) {
    op.Reset? || op.Initialise?
  }

  /** The owners after an operation other than an acquisition; one whose block does not exist does nothing. */
  function OwnersAfter(op: Op, owners: seq<Option<L.Token>>): seq<Option<L.Token>> {
    match op
    case MoveConstruct(i) => if i < |owners| then owners[i := None] + [owners[i]] else owners
    case MoveAssign(to, from, _) =>
      if to < |owners| && from < |owners| && to != from then owners[to := owners[from]][from := None] else owners
    case PreparePublish(i, _, _, _) => if i < |owners| then owners[i := None] else owners
    case Cancel(i, _) => if i < |owners| then owners[i := None] else owners
    case Destroy(i, _) => if i < |owners| then owners[..i] + owners[i + 1..] else owners
    case _ => owners
  }

  /** The references of subscribers after what they do. */
  function ReadersAfter(op: Op, readers: map<nat, nat>, objects: map<nat, Words>): map<nat, nat> {
    match op
    case SubscriberAcquire(o, uid) =>
      if o in readers && o in objects && AcquireWords(objects[o], uid).1 then readers[o := readers[o] + 1] else readers
    case SubscriberRelease(o) => if o in readers && readers[o] > 0 then readers[o := readers[o] - 1] else readers
    case _ => readers
  }

  /** How reservations end. */
  function FatesAfter(op: Op, fates: map<L.Token, L.Fate>, owners: seq<Option<L.Token>>, current: set<L.Token>)
    : map<L.Token, L.Fate>
  {
    match op
    case MoveAssign(to, from, _) =>
      if to < |owners| && from < |owners| && to != from then L.Settle(fates, owners[to], L.Cancelled) else fates
    case PreparePublish(i, recorded, built, _) =>
      if i >= |owners| || owners[i].None? then fates
      else if owners[i].value in current && recorded && built then fates[owners[i].value := L.Committed]
      else fates[owners[i].value := L.Quarantined]
    case Cancel(i, _) => if i < |owners| then L.Settle(fates, owners[i], L.Cancelled) else fates
    case Destroy(i, _) => if i < |owners| then L.Settle(fates, owners[i], L.Cancelled) else fates
    case _ => fates
  }

  datatype Part = PoolPart | BlockPart | LedgerPart

  class Program {
    const manager: GpuBufferManager
    var live: seq<PublishBlock>
    ghost var owners: seq<Option<L.Token>>
    ghost var fates: map<L.Token, L.Fate>
    /** The reservations made since the pool was last reset or initialised. */
    ghost var current: set<L.Token>
    /** The operations performed. */
    ghost var history: seq<Op>
    /** The references that subscribers hold on each object. */
    var readers: map<nat, nat>

    ghost function Live(): set<PublishBlock>
      reads this`live
    {
      set b | b in live
    }

    ghost predicate Valid()
      reads this`live, this`owners, this`fates, this`current, this`readers, manager.pool, manager.pool.host, live
    {
      |owners| == |live| && forall p: Part :: Holds(p)
    }

    ghost predicate Holds(p: Part)
      reads this`live, this`owners, this`fates, this`current, this`readers, manager.pool, manager.pool.host, live
    {
      match p
      case PoolPart => manager.pool.Valid()
      case BlockPart => Blocks()
      case LedgerPart => L.Linear(fates, owners, manager.pool.host.objects, readers)
    }

    lemma Means()
      ensures Valid() <==>
        manager.pool.Valid() && Blocks() && L.Linear(fates, owners, manager.pool.host.objects, readers)
    {
      assert Holds(PoolPart) == manager.pool.Valid() && Holds(BlockPart) == Blocks();
      assert Holds(LedgerPart) == L.Linear(fates, owners, manager.pool.host.objects, readers);
    }

    // ----- what follows at every moment -----

    lemma Settles(i: nat)
      requires Valid() && i < |owners|
      ensures owners[i].Some? ==> owners[i].value in fates
      ensures L.Evolves(fates, L.Settle(fates, owners[i], L.Committed))
      ensures L.Evolves(fates, L.Settle(fates, owners[i], L.Cancelled))
      ensures L.Evolves(fates, L.Settle(fates, owners[i], L.Quarantined))
    {
      Means();
      L.OwnersKnown(fates, owners, manager.pool.host.objects, readers);
      L.SettleEvolves(fates, owners, manager.pool.host.objects, readers, i);
    }

    lemma ReadersKnown()
      requires Valid()
      ensures readers.Keys == manager.pool.host.objects.Keys
    {
      Means();
      L.KnownObjects(fates, owners, manager.pool.host.objects, readers);
    }

    lemma OneUnreturned()
      requires Valid()
      ensures L.OnePerObject(fates)
    {
      Means();
      L.OneUnreturned(fates, owners, manager.pool.host.objects, readers);
    }

    lemma NothingOutstanding()
      requires Valid() && live == []
      ensures forall t :: t in fates ==> fates[t] != L.Outstanding
    {
      Means();
      assert owners == [];
      L.NothingOutstanding(fates, manager.pool.host.objects, readers);
    }

    /**
     The live blocks are distinct, their reservations predate the next block id, `owners` is
     what they hold, and the pool owns exactly the current ones of these reservations.
     */
    ghost predicate Blocks()
      reads this`live, this`owners, this`current, manager.pool, manager.pool.host`nextBlockId, live
    {
      && |owners| == |live|
      && (forall i, j :: 0 <= i < j < |live| ==> live[i] != live[j])
      && (forall i :: 0 <= i < |live| ==>
            && owners[i] == live[i].Token()
            && (live[i].owner == null || live[i].owner == manager)
            && (live[i].owner == manager ==>
                  && live[i].reservation.blockId < manager.pool.host.nextBlockId
                  && (manager.pool.Owns(live[i].reservation) <==> owners[i].value in current)))
    }

    constructor (manager: GpuBufferManager)
      requires manager.pool.Valid() && manager.pool.host.objects == map[]
      ensures Valid() && this.manager == manager && live == [] && fates == map[] && current == {}
    {
      this.manager := manager;
      live, owners, fates, current, history, readers := [], [], map[], {}, [], map[];
      new;
      L.LinearMeans(fates, owners, manager.pool.host.objects, readers);
      Means();
    }

    /** A new block joins the live ones. */
    method Adopt(block: PublishBlock)
      requires Blocks() && block !in live && (block.owner == null || block.owner == manager)
      requires block.owner == manager ==>
        && block.reservation.blockId < manager.pool.host.nextBlockId
        && (manager.pool.Owns(block.reservation) <==> block.Token().value in current)
      modifies this`live, this`owners
      ensures Blocks() && live == old(live) + [block] && owners == old(owners) + [block.Token()]
      ensures Live() == old(Live()) + {block}
    {
      live := live + [block];
      owners := owners + [block.Token()];
    }

    method AcquireForPublish(clock: nat -> nat) returns (ghost t: Option<L.Token>)
      requires Valid()
      modifies this`live, this`owners, this`fates, this`current, manager.pool`nextBlock, manager.pool.host`objects
      ensures Valid()
      ensures t.Some? <==> old(manager.pool.Available(Times(clock)))
      ensures current == if t.Some? then old(current) + {t.value} else old(current)
      ensures t.Some? ==>
        && t.value !in old(fates) && fates == old(fates)[t.value := L.Outstanding]
        && owners == old(owners) + [t] && |live| == |old(live)| + 1 && live[..|old(live)|] == old(live)
      ensures fresh(Live() - old(Live()))
      ensures t.None? ==> live == old(live) && owners == old(owners) && fates == old(fates)
    {
      Means();
      var block;
      block, t := Reserve(clock);
      if block.Some? {
        Adopt(block.value);
      }
      Means();
    }

    /** `acquire_for_publish`, the new block not yet among the live ones. */
    method Reserve(clock: nat -> nat) returns (block: Option<PublishBlock>, ghost t: Option<L.Token>)
      requires Valid()
      modifies this`fates, this`current, manager.pool`nextBlock, manager.pool.host`objects
      ensures manager.pool.Valid() && Blocks()
      ensures t.Some? <==> old(manager.pool.Available(Times(clock)))
      ensures current == if t.Some? then old(current) + {t.value} else old(current)
      ensures block.None? ==>
        t.None? && fates == old(fates) && L.Linear(fates, owners, manager.pool.host.objects, readers)
      ensures block.Some? ==>
        && fresh(block.value) && block.value.owner == manager && block.value.Token() == t && t.Some?
        && block.value.reservation.blockId < manager.pool.host.nextBlockId
        && manager.pool.Owns(block.value.reservation)
        && t.value !in old(fates) && fates == old(fates)[t.value := L.Outstanding]
        && L.Linear(fates, owners + [t], manager.pool.host.objects, readers)
    {
      Means();
      t := None;
      ghost var before := manager.pool.host.objects;
      L.OwnersKnown(fates, owners, before, readers);
      var times := Times(clock);
      block := ReserveBlock(times);
      if block.Some? {
        var r := block.value.reservation;
        t := Some(L.Token(r.metadata, r.uid));
        EnterReserved(before, t.value, times[r.index]);
        MakeCurrent(t.value);
      }
    }

    function Times(clock: nat -> nat): (times: seq<nat>)
      reads manager.pool
      ensures |times| == |manager.pool.blocks|
    {
      seq(|manager.pool.blocks|, i requires i >= 0 => clock(i))
    }

    method ReserveBlock(times: seq<nat>) returns (block: Option<PublishBlock>)
      requires manager.pool.Valid() && Blocks() && |times| == |manager.pool.blocks|
      modifies manager.pool`nextBlock, manager.pool.host`objects
      ensures manager.pool.Valid() && Blocks()
      ensures block.Some? <==> old(manager.pool.Available(times))
      ensures block.None? ==> manager.pool.host.objects == old(manager.pool.host.objects)
      ensures block.Some? ==>
        var r := block.value.reservation;
        && fresh(block.value) && block.value.owner == manager && manager.pool.Owns(r)
        && r.blockId < manager.pool.host.nextBlockId && r.index < |times|
        && r.metadata in old(manager.pool.host.objects)
        && Reusable(old(manager.pool.host.objects)[r.metadata], times[r.index])
        && r.uid == old(manager.pool.host.objects)[r.metadata].uid + 1
        && manager.pool.host.objects == old(manager.pool.host.objects)[r.metadata := Words(r.uid, 1, 0)]
    {
      block := manager.AcquireForPublish(times);
    }

    ghost method MakeCurrent(t: L.Token)
      requires Blocks() && forall i :: 0 <= i < |owners| && owners[i].Some? ==> owners[i].value != t
      modifies this`current
      ensures Blocks() && current == old(current) + {t}
    {
      current := current + {t};
    }

    ghost method EnterReserved(before: map<nat, Words>, t: L.Token, now: nat)
      requires L.Linear(fates, owners, before, readers) && t.object_ in before
      requires Reusable(before[t.object_], now) && t.uid == before[t.object_].uid + 1
      requires manager.pool.host.objects == before[t.object_ := Words(t.uid, 1, 0)]
      modifies this`fates
      ensures t !in old(fates) && fates == old(fates)[t := L.Outstanding]
      ensures L.Linear(fates, owners + [Some(t)], manager.pool.host.objects, readers)
    {
      L.ReserveKeeps(fates, owners, before, readers, manager.pool.host.objects, t, now);
      fates := fates[t := L.Outstanding];
    }

    // ----- one block -----

    /** Every reservation that a block holds can be given back. */
    ghost predicate Ready()
      reads this`live, this`owners, this`current, manager.pool, manager.pool.host, live
    {
      && manager.pool.Valid() && Blocks()
      && forall i :: 0 <= i < |owners| && owners[i].Some? ==> L.Returnable(owners[i].value, manager.pool.host.objects)
    }

    method CancelBlock(i: nat, now: nat)
      requires Ready() && i < |live|
      modifies live[i], this`owners, manager.pool.host`objects
      ensures manager.pool.Valid() && Blocks() && owners == old(owners)[i := None]
      ensures manager.pool.host.objects == L.Returned(old(manager.pool.host.objects), old(owners[i]), false, now)
    {
      live[i].Cancel(manager.pool, now);
      owners := owners[i := None];
    }

    /** Explicit cancellation, and what a destructor does first. */
    method Cancel(i: nat, now: nat)
      requires Valid() && i < |live|
      modifies live[i], this`owners, this`fates, manager.pool.host`objects
      ensures Valid() && owners == old(owners)[i := None] && fates == L.Settle(old(fates), old(owners[i]), L.Cancelled)
    {
      Means();
      ghost var held, before := owners, manager.pool.host.objects;
      L.KnownObjects(fates, held, before, readers);
      CancelBlock(i, now);
      SettleCancelled(held, before, i, now);
      Means();
    }

    ghost method SettleCancelled(held: seq<Option<L.Token>>, before: map<nat, Words>, i: nat, now: nat)
      requires i < |held| && owners == held[i := None] && L.Linear(fates, held, before, readers)
      requires held[i].Some? ==> held[i].value.object_ in before
      requires manager.pool.host.objects == L.Returned(before, held[i], false, now)
      modifies this`fates
      ensures L.Linear(fates, owners, manager.pool.host.objects, readers)
      ensures fates == L.Settle(old(fates), held[i], L.Cancelled)
    {
      L.ReturnKeeps(fates, held, before, readers, i, false, now);
      fates := L.Settle(fates, held[i], L.Cancelled);
    }

    method PrepareBlock(i: nat, recorded: bool, built: bool, now: nat) returns (d: Option<Descriptor>)
      requires Ready() && i < |live|
      modifies live[i], this`owners, manager.pool.host`objects
      ensures manager.pool.Valid() && Blocks() && owners == old(owners)[i := None]
      ensures d.Some? <==> old(owners[i]).Some? && old(owners[i]).value in current && recorded && built
      ensures d.Some? ==> d.value.uid == old(owners[i]).value.uid
      ensures manager.pool.host.objects ==
        if d.Some? then L.Returned(old(manager.pool.host.objects), old(owners[i]), true, now)
        else old(manager.pool.host.objects)
    {
      d := live[i].PreparePublish(manager.pool, recorded, built, now);
      owners := owners[i := None];
    }

    /** A reservation is committed exactly when a descriptor comes back; otherwise it is quarantined. */
    method PreparePublish(i: nat, recorded: bool, built: bool, now: nat) returns (d: Option<Descriptor>)
      requires Valid() && i < |live|
      modifies live[i], this`owners, this`fates, manager.pool.host`objects
      ensures Valid() && owners == old(owners)[i := None]
      ensures fates == L.Settle(old(fates), old(owners[i]), if d.Some? then L.Committed else L.Quarantined)
      ensures d.Some? <==> old(owners[i]).Some? && old(owners[i]).value in current && recorded && built
      ensures d.Some? ==> d.value.uid == old(owners[i]).value.uid
    {
      Means();
      ghost var held, before := owners, manager.pool.host.objects;
      L.KnownObjects(fates, held, before, readers);
      d := PrepareBlock(i, recorded, built, now);
      SettlePrepared(held, before, i, d.Some?, now);
      Means();
    }

    ghost method SettlePrepared(held: seq<Option<L.Token>>, before: map<nat, Words>, i: nat, committed: bool, now: nat)
      requires i < |held| && owners == held[i := None] && L.Linear(fates, held, before, readers)
      requires held[i].Some? ==> held[i].value.object_ in before
      requires manager.pool.host.objects == if committed then L.Returned(before, held[i], true, now) else before
      modifies this`fates
      ensures L.Linear(fates, owners, manager.pool.host.objects, readers)
      ensures fates == L.Settle(old(fates), held[i], if committed then L.Committed else L.Quarantined)
    {
      L.PrepareKeeps(fates, held, before, readers, i, committed, now, manager.pool.host.objects);
      fates := L.Settle(fates, held[i], if committed then L.Committed else L.Quarantined);
    }

    method Destroy(i: nat, now: nat)
      requires Valid() && i < |live|
      modifies live[i], this`live, this`owners, this`fates, manager.pool.host`objects
      ensures Valid() && live == old(live)[..i] + old(live)[i + 1..]
      ensures owners == old(owners)[..i] + old(owners)[i + 1..]
      ensures fates == L.Settle(old(fates), old(owners[i]), L.Cancelled)
    {
      Means();
      Cancel(i, now);
      Means();
      L.DestroyKeeps(fates, owners, manager.pool.host.objects, readers, i);
      Remove(i);
      Means();
    }

    method Remove(i: nat)
      requires Blocks() && i < |live|
      modifies this`live, this`owners
      ensures Blocks() && live == old(live)[..i] + old(live)[i + 1..]
      ensures owners == old(owners)[..i] + old(owners)[i + 1..]
    {
      live := live[..i] + live[i + 1..];
      owners := owners[..i] + owners[i + 1..];
    }

    // ----- moves -----

    method MoveConstruct(i: nat)
      requires Valid() && i < |live|
      modifies live[i], this`live, this`owners
      ensures Valid() && |live| == |old(live)| + 1 && live[..|old(live)|] == old(live)
      ensures fresh(Live() - old(Live()))
      ensures owners == old(owners)[i := None] + [old(owners[i])]
    {
      Means();
      L.MoveConstructKeeps(fates, owners, manager.pool.host.objects, readers, i);
      MoveToNewBlock(i);
      Means();
    }

    method MoveToNewBlock(i: nat)
      requires Blocks() && i < |live|
      modifies live[i], this`live, this`owners
      ensures Blocks() && |live| == |old(live)| + 1 && live[..|old(live)|] == old(live)
      ensures fresh(Live() - old(Live()))
      ensures owners == old(owners)[i := None] + [old(owners[i])]
    {
      var block := new PublishBlock.MoveFrom(live[i]);
      owners := owners[i := None];
      Adopt(block);
    }

    method MoveAssign(i: nat, j: nat, now: nat)
      requires Valid() && i < |live| && j < |live| && i != j
      modifies live[i], live[j], this`owners, this`fates, manager.pool.host`objects
      ensures Valid() && owners == old(owners)[i := old(owners[j])][j := None]
      ensures fates == L.Settle(old(fates), old(owners[i]), L.Cancelled)
    {
      Means();
      ghost var held, before := owners, manager.pool.host.objects;
      L.KnownObjects(fates, held, before, readers);
      MoveBetween(i, j, now);
      SettleMoved(held, before, i, j, now);
      Means();
    }

    ghost method SettleMoved(held: seq<Option<L.Token>>, before: map<nat, Words>, i: nat, j: nat, now: nat)
      requires i < |held| && j < |held| && i != j && owners == held[i := held[j]][j := None]
      requires L.Linear(fates, held, before, readers)
      requires held[i].Some? ==> held[i].value.object_ in before
      requires manager.pool.host.objects == L.Returned(before, held[i], false, now)
      modifies this`fates
      ensures L.Linear(fates, owners, manager.pool.host.objects, readers)
      ensures fates == L.Settle(old(fates), held[i], L.Cancelled)
    {
      L.MoveAssignKeeps(fates, held, before, readers, i, j, now, manager.pool.host.objects);
      fates := L.Settle(fates, held[i], L.Cancelled);
    }

    method MoveBetween(i: nat, j: nat, now: nat)
      requires Ready() && i < |live| && j < |live| && i != j
      modifies live[i], live[j], this`owners, manager.pool.host`objects
      ensures manager.pool.Valid() && Blocks() && owners == old(owners)[i := old(owners[j])][j := None]
      ensures manager.pool.host.objects == L.Returned(old(manager.pool.host.objects), old(owners[i]), false, now)
    {
      live[i].MoveAssign(live[j], manager.pool, now);
      owners := owners[i := owners[j]][j := None];
    }

    method SelfAssign(i: nat, now: nat)
      requires Valid() && i < |live|
      modifies live[i], manager.pool.host`objects
      ensures Valid() && manager.pool.host.objects == old(manager.pool.host.objects)
    {
      Means();
      L.KnownObjects(fates, owners, manager.pool.host.objects, readers);
      AssignToItself(i, now);
      Means();
    }

    method AssignToItself(i: nat, now: nat)
      requires Ready() && i < |live|
      modifies live[i], manager.pool.host`objects
      ensures manager.pool.Valid() && Blocks() && manager.pool.host.objects == old(manager.pool.host.objects)
    {
      live[i].MoveAssign(live[i], manager.pool, now);
    }

    // ----- the manager and the subscribers -----

    /** Every block of the pool has an id of at least `from`, so it disowns every reservation with a smaller one. */
    predicate Newer(from: nat)
      reads manager.pool
    {
      forall i :: 0 <= i < |manager.pool.blocks| ==> from <= manager.pool.blocks[i].blockId
    }

    /** No block that is live at a reset can be committed to what follows it: the pool disowns its reservation. */
    method Reset()
      requires Valid()
      modifies manager.pool, manager.pool.host`live, this`current
      ensures Valid() && manager.pool.blocks == [] && current == {}
      ensures forall i :: 0 <= i < |live| ==> !manager.pool.Owns(live[i].reservation)
    {
      Means();
      EmptyPool();
      Means();
    }

    method EmptyPool()
      requires manager.pool.Valid() && Blocks()
      modifies manager.pool, manager.pool.host`live, this`current
      ensures manager.pool.Valid() && Blocks() && manager.pool.blocks == [] && !manager.pool.initialised
      ensures current == {}
    {
      manager.Reset();
      current := {};
    }

    method Initialise(random: nat -> nat) returns (ok: bool)
      requires Valid()
      modifies manager.pool, manager.pool.host, this`readers, this`current
      ensures current == {}
      ensures Valid() && ok == manager.pool.initialised && Newer(old(manager.pool.host.nextBlockId))
      ensures manager.pool.host.nextBlockId >= old(manager.pool.host.nextBlockId)
      ensures forall i :: 0 <= i < |live| && owners[i].Some? ==> !manager.pool.Owns(live[i].reservation)
    {
      Means();
      ghost var before := manager.pool.host.objects;
      ok := NewPool(random);
      var after := manager.pool.host.objects;
      L.InitialiseKeeps(fates, owners, before, after, readers);
      readers := map o | o in after :: if o in readers then readers[o] else 0;
      Means();
    }

    method NewPool(random: nat -> nat) returns (ok: bool)
      requires manager.pool.Valid() && Blocks()
      modifies manager.pool, manager.pool.host, this`current
      ensures manager.pool.Valid() && Blocks() && ok == manager.pool.initialised && current == {}
      ensures Extends(old(manager.pool.host.objects), manager.pool.host.objects)
      ensures Newer(old(manager.pool.host.nextBlockId))
      ensures manager.pool.host.nextBlockId >= old(manager.pool.host.nextBlockId)
      ensures forall i :: 0 <= i < |live| && owners[i].Some? ==> !manager.pool.Owns(live[i].reservation)
    {
      ok := manager.Initialise(random);
      current := {};
    }

    method SubscriberAcquire(object_: nat, uid: nat) returns (acquired: bool)
      requires Valid() && object_ in manager.pool.host.objects
      modifies manager.pool.host`objects, this`readers
      ensures Valid() && acquired == AcquireWords(old(manager.pool.host.objects)[object_], uid).1
      ensures object_ in old(readers)
      ensures readers == if acquired then old(readers)[object_ := old(readers)[object_] + 1] else old(readers)
    {
      Means();
      L.KnownObjects(fates, owners, manager.pool.host.objects, readers);
      ghost var before, objects := readers, manager.pool.host.objects;
      acquired := TakeReference(object_, uid);
      if acquired {
        readers := readers[object_ := readers[object_] + 1];
      }
      L.ReaderKeeps(fates, owners, objects, before, object_, uid, manager.pool.host.objects, readers);
      Means();
    }

    method TakeReference(object_: nat, uid: nat) returns (acquired: bool)
      requires manager.pool.Valid() && Blocks() && object_ in manager.pool.host.objects
      modifies manager.pool.host`objects
      ensures manager.pool.Valid() && Blocks()
      ensures acquired == AcquireWords(old(manager.pool.host.objects)[object_], uid).1
      ensures manager.pool.host.objects ==
        old(manager.pool.host.objects)[object_ := AcquireWords(old(manager.pool.host.objects)[object_], uid).0]
    {
      acquired := manager.pool.host.AcquireReference(object_, uid);
      manager.pool.WordsChanged();
    }

    method GiveBackReference(object_: nat)
      requires manager.pool.Valid() && Blocks() && object_ in manager.pool.host.objects
      modifies manager.pool.host`objects
      ensures manager.pool.Valid() && Blocks()
      ensures manager.pool.host.objects ==
        old(manager.pool.host.objects)[object_ := DropWords(old(manager.pool.host.objects)[object_])]
    {
      manager.pool.host.DropReference(object_);
      manager.pool.WordsChanged();
    }

    method SubscriberRelease(object_: nat)
      requires Valid() && object_ in manager.pool.host.objects && object_ in readers && readers[object_] > 0
      modifies manager.pool.host`objects, this`readers
      ensures Valid() && readers == old(readers)[object_ := old(readers)[object_] - 1]
    {
      Means();
      GiveBackReference(object_);
      L.DropKeeps(fates, owners, old(manager.pool.host.objects), readers, object_, manager.pool.host.objects);
      readers := readers[object_ := readers[object_] - 1];
      Means();
    }

    // ----- whole runs -----

    /** What was current stays so, and so is every new reservation. */
    twostate predicate StaysCurrent()
      reads this
    {
      old(current) <= current && forall t :: t in fates && t !in old(fates) ==> t in current
    }

    /** One operation. */
    method Perform(op: Op, ghost from: nat)
      requires Valid() && Newer(from) && from <= manager.pool.host.nextBlockId
      modifies this, Live(), manager.pool, manager.pool.host
      ensures !NewsPool(op) ==> StaysCurrent()
      ensures history == old(history) + [op] && (NewsPool(op) ==> current == {})
      ensures op.Acquire? ==>
        |owners| == |old(owners)| + if old(manager.pool.Available(Times(op.clock))) then 1 else 0
      ensures !op.Acquire? ==>
        owners == OwnersAfter(op, old(owners)) && fates == FatesAfter(op, old(fates), old(owners), old(current))
      ensures !NewsPool(op) ==> readers == ReadersAfter(op, old(readers), old(manager.pool.host.objects))
      ensures Valid() && L.Evolves(old(fates), fates)
      ensures Newer(from) && from <= manager.pool.host.nextBlockId
      ensures fresh(Live() - old(Live()))
    {
      history := history + [op];
      match op {
        case Acquire(_) => PerformGrowing(op);
        case MoveConstruct(_) => PerformGrowing(op);
        case MoveAssign(to, from, now) => PerformMove(to, from, now);
        case PreparePublish(_, _, _, _) => PerformSettling(op);
        case Cancel(_, _) => PerformSettling(op);
        case Destroy(_, _) => PerformSettling(op);
        case Reset => Reset();
        case Initialise(random) => var ok := Initialise(random);
        case SubscriberAcquire(object_, uid) => PerformAcquire(object_, uid);
        case SubscriberRelease(object_) => PerformRelease(object_);
      }
    }

    /** The operations after which a new block is live. */
    method PerformGrowing(op: Op)
      requires Valid() && (op.Acquire? || op.MoveConstruct?)
      modifies this`live, this`owners, this`fates, this`current, Live(), manager.pool`nextBlock,
               manager.pool.host`objects
      ensures Valid() && L.Evolves(old(fates), fates) && StaysCurrent()
      ensures fresh(Live() - old(Live()))
      ensures op.Acquire? ==>
        |owners| == |old(owners)| + if old(manager.pool.Available(Times(op.clock))) then 1 else 0
      ensures op.MoveConstruct? ==> owners == OwnersAfter(op, old(owners)) && fates == old(fates)
    {
      match op {
        case Acquire(clock) =>
          ghost var t := AcquireForPublish(clock);
        case MoveConstruct(from) =>
          if from < |live| {
            MoveConstruct(from);
          }
      }
    }

    /** Move assignment, to another block or to itself. */
    method PerformMove(to: nat, from: nat, now: nat)
      requires Valid()
      modifies this`live, this`owners, this`fates, Live(), manager.pool.host`objects
      ensures Valid() && L.Evolves(old(fates), fates) && StaysCurrent()
      ensures live == old(live) && owners == OwnersAfter(Op.MoveAssign(to, from, now), old(owners))
      ensures fates == FatesAfter(Op.MoveAssign(to, from, now), old(fates), old(owners), old(current))
    {
      if to < |live| && from < |live| {
        if to == from {
          SelfAssign(to, now);
        } else {
          Settles(to);
          MoveAssign(to, from, now);
        }
      }
    }

    /** The operations that bring one reservation to its end. */
    method PerformSettling(op: Op)
      requires Valid() && (op.PreparePublish? || op.Cancel? || op.Destroy?)
      modifies this`live, this`owners, this`fates, Live(), manager.pool.host`objects
      ensures Valid() && L.Evolves(old(fates), fates) && StaysCurrent()
      ensures Live() <= old(Live())
      ensures owners == OwnersAfter(op, old(owners)) && fates == FatesAfter(op, old(fates), old(owners), old(current))
    {
      match op {
        case PreparePublish(block, recorded, built, now) =>
          if block < |live| {
            Settles(block);
            var d := PreparePublish(block, recorded, built, now);
          }
        case Cancel(block, now) =>
          if block < |live| {
            Settles(block);
            Cancel(block, now);
          }
        case Destroy(block, now) =>
          if block < |live| {
            Settles(block);
            Destroy(block, now);
          }
      }
    }

    /** What subscribers do. */
    method PerformAcquire(object_: nat, uid: nat)
      requires Valid()
      modifies manager.pool.host`objects, this`readers
      ensures Valid()
      ensures readers == ReadersAfter(Op.SubscriberAcquire(object_, uid), old(readers), old(manager.pool.host.objects))
    {
      if object_ in manager.pool.host.objects {
        var acquired := SubscriberAcquire(object_, uid);
      }
    }

    method PerformRelease(object_: nat)
      requires Valid()
      modifies manager.pool.host`objects, this`readers
      ensures Valid()
      ensures readers == ReadersAfter(Op.SubscriberRelease(object_), old(readers), old(manager.pool.host.objects))
    {
      ReadersKnown();
      if object_ in readers && readers[object_] > 0 {
        SubscriberRelease(object_);
      }
    }

    /** Any sequence of operations; `from` is an id that all blocks of the pool have reached. */
    method Execute(ops: seq<Op>, ghost from: nat)
      requires Valid() && Newer(from) && from <= manager.pool.host.nextBlockId
      modifies this, Live(), manager.pool, manager.pool.host
      ensures Valid() && L.Evolves(old(fates), fates) && fresh(Live() - old(Live()))
      ensures Newer(from) && from <= manager.pool.host.nextBlockId
      ensures L.OnePerObject(fates)
      ensures (forall k :: 0 <= k < |ops| ==> !NewsPool(ops[k])) ==> StaysCurrent()
      ensures history == old(history) + ops
    {
      for i := 0 to |ops|
        invariant Valid() && L.Evolves(old(fates), fates) && fresh(Live() - old(Live()))
        invariant (forall k :: 0 <= k < i ==> !NewsPool(ops[k])) ==> StaysCurrent()
        invariant history == old(history) + ops[..i]
        invariant Newer(from) && from <= manager.pool.host.nextBlockId
      {
        ghost var before := fates;
        Perform(ops[i], from);
        assert ops[..i + 1] == ops[..i] + [ops[i]];
        L.EvolvesThen(old(fates), before, fates);
      }
      assert ops[..|ops|] == ops;
      OneUnreturned();
    }

    /** A reservation that is live at a reset is disowned for ever, whatever is done afterwards. */
    method ResetAndExecute(ops: seq<Op>)
      requires Valid()
      modifies this, Live(), manager.pool, manager.pool.host
      ensures Valid() && L.Evolves(old(fates), fates) && history == old(history) + ops
      ensures forall i :: 0 <= i < |old(live)| && old(owners)[i].Some? ==>
        !manager.pool.Owns(old(live[i].reservation))
    {
      Means();
      Reset();
      Execute(ops, manager.pool.host.nextBlockId);
    }

    /**
     Any sequence of operations that leaves the pool as it is, and then the publication of
     a live block: it succeeds for every reservation made by this pool, before or meanwhile.
     */
    method ExecuteAndPublish(ops: seq<Op>, i: nat, now: nat) returns (d: Option<Descriptor>, ghost t: Option<L.Token>)
      requires Valid() && forall k :: 0 <= k < |ops| ==> !NewsPool(ops[k])
      modifies this, Live(), manager.pool, manager.pool.host
      ensures Valid() && L.Evolves(old(fates), fates) && history == old(history) + ops
      ensures d.Some? <==> t.Some? && t.value in current
      ensures t.Some? ==>
        && t.value in fates
        && (t.value in old(current) || t.value !in old(fates) ==>
              d.Some? && d.value.uid == t.value.uid && fates[t.value] == L.Committed)
    {
      d, t := None, None;
      Execute(ops, 0);
      if i < |live| {
        ghost var before := fates;
          Settles(i);
        t := owners[i];
        d := PreparePublish(i, true, true, now);
        L.EvolvesThen(old(fates), before, fates);
      }
    }

    /** Any sequence of operations, and then the end of every live block: nothing is left outstanding. */
    method ExecuteAndDestroy(ops: seq<Op>, now: nat)
      requires Valid()
      modifies this, Live(), manager.pool, manager.pool.host
      ensures Valid() && L.Evolves(old(fates), fates) && live == [] && history == old(history) + ops
      ensures forall t :: t in fates ==> fates[t] != L.Outstanding
    {
      Execute(ops, 0);
      ghost var before := fates;
      DestroyAll(now);
      L.EvolvesThen(old(fates), before, fates);
    }

    method DestroyAll(now: nat)
      requires Valid()
      modifies this`live, this`owners, this`fates, Live(), manager.pool.host`objects
      ensures Valid() && L.Evolves(old(fates), fates) && live == []
      ensures forall t :: t in fates ==> fates[t] != L.Outstanding
    {
      while live != []
        invariant Valid() && L.Evolves(old(fates), fates) && Live() <= old(Live())
        decreases |live|
      {
        ghost var before := fates;
        DestroyLast(now);
        L.EvolvesThen(old(fates), before, fates);
      }
      NothingOutstanding();
    }

    method DestroyLast(now: nat)
      requires Valid() && live != []
      modifies this`live, this`owners, this`fates, Live(), manager.pool.host`objects
      ensures Valid() && L.Evolves(old(fates), fates) && |live| == |old(live)| - 1 && Live() <= old(Live())
    {
      Settles(|live| - 1);
      Destroy(|live| - 1, now);
    }
  }
}
