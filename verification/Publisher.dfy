/**
 `GpuBufferManager` and the move-only `PublishBlock`, and a program that uses any
 number of blocks in any order.
 */
module Publisher {
  import opened Machine
  import opened BlockWords
  import opened Hosts
  import opened BufferPool
  import opened PublishLedger

  datatype Descriptor = Descriptor(blockId: nat, uid: nat)

  class GpuBufferManager {
    const byteSize: nat
    const pool: GpuBufferPool

    constructor (pool: GpuBufferPool, byteSize: nat)
      ensures this.pool == pool && this.byteSize == byteSize
    {
      this.pool, this.byteSize := pool, byteSize;
    }

    /**
     `initialise`: a full pool of blocks with distinct ids never issued before, or
     nothing: no address range, allocation, descriptor, server, context, event or
     name that it created is live.  If cleaning up cannot make a context current,
     only events are left.
     */
    method Initialise(random: nat -> nat) returns (ok: bool)
      requires pool.Valid()
      modifies pool, pool.host
      ensures ok <==>
        && 0 < pool.blockCount <= U32_MAX && byteSize > 0
        && old(pool.host.nextBlockId) + pool.blockCount <= U32_MAX
        && pool.host.NoneFailed(old(pool.host.calls), pool.host.calls)
      ensures pool.Valid() && pool.initialised == ok && pool.host.nextBlockId >= old(pool.host.nextBlockId)
      ensures Extends(old(pool.host.objects), pool.host.objects)
      ensures ok ==>
        && |pool.blocks| == pool.blockCount && Distinct(pool.blocks)
        && (forall i :: 0 <= i < |pool.blocks| ==>
              Complete(pool.blocks[i]) && old(pool.host.nextBlockId) <= pool.blocks[i].blockId)
        && OnlyAdds(old(pool.Bare()), pool.host.live, BufferPool.Owned(pool.blocks) + Handle(Context, pool.context),
                    old(pool.host.nextBlockId), pool.host.nextBlockId)
      ensures !ok && pool.host.cleanupWorks ==>
        OnlyAdds(old(pool.Bare()), pool.host.live, {}, old(pool.host.nextBlockId), pool.host.nextBlockId)
      ensures !ok ==> forall r :: r in pool.host.live && r !in old(pool.Bare()) ==> r.kind == Event
    {
      pool.Reset();
      ok := pool.Initialise(byteSize, random);
    }

    method Reset()
      requires pool.Valid()
      modifies pool, pool.host`live
      ensures pool.Valid() && !pool.initialised && pool.host.live == old(pool.Bare())
    {
      pool.Reset();
    }

    /** `acquire_for_publish`: a block that owns a new reservation of this pool. */
    method AcquireForPublish(times: seq<nat>) returns (b: Option<PublishBlock>)
      requires pool.Valid() && |times| == |pool.blocks|
      modifies pool`nextBlock, pool.host`objects
      ensures pool.Valid()
      ensures b.Some? <==> old(pool.Choice(times)).Some?
      ensures b.Some? <==> old(pool.Available(times))
      ensures b.None? ==> pool.nextBlock == old(pool.nextBlock) && pool.host.objects == old(pool.host.objects)
      ensures b.Some? ==>
        var r := b.value.reservation;
        && fresh(b.value) && b.value.owner == this
        && pool.Owns(r) && r.blockId < pool.host.nextBlockId && old(pool.Choice(times)) == Some(r.index)
        && r.metadata in old(pool.host.objects) && Reusable(old(pool.host.objects)[r.metadata], times[r.index])
        && r.uid == old(pool.host.objects)[r.metadata].uid + 1
        && pool.host.objects == old(pool.host.objects)[r.metadata := Words(r.uid, 1, 0)]
    {
      b := None;
      pool.ChoiceIfAvailable(times);
      if !pool.initialised {
        return;
      }
      var r := pool.ReserveForPublish(times);
      if r.None? {
        return;
      }
      var block := new PublishBlock(this, r.value);
      b := Some(block);
    }
  }

  class PublishBlock {
    /** Null once the block owns no reservation. */
    var owner: GpuBufferManager?
    var reservation: Reservation

    constructor (owner: GpuBufferManager, reservation: Reservation)
      ensures this.owner == owner && this.reservation == reservation
    {
      this.owner, this.reservation := owner, reservation;
    }

    constructor MoveFrom(other: PublishBlock)
      modifies other`owner
      ensures owner == old(other.owner) && reservation == other.reservation && other.owner == null
    {
      owner, reservation := other.owner, other.reservation;
      new;
      other.owner := null;
    }

    function Token(): Option<PublishLedger.Token>
      reads this
    {
      if owner == null then None else Some(PublishLedger.Token(reservation.metadata, reservation.uid))
    }

    /** The block's reservation, if it owns one, is of this pool's manager. */
    ghost predicate Usable(pool: GpuBufferPool)
      reads this, owner, pool, pool.host
    {
      && pool.Valid()
      && (owner != null ==> owner.pool == pool && reservation.metadata in pool.host.objects)
    }

    /** `cancel`: the block owns nothing afterwards, whether or not the reservation could be returned. */
    method Cancel(ghost pool: GpuBufferPool, now: nat)
      requires Usable(pool)
      modifies this`owner, pool.host`objects
      ensures pool.Valid() && owner == null
      ensures pool.host.objects == Returned(old(pool.host.objects), old(Token()), false, now)
    {
      if owner != null {
        var done := owner.pool.Cancel(reservation, now);
        if done {
          owner := null;
        } else {
          Quarantine();
        }
      }
    }

    /** Move assignment: the block's own reservation is cancelled first. */
    method MoveAssign(other: PublishBlock, ghost pool: GpuBufferPool, now: nat)
      requires Usable(pool) && other.Usable(pool)
      modifies this, other`owner, pool.host`objects
      ensures pool.Valid()
      ensures this == other ==>
        && owner == old(owner) && reservation == old(reservation)
        && pool.host.objects == old(pool.host.objects)
      ensures this != other ==>
        && owner == old(other.owner) && reservation == old(other.reservation) && other.owner == null
        && pool.host.objects == Returned(old(pool.host.objects), old(Token()), false, now)
    {
      if this != other {
        Cancel(pool, now);
        owner, reservation := other.owner, other.reservation;
        other.owner := null;
      }
    }

    method Quarantine()
      modifies this`owner
      ensures owner == null
    {
      owner := null;
    }

    /**
     `prepare_publish`: a descriptor exactly when the pool still has the block, the
     ready event is recorded, the descriptor is built and the commit succeeds.  Any
     failure quarantines the reservation: its unit is not returned.
     */
    method PreparePublish(ghost pool: GpuBufferPool, recorded: bool, built: bool, now: nat)
      returns (d: Option<Descriptor>)
      requires Usable(pool)
      modifies this`owner, pool.host`objects
      ensures pool.Valid() && owner == null
      ensures d.Some? ==> d.value == Descriptor(reservation.blockId, reservation.uid)
      ensures
        if old(owner) != null && old(owner.pool.Owns(reservation)) && recorded && built then
          && pool.host.objects == Returned(old(pool.host.objects), old(Token()), true, now)
          && d.Some? == ReleaseWords(old(pool.host.objects)[reservation.metadata], reservation.uid, true, now).1
        else
          d.None? && pool.host.objects == old(pool.host.objects)
    {
      d := None;
      if owner == null {
        return;
      }
      if !owner.pool.Owns(reservation) || !recorded {
        Quarantine();
        return;
      }
      if !owner.pool.Owns(reservation) || !built {
        Quarantine();
        return;
      }
      var committed := owner.pool.Commit(reservation, now);
      if !committed {
        Quarantine();
        return;
      }
      owner := null;
      d := Some(Descriptor(reservation.blockId, reservation.uid));
    }
  }
}
