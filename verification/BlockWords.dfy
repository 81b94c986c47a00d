/**
 The three shared words of one GPU block and the effect of each `BufferRef` call
 that runs without interference.
 */
module BlockWords {

  import opened Machine

  const GRACE_PERIOD_US: nat := 100000

  datatype Words = Words(uid: nat, refcount: nat, stamp: nat)

  /** The timestamp guard of `reserve_for_publish`: the grace period lets the block go. */
  predicate GracePassed(stamp: nat, now: nat) {
    stamp == 0 || (stamp <= now && GRACE_PERIOD_US <= now - stamp)
  }

  /** `fetch_sub(1)` on a 32-bit word. */
  function FetchSub(refcount: nat): nat {
    if refcount == 0 then U32_MAX else refcount - 1
  }

  predicate Reusable(w: Words, now: nat) {
    w.refcount == 0 && GracePassed(w.stamp, now) && w.uid != U64_MAX
  }

  /** The words after `reserve_for_publish`, and the uid reserved if any. */
  function ReserveWords(w: Words, now: nat): (Words, Option<nat>) {
    if Reusable(w, now) then (Words(w.uid + 1, 1, 0), Some(w.uid + 1)) else (w, None)
  }

  /** The words after `release_publisher_reservation`, and its result. */
  function ReleaseWords(w: Words, uid: nat, published: bool, now: nat): (Words, bool) {
    if w.uid != uid then (w, false)
    else
      var stamp := if published then now else w.stamp;
      (Words(w.uid, if w.refcount == 0 then 0 else w.refcount - 1, stamp), w.refcount != 0)
  }

  /** The words after `acquire`, and whether a reference was acquired. */
  function AcquireWords(w: Words, uid: nat): (Words, bool) {
    if w.uid != uid || w.refcount == U32_MAX then (w, false)
    else (w.(refcount := w.refcount + 1), true)
  }

  /** The words after `BufferRef::release`. */
  function DropWords(w: Words): Words {
    w.(refcount := if w.refcount == 0 then 0 else w.refcount - 1)
  }

  /** Objects are only added, and a new one has no reference and no publication. */
  predicate Extends(before: map<nat, Words>, after: map<nat, Words>) {
    && (forall o :: o in before ==> o in after && after[o] == before[o])
    && (forall o :: o in after && o !in before ==> after[o].refcount == 0 && after[o].stamp == 0)
  }
}
