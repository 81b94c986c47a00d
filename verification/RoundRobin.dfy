/** The round-robin choice of `GpuBufferPool::reserve_for_publish`. */
module RoundRobin {
  import opened Machine

  /** An index taken modulo the number of blocks. */
  function Cyclic(x: nat, n: nat): (index: nat)
    requires n > 0
    ensures index < n
  {
    if x < n then x else Cyclic(x - n, n)
  }

  lemma {:induction false} CyclicIsRemainder(x: nat, n: nat)
    requires n > 0
    ensures Cyclic(x, n) == x % n
  {
    if x >= n {
      CyclicIsRemainder(x - n, n);
      RemainderShift(x - n, n);
    }
  }

  /** The first reusable block in cyclic order from `cursor`, starting at `offset`. */
  function Scan(reusable: seq<bool>, cursor: nat, offset: nat): Option<nat>
    requires cursor < |reusable|
    decreases |reusable| - offset
  {
    if offset >= |reusable| then None
    else
      var index := Cyclic(cursor + offset, |reusable|);
      if reusable[index] then Some(index) else Scan(reusable, cursor, offset + 1)
  }

  lemma ScanStep(reusable: seq<bool>, cursor: nat, offset: nat, index: nat)
    requires cursor < |reusable| && offset < |reusable| && index == Cyclic(cursor + offset, |reusable|)
    ensures
      Scan(reusable, cursor, offset) == if reusable[index] then Some(index) else Scan(reusable, cursor, offset + 1)
  {
  }

  /** How far `index` is from `cursor` going round. */
  function Distance(n: nat, cursor: nat, index: nat): nat
    requires cursor < n && index < n
  {
    if cursor <= index then index - cursor else index + n - cursor
  }

  lemma DistanceIndex(n: nat, cursor: nat, index: nat)
    requires cursor < n && index < n
    ensures Distance(n, cursor, index) < n
    ensures Cyclic(cursor + Distance(n, cursor, index), n) == index
  {
    if index < cursor {
      assert cursor + Distance(n, cursor, index) == index + n;
    }
  }

  lemma IndexDistance(n: nat, cursor: nat, offset: nat)
    requires cursor < n && offset < n
    ensures Distance(n, cursor, Cyclic(cursor + offset, n)) == offset
  {
    if cursor + offset >= n {
      assert Cyclic(cursor + offset, n) == cursor + offset - n;
    }
  }

  /** The scan returns the reusable block nearest to the cursor, and nothing only if none is reusable. */
  lemma {:induction false} ScanIsNearest(reusable: seq<bool>, cursor: nat, offset: nat)
    requires cursor < |reusable| && offset <= |reusable|
    ensures
      var n := |reusable|;
      match Scan(reusable, cursor, offset)
      case None => forall k: nat :: k < n && offset <= Distance(n, cursor, k) ==> !reusable[k]
      case Some(index) =>
        && index < n && reusable[index] && offset <= Distance(n, cursor, index)
        && forall k: nat :: k < n && offset <= Distance(n, cursor, k) < Distance(n, cursor, index) ==> !reusable[k]
    decreases |reusable| - offset
  {
    var n := |reusable|;
    forall k: nat | k < n ensures Distance(n, cursor, k) < n {
      DistanceIndex(n, cursor, k);
    }
    if offset < n {
      var index := Cyclic(cursor + offset, n);
      IndexDistance(n, cursor, offset);
      forall k: nat | k < n && Distance(n, cursor, k) == offset ensures k == index {
        DistanceIndex(n, cursor, k);
      }
      if !reusable[index] {
        ScanIsNearest(reusable, cursor, offset + 1);
      }
    }
  }

  /** The cursor after a scan. */
  function Advance(reusable: seq<bool>, cursor: nat): nat
    requires cursor < |reusable|
  {
    match Scan(reusable, cursor, 0)
    case None => cursor
    case Some(index) => Cyclic(index + 1, |reusable|)
  }

  /** The blocks chosen by successive scans. */
  function Choices(scans: seq<seq<bool>>, n: nat, cursor: nat): (choices: seq<Option<nat>>)
    requires cursor < n && forall i :: 0 <= i < |scans| ==> |scans[i]| == n
    ensures |choices| == |scans|
  {
    if scans == [] then []
    else
      ScanIsNearest(scans[0], cursor, 0);
      [Scan(scans[0], cursor, 0)] + Choices(scans[1..], n, Advance(scans[0], cursor))
  }

  lemma DistanceInjective(n: nat, cursor: nat, i: nat, j: nat)
    requires cursor < n && i < n && j < n
    ensures Distance(n, cursor, i) == Distance(n, cursor, j) <==> i == j
  {
  }

  /** Moving the cursor just past a nearer block shortens the distance by that block's and one. */
  lemma DistanceAfter(n: nat, cursor: nat, index: nat, k: nat, next: nat)
    requires cursor < n && index < n && k < n && next == (if index + 1 == n then 0 else index + 1)
    requires Distance(n, cursor, index) < Distance(n, cursor, k)
    ensures Distance(n, next, k) == Distance(n, cursor, k) - Distance(n, cursor, index) - 1
  {
  }

  lemma NextIndex(n: nat, index: nat)
    requires index < n
    ensures Cyclic(index + 1, n) == (if index + 1 == n then 0 else index + 1)
  {
  }

  /** A scan that passes over a reusable block brings the cursor strictly nearer to it. */
  lemma PassedOverComesNearer(reusable: seq<bool>, cursor: nat, k: nat)
    requires cursor < |reusable| && k < |reusable| && reusable[k]
    requires Scan(reusable, cursor, 0) != Some(k)
    ensures Advance(reusable, cursor) < |reusable|
    ensures Distance(|reusable|, Advance(reusable, cursor), k) < Distance(|reusable|, cursor, k)
  {
    var n := |reusable|;
    ScanIsNearest(reusable, cursor, 0);
    var index := Scan(reusable, cursor, 0).value;
    DistanceInjective(n, cursor, index, k);
    NextIndex(n, index);
    DistanceAfter(n, cursor, index, k, Advance(reusable, cursor));
  }

  /**
   No starvation: a block that stays reusable is chosen after at most its cyclic
   distance from the cursor further reservations, hence within n of them.
   */
  lemma {:induction false} NoStarvation(scans: seq<seq<bool>>, n: nat, cursor: nat, k: nat)
    requires cursor < n && k < n
    requires forall i :: 0 <= i < |scans| ==> |scans[i]| == n && scans[i][k]
    requires Distance(n, cursor, k) < |scans|
    ensures exists i :: 0 <= i <= Distance(n, cursor, k) && Choices(scans, n, cursor)[i] == Some(k)
    decreases |scans|
  {
    var choices := Choices(scans, n, cursor);
    if Scan(scans[0], cursor, 0) == Some(k) {
      assert choices[0] == Some(k);
    } else {
      PassedOverComesNearer(scans[0], cursor, k);
      var cursor' := Advance(scans[0], cursor);
      NoStarvation(scans[1..], n, cursor', k);
      var i :| 0 <= i <= Distance(n, cursor', k) && Choices(scans[1..], n, cursor')[i] == Some(k);
      assert choices[i + 1] == Some(k);
    }
  }
}
