/**
 The checksum kernel: its launch grid and its result under any order of the
 atomic additions.
 */
module Checksum {
  import opened Machine

  const BLOCK_SIZE: nat := 256

  datatype Thread = Thread(block: nat, lane: nat)

  function Index(t: Thread): nat {
    t.block * BLOCK_SIZE + t.lane
  }

  /** The 32-bit grid computation of the launcher. */
  function Grid(count: nat): nat {
    ((count % (U32_MAX + 1) + (BLOCK_SIZE - 1)) % (U32_MAX + 1)) / BLOCK_SIZE
  }

  predicate Bytes(input: seq<nat>) {
    forall i :: 0 <= i < |input| ==> input[i] <= 255
  }

  /** What the thread with this index adds. */
  function Contribution(input: seq<nat>, index: nat): nat {
    if index >= |input| then 0 else input[index] * (index % 251 + 1)
  }

  /** The accumulator after the atomic additions of `schedule`, in that order. */
  function Execute(input: seq<nat>, schedule: seq<Thread>, accumulator: nat): nat {
    if schedule == [] then accumulator
    else Execute(input, schedule[1..], (accumulator + Contribution(input, Index(schedule[0]))) % (U64_MAX + 1))
  }

  /** Every thread of a grid runs exactly once, in the order of `schedule`. */
  predicate Launched(schedule: seq<Thread>, grid: nat) {
    && (forall t :: t in schedule ==> t.block < grid && t.lane < BLOCK_SIZE)
    && (forall b: nat, l: nat :: b < grid && l < BLOCK_SIZE ==> multiset(schedule)[Thread(b, l)] == 1)
  }

  /** One thread of `checksum_u8_kernel`: past the end it returns, otherwise it adds atomically. */
  method ChecksumKernel(input: seq<nat>, t: Thread, checksum: array<nat>)
    requires checksum.Length == 1 && checksum[0] <= U64_MAX
    modifies checksum
    ensures checksum[0] == (old(checksum[0]) + Contribution(input, Index(t))) % (U64_MAX + 1)
  {
    var index := t.block * BLOCK_SIZE + t.lane;
    if index >= |input| {
      return;
    }
    checksum[0] := (checksum[0] + input[index] * (index % 251 + 1)) % (U64_MAX + 1);
  }

  /** A launch over a zeroed accumulator, with the threads in any order. */
  method Launch(input: seq<nat>, schedule: seq<Thread>, checksum: array<nat>)
    requires 0 < |input| <= U32_MAX - (BLOCK_SIZE - 1) && Launched(schedule, Grid(|input|))
    requires checksum.Length == 1 && checksum[0] == 0
    modifies checksum
    ensures checksum[0] == Sum(input, |input|) % (U64_MAX + 1)
  {
    var i := 0;
    while i < |schedule|
      invariant i <= |schedule| && checksum[0] <= U64_MAX
      invariant Execute(input, schedule[i..], checksum[0]) == Execute(input, schedule, 0)
    {
      ChecksumKernel(input, schedule[i], checksum);
      assert schedule[i..][1..] == schedule[i + 1..];
      i := i + 1;
    }
    ChecksumScheduleIndependent(input, schedule);
  }

  function Sum(input: seq<nat>, n: nat): nat {
    if n == 0 then 0 else Sum(input, n - 1) + Contribution(input, n - 1)
  }

  /** The sequential checksum of the tests, in 64-bit arithmetic. */
  method SequentialChecksum(input: seq<nat>) returns (checksum: nat)
    requires Bytes(input)
    ensures checksum == Sum(input, |input|) % (U64_MAX + 1)
  {
    checksum := 0;
    for i := 0 to |input|
      invariant checksum == Sum(input, i) % (U64_MAX + 1)
    {
      AddMod(Sum(input, i), Contribution(input, i), U64_MAX + 1);
      checksum := (checksum + input[i] * (i % 251 + 1)) % (U64_MAX + 1);
    }
  }

  // ----- what the weights are for -----

  /** The weight of the element with this index. */
  function Weight(index: nat): nat {
    Contribution(seq(index + 1, _ => 1), index)
  }

  /** Weights count from 1 to 251 and start again. */
  lemma WeightCycle(index: nat)
    ensures Weight(0) == 1 && 1 <= Weight(index) <= 251
    ensures Weight(index + 1) == if Weight(index) == 251 then 1 else Weight(index) + 1
  {
    assert index == index / 251 * 251 + index % 251;
    if index % 251 == 250 {
      DivisionUnique(index + 1, index / 251 + 1, 0, 251);
    } else {
      DivisionUnique(index + 1, index / 251, index % 251 + 1, 251);
    }
  }

  /** An element counts with its weight. */
  lemma ElementCounts(input: seq<nat>, index: nat)
    ensures Contribution(input, index) == if index < |input| then input[index] * Weight(index) else 0
  {
    assert (1 * Weight(index)) == Weight(index);
  }

  /** Changing one element changes the sum by what it contributes. */
  lemma {:induction false} SumUpdate(input: seq<nat>, i: nat, b: nat, n: nat)
    requires i < n
    requires i < |input|
    ensures Sum(input[i := b], n) + Contribution(input, i) == Sum(input, n) + Contribution(input[i := b], i)
    decreases n
  {
    if n - 1 == i {
      SumBefore(input, i, b, i);
    } else {
      SumUpdate(input, i, b, n - 1);
    }
  }

  lemma {:induction false} SumBefore(input: seq<nat>, i: nat, b: nat, n: nat)
    requires n <= i < |input|
    ensures Sum(input[i := b], n) == Sum(input, n)
    decreases n
  {
    if n > 0 {
      SumBefore(input, i, b, n - 1);
    }
  }

  lemma ResiduesDiffer(x: nat, y: nat, m: nat)
    requires x < y < x + m
    ensures x % m != y % m
  {
    var q, q' := x / m, y / m;
    assert x == q * m + x % m && y == q' * m + y % m && (q + 1) * m == q * m + m;
    if x % m == y % m {
      if q' <= q {
        MulMonotone(q', q, m);
      } else {
        MulMonotone(q + 1, q', m);
      }
    }
  }

  /** Different sums whose difference is far below 2^64. */
  predicate Near(x: nat, y: nat) {
    x != y && x <= y + U32_MAX && y <= x + U32_MAX
  }

  /** Different sums that are near each other have different checksums. */
  lemma NearSums(x: nat, y: nat)
    requires Near(x, y)
    ensures x % (U64_MAX + 1) != y % (U64_MAX + 1)
  {
    if x < y {
      ResiduesDiffer(x, y, U64_MAX + 1);
    } else {
      ResiduesDiffer(y, x, U64_MAX + 1);
    }
  }

  lemma Product(a: nat, w: nat)
    requires a <= 255 && w <= 251
    ensures a * w <= 255 * 251
  {
    MulMonotone(a, 255, w);
  }

  lemma ContributionBound(input: seq<nat>, i: nat)
    requires Bytes(input)
    ensures Contribution(input, i) <= 255 * 251
  {
    ElementCounts(input, i);
    WeightCycle(i);
    if i < |input| {
      Product(input[i], Weight(i));
    }
  }

  lemma ContributionsDiffer(input: seq<nat>, i: nat, b: nat)
    requires i < |input| && b != input[i]
    ensures Contribution(input, i) != Contribution(input[i := b], i)
  {
    ElementCounts(input, i);
    ElementCounts(input[i := b], i);
    WeightCycle(i);
    MulStrict(input[i], b, Weight(i));
  }

  lemma MulStrict(a: nat, b: nat, w: nat)
    requires a != b && w > 0
    ensures a * w != b * w
  {
    if a < b {
      MulMonotone(a + 1, b, w);
      assert (a + 1) * w == a * w + w;
    } else {
      MulMonotone(b + 1, a, w);
      assert (b + 1) * w == b * w + w;
    }
  }

  /** The checksum notices every change of a single byte. */
  lemma OneByteDetected(input: seq<nat>, i: nat, b: nat)
    requires Bytes(input) && i < |input| && b <= 255 && b != input[i]
    ensures Sum(input[i := b], |input|) % (U64_MAX + 1) != Sum(input, |input|) % (U64_MAX + 1)
  {
    ByteChanges(input, i, b);
    NearSums(Sum(input, |input|), Sum(input[i := b], |input|));
  }

  lemma ByteChanges(input: seq<nat>, i: nat, b: nat)
    requires Bytes(input) && i < |input| && b <= 255 && b != input[i]
    ensures Near(Sum(input, |input|), Sum(input[i := b], |input|))
  {
    SumUpdate(input, i, b, |input|);
    ContributionBound(input, i);
    ContributionBound(input[i := b], i);
    ContributionsDiffer(input, i, b);
  }

  /** The checksum notices when two different bytes of different weights change places. */
  lemma SwapDetected(input: seq<nat>, i: nat, j: nat)
    requires Bytes(input) && i < |input| && j < |input| && input[i] != input[j] && Weight(i) != Weight(j)
    ensures
      Sum(input[i := input[j]][j := input[i]], |input|) % (U64_MAX + 1) != Sum(input, |input|) % (U64_MAX + 1)
  {
    SwapChanges(input, i, j);
    NearSums(Sum(input, |input|), Sum(input[i := input[j]][j := input[i]], |input|));
  }

  lemma SwapChanges(input: seq<nat>, i: nat, j: nat)
    requires Bytes(input) && i < |input| && j < |input| && input[i] != input[j] && Weight(i) != Weight(j)
    ensures Near(Sum(input, |input|), Sum(input[i := input[j]][j := input[i]], |input|))
  {
    var once := input[i := input[j]];
    var twice := once[j := input[i]];
    SumUpdate(input, i, input[j], |input|);
    SumUpdate(once, j, input[i], |input|);
    ContributionBound(input, i);
    ContributionBound(once, i);
    ContributionBound(once, j);
    ContributionBound(twice, j);
    SwapContributions(input, i, j);
  }

  lemma SwapContributions(input: seq<nat>, i: nat, j: nat)
    requires i < |input| && j < |input| && input[i] != input[j] && Weight(i) != Weight(j)
    ensures
      var once := input[i := input[j]];
      Contribution(input, i) + Contribution(once, j) !=
      Contribution(once, i) + Contribution(once[j := input[i]], j)
  {
    var once := input[i := input[j]];
    ElementCounts(input, i);
    ElementCounts(once, i);
    ElementCounts(once, j);
    ElementCounts(once[j := input[i]], j);
    Crossed(input[i], input[j], Weight(i), Weight(j));
  }

  lemma Crossed(a: nat, b: nat, v: nat, w: nat)
    requires a != b && v != w
    ensures a * v + b * w != b * v + a * w
  {
    assert (a * v + b * w) - (b * v + a * w) == (a - b) * (v - w);
  }

  // ----- the grid -----

  /**
   The launch covers every element if and only if the 32-bit computation neither
   truncates nor wraps.
   */
  lemma GridCoversExactly(count: nat)
    requires 0 < count <= U64_MAX
    ensures count <= Grid(count) * BLOCK_SIZE <==> count <= U32_MAX - (BLOCK_SIZE - 1)
  {
    var low := count % (U32_MAX + 1);
    var sum := (low + (BLOCK_SIZE - 1)) % (U32_MAX + 1);
    assert sum / BLOCK_SIZE * BLOCK_SIZE <= sum <= U32_MAX;
    if count <= U32_MAX - (BLOCK_SIZE - 1) {
      assert low == count && sum == count + 255;
    } else if count <= U32_MAX {
      assert low == count && sum == count + 255 - (U32_MAX + 1);
    }
  }

  /** The grid is the least one for the low 32 bits of the count, or empty if rounding these up wraps. */
  lemma GridExactly(count: nat)
    ensures
      var low := count % 0x1_0000_0000;
      if low <= U32_MAX - 255 then low <= Grid(count) * 256 < low + 256 else Grid(count) == 0
  {
    var low := count % 0x1_0000_0000;
    if low > U32_MAX - 255 {
      assert (low + 255) % 0x1_0000_0000 == low + 255 - 0x1_0000_0000 < 256;
    }
  }

  lemma DistinctOnce(s: seq<Thread>, k: nat)
    requires k < |s| && forall i, j :: 0 <= i < j < |s| ==> s[i] != s[j]
    ensures multiset(s)[s[k]] == 1
  {
    var before, after := s[..k], s[k + 1..];
    assert s == before + [s[k]] + after;
    assert s[k] !in before && s[k] !in after;
  }

  /** Every grid can be launched: block after block, for one. */
  lemma LaunchExists(grid: nat)
    ensures exists schedule :: Launched(schedule, grid)
  {
    var schedule := seq(grid * BLOCK_SIZE, i requires 0 <= i => Thread(i / BLOCK_SIZE, i % BLOCK_SIZE));
    forall i: nat, j: nat | i < j < |schedule| ensures schedule[i] != schedule[j] {
      assert i == Index(schedule[i]) && j == Index(schedule[j]);
    }
    forall b: nat, l: nat | b < grid && l < BLOCK_SIZE ensures multiset(schedule)[Thread(b, l)] == 1 {
      var k := Index(Thread(b, l));
      assert schedule[k] == Thread(b, l);
      DistinctOnce(schedule, k);
    }
    assert Launched(schedule, grid);
  }

  // ----- any order -----

  lemma AddMod(a: nat, b: nat, m: nat)
    requires m > 0
    ensures (a % m + b) % m == (a + b) % m
  {
    var q := a / m;
    assert a == q * m + a % m;
    ModPlusMultiple(a % m + b, q, m);
  }

  lemma {:induction false} ModPlusMultiple(x: nat, q: nat, m: nat)
    requires m > 0
    ensures (x + q * m) % m == x % m
  {
    if q > 0 {
      ModPlusMultiple(x, q - 1, m);
      assert x + q * m == (x + (q - 1) * m) + m;
      ModPlusOne(x + (q - 1) * m, m);
    }
  }

  lemma ModPlusOne(x: nat, m: nat)
    requires m > 0
    ensures (x + m) % m == x % m
  {
    var q, r := x / m, x % m;
    assert x == q * m + r;
    assert (q + 1) * m == q * m + m;
    DivisionUnique(x + m, q + 1, r, m);
  }

  lemma DivisionUnique(x: nat, q: nat, r: nat, m: nat)
    requires m > 0 && r < m && x == q * m + r
    ensures x % m == r
  {
    var q', r' := x / m, x % m;
    assert x == q' * m + r' && (q + 1) * m == q * m + m && (q' + 1) * m == q' * m + m;
    if q < q' {
      MulMonotone(q + 1, q', m);
    } else if q' < q {
      MulMonotone(q' + 1, q, m);
    }
  }

  function Indices(schedule: seq<Thread>): seq<nat> {
    if schedule == [] then [] else [Index(schedule[0])] + Indices(schedule[1..])
  }

  function Total(input: seq<nat>, indices: seq<nat>): nat {
    if indices == [] then 0 else Contribution(input, indices[0]) + Total(input, indices[1..])
  }

  lemma {:induction false} ExecuteIsTotal(input: seq<nat>, schedule: seq<Thread>, accumulator: nat)
    requires accumulator <= U64_MAX
    ensures Execute(input, schedule, accumulator) == (accumulator + Total(input, Indices(schedule))) % (U64_MAX + 1)
    decreases |schedule|
  {
    if schedule != [] {
      var c := Contribution(input, Index(schedule[0]));
      var rest := Indices(schedule[1..]);
      assert Indices(schedule)[1..] == rest;
      assert Execute(input, schedule, accumulator) == Execute(input, schedule[1..], (accumulator + c) % (U64_MAX + 1));
      ExecuteIsTotal(input, schedule[1..], (accumulator + c) % (U64_MAX + 1));
      AddMod(accumulator + c, Total(input, rest), U64_MAX + 1);
    }
  }

  /** `p` lists each number below `n` exactly once. */
  predicate Permutation(p: seq<nat>, n: nat) {
    (forall x :: x in p ==> x < n) && (forall i: nat :: i < n ==> multiset(p)[i] == 1)
  }

  lemma {:induction false} TotalSplit(input: seq<nat>, a: seq<nat>, x: nat, b: seq<nat>)
    ensures Total(input, a + [x] + b) == Total(input, a + b) + Contribution(input, x)
  {
    if a == [] {
      assert a + [x] + b == [x] + b && a + b == b;
    } else {
      assert (a + [x] + b)[1..] == a[1..] + [x] + b && (a + b)[1..] == a[1..] + b;
      TotalSplit(input, a[1..], x, b);
    }
  }

  /** Taking the largest number out of a permutation leaves a permutation. */
  lemma RemoveLargest(a: seq<nat>, b: seq<nat>, n: nat)
    requires Permutation(a + [n] + b, n + 1)
    ensures Permutation(a + b, n)
  {
    var p: seq<nat>, q: seq<nat> := a + [n] + b, a + b;
    var mp: multiset<nat>, mq: multiset<nat> := multiset(p), multiset(q);
    assert mp == mq + multiset{n};
    forall i: nat | i < n ensures mq[i] == 1 {
      assert mp[i] == 1;
    }
    assert mp[n] == 1;
    forall x | x in q ensures x < n {
      assert x in mq && x in p;
    }
  }

  lemma HeadBelongs(p: seq<nat>)
    ensures p == [] || exists x :: x in p
  {
    if p != [] {
      assert p[0] in p;
    }
  }

  /** A sum over a permutation does not depend on the order. */
  lemma {:induction false} TotalOfPermutation(input: seq<nat>, p: seq<nat>, n: nat)
    requires Permutation(p, n)
    ensures Total(input, p) == Sum(input, n)
  {
    if n == 0 {
      HeadBelongs(p);
    } else {
      assert multiset(p)[n - 1] == 1;
      var k := IndexOf(p, n - 1);
      var a, b := p[..k], p[k + 1..];
      assert p == a + [n - 1] + b;
      RemoveLargest(a, b, n - 1);
      TotalSplit(input, a, n - 1, b);
      TotalOfPermutation(input, a + b, n - 1);
    }
  }

  lemma IndexOf(p: seq<nat>, x: nat) returns (k: nat)
    requires x in multiset(p)
    ensures k < |p| && p[k] == x
  {
    assert x in p;
    k :| 0 <= k < |p| && p[k] == x;
  }

  lemma {:induction false} IndexMultiset(schedule: seq<Thread>, b: nat, l: nat)
    requires l < BLOCK_SIZE && forall t :: t in schedule ==> t.lane < BLOCK_SIZE
    ensures multiset(Indices(schedule))[Index(Thread(b, l))] == multiset(schedule)[Thread(b, l)]
  {
    if schedule != [] {
      var t, rest := schedule[0], schedule[1..];
      assert schedule == [t] + rest;
      IndexMultiset(rest, b, l);
      IndexInjective(t, Thread(b, l));
      assert multiset(schedule) == multiset{t} + multiset(rest);
      assert multiset(Indices(schedule)) == multiset{Index(t)} + multiset(Indices(rest));
    }
  }

  lemma IndexInjective(t: Thread, u: Thread)
    requires t.lane < BLOCK_SIZE && u.lane < BLOCK_SIZE
    ensures Index(t) == Index(u) <==> t == u
  {
  }

  lemma {:induction false} IndicesInRange(schedule: seq<Thread>, grid: nat)
    requires forall t :: t in schedule ==> t.block < grid && t.lane < BLOCK_SIZE
    ensures forall x :: x in Indices(schedule) ==> x < grid * BLOCK_SIZE
  {
    if schedule != [] {
      assert schedule[0] in schedule;
      IndicesInRange(schedule[1..], grid);
    }
  }

  /** The threads of a grid visit each index below `grid * BLOCK_SIZE` exactly once. */
  lemma LaunchIsPermutation(schedule: seq<Thread>, grid: nat)
    requires Launched(schedule, grid)
    ensures Permutation(Indices(schedule), grid * BLOCK_SIZE)
  {
    IndicesInRange(schedule, grid);
    forall i: nat | i < grid * BLOCK_SIZE ensures multiset(Indices(schedule))[i] == 1 {
      var b, l := i / BLOCK_SIZE, i % BLOCK_SIZE;
      assert i == Index(Thread(b, l)) && b < grid;
      IndexMultiset(schedule, b, l);
    }
  }

  lemma {:induction false} SumPastEnd(input: seq<nat>, n: nat)
    requires |input| <= n
    ensures Sum(input, n) == Sum(input, |input|)
  {
    if |input| < n {
      SumPastEnd(input, n - 1);
    }
  }

  /**
   For every element count the grid computation handles, each element is added
   exactly once, and under every order of the atomic additions the checksum is
   the sequential weighted sum modulo 2^64.
   */
  lemma ChecksumScheduleIndependent(input: seq<nat>, schedule: seq<Thread>)
    requires 0 < |input| <= U32_MAX - (BLOCK_SIZE - 1)
    requires Launched(schedule, Grid(|input|))
    ensures Execute(input, schedule, 0) == Sum(input, |input|) % (U64_MAX + 1)
    ensures forall i: nat :: i < |input| ==> multiset(Indices(schedule))[i] == 1
  {
    var grid := Grid(|input|);
    GridCoversExactly(|input|);
    LaunchIsPermutation(schedule, grid);
    TotalOfPermutation(input, Indices(schedule), grid * BLOCK_SIZE);
    SumPastEnd(input, grid * BLOCK_SIZE);
    ExecuteIsTotal(input, schedule, 0);
  }
}
