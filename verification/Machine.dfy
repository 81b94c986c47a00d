/** Integer widths of the source's types, and its optional results. */
module Machine {

  const U32_MAX: nat := 0xFFFF_FFFF
  const U64_MAX: nat := 0xFFFF_FFFF_FFFF_FFFF
  const U64_MODULUS: nat := 0x1_0000_0000_0000_0000
  const U128_MODULUS: nat := 0x1_0000_0000_0000_0000_0000_0000_0000_0000
  const INT64_MAX: nat := 0x7FFF_FFFF_FFFF_FFFF

  datatype Option<+T> = None | Some(value: T)

  /** Unsigned arithmetic modulo `modulus`. */
  function Wrap(x: nat, modulus: nat): (r: nat)
    requires modulus > 0
    ensures r < modulus
  {
    if x < modulus then x else x % modulus
  }

  lemma WrapIsMod(x: nat, modulus: nat)
    requires modulus > 0
    ensures Wrap(x, modulus) == x % modulus
  {
  }

  lemma MulMonotone(a: nat, b: nat, c: nat)
    requires a <= b
    ensures a * c <= b * c
  {
    assert b * c - a * c == (b - a) * c;
  }

  lemma RemainderShift(x: nat, n: nat)
    requires n > 0
    ensures (x + n) % n == x % n
  {
    var q, r := x / n, x % n;
    assert x + n == n * (q + 1) + r;
    RemainderUnique(x + n, n, q + 1, r);
  }

  lemma RemainderUnique(x: nat, n: nat, q: nat, r: nat)
    requires n > 0 && r < n && x == n * q + r
    ensures x % n == r
  {
    var d := x / n - q;
    assert n * d == r - x % n;
    if d > 0 {
      MulMonotone(1, d, n);
    } else if d < 0 {
      MulMonotone(1, -d, n);
    }
  }
}
