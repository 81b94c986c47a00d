/**
 Bounds of strided images: `ImageReadHandle::sanity_check`,
 `validate_image_descriptor` and the projection of byte strides to DLPack
 element strides.
 */
module ImageLayout {
  import opened Machine

  /** Image metadata as it arrives, with the byte size of its buffer. */
  datatype Image = Image(dtype: nat, rows: nat, cols: nat, channels: nat,
                         strideH: nat, strideW: nat, strideC: nat, byteSize: nat)

  /** The ranges of the message's integer types. */
  predicate Typed(m: Image) {
    && m.rows <= U32_MAX && m.cols <= U32_MAX && m.channels <= U32_MAX
    && m.strideH <= U64_MAX && m.strideW <= U64_MAX && m.strideC <= U64_MAX && m.byteSize <= U64_MAX
  }

  /** `elem_size_bytes`: 0 for a code that names no dtype. */
  function ElemSize(dtype: nat): nat {
    match dtype
    case 0 => 1
    case 1 => 2
    case 2 => 2
    case 3 => 4
    case 4 => 8
    case 5 => 2
    case 6 => 4
    case 7 => 4
    case _ => 0
  }

  predicate InShape(m: Image, i: nat, j: nat, k: nat) {
    i < m.rows && j < m.cols && k < m.channels
  }

  /** Byte offset of one element. */
  function Offset(m: Image, i: nat, j: nat, k: nat): nat {
    i * m.strideH + j * m.strideW + k * m.strideC
  }

  predicate NonEmpty(m: Image) {
    m.rows > 0 && m.cols > 0 && m.channels > 0
  }

  /** Addition and multiplication of `unsigned __int128`. */
  function Add128(a: nat, b: nat): nat { Wrap(a + b, U128_MODULUS) }
  function Mul128(a: nat, b: nat): nat { Wrap(a * b, U128_MODULUS) }

  /** The 128-bit sum that both checks compute. */
  function Needed128(m: Image): nat
    requires NonEmpty(m)
  {
    Add128(Add128(Add128(Mul128(m.rows - 1, m.strideH), Mul128(m.cols - 1, m.strideW)),
                  Mul128(m.channels - 1, m.strideC)),
           ElemSize(m.dtype))
  }

  /** `ImageReadHandle::sanity_check`. */
  predicate SanityCheck(m: Image, readValid: bool) {
    && readValid && NonEmpty(m) && ElemSize(m.dtype) != 0
    && Needed128(m) <= U64_MAX && Needed128(m) <= m.byteSize
  }

  lemma ProductBound(a: nat, b: nat)
    requires a <= U32_MAX && b <= U64_MAX
    ensures a * b <= U32_MAX * U64_MAX
  {
    assert a * b <= U32_MAX * b by { MulMonotone(a, U32_MAX, b); }
    assert U32_MAX * b <= U32_MAX * U64_MAX;
  }

  /** The 128-bit sum never wraps: it is the end of the last element. */
  lemma NeededIsExact(m: Image)
    requires Typed(m) && NonEmpty(m)
    ensures Needed128(m) == Offset(m, m.rows - 1, m.cols - 1, m.channels - 1) + ElemSize(m.dtype)
  {
    ProductBound(m.rows - 1, m.strideH);
    ProductBound(m.cols - 1, m.strideW);
    ProductBound(m.channels - 1, m.strideC);
  }

  lemma LastIsLargest(m: Image, i: nat, j: nat, k: nat)
    requires InShape(m, i, j, k)
    ensures Offset(m, i, j, k) <= Offset(m, m.rows - 1, m.cols - 1, m.channels - 1)
  {
    MulMonotone(i, m.rows - 1, m.strideH);
    MulMonotone(j, m.cols - 1, m.strideW);
    MulMonotone(k, m.channels - 1, m.strideC);
  }

  /**
   The check is exact.  An image passes if and only if it is readable, not empty and of a
   known dtype, and every element of its shape lies within the buffer.
   */
  lemma SanityCheckExact(m: Image, readValid: bool)
    requires Typed(m)
    ensures SanityCheck(m, readValid) <==>
      && readValid && m.rows > 0 && m.cols > 0 && m.channels > 0 && ElemSize(m.dtype) != 0
      && forall i: nat, j: nat, k: nat :: InShape(m, i, j, k) ==> Offset(m, i, j, k) + ElemSize(m.dtype) <= m.byteSize
  {
    if NonEmpty(m) {
      NeededIsExact(m);
      forall i: nat, j: nat, k: nat | InShape(m, i, j, k)
        ensures Offset(m, i, j, k) <= Offset(m, m.rows - 1, m.cols - 1, m.channels - 1)
      {
        LastIsLargest(m, i, j, k);
      }
      assert InShape(m, m.rows - 1, m.cols - 1, m.channels - 1);
    }
  }

  // ----- projection to DLPack -----

  datatype Tensor = Tensor(shape: seq<nat>, elementStrides: seq<nat>, bits: nat)

  datatype TensorError =
    | NullAllocation | UnsupportedDtype | EmptyDimension | Indivisible | Overlap
    | StrideRange | ExceedsAllocation | PointerWrap

  datatype Projection = Projected(tensor: Tensor) | Rejected(error: TensorError)

  /** Bits per element of `tensor_dl_dtype`; every dtype has one lane. */
  function DlBits(dtype: nat): Option<nat> {
    match dtype
    case 0 => Some(8)
    case 1 => Some(16)
    case 2 => Some(16)
    case 3 => Some(32)
    case 4 => Some(64)
    case 5 => Some(16)
    case 6 => Some(32)
    case 7 => Some(32)
    case _ => None
  }

  function Shape(m: Image): seq<nat> { [m.rows, m.cols, m.channels] }
  function Strides(m: Image): seq<nat> { [m.strideH, m.strideW, m.strideC] }

  predicate DimensionOk(shape: nat, stride: nat, size: nat)
    requires size > 0
  {
    && shape > 0 && stride % size == 0 && (shape > 1 ==> size <= stride) && stride / size <= INT64_MAX
  }

  /** What a layout must satisfy to be exported from address `data`. */
  predicate Exportable(m: Image, data: nat) {
    && data != 0 && ElemSize(m.dtype) != 0
    && NonEmpty(m) && (forall d :: 0 <= d < 3 ==> DimensionOk(Shape(m)[d], Strides(m)[d], ElemSize(m.dtype)))
    && Offset(m, m.rows - 1, m.cols - 1, m.channels - 1) + ElemSize(m.dtype) <= m.byteSize
    && data + m.byteSize <= U64_MAX
  }

  /** Bytes from the start to the last element along the first `d` dimensions. */
  function Span(m: Image, d: nat): int
    requires d <= 3
  {
    (if d > 0 then (m.rows - 1) * m.strideH else 0)
    + (if d > 1 then (m.cols - 1) * m.strideW else 0)
    + (if d > 2 then (m.channels - 1) * m.strideC else 0)
  }

  /** One dimension of the loop of `project_to_tensor`. */
  method ProjectDimension(shape: nat, stride: nat, size: nat, before: nat)
    returns (error: Option<TensorError>, elementStride: nat, last: nat)
    requires shape <= U32_MAX && stride <= U64_MAX && size > 0 && before <= 2 * (U32_MAX * U64_MAX)
    ensures error.None? <==> DimensionOk(shape, stride, size)
    ensures error.None? ==> elementStride * size == stride && last == before + (shape - 1) * stride
    ensures error.None? ==> last <= before + U32_MAX * U64_MAX
  {
    elementStride, last := 0, before;
    if shape == 0 {
      error := Some(EmptyDimension);
    } else if stride % size != 0 {
      error := Some(Indivisible);
    } else if shape > 1 && stride < size {
      error := Some(Overlap);
    } else if stride / size > INT64_MAX {
      error := Some(StrideRange);
    } else {
      error := None;
      elementStride := stride / size;
      DivideBack(stride, size);
      ProductBound(shape - 1, stride);
      last := Add128(before, Mul128(shape - 1, stride));
    }
  }

  /**
   `project_to_tensor`: accepts exactly the exportable layouts, and the element
   strides it writes are the byte strides divided by the element size.
   */
  method ProjectToTensor(m: Image, data: nat) returns (r: Projection)
    requires Typed(m) && data <= U64_MAX
    ensures r.Projected? <==> Exportable(m, data)
    ensures r.Projected? ==>
      && r.tensor.shape == Shape(m) && |r.tensor.elementStrides| == 3
      && r.tensor.bits == 8 * ElemSize(m.dtype)
      && forall d :: 0 <= d < 3 ==> r.tensor.elementStrides[d] * ElemSize(m.dtype) == Strides(m)[d]
  {
    if data == 0 {
      return Rejected(NullAllocation);
    }
    var bits := DlBits(m.dtype);
    if bits.None? {
      return Rejected(UnsupportedDtype);
    }
    var size := bits.value / 8;
    var shape, strides := Shape(m), Strides(m);
    var last: nat := 0;
    var outShape: seq<nat>, outStrides: seq<nat> := [], [];
    for d := 0 to 3
      invariant forall e :: 0 <= e < d ==> DimensionOk(shape[e], strides[e], size)
      invariant outShape == shape[..d] && |outStrides| == d
      invariant forall e :: 0 <= e < d ==> outStrides[e] * size == strides[e]
      invariant last == Span(m, d) <= d * (U32_MAX * U64_MAX)
    {
      var error, elementStride, sum := ProjectDimension(shape[d], strides[d], size, last);
      if error.Some? {
        return Rejected(error.value);
      }
      outShape := outShape + [shape[d]];
      outStrides := outStrides + [elementStride];
      last := sum;
    }
    assert DimensionOk(shape[0], strides[0], size) && DimensionOk(shape[1], strides[1], size);
    assert DimensionOk(shape[2], strides[2], size);
    last := Add128(last, size);
    if last > U64_MAX || last > m.byteSize {
      return Rejected(ExceedsAllocation);
    }
    if m.byteSize > U64_MAX - data || last > U64_MAX - data {
      return Rejected(PointerWrap);
    }
    return Projected(Tensor(outShape, outStrides, bits.value));
  }

  lemma DivideBack(a: nat, b: nat)
    requires b > 0 && a % b == 0
    ensures a / b * b == a
  {
  }

  /** Byte ranges of `size` at two multiples of `stride` do not meet. */
  predicate RangesApart(x: nat, y: nat, stride: nat, size: nat) {
    x * stride + size <= y * stride
  }

  /** The overlap test of one dimension passes if and only if its elements are apart. */
  lemma OverlapExactly(shape: nat, stride: nat, size: nat)
    requires size > 0
    ensures (shape > 1 ==> size <= stride) <==>
      forall x: nat, y: nat :: x < y < shape ==> RangesApart(x, y, stride, size)
  {
    if shape > 1 {
      if size <= stride {
        forall x: nat, y: nat | x < y < shape ensures RangesApart(x, y, stride, size) {
          MulMonotone(x + 1, y, stride);
          assert (x + 1) * stride == x * stride + stride;
        }
      } else {
        assert !RangesApart(0, 1, stride, size);
      }
    }
  }

  /** The byte stride of one dimension as a signed 64-bit number of elements. */
  predicate HasElementStride(stride: nat, size: nat) {
    exists e: nat :: e <= 0x7FFF_FFFF_FFFF_FFFF && e * size == stride
  }

  lemma ElementStrideExactly(stride: nat, size: nat)
    requires size > 0
    ensures HasElementStride(stride, size) <==> stride % size == 0 && stride / size <= INT64_MAX
  {
    if stride % size == 0 && stride / size <= INT64_MAX {
      DivideBack(stride, size);
      var e: nat := stride / size;
      assert e * size == stride;
    }
    if e: nat :| e <= 0x7FFF_FFFF_FFFF_FFFF && e * size == stride {
      assert stride == e * size + 0;
      RemainderUnique(stride, size, e, 0);
      QuotientUnique(stride, size, e);
    }
  }

  lemma QuotientUnique(x: nat, m: nat, q: nat)
    requires m > 0 && x == q * m
    ensures x / m == q
  {
    assert x == (x / m) * m + x % m;
    assert (x / m + 1) * m == (x / m) * m + m;
    if x / m < q {
      MulMonotone(x / m + 1, q, m);
    }
  }

  predicate DimensionExact(shape: nat, stride: nat, size: nat) {
    && shape > 0 && HasElementStride(stride, size)
    && forall x: nat, y: nat :: x < y < shape ==> RangesApart(x, y, stride, size)
  }

  lemma DimensionOkExactly(shape: nat, stride: nat, size: nat)
    requires size > 0
    ensures DimensionOk(shape, stride, size) <==> DimensionExact(shape, stride, size)
  {
    OverlapExactly(shape, stride, size);
    ElementStrideExactly(stride, size);
  }

  /**
   What can be exported, exactly: a layout at a non-null address, of a known element size,
   whose byte strides are 64-bit numbers of elements, whose elements lie inside the buffer,
   are apart from their neighbours along each dimension, and have addresses that do not wrap.
   */
  lemma ExportableExactly(m: Image, data: nat)
    requires Typed(m)
    ensures Exportable(m, data) <==>
      && data != 0 && ElemSize(m.dtype) != 0 && data + m.byteSize <= 0xFFFF_FFFF_FFFF_FFFF
      && DimensionExact(m.rows, m.strideH, ElemSize(m.dtype))
      && DimensionExact(m.cols, m.strideW, ElemSize(m.dtype))
      && DimensionExact(m.channels, m.strideC, ElemSize(m.dtype))
      && forall i: nat, j: nat, k: nat :: InShape(m, i, j, k) ==> Offset(m, i, j, k) + ElemSize(m.dtype) <= m.byteSize
  {
    var size := ElemSize(m.dtype);
    if size != 0 && NonEmpty(m) {
      DimensionOkExactly(m.rows, m.strideH, size);
      DimensionOkExactly(m.cols, m.strideW, size);
      DimensionOkExactly(m.channels, m.strideC, size);
      AllDimensions(m, size);
      SanityCheckExact(m, true);
      NeededIsExact(m);
    }
  }

  lemma AllDimensions(m: Image, size: nat)
    requires size > 0
    ensures (forall d :: 0 <= d < 3 ==> DimensionOk(Shape(m)[d], Strides(m)[d], size)) <==>
      && DimensionOk(m.rows, m.strideH, size) && DimensionOk(m.cols, m.strideW, size)
      && DimensionOk(m.channels, m.strideC, size)
  {
    var all := forall d :: 0 <= d < 3 ==> DimensionOk(Shape(m)[d], Strides(m)[d], size);
    if all {
      assert DimensionOk(Shape(m)[0], Strides(m)[0], size) && DimensionOk(Shape(m)[1], Strides(m)[1], size);
      assert DimensionOk(Shape(m)[2], Strides(m)[2], size);
    }
  }

  /** The dtype codes of the image message. */
  const U8: nat := 0
  const U16: nat := 1
  const F16: nat := 2
  const F32: nat := 3
  const F64: nat := 4
  const S16: nat := 5
  const S32: nat := 6
  const U32: nat := 7

  /** The size of a dtype is the number of bytes in its name, in both of the source's tables. */
  lemma ElemSizes(dtype: nat)
    ensures ElemSize(dtype) == 1 <==> dtype == U8
    ensures ElemSize(dtype) == 2 <==> dtype in [U16, F16, S16]
    ensures ElemSize(dtype) == 4 <==> dtype in [F32, S32, U32]
    ensures ElemSize(dtype) == 8 <==> dtype == F64
    ensures ElemSize(dtype) == 0 <==> dtype > U32
    ensures DlBits(dtype) == if dtype <= U32 then Some(8 * ElemSize(dtype)) else None
  {
  }

  /** Every layout that can be exported also passes the image check. */
  lemma ExportableIsSane(m: Image, data: nat)
    requires Typed(m) && Exportable(m, data)
    ensures SanityCheck(m, true)
  {
    assert DimensionOk(Shape(m)[0], Strides(m)[0], ElemSize(m.dtype));
    assert DimensionOk(Shape(m)[1], Strides(m)[1], ElemSize(m.dtype));
    assert DimensionOk(Shape(m)[2], Strides(m)[2], ElemSize(m.dtype));
    NeededIsExact(m);
  }

  /** Byte offset that a consumer computes from element strides. */
  function TensorOffset(t: Tensor, i: nat, j: nat, k: nat): nat
    requires |t.elementStrides| == 3
  {
    (i * t.elementStrides[0] + j * t.elementStrides[1] + k * t.elementStrides[2]) * (t.bits / 8)
  }

  /**
   A tensor whose element strides are the byte strides over the element size
   addresses every in-shape element at the byte offset of the image, and no such
   address wraps or leaves the allocation.
   */
  lemma TensorAddressesImage(m: Image, data: nat, t: Tensor, i: nat, j: nat, k: nat)
    requires Typed(m) && Exportable(m, data) && InShape(m, i, j, k)
    requires |t.elementStrides| == 3 && t.bits == 8 * ElemSize(m.dtype)
    requires forall d :: 0 <= d < 3 ==> t.elementStrides[d] * ElemSize(m.dtype) == Strides(m)[d]
    ensures TensorOffset(t, i, j, k) == Offset(m, i, j, k)
    ensures Offset(m, i, j, k) + ElemSize(m.dtype) <= m.byteSize
    ensures data + TensorOffset(t, i, j, k) + ElemSize(m.dtype) <= U64_MAX
  {
    var size := ElemSize(m.dtype);
    LastIsLargest(m, i, j, k);
    assert t.elementStrides[0] * size == m.strideH by { assert Strides(m)[0] == m.strideH; }
    assert t.elementStrides[1] * size == m.strideW by { assert Strides(m)[1] == m.strideW; }
    assert t.elementStrides[2] * size == m.strideC by { assert Strides(m)[2] == m.strideC; }
    Distribute(i, t.elementStrides[0], j, t.elementStrides[1], k, t.elementStrides[2], size);
  }

  lemma Distribute(i: nat, a: nat, j: nat, b: nat, k: nat, c: nat, size: nat)
    ensures (i * a + j * b + k * c) * size == i * (a * size) + j * (b * size) + k * (c * size)
  {
    assert (i * a) * size == i * (a * size);
    assert (j * b) * size == j * (b * size);
    assert (k * c) * size == k * (c * size);
  }
}
