/** Layout validation of `PointCloud2ReadHandle::from_message`. */
module PointCloudLayout {
  import opened Machine

  datatype Field = Field(offset: nat, datatype_: nat, count: nat)

  datatype Cloud = Cloud(height: nat, width: nat, pointStep: nat, rowStep: nat, byteSize: nat, fields: seq<Field>)

  predicate Typed(c: Cloud) {
    && c.height <= U32_MAX && c.width <= U32_MAX && c.pointStep <= U32_MAX && c.rowStep <= U32_MAX
    && c.byteSize <= U64_MAX
    && forall f :: f in c.fields ==> f.offset <= U32_MAX && f.count <= U32_MAX
  }

  /** Bytes per element of a `sensor_msgs/PointField` datatype, 0 if unknown. */
  function ElementSize(datatype_: nat): nat {
    match datatype_
    case 1 => 1
    case 2 => 1
    case 3 => 2
    case 4 => 2
    case 5 => 4
    case 6 => 4
    case 7 => 4
    case 8 => 8
    case _ => 0
  }

  /** The datatypes of `sensor_msgs/PointField`. */
  const INT8: nat := 1
  const UINT8: nat := 2
  const INT16: nat := 3
  const UINT16: nat := 4
  const INT32: nat := 5
  const UINT32: nat := 6
  const FLOAT32: nat := 7
  const FLOAT64: nat := 8

  /** The size of a datatype is the number of bytes in its name, and nothing else is a datatype. */
  lemma ElementSizes(datatype_: nat)
    ensures ElementSize(datatype_) == 1 <==> datatype_ in [INT8, UINT8]
    ensures ElementSize(datatype_) == 2 <==> datatype_ in [INT16, UINT16]
    ensures ElementSize(datatype_) == 4 <==> datatype_ in [INT32, UINT32, FLOAT32]
    ensures ElementSize(datatype_) == 8 <==> datatype_ == FLOAT64
    ensures ElementSize(datatype_) == 0 <==> !(INT8 <= datatype_ <= FLOAT64)
  {
  }

  /** Every element of the field lies inside one point. */
  predicate FieldFits(c: Cloud, f: Field) {
    && ElementSize(f.datatype_) > 0 && f.count > 0
    && f.offset + ElementSize(f.datatype_) * f.count <= c.pointStep
  }

  predicate RowsFit(c: Cloud) {
    c.pointStep > 0 && c.height > 0 && c.pointStep * c.width <= c.rowStep
  }

  function PointOffset(c: Cloud, row: nat, col: nat): nat {
    row * c.rowStep + col * c.pointStep
  }

  /** The end of the last point of the last row. */
  function CloudEnd(c: Cloud): nat
    requires c.height > 0
  {
    c.rowStep * (c.height - 1) + c.pointStep * c.width
  }

  predicate Accepts(c: Cloud) {
    RowsFit(c) && CloudEnd(c) <= c.byteSize && forall f :: f in c.fields ==> FieldFits(c, f)
  }

  /** One field of the loop of `from_message`. */
  method CheckField(field: Field, pointStep: nat) returns (ok: bool)
    requires field.offset <= U32_MAX && field.count <= U32_MAX && pointStep <= U32_MAX
    ensures ok <==>
      && ElementSize(field.datatype_) > 0 && field.count > 0
      && field.offset + ElementSize(field.datatype_) * field.count <= pointStep
  {
    var size := ElementSize(field.datatype_);
    if size == 0 {
      return false;
    }
    SmallProduct(size, field.count);
    var bytes := Wrap(size * field.count, U64_MAX + 1);
    if field.count > 0 {
      MulMonotone(1, field.count, size);
    }
    return !(field.count == 0 || field.offset >= pointStep || bytes > pointStep - field.offset);
  }

  /** `from_message`: accepts exactly the clouds of `Accepts`; neither the 64-bit nor the 128-bit arithmetic wraps. */
  method FromMessage(c: Cloud, readValid: bool) returns (accepted: bool)
    requires Typed(c)
    ensures accepted <==> readValid && Accepts(c)
  {
    SmallProduct(c.pointStep, c.width);
    if !(readValid && c.pointStep > 0) || c.height == 0
      || c.rowStep < Wrap(c.pointStep * c.width, U64_MAX + 1) {
      return false;
    }
    SmallProduct(c.rowStep, c.height - 1);
    var rows, row := Wrap(c.rowStep * (c.height - 1), U128_MODULUS), Wrap(c.pointStep * c.width, U128_MODULUS);
    var needed := Wrap(rows + row, U128_MODULUS);
    if needed > U64_MAX || needed > c.byteSize {
      return false;
    }
    for i := 0 to |c.fields|
      invariant forall j :: 0 <= j < i ==> FieldFits(c, c.fields[j])
    {
      var ok := CheckField(c.fields[i], c.pointStep);
      if !ok {
        assert !FieldFits(c, c.fields[i]);
        return false;
      }
    }
    return true;
  }

  lemma SmallProduct(a: nat, b: nat)
    requires a <= U32_MAX && b <= U32_MAX
    ensures a * b <= U32_MAX * U32_MAX
  {
    MulMonotone(a, U32_MAX, b);
    assert U32_MAX * b <= U32_MAX * U32_MAX;
  }

  lemma PointInside(c: Cloud, row: nat, col: nat)
    requires RowsFit(c) && row < c.height && col < c.width
    ensures PointOffset(c, row, col) + c.pointStep <= CloudEnd(c)
  {
    MulMonotone(row, c.height - 1, c.rowStep);
    MulMonotone(col + 1, c.width, c.pointStep);
    assert (col + 1) * c.pointStep == col * c.pointStep + c.pointStep;
  }

  /** Every element of every field of every point of an accepted cloud lies inside the buffer. */
  lemma ElementsInside(c: Cloud, row: nat, col: nat, f: Field, e: nat)
    requires Accepts(c) && row < c.height && col < c.width && f in c.fields && e < f.count
    ensures PointOffset(c, row, col) + f.offset + (e + 1) * ElementSize(f.datatype_) <= c.byteSize
    ensures f.offset + (e + 1) * ElementSize(f.datatype_) <= c.pointStep
  {
    PointInside(c, row, col);
    MulMonotone(e + 1, f.count, ElementSize(f.datatype_));
  }

  /** Element `e` of the field lies inside its point. */
  predicate ElementInPoint(c: Cloud, f: Field, e: nat) {
    f.offset + (e + 1) * ElementSize(f.datatype_) <= c.pointStep
  }

  /** The field has elements of a known size, all inside the point. */
  predicate AllInPoint(c: Cloud, f: Field) {
    && ElementSize(f.datatype_) > 0 && f.count > 0
    && forall e :: 0 <= e < f.count ==> ElementInPoint(c, f, e)
  }

  lemma FieldFitsExactly(c: Cloud, f: Field)
    ensures FieldFits(c, f) <==> AllInPoint(c, f)
  {
    var size := ElementSize(f.datatype_);
    forall e | 0 <= e < f.count ensures (e + 1) * size <= f.count * size && ElementInPoint(c, f, e) ==
                                        (f.offset + (e + 1) * size <= c.pointStep) {
      MulMonotone(e + 1, f.count, size);
    }
    if size > 0 && f.count > 0 {
      var last: nat := f.count - 1;
      assert ElementInPoint(c, f, last) == (f.offset + (last + 1) * size <= c.pointStep);
    }
  }

  lemma RowFitsExactly(c: Cloud)
    requires c.width > 0
    ensures c.pointStep * c.width <= c.rowStep <==>
      forall col: nat :: col < c.width ==> PointOffset(c, 0, col) + c.pointStep <= c.rowStep
  {
    forall col: nat | col < c.width ensures PointOffset(c, 0, col) + c.pointStep <= c.pointStep * c.width {
      MulMonotone(col + 1, c.width, c.pointStep);
      assert (col + 1) * c.pointStep == col * c.pointStep + c.pointStep;
    }
    var last: nat := c.width - 1;
    assert (last + 1) * c.pointStep == last * c.pointStep + c.pointStep;
    assert PointOffset(c, 0, last) + c.pointStep == c.pointStep * c.width;
  }

  /**
   A cloud with points is accepted if and only if it has rows and a point size, every point
   lies inside its row and inside the buffer, and every element of every field lies inside
   its point.
   */
  lemma AcceptsExactly(c: Cloud)
    requires c.width > 0
    ensures Accepts(c) <==>
      && c.pointStep > 0 && c.height > 0
      && (forall col: nat :: col < c.width ==> PointOffset(c, 0, col) + c.pointStep <= c.rowStep)
      && (forall row: nat, col: nat ::
            row < c.height && col < c.width ==> PointOffset(c, row, col) + c.pointStep <= c.byteSize)
      && (forall f :: f in c.fields ==> AllInPoint(c, f))
  {
    forall f | f in c.fields ensures FieldFits(c, f) <==> AllInPoint(c, f) {
      FieldFitsExactly(c, f);
    }
    RowFitsExactly(c);
    if RowsFit(c) {
      CloudEndExact(c);
    }
  }

  /** The byte ranges of two distinct points do not meet. */
  lemma PointsDisjoint(c: Cloud, row: nat, col: nat, row': nat, col': nat)
    requires RowsFit(c) && row < c.height && row' < c.height && col < c.width && col' < c.width
    requires (row, col) != (row', col')
    ensures
      || PointOffset(c, row, col) + c.pointStep <= PointOffset(c, row', col')
      || PointOffset(c, row', col') + c.pointStep <= PointOffset(c, row, col)
  {
    if row < row' || (row == row' && col < col') {
      PointsOrdered(c, row, col, row', col');
    } else {
      PointsOrdered(c, row', col', row, col);
    }
  }

  lemma PointsOrdered(c: Cloud, row: nat, col: nat, row': nat, col': nat)
    requires RowsFit(c) && col < c.width && col' < c.width
    requires row < row' || (row == row' && col < col')
    ensures PointOffset(c, row, col) + c.pointStep <= PointOffset(c, row', col')
  {
    assert (col + 1) * c.pointStep == col * c.pointStep + c.pointStep;
    if row == row' {
      MulMonotone(col + 1, col', c.pointStep);
    } else {
      MulMonotone(col + 1, c.width, c.pointStep);
      MulMonotone(row + 1, row', c.rowStep);
      assert (row + 1) * c.rowStep == row * c.rowStep + c.rowStep;
    }
  }

  /** The size check is exact: it passes if and only if every point of a non-empty cloud is inside. */
  lemma CloudEndExact(c: Cloud)
    requires RowsFit(c) && c.width > 0
    ensures CloudEnd(c) <= c.byteSize <==>
      forall row: nat, col: nat ::
        row < c.height && col < c.width ==> PointOffset(c, row, col) + c.pointStep <= c.byteSize
  {
    forall row: nat, col: nat | row < c.height && col < c.width
      ensures PointOffset(c, row, col) + c.pointStep <= CloudEnd(c)
    {
      PointInside(c, row, col);
    }
    var row, col := c.height - 1, c.width - 1;
    assert PointOffset(c, row, col) + c.pointStep == CloudEnd(c) by {
      assert (col + 1) * c.pointStep == col * c.pointStep + c.pointStep;
    }
  }
}
