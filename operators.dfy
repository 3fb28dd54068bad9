/**
 * The free operators of namespace sjtu: scalar multiplication on either
 * side, the matrix product, and element-wise sum and difference. Each one
 * builds a fresh result matrix and leaves its operands unchanged.
 */
module MatrixOperators {
  import opened RowMajor
  import opened MatrixSpec
  import opened Matrices

  /** mat * x: a fresh matrix of mat's shape whose slot i is mat's slot i times x. */
  method ScaleRight(mat: Matrix, x: int) returns (tmp: Matrix)
    requires mat.Valid()
    ensures fresh(tmp) && fresh(tmp.data) && tmp.Valid()
    ensures tmp.Value() == Scaled(mat.Value(), x)
  {
    tmp := new Matrix.Fill(mat.n, mat.m, 0);
    var i := 0;
    while i < mat.mSize
      modifies tmp.data
      invariant i <= mat.mSize
      invariant forall k :: 0 <= k < i ==> tmp.data[k] == mat.data[k] * x
    {
      tmp.data[i] := mat.data[i] * x;
      i := i + 1;
    }
    assert tmp.data[..] == Scaled(mat.Value(), x).cells;
  }

  /**
   * x * mat: its body is the same loop as mat * x, element times x, so
   * the result is the same matrix.
   */
  method ScaleLeft(x: int, mat: Matrix) returns (tmp: Matrix)
    requires mat.Valid()
    ensures fresh(tmp) && fresh(tmp.data) && tmp.Valid()
    ensures tmp.Value() == Scaled(mat.Value(), x)
  {
    tmp := ScaleRight(mat, x);
  }

  /**
   * a + b: fails when the shapes differ, otherwise a fresh matrix whose
   * slot i is a's slot i plus b's.
   */
  method Add(a: Matrix, b: Matrix) returns (r: Result<Matrix>)
    requires a.Valid() && b.Valid()
    ensures r.Ok? <==> a.Size() == b.Size()
    ensures r.Ok? ==> fresh(r.value) && fresh(r.value.data) && r.value.Valid()
    ensures r.Ok? ==> r.value.Value() == Sum(a.Value(), b.Value())
  {
    if a.ColumnLength() != b.ColumnLength() || a.RowLength() != b.RowLength() {
      return InvalidArgument;
    }
    var tmp := new Matrix.Fill(a.n, a.m, 0);
    var i := 0;
    while i < tmp.mSize
      modifies tmp.data
      invariant i <= tmp.mSize
      invariant forall k :: 0 <= k < i ==> tmp.data[k] == a.data[k] + b.data[k]
    {
      tmp.data[i] := a.data[i] + b.data[i];
      i := i + 1;
    }
    assert tmp.data[..] == Sum(a.Value(), b.Value()).cells;
    return Ok(tmp);
  }

  /**
   * a - b: fails when the shapes differ, otherwise a fresh matrix whose
   * slot i is a's slot i minus b's.
   */
  method Subtract(a: Matrix, b: Matrix) returns (r: Result<Matrix>)
    requires a.Valid() && b.Valid()
    ensures r.Ok? <==> a.Size() == b.Size()
    ensures r.Ok? ==> fresh(r.value) && fresh(r.value.data) && r.value.Valid()
    ensures r.Ok? ==> r.value.Value() == Difference(a.Value(), b.Value())
  {
    if a.ColumnLength() != b.ColumnLength() || a.RowLength() != b.RowLength() {
      return InvalidArgument;
    }
    var tmp := new Matrix.Fill(a.n, a.m, 0);
    var i := 0;
    while i < tmp.mSize
      modifies tmp.data
      invariant i <= tmp.mSize
      invariant forall k :: 0 <= k < i ==> tmp.data[k] == a.data[k] - b.data[k]
    {
      tmp.data[i] := a.data[i] - b.data[i];
      i := i + 1;
    }
    assert tmp.data[..] == Difference(a.Value(), b.Value()).cells;
    return Ok(tmp);
  }

  /**
   * The innermost loop of a * b: slot i*b.m + j of tmp accumulates
   * a(i, k) * b(k, j) for k = 0 .. a.m - 1, in that order; no other slot of
   * tmp changes.
   */
  method AccumulateDot(a: Matrix, b: Matrix, tmp: Matrix, i: nat, j: nat)
    requires a.Valid() && b.Valid() && tmp.Valid()
    requires a.m == b.n && tmp.n == a.n && tmp.m == b.m && i < a.n && j < b.m
    requires tmp.data != a.data && tmp.data != b.data
    modifies tmp.data
    ensures i * b.m + j < tmp.data.Length
    ensures tmp.data[..] == old(tmp.data[..])[i * b.m + j :=
      old(tmp.data[i * b.m + j]) + Dot(a.Value(), b.Value(), i, j, a.m)]
  {
    ghost var A, B, t0 := a.Value(), b.Value(), tmp.data[..];
    ghost var slot := i * b.m + j;
    assert slot < tmp.data.Length by { SlotInBuffer(i, j, a.n, b.m); }
    var k := 0;
    while k < a.m
      invariant k <= a.m
      invariant a.data[..] == A.cells && b.data[..] == B.cells
      invariant tmp.data[..] == t0[slot := t0[slot] + Dot(A, B, i, j, k)]
    {
      assert i * a.m + k < a.data.Length && a.data[i * a.m + k] == At(A, i, k) by {
        SlotInBuffer(i, k, a.n, a.m);
      }
      assert k * b.m + j < b.data.Length && b.data[k * b.m + j] == At(B, k, j) by {
        SlotInBuffer(k, j, b.n, b.m);
      }
      tmp.data[i * b.m + j] := tmp.data[i * b.m + j] + a.data[i * a.m + k] * b.data[k * b.m + j];
      k := k + 1;
    }
  }

  /**
   * The middle loop of a * b for row i: once rows 0 .. i-1 of tmp hold
   * their products and the rest is zero, every slot of row i receives its
   * product too.
   */
  method AccumulateRow(a: Matrix, b: Matrix, tmp: Matrix, i: nat)
    requires a.Valid() && b.Valid() && tmp.Valid()
    requires a.m == b.n && tmp.n == a.n && tmp.m == b.m && i < a.n
    requires tmp.data != a.data && tmp.data != b.data
    requires tmp.data[..] == Spliced(Product(a.Value(), b.Value()).cells, Zeros(tmp.data.Length), i * b.m)
    modifies tmp.data
    ensures (i + 1) * b.m <= tmp.data.Length
    ensures tmp.data[..] == Spliced(Product(a.Value(), b.Value()).cells, Zeros(tmp.data.Length), (i + 1) * b.m)
  {
    ghost var A, B := a.Value(), b.Value();
    ghost var target := Product(A, B).cells;
    ghost var done: nat := i * b.m;
    assert done + b.m == (i + 1) * b.m <= |target| by {
      MulMonotonic(i + 1, a.n, b.m);
      NextRowStart(i, b.m);
    }
    var j := 0;
    while j < b.m
      invariant j <= b.m
      invariant a.data[..] == A.cells && b.data[..] == B.cells
      invariant tmp.data[..] == Spliced(target, Zeros(|target|), done + j)
    {
      ghost var p := done + j;
      SplicedStep(target, Zeros(|target|), p);
      AccumulateDot(a, b, tmp, i, j);
      ProductAt(A, B, i, j);
      j := j + 1;
    }
  }

  /**
   * a * b: fails when a's column count differs from b's row count,
   * otherwise a fresh a.n-by-b.m matrix, zeroed and then filled by
   * accumulating a(i, k) * b(k, j) into each slot i*b.m + j in turn.
   */
  method Multiply(a: Matrix, b: Matrix) returns (r: Result<Matrix>)
    requires a.Valid() && b.Valid()
    ensures r.Ok? <==> a.ColumnLength() == b.RowLength()
    ensures r.Ok? ==> fresh(r.value) && fresh(r.value.data) && r.value.Valid()
    ensures r.Ok? ==> r.value.Value() == Product(a.Value(), b.Value())
  {
    if a.ColumnLength() != b.RowLength() {
      return InvalidArgument;
    }
    var tmp := new Matrix.Fill(a.n, b.m, 0);
    var z := 0;
    while z < tmp.mSize
      modifies tmp.data
      invariant z <= tmp.mSize
      invariant forall q :: 0 <= q < tmp.mSize ==> tmp.data[q] == 0
    {
      tmp.data[z] := 0;
      z := z + 1;
    }
    ghost var A, B := a.Value(), b.Value();
    ghost var target := Product(A, B).cells;
    ghost var size := tmp.mSize;
    assert |target| == size;
    assert a.data.Length == a.n * a.m && b.data.Length == b.n * b.m;
    assert tmp.data[..] == Spliced(target, Zeros(size), 0);
    var i := 0;
    ghost var done: nat := 0;
    while i < a.n
      modifies tmp.data
      invariant i <= a.n && done == i * b.m <= size
      invariant tmp.data[..] == Spliced(target, Zeros(size), done)
    {
      AccumulateRow(a, b, tmp, i);
      assert done + b.m == (i + 1) * b.m by { NextRowStart(i, b.m); }
      i, done := i + 1, done + b.m;
    }
    return Ok(tmp);
  }
}
