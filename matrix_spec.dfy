/**
 * The observable value of a matrix (its dimensions and its row-major
 * buffer) and the reference definitions that the imperative operations in
 * module Matrices are proved against.
 */
module MatrixSpec {
  import opened RowMajor

  /** Outcome of an operation that throws std::invalid_argument on bad input. */
  datatype Result<T> = Ok(value: T) | InvalidArgument

  /** Dimensions and the flat row-major buffer of a matrix of ints. */
  datatype Mat = Mat(rows: nat, cols: nat, cells: seq<int>)

  /** The buffer holds exactly rows * cols elements. */
  predicate WellFormed(a: Mat)
  {
    |a.cells| == a.rows * a.cols
  }

  predicate SameShape(a: Mat, b: Mat)
  {
    a.rows == b.rows && a.cols == b.cols
  }

  /** Element (i, j): buffer slot i*cols + j. */
  function At(a: Mat, i: nat, j: nat): int
    requires WellFormed(a) && i < a.rows && j < a.cols
  {
    SlotInBuffer(i, j, a.rows, a.cols);
    a.cells[i * a.cols + j]
  }

  /** Two well-formed matrices of one shape that agree on every (i, j) are equal. */
  lemma Extensionality(a: Mat, b: Mat)
    requires WellFormed(a) && WellFormed(b) && SameShape(a, b)
    requires forall i: nat, j: nat | i < a.rows && j < a.cols :: At(a, i, j) == At(b, i, j)
    ensures a == b
  {
    forall k | 0 <= k < |a.cells|
      ensures a.cells[k] == b.cells[k]
    {
      DecodeInBuffer(k, a.rows, a.cols);
      assert At(a, k / a.cols, k % a.cols) == At(b, k / a.cols, k % a.cols);
    }
  }

  /**
   * Reading slot k through the decoded pair (k / cols, k % cols), as the
   * converting copy and the equality test do, yields slot k itself.
   */
  lemma DecodedReadIsSlot(a: Mat, k: nat)
    requires WellFormed(a) && k < |a.cells|
    ensures a.cols > 0 && k / a.cols < a.rows && k % a.cols < a.cols
    ensures At(a, k / a.cols, k % a.cols) == a.cells[k]
  {
    DecodeInBuffer(k, a.rows, a.cols);
  }

  // ---------------------------------------------------------------- construction

  /** A rows-by-cols matrix whose every element is init. */
  function Filled(rows: nat, cols: nat, init: int): Mat
  {
    Mat(rows, cols, seq(rows * cols, _ => init))
  }

  lemma FilledAt(rows: nat, cols: nat, init: int, i: nat, j: nat)
    requires i < rows && j < cols
    ensures WellFormed(Filled(rows, cols, init))
    ensures At(Filled(rows, cols, init), i, j) == init
  {
    SlotInBuffer(i, j, rows, cols);
  }

  /** The inner lists of a nested literal laid end to end. */
  function Flatten(rows: seq<seq<int>>): seq<int>
  {
    if rows == [] then [] else Flatten(rows[..|rows| - 1]) + rows[|rows| - 1]
  }

  /** Every inner list has length cols. */
  predicate Rectangular(rows: seq<seq<int>>, cols: nat)
  {
    forall r | 0 <= r < |rows| :: |rows[r]| == cols
  }

  /**
   * The nested-literal constructor: the width is the first inner list's
   * length; a list of any other length makes construction fail.
   */
  function FromRows(rows: seq<seq<int>>): Result<Mat>
    requires |rows| > 0
  {
    if Rectangular(rows, |rows[0]|) then Ok(Mat(|rows|, |rows[0]|, Flatten(rows)))
    else InvalidArgument
  }

  lemma {:induction false} FlattenLength(rows: seq<seq<int>>, cols: nat)
    requires Rectangular(rows, cols)
    ensures |Flatten(rows)| == |rows| * cols
  {
    if rows != [] {
      FlattenLength(rows[..|rows| - 1], cols);
      NextRowStart(|rows| - 1, cols);
    }
  }

  lemma {:induction false} FlattenAt(rows: seq<seq<int>>, cols: nat, i: nat, j: nat)
    requires Rectangular(rows, cols) && i < |rows| && j < cols
    ensures |Flatten(rows)| == |rows| * cols
    ensures i * cols + j < |Flatten(rows)| && Flatten(rows)[i * cols + j] == rows[i][j]
  {
    FlattenLength(rows, cols);
    SlotInBuffer(i, j, |rows|, cols);
    var init := rows[..|rows| - 1];
    FlattenLength(init, cols);
    if i < |rows| - 1 {
      FlattenAt(init, cols, i, j);
    } else {
      assert i * cols + j == |Flatten(init)| + j;
    }
  }

  /**
   * A nested literal fails exactly when some inner list's length differs from
   * the first one's; otherwise element (i, j) is inner list i's j-th entry.
   */
  lemma FromRowsCorrect(rows: seq<seq<int>>)
    requires |rows| > 0
    ensures FromRows(rows).InvalidArgument? <==> exists r | 0 <= r < |rows| :: |rows[r]| != |rows[0]|
    ensures FromRows(rows).Ok? ==>
              var a := FromRows(rows).value;
              WellFormed(a) && a.rows == |rows| && a.cols == |rows[0]| &&
              forall i: nat, j: nat | i < a.rows && j < a.cols :: At(a, i, j) == rows[i][j]
  {
    var cols := |rows[0]|;
    if Rectangular(rows, cols) {
      FlattenLength(rows, cols);
      forall i: nat, j: nat | i < |rows| && j < cols
        ensures At(Mat(|rows|, cols, Flatten(rows)), i, j) == rows[i][j]
      {
        FlattenAt(rows, cols, i, j);
      }
    }
  }

  // ---------------------------------------------------------------- element access

  /** The matrix after writing x through the reference to element (i, j). */
  function Updated(a: Mat, i: nat, j: nat, x: int): Mat
    requires WellFormed(a) && i < a.rows && j < a.cols
  {
    SlotInBuffer(i, j, a.rows, a.cols);
    a.(cells := a.cells[i * a.cols + j := x])
  }

  /** Writing element (i, j) changes that element and no other. */
  lemma UpdatedAt(a: Mat, i: nat, j: nat, x: int, i': nat, j': nat)
    requires WellFormed(a) && i < a.rows && j < a.cols && i' < a.rows && j' < a.cols
    ensures WellFormed(Updated(a, i, j, x)) && SameShape(Updated(a, i, j, x), a)
    ensures At(Updated(a, i, j, x), i', j') == if i' == i && j' == j then x else At(a, i', j')
  {
    var k, k' := i * a.cols + j, i' * a.cols + j';
    SlotInBuffer(i, j, a.rows, a.cols);
    SlotInBuffer(i', j', a.rows, a.cols);
    var u := Updated(a, i, j, x);
    assert u.cells == a.cells[k := x];
    assert At(u, i', j') == u.cells[k'];
    if i' == i && j' == j {
      assert k == k';
    } else {
      if k == k' {
        SlotInjective(i, j, i', j', a.cols);
        assert false;
      }
      assert u.cells[k'] == a.cells[k'];
    }
  }

  /** row(i): a 1-by-cols copy of row i. */
  function RowOf(a: Mat, i: nat): Mat
    requires WellFormed(a) && i < a.rows
  {
    Mat(1, a.cols, seq(a.cols, j requires 0 <= j < a.cols => At(a, i, j)))
  }

  /** column(i): a rows-by-1 copy of column i. */
  function ColumnOf(a: Mat, i: nat): Mat
    requires WellFormed(a) && i < a.cols
  {
    Mat(a.rows, 1, seq(a.rows, j requires 0 <= j < a.rows => At(a, j, i)))
  }

  /** Row i is the contiguous block of slots i*cols .. (i+1)*cols of the buffer. */
  lemma RowIsContiguous(a: Mat, i: nat)
    requires WellFormed(a) && i < a.rows
    ensures WellFormed(RowOf(a, i))
    ensures i * a.cols + a.cols <= |a.cells|
    ensures RowOf(a, i).cells == a.cells[i * a.cols .. i * a.cols + a.cols]
  {
    MulMonotonic(i + 1, a.rows, a.cols);
  }

  /** Element j of row(i) is element (i, j). */
  lemma RowOfAt(a: Mat, i: nat, j: nat)
    requires WellFormed(a) && i < a.rows && j < a.cols
    ensures WellFormed(RowOf(a, i)) && RowOf(a, i).rows == 1 && RowOf(a, i).cols == a.cols
    ensures At(RowOf(a, i), 0, j) == At(a, i, j)
  {
  }

  /** Element j of column(i) is element (j, i). */
  lemma ColumnOfAt(a: Mat, i: nat, j: nat)
    requires WellFormed(a) && i < a.cols && j < a.rows
    ensures WellFormed(ColumnOf(a, i)) && ColumnOf(a, i).rows == a.rows && ColumnOf(a, i).cols == 1
    ensures At(ColumnOf(a, i), j, 0) == At(a, j, i)
  {
  }

  /** Column i of a matrix holds the same elements as row i of its transpose. */
  lemma ColumnIsTransposedRow(a: Mat, i: nat)
    requires WellFormed(a) && i < a.cols
    ensures WellFormed(ColumnOf(a, i)) && WellFormed(Transposed(a))
    ensures ColumnOf(a, i).cells == RowOf(Transposed(a), i).cells
  {
    forall j | 0 <= j < a.rows
      ensures ColumnOf(a, i).cells[j] == RowOf(Transposed(a), i).cells[j]
    {
      TransposedAt(a, i, j);
    }
  }

  // ---------------------------------------------------------------- transpose

  /** tran(): a cols-by-rows matrix whose slot q holds source element (q % rows, q / rows). */
  function Transposed(a: Mat): Mat
    requires WellFormed(a)
  {
    Mat(a.cols, a.rows,
        seq(a.cols * a.rows, q requires 0 <= q < a.cols * a.rows =>
          DecodeInBuffer(q, a.cols, a.rows);
          At(a, q % a.rows, q / a.rows)))
  }

  lemma TransposedAt(a: Mat, i: nat, j: nat)
    requires WellFormed(a) && i < a.cols && j < a.rows
    ensures WellFormed(Transposed(a))
    ensures At(Transposed(a), i, j) == At(a, j, i)
  {
    TransposedSlot(a, i, j);
  }

  /** TransposedAt in buffer terms: slot i*rows + j of the result is slot j*cols + i of a. */
  lemma TransposedSlot(a: Mat, i: nat, j: nat)
    requires WellFormed(a) && i < a.cols && j < a.rows
    ensures i * a.rows + j < |Transposed(a).cells| && j * a.cols + i < |a.cells|
    ensures Transposed(a).cells[i * a.rows + j] == a.cells[j * a.cols + i]
  {
    SlotInBuffer(i, j, a.cols, a.rows);
    SlotInBuffer(j, i, a.rows, a.cols);
    SlotDecodes(i, j, a.rows);
  }

  /** Transposing twice gives back the original matrix. */
  lemma TransposeInvolutive(a: Mat)
    requires WellFormed(a)
    ensures WellFormed(Transposed(a)) && Transposed(Transposed(a)) == a
  {
    var t := Transposed(a);
    var tt := Transposed(t);
    forall i: nat, j: nat | i < a.rows && j < a.cols
      ensures At(tt, i, j) == At(a, i, j)
    {
      TransposedAt(t, i, j);
      TransposedAt(a, j, i);
    }
    Extensionality(tt, a);
  }

  // ---------------------------------------------------------------- element-wise arithmetic

  /** a + b, element by element at the same slot. */
  function Sum(a: Mat, b: Mat): Mat
    requires WellFormed(a) && WellFormed(b) && SameShape(a, b)
  {
    Mat(a.rows, a.cols, seq(|a.cells|, k requires 0 <= k < |a.cells| => a.cells[k] + b.cells[k]))
  }

  /** a - b, element by element at the same slot. */
  function Difference(a: Mat, b: Mat): Mat
    requires WellFormed(a) && WellFormed(b) && SameShape(a, b)
  {
    Mat(a.rows, a.cols, seq(|a.cells|, k requires 0 <= k < |a.cells| => a.cells[k] - b.cells[k]))
  }

  /** Every element multiplied by the scalar x. */
  function Scaled(a: Mat, x: int): Mat
  {
    Mat(a.rows, a.cols, seq(|a.cells|, k requires 0 <= k < |a.cells| => a.cells[k] * x))
  }

  /** Every element negated. */
  function Negated(a: Mat): Mat
  {
    Mat(a.rows, a.cols, seq(|a.cells|, k requires 0 <= k < |a.cells| => -a.cells[k]))
  }

  lemma SumAt(a: Mat, b: Mat, i: nat, j: nat)
    requires WellFormed(a) && WellFormed(b) && SameShape(a, b) && i < a.rows && j < a.cols
    ensures WellFormed(Sum(a, b)) && SameShape(Sum(a, b), a)
    ensures At(Sum(a, b), i, j) == At(a, i, j) + At(b, i, j)
  {
    SlotInBuffer(i, j, a.rows, a.cols);
  }

  /**
   * A buffer filled front to back: the first p slots of t, then the slots
   * of rest from p on (the state of a loop writing t over rest).
   */
  function Spliced(t: seq<int>, rest: seq<int>, p: nat): seq<int>
    requires |t| == |rest| && p <= |t|
  {
    seq(|t|, q requires 0 <= q < |t| => if q < p then t[q] else rest[q])
  }

  /** Writing t's slot p moves the boundary one slot on; rewriting rest's slot p changes nothing. */
  lemma SplicedStep(t: seq<int>, rest: seq<int>, p: nat)
    requires |t| == |rest| && p < |t|
    ensures Spliced(t, rest, p)[p := t[p]] == Spliced(t, rest, p + 1)
    ensures Spliced(t, rest, p)[p := rest[p]] == Spliced(t, rest, p)
  {
  }

  /** n zeros. */
  function Zeros(n: nat): seq<int>
  {
    seq(n, _ => 0)
  }

  /** Buffer a with its first p slots already increased by b's (a loop state of +=). */
  function SumPrefix(a: seq<int>, b: seq<int>, p: nat): seq<int>
    requires |a| == |b| && p <= |a|
  {
    seq(|a|, k requires 0 <= k < |a| => if k < p then a[k] + b[k] else a[k])
  }

  /** Buffer a with its first p slots already decreased by b's (a loop state of -=). */
  function DifferencePrefix(a: seq<int>, b: seq<int>, p: nat): seq<int>
    requires |a| == |b| && p <= |a|
  {
    seq(|a|, k requires 0 <= k < |a| => if k < p then a[k] - b[k] else a[k])
  }

  lemma DifferenceAt(a: Mat, b: Mat, i: nat, j: nat)
    requires WellFormed(a) && WellFormed(b) && SameShape(a, b) && i < a.rows && j < a.cols
    ensures WellFormed(Difference(a, b)) && SameShape(Difference(a, b), a)
    ensures At(Difference(a, b), i, j) == At(a, i, j) - At(b, i, j)
  {
    SlotInBuffer(i, j, a.rows, a.cols);
  }

  /** Over the integers, adding b and then subtracting it gives back a. */
  lemma SumThenDifference(a: Mat, b: Mat)
    requires WellFormed(a) && WellFormed(b) && SameShape(a, b)
    ensures WellFormed(Sum(a, b)) && Difference(Sum(a, b), b) == a
  {
    assert Difference(Sum(a, b), b).cells == a.cells;
  }

  lemma ScaledAt(a: Mat, x: int, i: nat, j: nat)
    requires WellFormed(a) && i < a.rows && j < a.cols
    ensures WellFormed(Scaled(a, x)) && SameShape(Scaled(a, x), a)
    ensures At(Scaled(a, x), i, j) == At(a, i, j) * x
  {
    SlotInBuffer(i, j, a.rows, a.cols);
  }

  /** Scaling distributes over the element-wise sum. */
  lemma ScaledDistributes(a: Mat, b: Mat, x: int)
    requires WellFormed(a) && WellFormed(b) && SameShape(a, b)
    ensures WellFormed(Sum(a, b)) && WellFormed(Scaled(a, x)) && WellFormed(Scaled(b, x))
    ensures Scaled(Sum(a, b), x) == Sum(Scaled(a, x), Scaled(b, x))
  {
    forall k | 0 <= k < |a.cells|
      ensures Scaled(Sum(a, b), x).cells[k] == Sum(Scaled(a, x), Scaled(b, x)).cells[k]
    {
      Distributes(x, a.cells[k], b.cells[k]);
    }
  }

  /** Unary minus and scaling by -1 give the same matrix. */
  lemma NegatedIsScaled(a: Mat)
    ensures Negated(a) == Scaled(a, -1)
  {
    assert Negated(a).cells == Scaled(a, -1).cells;
  }

  /** A matrix with a nonzero element is changed by negation. */
  lemma NegatedChanges(a: Mat, k: nat)
    requires k < |a.cells| && a.cells[k] != 0
    ensures Negated(a) != a
  {
    assert Negated(a).cells[k] == -a.cells[k];
  }

  /** Negating twice gives back the original matrix. */
  lemma NegatedTwice(a: Mat)
    ensures Negated(Negated(a)) == a
  {
    assert Negated(Negated(a)).cells == a.cells;
  }

  // ---------------------------------------------------------------- matrix product

  /** Sum over l < k of a(i, l) * b(l, j), accumulated from 0 in increasing l. */
  function Dot(a: Mat, b: Mat, i: nat, j: nat, k: nat): int
    requires WellFormed(a) && WellFormed(b) && a.cols == b.rows
    requires i < a.rows && j < b.cols && k <= a.cols
  {
    if k == 0 then 0 else Dot(a, b, i, j, k - 1) + At(a, i, k - 1) * At(b, k - 1, j)
  }

  /** a * b: an a.rows-by-b.cols matrix whose (i, j) entry is the full dot product. */
  function Product(a: Mat, b: Mat): Mat
    requires WellFormed(a) && WellFormed(b) && a.cols == b.rows
  {
    Mat(a.rows, b.cols,
        seq(a.rows * b.cols, q requires 0 <= q < a.rows * b.cols =>
          DecodeInBuffer(q, a.rows, b.cols);
          Dot(a, b, q / b.cols, q % b.cols, a.cols)))
  }

  lemma ProductAt(a: Mat, b: Mat, i: nat, j: nat)
    requires WellFormed(a) && WellFormed(b) && a.cols == b.rows && i < a.rows && j < b.cols
    ensures WellFormed(Product(a, b)) && Product(a, b).rows == a.rows && Product(a, b).cols == b.cols
    ensures At(Product(a, b), i, j) == Dot(a, b, i, j, a.cols)
  {
    SlotInBuffer(i, j, a.rows, b.cols);
    SlotDecodes(i, j, b.cols);
  }

  /** Multiplication distributes over addition: one step of DotOverSum. */
  lemma Distributes(x: int, y: int, z: int)
    ensures x * (y + z) == x * y + x * z
  {
  }

  lemma {:induction false} DotOverSum(a: Mat, b: Mat, c: Mat, i: nat, j: nat, k: nat)
    requires WellFormed(a) && WellFormed(b) && WellFormed(c) && SameShape(b, c) && a.cols == b.rows
    requires i < a.rows && j < b.cols && k <= a.cols
    ensures WellFormed(Sum(b, c))
    ensures Dot(a, Sum(b, c), i, j, k) == Dot(a, b, i, j, k) + Dot(a, c, i, j, k)
  {
    if k > 0 {
      DotOverSum(a, b, c, i, j, k - 1);
      SumAt(b, c, k - 1, j);
      Distributes(At(a, i, k - 1), At(b, k - 1, j), At(c, k - 1, j));
    }
  }

  /** The product distributes over a sum on the right. */
  lemma ProductDistributes(a: Mat, b: Mat, c: Mat)
    requires WellFormed(a) && WellFormed(b) && WellFormed(c) && SameShape(b, c) && a.cols == b.rows
    ensures WellFormed(Sum(b, c)) && WellFormed(Product(a, b)) && WellFormed(Product(a, c))
    ensures Product(a, Sum(b, c)) == Sum(Product(a, b), Product(a, c))
  {
    var l, r := Product(a, Sum(b, c)), Sum(Product(a, b), Product(a, c));
    forall i: nat, j: nat | i < a.rows && j < b.cols
      ensures At(l, i, j) == At(r, i, j)
    {
      ProductAt(a, Sum(b, c), i, j);
      ProductAt(a, b, i, j);
      ProductAt(a, c, i, j);
      SumAt(Product(a, b), Product(a, c), i, j);
      DotOverSum(a, b, c, i, j, a.cols);
    }
    Extensionality(l, r);
  }

  // ---------------------------------------------------------------- resize and clear

  /**
   * resize(rows, cols, init), stated slot by slot: the dimensions become
   * rows-by-cols, slot k keeps the old element while one exists and is init
   * beyond the old element count.
   */
  function Resized(a: Mat, rows: nat, cols: nat, init: int): Mat
  {
    Mat(rows, cols, seq(rows * cols, k requires 0 <= k < rows * cols => if k < |a.cells| then a.cells[k] else init))
  }

  /** With an unchanged element count only the dimensions change: a 2x3 becomes a 3x2 over the same slots. */
  lemma ResizedSameCount(a: Mat, rows: nat, cols: nat, init: int)
    requires rows * cols == |a.cells|
    ensures Resized(a, rows, cols, init) == Mat(rows, cols, a.cells)
  {
    assert Resized(a, rows, cols, init).cells == a.cells;
  }

  /** Shrinking keeps the first rows*cols old elements in order. */
  lemma ResizedShrinks(a: Mat, rows: nat, cols: nat, init: int)
    requires rows * cols < |a.cells|
    ensures Resized(a, rows, cols, init) == Mat(rows, cols, a.cells[..rows * cols])
  {
    assert Resized(a, rows, cols, init).cells == a.cells[..rows * cols];
  }

  /** Growing keeps every old element at its slot and fills the new trailing slots with init. */
  lemma ResizedGrows(a: Mat, rows: nat, cols: nat, init: int)
    requires rows * cols > |a.cells|
    ensures Resized(a, rows, cols, init) == Mat(rows, cols, a.cells + seq(rows * cols - |a.cells|, _ => init))
  {
    assert Resized(a, rows, cols, init).cells == a.cells + seq(rows * cols - |a.cells|, _ => init);
  }

  /** The value of a cleared (or default-constructed) matrix. */
  function Empty(): Mat
  {
    Mat(0, 0, [])
  }
}
