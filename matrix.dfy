/**
 * sjtu::Matrix<T> with T = int: the dimensions n and m, the cached element
 * count mSize (m_size) and the flat row-major buffer. A null buffer is a
 * zero-length array. Every operation that throws std::invalid_argument
 * returns InvalidArgument (or false) here, before changing anything.
 */
module Matrices {
  import opened RowMajor
  import opened MatrixSpec

  class Matrix {
    var n: nat
    var m: nat
    var mSize: nat
    var data: array<int>

    /** The cached count is n*m and the buffer holds exactly that many elements. */
    ghost predicate Valid()
      reads this
    {
      mSize == n * m && data.Length == mSize
    }

    /** The abstract value: dimensions and buffer contents. */
    ghost function Value(): (v: Mat)
      reads this, data
      ensures Valid() ==> WellFormed(v)
    {
      Mat(n, m, data[..])
    }

    /** Matrix() = default: 0 by 0 with no buffer. */
    constructor Empty()
      ensures Valid() && fresh(data)
      ensures Value() == MatrixSpec.Empty()
    {
      n, m, mSize := 0, 0, 0;
      data := new int[0];
    }

    /** Matrix(n, m, init): a rows-by-cols matrix with every element init. */
    constructor Fill(rows: nat, cols: nat, init: int)
      ensures Valid() && fresh(data)
      ensures RowLength() == rows && ColumnLength() == cols
      ensures Value() == Filled(rows, cols, init)
    {
      n := rows;
      m := cols;
      mSize := rows * cols;
      var buf := new int[rows * cols];
      var i := 0;
      while i < buf.Length
        invariant i <= buf.Length
        invariant forall k :: 0 <= k < i ==> buf[k] == init
      {
        buf[i] := init;
        i := i + 1;
      }
      data := buf;
      assert buf[..] == Filled(rows, cols, init).cells;
    }

    /** Matrix(pair<size_t, size_t> sz, init): the same as Fill(sz.first, sz.second, init). */
    constructor FillPair(sz: (nat, nat), init: int)
      ensures Valid() && fresh(data)
      ensures RowLength() == sz.0 && ColumnLength() == sz.1
      ensures Value() == Filled(sz.0, sz.1, init)
    {
      n := sz.0;
      m := sz.1;
      mSize := sz.0 * sz.1;
      var buf := new int[sz.0 * sz.1];
      var i := 0;
      while i < buf.Length
        invariant i <= buf.Length
        invariant forall k :: 0 <= k < i ==> buf[k] == init
      {
        buf[i] := init;
        i := i + 1;
      }
      data := buf;
      assert buf[..] == Filled(sz.0, sz.1, init).cells;
    }

    /** The copy constructor: a deep copy of o's buffer. */
    constructor Copy(o: Matrix)
      requires o.Valid()
      ensures Valid() && fresh(data)
      ensures Value() == o.Value()
    {
      n := o.n;
      m := o.m;
      mSize := o.mSize;
      var buf := new int[o.mSize];
      var i := 0;
      while i < buf.Length
        invariant i <= buf.Length == o.data.Length
        invariant forall k :: 0 <= k < i ==> buf[k] == o.data[k]
      {
        buf[i] := o.data[i];
        i := i + 1;
      }
      data := buf;
      assert buf[..] == o.data[..];
    }

    /**
     * The converting constructor Matrix(const Matrix<U>&): slot i is read
     * from o through the checked access o(i / m, i % m).
     */
    constructor Convert(o: Matrix)
      requires o.Valid()
      ensures Valid() && fresh(data)
      ensures Value() == o.Value()
    {
      n := o.RowLength();
      m := o.ColumnLength();
      mSize := o.n * o.m;
      var buf := new int[o.n * o.m];
      var i := 0;
      while i < buf.Length
        invariant i <= buf.Length == o.data.Length
        invariant forall k :: 0 <= k < i ==> buf[k] == o.data[k]
      {
        DecodedReadIsSlot(o.Value(), i);
        buf[i] := o.Get(i / o.ColumnLength(), i % o.ColumnLength()).value;
        i := i + 1;
      }
      data := buf;
      assert buf[..] == o.data[..];
    }

    /**
     * The nested-literal constructor. The width is the first inner list's
     * length; on reaching an inner list of any other length construction
     * fails.
     */
    static method FromRows(rows: seq<seq<int>>) returns (r: Result<Matrix>)
      requires |rows| > 0
      ensures r.InvalidArgument? <==> MatrixSpec.FromRows(rows).InvalidArgument?
      ensures r.Ok? ==> fresh(r.value) && fresh(r.value.data) && r.value.Valid()
      ensures r.Ok? ==> r.value.Value() == MatrixSpec.FromRows(rows).value
    {
      var n, m := |rows|, |rows[0]|;
      var buf := new int[n * m];
      var cnt := 0;
      var it := 0;
      while it < n
        invariant it <= n
        invariant Rectangular(rows[..it], m)
        invariant cnt == it * m <= buf.Length
        invariant buf[..cnt] == Flatten(rows[..it])
      {
        if |rows[it]| != m {
          assert !Rectangular(rows, m);
          return InvalidArgument;
        }
        MulMonotonic(it + 1, n, m);
        NextRowStart(it, m);
        var iter := 0;
        while iter < |rows[it]|
          invariant iter <= |rows[it]| && cnt == it * m + iter
          invariant buf[..cnt] == Flatten(rows[..it]) + rows[it][..iter]
        {
          buf[cnt] := rows[it][iter];
          cnt := cnt + 1;
          iter := iter + 1;
        }
        assert rows[..it + 1][..it] == rows[..it];
        assert rows[it][..iter] == rows[it];
        it := it + 1;
      }
      assert rows[..it] == rows;
      assert buf[..] == buf[..cnt];
      var mat := new Matrix.Empty();
      mat.n, mat.m, mat.mSize, mat.data := n, m, n * m, buf;
      r := Ok(mat);
    }

    /** Copy assignment: a no-op on self-assignment, otherwise a deep copy of o. */
    method Assign(o: Matrix)
      requires Valid() && o.Valid()
      modifies this
      ensures Valid() && Value() == old(o.Value())
      ensures o != this ==> fresh(data)
    {
      if this == o {
        return;
      }
      n := o.n;
      m := o.m;
      mSize := o.mSize;
      data := new int[o.mSize];
      var i := 0;
      while i < mSize
        invariant n == o.n && m == o.m && mSize == o.mSize == data.Length && fresh(data)
        invariant i <= mSize
        invariant forall k :: 0 <= k < i ==> data[k] == o.data[k]
      {
        data[i] := o.data[i];
        i := i + 1;
      }
      assert data[..] == o.data[..];
    }

    /**
     * Converting assignment from a Matrix<U>: rebuilds the buffer reading
     * o(i / m, i % m). A Matrix<U> of another element type is never the
     * same object as this one.
     */
    method ConvertAssign(o: Matrix)
      requires Valid() && o.Valid() && o != this
      modifies this
      ensures Valid() && fresh(data) && Value() == old(o.Value())
    {
      n := o.RowLength();
      m := o.ColumnLength();
      mSize := n * m;
      data := new int[mSize];
      var i := 0;
      while i < mSize
        invariant n == o.n && m == o.m && mSize == o.mSize == data.Length && fresh(data)
        invariant i <= mSize
        invariant forall k :: 0 <= k < i ==> data[k] == o.data[k]
      {
        DecodedReadIsSlot(o.Value(), i);
        data[i] := o.Get(i / o.ColumnLength(), i % o.ColumnLength()).value;
        i := i + 1;
      }
      assert data[..] == o.data[..];
    }

    /** rowLength() */
    function RowLength(): (r: nat)
      reads this, data
      ensures r == Value().rows
    {
      n
    }

    /** columnLength() */
    function ColumnLength(): (r: nat)
      reads this, data
      ensures r == Value().cols
    {
      m
    }

    /** size(): the pair (rowLength(), columnLength()). */
    function Size(): (r: (nat, nat))
      reads this, data
      ensures r == (Value().rows, Value().cols)
    {
      (n, m)
    }

    /**
     * resize(r, c, init): the dimensions always become r-by-c. When the
     * element count r*c is unchanged the buffer is kept as it is; otherwise
     * a new buffer receives the old elements up to the smaller count and
     * init in any further slots.
     */
    method Resize(r: nat, c: nat, init: int)
      requires Valid()
      modifies this
      ensures Valid() && Value() == Resized(old(Value()), r, c, init)
    {
      var oldSize := mSize;
      n := r;
      m := c;
      mSize := n * m;
      if oldSize == mSize {
        assert data[..] == Resized(old(Value()), r, c, init).cells;
        return;
      }
      var tmp := data;
      data := new int[n * m];
      assert mSize == data.Length && tmp.Length == oldSize;
      if oldSize > mSize {
        var i := 0;
        while i < mSize
          modifies data
          invariant i <= mSize
          invariant forall k :: 0 <= k < i ==> data[k] == tmp[k]
        {
          data[i] := tmp[i];
          i := i + 1;
        }
      } else {
        var i := 0;
        while i < oldSize
          modifies data
          invariant i <= oldSize
          invariant forall k :: 0 <= k < i ==> data[k] == tmp[k]
        {
          data[i] := tmp[i];
          i := i + 1;
        }
        i := oldSize;
        while i < mSize
          modifies data
          invariant oldSize <= i <= mSize
          invariant forall k :: 0 <= k < oldSize ==> data[k] == tmp[k]
          invariant forall k :: oldSize <= k < i ==> data[k] == init
        {
          data[i] := init;
          i := i + 1;
        }
      }
      assert data[..] == Resized(old(Value()), r, c, init).cells;
    }

    /** resize(pair<size_t, size_t> sz, init): the same as resize(sz.first, sz.second, init). */
    method ResizePair(sz: (nat, nat), init: int)
      requires Valid()
      modifies this
      ensures Valid() && Value() == Resized(old(Value()), sz.0, sz.1, init)
    {
      Resize(sz.0, sz.1, init);
    }

    /** clear(): 0 by 0 with no buffer; clearing a cleared matrix changes nothing. */
    method Clear()
      modifies this
      ensures Valid() && Value() == MatrixSpec.Empty()
    {
      n, m, mSize := 0, 0, 0;
      data := new int[0];
    }

    /**
     * operator()(i, j) const: fails when i >= n or j >= m, otherwise reads
     * buffer slot i*m + j.
     */
    function Get(i: nat, j: nat): (r: Result<int>)
      reads this, data
      requires Valid()
      ensures r.Ok? <==> i < n && j < m
      ensures r.Ok? ==> r.value == At(Value(), i, j)
      ensures r.Ok? ==> i * m + j < data.Length && r.value == data[i * m + j]
    {
      if i >= n || j >= m then InvalidArgument
      else
        SlotInBuffer(i, j, n, m);
        Ok(data[i * m + j])
    }

    /**
     * Writing through the reference that operator()(i, j) returns: fails
     * when i >= n or j >= m, otherwise slot i*m + j becomes x and nothing
     * else changes.
     */
    method Set(i: nat, j: nat, x: int) returns (ok: bool)
      requires Valid()
      modifies data
      ensures Valid()
      ensures ok <==> i < n && j < m
      ensures Value() == if ok then Updated(old(Value()), i, j, x) else old(Value())
    {
      if i >= n || j >= m {
        return false;
      }
      SlotInBuffer(i, j, n, m);
      data[i * m + j] := x;
      return true;
    }

    /** row(i): fails when i >= n, otherwise a new 1-by-m copy of row i. */
    method Row(i: nat) returns (r: Result<Matrix>)
      requires Valid()
      ensures r.Ok? <==> i < n
      ensures r.Ok? ==> fresh(r.value) && fresh(r.value.data) && r.value.Valid()
      ensures r.Ok? ==> r.value.Value() == RowOf(Value(), i)
    {
      if i >= n {
        return InvalidArgument;
      }
      var tmp := new Matrix.Fill(1, m, 0);
      var j := 0;
      while j < m
        invariant tmp.n == 1 && tmp.m == m && tmp.mSize == m == tmp.data.Length && fresh(tmp.data)
        invariant j <= m
        invariant forall k :: 0 <= k < j ==> tmp.data[k] == At(Value(), i, k)
      {
        SlotInBuffer(i, j, n, m);
        tmp.data[j] := data[i * m + j];
        j := j + 1;
      }
      assert tmp.data[..] == RowOf(Value(), i).cells;
      r := Ok(tmp);
    }

    /** column(i): fails when i >= m, otherwise a new n-by-1 copy of column i. */
    method Column(i: nat) returns (r: Result<Matrix>)
      requires Valid()
      ensures r.Ok? <==> i < m
      ensures r.Ok? ==> fresh(r.value) && fresh(r.value.data) && r.value.Valid()
      ensures r.Ok? ==> r.value.Value() == ColumnOf(Value(), i)
    {
      if i >= m {
        return InvalidArgument;
      }
      var tmp := new Matrix.Fill(n, 1, 0);
      var j := 0;
      while j < n
        invariant tmp.n == n && tmp.m == 1 && tmp.mSize == n == tmp.data.Length && fresh(tmp.data)
        invariant j <= n
        invariant forall k :: 0 <= k < j ==> tmp.data[k] == At(Value(), k, i)
      {
        SlotInBuffer(j, i, n, m);
        tmp.data[j] := data[j * m + i];
        j := j + 1;
      }
      assert tmp.data[..] == ColumnOf(Value(), i).cells;
      r := Ok(tmp);
    }

    /**
     * operator==: false at once when the sizes differ, otherwise true exactly
     * when every slot i equals o(i / m, i % m).
     */
    method Equals(o: Matrix) returns (eq: bool)
      requires Valid() && o.Valid()
      ensures eq <==> Value() == o.Value()
    {
      if Size() != o.Size() {
        return false;
      }
      var i := 0;
      while i < mSize
        invariant i <= mSize
        invariant forall k :: 0 <= k < i ==> data[k] == o.data[k]
      {
        DecodedReadIsSlot(o.Value(), i);
        if data[i] != o.Get(i / m, i % m).value {
          assert data[..][i] != o.data[..][i];
          return false;
        }
        i := i + 1;
      }
      assert data[..] == o.data[..];
      return true;
    }

    /** operator!=: the same scan as operator==, with the answers swapped. */
    method NotEquals(o: Matrix) returns (ne: bool)
      requires Valid() && o.Valid()
      ensures ne <==> Value() != o.Value()
    {
      if Size() != o.Size() {
        return true;
      }
      var i := 0;
      while i < mSize
        invariant i <= mSize
        invariant forall k :: 0 <= k < i ==> data[k] == o.data[k]
      {
        DecodedReadIsSlot(o.Value(), i);
        if data[i] != o.Get(i / m, i % m).value {
          assert data[..][i] != o.data[..][i];
          return true;
        }
        i := i + 1;
      }
      assert data[..] == o.data[..];
      return false;
    }

    /**
     * Unary operator-: although declared const it negates this matrix's own
     * buffer in place and then returns a copy of it, so the operand and the
     * result both end up negated.
     */
    method Negate() returns (r: Matrix)
      requires Valid()
      modifies data
      ensures Valid() && Value() == Negated(old(Value()))
      ensures fresh(r) && fresh(r.data) && r.Valid() && r.Value() == Value()
    {
      var i := 0;
      while i < mSize
        invariant i <= mSize
        invariant forall k :: 0 <= k < i ==> data[k] == -old(data[k])
        invariant forall k :: i <= k < mSize ==> data[k] == old(data[k])
      {
        data[i] := -data[i];
        i := i + 1;
      }
      assert data[..] == Negated(old(Value())).cells;
      r := new Matrix.Copy(this);
    }

    /**
     * Unary minus as evidently intended: a new matrix holding the negated
     * elements, with this matrix left as it was.
     */
    method Negative() returns (r: Matrix)
      requires Valid()
      ensures fresh(r) && fresh(r.data) && r.Valid() && r.Value() == Negated(Value())
    {
      r := new Matrix.Copy(this);
      r.ScaleAssign(-1);
      NegatedIsScaled(Value());
    }

    /**
     * The inner loop of operator+= for row i: slot i*m + j is increased by
     * o(i, j) for every column j, and no other slot changes.
     */
    method AddRow(o: Matrix, i: nat, ghost a: seq<int>, ghost b: seq<int>)
      requires Valid() && o.Valid() && o.n == n && o.m == m && i < n
      requires |a| == |b| == mSize && i * m <= mSize
      requires data[..] == SumPrefix(a, b, i * m)
      requires o.data != data ==> o.data[..] == b
      requires o.data == data ==> a == b
      modifies data
      ensures (i + 1) * m <= mSize
      ensures data[..] == SumPrefix(a, b, (i + 1) * m)
    {
      ghost var done := i * m;
      assert done + m == (i + 1) * m <= mSize by {
        MulMonotonic(i + 1, n, m);
        NextRowStart(i, m);
      }
      var j := 0;
      while j < m
        invariant j <= m
        invariant data[..] == SumPrefix(a, b, done + j)
      {
        var v := o.Get(i, j).value;
        assert v == b[done + j];
        data[i * m + j] := data[i * m + j] + v;
        assert data[..] == SumPrefix(a, b, done + j + 1);
        j := j + 1;
      }
    }

    /**
     * operator+=: fails when the sizes differ, otherwise adds o(i, j) into
     * slot i*m + j for every (i, j). o may be this matrix itself.
     */
    method AddAssign(o: Matrix) returns (ok: bool)
      requires Valid() && o.Valid()
      modifies data
      ensures Valid()
      ensures ok <==> old(Size()) == old(o.Size())
      ensures Value() == if ok then Sum(old(Value()), old(o.Value())) else old(Value())
    {
      if Size() != o.Size() {
        return false;
      }
      assert o.n == n && o.m == m;
      ghost var a, b := data[..], o.data[..];
      assert |a| == |b| == mSize == data.Length == o.data.Length;
      var i := 0;
      while i < n
        invariant i <= n && i * m <= mSize
        invariant data[..] == SumPrefix(a, b, i * m)
        invariant o.data != data ==> o.data[..] == b
      {
        AddRow(o, i, a, b);
        i := i + 1;
      }
      assert data[..] == Sum(old(Value()), old(o.Value())).cells;
      return true;
    }

    /**
     * The inner loop of operator-= for row i: slot i*m + j is decreased by
     * o(i, j) for every column j, and no other slot changes.
     */
    method SubtractRow(o: Matrix, i: nat, ghost a: seq<int>, ghost b: seq<int>)
      requires Valid() && o.Valid() && o.n == n && o.m == m && i < n
      requires |a| == |b| == mSize && i * m <= mSize
      requires data[..] == DifferencePrefix(a, b, i * m)
      requires o.data != data ==> o.data[..] == b
      requires o.data == data ==> a == b
      modifies data
      ensures (i + 1) * m <= mSize
      ensures data[..] == DifferencePrefix(a, b, (i + 1) * m)
    {
      ghost var done := i * m;
      assert done + m == (i + 1) * m <= mSize by {
        MulMonotonic(i + 1, n, m);
        NextRowStart(i, m);
      }
      var j := 0;
      while j < m
        invariant j <= m
        invariant data[..] == DifferencePrefix(a, b, done + j)
      {
        var v := o.Get(i, j).value;
        assert v == b[done + j];
        data[i * m + j] := data[i * m + j] - v;
        assert data[..] == DifferencePrefix(a, b, done + j + 1);
        j := j + 1;
      }
    }

    /**
     * operator-=: fails when the sizes differ, otherwise subtracts o(i, j)
     * from slot i*m + j for every (i, j). o may be this matrix itself.
     */
    method SubtractAssign(o: Matrix) returns (ok: bool)
      requires Valid() && o.Valid()
      modifies data
      ensures Valid()
      ensures ok <==> old(Size()) == old(o.Size())
      ensures Value() == if ok then Difference(old(Value()), old(o.Value())) else old(Value())
    {
      if Size() != o.Size() {
        return false;
      }
      assert o.n == n && o.m == m;
      ghost var a, b := data[..], o.data[..];
      assert |a| == |b| == mSize == data.Length == o.data.Length;
      var i := 0;
      while i < n
        invariant i <= n && i * m <= mSize
        invariant data[..] == DifferencePrefix(a, b, i * m)
        invariant o.data != data ==> o.data[..] == b
      {
        SubtractRow(o, i, a, b);
        i := i + 1;
      }
      assert data[..] == Difference(old(Value()), old(o.Value())).cells;
      return true;
    }

    /** operator*=(x): multiplies every element in place by x. */
    method ScaleAssign(x: int)
      requires Valid()
      modifies data
      ensures Valid() && Value() == Scaled(old(Value()), x)
    {
      var i := 0;
      while i < mSize
        invariant i <= mSize
        invariant forall k :: 0 <= k < i ==> data[k] == old(data[k]) * x
        invariant forall k :: i <= k < mSize ==> data[k] == old(data[k])
      {
        data[i] := data[i] * x;
        i := i + 1;
      }
      assert data[..] == Scaled(old(Value()), x).cells;
    }

    /**
     * The inner loop of tran() for one i: slots i*n .. i*n + n-1 of t
     * receive column i of this matrix, and the slots before them are kept.
     */
    method TransposeRow(t: Matrix, i: nat, ghost target: seq<int>, ghost t0: seq<int>)
      requires Valid() && t.Valid() && t.n == m && t.m == n && t.data != data && i < m
      requires target == Transposed(Value()).cells && |t0| == mSize
      requires i * n <= mSize && t.data[..] == Spliced(target, t0, i * n)
      modifies t.data
      ensures (i + 1) * n <= mSize
      ensures t.data[..] == Spliced(target, t0, (i + 1) * n)
    {
      ghost var v := Value();
      ghost var done: nat := i * n;
      assert done + n == (i + 1) * n <= mSize by {
        MulMonotonic(i + 1, m, n);
        NextRowStart(i, n);
      }
      var j := 0;
      while j < n
        invariant j <= n
        invariant t.data[..] == Spliced(target, t0, done + j)
      {
        TransposedSlot(v, i, j);
        SplicedStep(target, t0, done + j);
        t.data[i * n + j] := data[j * m + i];
        j := j + 1;
      }
    }

    /**
     * tran(): a new m-by-n matrix whose slot i*n + j receives this matrix's
     * slot j*m + i; this matrix is left unchanged.
     */
    method Tran() returns (t: Matrix)
      requires Valid()
      ensures fresh(t) && fresh(t.data) && t.Valid()
      ensures t.Value() == Transposed(Value())
    {
      t := new Matrix.Empty();
      t.n := m;
      t.m := n;
      t.mSize := mSize;
      t.data := new int[mSize];
      ghost var target, t0 := Transposed(Value()).cells, t.data[..];
      assert |target| == mSize;
      var i := 0;
      while i < m
        invariant t.n == m && t.m == n && t.mSize == mSize == t.data.Length && fresh(t.data)
        invariant i <= m && i * n <= mSize
        invariant t.data[..] == Spliced(target, t0, i * n)
      {
        TransposeRow(t, i, target, t0);
        i := i + 1;
      }
      assert t.data[..] == target;
    }
  }
}
