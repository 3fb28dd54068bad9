/**
 * Matrix<T>::iterator: a position in the parent's flat buffer (an offset
 * from the buffer's first slot, standing for the raw pointer) plus six
 * recorded window fields. All arithmetic moves the offset in plain linear
 * buffer units; the window fields are copied along and never consulted.
 */
module MatrixIterator {

  /** Width of size_t: the unsigned fields wrap modulo this. */
  const SizeModulus: int := 0x1_0000_0000_0000_0000

  datatype Iterator = Iterator(
    p: int,        // offset of the raw pointer from the parent's first slot
    itN: nat,      // recorded row within the window
    itM: nat,      // recorded column within the window
    beginN: nat, beginM: nat,
    endN: nat, endM: nat)
  {
    /** The six recorded fields, everything except the position. */
    function Window(): (nat, nat, nat, nat, nat, nat)
    {
      (itN, itM, beginN, beginM, endN, endM)
    }

    /** it - o: the number of slots from o to it. */
    function Distance(o: Iterator): (r: int)
      ensures o.p + r == p
      ensures r == 0 <==> p == o.p
    {
      p - o.p
    }

    /** it + offset, and it += offset: move the position forward by offset slots. */
    function Advance(offset: int): (r: Iterator)
      ensures r.Distance(this) == offset
      ensures r.Window() == Window()
    {
      this.(p := p + offset)
    }

    /** it - offset, and it -= offset: move the position back by offset slots. */
    function Retreat(offset: int): (r: Iterator)
      ensures r.Distance(this) == -offset
      ensures r.Window() == Window()
    {
      this.(p := p - offset)
    }

    /** ++it: the same move as it += 1. */
    function Increment(): (r: Iterator)
      ensures r == Advance(1)
    {
      this.(p := p + 1)
    }

    /** --it: the same move as it -= 1. */
    function Decrement(): (r: Iterator)
      ensures r == Retreat(1)
    {
      this.(p := p - 1)
    }

    /** it++: yields a copy of the old iterator, and the iterator moves one slot on. */
    function PostIncrement(): (r: (Iterator, Iterator))
      ensures r.0 == this && r.1 == Increment()
    {
      (this, Advance(1))
    }

    /** it--: yields a copy of the old iterator, and the iterator moves one slot back. */
    function PostDecrement(): (r: (Iterator, Iterator))
      ensures r.0 == this && r.1 == Decrement()
    {
      (this, Retreat(1))
    }

    /** it == o compares the positions only. */
    predicate Equal(o: Iterator)
      ensures Equal(o) <==> Distance(o) == 0
    {
      p == o.p
    }

    /** it != o: the negation of ==. */
    predicate NotEqual(o: Iterator)
      ensures NotEqual(o) <==> !Equal(o)
    {
      p != o.p
    }
  }

  /** begin(): offset 0, window the whole n-by-m matrix, recorded row 0. */
  function Begin(n: nat, m: nat): (r: Iterator)
    ensures r.p == 0
    ensures r.Window() == (0, 0, 0, 0, n, m)
  {
    Iterator(0, 0, 0, 0, 0, n, m)
  }

  /** end(): also offset 0; only the recorded row (n) differs from begin(). */
  function End(n: nat, m: nat): (r: Iterator)
    ensures r == Begin(n, m).(itN := n)
    ensures r.Distance(Begin(n, m)) == 0
  {
    Iterator(0, n, 0, 0, 0, n, m)
  }

  /**
   * end() as evidently intended: the sentinel one past the last slot, at
   * offset n*m, with the same recorded fields as end().
   */
  function EndPastLast(n: nat, m: nat): Iterator
  {
    Iterator(n * m, n, 0, 0, 0, n, m)
  }

  /**
   * subMatrix(l, r): both iterators at offset 0 with the window l..r; the
   * end iterator records row r.first - l.first, computed in size_t.
   */
  function SubMatrix(l: (nat, nat), r: (nat, nat)): (its: (Iterator, Iterator))
    ensures its.0.p == 0 && its.0.Window() == (0, 0, l.0, l.1, r.0, r.1)
    ensures its.1 == its.0.(itN := (r.0 - l.0) % SizeModulus)
  {
    (Iterator(0, 0, 0, l.0, l.1, r.0, r.1),
     Iterator(0, (r.0 - l.0) % SizeModulus, 0, l.0, l.1, r.0, r.1))
  }

  /**
   * subMatrix(l, r) as evidently intended: the begin iterator sits on
   * element l, slot l.first*m + l.second, and the end iterator at the
   * position its recorded fields name, row r.first of the window's first
   * column, slot r.first*m + l.second. The window fields are those of
   * subMatrix.
   */
  function SubMatrixAnchored(m: nat, l: (nat, nat), r: (nat, nat)): (its: (Iterator, Iterator))
    ensures its.0.Window() == SubMatrix(l, r).0.Window()
    ensures its.1.Window() == SubMatrix(l, r).1.Window()
  {
    (SubMatrix(l, r).0.(p := l.0 * m + l.1),
     SubMatrix(l, r).1.(p := r.0 * m + l.1))
  }

  /** Moving forward by k and measuring back from the start gives k; moving back undoes it. */
  lemma AdvanceRoundTrip(it: Iterator, k: int)
    ensures it.Advance(k).Distance(it) == k
    ensures it.Advance(k).Retreat(k) == it
  {
  }

  /** ++ followed by -- restores the iterator, window fields included. */
  lemma IncrementThenDecrement(it: Iterator)
    ensures it.Increment().Decrement() == it
    ensures it.Decrement().Increment() == it
  {
  }

  /** The difference of two iterators is anti-symmetric and additive along a chain. */
  lemma DistanceAdditive(a: Iterator, b: Iterator, c: Iterator)
    ensures a.Distance(b) == -b.Distance(a)
    ensures a.Distance(c) == a.Distance(b) + b.Distance(c)
  {
  }

  /** Iterators that differ only in their window fields compare equal. */
  lemma EqualityIgnoresWindow(a: Iterator, b: Iterator)
    requires a.p == b.p && a.Window() != b.Window()
    ensures a.Equal(b) && a != b
  {
  }

  /**
   * begin() and end() of any matrix are both created at offset 0, so they
   * compare equal although their recorded rows differ whenever n > 0.
   */
  lemma BeginEqualsEnd(n: nat, m: nat)
    ensures Begin(n, m).Equal(End(n, m))
    ensures Begin(n, m).Distance(End(n, m)) == 0
    ensures n > 0 ==> Begin(n, m) != End(n, m)
  {
  }

  /**
   * The corrected end() lies n*m slots past begin(), so the two compare
   * equal exactly when the matrix has no element; it differs from end()
   * only in its position.
   */
  lemma EndPastLastSpansBuffer(n: nat, m: nat)
    ensures EndPastLast(n, m).Distance(Begin(n, m)) == n * m
    ensures Begin(n, m).Equal(EndPastLast(n, m)) <==> n == 0 || m == 0
    ensures EndPastLast(n, m).Window() == End(n, m).Window()
  {
  }

  /**
   * Both iterators of subMatrix(l, r) sit at offset 0, where begin() does:
   * they compare equal to each other and to begin(), whatever the window.
   */
  lemma SubMatrixAtOrigin(n: nat, m: nat, l: (nat, nat), r: (nat, nat))
    ensures SubMatrix(l, r).0.Equal(SubMatrix(l, r).1)
    ensures SubMatrix(l, r).0.Equal(Begin(n, m))
    ensures SubMatrix(l, r).1.Distance(Begin(n, m)) == 0
  {
  }

  /**
   * The corrected subMatrix starts at element l, its end lies r.first -
   * l.first whole rows further on, and over the whole matrix it is the
   * pair (begin(), corrected end()).
   */
  lemma SubMatrixAnchoredSpansRows(n: nat, m: nat, l: (nat, nat), r: (nat, nat))
    requires n < SizeModulus
    ensures SubMatrixAnchored(m, l, r).0.Distance(Begin(n, m)) == l.0 * m + l.1
    ensures SubMatrixAnchored(m, l, r).1.Distance(SubMatrixAnchored(m, l, r).0) == (r.0 - l.0) * m
    ensures SubMatrixAnchored(m, (0, 0), (n, m)) == (Begin(n, m), EndPastLast(n, m))
  {
  }

  /** The recorded row of the sub-matrix end iterator wraps when r.first < l.first. */
  lemma SubMatrixEndRowWraps(l: (nat, nat), r: (nat, nat))
    requires l.0 < SizeModulus && r.0 < SizeModulus
    ensures l.0 <= r.0 ==> SubMatrix(l, r).1.itN == r.0 - l.0
    ensures r.0 < l.0 ==> SubMatrix(l, r).1.itN == SizeModulus - (l.0 - r.0)
  {
  }
}
