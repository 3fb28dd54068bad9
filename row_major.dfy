/**
 * Row-major addressing of an n-by-m matrix kept in one flat buffer of n*m
 * slots: row i, column j lives at slot i*m + j, and slot k holds row k/m,
 * column k%m.
 */
module RowMajor {

  /** Multiplying by the same non-negative factor keeps the order. */
  lemma {:induction false} MulMonotonic(a: nat, b: nat, m: nat)
    requires a <= b
    ensures a * m <= b * m
  {
    if a < b {
      MulMonotonic(a, b - 1, m);
      assert (b - 1) * m + m == b * m;
    }
  }

  /** Slot i*m + j of a row-major n-by-m buffer lies inside the buffer. */
  lemma SlotInBuffer(i: nat, j: nat, n: nat, m: nat)
    requires i < n && j < m
    ensures i * m + j < n * m
  {
    MulMonotonic(i + 1, n, m);
    assert (i + 1) * m == i * m + m;
  }

  /** Dividing slot i*m + j by the row length m gives back row i and column j. */
  lemma SlotDecodes(i: nat, j: nat, m: nat)
    requires j < m
    ensures (i * m + j) / m == i && (i * m + j) % m == j
  {
    var k := i * m + j;
    var q, r := k / m, k % m;
    assert k == q * m + r;
    if q > i {
      MulMonotonic(1, q - i, m);
      assert false;
    } else if q < i {
      MulMonotonic(1, i - q, m);
      assert false;
    }
  }

  /** Two (row, column) pairs of an m-column buffer share a slot only when they are equal. */
  lemma SlotInjective(i: nat, j: nat, i': nat, j': nat, m: nat)
    requires j < m && j' < m
    requires i * m + j == i' * m + j'
    ensures i == i' && j == j'
  {
    SlotDecodes(i, j, m);
    SlotDecodes(i', j', m);
  }

  /**
   * Every slot k of an n-by-m buffer decodes to a row k/m below n and a
   * column k%m below m, and that pair addresses slot k again.
   */
  lemma DecodeInBuffer(k: nat, n: nat, m: nat)
    requires k < n * m
    ensures m > 0 && k / m < n && k % m < m && (k / m) * m + k % m == k
  {
    if m == 0 {
      assert false;
    } else if k / m >= n {
      MulMonotonic(n, k / m, m);
      assert false;
    }
  }

  /** The slot just past the end of row i is the first slot of row i + 1. */
  lemma NextRowStart(i: nat, m: nat)
    ensures i * m + m == (i + 1) * m
  {
  }
}
