/** The triangular table of the chart, laid out row by row in one vector. */
module ChartIndex {

  /** The position of cell (i,j), row `i` from below, for a sentence of `n` words. */
  function Index(n: nat, i: nat, j: nat): int {
    j + i * (n + 1) - (i + 1) * i / 2
  }

  /** (i,j) is a cell of the triangle. */
  predicate InTriangle(n: nat, i: int, j: int) {
    0 <= i < n && 0 <= j < n - i
  }

  lemma NextRow(n: nat, i: nat)
    ensures Index(n, i + 1, 0) == Index(n, i, 0) + n - i
  {
    assert (i + 2) * (i + 1) == (i + 1) * i + 2 * (i + 1);
    assert (i + 1) * (n + 1) == i * (n + 1) + n + 1;
  }

  /** Rows follow each other: the last cell of one is next to the first of the following. */
  lemma {:induction false} RowsAreOrdered(n: nat, i: nat, k: nat)
    requires i < k <= n
    ensures Index(n, i, 0) + n - i <= Index(n, k, 0)
  {
    NextRow(n, k - 1);
    if i < k - 1 {
      RowsAreOrdered(n, i, k - 1);
    }
  }

  /** Where the rows of a triangle of `n` words begin and end. */
  lemma TableSize(n: nat)
    ensures Index(n, 0, 0) == 0 && Index(n, n, 0) == (1 + n) * n / 2
  {
    assert n * (n + 1) == (n + 1) * n / 2 + (n + 1) * n / 2 by {
      assert ((n + 1) * n) % 2 == 0 by { ProductOfNeighboursIsEven(n); }
    }
  }

  lemma {:induction false} ProductOfNeighboursIsEven(n: nat)
    ensures ((n + 1) * n) % 2 == 0
  {
    if n > 0 {
      ProductOfNeighboursIsEven(n - 1);
      assert (n + 1) * n == n * (n - 1) + 2 * n;
    }
  }

  lemma IndexInTable(n: nat, i: nat, j: nat)
    requires InTriangle(n, i, j)
    ensures 0 <= Index(n, i, j) < (1 + n) * n / 2
  {
    TableSize(n);
    RowsAreOrdered(n, i, n);
    if i > 0 {
      RowsAreOrdered(n, 0, i);
    }
  }

  /** Different cells have different positions. */
  lemma IndexIsInjective(n: nat, i: nat, j: nat, k: nat, l: nat)
    requires InTriangle(n, i, j) && InTriangle(n, k, l) && Index(n, i, j) == Index(n, k, l)
    ensures i == k && j == l
  {
    assert forall a, b :: Index(n, a, b) == Index(n, a, 0) + b;
    if i < k {
      RowsAreOrdered(n, i, k);
    } else if k < i {
      RowsAreOrdered(n, k, i);
    }
  }

  /** Every position of the table is that of a cell. */
  lemma {:induction false} IndexIsOnto(n: nat, m: nat, row: nat) returns (i: nat, j: nat)
    requires row <= n && m < Index(n, row, 0)
    ensures InTriangle(n, i, j) && Index(n, i, j) == m
  {
    TableSize(n);
    NextRow(n, row - 1);
    if m >= Index(n, row - 1, 0) {
      i, j := row - 1, m - Index(n, row - 1, 0);
      assert Index(n, i, j) == Index(n, i, 0) + j;
    } else {
      i, j := IndexIsOnto(n, m, row - 1);
    }
  }

  ghost predicate IsPosition(n: nat, m: int) {
    exists i, j :: InTriangle(n, i, j) && Index(n, i, j) == m
  }

  /** MAIN RESULT: `Index` numbers the cells of the triangle from 0 to n(n+1)/2 - 1. */
  lemma IndexIsBijection(n: nat)
    ensures forall i, j :: InTriangle(n, i, j) ==> 0 <= Index(n, i, j) < (1 + n) * n / 2
    ensures forall i, j, k, l :: InTriangle(n, i, j) && InTriangle(n, k, l) && Index(n, i, j) == Index(n, k, l) ==> i == k && j == l
    ensures forall m :: 0 <= m < (1 + n) * n / 2 ==> IsPosition(n, m)
  {
    forall i, j | InTriangle(n, i, j)
      ensures 0 <= Index(n, i, j) < (1 + n) * n / 2
    {
      IndexInTable(n, i, j);
    }
    forall i, j, k, l | InTriangle(n, i, j) && InTriangle(n, k, l) && Index(n, i, j) == Index(n, k, l)
      ensures i == k && j == l
    {
      IndexIsInjective(n, i, j, k, l);
    }
    forall m | 0 <= m < (1 + n) * n / 2
      ensures IsPosition(n, m)
    {
      TableSize(n);
      var i, j := IndexIsOnto(n, m, n);
    }
  }
}
