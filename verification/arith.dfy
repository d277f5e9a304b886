/** Integer facts about row-major indexing shared by the grid tiling and the
    planar tensor layout. */
module Arith {

  lemma {:induction false} MulMono(a: nat, b: nat, n: nat)
    requires a <= b
    ensures a * n <= b * n
    decreases b - a
  {
    if a < b {
      MulMono(a, b - 1, n);
      assert b * n == (b - 1) * n + n;
    }
  }

  /** Index `i * n + j` with `j < n` lies in row `i`, column `j`. */
  lemma RowMajor(n: nat, i: nat, j: nat)
    requires j < n
    ensures (i * n + j) / n == i && (i * n + j) % n == j
  {
    var m := i * n + j;
    var q, r := m / n, m % n;
    assert m == q * n + r;
    if q > i {
      MulMono(i + 1, q, n);
    } else if q < i {
      MulMono(q + 1, i, n);
    }
  }

  /** An index below `n * n` has its row and column below `n`. */
  lemma RowOf(n: nat, k: nat)
    requires k < n * n
    ensures k / n < n && k % n < n
  {
    var i := k / n;
    assert k == i * n + k % n;
    if i >= n {
      MulMono(n, i, n);
    }
  }
}
