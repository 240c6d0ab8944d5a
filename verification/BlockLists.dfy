/**
 * Flat lists of equal blocks.  The number of values in n blocks is counted block by block rather than as a
 * product, which keeps the proofs about such lists free of multiplication.
 */
module BlockLists {
  /** How many values n blocks of the given size are. */
  function ValueCount(n: nat, size: nat): nat {
    if n == 0 then 0 else ValueCount(n - 1, size) + size
  }

  lemma {:induction false} ValueCountIsProduct(n: nat, size: nat)
    ensures ValueCount(n, size) == n * size
  {
    if n > 0 {
      ValueCountIsProduct(n - 1, size);
      assert n * size == (n - 1) * size + size;
    }
  }

  lemma {:induction false} ValueCountGrows(m: nat, n: nat, size: nat)
    requires m <= n
    ensures ValueCount(m, size) <= ValueCount(n, size)
    decreases n - m
  {
    if m < n {
      ValueCountGrows(m, n - 1, size);
    }
  }
}
