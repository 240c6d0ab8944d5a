/**
 * Dividing a size into parts by the integer formula size * k / parts.  The repository uses it for image
 * cuts, thread ranges, w-layer passes and channel groups.
 */
module Shares {
  /** Where share k of the given number of parts starts. */
  function Share(size: nat, parts: nat, k: nat): nat
    requires parts > 0
  {
    size * k / parts
  }

  lemma DivAtLeast(x: int, n: nat, k: int)
    requires n > 0 && x >= k * n
    ensures x / n >= k
  {
    var q := x / n;
    assert q < k ==> (q + 1) * n <= k * n;
  }

  lemma DivAtMost(x: int, n: nat, k: int)
    requires n > 0 && x < (k + 1) * n
    ensures x / n <= k
  {
    var q := x / n;
    assert q > k ==> (k + 1) * n <= q * n;
  }

  /** A quotient grows by the quotient of what is added, or by one more. */
  lemma DivAdds(x: nat, y: nat, n: nat)
    requires n > 0
    ensures x / n + y / n <= (x + y) / n <= x / n + y / n + 1
  {
    var a, q := x / n, y / n;
    assert a * n <= x < (a + 1) * n && q * n <= y < (q + 1) * n;
    assert (a + q) * n == a * n + q * n && (a + q + 2) * n == (a + 1) * n + (q + 1) * n;
    DivAtLeast(x + y, n, a + q);
    DivAtMost(x + y, n, a + q + 1);
  }

  /** Neighbouring cuts are size / parts apart, or one more; the first cut is 0 and the last one the size. */
  lemma ShareStep(size: nat, parts: nat, k: nat)
    requires parts > 0
    ensures Share(size, parts, k) + size / parts <= Share(size, parts, k + 1) <= Share(size, parts, k) + size / parts +
            1
    ensures Share(size, parts, 0) == 0 && Share(size, parts, parts) == size
  {
    assert size * (k + 1) == size * k + size;
    DivAdds(size * k, size, parts);
    FirstShare(size, parts);
    LastShare(size, parts);
  }

  lemma LastShare(size: nat, parts: nat)
    requires parts > 0
    ensures Share(size, parts, parts) == size
  {
    DivAtLeast(size * parts, parts, size);
    assert size * parts < (size + 1) * parts;
    DivAtMost(size * parts, parts, size);
  }

  lemma {:induction false} SharesGrow(size: nat, parts: nat, k: nat, m: nat)
    requires parts > 0 && k <= m
    ensures Share(size, parts, k) <= Share(size, parts, m)
    decreases m - k
  {
    if k < m {
      ShareStep(size, parts, k);
      SharesGrow(size, parts, k + 1, m);
    }
  }

  /** Neighbouring cuts are in order and lie in the whole. */
  lemma CutsInside(size: nat, parts: nat, k: nat)
    requires parts > 0 && k < parts
    ensures Share(size, parts, k) <= Share(size, parts, k + 1) <= size
  {
    var next := k + 1;
    SharesGrow(size, parts, k, next);
    SharesGrow(size, parts, next, parts);
    LastShare(size, parts);
  }

  lemma FirstShare(size: nat, parts: nat)
    requires parts > 0
    ensures Share(size, parts, 0) == 0
  {
    assert size * 0 == 0;
  }

  /** A share is no larger than most, if parts shares of that size hold everything. */
  lemma ShareAtMost(size: nat, parts: nat, most: nat, k: nat)
    requires parts > 0 && size <= parts * most
    ensures Share(size, parts, k + 1) <= Share(size, parts, k) + most
  {
    var a := size * k / parts;
    assert size * (k + 1) == size * k + size && size * k < (a + 1) * parts &&
      (a + most + 1) * parts == (a + 1) * parts + most * parts;
    DivAtMost(size * (k + 1), parts, a + most);
  }

  predicate InShare(size: nat, parts: nat, k: nat, i: nat)
    requires parts > 0
  {
    Share(size, parts, k) <= i < Share(size, parts, k + 1)
  }

  /** Every index is in one share. */
  lemma {:induction false} ShareOf(size: nat, parts: nat, n: nat, i: nat) returns (k: nat)
    requires parts > 0 && i < Share(size, parts, n)
    ensures k < n && InShare(size, parts, k, i)
    decreases n
  {
    ShareStep(size, parts, 0);
    if i < Share(size, parts, n - 1) {
      k := ShareOf(size, parts, n - 1, i);
    } else {
      k := n - 1;
    }
  }

  /** No index is in two shares. */
  lemma OneShare(size: nat, parts: nat, k: nat, m: nat, i: nat)
    requires parts > 0 && InShare(size, parts, k, i) && InShare(size, parts, m, i)
    ensures k == m
  {
    if k < m {
      SharesGrow(size, parts, k + 1, m);
    } else if m < k {
      SharesGrow(size, parts, m + 1, k);
    }
  }
}
