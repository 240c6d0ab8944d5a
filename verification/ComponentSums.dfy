/**
 * The lists of clean components of one scale (deconvolution/componentlist.h): positions, and for each
 * position one value per frequency in a flat list.  What a list adds up to, and the merged list that
 * holds every position once.
 */
module ComponentSums {
  import opened BlockLists

  /** Positions as flat indices, and nF values for each of them. */
  ghost predicate Sized(flats: seq<nat>, values: seq<real>, nF: nat) { |values| == ValueCount(|flats|, nF) }

  /** Everything that the list adds at a position and frequency. */
  ghost function SumAt(flats: seq<nat>, values: seq<real>, nF: nat, q: nat, f: nat): real
    requires Sized(flats, values, nF) && f < nF
  {
    if flats == [] then 0.0
    else
      var rest := values[..|values| - nF];
      SumAt(flats[..|flats| - 1], rest, nF, q, f) + if flats[|flats| - 1] == q then values[|rest| + f] else 0.0
  }

  /** Adding a component adds its values at its position. */
  lemma SumGrows(flats: seq<nat>, values: seq<real>, nF: nat, p: nat, block: seq<real>, q: nat, f: nat)
    requires Sized(flats, values, nF) && |block| == nF && f < nF
    ensures Sized(flats + [p], values + block, nF)
    ensures SumAt(flats + [p], values + block, nF, q, f) == SumAt(flats, values, nF, q, f) + if p == q
            then block[f] else 0.0
  {
    assert (flats + [p])[..|flats|] == flats && (values + block)[..|values|] == values;
  }

  predicate HasValue(block: seq<real>) {
    exists f {:trigger block[f]} :: 0 <= f < |block| && block[f] != 0.0
  }

  /** Every component of the list has a value that is not zero. */
  ghost predicate NonZero(flats: seq<nat>, values: seq<real>, nF: nat)
    requires Sized(flats, values, nF)
  {
    flats == [] || (HasValue(values[|values| - nF..]) && NonZero(flats[..|flats| - 1], values[..|values| - nF], nF))
  }

  predicate NoDuplicates(flats: seq<nat>) {
    forall j, k {:trigger flats[j], flats[k]} :: 0 <= j < k < |flats| ==> flats[j] != flats[k]
  }

  // ----- merging

  /** For each frequency, the sums at all n positions. */
  type Totals = seq<seq<real>>

  predicate TotalsFit(t: Totals, nF: nat, n: nat) { |t| == nF && forall f {:trigger t[f]} :: 0 <= f < nF ==>
          |t[f]| == n }

  ghost function TotalsOf(flats: seq<nat>, values: seq<real>, nF: nat, n: nat): (t: Totals)
    requires Sized(flats, values, nF)
    ensures TotalsFit(t, nF, n)
  {
    seq(nF, f requires 0 <= f < nF => seq(n, q requires 0 <= q < n => SumAt(flats, values, nF, q, f)))
  }

  /** The first frequency at which a position is not zero; the number of frequencies if there is none. */
  function Rank(t: Totals, q: nat, f: nat): (r: nat)
    requires f <= |t| && forall g {:trigger t[g]} :: 0 <= g < |t| ==> q < |t[g]|
    ensures f <= r <= |t| && (forall g {:trigger t[g]} :: f <= g < r ==> t[g][q] == 0.0) && (r < |t| ==> t[r][q] != 0.0)
    decreases |t| - f
  {
    if f == |t| then f else if t[f][q] != 0.0 then f else Rank(t, q, f + 1)
  }

  function Block(t: Totals, q: nat): (r: seq<real>)
    requires forall g {:trigger t[g]} :: 0 <= g < |t| ==> q < |t[g]|
    ensures |r| == |t|
  {
    seq(|t|, f requires 0 <= f < |t| => t[f][q])
  }

  /** The positions that the merge has listed when it is at position q of frequency f. */
  function Listed(t: Totals, nF: nat, n: nat, f: nat, q: nat): (r: seq<nat>)
    requires TotalsFit(t, nF, n) && q <= n && (f < nF || q == 0) && f <= nF
    ensures forall k :: 0 <= k < |r| ==> r[k] < n
    decreases f, q
  {
    if q > 0 then
      var before := Listed(t, nF, n, f, q - 1);
      if Rank(t, q - 1, 0) == f then before + [q - 1] else before
    else if f > 0 then Listed(t, nF, n, f - 1, n)
    else []
  }

  /** The values of the listed positions. */
  ghost function Blocks(t: Totals, nF: nat, n: nat, flats: seq<nat>): (r: seq<real>)
    requires TotalsFit(t, nF, n) && forall k :: 0 <= k < |flats| ==> flats[k] < n
    ensures Sized(flats, r, nF)
  {
    if flats == [] then []
    else
      Blocks(t, nF, n, flats[..|flats| - 1]) + Block(t, flats[|flats| - 1])
  }

  /** Whether the merge has listed position p when it is at position q of frequency f. */
  predicate IsListed(t: Totals, nF: nat, n: nat, f: nat, q: nat, p: nat)
    requires TotalsFit(t, nF, n) && p < n
  {
    Rank(t, p, 0) < nF && (Rank(t, p, 0) < f || (Rank(t, p, 0) == f && p < q))
  }

  lemma {:induction false} ListedIs(t: Totals, nF: nat, n: nat, f: nat, q: nat)
    requires TotalsFit(t, nF, n) && q <= n && (f < nF || q == 0) && f <= nF
    ensures NoDuplicates(Listed(t, nF, n, f, q))
    ensures forall p: nat {:trigger p in Listed(t, nF, n, f, q)} :: p in Listed(t, nF, n, f, q) <==>
            p < n && IsListed(t, nF, n, f, q, p)
    decreases f, q
  {
    if q > 0 {
      ListedIs(t, nF, n, f, q - 1);
      var before, all := Listed(t, nF, n, f, q - 1), Listed(t, nF, n, f, q);
      if Rank(t, q - 1, 0) == f {
        assert !IsListed(t, nF, n, f, q - 1, q - 1);
        forall j, k | 0 <= j < k < |all| ensures all[j] != all[k] {
          if k == |before| {
            assert before[j] in before;
          }
        }
      }
    } else if f > 0 {
      ListedIs(t, nF, n, f - 1, n);
    }
  }

  /** The merged list adds up to the totals at the positions it lists. */
  lemma {:induction false} BlocksSum(t: Totals, nF: nat, n: nat, flats: seq<nat>, q: nat, f: nat)
    requires TotalsFit(t, nF, n) && (forall k :: 0 <= k < |flats| ==> flats[k] < n) && NoDuplicates(flats) && q < n &&
             f < nF
    ensures SumAt(flats, Blocks(t, nF, n, flats), nF, q, f) == if q in flats then t[f][q] else 0.0
    decreases |flats|
  {
    if flats != [] {
      var rest, last := flats[..|flats| - 1], flats[|flats| - 1];
      assert flats == rest + [last];
      BlocksSum(t, nF, n, rest, q, f);
      SumGrows(rest, Blocks(t, nF, n, rest), nF, last, Block(t, last), q, f);
      forall j | 0 <= j < |rest| ensures rest[j] != last {
        assert flats[j] != flats[|flats| - 1];
      }
    }
  }

  lemma {:induction false} BlocksNonZero(t: Totals, nF: nat, n: nat, flats: seq<nat>)
    requires TotalsFit(t, nF, n) && forall k {:trigger flats[k]} :: 0 <= k < |flats| ==>
             flats[k] < n && Rank(t, flats[k], 0) < nF
    ensures NonZero(flats, Blocks(t, nF, n, flats), nF)
    decreases |flats|
  {
    if flats != [] {
      var rest, last := flats[..|flats| - 1], flats[|flats| - 1];
      forall k | 0 <= k < |rest| ensures rest[k] < n && Rank(t, rest[k], 0) < nF {
        assert rest[k] == flats[k];
      }
      BlocksNonZero(t, nF, n, rest);
      var values, f := Blocks(t, nF, n, flats), Rank(t, last, 0);
      assert values[..|values| - nF] == Blocks(t, nF, n, rest);
      assert values[|values| - nF..] == Block(t, last) && Block(t, last)[f] == t[f][last];
    }
  }

  /** What merging makes of a list. */
  ghost function MergedFlats(t: Totals, nF: nat, n: nat): (r: seq<nat>)
    requires TotalsFit(t, nF, n)
    ensures forall k :: 0 <= k < |r| ==> r[k] < n
  {
    Listed(t, nF, n, nF, 0)
  }

  ghost function MergedValues(t: Totals, nF: nat, n: nat): (r: seq<real>)
    requires TotalsFit(t, nF, n)
    ensures Sized(MergedFlats(t, nF, n), r, nF)
  {
    Blocks(t, nF, n, MergedFlats(t, nF, n))
  }

  /** The merged list adds up to the same everywhere, lists every position once, and has no zero components. */
  lemma MergedKeepsSums(t: Totals, nF: nat, n: nat)
    requires TotalsFit(t, nF, n)
    ensures forall q: nat, f: nat {:trigger SumAt(MergedFlats(t, nF, n), MergedValues(t, nF, n), nF, q, f)} ::
      q < n && f < nF ==> SumAt(MergedFlats(t, nF, n), MergedValues(t, nF, n), nF, q, f) == t[f][q]
    ensures NoDuplicates(MergedFlats(t, nF, n)) && NonZero(MergedFlats(t, nF, n), MergedValues(t, nF, n), nF)
  {
    var flats := MergedFlats(t, nF, n);
    ListedIs(t, nF, n, nF, 0);
    forall q: nat, f: nat | q < n && f < nF ensures SumAt(flats, MergedValues(t, nF, n), nF, q, f) == t[f][q] {
      BlocksSum(t, nF, n, flats, q, f);
      assert q in flats <==> IsListed(t, nF, n, nF, 0, q);
    }
    forall k | 0 <= k < |flats| ensures flats[k] < n && Rank(t, flats[k], 0) < nF {
      assert flats[k] in flats;
      assert IsListed(t, nF, n, nF, 0, flats[k]);
    }
    BlocksNonZero(t, nF, n, flats);
  }

  /** Merging a merged list changes nothing. */
  lemma MergingTwice(t: Totals, nF: nat, n: nat)
    requires TotalsFit(t, nF, n)
    ensures TotalsOf(MergedFlats(t, nF, n), MergedValues(t, nF, n), nF, n) == t
  {
    MergedKeepsSums(t, nF, n);
    var again := TotalsOf(MergedFlats(t, nF, n), MergedValues(t, nF, n), nF, n);
    forall f | 0 <= f < nF ensures again[f] == t[f] {
      forall q | 0 <= q < n ensures again[f][q] == t[f][q] {
        assert again[f][q] == SumAt(MergedFlats(t, nF, n), MergedValues(t, nF, n), nF, q, f);
      }
    }
  }
}
