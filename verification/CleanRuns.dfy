/**
 * What a clean loop computes: runs of components, their residuals and models, and the relation between
 * the plain loop over the whole image and the sub-minor loop over selected pixels.
 */
module CleanRuns {
  import opened Common
  import FiniteSets
  import RowMajor
  import opened PeakFinder
  import S = SimpleClean

  /** One sequence of pixels per image. */
  type Images = seq<seq<real>>

  /** How the loop runs: on the whole image, or on a list of selected pixels. */
  datatype Way = WholeImage | SubMinor

  /**
   * The settings of a clean loop.  A peak is searched for in the integrated images; the loop on the whole image
   * integrates them in another way from its first component on.  With vector instructions a search without a mask
   * compares `lanes` pixels at once; without them `lanes` is zero.
   */
  datatype Clean = Clean(width: nat, height: nat, psfs: seq<seq<real>>, psfIndex: seq<nat>, gain: real, threshold: real,
      maxIter: nat, allowNegative: bool, stopOnNegative: bool, horizontalBorder: nat, verticalBorder: nat,
      mask: Option<seq<bool>>, rms: Option<seq<real>>, integrate: seq<real> -> real, later: seq<real> -> real,
      fit: (seq<real>, nat, nat) -> seq<real>, way: Way, lanes: nat) {
    function Pixels(): nat { width * height }

    function Count(): nat { |psfIndex| }

    ghost predicate Valid() {
      0 < Count() && (forall i :: 0 <= i < Count() ==> psfIndex[i] < |psfs|) &&
          (forall i :: 0 <= i < |psfs| ==> |psfs[i]| == Pixels()) &&
      horizontalBorder <= width && verticalBorder <= height &&
      (mask.Some? ==> |mask.value| == Pixels()) && (rms.Some? ==> |rms.value| == Pixels()) &&
      (lanes > 0 ==> Pixels() > 0) &&
      forall v: seq<real>, x, y {:trigger fit(v, x, y)} :: |v| == Count() ==> |fit(v, x, y)| == Count()
    }

    /** Both sides even: the subtraction window is the whole PSF. */
    predicate EvenSides() { width % 2 == 0 && height % 2 == 0 }

    /** Fitting a spectrum scaled by the gain is scaling the fitted spectrum. */
    ghost predicate FitScales() {
      forall v: seq<real>, x, y {:trigger fit(v, x, y)} :: |v| == Count() ==>
        fit(Scale(gain, v), x, y) == Scale(gain, fit(v, x, y))
    }

    /** The two ways of integrating do not differ. */
    ghost predicate IntegratesAlike() {
      forall v: seq<real> {:trigger later(v)} :: |v| == Count() ==> later(v) == integrate(v)
    }

    /** Both ways of running the loop subtract the same and search for the same peak. */
    ghost predicate Alike() { EvenSides() && FitScales() && IntegratesAlike() }

    function For(way: Way): Clean { this.(way := way) }

    /** The settings for the k-th loop test on the whole image. */
    function At(k: nat): (c: Clean)
      ensures c.Count() == Count() && c.Pixels() == Pixels()
      ensures Valid() ==> c.Valid()
      ensures forall d {:trigger c.Sized(d)} :: c.Sized(d) == Sized(d)
    {
      if k == 0 then this else this.(integrate := later)
    }

    predicate Sized(d: Images) {
      |d| == Count() && forall i :: 0 <= i < |d| ==> |d[i]| == Pixels()
    }

    function Psf(i: nat): (r: seq<real>)
      requires Valid() && i < Count()
      ensures |r| == Pixels()
    {
      psfs[psfIndex[i]]
    }

    /** What a component at q with value 1 adds to pixel p of image i. */
    function Kernel(i: nat, p: nat, q: nat): real
      requires Valid() && i < Count() && p < Pixels() && q < Pixels()
    {
      RowMajor.Joins(width, height, p);
      var dx, dy := p % width - q % width, p / width - q / width;
      if way.WholeImage? then S.WindowAt(Psf(i), width, height, dx, dy) else S.PsfAt(Psf(i), width, height, dx, dy)
    }

    /** The spectrum of a pixel. */
    function Column(d: Images, p: nat): (r: seq<real>)
      requires Sized(d) && p < Pixels()
      ensures |r| == Count()
    {
      seq(Count(), i requires 0 <= i < Count() => d[i][p])
    }

    /** The integrated and noise-weighted value of a pixel. */
    function Value(d: Images, p: nat): real
      requires Valid() && Sized(d) && p < Pixels()
    {
      integrate(Column(d, p)) * if rms.Some? then rms.value[p] else 1.0
    }

    function Integrated(d: Images): seq<real>
      requires Valid() && Sized(d)
    {
      seq(Pixels(), p requires 0 <= p < Pixels() => Value(d, p))
    }

    /** The search for the peak of the whole image. */
    function SearchOf(d: Images): (s: Search)
      requires Valid() && Sized(d)
      ensures s.Valid()
    {
      Search(Integrated(d), width, height, allowNegative, 0, height, horizontalBorder, verticalBorder, mask)
    }

    /** A search with vector instructions that finds no peak. */
    ghost predicate Dark(d: Images)
      requires Valid() && Sized(d)
    {
      lanes > 0 && mask.None? && SearchOf(d).Finds(None)
    }

    /** What the search for the peak of the whole image returns: on a dark image the first pixel, even in a border. */
    ghost predicate Finds(d: Images, r: Option<Peak>)
      requires Valid() && Sized(d)
    {
      if Dark(d) then r == Some(Peak(0, 0, Value(d, 0))) else SearchOf(d).Finds(r)
    }

    function Strength(value: real): real { if allowNegative then Abs(value) else value }

    /** The component taken from pixel q, one value per image: the gain is applied after the fit, or before it. */
    function Component(d: Images, q: nat): (r: seq<real>)
      requires Valid() && Sized(d) && q < Pixels()
      ensures |r| == Count()
    {
      RowMajor.Joins(width, height, q);
      var spectrum, x, y := Column(d, q), q % width, q / width;
      if way.WholeImage? then Scale(gain, fit(spectrum, x, y)) else fit(Scale(gain, spectrum), x, y)
    }

    function Subtract(d: Images, q: nat): (r: Images)
      requires Valid() && Sized(d) && q < Pixels()
      ensures Sized(r)
    {
      var v := Component(d, q);
      seq(Count(), i requires 0 <= i < Count() => seq(Pixels(),
          p requires 0 <= p < Pixels() => d[i][p] - Kernel(i, p, q) * v[i]))
    }

    function AddTo(m: Images, v: seq<real>, q: nat): (r: Images)
      requires Sized(m) && |v| == Count() && q < Pixels()
      ensures Sized(r)
    {
      seq(Count(), i requires 0 <= i < Count() => m[i][q := m[i][q] + v[i]])
    }

    predicate Peaks(peaks: seq<nat>) {
      forall k :: 0 <= k < |peaks| ==> peaks[k] < Pixels()
    }

    /** The residual after cleaning the given pixels in turn. */
    ghost function Dirty(d: Images, peaks: seq<nat>): (r: Images)
      requires Valid() && Sized(d) && Peaks(peaks)
      ensures Sized(r)
    {
      if peaks == [] then d else Subtract(Dirty(d, peaks[..|peaks| - 1]), peaks[|peaks| - 1])
    }

    /** The model after cleaning the given pixels in turn. */
    ghost function Model(m: Images, d: Images, peaks: seq<nat>): (r: Images)
      requires Valid() && Sized(m) && Sized(d) && Peaks(peaks)
      ensures Sized(r)
    {
      if peaks == [] then m
      else
        var before := peaks[..|peaks| - 1];
        AddTo(Model(m, d, before), Component(Dirty(d, before), peaks[|peaks| - 1]), peaks[|peaks| - 1])
    }

    /** A peak of this value is to be cleaned. */
    predicate Cleanable(value: real) { Abs(value) > threshold && !(value < 0.0 && stopOnNegative) }

    /** Whether a loop goes on with a peak of this value after this many iterations. */
    predicate Continues(value: real, iteration: nat) { Cleanable(value) && iteration < maxIter }

    // ----- the plain loop

    ghost predicate PlainGoesOn(d: Images, iteration: nat, q: nat)
      requires Valid() && Sized(d)
    {
      exists r: Peak :: Finds(d, Some(r)) && Continues(r.value, iteration) && q == r.y * width + r.x
    }

    ghost predicate PlainStops(d: Images, iteration: nat)
      requires Valid() && Sized(d)
    {
      forall r: Peak :: Finds(d, Some(r)) ==> !Continues(r.value, iteration)
    }

    ghost predicate PlainStep(d: Images, iteration: nat, peaks: seq<nat>, k: nat)
      requires Valid() && Sized(d) && Peaks(peaks) && k < |peaks|
    {
      At(k).PlainGoesOn(Dirty(d, peaks[..k]), iteration + k, peaks[k])
    }

    /** A run of the plain loop that starts at the given iteration and ends where the loop ends. */
    ghost predicate PlainRun(d: Images, iteration: nat, peaks: seq<nat>)
      requires Valid() && Sized(d)
    {
      Peaks(peaks) &&
      (forall k {:trigger PlainStep(d, iteration, peaks, k)} :: 0 <= k < |peaks| ==>
          PlainStep(d, iteration, peaks, k)) &&
      At(|peaks|).PlainStops(Dirty(d, peaks), iteration + |peaks|)
    }

    // ----- the sub-minor loop

    /** The selected pixels: those of the search whose strength reaches the threshold, in row-major order. */
    ghost predicate Selection(d: Images, positions: seq<nat>)
      requires Valid() && Sized(d)
    {
      (forall j, k :: 0 <= j < k < |positions| ==> positions[j] < positions[k]) &&
      (forall k :: 0 <= k < |positions| ==> positions[k] < Pixels()) &&
      forall p: nat {:trigger p in positions} :: p in positions <==>
        p < Pixels() && ConsideredAt(d, p) && Strength(Value(d, p)) >= threshold
    }

    ghost predicate ConsideredAt(d: Images, p: nat)
      requires Valid() && Sized(d) && p < Pixels()
    {
      RowMajor.Joins(width, height, p);
      SearchOf(d).Considered(p % width, p / width)
    }

    /** The k-th selected pixel is the first of those with the greatest strength. */
    ghost predicate Strongest(d: Images, positions: seq<nat>, k: nat)
      requires Valid() && Sized(d) && Peaks(positions)
    {
      k < |positions| && forall j {:trigger positions[j]} :: 0 <= j < |positions| ==>
        Strength(Value(d, positions[j])) <= Strength(Value(d, positions[k])) &&
        (j < k ==> Strength(Value(d, positions[j])) < Strength(Value(d, positions[k])))
    }

    ghost predicate SubGoesOn(d: Images, positions: seq<nat>, iteration: nat, q: nat)
      requires Valid() && Sized(d) && Peaks(positions)
    {
      exists k: nat :: Strongest(d, positions, k) && q == positions[k] && Continues(Value(d, q), iteration)
    }

    ghost predicate SubStops(d: Images, positions: seq<nat>, iteration: nat)
      requires Valid() && Sized(d) && Peaks(positions)
    {
      forall k: nat :: Strongest(d, positions, k) ==> !Continues(Value(d, positions[k]), iteration)
    }

    ghost predicate SubStep(d: Images, positions: seq<nat>, iteration: nat, peaks: seq<nat>, k: nat)
      requires Valid() && Sized(d) && Peaks(positions) && Peaks(peaks) && k < |peaks|
    {
      SubGoesOn(Dirty(d, peaks[..k]), positions, iteration + k, peaks[k])
    }

    /** A run of the sub-minor loop over the selected pixels that ends where the loop ends. */
    ghost predicate SubRun(d: Images, positions: seq<nat>, iteration: nat, peaks: seq<nat>)
      requires Valid() && Sized(d) && Peaks(positions)
    {
      Peaks(peaks) &&
      (forall k {:trigger SubStep(d, positions, iteration, peaks, k)} :: 0 <= k < |peaks| ==>
          SubStep(d, positions, iteration, peaks, k)) &&
      SubStops(Dirty(d, peaks), positions, iteration + |peaks|)
    }

    // ----- the comparison

    /** Pixel p is stronger than pixel q, or as strong and earlier. */
    ghost predicate Outranks(d: Images, p: nat, q: nat)
      requires Valid() && Sized(d) && p < Pixels() && q < Pixels()
    {
      var a, b := Strength(Value(d, p)), Strength(Value(d, q));
      a > b || (a == b && p < q)
    }

    /** An unselected pixel of the search. */
    ghost predicate Unselected(d: Images, positions: seq<nat>, p: nat)
      requires Valid() && Sized(d)
    {
      p < Pixels() && ConsideredAt(d, p) && p !in positions
    }

    ghost predicate Outranked(d: Images, p: nat)
      requires Valid() && Sized(d) && p < Pixels()
    {
      exists q: nat :: q < Pixels() && ConsideredAt(d, q) && Outranks(d, q, p)
    }

    /** No unselected pixel is the one to be cleaned. */
    ghost predicate NoHiddenPeak(d: Images, positions: seq<nat>)
      requires Valid() && Sized(d)
    {
      forall p: nat {:trigger Unselected(d, positions, p)} :: Unselected(d, positions, p) ==>
        Strength(Value(d, p)) <= FLOAT_MIN || !Cleanable(Value(d, p)) || Outranked(d, p)
    }

    /** The strongest selected pixel, if it is to be cleaned, can be a peak and is outranked by no unselected pixel. */
    ghost predicate NoFalsePeak(d: Images, positions: seq<nat>)
      requires Valid() && Sized(d) && Peaks(positions)
    {
      forall k: nat {:trigger Strongest(d, positions, k)} ::
        Strongest(d, positions, k) && Cleanable(Value(d, positions[k])) ==>
          Strength(Value(d, positions[k])) > FLOAT_MIN &&
          forall p: nat {:trigger Unselected(d, positions, p)} :: Unselected(d, positions, p) ==>
            !Outranks(d, p, positions[k])
    }

    /** The first pixel, found on a dark image, is the strongest selected one, or neither is to be cleaned. */
    ghost predicate FirstPixelAgrees(d: Images, positions: seq<nat>)
      requires Valid() && Sized(d) && Peaks(positions) && 0 < Pixels()
    {
      (Cleanable(Value(d, 0)) ==> exists k: nat :: Strongest(d, positions, k) && positions[k] == 0) &&
      forall k: nat {:trigger Strongest(d, positions, k)} ::
        Strongest(d, positions, k) && Cleanable(Value(d, positions[k])) ==> positions[k] == 0
    }

    /** What has to hold of the residual at a loop test for both loops to take the same decision. */
    ghost predicate TestAgrees(d: Images, positions: seq<nat>, iteration: nat)
      requires Valid() && Sized(d) && Peaks(positions)
    {
      iteration < maxIter ==>
        if Dark(d) then FirstPixelAgrees(d, positions) else NoHiddenPeak(d, positions) && NoFalsePeak(d, positions)
    }

    /** Every unselected pixel is at most at the threshold or outranked by a selected pixel. */
    ghost predicate SelectedLead(d: Images, positions: seq<nat>)
      requires Valid() && Sized(d) && Peaks(positions)
    {
      forall p: nat {:trigger Unselected(d, positions, p)} :: Unselected(d, positions, p) ==>
        Strength(Value(d, p)) <= threshold || OutrankedBy(d, positions, p)
    }

    ghost predicate OutrankedBy(d: Images, positions: seq<nat>, p: nat)
      requires Valid() && Sized(d) && Peaks(positions) && p < Pixels()
    {
      exists k: nat :: k < |positions| && Outranks(d, positions[k], p)
    }
  }

  /** The loop test before component j of a sub-minor run agrees. */
  ghost predicate AgreesAt(c: Clean, d: Images, positions: seq<nat>, iteration: nat, sub: seq<nat>, j: nat)
    requires c.Valid() && c.Sized(d) && c.Peaks(positions) && c.Peaks(sub) && j <= |sub|
  {
    c.TestAgrees(c.Dirty(d, sub[..j]), positions, iteration + j)
  }

  function Scale(f: real, v: seq<real>): (r: seq<real>)
    ensures |r| == |v|
  {
    seq(|v|, i requires 0 <= i < |v| => v[i] * f)
  }

  lemma FlatAt(c: Clean, d: Images, p: nat)
    requires c.Valid() && c.Sized(d) && p < c.Pixels()
    ensures 0 < c.width && p % c.width < c.width && p / c.width < c.height
    ensures c.SearchOf(d).At(p % c.width, p / c.width) == c.Value(d, p)
    ensures c.SearchOf(d).Level(p % c.width, p / c.width) == c.Strength(c.Value(d, p))
  {
    RowMajor.Joins(c.width, c.height, p);
  }

  lemma OneStrongest(c: Clean, d: Images, positions: seq<nat>, k: nat, m: nat)
    requires c.Valid() && c.Sized(d) && c.Peaks(positions) && c.Strongest(d, positions, k) &&
             c.Strongest(d, positions, m)
    ensures k == m
  {
    var a, b := c.Strength(c.Value(d, positions[k])), c.Strength(c.Value(d, positions[m]));
    assert m < k ==> b < a;
    assert k < m ==> a < b;
  }

  /** A full-image peak among the selected pixels is the strongest of them. */
  lemma FullPeakIsStrongest(c: Clean, d: Images, d0: Images, positions: seq<nat>, r: Peak)
    requires c.Valid() && c.Sized(d) && c.Sized(d0) && c.Selection(d0, positions) && c.SearchOf(d).Finds(Some(r))
    requires r.y * c.width + r.x in positions
    ensures exists k: nat :: c.Strongest(d, positions, k) && positions[k] == r.y * c.width + r.x
    ensures forall k: nat :: c.Strongest(d, positions, k) ==>
            positions[k] == r.y * c.width + r.x && c.Value(d, positions[k]) == r.value
  {
    var q := r.y * c.width + r.x;
    var s := c.SearchOf(d);
    var k: nat :| k < |positions| && positions[k] == q;
    RowMajor.Splits(c.width, r.x, r.y);
    FlatAt(c, d, q);
    forall j | 0 <= j < |positions|
      ensures c.Strength(c.Value(d, positions[j])) <= c.Strength(c.Value(d, q))
      ensures j < k ==> c.Strength(c.Value(d, positions[j])) < c.Strength(c.Value(d, q))
    {
      var p := positions[j];
      assert p in positions;
      FlatAt(c, d, p);
      assert c.ConsideredAt(d0, p);
      RowMajor.Joins(c.width, c.height, p);
      assert s.Considered(p % c.width, p / c.width);
      RowMajor.Order(c.width, p % c.width, p / c.width, r.x, r.y);
    }
    assert c.Strongest(d, positions, k);
    forall m: nat | c.Strongest(d, positions, m) ensures m == k {
      OneStrongest(c, d, positions, k, m);
    }
  }

  /** What the search finds is outranked by no pixel of the search. */
  lemma FoundOutranks(c: Clean, d: Images, r: Peak, p: nat)
    requires c.Valid() && c.Sized(d) && c.SearchOf(d).Finds(Some(r)) && p < c.Pixels() && c.ConsideredAt(d, p)
    ensures r.x < c.width && r.y < c.height && r.y * c.width + r.x < c.Pixels()
    ensures c.Value(d, r.y * c.width + r.x) == r.value && c.Strength(r.value) > FLOAT_MIN
    ensures c.ConsideredAt(d, r.y * c.width + r.x)
    ensures p != r.y * c.width + r.x ==> c.Outranks(d, r.y * c.width + r.x, p)
  {
    var q, s := r.y * c.width + r.x, c.SearchOf(d);
    RowMajor.Fits(c.width, c.height, r.x, r.y);
    RowMajor.Splits(c.width, r.x, r.y);
    FlatAt(c, d, q);
    FlatAt(c, d, p);
    var x, y := p % c.width, p / c.width;
    RowMajor.Joins(c.width, c.height, p);
    assert s.Considered(x, y) && s.Before(x, y, 0, c.height);
    assert s.Level(x, y) <= s.Level(r.x, r.y);
    if p < q {
      RowMajor.Order(c.width, x, y, r.x, r.y);
      assert s.Before(x, y, r.x, r.y);
    }
  }

  /** A pixel of the search that is outranked by no other is what the search finds. */
  lemma OutranksIsFound(c: Clean, d: Images, q: nat) returns (r: Peak)
    requires c.Valid() && c.Sized(d) && q < c.Pixels() && c.ConsideredAt(d, q)
    requires c.Strength(c.Value(d, q)) > FLOAT_MIN && !c.Outranked(d, q)
    ensures c.SearchOf(d).Finds(Some(r)) && q == r.y * c.width + r.x && r.value == c.Value(d, q)
  {
    var s := c.SearchOf(d);
    RowMajor.Joins(c.width, c.height, q);
    FlatAt(c, d, q);
    r := Peak(q % c.width, q / c.width, c.Value(d, q));
    forall x, y | s.Considered(x, y)
      ensures s.Level(x, y) <= s.Level(r.x, r.y) && (s.Before(x, y, r.x, r.y) ==> s.Level(x, y) < s.Level(r.x, r.y))
    {
      NotAbove(c, d, q, r, x, y);
    }
  }

  lemma NotAbove(c: Clean, d: Images, q: nat, r: Peak, x: nat, y: nat)
    requires c.Valid() && c.Sized(d) && q < c.Pixels() && !c.Outranked(d, q) && c.SearchOf(d).Considered(x, y)
    requires r.x < c.width && r.y < c.height && q == r.y * c.width + r.x
    ensures var s := c.SearchOf(d);
            s.Level(x, y) <= s.Level(r.x, r.y) && (s.Before(x, y, r.x, r.y) ==> s.Level(x, y) < s.Level(r.x, r.y))
  {
    var p := y * c.width + x;
    RowMajor.Fits(c.width, c.height, x, y);
    RowMajor.Splits(c.width, x, y);
    RowMajor.Splits(c.width, r.x, r.y);
    FlatAt(c, d, p);
    FlatAt(c, d, q);
    assert c.ConsideredAt(d, p);
    assert !c.Outranks(d, p, q);
    RowMajor.Order(c.width, x, y, r.x, r.y);
  }

  /** Selected pixels are pixels of the search at every later residual as well. */
  lemma SelectedConsidered(c: Clean, d: Images, d0: Images, positions: seq<nat>, q: nat)
    requires c.Valid() && c.Sized(d) && c.Sized(d0) && c.Selection(d0, positions) && q in positions
    ensures q < c.Pixels() && c.ConsideredAt(d, q)
  {
    assert c.ConsideredAt(d0, q);
    RowMajor.Joins(c.width, c.height, q);
  }

  /** Among the selected pixels none outranks the strongest one. */
  lemma StrongestLeads(c: Clean, d: Images, d0: Images, positions: seq<nat>, k: nat, p: nat)
    requires c.Valid() && c.Sized(d) && c.Sized(d0) && c.Selection(d0, positions) && c.Strongest(d, positions, k)
    requires p in positions
    ensures !c.Outranks(d, p, positions[k])
  {
    var j :| 0 <= j < |positions| && positions[j] == p;
    assert c.Strength(c.Value(d, positions[j])) <= c.Strength(c.Value(d, positions[k]));
  }

  /** Where the test agrees and the sub-minor loop goes on, the plain loop goes on with the same pixel. */
  lemma PlainFollows(c: Clean, d: Images, d0: Images, positions: seq<nat>, iteration: nat, q: nat)
    requires c.Valid() && c.Sized(d) && c.Sized(d0) && c.Selection(d0, positions)
    requires c.TestAgrees(d, positions, iteration) && c.SubGoesOn(d, positions, iteration, q)
    ensures c.PlainGoesOn(d, iteration, q)
  {
    var k: nat :| c.Strongest(d, positions, k) && q == positions[k] && c.Continues(c.Value(d, q), iteration);
    if c.Dark(d) {
      assert c.Finds(d, Some(Peak(0, 0, c.Value(d, 0))));
    } else {
      var r := StrongestIsFound(c, d, d0, positions, k);
      assert c.Finds(d, Some(r));
    }
  }

  /** A strongest selected pixel that is to be cleaned, and is no false peak, is what the search finds. */
  lemma StrongestIsFound(c: Clean, d: Images, d0: Images, positions: seq<nat>, k: nat) returns (r: Peak)
    requires c.Valid() && c.Sized(d) && c.Sized(d0) && c.Selection(d0, positions) && c.NoFalsePeak(d, positions)
    requires c.Strongest(d, positions, k) && c.Cleanable(c.Value(d, positions[k]))
    ensures c.SearchOf(d).Finds(Some(r)) && positions[k] == r.y * c.width + r.x && r.value == c.Value(d, positions[k])
  {
    var q := positions[k];
    assert q in positions;
    SelectedConsidered(c, d, d0, positions, q);
    forall p: nat | p < c.Pixels() && c.ConsideredAt(d, p) ensures !c.Outranks(d, p, q) {
      if p in positions {
        StrongestLeads(c, d, d0, positions, k, p);
      } else {
        assert c.Unselected(d, positions, p);
      }
    }
    r := OutranksIsFound(c, d, q);
  }

  /** Where the test agrees and the plain loop goes on, the sub-minor loop goes on. */
  lemma SubFollows(c: Clean, d: Images, d0: Images, positions: seq<nat>, iteration: nat, q: nat)
    requires c.Valid() && c.Sized(d) && c.Sized(d0) && c.Selection(d0, positions)
    requires c.TestAgrees(d, positions, iteration) && c.PlainGoesOn(d, iteration, q)
    ensures c.SubGoesOn(d, positions, iteration, q)
  {
    var r: Peak :| c.Finds(d, Some(r)) && c.Continues(r.value, iteration) && q == r.y * c.width + r.x;
    if !c.Dark(d) {
      CleanedIsSelected(c, d, positions, r);
      FullPeakIsStrongest(c, d, d0, positions, r);
    }
  }

  /** What the search finds, if it is to be cleaned and no hidden peak, is a selected pixel. */
  lemma CleanedIsSelected(c: Clean, d: Images, positions: seq<nat>, r: Peak)
    requires c.Valid() && c.Sized(d) && c.NoHiddenPeak(d, positions)
    requires c.SearchOf(d).Finds(Some(r)) && c.Cleanable(r.value)
    ensures r.y * c.width + r.x in positions
  {
    var q := r.y * c.width + r.x;
    PeakInside(c, d, r);
    FoundOutranks(c, d, r, q);
    forall p: nat | p < c.Pixels() && c.ConsideredAt(d, p) ensures !c.Outranks(d, p, q) {
      FoundOutranks(c, d, r, p);
    }
    assert q !in positions ==> c.Unselected(d, positions, q);
  }

  lemma PeakInside(c: Clean, d: Images, r: Peak)
    requires c.Valid() && c.Sized(d) && c.SearchOf(d).Finds(Some(r))
    ensures r.x < c.width && r.y < c.height && r.y * c.width + r.x < c.Pixels()
    ensures c.ConsideredAt(d, r.y * c.width + r.x)
  {
    RowMajor.Fits(c.width, c.height, r.x, r.y);
    RowMajor.Splits(c.width, r.x, r.y);
  }

  /** What the search returns is a pixel of the image, with its value. */
  lemma FoundInside(c: Clean, d: Images, r: Peak)
    requires c.Valid() && c.Sized(d) && c.Finds(d, Some(r))
    ensures r.x < c.width && r.y < c.height && r.y * c.width + r.x < c.Pixels()
    ensures r.value == c.Value(d, r.y * c.width + r.x)
  {
    if c.Dark(d) {
      RowMajor.Joins(c.width, c.height, 0);
    } else {
      PeakInside(c, d, r);
      FlatAt(c, d, r.y * c.width + r.x);
      RowMajor.Splits(c.width, r.x, r.y);
    }
  }

  /** The search returns one pixel. */
  lemma FoundOnce(c: Clean, d: Images, a: Option<Peak>, b: Option<Peak>)
    requires c.Valid() && c.Sized(d) && c.Finds(d, a) && c.Finds(d, b)
    ensures a == b
  {
    if !c.Dark(d) {
      FindsOne(c.SearchOf(d), a, b);
    }
  }

  /** The plain loop goes on with one pixel only. */
  lemma OnePlainPixel(c: Clean, d: Images, iteration: nat, q: nat, q': nat)
    requires c.Valid() && c.Sized(d) && c.PlainGoesOn(d, iteration, q) && c.PlainGoesOn(d, iteration, q')
    ensures q == q'
  {
    var r: Peak :| c.Finds(d, Some(r)) && c.Continues(r.value, iteration) && q == r.y * c.width + r.x;
    var r': Peak :| c.Finds(d, Some(r')) && c.Continues(r'.value, iteration) && q' == r'.y * c.width + r'.x;
    FoundOnce(c, d, Some(r), Some(r'));
  }

  /** Where the test agrees, the loops stop together. */
  lemma StopTogether(c: Clean, d: Images, d0: Images, positions: seq<nat>, iteration: nat)
    requires c.Valid() && c.Sized(d) && c.Sized(d0) && c.Selection(d0, positions) &&
             c.TestAgrees(d, positions, iteration)
    ensures c.PlainStops(d, iteration) <==> c.SubStops(d, positions, iteration)
  {
    if !c.PlainStops(d, iteration) {
      var q := PlainPixel(c, d, iteration);
      SubFollows(c, d, d0, positions, iteration, q);
    }
    if !c.SubStops(d, positions, iteration) {
      var q := SubPixel(c, d, positions, iteration);
      PlainFollows(c, d, d0, positions, iteration, q);
    }
  }

  /** The pixel that a plain loop goes on with. */
  lemma PlainPixel(c: Clean, d: Images, iteration: nat) returns (q: nat)
    requires c.Valid() && c.Sized(d) && !c.PlainStops(d, iteration)
    ensures c.PlainGoesOn(d, iteration, q) && q < c.Pixels() && iteration < c.maxIter
  {
    var r: Peak :| c.Finds(d, Some(r)) && c.Continues(r.value, iteration);
    FoundInside(c, d, r);
    q := r.y * c.width + r.x;
  }

  /** The pixel that a sub-minor loop goes on with. */
  lemma SubPixel(c: Clean, d: Images, positions: seq<nat>, iteration: nat) returns (q: nat)
    requires c.Valid() && c.Sized(d) && c.Peaks(positions) && !c.SubStops(d, positions, iteration)
    ensures c.SubGoesOn(d, positions, iteration, q) && q < c.Pixels() && iteration < c.maxIter
  {
    var k: nat :| c.Strongest(d, positions, k) && c.Continues(c.Value(d, positions[k]), iteration);
    q := positions[k];
  }

  lemma NoneGoesOn(c: Clean, d: Images, iteration: nat)
    requires c.Valid() && c.Sized(d)
    ensures c.PlainStops(d, iteration) ==>
            forall q {:trigger c.PlainGoesOn(d, iteration, q)} :: !c.PlainGoesOn(d, iteration, q)
  {
  }

  // ----- when both ways subtract the same

  lemma SameKernel(c: Clean, i: nat, p: nat, q: nat)
    requires c.Valid() && c.EvenSides() && i < c.Count() && p < c.Pixels() && q < c.Pixels()
    ensures c.For(WholeImage).Kernel(i, p, q) == c.For(SubMinor).Kernel(i, p, q)
  {
    RowMajor.Joins(c.width, c.height, p);
    S.WindowIsWhole(c.Psf(i), c.width, c.height, p % c.width - q % c.width, p / c.width - q / c.width);
  }

  lemma SameComponent(c: Clean, d: Images, q: nat)
    requires c.Valid() && c.FitScales() && c.Sized(d) && q < c.Pixels()
    ensures c.For(WholeImage).Component(d, q) == c.For(SubMinor).Component(d, q)
  {
    RowMajor.Joins(c.width, c.height, q);
    assert c.For(WholeImage).Column(d, q) == c.For(SubMinor).Column(d, q) == c.Column(d, q);
    assert c.fit(Scale(c.gain, c.Column(d, q)), q % c.width, q / c.width)
        == Scale(c.gain, c.fit(c.Column(d, q), q % c.width, q / c.width));
  }

  lemma SameLeft(c: Clean, d: Images, q: nat, i: nat, p: nat)
    requires c.Valid() && c.Alike() && c.Sized(d) && q < c.Pixels() && i < c.Count() && p < c.Pixels()
    ensures c.For(WholeImage).Subtract(d, q)[i][p] == c.For(SubMinor).Subtract(d, q)[i][p]
  {
    SameComponent(c, d, q);
    SameKernel(c, i, p, q);
    SubtractAt(c.For(WholeImage), d, q, i, p);
    SubtractAt(c.For(SubMinor), d, q, i, p);
  }

  lemma SameSubtract(c: Clean, d: Images, q: nat)
    requires c.Valid() && c.Alike() && c.Sized(d) && q < c.Pixels()
    ensures c.For(WholeImage).Subtract(d, q) == c.For(SubMinor).Subtract(d, q)
  {
    var a, b := c.For(WholeImage), c.For(SubMinor);
    forall i | 0 <= i < c.Count() ensures a.Subtract(d, q)[i] == b.Subtract(d, q)[i] {
      forall p | 0 <= p < c.Pixels() ensures a.Subtract(d, q)[i][p] == b.Subtract(d, q)[i][p] {
        SameLeft(c, d, q, i, p);
      }
    }
  }

  /** On even sides, with a fit that scales, both ways leave the same residual and the same model. */
  lemma {:induction false} SameRun(c: Clean, m: Images, d: Images, peaks: seq<nat>)
    requires c.Valid() && c.Alike() && c.Sized(d) && c.Sized(m) && c.Peaks(peaks)
    ensures c.For(WholeImage).Dirty(d, peaks) == c.For(SubMinor).Dirty(d, peaks)
    ensures c.For(WholeImage).Model(m, d, peaks) == c.For(SubMinor).Model(m, d, peaks)
    decreases |peaks|
  {
    if peaks != [] {
      var before, q := peaks[..|peaks| - 1], peaks[|peaks| - 1];
      SameRun(c, m, d, before);
      var e := c.For(SubMinor).Dirty(d, before);
      SameComponent(c, e, q);
      SameSubtract(c, e, q);
    }
  }

  /** Every loop test searches the same image. */
  lemma SameSearch(c: Clean, k: nat, d: Images)
    requires c.Valid() && c.Alike() && c.Sized(d)
    ensures c.For(WholeImage).At(k).SearchOf(d) == c.For(SubMinor).SearchOf(d)
  {
    var a, b := c.For(WholeImage).At(k), c.For(SubMinor);
    forall p | 0 <= p < c.Pixels() ensures a.Integrated(d)[p] == b.Integrated(d)[p] {
      assert a.Column(d, p) == b.Column(d, p);
    }
  }

  lemma SameFinds(c: Clean, k: nat, d: Images, r: Option<Peak>)
    requires c.Valid() && c.Alike() && c.Sized(d)
    ensures c.For(WholeImage).At(k).Finds(d, r) <==> c.For(SubMinor).Finds(d, r)
  {
    var a, b := c.For(WholeImage).At(k), c.For(SubMinor);
    SameSearch(c, k, d);
    if c.Pixels() > 0 {
      assert a.Value(d, 0) == a.SearchOf(d).image[0] && b.Value(d, 0) == b.SearchOf(d).image[0];
    }
  }

  /** Every loop test decides the same. */
  lemma SameDecision(c: Clean, k: nat, d: Images, iteration: nat, q: nat)
    requires c.Valid() && c.Alike() && c.Sized(d)
    ensures c.For(WholeImage).At(k).PlainGoesOn(d, iteration, q) <==> c.For(SubMinor).PlainGoesOn(d, iteration, q)
    ensures c.For(WholeImage).At(k).PlainStops(d, iteration) <==> c.For(SubMinor).PlainStops(d, iteration)
  {
    var a, b := c.For(WholeImage).At(k), c.For(SubMinor);
    forall r: Option<Peak> ensures a.Finds(d, r) <==> b.Finds(d, r) {
      SameFinds(c, k, d, r);
    }
    DecideAlike(a, b, d, iteration, q);
  }

  lemma DecideAlike(a: Clean, b: Clean, d: Images, iteration: nat, q: nat)
    requires a.Valid() && b.Valid() && a.Sized(d) && b.Sized(d) && a.width == b.width && a.threshold == b.threshold
    requires a.maxIter == b.maxIter && a.stopOnNegative == b.stopOnNegative
    requires forall r {:trigger a.Finds(d, r)} {:trigger b.Finds(d, r)} :: a.Finds(d, r) <==> b.Finds(d, r)
    ensures a.PlainGoesOn(d, iteration, q) <==> b.PlainGoesOn(d, iteration, q)
    ensures a.PlainStops(d, iteration) <==> b.PlainStops(d, iteration)
  {
  }

  /** What a plain run did at its k-th loop test. */
  lemma WholeTest(c: Clean, d: Images, iteration: nat, run: seq<nat>, k: nat, e: Images)
    requires c.Valid() && c.Sized(d) && c.PlainRun(d, iteration, run) && k <= |run| && e == c.Dirty(d, run[..k])
    ensures k < |run| ==> c.At(k).PlainGoesOn(e, iteration + k, run[k])
    ensures k == |run| ==> c.At(k).PlainStops(e, iteration + k)
  {
    if k < |run| {
      assert c.PlainStep(d, iteration, run, k);
    } else {
      assert run[..k] == run;
    }
  }

  /** The same seen from the sub-minor settings. */
  lemma PlainTest(c: Clean, d: Images, iteration: nat, run: seq<nat>, k: nat)
    requires c.Valid() && c.Alike() && c.Sized(d) && c.way.SubMinor? && k <= |run|
    requires c.For(WholeImage).PlainRun(d, iteration, run)
    ensures c.Peaks(run) && c.Peaks(run[..k])
    ensures k < |run| ==> c.PlainGoesOn(c.Dirty(d, run[..k]), iteration + k, run[k])
    ensures k == |run| ==> c.PlainStops(c.Dirty(d, run[..k]), iteration + k)
  {
    var w := c.For(WholeImage);
    assert w.Peaks(run) && c.Peaks(run);
    SameRun(c, d, d, run[..k]);
    var e := w.Dirty(d, run[..k]);
    WholeTest(w, d, iteration, run, k, e);
    SameDecision(c, k, e, iteration + k, if k < |run| then run[k] else 0);
  }

  /** What a sub-minor run did at its k-th loop test. */
  lemma SubTest(c: Clean, d: Images, positions: seq<nat>, iteration: nat, run: seq<nat>, k: nat)
    requires c.Valid() && c.Sized(d) && c.Peaks(positions) && c.SubRun(d, positions, iteration, run) && k <= |run|
    ensures c.Peaks(run[..k])
    ensures k < |run| ==> c.SubGoesOn(c.Dirty(d, run[..k]), positions, iteration + k, run[k])
    ensures k == |run| ==> c.SubStops(c.Dirty(d, run[..k]), positions, iteration + k)
  {
    if k < |run| {
      assert c.SubStep(d, positions, iteration, run, k);
    } else {
      assert run[..k] == run;
    }
  }

  /** A plain run goes on with the pixel that the loop goes on with. */
  lemma NextPlain(c: Clean, d: Images, iteration: nat, plain: seq<nat>, k: nat, e: Images, q: nat)
    requires c.Valid() && c.Alike() && c.way.SubMinor? && c.Sized(d) && c.For(WholeImage).PlainRun(d, iteration, plain)
    requires k <= |plain| && c.Peaks(plain[..k]) && e == c.Dirty(d, plain[..k]) && c.PlainGoesOn(e, iteration + k, q)
    ensures k < |plain| && plain[k] == q
  {
    PlainTest(c, d, iteration, plain, k);
    if k == |plain| {
      assert false;
    }
    OnePlainPixel(c, e, iteration + k, q, plain[k]);
  }

  /** Two runs that agree so far agree on the next component, if the test between them agrees. */
  lemma NextAgrees(c: Clean, d: Images, positions: seq<nat>, iteration: nat, plain: seq<nat>, sub: seq<nat>, k: nat)
    requires c.Valid() && c.Alike() && c.way.SubMinor? && c.Sized(d) && c.Selection(d, positions)
    requires c.For(WholeImage).PlainRun(d, iteration, plain) && c.SubRun(d, positions, iteration, sub)
    requires k < |sub| && k <= |plain| && plain[..k] == sub[..k] && AgreesAt(c, d, positions, iteration, sub, k)
    ensures k < |plain| && plain[k] == sub[k]
  {
    var e := c.Dirty(d, sub[..k]);
    SubTest(c, d, positions, iteration, sub, k);
    PlainFollows(c, e, d, positions, iteration + k, sub[k]);
    NextPlain(c, d, iteration, plain, k, e, sub[k]);
  }

  /** Two runs agree on their first k components as long as the tests in between agree. */
  lemma {:induction false} RunsAgree(c: Clean, d: Images, positions: seq<nat>, iteration: nat, plain: seq<nat>,
          sub: seq<nat>, k: nat)
    requires c.Valid() && c.Alike() && c.way.SubMinor? && c.Sized(d) && c.Selection(d, positions)
    requires c.For(WholeImage).PlainRun(d, iteration, plain) && c.SubRun(d, positions, iteration, sub)
    requires k <= |sub| && forall j {:trigger AgreesAt(c, d, positions, iteration, sub, j)} :: 0 <= j <= |sub| ==>
             AgreesAt(c, d, positions, iteration, sub, j)
    ensures k <= |plain| && plain[..k] == sub[..k]
  {
    if k > 0 {
      RunsAgree(c, d, positions, iteration, plain, sub, k - 1);
      assert AgreesAt(c, d, positions, iteration, sub, k - 1);
      NextAgrees(c, d, positions, iteration, plain, sub, k - 1);
      assert plain[..k] == plain[..k - 1] + [plain[k - 1]] && sub[..k] == sub[..k - 1] + [sub[k - 1]];
    }
  }

  /** A plain run that starts with a whole sub-minor run ends with it, if the last test agrees. */
  lemma EndAgrees(c: Clean, d: Images, positions: seq<nat>, iteration: nat, plain: seq<nat>, sub: seq<nat>)
    requires c.Valid() && c.Alike() && c.way.SubMinor? && c.Sized(d) && c.Selection(d, positions)
    requires c.For(WholeImage).PlainRun(d, iteration, plain) && c.SubRun(d, positions, iteration, sub)
    requires sub <= plain && AgreesAt(c, d, positions, iteration, sub, |sub|)
    ensures plain == sub
  {
    assert plain[..|sub|] == sub && sub[..|sub|] == sub;
    PlainTest(c, d, iteration, plain, |sub|);
    SubTest(c, d, positions, iteration, sub, |sub|);
    StopTogether(c, c.Dirty(d, sub), d, positions, iteration + |sub|);
    NoneGoesOn(c, c.Dirty(d, sub), iteration + |sub|);
  }

  /** Where both loops go on with the same pixel, the test agrees. */
  lemma BothGoOn(c: Clean, e: Images, d0: Images, positions: seq<nat>, iteration: nat, q: nat)
    requires c.Valid() && c.Sized(e) && c.Sized(d0) && c.Selection(d0, positions)
    requires c.PlainGoesOn(e, iteration, q) && c.SubGoesOn(e, positions, iteration, q)
    ensures c.TestAgrees(e, positions, iteration)
  {
    var r: Peak :| c.Finds(e, Some(r)) && c.Continues(r.value, iteration) && q == r.y * c.width + r.x;
    var k: nat :| c.Strongest(e, positions, k) && q == positions[k];
    if c.Dark(e) {
      forall m: nat | c.Strongest(e, positions, m) ensures positions[m] == 0 {
        OneStrongest(c, e, positions, k, m);
      }
    } else {
      FoundAgrees(c, e, positions, r, k);
    }
  }

  /** Where the search finds the strongest selected pixel, no other pixel is hidden and it is no false peak. */
  lemma FoundAgrees(c: Clean, e: Images, positions: seq<nat>, r: Peak, k: nat)
    requires c.Valid() && c.Sized(e) && c.Peaks(positions) && c.SearchOf(e).Finds(Some(r))
    requires c.Strongest(e, positions, k) && positions[k] == r.y * c.width + r.x
    ensures c.NoHiddenPeak(e, positions) && c.NoFalsePeak(e, positions)
  {
    var q := positions[k];
    assert q in positions;
    forall p: nat | c.Unselected(e, positions, p) ensures c.Outranks(e, q, p) && c.Outranked(e, p) {
      SelectedFound(c, e, positions, r, p);
    }
    PeakInside(c, e, r);
    FoundOutranks(c, e, r, q);
    NoFalse(c, e, positions, k);
  }

  lemma NoFalse(c: Clean, e: Images, positions: seq<nat>, k: nat)
    requires c.Valid() && c.Sized(e) && c.Peaks(positions) && c.Strongest(e, positions, k)
    requires c.Strength(c.Value(e, positions[k])) > FLOAT_MIN
    requires forall p: nat {:trigger c.Unselected(e, positions, p)} :: c.Unselected(e, positions, p) ==>
               c.Outranks(e, positions[k], p)
    ensures c.NoFalsePeak(e, positions)
  {
    forall m: nat | c.Strongest(e, positions, m) ensures m == k {
      OneStrongest(c, e, positions, k, m);
    }
  }

  /** A selected pixel that the search finds outranks every unselected one. */
  lemma SelectedFound(c: Clean, e: Images, positions: seq<nat>, r: Peak, p: nat)
    requires c.Valid() && c.Sized(e) && c.SearchOf(e).Finds(Some(r)) && c.Unselected(e, positions, p)
    requires r.y * c.width + r.x in positions
    ensures r.y * c.width + r.x < c.Pixels() && c.Outranks(e, r.y * c.width + r.x, p) && c.Outranked(e, p)
  {
    FoundOutranks(c, e, r, p);
  }

  /** Where both loops stop, the test agrees. */
  lemma BothStop(c: Clean, e: Images, d0: Images, positions: seq<nat>, iteration: nat)
    requires c.Valid() && c.Sized(e) && c.Sized(d0) && c.Selection(d0, positions)
    requires c.PlainStops(e, iteration) && c.SubStops(e, positions, iteration)
    ensures c.TestAgrees(e, positions, iteration)
  {
    if iteration < c.maxIter {
      if c.Dark(e) {
        assert c.Finds(e, Some(Peak(0, 0, c.Value(e, 0))));
      } else {
        forall p: nat | c.Unselected(e, positions, p)
          ensures c.Strength(c.Value(e, p)) <= FLOAT_MIN || !c.Cleanable(c.Value(e, p)) || c.Outranked(e, p)
        {
          if c.Strength(c.Value(e, p)) > FLOAT_MIN && !c.Outranked(e, p) {
            var r := OutranksIsFound(c, e, p);
            assert c.Finds(e, Some(r));
          }
        }
      }
    }
  }

  /** Where two equal runs go on or stop together, the test agrees. */
  lemma EqualRunsAgree(c: Clean, d: Images, positions: seq<nat>, iteration: nat, run: seq<nat>, j: nat)
    requires c.Valid() && c.Alike() && c.way.SubMinor? && c.Sized(d) && c.Selection(d, positions)
    requires c.For(WholeImage).PlainRun(d, iteration, run) && c.SubRun(d, positions, iteration, run) && j <= |run|
    ensures AgreesAt(c, d, positions, iteration, run, j)
  {
    PlainTest(c, d, iteration, run, j);
    SubTest(c, d, positions, iteration, run, j);
    if j < |run| {
      BothGoOn(c, c.Dirty(d, run[..j]), d, positions, iteration + j, run[j]);
    } else {
      BothStop(c, c.Dirty(d, run[..j]), d, positions, iteration + j);
    }
  }

  /**
   * The sub-minor loop takes exactly the components of the plain loop if and only if, in the residual at each of its
   * loop tests, no unselected pixel is the one to be cleaned and the strongest selected pixel is no false peak; or if
   * the residual is dark, the first pixel agrees.
   */
  lemma SubMinorIsPlain(c: Clean, d: Images, positions: seq<nat>, iteration: nat, plain: seq<nat>, sub: seq<nat>)
    requires c.Valid() && c.Alike() && c.way.SubMinor? && c.Sized(d) && c.Selection(d, positions)
    requires c.For(WholeImage).PlainRun(d, iteration, plain) && c.SubRun(d, positions, iteration, sub)
    ensures plain == sub <==>
            forall j {:trigger AgreesAt(c, d, positions, iteration, sub, j)} :: 0 <= j <= |sub| ==>
              AgreesAt(c, d, positions, iteration, sub, j)
  {
    if forall j {:trigger AgreesAt(c, d, positions, iteration, sub, j)} :: 0 <= j <= |sub| ==>
        AgreesAt(c, d, positions, iteration, sub, j) {
      RunsAgree(c, d, positions, iteration, plain, sub, |sub|);
      assert sub <= plain;
      EndAgrees(c, d, positions, iteration, plain, sub);
    }
    if plain == sub {
      forall j | 0 <= j <= |sub| ensures AgreesAt(c, d, positions, iteration, sub, j) {
        EqualRunsAgree(c, d, positions, iteration, sub, j);
      }
    }
  }

  // ----- the usual settings

  /** An unselected pixel above the threshold that no selected pixel outranks would have to be outranked for ever. */
  lemma {:induction false} Climb(c: Clean, e: Images, d0: Images, positions: seq<nat>, p: nat)
    requires c.Valid() && c.Sized(e) && c.Sized(d0) && c.Selection(d0, positions)
    requires c.allowNegative && !c.stopOnNegative && c.threshold >= FLOAT_MIN && c.NoHiddenPeak(e, positions)
    requires c.Unselected(e, positions, p) && c.Strength(c.Value(e, p)) > c.threshold
    ensures c.OutrankedBy(e, positions, p)
    decreases |Above(c, e, p)|
  {
    if !c.OutrankedBy(e, positions, p) {
      var q: nat :| q < c.Pixels() && c.ConsideredAt(e, q) && c.Outranks(e, q, p);
      assert q !in positions;
      assert q in Above(c, e, p) && q !in Above(c, e, q) && Above(c, e, q) <= Above(c, e, p);
      FiniteSets.SubsetSize(Above(c, e, q) + {q}, Above(c, e, p));
      Climb(c, e, d0, positions, q);
      assert false;
    }
  }

  /** The pixels that outrank pixel p. */
  ghost function Above(c: Clean, e: Images, p: nat): set<nat>
    requires c.Valid() && c.Sized(e) && p < c.Pixels()
  {
    set q: nat | q < c.Pixels() && c.Outranks(e, q, p)
  }

  /**
   * Where negative components are cleaned as positive ones are, and the threshold is no smaller than what the search
   * can find: the decisions are the same if and only if every unselected pixel is at most at the threshold or
   * outranked by a selected one, and the first pixel of a dark residual is not to be cleaned.
   */
  lemma UsualTest(c: Clean, e: Images, d0: Images, positions: seq<nat>, iteration: nat)
    requires c.Valid() && c.Sized(e) && c.Sized(d0) && c.Selection(d0, positions) && iteration < c.maxIter
    requires c.allowNegative && !c.stopOnNegative && c.threshold >= FLOAT_MIN
    ensures c.TestAgrees(e, positions, iteration) <==>
              c.SelectedLead(e, positions) && (c.Dark(e) ==> !c.Cleanable(c.Value(e, 0)))
  {
    if c.Dark(e) {
      DarkTest(c, e, d0, positions);
    } else {
      UsualPeaks(c, e, d0, positions);
    }
  }

  /** On a dark residual all pixels of the search are too weak to be cleaned. */
  lemma DarkPixel(c: Clean, e: Images, p: nat)
    requires c.Valid() && c.Sized(e) && c.SearchOf(e).Finds(None) && p < c.Pixels() && c.ConsideredAt(e, p)
    ensures c.Strength(c.Value(e, p)) <= FLOAT_MIN
  {
    RowMajor.Joins(c.width, c.height, p);
    FlatAt(c, e, p);
    assert c.SearchOf(e).Before(p % c.width, p / c.width, 0, c.height);
  }

  lemma DarkTest(c: Clean, e: Images, d0: Images, positions: seq<nat>)
    requires c.Valid() && c.Sized(e) && c.Sized(d0) && c.Selection(d0, positions) && c.Dark(e)
    requires c.allowNegative && !c.stopOnNegative && c.threshold >= FLOAT_MIN
    ensures c.SelectedLead(e, positions) && (c.FirstPixelAgrees(e, positions) <==> !c.Cleanable(c.Value(e, 0)))
  {
    forall p: nat | c.Unselected(e, positions, p) ensures c.Strength(c.Value(e, p)) <= c.threshold {
      DarkPixel(c, e, p);
    }
    forall k: nat | k < |positions| ensures !c.Cleanable(c.Value(e, positions[k])) {
      assert positions[k] in positions;
      SelectedConsidered(c, e, d0, positions, positions[k]);
      DarkPixel(c, e, positions[k]);
    }
  }

  lemma UsualPeaks(c: Clean, e: Images, d0: Images, positions: seq<nat>)
    requires c.Valid() && c.Sized(e) && c.Sized(d0) && c.Selection(d0, positions)
    requires c.allowNegative && !c.stopOnNegative && c.threshold >= FLOAT_MIN
    ensures c.NoHiddenPeak(e, positions) && c.NoFalsePeak(e, positions) <==> c.SelectedLead(e, positions)
  {
    if c.NoHiddenPeak(e, positions) {
      forall p: nat | c.Unselected(e, positions, p)
        ensures c.Strength(c.Value(e, p)) <= c.threshold || c.OutrankedBy(e, positions, p)
      {
        if c.Strength(c.Value(e, p)) > c.threshold {
          Climb(c, e, d0, positions, p);
        }
      }
    }
    if c.SelectedLead(e, positions) {
      forall p: nat | c.Unselected(e, positions, p) && c.OutrankedBy(e, positions, p) ensures c.Outranked(e, p) {
        var k: nat :| k < |positions| && c.Outranks(e, positions[k], p);
        SelectedConsidered(c, e, d0, positions, positions[k]);
      }
      forall k: nat, p: nat | c.Strongest(e, positions, k) && c.Cleanable(c.Value(e, positions[k])) &&
                              c.Unselected(e, positions, p)
        ensures !c.Outranks(e, p, positions[k])
      {
        NotOutranked(c, e, d0, positions, k, p);
      }
    }
  }

  lemma NotOutranked(c: Clean, e: Images, d0: Images, positions: seq<nat>, k: nat, p: nat)
    requires c.Valid() && c.Sized(e) && c.Sized(d0) && c.Selection(d0, positions) && c.SelectedLead(e, positions)
    requires c.allowNegative && c.Strongest(e, positions, k) && c.Cleanable(c.Value(e, positions[k]))
    requires c.Unselected(e, positions, p)
    ensures !c.Outranks(e, p, positions[k])
  {
    if c.Outranks(e, p, positions[k]) {
      assert false;
    }
  }

  // ----- the residual as a convolution of the model

  /** The sum of the first n pixels of an image, each weighted by its tap. */
  function Weighted(taps: nat -> real, m: seq<real>, n: nat): real
    requires n <= |m|
  {
    if n == 0 then 0.0 else Weighted(taps, m, n - 1) + taps(n - 1) * m[n - 1]
  }

  /** The weight of each component in pixel p of image i. */
  function Taps(c: Clean, i: nat, p: nat): nat -> real
    requires c.Valid() && i < c.Count() && p < c.Pixels()
  {
    (q: nat) => if q < c.Pixels() then c.Kernel(i, p, q) else 0.0
  }

  /** An image convolved with the PSF of image i, with zeros around it, at pixel p. */
  function Convolved(c: Clean, i: nat, m: seq<real>, p: nat): real
    requires c.Valid() && i < c.Count() && |m| == c.Pixels() && p < c.Pixels()
  {
    Weighted(Taps(c, i, p), m, |m|)
  }

  ghost function Nothing(c: Clean): (r: Images)
    ensures c.Sized(r)
  {
    seq(c.Count(), _ => seq(c.Pixels(), _ => 0.0))
  }

  lemma {:induction false} WeightedAdds(taps: nat -> real, m: seq<real>, q: nat, v: real, n: nat)
    requires n <= |m| && q < |m|
    ensures Weighted(taps, m[q := m[q] + v], n) == Weighted(taps, m, n) + if q < n then taps(q) * v else 0.0
  {
    if n > 0 {
      WeightedAdds(taps, m, q, v, n - 1);
      if q == n - 1 {
        assert taps(q) * (m[q] + v) == taps(q) * m[q] + taps(q) * v;
      }
    }
  }

  lemma {:induction false} WeightedNothing(taps: nat -> real, m: seq<real>, n: nat)
    requires n <= |m| && forall k :: 0 <= k < |m| ==> m[k] == 0.0
    ensures Weighted(taps, m, n) == 0.0
  {
    if n > 0 {
      WeightedNothing(taps, m, n - 1);
    }
  }

  lemma SubtractAt(c: Clean, d: Images, q: nat, i: nat, p: nat)
    requires c.Valid() && c.Sized(d) && q < c.Pixels() && i < c.Count() && p < c.Pixels()
    ensures c.Subtract(d, q)[i][p] == d[i][p] - Taps(c, i, p)(q) * c.Component(d, q)[i]
  {
  }

  /**
   * What a component takes from a pixel of image i at an offset from it: its value times the PSF of that image, whose
   * centre is at the component.  The loop on the whole image leaves out the last column or row of an odd PSF.
   */
  ghost predicate PixelTaken(c: Clean, i: nat, dx: int, dy: int, was: real, now: real, value: real)
    requires c.Valid() && i < c.Count()
  {
    var x, y := dx + c.width / 2, dy + c.height / 2;
    var usedWidth := if c.way.WholeImage? then c.width / 2 * 2 else c.width;
    var usedHeight := if c.way.WholeImage? then c.height / 2 * 2 else c.height;
    if 0 <= x < usedWidth && 0 <= y < usedHeight then
      RowMajor.Fits(c.width, c.height, x, y);
      now == was - c.psfs[c.psfIndex[i]][y * c.width + x] * value
    else now == was
  }

  /** The component that is taken from pixel (x, y): the gain of the spectrum fitted, or the fit of its gain. */
  predicate IsComponent(c: Clean, spectrum: seq<real>, x: nat, y: nat, values: seq<real>) {
    |values| == |spectrum| &&
    if c.way.WholeImage? then
      |c.fit(spectrum, x, y)| == |values| &&
      forall i :: 0 <= i < |values| ==> values[i] == c.fit(spectrum, x, y)[i] * c.gain
    else values == c.fit(seq(|spectrum|, i requires 0 <= i < |spectrum| => spectrum[i] * c.gain), x, y)
  }

  lemma ComponentIs(c: Clean, e: Images, q: nat, x: nat, y: nat)
    requires c.Valid() && c.Sized(e) && q < c.Pixels() && x < c.width && y < c.height && q == y * c.width + x
    ensures IsComponent(c, c.Column(e, q), x, y, c.Component(e, q))
  {
    RowMajor.Splits(c.width, x, y);
  }

  /** A component at (qx, qy) takes from the pixel at (x, y) what the PSF has at their offset. */
  lemma PixelLoses(c: Clean, e: Images, q: nat, qx: nat, qy: nat, i: nat, p: nat, x: nat, y: nat)
    requires c.Valid() && c.Sized(e) && i < c.Count() && q < c.Pixels() && p < c.Pixels()
    requires qx < c.width && x < c.width && q == qy * c.width + qx && p == y * c.width + x
    ensures PixelTaken(c, i, x - qx, y - qy, e[i][p], c.Subtract(e, q)[i][p], c.Component(e, q)[i])
  {
    RowMajor.Splits(c.width, qx, qy);
    RowMajor.Splits(c.width, x, y);
    SubtractAt(c, e, q, i, p);
  }

  lemma OneMore(taps: nat -> real, start: real, before: real, after: real, m: seq<real>, q: nat, v: real)
    requires q < |m| && before == start - Weighted(taps, m, |m|) && after == before - taps(q) * v
    ensures after == start - Weighted(taps, m[q := m[q] + v], |m|)
  {
    WeightedAdds(taps, m, q, v, |m|);
  }

  lemma AddToAt(c: Clean, m: Images, v: seq<real>, q: nat, i: nat)
    requires c.Sized(m) && |v| == c.Count() && q < c.Pixels() && i < c.Count()
    ensures c.AddTo(m, v, q)[i] == m[i][q := m[i][q] + v[i]]
  {
  }

  lemma ResidualStep(c: Clean, start: real, e: Images, m: Images, q: nat, i: nat, p: nat, e': Images, m': Images)
    requires c.Valid() && c.Sized(e) && c.Sized(m) && q < c.Pixels() && i < c.Count() && p < c.Pixels()
    requires e[i][p] == start - Weighted(Taps(c, i, p), m[i], |m[i]|)
    requires e' == c.Subtract(e, q) && m' == c.AddTo(m, c.Component(e, q), q)
    ensures e'[i][p] == start - Weighted(Taps(c, i, p), m'[i], |m'[i]|)
  {
    var v := c.Component(e, q);
    SubtractAt(c, e, q, i, p);
    AddToAt(c, m, v, q, i);
    OneMore(Taps(c, i, p), start, e[i][p], e'[i][p], m[i], q, v[i]);
  }

  /** Subtracting components one by one leaves the dirty image minus the convolved model of the run. */
  lemma {:induction false} ResidualIsDirtyMinusModel(c: Clean, d: Images, peaks: seq<nat>, i: nat, p: nat)
    requires c.Valid() && c.Sized(d) && c.Peaks(peaks) && i < c.Count() && p < c.Pixels()
    ensures c.Dirty(d, peaks)[i][p] == d[i][p] - Convolved(c, i, c.Model(Nothing(c), d, peaks)[i], p)
    decreases |peaks|
  {
    if peaks == [] {
      WeightedNothing(Taps(c, i, p), Nothing(c)[i], c.Pixels());
    } else {
      var before, q := peaks[..|peaks| - 1], peaks[|peaks| - 1];
      ResidualIsDirtyMinusModel(c, d, before, i, p);
      ResidualStep(c, d[i][p], c.Dirty(d, before), c.Model(Nothing(c), d, before), q, i, p, c.Dirty(d, peaks),
          c.Model(Nothing(c), d, peaks));
    }
  }

  /** The model of a run is the starting model plus what the run adds to an empty one. */
  lemma {:induction false} ModelAdds(c: Clean, m: Images, d: Images, peaks: seq<nat>, i: nat, p: nat)
    requires c.Valid() && c.Sized(m) && c.Sized(d) && c.Peaks(peaks) && i < c.Count() && p < c.Pixels()
    ensures c.Model(m, d, peaks)[i][p] == m[i][p] + c.Model(Nothing(c), d, peaks)[i][p]
    decreases |peaks|
  {
    if peaks != [] {
      ModelAdds(c, m, d, peaks[..|peaks| - 1], i, p);
    }
  }
}
