/**
 * One major iteration of GenericClean (deconvolution/genericclean.cpp): the plain loop, and the loop
 * through SubMinorLoop (deconvolution/subminorloop.cpp).  An image set is a buffer with one row per image.
 */
module GenericClean {
  import opened Common
  import RowMajor
  import opened PeakFinder
  import S = SimpleClean
  import opened CleanRuns

  ghost function Contents(a: array2<real>): Images
    reads a
  {
    S.Images(a)
  }

  ghost predicate Fits(c: Clean, a: array2<real>) {
    a.Length0 == c.Count() && a.Length1 == c.Pixels()
  }

  /** The integrated image, with the noise weights applied. */
  method Integrate(c: Clean, dirtySet: array2<real>) returns (integrated: seq<real>)
    requires c.Valid() && Fits(c, dirtySet)
    ensures integrated == c.Integrated(Contents(dirtySet))
  {
    integrated := [];
    for p := 0 to dirtySet.Length1
      invariant |integrated| == p && forall k :: 0 <= k < p ==> integrated[k] == c.Value(Contents(dirtySet), k)
    {
      var column := ReadColumn(c, dirtySet, p);
      integrated := integrated + [c.integrate(column) * if c.rms.Some? then c.rms.value[p] else 1.0];
    }
  }

  method ReadColumn(c: Clean, set_: array2<real>, p: nat) returns (column: seq<real>)
    requires Fits(c, set_) && p < set_.Length1
    ensures c.Sized(Contents(set_)) && column == c.Column(Contents(set_), p)
  {
    column := [];
    for i := 0 to set_.Length0
      invariant |column| == i && forall k :: 0 <= k < i ==> column[k] == set_[k, p]
    {
      column := column + [set_[i, p]];
    }
  }

  /** findPeak: with vector instructions, one after the other, or under the mask. */
  method FindPeak(c: Clean, dirtySet: array2<real>) returns (peak: Option<Peak>)
    requires c.Valid() && Fits(c, dirtySet)
    ensures c.Sized(Contents(dirtySet)) && c.Finds(Contents(dirtySet), peak)
  {
    var integrated := Integrate(c, dirtySet);
    var s := Search(integrated, c.width, c.height, c.allowNegative, 0, c.height, c.horizontalBorder, c.verticalBorder,
        c.mask);
    if c.mask.Some? {
      peak := FindWithMask(s);
    } else if c.lanes > 0 {
      var found := Vectorised(s, c.lanes);
      peak := Some(found);
      FoundByVectors(c, Contents(dirtySet), found);
    } else {
      peak := Simple(s);
    }
  }

  lemma FoundByVectors(c: Clean, d: Images, r: Peak)
    requires c.Valid() && c.Sized(d) && c.mask.None? && c.lanes > 0 && FindsVectorised(c.SearchOf(d), r)
    ensures c.Finds(d, Some(r))
  {
    if c.Dark(d) && c.SearchOf(d).Finds(Some(r)) {
      FindsOne(c.SearchOf(d), None, Some(r));
    }
  }

  /** What a component takes from all pixels of all images. */
  ghost function Taken(c: Clean, v: seq<real>, q: nat): (r: Images)
    requires c.Valid() && |v| == c.Count() && q < c.Pixels()
    ensures c.Sized(r)
  {
    seq(c.Count(), i requires 0 <= i < c.Count() =>
      seq(c.Pixels(), p requires 0 <= p < c.Pixels() => c.Kernel(i, p, q) * v[i]))
  }

  /** One sequence less another. */
  ghost function Minus(a: seq<real>, b: seq<real>): (r: seq<real>)
    requires |a| == |b|
    ensures |r| == |a|
  {
    seq(|a|, p requires 0 <= p < |a| => a[p] - b[p])
  }

  /** The first n images with a component subtracted, the others as they were. */
  ghost function Partly(c: Clean, d: Images, v: seq<real>, q: nat, n: nat): (r: Images)
    requires c.Valid() && c.Sized(d) && |v| == c.Count() && q < c.Pixels()
    ensures c.Sized(r)
  {
    PartlyMinus(d, Taken(c, v, q), n)
  }

  ghost function PartlyMinus(d: Images, taken: Images, n: nat): (r: Images)
    requires |d| == |taken| && forall i :: 0 <= i < |d| ==> |d[i]| == |taken[i]|
    ensures |r| == |d| && forall i :: 0 <= i < |r| ==> |r[i]| == |d[i]|
  {
    seq(|d|, i requires 0 <= i < |d| => if i < n then Minus(d[i], taken[i]) else d[i])
  }

  lemma MinusAt(d: Images, taken: Images, i: nat, k: nat, p: nat)
    requires |d| == |taken| && forall j :: 0 <= j < |d| ==> |d[j]| == |taken[j]|
    requires k < |d| && p < |d[k]|
    ensures PartlyMinus(d, taken, i + 1)[k][p] ==
              PartlyMinus(d, taken, i)[k][p] - if k == i then taken[k][p] else 0.0
  {
  }

  lemma TakenAt(c: Clean, v: seq<real>, q: nat, i: nat, p: nat)
    requires c.Valid() && |v| == c.Count() && q < c.Pixels() && i < c.Count() && p < c.Pixels()
    ensures Taken(c, v, q)[i][p] == c.Kernel(i, p, q) * v[i]
  {
  }

  /** All images with a component subtracted. */
  lemma PartlyAll(c: Clean, d: Images, q: nat)
    requires c.Valid() && c.Sized(d) && q < c.Pixels()
    ensures Partly(c, d, c.Component(d, q), q, c.Count()) == c.Subtract(d, q)
  {
    var v := c.Component(d, q);
    var all, after := Partly(c, d, v, q, c.Count()), c.Subtract(d, q);
    forall i | 0 <= i < c.Count() ensures all[i] == after[i] {
      forall p | 0 <= p < c.Pixels() ensures all[i][p] == after[i][p] {
        TakenAt(c, v, q, i, p);
        SubtractAt(c, d, q, i, p);
      }
    }
  }

  /** Pixel p is the one at (x, y). */
  predicate IsPixel(c: Clean, p: nat, x: nat, y: nat)
    requires c.Valid()
  {
    x < c.width && y < c.height && p == y * c.width + x && p < c.Pixels()
  }

  lemma PixelAt(c: Clean, p: nat) returns (x: nat, y: nat)
    requires c.Valid() && p < c.Pixels()
    ensures 0 < c.width && x == p % c.width && y == p / c.width && IsPixel(c, p, x, y)
  {
    RowMajor.Joins(c.width, c.height, p);
    x, y := p % c.width, p / c.width;
  }

  lemma KernelAt(c: Clean, i: nat, p: nat, x: nat, y: nat, q: nat, qx: nat, qy: nat)
    requires c.Valid() && c.way.WholeImage? && i < c.Count() && IsPixel(c, p, x, y) && IsPixel(c, q, qx, qy)
    ensures c.Kernel(i, p, q) == S.WindowAt(c.Psf(i), c.width, c.height, x - qx, y - qy)
  {
    RowMajor.Splits(c.width, x, y);
    RowMajor.Splits(c.width, qx, qy);
  }

  /** What subtracting a component at (x, y) from image i is as a job. */
  function JobOf(c: Clean, i: nat, x: nat, y: nat, factor: real): S.Job
    requires c.Valid() && i < c.Count()
  {
    S.Job(i, c.width, c.height, c.Psf(i), c.width, c.height, x, y, factor)
  }

  /** One subtraction takes the PSF values in the window. */
  lemma JobPixel(c: Clean, i: nat, q: nat, x: nat, y: nat, factor: real, was: Images, now: Images, k: nat, p: nat)
    requires c.Valid() && c.way.WholeImage? && i < c.Count() && IsPixel(c, q, x, y)
    requires c.Sized(was) && c.Sized(now) && JobOf(c, i, x, y, factor).Done(was, now, 0, c.height) && k < c.Count() &&
             p < c.Pixels()
    ensures now[k][p] == was[k][p] - if k == i then c.Kernel(i, p, q) * factor else 0.0
  {
    var px, py := PixelAt(c, p);
    var j := JobOf(c, i, x, y, factor);
    KernelAt(c, i, p, px, py, q, x, y);
    S.DoneAt(j, was, now, k, p, px, py);
  }

  lemma JobStep(c: Clean, d: Images, v: seq<real>, q: nat, x: nat, y: nat, i: nat, was: Images, now: Images, k: nat,
                p: nat)
    requires c.Valid() && c.way.WholeImage? && c.Sized(d) && |v| == c.Count() && IsPixel(c, q, x, y) && i < c.Count()
    requires was == Partly(c, d, v, q, i) && c.Sized(now) && JobOf(c, i, x, y, v[i]).Done(was, now, 0, c.height)
    requires k < c.Count() && p < c.Pixels()
    ensures now[k][p] == Partly(c, d, v, q, i + 1)[k][p]
  {
    JobPixel(c, i, q, x, y, v[i], was, now, k, p);
    MinusAt(d, Taken(c, v, q), i, k, p);
    TakenAt(c, v, q, i, p);
  }

  lemma JobSubtracts(c: Clean, d: Images, v: seq<real>, q: nat, x: nat, y: nat, i: nat, was: Images, now: Images)
    requires c.Valid() && c.way.WholeImage? && c.Sized(d) && |v| == c.Count() && IsPixel(c, q, x, y) && i < c.Count()
    requires was == Partly(c, d, v, q, i) && c.Sized(now) && JobOf(c, i, x, y, v[i]).Done(was, now, 0, c.height)
    ensures now == Partly(c, d, v, q, i + 1)
  {
    var next := Partly(c, d, v, q, i + 1);
    forall k | 0 <= k < c.Count() ensures now[k] == next[k] {
      forall p | 0 <= p < c.Pixels() ensures now[k][p] == next[k][p] {
        JobStep(c, d, v, q, x, y, i, was, now, k, p);
      }
    }
  }

  method SubtractFromImage(c: Clean, dirtySet: array2<real>, q: nat, values: seq<real>, i: nat, ghost d: Images,
          threadCount: nat)
    requires c.Valid() && c.way.WholeImage? && Fits(c, dirtySet) && q < c.Pixels() && threadCount > 0
    requires c.Sized(d) && |values| == c.Count() && i < c.Count() && Contents(dirtySet) == Partly(c, d, values, q, i)
    modifies dirtySet
    ensures Contents(dirtySet) == Partly(c, d, values, q, i + 1)
  {
    ghost var was := Contents(dirtySet);
    ghost var qx, qy := PixelAt(c, q);
    var x, y := q % c.width, q / c.width;
    S.SubtractImage(dirtySet, JobOf(c, i, x, y, values[i]), threadCount);
    JobSubtracts(c, d, values, q, x, y, i, was, Contents(dirtySet));
  }

  /** A component with the given values at pixel q has been taken from all pixels of all images. */
  ghost predicate ComponentTaken(c: Clean, was: Images, now: Images, q: nat, values: seq<real>)
    requires c.Valid() && c.Sized(was) && c.Sized(now) && q < c.Pixels() && |values| == c.Count() && 0 < c.width
  {
    forall i: nat, p: nat {:trigger now[i][p]} :: i < c.Count() && p < c.Pixels() ==>
      PixelTaken(c, i, p % c.width - q % c.width, p / c.width - q / c.width, was[i][p], now[i][p], values[i])
  }

  lemma SubtractTakes(c: Clean, e: Images, q: nat)
    requires c.Valid() && c.Sized(e) && q < c.Pixels()
    ensures 0 < c.width && ComponentTaken(c, e, c.Subtract(e, q), q, c.Component(e, q))
  {
    ghost var qx, qy := PixelAt(c, q);
    forall i: nat, p: nat | i < c.Count() && p < c.Pixels()
      ensures PixelTaken(c, i, p % c.width - q % c.width, p / c.width - q / c.width, e[i][p], c.Subtract(e, q)[i][p],
                  c.Component(e, q)[i])
    {
      var x, y := PixelAt(c, p);
      PixelLoses(c, e, q, qx, qy, i, p, x, y);
    }
  }

  method SubtractComponent(c: Clean, dirtySet: array2<real>, q: nat, values: seq<real>, threadCount: nat)
    requires c.Valid() && c.way.WholeImage? && Fits(c, dirtySet) && q < c.Pixels() && threadCount > 0
    requires values == c.Component(Contents(dirtySet), q)
    modifies dirtySet
    ensures Contents(dirtySet) == c.Subtract(old(Contents(dirtySet)), q)
    ensures 0 < c.width && ComponentTaken(c, old(Contents(dirtySet)), Contents(dirtySet), q, values)
  {
    ghost var d := Contents(dirtySet);
    assert Contents(dirtySet) == Partly(c, d, values, q, 0);
    for i := 0 to |c.psfIndex|
      invariant Contents(dirtySet) == Partly(c, d, values, q, i)
    {
      SubtractFromImage(c, dirtySet, q, values, i, d, threadCount);
    }
    PartlyAll(c, d, q);
    SubtractTakes(c, d, q);
  }

  method AddComponent(c: Clean, modelSet: array2<real>, q: nat, values: seq<real>)
    requires Fits(c, modelSet) && q < c.Pixels() && |values| == c.Count()
    modifies modelSet
    ensures c.Sized(old(Contents(modelSet))) && Contents(modelSet) == c.AddTo(old(Contents(modelSet)), values, q)
  {
    ghost var m := Contents(modelSet);
    for i := 0 to modelSet.Length0
      invariant forall k: nat, p: nat {:trigger modelSet[k, p]} :: k < modelSet.Length0 && p < modelSet.Length1 ==>
        modelSet[k, p] == if k < i && p == q then m[k][p] + values[k] else m[k][p]
    {
      modelSet[i, q] := modelSet[i, q] + values[i];
    }
    assert Contents(modelSet) == c.AddTo(m, values, q) by {
      forall k | 0 <= k < c.Count() ensures Contents(modelSet)[k] == c.AddTo(m, values, q)[k] {
      }
    }
  }

  /** The component at a peak: the fitted spectrum times the gain. */
  method PeakValues(c: Clean, dirtySet: array2<real>, q: nat) returns (values: seq<real>)
    requires c.Valid() && c.way.WholeImage? && Fits(c, dirtySet) && q < c.Pixels()
    ensures c.Sized(Contents(dirtySet)) && values == c.Component(Contents(dirtySet), q)
    ensures 0 < c.width && IsComponent(c, c.Column(Contents(dirtySet), q), q % c.width, q / c.width, values)
  {
    var column := ReadColumn(c, dirtySet, q);
    RowMajor.Joins(c.width, c.height, q);
    var fitted := c.fit(column, q % c.width, q / c.width);
    values := Scale(c.gain, fitted);
    ComponentIs(c, Contents(dirtySet), q, q % c.width, q / c.width);
  }

  /** A run of the plain loop that may still go on. */
  ghost predicate PlainSoFar(c: Clean, d: Images, iteration: nat, peaks: seq<nat>) {
    c.Valid() && c.Sized(d) && c.Peaks(peaks) &&
    forall k {:trigger c.PlainStep(d, iteration, peaks, k)} :: 0 <= k < |peaks| ==>
      c.PlainStep(d, iteration, peaks, k)
  }

  lemma RunGrows(c: Clean, d: Images, iteration: nat, peaks: seq<nat>, q: nat)
    requires PlainSoFar(c, d, iteration, peaks) && q < c.Pixels()
    requires c.At(|peaks|).PlainGoesOn(c.Dirty(d, peaks), iteration + |peaks|, q)
    ensures PlainSoFar(c, d, iteration, peaks + [q])
  {
    forall k | 0 <= k < |peaks| + 1 ensures c.PlainStep(d, iteration, peaks + [q], k) {
      if k < |peaks| {
        assert c.PlainStep(d, iteration, peaks, k);
        assert (peaks + [q])[..k] == peaks[..k];
      } else {
        assert (peaks + [q])[..k] == peaks;
      }
    }
  }

  /** A component appended to a run. */
  lemma RunAppends(c: Clean, m: Images, d: Images, peaks: seq<nat>, q: nat)
    requires c.Valid() && c.Sized(m) && c.Sized(d) && c.Peaks(peaks) && q < c.Pixels()
    ensures c.Peaks(peaks + [q])
    ensures c.Dirty(d, peaks + [q]) == c.Subtract(c.Dirty(d, peaks), q)
    ensures c.Model(m, d, peaks + [q]) == c.AddTo(c.Model(m, d, peaks), c.Component(c.Dirty(d, peaks), q), q)
  {
    assert (peaks + [q])[..|peaks|] == peaks;
  }

  /** The component of pixel q has been added to the model there, and its PSFs have been taken from the residual. */
  ghost predicate PeakTaken(c: Clean, q: nat, was: Images, now: Images, modelWas: Images, model: Images) {
    c.Valid() && c.Sized(was) && c.Sized(now) && c.Sized(modelWas) && c.Sized(model) && q < c.Pixels() && 0 < c.width &&
    exists values: seq<real> {:trigger ComponentTaken(c, was, now, q, values)} ::
      IsComponent(c, c.Column(was, q), q % c.width, q / c.width, values) && ComponentTaken(c, was, now, q, values) &&
      forall i: nat, p: nat {:trigger model[i][p]} :: i < c.Count() && p < c.Pixels() ==>
        model[i][p] == modelWas[i][p] + if p == q then values[i] else 0.0
  }

  lemma PeakIsTaken(c: Clean, q: nat, e: Images, m: Images)
    requires c.Valid() && c.Sized(e) && c.Sized(m) && q < c.Pixels()
    ensures PeakTaken(c, q, e, c.Subtract(e, q), m, c.AddTo(m, c.Component(e, q), q))
  {
    var x, y := PixelAt(c, q);
    SubtractTakes(c, e, q);
    ComponentIs(c, e, q, x, y);
  }

  /** One iteration of the plain loop: clean the pixel that the peak is at. */
  method CleanPeak(c: Clean, dirtySet: array2<real>, modelSet: array2<real>, peakIndex: nat, threadCount: nat)
    requires c.Valid() && c.way.WholeImage? && Fits(c, dirtySet) && Fits(c, modelSet) && dirtySet != modelSet
    requires peakIndex < c.Pixels() && threadCount > 0
    modifies dirtySet, modelSet
    ensures Contents(dirtySet) == c.Subtract(old(Contents(dirtySet)), peakIndex)
    ensures Contents(modelSet) == c.AddTo(old(Contents(modelSet)), c.Component(old(Contents(dirtySet)), peakIndex),
            peakIndex)
    ensures PeakTaken(c, peakIndex, old(Contents(dirtySet)), Contents(dirtySet), old(Contents(modelSet)),
              Contents(modelSet))
  {
    var values := PeakValues(c, dirtySet, peakIndex);
    AddComponent(c, modelSet, peakIndex, values);
    SubtractComponent(c, dirtySet, peakIndex, values, threadCount);
    PeakIsTaken(c, peakIndex, old(Contents(dirtySet)), old(Contents(modelSet)));
  }

  lemma PlainEnds(c: Clean, d: Images, iteration: nat, peak: Option<Peak>)
    requires c.Valid() && c.Sized(d) && c.Finds(d, peak)
    requires peak.None? || !c.Continues(peak.value.value, iteration)
    ensures c.PlainStops(d, iteration)
  {
    forall r: Peak | c.Finds(d, Some(r)) ensures !c.Continues(r.value, iteration) {
      FoundOnce(c, d, peak, Some(r));
    }
  }

  lemma GoesOnWith(c: Clean, e: Images, iteration: nat, r: Peak) returns (q: nat)
    requires c.Valid() && c.Sized(e) && c.Finds(e, Some(r)) && c.Continues(r.value, iteration)
    ensures q == r.x + r.y * c.width < c.Pixels() && c.PlainGoesOn(e, iteration, q)
  {
    FoundInside(c, e, r);
    q := r.x + r.y * c.width;
    assert q == r.y * c.width + r.x;
  }

  /** The run with the pixel of a found peak appended. */
  lemma NextRun(c: Clean, d: Images, m: Images, iteration0: nat, peaks: seq<nat>, r: Peak) returns (more: seq<nat>)
    requires PlainSoFar(c, d, iteration0, peaks) && c.Sized(m)
    requires c.At(|peaks|).Finds(c.Dirty(d, peaks), Some(r)) && c.Continues(r.value, iteration0 + |peaks|)
    ensures PlainSoFar(c, d, iteration0, more) && |more| == |peaks| + 1
    ensures 0 <= r.x + r.y * c.width && Extends(c, d, m, peaks, r.x + r.y * c.width, more)
  {
    var q := GoesOnWith(c.At(|peaks|), c.Dirty(d, peaks), iteration0 + |peaks|, r);
    RunGrows(c, d, iteration0, peaks, q);
    RunAppends(c, m, d, peaks, q);
    more := peaks + [q];
  }

  /** A run, and the run with one more pixel. */
  ghost predicate Extends(c: Clean, d: Images, m: Images, peaks: seq<nat>, q: nat, more: seq<nat>) {
    c.Valid() && c.Sized(d) && c.Sized(m) && c.Peaks(peaks) && c.Peaks(more) && q < c.Pixels() &&
    c.Dirty(d, more) == c.Subtract(c.Dirty(d, peaks), q) &&
    c.Model(m, d, more) == c.AddTo(c.Model(m, d, peaks), c.Component(c.Dirty(d, peaks), q), q)
  }

  /** The buffers show the residual and the model of a run. */
  ghost predicate Shows(c: Clean, d: Images, m: Images, peaks: seq<nat>, dirtySet: array2<real>,
                        modelSet: array2<real>)
    reads dirtySet, modelSet
  {
    c.Valid() && c.Sized(d) && c.Sized(m) && c.Peaks(peaks) &&
    Contents(dirtySet) == c.Dirty(d, peaks) && Contents(modelSet) == c.Model(m, d, peaks)
  }

  /** Cleans one more pixel of a run. */
  method CleanNext(c: Clean, dirtySet: array2<real>, modelSet: array2<real>, peakIndex: nat, threadCount: nat,
                   ghost d: Images, ghost m: Images, ghost peaks: seq<nat>, ghost more: seq<nat>)
    requires c.way.WholeImage? && Fits(c, dirtySet) && Fits(c, modelSet) && dirtySet != modelSet && threadCount > 0
    requires Extends(c, d, m, peaks, peakIndex, more)
    requires Shows(c, d, m, peaks, dirtySet, modelSet)
    modifies dirtySet, modelSet
    ensures Shows(c, d, m, more, dirtySet, modelSet)
  {
    CleanPeak(c, dirtySet, modelSet, peakIndex, threadCount);
  }

  /** Cleans the peak that a loop test has found, and searches for the next one. */
  method PlainIteration(c: Clean, dirtySet: array2<real>, modelSet: array2<real>, peak: Peak, threadCount: nat,
                        ghost d: Images, ghost m: Images, ghost iteration0: nat, ghost peaks: seq<nat>)
    returns (next: Option<Peak>, ghost more: seq<nat>)
    requires c.way.WholeImage? && Fits(c, dirtySet) && Fits(c, modelSet) && dirtySet != modelSet && threadCount > 0
    requires PlainSoFar(c, d, iteration0, peaks) && Shows(c, d, m, peaks, dirtySet, modelSet)
    requires c.At(|peaks|).Finds(Contents(dirtySet), Some(peak)) && c.Continues(peak.value, iteration0 + |peaks|)
    modifies dirtySet, modelSet
    ensures PlainSoFar(c, d, iteration0, more) && |more| == |peaks| + 1 && Shows(c, d, m, more, dirtySet, modelSet)
    ensures c.At(|more|).Finds(Contents(dirtySet), next)
  {
    more := NextRun(c, d, m, iteration0, peaks, peak);
    var peakIndex: nat := peak.x + peak.y * c.width;
    CleanNext(c, dirtySet, modelSet, peakIndex, threadCount, d, m, peaks, more);
    next := FindPeak(c.At(1), dirtySet);
  }

  /** The plain clean loop; `last` is the peak that it ends with. */
  method PlainClean(c: Clean, dirtySet: array2<real>, modelSet: array2<real>, iteration0: nat, threadCount: nat)
    returns (iteration: nat, last: Option<Peak>, ghost peaks: seq<nat>)
    requires c.Valid() && c.way.WholeImage? && Fits(c, dirtySet) && Fits(c, modelSet) && dirtySet != modelSet
    requires threadCount > 0
    modifies dirtySet, modelSet
    ensures c.PlainRun(old(Contents(dirtySet)), iteration0, peaks)
    ensures Contents(dirtySet) == c.Dirty(old(Contents(dirtySet)), peaks)
    ensures Contents(modelSet) == c.Model(old(Contents(modelSet)), old(Contents(dirtySet)), peaks)
    ensures iteration == iteration0 + |peaks| && c.At(|peaks|).Finds(Contents(dirtySet), last)
    ensures (if peaks == [] then c else c.(integrate := c.later)).Finds(Contents(dirtySet), last)
  {
    ghost var d, m := Contents(dirtySet), Contents(modelSet);
    iteration, peaks := iteration0, [];
    last := FindPeak(c, dirtySet);
    while last.Some? && c.Continues(last.value.value, iteration)
      invariant PlainSoFar(c, d, iteration0, peaks) && iteration == iteration0 + |peaks|
      invariant Shows(c, d, m, peaks, dirtySet, modelSet)
      invariant c.At(|peaks|).Finds(Contents(dirtySet), last)
      decreases c.maxIter - iteration
    {
      last, peaks := PlainIteration(c, dirtySet, modelSet, last.value, threadCount, d, m, iteration0, peaks);
      iteration := iteration + 1;
    }
    PlainEnds(c.At(|peaks|), Contents(dirtySet), iteration, last);
  }
}
