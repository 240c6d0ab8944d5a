/**
 * The sub-minor loop (deconvolution/subminorloop.cpp): a clean loop over a list of selected pixels, and
 * the correction of the full images afterwards.
 */
module SubMinorLoop {
  import opened Common
  import RowMajor
  import opened PeakFinder
  import opened CleanRuns
  import opened PaddedConvolution
  import opened GenericClean

  /** The selected pixels as flat indices. */
  function Flat(c: Clean, positions: seq<(nat, nat)>): (r: seq<nat>)
    ensures |r| == |positions|
  {
    seq(|positions|, k requires 0 <= k < |positions| => positions[k].1 * c.width + positions[k].0)
  }

  ghost predicate OnImage(c: Clean, positions: seq<(nat, nat)>) {
    forall k :: 0 <= k < |positions| ==> positions[k].0 < c.width && positions[k].1 < c.height
  }

  lemma FlatInside(c: Clean, positions: seq<(nat, nat)>)
    requires OnImage(c, positions)
    ensures c.Peaks(Flat(c, positions))
  {
    forall k | 0 <= k < |positions| ensures Flat(c, positions)[k] < c.Pixels() {
      RowMajor.Fits(c.width, c.height, positions[k].0, positions[k].1);
    }
  }

  /** The list buffer holds the selected pixels of the given images. */
  ghost predicate Holds(c: Clean, e: Images, flat: seq<nat>, list: array2<real>)
    requires c.Sized(e) && c.Peaks(flat)
    reads list
  {
    list.Length0 == c.Count() && list.Length1 == |flat| &&
    forall i: nat, k: nat {:trigger list[i, k]} :: i < c.Count() && k < |flat| ==> list[i, k] == e[i][flat[k]]
  }

  /** The pixels before (ex, ey) in row-major order that the selection has to contain. */
  ghost predicate SelectedUpTo(c: Clean, d: Images, positions: seq<(nat, nat)>, ex: int, ey: int)
    requires c.Valid() && c.Sized(d)
  {
    var s := c.SearchOf(d);
    (forall x: nat, y: nat {:trigger (x, y) in positions} :: (x, y) in positions <==>
       s.Considered(x, y) && s.Before(x, y, ex, ey) && s.Level(x, y) >= c.threshold) &&
    forall j, k :: 0 <= j < k < |positions| ==> s.Before(positions[j].0, positions[j].1, positions[k].0, positions[k].1)
  }

  lemma SelectNext(c: Clean, d: Images, positions: seq<(nat, nat)>, x: nat, y: nat)
    requires c.Valid() && c.Sized(d) && c.SearchOf(d).Inside(x, y) && SelectedUpTo(c, d, positions, x, y)
    ensures var s := c.SearchOf(d);
            if s.Masked(x, y) && s.Level(x, y) >= c.threshold then SelectedUpTo(c, d, positions + [(x, y)], x + 1, y)
            else SelectedUpTo(c, d, positions, x + 1, y)
  {
    var s := c.SearchOf(d);
    if s.Masked(x, y) && s.Level(x, y) >= c.threshold {
      var p := positions + [(x, y)];
      forall j, k | 0 <= j < k < |p| ensures s.Before(p[j].0, p[j].1, p[k].0, p[k].1) {
        if k == |positions| {
          assert p[j] in positions && p[j] == (p[j].0, p[j].1);
        }
      }
    }
  }

  lemma SelectNextRow(c: Clean, d: Images, positions: seq<(nat, nat)>, y: nat)
    requires c.Valid() && c.Sized(d) && SelectedUpTo(c, d, positions, c.SearchOf(d).X1(), y)
    ensures SelectedUpTo(c, d, positions, c.SearchOf(d).X0(), y + 1)
  {
  }

  lemma SelectionDone(c: Clean, d: Images, positions: seq<(nat, nat)>)
    requires c.Valid() && c.Sized(d) && SelectedUpTo(c, d, positions, c.SearchOf(d).X0(), c.SearchOf(d).Y1())
    ensures OnImage(c, positions) && c.Selection(d, Flat(c, positions))
  {
    var s, flat := c.SearchOf(d), Flat(c, positions);
    forall k | 0 <= k < |positions| ensures positions[k].0 < c.width && positions[k].1 < c.height {
      assert positions[k] in positions && positions[k] == (positions[k].0, positions[k].1);
    }
    FlatInside(c, positions);
    forall j, k | 0 <= j < k < |flat| ensures flat[j] < flat[k] {
      RowMajor.Order(c.width, positions[j].0, positions[j].1, positions[k].0, positions[k].1);
    }
    forall p: nat | p in flat ensures p < c.Pixels() && c.ConsideredAt(d, p) &&
      c.Strength(c.Value(d, p)) >= c.threshold {
      var k :| 0 <= k < |flat| && flat[k] == p;
      assert positions[k] in positions && positions[k] == (positions[k].0, positions[k].1);
      RowMajor.Splits(c.width, positions[k].0, positions[k].1);
      FlatAt(c, d, p);
    }
    forall p: nat | p < c.Pixels() && c.ConsideredAt(d, p) && c.Strength(c.Value(d, p)) >= c.threshold
      ensures p in flat {
      FlatAt(c, d, p);
      RowMajor.Joins(c.width, c.height, p);
      assert s.Before(p % c.width, p / c.width, s.X0(), s.Y1());
      assert (p % c.width, p / c.width) in positions;
      var k :| 0 <= k < |positions| && positions[k] == (p % c.width, p / c.width);
      assert flat[k] == p;
    }
  }

  /** findPeakPositions: the pixels inside the borders and the mask whose strength reaches the threshold. */
  method FindPeakPositions(c: Clean, convolvedResidual: array2<real>) returns (positions: seq<(nat, nat)>)
    requires c.Valid() && Fits(c, convolvedResidual)
    ensures c.Sized(Contents(convolvedResidual)) && OnImage(c, positions)
    ensures c.Selection(Contents(convolvedResidual), Flat(c, positions))
  {
    var integrated := Integrate(c, convolvedResidual);
    ghost var d := Contents(convolvedResidual);
    var s := Search(integrated, c.width, c.height, c.allowNegative, 0, c.height, c.horizontalBorder, c.verticalBorder,
        c.mask);
    positions := [];
    var y := s.Y0();
    while y != s.Y1()
      invariant s.Y0() <= y <= s.Y1() && SelectedUpTo(c, d, positions, s.X0(), y)
    {
      var x := s.X0();
      while x != s.X1()
        invariant s.X0() <= x <= s.X1() && SelectedUpTo(c, d, positions, x, y)
      {
        SelectNext(c, d, positions, x, y);
        RowMajor.Fits(c.width, c.height, x, y);
        var value := integrated[y * c.width + x];
        if c.allowNegative { value := Abs(value); }
        if value >= c.threshold && (c.mask.None? || c.mask.value[y * c.width + x]) {
          positions := positions + [(x, y)];
        }
        x := x + 1;
      }
      SelectNextRow(c, d, positions, y);
      y := y + 1;
    }
    SelectionDone(c, d, positions);
  }

  /** The flux that component q of an image cleans. */
  function FluxOf(c: Clean, e: Images, q: nat): real
    requires c.Valid() && c.Sized(e) && q < c.Pixels()
  {
    c.Value(e, q) * c.gain
  }

  /** The total flux that a run cleans. */
  ghost function Flux(c: Clean, d: Images, peaks: seq<nat>): real
    requires c.Valid() && c.Sized(d) && c.Peaks(peaks)
  {
    if peaks == [] then 0.0
    else
      var before := peaks[..|peaks| - 1];
      Flux(c, d, before) + FluxOf(c, c.Dirty(d, before), peaks[|peaks| - 1])
  }

  lemma ListColumn(c: Clean, e: Images, flat: seq<nat>, list: array2<real>, k: nat, column: seq<real>)
    requires c.Sized(e) && c.Peaks(flat) && Holds(c, e, flat, list) && k < |flat|
    requires |column| == c.Count() && forall i :: 0 <= i < c.Count() ==> column[i] == list[i, k]
    ensures column == c.Column(e, flat[k])
  {
  }

  /** A run of the sub-minor loop that may still go on. */
  ghost predicate RunSoFar(c: Clean, d: Images, positions: seq<nat>, iteration: nat, peaks: seq<nat>) {
    c.Valid() && c.Sized(d) && c.Selection(d, positions) && c.Peaks(peaks) &&
    (forall k {:trigger peaks[k]} :: 0 <= k < |peaks| ==> peaks[k] in positions) &&
    forall k {:trigger c.SubStep(d, positions, iteration, peaks, k)} :: 0 <= k < |peaks| ==>
      c.SubStep(d, positions, iteration, peaks, k)
  }

  lemma RunSoFarGrows(c: Clean, d: Images, positions: seq<nat>, iteration: nat, peaks: seq<nat>, k: nat)
    requires RunSoFar(c, d, positions, iteration, peaks) && c.Strongest(c.Dirty(d, peaks), positions, k)
    requires c.Continues(c.Value(c.Dirty(d, peaks), positions[k]), iteration + |peaks|)
    ensures RunSoFar(c, d, positions, iteration, peaks + [positions[k]])
  {
    var q := positions[k];
    assert q in positions;
    assert (peaks + [q])[..|peaks|] == peaks;
    assert c.SubGoesOn(c.Dirty(d, peaks), positions, iteration + |peaks|, q);
    forall j | 0 <= j < |peaks| + 1 ensures c.SubStep(d, positions, iteration, peaks + [q], j) {
      if j < |peaks| {
        assert c.SubStep(d, positions, iteration, peaks, j);
        assert (peaks + [q])[..j] == peaks[..j];
      }
    }
  }

  lemma FluxGrows(c: Clean, d: Images, peaks: seq<nat>, q: nat, more: seq<nat>)
    requires c.Valid() && c.Sized(d) && c.Peaks(peaks) && q < c.Pixels() && more == peaks + [q]
    ensures c.Peaks(more) && Flux(c, d, more) == Flux(c, d, peaks) + FluxOf(c, c.Dirty(d, peaks), q)
  {
    assert more[..|more| - 1] == peaks && more[|more| - 1] == q;
  }

  lemma SubEnds(c: Clean, e: Images, positions: seq<nat>, iteration: nat, k: nat)
    requires c.Valid() && c.Sized(e) && c.Peaks(positions) && c.Strongest(e, positions, k)
    requires !c.Continues(c.Value(e, positions[k]), iteration)
    ensures c.SubStops(e, positions, iteration)
  {
    forall m: nat | c.Strongest(e, positions, m) ensures m == k {
      OneStrongest(c, e, positions, k, m);
    }
  }

  /** What the run adds to an empty model lies on the selected pixels. */
  lemma {:induction false} ModelOnSelection(c: Clean, d: Images, flat: seq<nat>, peaks: seq<nat>, i: nat, p: nat)
    requires c.Valid() && c.Sized(d) && c.Peaks(peaks) && i < c.Count() && p < c.Pixels() && p !in flat
    requires forall k :: 0 <= k < |peaks| ==> peaks[k] in flat
    ensures c.Model(Nothing(c), d, peaks)[i][p] == 0.0
    decreases |peaks|
  {
    if peaks != [] {
      ModelOnSelection(c, d, flat, peaks[..|peaks| - 1], i, p);
    }
  }

  /** What a sub-minor loop that has ended returns: the strongest selected value, or nothing if nothing was selected. */
  ghost predicate LastIs(c: Clean, e: Images, positions: seq<nat>, r: Option<real>)
    requires c.Valid() && c.Sized(e) && c.Peaks(positions)
  {
    if positions == [] then r.None?
    else exists k: nat {:trigger c.Strongest(e, positions, k)} ::
           c.Strongest(e, positions, k) && r == Some(c.Value(e, positions[k]))
  }

  /** After k selected pixels: the first strongest of them and its strength, or before any the value of the first. */
  ghost predicate StrongestSoFar(c: Clean, e: Images, flat: seq<nat>, k: nat, best: nat, value: real)
    requires c.Valid() && c.Sized(e) && c.Peaks(flat) && k <= |flat|
  {
    best < |flat| && (best < k || best == 0) &&
    (k == 0 ==> value == c.Value(e, flat[0])) && (k > 0 ==> value == c.Strength(c.Value(e, flat[best]))) &&
    (forall j {:trigger flat[j]} :: 0 <= j < k ==> c.Strength(c.Value(e, flat[j])) <= value) &&
    forall j {:trigger flat[j]} :: 0 <= j < best ==> c.Strength(c.Value(e, flat[j])) < value
  }

  lemma StrongestNext(c: Clean, e: Images, flat: seq<nat>, k: nat, best: nat, value: real, next: real)
    requires c.Valid() && c.Sized(e) && c.Peaks(flat) && k < |flat| && StrongestSoFar(c, e, flat, k, best, value)
    requires next == c.Strength(c.Value(e, flat[k]))
    ensures StrongestSoFar(c, e, flat, k + 1, if next > value then k else best, if next > value then next else value)
  {
  }

  ghost function ListOf(list: array2<real>): Images
    reads list
  {
    Contents(list)
  }

  /** The spectrum of a list pixel. */
  function Spectrum(list: Images, k: nat): (r: seq<real>)
    requires forall i :: 0 <= i < |list| ==> k < |list[i]|
    ensures |r| == |list|
  {
    seq(|list|, i requires 0 <= i < |list| => list[i][k])
  }

  ghost predicate ListSized(c: Clean, positions: seq<(nat, nat)>, list: Images) {
    |list| == c.Count() && forall i :: 0 <= i < |list| ==> |list[i]| == |positions|
  }

  /** A component at one position has been taken from the pixel of image i at another one. */
  ghost predicate TakenBetween(c: Clean, i: nat, from: (nat, nat), at: (nat, nat), was: real, now: real, value: real)
    requires c.Valid() && i < c.Count()
  {
    var x: int, y: int := at.0, at.1;
    PixelTaken(c, i, x - from.0, y - from.1, was, now, value)
  }

  /**
   * The component of selected pixel k has been added to the model of that pixel, and its PSFs have been taken from the
   * residual of all selected pixels.
   */
  ghost predicate ListTaken(c: Clean, positions: seq<(nat, nat)>, k: nat, was: Images, now: Images, modelWas: Images,
                            model: Images)
  {
    c.Valid() && k < |positions| && ListSized(c, positions, was) && ListSized(c, positions, now) &&
    ListSized(c, positions, modelWas) && ListSized(c, positions, model) &&
    exists values: seq<real> {:trigger IsComponent(c, Spectrum(was, k), positions[k].0, positions[k].1, values)} ::
      IsComponent(c, Spectrum(was, k), positions[k].0, positions[k].1, values) &&
      forall i: nat, px: nat {:trigger now[i][px]} {:trigger model[i][px]} :: i < c.Count() && px < |positions| ==>
        TakenBetween(c, i, positions[k], positions[px], was[i][px], now[i][px], values[i]) &&
        model[i][px] == modelWas[i][px] + if px == k then values[i] else 0.0
  }

  /** The list holds the selected pixels of the given images. */
  ghost predicate HoldsSeq(c: Clean, e: Images, flat: seq<nat>, list: Images) {
    c.Sized(e) && c.Peaks(flat) && |list| == c.Count() && (forall i :: 0 <= i < |list| ==> |list[i]| == |flat|) &&
    forall i: nat, k: nat {:trigger list[i][k]} :: i < c.Count() && k < |flat| ==> list[i][k] == e[i][flat[k]]
  }

  lemma ListPixelLoses(c: Clean, e: Images, i: nat, from: (nat, nat), at: (nat, nat), q: nat, p: nat)
    requires c.Valid() && c.Sized(e) && i < c.Count() && q < c.Pixels() && p < c.Pixels()
    requires from.0 < c.width && at.0 < c.width && q == from.1 * c.width + from.0 && p == at.1 * c.width + at.0
    ensures TakenBetween(c, i, from, at, e[i][p], c.Subtract(e, q)[i][p], c.Component(e, q)[i])
  {
    PixelLoses(c, e, q, from.0, from.1, i, p, at.0, at.1);
  }

  /** The lists before and after a component at selected pixel k, which is pixel q. */
  ghost predicate ListStep(c: Clean, flat: seq<nat>, k: nat, e: Images, m: Images, was: Images, now: Images,
                           modelWas: Images, model: Images)
  {
    c.Valid() && c.Sized(e) && c.Sized(m) && c.Peaks(flat) && k < |flat| &&
    HoldsSeq(c, e, flat, was) && HoldsSeq(c, c.Subtract(e, flat[k]), flat, now) && HoldsSeq(c, m, flat, modelWas) &&
    HoldsSeq(c, c.AddTo(m, c.Component(e, flat[k]), flat[k]), flat, model)
  }

  lemma ListStepAt(c: Clean, positions: seq<(nat, nat)>, k: nat, e: Images, m: Images, was: Images, now: Images,
                   modelWas: Images, model: Images, i: nat, px: nat)
    requires OnImage(c, positions) && ListStep(c, Flat(c, positions), k, e, m, was, now, modelWas, model)
    requires i < c.Count() && px < |positions| && (px != k ==> Flat(c, positions)[px] != Flat(c, positions)[k])
    ensures var values := c.Component(e, Flat(c, positions)[k]);
            TakenBetween(c, i, positions[k], positions[px], was[i][px], now[i][px], values[i]) &&
            model[i][px] == modelWas[i][px] + if px == k then values[i] else 0.0
  {
    var flat := Flat(c, positions);
    ListPixelLoses(c, e, i, positions[k], positions[px], flat[k], flat[px]);
    AddToAt(c, m, c.Component(e, flat[k]), flat[k], i);
    assert was[i][px] == e[i][flat[px]] && now[i][px] == c.Subtract(e, flat[k])[i][flat[px]];
    assert modelWas[i][px] == m[i][flat[px]];
    assert model[i][px] == c.AddTo(m, c.Component(e, flat[k]), flat[k])[i][flat[px]];
  }

  lemma ListLoses(c: Clean, positions: seq<(nat, nat)>, k: nat, e: Images, m: Images, was: Images, now: Images,
                  modelWas: Images, model: Images)
    requires OnImage(c, positions) && ListStep(c, Flat(c, positions), k, e, m, was, now, modelWas, model)
    requires forall j, l :: 0 <= j < l < |positions| ==> Flat(c, positions)[j] != Flat(c, positions)[l]
    ensures ListTaken(c, positions, k, was, now, modelWas, model)
  {
    var flat := Flat(c, positions);
    var values := c.Component(e, flat[k]);
    assert IsComponent(c, Spectrum(was, k), positions[k].0, positions[k].1, values) by {
      assert Spectrum(was, k) == c.Column(e, flat[k]);
      ComponentIs(c, e, flat[k], positions[k].0, positions[k].1);
    }
    forall i: nat, px: nat | i < c.Count() && px < |positions|
      ensures TakenBetween(c, i, positions[k], positions[px], was[i][px], now[i][px], values[i])
      ensures model[i][px] == modelWas[i][px] + if px == k then values[i] else 0.0
    {
      ListStepAt(c, positions, k, e, m, was, now, modelWas, model, i, px);
    }
  }

  class Loop {
    const c: Clean
    var positions: seq<(nat, nat)>
    var residual: array2<real>
    var model: array2<real>
    var currentIteration: nat
    var fluxCleaned: real
    /** The images the loop started from, and the pixels it has cleaned. */
    ghost var d: Images
    ghost var peaks: seq<nat>
    ghost var startIteration: nat

    /** The list residual is the dirty image minus the convolved model on the selected pixels. */
    ghost predicate Valid()
      reads this, residual, model
    {
      residual != model && ListsShow(c, positions, residual, model, d, startIteration, peaks) &&
      currentIteration == startIteration + |peaks| && fluxCleaned == Flux(c, d, peaks)
    }

    /** Selects the pixels and copies their residuals; the model starts at zero. */
    constructor (c: Clean, convolvedResidual: array2<real>, currentIteration: nat)
      requires c.Valid() && Fits(c, convolvedResidual)
      ensures Valid() && fresh(residual) && fresh(model)
      ensures this.c == c && d == Contents(convolvedResidual) && peaks == [] && startIteration == currentIteration
    {
      this.c := c;
      var pos := FindPeakPositions(c, convolvedResidual);
      FlatInside(c, pos);
      var res, mod := MakeSets(c, convolvedResidual, pos);
      positions, residual, model := pos, res, mod;
      this.currentIteration, fluxCleaned := currentIteration, 0.0;
      d, peaks, startIteration := Contents(convolvedResidual), [], currentIteration;
    }

    /** GetMaxComponent: the first selected pixel of greatest strength, and its value. */
    method GetMaxComponent() returns (maxComponent: nat, maxValue: real)
      requires Valid() && 0 < |positions|
      ensures c.Strongest(c.Dirty(d, peaks), Flat(c, positions), maxComponent)
      ensures maxValue == c.Value(c.Dirty(d, peaks), Flat(c, positions)[maxComponent])
    {
      ghost var e := c.Dirty(d, peaks);
      maxComponent := 0;
      maxValue := ListValue(c, positions, residual, 0, e);
      var k := 0;
      while k != |positions|
        invariant k <= |positions| && StrongestSoFar(c, e, Flat(c, positions), k, maxComponent, maxValue)
      {
        var value := ListValue(c, positions, residual, k, e);
        if c.allowNegative { value := Abs(value); }
        StrongestNext(c, e, Flat(c, positions), k, maxComponent, maxValue, value);
        if value > maxValue {
          maxComponent := k;
          maxValue := value;
        }
        k := k + 1;
      }
      // The loop compared strengths; the caller needs the sign as well.
      maxValue := ListValue(c, positions, residual, maxComponent, e);
    }

    /** One iteration: takes a component from the selected pixel k. */
    method CleanComponent(k: nat, maxValue: real)
      requires Valid() && c.way.SubMinor? && k < |positions|
      requires c.Strongest(c.Dirty(d, peaks), Flat(c, positions), k) &&
               maxValue == c.Value(c.Dirty(d, peaks), Flat(c, positions)[k])
      requires c.Continues(maxValue, currentIteration)
      modifies this`currentIteration, this`fluxCleaned, this`peaks, residual, model
      ensures Valid() && peaks == old(peaks) + [Flat(c, positions)[k]]
      ensures currentIteration == old(currentIteration) + 1 && fluxCleaned == old(fluxCleaned) + maxValue * c.gain
      ensures ListTaken(c, positions, k, old(ListOf(residual)), ListOf(residual), old(ListOf(model)), ListOf(model))
    {
      ghost var q := Flat(c, positions)[k];
      AddFlux(maxValue, q);
      ghost var before := peaks;
      peaks := peaks + [q];
      currentIteration := currentIteration + 1;
      CleanLists(c, positions, residual, model, k, d, startIteration, before);
    }

    method AddFlux(maxValue: real, ghost q: nat)
      requires c.Valid() && c.Sized(d) && c.Peaks(peaks) && q < c.Pixels() && fluxCleaned == Flux(c, d, peaks)
      requires maxValue == c.Value(c.Dirty(d, peaks), q)
      modifies this`fluxCleaned
      ensures c.Peaks(peaks + [q]) && fluxCleaned == Flux(c, d, peaks + [q])
      ensures fluxCleaned == old(fluxCleaned) + maxValue * c.gain
    {
      FluxGrows(c, d, peaks, q, peaks + [q]);
      fluxCleaned := fluxCleaned + maxValue * c.gain;
    }

    /** The loop: cleans until the strongest selected pixel, the iteration count or the sign rule stops it. */
    method Run() returns (r: Option<real>)
      requires Valid() && c.way.SubMinor? && peaks == []
      modifies this`currentIteration, this`fluxCleaned, this`peaks, residual, model
      ensures Valid() && c.SubRun(d, Flat(c, positions), startIteration, peaks)
      ensures LastIs(c, c.Dirty(d, peaks), Flat(c, positions), r)
    {
      if |positions| == 0 {
        return None;
      }
      var maxComponent, maxValue := GetMaxComponent();
      while c.Continues(maxValue, currentIteration)
        invariant Valid()
        invariant c.Strongest(c.Dirty(d, peaks), Flat(c, positions), maxComponent)
        invariant maxValue == c.Value(c.Dirty(d, peaks), Flat(c, positions)[maxComponent])
        decreases c.maxIter - currentIteration
      {
        CleanComponent(maxComponent, maxValue);
        maxComponent, maxValue := GetMaxComponent();
      }
      SubEnds(c, c.Dirty(d, peaks), Flat(c, positions), currentIteration, maxComponent);
      r := Some(maxValue);
    }

    /** The model of the run of image i, on the full image. */
    method GetFullIndividualModel(i: nat) returns (image: seq<real>)
      requires Valid() && i < c.Count()
      ensures image == c.Model(Nothing(c), d, peaks)[i]
    {
      FlatInside(c, positions);
      ghost var m, flat := c.Model(Nothing(c), d, peaks), Flat(c, positions);
      image := seq(c.Pixels(), _ => 0.0);
      for k := 0 to |positions|
        invariant |image| == c.Pixels()
        invariant forall p :: 0 <= p < c.Pixels() ==> image[p] == if p in flat[..k] then m[i][p] else 0.0
      {
        assert flat[..k + 1] == flat[..k] + [flat[k]];
        image := image[positions[k].1 * c.width + positions[k].0 := model[i, k]];
      }
      assert flat[..|positions|] == flat;
      forall p | 0 <= p < c.Pixels() ensures image[p] == m[i][p] {
        if p !in flat {
          ModelOnSelection(c, d, flat, peaks, i, p);
        }
      }
    }

    /** Subtracts the model of the run, padded and convolved, from a full residual image. */
    method CorrectResidualDirty(i: nat, dirtySet: array2<real>)
      requires Valid() && i < c.Count() && Fits(c, dirtySet) && dirtySet != residual && dirtySet != model
      requires forall p :: 0 <= p < c.Pixels() ==> dirtySet[i, p] == d[i][p]
      modifies dirtySet
      ensures forall p :: 0 <= p < c.Pixels() ==> dirtySet[i, p] == Corrected(c, d, peaks)[i][p]
      ensures forall k, p :: 0 <= k < c.Count() && 0 <= p < c.Pixels() && k != i ==>
              dirtySet[k, p] == old(dirtySet[k, p])
    {
      var image := GetFullIndividualModel(i);
      ghost var after := Corrected(c, d, peaks)[i];
      SubtractConvolved(c, i, image, dirtySet, d[i], after);
    }
  }

  /** Subtracts the padded convolution of an image with the PSF of image i from that image. */
  method SubtractConvolved(c: Clean, i: nat, image: seq<real>, dirtySet: array2<real>, ghost before: seq<real>,
                           ghost after: seq<real>)
    requires c.Valid() && i < c.Count() && Fits(c, dirtySet) && |image| == |before| == |after| == c.Pixels()
    requires forall p :: 0 <= p < c.Pixels() ==> dirtySet[i, p] == before[p]
    requires forall p :: 0 <= p < c.Pixels() ==> after[p] == before[p] - PeriodicConvolved(c, i, image, p)
    modifies dirtySet
    ensures forall p :: 0 <= p < c.Pixels() ==> dirtySet[i, p] == after[p]
    ensures forall k, p :: 0 <= k < c.Count() && 0 <= p < c.Pixels() && k != i ==>
              dirtySet[k, p] == old(dirtySet[k, p])
  {
    for p := 0 to c.Pixels()
      invariant forall k: nat, b: nat {:trigger dirtySet[k, b]} :: k < c.Count() && b < c.Pixels() ==>
        dirtySet[k, b] == if k == i && b < p then after[b] else old(dirtySet[k, b])
    {
      dirtySet[i, p] := dirtySet[i, p] - PeriodicConvolved(c, i, image, p);
    }
  }

  method MakeSets(c: Clean, convolvedResidual: array2<real>, positions: seq<(nat, nat)>)
          returns (residual: array2<real>, model: array2<real>)
    requires c.Valid() && Fits(c, convolvedResidual) && OnImage(c, positions) && c.Peaks(Flat(c, positions))
    ensures fresh(residual) && fresh(model) && residual != model
    ensures c.Sized(Contents(convolvedResidual)) && Holds(c, Contents(convolvedResidual), Flat(c, positions), residual)
    ensures Holds(c, Nothing(c), Flat(c, positions), model)
  {
    ghost var flat := Flat(c, positions);
    residual := new real[|c.psfIndex|, |positions|];
    model := new real[|c.psfIndex|, |positions|]((_, _) => 0.0);
    for i := 0 to |c.psfIndex|
      invariant forall j: nat, k: nat {:trigger residual[j, k]} :: j < i && k < |flat| ==>
                residual[j, k] == convolvedResidual[j, flat[k]]
      invariant forall j: nat, k: nat {:trigger model[j, k]} :: j < |c.psfIndex| && k < |flat| ==> model[j, k] == 0.0
    {
      for px := 0 to |positions|
        invariant forall j: nat, k: nat {:trigger residual[j, k]} :: k < |flat| && (j < i || (j == i && k < px)) ==>
                  residual[j, k] == convolvedResidual[j, flat[k]]
        invariant forall j: nat, k: nat {:trigger model[j, k]} :: j < |c.psfIndex| && k < |flat| ==> model[j, k] == 0.0
      {
        assert flat[px] == positions[px].1 * c.width + positions[px].0;
        residual[i, px] := convolvedResidual[i, positions[px].1 * c.width + positions[px].0];
      }
    }
  }

  /** The integrated value of a selected pixel. */
  method ListValue(c: Clean, positions: seq<(nat, nat)>, list: array2<real>, k: nat, ghost e: Images)
          returns (value: real)
    requires c.Valid() && c.Sized(e) && OnImage(c, positions) && c.Peaks(Flat(c, positions)) &&
             Holds(c, e, Flat(c, positions), list) && k < |positions|
    ensures value == c.Value(e, Flat(c, positions)[k])
  {
    var column := ReadList(c, list, k);
    ListColumn(c, e, Flat(c, positions), list, k, column);
    RowMajor.Fits(c.width, c.height, positions[k].0, positions[k].1);
    value := c.integrate(column) * if c.rms.Some? then c.rms.value[positions[k].1 * c.width + positions[k].0] else 1.0;
  }

  method ReadList(c: Clean, list: array2<real>, k: nat) returns (column: seq<real>)
    requires list.Length0 == c.Count() && k < list.Length1
    ensures |column| == c.Count() && forall i :: 0 <= i < c.Count() ==> column[i] == list[i, k]
  {
    column := [];
    for i := 0 to list.Length0
      invariant |column| == i && forall j :: 0 <= j < i ==> column[j] == list[j, k]
    {
      column := column + [list[i, k]];
    }
  }

  /** The component at a selected pixel: the gain times the spectrum, fitted. */
  method ComponentValues(c: Clean, positions: seq<(nat, nat)>, list: array2<real>, k: nat, ghost e: Images)
          returns (values: seq<real>)
    requires c.Valid() && c.way.SubMinor? && c.Sized(e) && OnImage(c, positions) && c.Peaks(Flat(c, positions)) &&
             Holds(c, e, Flat(c, positions), list) && k < |positions|
    ensures values == c.Component(e, Flat(c, positions)[k])
  {
    var column := ReadList(c, list, k);
    ListColumn(c, e, Flat(c, positions), list, k, column);
    var scaled := Scale(c.gain, column);
    var x, y := positions[k].0, positions[k].1;
    RowMajor.Splits(c.width, x, y);
    values := c.fit(scaled, x, y);
  }

  /** The lists show the residual and the model of a run that may still go on. */
  ghost predicate ListsShow(c: Clean, positions: seq<(nat, nat)>, residual: array2<real>, model: array2<real>,
                            d: Images, iteration: nat, peaks: seq<nat>)
    reads residual, model
  {
    OnImage(c, positions) && RunSoFar(c, d, Flat(c, positions), iteration, peaks) &&
    Holds(c, c.Dirty(d, peaks), Flat(c, positions), residual) &&
        Holds(c, c.Model(Nothing(c), d, peaks), Flat(c, positions), model)
  }

  /** A run that grew, with the lists that show its residual and its model. */
  lemma ListsGrow(c: Clean, positions: seq<(nat, nat)>, residual: array2<real>, model: array2<real>, k: nat,
                  d: Images, iteration: nat, peaks: seq<nat>, e: Images, m: Images)
    requires OnImage(c, positions) && k < |positions| &&
             RunSoFar(c, d, Flat(c, positions), iteration, peaks + [Flat(c, positions)[k]])
    requires c.Sized(e) && e == c.Dirty(d, peaks + [Flat(c, positions)[k]]) && Holds(c, e, Flat(c, positions), residual)
    requires c.Sized(m) && m == c.Model(Nothing(c), d, peaks + [Flat(c, positions)[k]]) &&
             Holds(c, m, Flat(c, positions), model)
    ensures ListsShow(c, positions, residual, model, d, iteration, peaks + [Flat(c, positions)[k]])
  {
  }

  /** Adds the component at a selected pixel to the model and subtracts it from the residual of the list. */
  method UpdateLists(c: Clean, positions: seq<(nat, nat)>, residual: array2<real>, model: array2<real>, k: nat,
                     ghost e: Images, ghost m: Images)
    requires c.Valid() && c.way.SubMinor? && residual != model && k < |positions| && OnImage(c, positions) &&
             c.Peaks(Flat(c, positions))
    requires c.Sized(e) && c.Sized(m) && Holds(c, e, Flat(c, positions), residual) &&
             Holds(c, m, Flat(c, positions), model)
    requires forall j, l :: 0 <= j < l < |positions| ==> Flat(c, positions)[j] != Flat(c, positions)[l]
    modifies residual, model
    ensures Holds(c, c.Subtract(e, Flat(c, positions)[k]), Flat(c, positions), residual)
    ensures Holds(c, c.AddTo(m, c.Component(e, Flat(c, positions)[k]), Flat(c, positions)[k]), Flat(c, positions),
            model)
    ensures ListTaken(c, positions, k, old(ListOf(residual)), ListOf(residual), old(ListOf(model)), ListOf(model))
  {
    var values := ComponentValues(c, positions, residual, k, e);
    AddToList(c, positions, model, k, values, m);
    SubtractFromList(c, positions, residual, k, values, e);
    ListLoses(c, positions, k, e, m, old(ListOf(residual)), ListOf(residual), old(ListOf(model)), ListOf(model));
  }

  /** Cleans a selected pixel on the lists of a run. */
  method CleanLists(c: Clean, positions: seq<(nat, nat)>, residual: array2<real>, model: array2<real>, k: nat,
                    ghost d: Images, ghost iteration: nat, ghost peaks: seq<nat>)
    requires c.way.SubMinor? && residual != model && k < |positions| &&
             ListsShow(c, positions, residual, model, d, iteration, peaks)
    requires c.Strongest(c.Dirty(d, peaks), Flat(c, positions), k)
    requires c.Continues(c.Value(c.Dirty(d, peaks), Flat(c, positions)[k]), iteration + |peaks|)
    modifies residual, model
    ensures ListsShow(c, positions, residual, model, d, iteration, peaks + [Flat(c, positions)[k]])
    ensures ListTaken(c, positions, k, old(ListOf(residual)), ListOf(residual), old(ListOf(model)), ListOf(model))
  {
    ghost var e, m, q := c.Dirty(d, peaks), c.Model(Nothing(c), d, peaks), Flat(c, positions)[k];
    UpdateLists(c, positions, residual, model, k, e, m);
    RunSoFarGrows(c, d, Flat(c, positions), iteration, peaks, k);
    RunAppends(c, Nothing(c), d, peaks, q);
    ListsGrow(c, positions, residual, model, k, d, iteration, peaks, c.Subtract(e, q),
        c.AddTo(m, c.Component(e, q), q));
  }

  method AddToList(c: Clean, positions: seq<(nat, nat)>, model: array2<real>, k: nat, values: seq<real>,
          ghost m: Images)
    requires c.Sized(m) && c.Peaks(Flat(c, positions)) && Holds(c, m, Flat(c, positions), model) && k < |positions| &&
             |values| == c.Count()
    requires forall j, l :: 0 <= j < l < |positions| ==> Flat(c, positions)[j] != Flat(c, positions)[l]
    modifies model
    ensures Holds(c, c.AddTo(m, values, Flat(c, positions)[k]), Flat(c, positions), model)
  {
    ghost var flat := Flat(c, positions);
    for i := 0 to model.Length0
      invariant forall j: nat, l: nat {:trigger model[j, l]} :: j < c.Count() && l < |flat| ==>
        model[j, l] == if j < i && l == k then m[j][flat[l]] + values[j] else m[j][flat[l]]
    {
      model[i, k] := model[i, k] + values[i];
    }
  }

  /** The list shows i images with the component subtracted, and the next one with it subtracted from px pixels. */
  ghost predicate HalfSubtracted(c: Clean, e: Images, after: Images, flat: seq<nat>, list: array2<real>, i: nat,
          px: nat)
    requires c.Sized(e) && c.Sized(after) && c.Peaks(flat)
    reads list
  {
    list.Length0 == c.Count() && list.Length1 == |flat| &&
    forall j: nat, l: nat {:trigger list[j, l]} :: j < c.Count() && l < |flat| ==>
      list[j, l] == if j < i || (j == i && l < px) then after[j][flat[l]] else e[j][flat[l]]
  }

  /** What the subtraction of a component at q with the given values leaves of a pixel. */
  ghost predicate Left(c: Clean, e: Images, after: Images, q: nat, i: nat, p: nat, factor: real)
    requires c.Valid() && c.Sized(e) && c.Sized(after) && q < c.Pixels() && i < c.Count() && p < c.Pixels()
  {
    after[i][p] == e[i][p] - c.Kernel(i, p, q) * factor
  }

  lemma SubtractLeaves(c: Clean, e: Images, q: nat, i: nat, flat: seq<nat>)
    requires c.Valid() && c.Sized(e) && q < c.Pixels() && i < c.Count() && c.Peaks(flat)
    ensures forall l: nat {:trigger flat[l]} :: l < |flat| ==>
            Left(c, e, c.Subtract(e, q), q, i, flat[l], c.Component(e, q)[i])
  {
    forall l: nat | l < |flat| ensures Left(c, e, c.Subtract(e, q), q, i, flat[l], c.Component(e, q)[i]) {
      SubtractAt(c, e, q, i, flat[l]);
    }
  }

  method LeftValue(c: Clean, positions: seq<(nat, nat)>, value: real, k: nat, i: nat, px: nat, psfFactor: real,
          ghost e: Images, ghost after: Images)
    returns (left: real)
    requires c.Valid() && c.way.SubMinor? && c.Sized(e) && c.Sized(after) && OnImage(c, positions) &&
             c.Peaks(Flat(c, positions))
    requires k < |positions| && px < |positions| && i < c.Count() && value == e[i][Flat(c, positions)[px]]
    requires Left(c, e, after, Flat(c, positions)[k], i, Flat(c, positions)[px], psfFactor)
    ensures left == after[i][Flat(c, positions)[px]]
  {
    var taken := ListKernel(c, positions, i, px, k);
    left := value - taken * psfFactor;
  }

  method SubtractFromListImage(c: Clean, positions: seq<(nat, nat)>, residual: array2<real>, k: nat, i: nat,
          psfFactor: real,
                               ghost e: Images, ghost after: Images)
    requires c.Valid() && c.way.SubMinor? && c.Sized(e) && c.Sized(after) && OnImage(c, positions) &&
             c.Peaks(Flat(c, positions)) &&
             k < |positions| && i < c.Count()
    requires HalfSubtracted(c, e, after, Flat(c, positions), residual, i, 0)
    requires forall l: nat {:trigger Flat(c, positions)[l]} :: l < |positions| ==>
      Left(c, e, after, Flat(c, positions)[k], i, Flat(c, positions)[l], psfFactor)
    modifies residual
    ensures HalfSubtracted(c, e, after, Flat(c, positions), residual, i, |positions|)
  {
    ghost var flat := Flat(c, positions);
    for px := 0 to |positions|
      invariant HalfSubtracted(c, e, after, flat, residual, i, px)
    {
      assert Left(c, e, after, flat[k], i, flat[px], psfFactor);
      residual[i, px] := LeftValue(c, positions, residual[i, px], k, i, px, psfFactor, e, after);
    }
  }

  /** Subtracts the PSF around a selected pixel from all selected pixels of all images. */
  method SubtractFromList(c: Clean, positions: seq<(nat, nat)>, residual: array2<real>, k: nat, values: seq<real>,
          ghost e: Images)
    requires c.Valid() && c.way.SubMinor? && c.Sized(e) && OnImage(c, positions) && c.Peaks(Flat(c, positions)) &&
             Holds(c, e, Flat(c, positions), residual) && k < |positions|
    requires values == c.Component(e, Flat(c, positions)[k])
    modifies residual
    ensures Holds(c, c.Subtract(e, Flat(c, positions)[k]), Flat(c, positions), residual)
  {
    ghost var flat := Flat(c, positions);
    ghost var after := c.Subtract(e, flat[k]);
    for i := 0 to |c.psfIndex|
      invariant HalfSubtracted(c, e, after, flat, residual, i, 0)
    {
      SubtractLeaves(c, e, flat[k], i, flat);
      SubtractFromListImage(c, positions, residual, k, i, values[i], e, after);
    }
  }

  /** The PSF value of image i for a selected pixel, seen from the component; nothing outside the PSF. */
  method ListKernel(c: Clean, positions: seq<(nat, nat)>, i: nat, px: nat, k: nat) returns (taken: real)
    requires c.Valid() && c.way.SubMinor? && OnImage(c, positions) && c.Peaks(Flat(c, positions))
    requires px < |positions| && k < |positions| && i < c.Count()
    ensures taken == c.Kernel(i, Flat(c, positions)[px], Flat(c, positions)[k])
  {
    RowMajor.Splits(c.width, positions[px].0, positions[px].1);
    RowMajor.Splits(c.width, positions[k].0, positions[k].1);
    var psfX: int := positions[px].0 - positions[k].0 + c.width / 2;
    var psfY: int := positions[px].1 - positions[k].1 + c.height / 2;
    if psfX >= 0 && psfX < c.width && psfY >= 0 && psfY < c.height {
      RowMajor.Fits(c.width, c.height, psfX, psfY);
      taken := c.Psf(i)[psfX + psfY * c.width];
    } else {
      taken := 0.0;
    }
  }
}
