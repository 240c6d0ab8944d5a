/**
 * A major iteration of GenericClean (deconvolution/genericclean.cpp): the two ways of running its loop, through the
 * sub-minor loop or on the whole image, when they end in the same state, and what is reported at the end.
 */
module MajorIteration {
  import opened Common
  import opened PeakFinder
  import opened CleanRuns
  import opened GenericClean
  import opened PaddedConvolution
  import L = SubMinorLoop

  /** The first n images corrected for a run, the others as they were. */
  ghost predicate CorrectedUpTo(c: Clean, d: Images, m: Images, peaks: seq<nat>, dirtySet: array2<real>,
          modelSet: array2<real>, n: nat)
    requires c.Valid() && c.Sized(d) && c.Sized(m) && c.Peaks(peaks)
    reads dirtySet, modelSet
  {
    Fits(c, dirtySet) && Fits(c, modelSet) &&
    (forall k: nat, p: nat {:trigger dirtySet[k, p]} :: k < c.Count() && p < c.Pixels() ==>
       dirtySet[k, p] == if k < n then Corrected(c, d, peaks)[k][p] else d[k][p]) &&
    forall k: nat, p: nat {:trigger modelSet[k, p]} :: k < c.Count() && p < c.Pixels() ==>
       modelSet[k, p] == if k < n then c.Model(m, d, peaks)[k][p] else m[k][p]
  }

  lemma AllCorrected(c: Clean, d: Images, m: Images, peaks: seq<nat>, dirtySet: array2<real>, modelSet: array2<real>)
    requires c.Valid() && c.Sized(d) && c.Sized(m) && c.Peaks(peaks) &&
             CorrectedUpTo(c, d, m, peaks, dirtySet, modelSet, c.Count())
    ensures Contents(dirtySet) == Corrected(c, d, peaks) && Contents(modelSet) == c.Model(m, d, peaks)
  {
    forall k | 0 <= k < c.Count()
      ensures Contents(dirtySet)[k] == Corrected(c, d, peaks)[k] && Contents(modelSet)[k] == c.Model(m, d, peaks)[k] {
    }
  }

  /** Adds the model of a finished sub-minor run to one image of the model set. */
  method AddIndividualModel(loop: L.Loop, i: nat, modelSet: array2<real>, ghost m: Images)
    requires loop.Valid() && i < loop.c.Count() && Fits(loop.c, modelSet) && loop.c.Sized(m)
    requires modelSet != loop.model && modelSet != loop.residual
    requires forall p :: 0 <= p < loop.c.Pixels() ==> modelSet[i, p] == m[i][p]
    modifies modelSet
    ensures forall p :: 0 <= p < loop.c.Pixels() ==> modelSet[i, p] == loop.c.Model(m, loop.d, loop.peaks)[i][p]
    ensures forall k, p :: 0 <= k < loop.c.Count() && 0 <= p < loop.c.Pixels() && k != i ==>
            modelSet[k, p] == old(modelSet[k, p])
  {
    var c := loop.c;
    var image := loop.GetFullIndividualModel(i);
    ghost var after := c.Model(m, loop.d, loop.peaks)[i];
    forall p | 0 <= p < c.Pixels() ensures after[p] == m[i][p] + image[p] {
      ModelAdds(c, m, loop.d, loop.peaks, i, p);
    }
    AddImage(c, i, image, modelSet, m[i], after);
  }

  method AddImage(c: Clean, i: nat, image: seq<real>, modelSet: array2<real>, ghost before: seq<real>,
                  ghost after: seq<real>)
    requires i < c.Count() && Fits(c, modelSet) && |image| == |before| == |after| == c.Pixels()
    requires forall p :: 0 <= p < c.Pixels() ==> modelSet[i, p] == before[p]
    requires forall p :: 0 <= p < c.Pixels() ==> after[p] == before[p] + image[p]
    modifies modelSet
    ensures forall p :: 0 <= p < c.Pixels() ==> modelSet[i, p] == after[p]
    ensures forall k, p :: 0 <= k < c.Count() && 0 <= p < c.Pixels() && k != i ==>
              modelSet[k, p] == old(modelSet[k, p])
  {
    for p := 0 to c.Pixels()
      invariant forall k: nat, b: nat {:trigger modelSet[k, b]} :: k < c.Count() && b < c.Pixels() ==>
        modelSet[k, b] == if k == i && b < p then after[b] else old(modelSet[k, b])
    {
      modelSet[i, p] := modelSet[i, p] + image[p];
    }
  }

  /** A buffer that is not one of the lists of a loop. */
  ghost predicate Apart(loop: L.Loop, buffer: array2<real>)
    reads loop
  {
    buffer != loop.residual && buffer != loop.model
  }

  /** Corrects one more image for a finished sub-minor run. */
  method CorrectImage(loop: L.Loop, i: nat, dirtySet: array2<real>, modelSet: array2<real>, ghost m: Images)
    requires loop.Valid() && i < loop.c.Count() && loop.c.Sized(m) && dirtySet != modelSet
    requires Apart(loop, dirtySet) && Apart(loop, modelSet)
    requires CorrectedUpTo(loop.c, loop.d, m, loop.peaks, dirtySet, modelSet, i)
    modifies dirtySet, modelSet
    ensures CorrectedUpTo(loop.c, loop.d, m, loop.peaks, dirtySet, modelSet, i + 1)
  {
    loop.CorrectResidualDirty(i, dirtySet);
    AddIndividualModel(loop, i, modelSet, m);
  }

  /** Corrects all images for a finished sub-minor run. */
  method CorrectImages(loop: L.Loop, dirtySet: array2<real>, modelSet: array2<real>, ghost m: Images)
    requires loop.Valid() && dirtySet != modelSet && Apart(loop, dirtySet) && Apart(loop, modelSet)
    requires Fits(loop.c, dirtySet) && Fits(loop.c, modelSet) && Contents(dirtySet) == loop.d && Contents(modelSet) == m
    modifies dirtySet, modelSet
    ensures loop.c.Sized(m)
    ensures Contents(dirtySet) == Corrected(loop.c, loop.d, loop.peaks) &&
            Contents(modelSet) == loop.c.Model(m, loop.d, loop.peaks)
  {
    for i := 0 to dirtySet.Length0
      invariant loop.Valid() && CorrectedUpTo(loop.c, loop.d, m, loop.peaks, dirtySet, modelSet, i)
    {
      CorrectImage(loop, i, dirtySet, modelSet, m);
    }
    AllCorrected(loop.c, loop.d, m, loop.peaks, dirtySet, modelSet);
  }

  /** A sub-minor loop that has run to its end, and what it returned. */
  method FinishedLoop(c: Clean, dirtySet: array2<real>, modelSet: array2<real>, iteration0: nat)
    returns (loop: L.Loop, last: Option<real>)
    requires c.Valid() && c.way.SubMinor? && Fits(c, dirtySet)
    ensures loop.Valid() && loop.c == c && loop.d == Contents(dirtySet) && fresh(loop.residual) && fresh(loop.model)
    ensures c.Selection(loop.d, L.Flat(c, loop.positions)) &&
            c.SubRun(loop.d, L.Flat(c, loop.positions), iteration0, loop.peaks)
    ensures loop.currentIteration == iteration0 + |loop.peaks|
    ensures L.LastIs(c, c.Dirty(loop.d, loop.peaks), L.Flat(c, loop.positions), last)
    ensures Contents(modelSet) == old(Contents(modelSet)) && Contents(dirtySet) == old(Contents(dirtySet))
    ensures Apart(loop, dirtySet) && Apart(loop, modelSet)
  {
    loop := new L.Loop(c, dirtySet, iteration0);
    last := loop.Run();
  }

  /** The clean loop through the sub-minor loop, from a residual d and a model m. */
  method SubMinorClean(c: Clean, dirtySet: array2<real>, modelSet: array2<real>, iteration0: nat, ghost d: Images,
          ghost m: Images)
    returns (iteration: nat, last: Option<real>, ghost positions: seq<nat>, ghost peaks: seq<nat>)
    requires c.Valid() && c.way.SubMinor? && Fits(c, dirtySet) && Fits(c, modelSet) && dirtySet != modelSet
    requires d == Contents(dirtySet) && m == Contents(modelSet) && c.Sized(d) && c.Sized(m)
    modifies dirtySet, modelSet
    ensures c.Selection(d, positions) && c.SubRun(d, positions, iteration0, peaks)
    ensures Contents(dirtySet) == Corrected(c, d, peaks) && Contents(modelSet) == c.Model(m, d, peaks)
    ensures iteration == iteration0 + |peaks| && L.LastIs(c, c.Dirty(d, peaks), positions, last)
  {
    var loop;
    loop, last := FinishedLoop(c, dirtySet, modelSet, iteration0);
    iteration := loop.currentIteration;
    positions, peaks := L.Flat(c, loop.positions), loop.peaks;
    CorrectImages(loop, dirtySet, modelSet, m);
  }

  /** What a run leaves behind: residual, model and iteration count. */
  ghost function Outcome(c: Clean, d: Images, m: Images, iteration: nat, peaks: seq<nat>): (Images, Images, nat)
    requires c.Valid() && c.Sized(d) && c.Sized(m) && c.Peaks(peaks)
  {
    (Left(c, d, peaks), c.Model(m, d, peaks), iteration + |peaks|)
  }

  /** A finished loop, run in the way of the settings; the selected pixels matter to the sub-minor loop only. */
  ghost predicate LoopRun(c: Clean, d: Images, iteration: nat, positions: seq<nat>, peaks: seq<nat>)
    requires c.Valid() && c.Sized(d)
  {
    match c.way
    case WholeImage => c.PlainRun(d, iteration, peaks)
    case SubMinor => c.Selection(d, positions) && c.SubRun(d, positions, iteration, peaks)
  }

  /** The peak that is left after n components, as the loop reports it. */
  ghost predicate Last(c: Clean, e: Images, positions: seq<nat>, n: nat, last: Option<real>)
    requires c.Valid() && c.Sized(e)
  {
    match c.way
    case WholeImage => exists r: Option<Peak> :: c.At(n).Finds(e, r) && last == ValueOf(r)
    case SubMinor => c.Peaks(positions) && L.LastIs(c, e, positions, last)
  }

  function ValueOf(r: Option<Peak>): Option<real> {
    match r
    case None => None
    case Some(peak) => Some(peak.value)
  }

  /** The loop of a major iteration, with or without the sub-minor optimisation. */
  method CleanLoop(c: Clean, dirtySet: array2<real>, modelSet: array2<real>, iteration0: nat, threadCount: nat)
    returns (iteration: nat, last: Option<real>, ghost positions: seq<nat>, ghost peaks: seq<nat>)
    requires c.Valid() && Fits(c, dirtySet) && Fits(c, modelSet) && dirtySet != modelSet && threadCount > 0
    modifies dirtySet, modelSet
    ensures c.Sized(old(Contents(dirtySet))) && c.Sized(old(Contents(modelSet))) && c.Peaks(peaks)
    ensures LoopRun(c, old(Contents(dirtySet)), iteration0, positions, peaks)
    ensures (Contents(dirtySet), Contents(modelSet), iteration) ==
            Outcome(c, old(Contents(dirtySet)), old(Contents(modelSet)), iteration0, peaks)
    ensures Last(c, c.Dirty(old(Contents(dirtySet)), peaks), positions, |peaks|, last)
  {
    ghost var d, m := Contents(dirtySet), Contents(modelSet);
    if c.way.SubMinor? {
      iteration, last, positions, peaks := SubMinorClean(c, dirtySet, modelSet, iteration0, d, m);
    } else {
      var peak;
      iteration, peak, peaks := PlainClean(c, dirtySet, modelSet, iteration0, threadCount);
      last, positions := ValueOf(peak), [];
    }
  }

  /** Nothing of the model of a run is wrapped around in the correction of the residual. */
  ghost predicate NoneWrapped(c: Clean, d: Images, peaks: seq<nat>)
    requires c.Valid() && c.Sized(d) && c.Peaks(peaks)
  {
    forall i: nat, p: nat {:trigger WrappedAt(c, d, peaks, i, p)} :: i < c.Count() && p < c.Pixels() ==>
      WrappedAt(c, d, peaks, i, p) == 0.0
  }

  ghost function WrappedAt(c: Clean, d: Images, peaks: seq<nat>, i: nat, p: nat): real
    requires c.Valid() && c.Sized(d) && c.Peaks(peaks) && i < c.Count() && p < c.Pixels()
  {
    WrappedPart(c, i, c.Model(Nothing(c), d, peaks)[i], p)
  }

  /** The corrected residual is the one that the loop has cleaned if and only if nothing is wrapped around. */
  lemma CorrectedIffNoneWrapped(c: Clean, d: Images, peaks: seq<nat>)
    requires c.Valid() && c.Sized(d) && c.Peaks(peaks)
    ensures Corrected(c, d, peaks) == c.Dirty(d, peaks) <==> NoneWrapped(c, d, peaks)
  {
    var a, b := Corrected(c, d, peaks), c.Dirty(d, peaks);
    forall i: nat, p: nat | i < c.Count() && p < c.Pixels()
      ensures a[i][p] == b[i][p] - WrappedAt(c, d, peaks, i, p)
    {
      CorrectedIs(c, d, peaks, i, p);
    }
    if NoneWrapped(c, d, peaks) {
      forall i | 0 <= i < c.Count() ensures a[i] == b[i] {
        forall p | 0 <= p < c.Pixels() ensures a[i][p] == b[i][p] {
          assert WrappedAt(c, d, peaks, i, p) == 0.0;
        }
      }
    }
  }

  /**
   * As long as the tests on the residual agree, both loops leave the same model and count behind; and the same
   * residual if and only if nothing is wrapped around in its correction.
   */
  lemma SameOutcome(c: Clean, d: Images, m: Images, iteration: nat, positions: seq<nat>, plain: seq<nat>, sub: seq<nat>)
    requires c.Valid() && c.Alike() && c.way.SubMinor? && c.Sized(d) && c.Sized(m) && c.Selection(d, positions)
    requires c.For(WholeImage).PlainRun(d, iteration, plain) && c.SubRun(d, positions, iteration, sub)
    requires forall j {:trigger AgreesAt(c, d, positions, iteration, sub, j)} :: 0 <= j <= |sub| ==>
             AgreesAt(c, d, positions, iteration, sub, j)
    ensures var a, b := Outcome(c.For(WholeImage), d, m, iteration, plain), Outcome(c, d, m, iteration, sub);
            a.1 == b.1 && a.2 == b.2 && (a.0 == b.0 <==> NoneWrapped(c, d, sub))
  {
    SubMinorIsPlain(c, d, positions, iteration, plain, sub);
    SameRun(c, m, d, sub);
    CorrectedIffNoneWrapped(c, d, sub);
  }

  // ----- a major iteration

  /** The settings of the algorithm: those of the loop, with the threshold at which cleaning ends for good. */
  datatype Settings = Settings(clean: Clean, mGain: real, majorIterThreshold: real) {
    /** Stopping on a negative component implies looking for it. */
    function Signed(): Clean {
      clean.(allowNegative := clean.allowNegative || clean.stopOnNegative)
    }

    /** The level at which the data are to be predicted and imaged again. */
    function MajorThreshold(first: real): real {
      var part := Abs(first) * (1.0 - mGain);
      if majorIterThreshold < part then part else majorIterThreshold
    }

    /** The settings of the loop after a first peak of the given value. */
    function ForLoop(first: real): Clean {
      if MajorThreshold(first) > clean.threshold then Signed().(threshold := MajorThreshold(first)) else Signed()
    }

    /** The loop has come down to the level of the major iteration, and not to the end of the cleaning. */
    predicate AsksForMore(last: real, first: real, components: nat) {
      var finalThresholdReached := Abs(last) <= clean.threshold || last == 0.0;
      var negativeReached := last < 0.0 && clean.stopOnNegative;
      Abs(last) <= MajorThreshold(first) && components != 0 && !negativeReached && !finalThresholdReached
    }
  }

  // ----- the levels down to which a major iteration cleans

  /** Above the final threshold, the level that was given, and what the major gain leaves of the first peak. */
  predicate AboveLevels(s: Settings, first: real, value: real) {
    Abs(value) > s.clean.threshold && Abs(value) > s.majorIterThreshold && Abs(value) > (1.0 - s.mGain) * Abs(first)
  }

  /** A negative value on which the cleaning stops. */
  predicate StopsOn(s: Settings, value: real) { value < 0.0 && s.clean.stopOnNegative }

  /** The settings but for the threshold; where negative components stop the loop, they are looked for. */
  ghost predicate LooksFor(s: Settings, c: Clean) {
    c == s.clean.(threshold := c.threshold, allowNegative := s.clean.allowNegative || s.clean.stopOnNegative)
  }

  /** The value of the k-th cleaned pixel before it is cleaned. */
  ghost function CleanedValue(c: Clean, d: Images, peaks: seq<nat>, k: nat): real
    requires c.Valid() && c.Sized(d) && c.Peaks(peaks) && k < |peaks|
  {
    (if c.way.WholeImage? then c.At(k) else c).Value(c.Dirty(d, peaks[..k]), peaks[k])
  }

  ghost predicate CleanedAbove(s: Settings, d: Images, first: real, peaks: seq<nat>, k: nat)
    requires s.clean.Valid() && s.clean.Sized(d) && s.clean.Peaks(peaks) && k < |peaks|
  {
    var value := CleanedValue(s.clean, d, peaks, k);
    AboveLevels(s, first, value) && !StopsOn(s, value)
  }

  lemma CleanableIs(s: Settings, first: real, value: real)
    ensures s.ForLoop(first).Cleanable(value) <==> AboveLevels(s, first, value) && !StopsOn(s, value)
  {
  }

  /** The threshold and the signs that are searched for play no part in what a component takes away. */
  lemma {:induction false} SameResidual(a: Clean, b: Clean, d: Images, peaks: seq<nat>)
    requires a.Valid() && a.Sized(d) && a.Peaks(peaks)
    requires b == a.(threshold := b.threshold, allowNegative := b.allowNegative)
    ensures b.Valid() && b.Sized(d) && b.Dirty(d, peaks) == a.Dirty(d, peaks)
  {
    if peaks != [] {
      var before, q := peaks[..|peaks| - 1], peaks[|peaks| - 1];
      SameResidual(a, b, d, before);
      SameSubtraction(a, b, a.Dirty(d, before), q);
    }
  }

  lemma SameSubtraction(a: Clean, b: Clean, e: Images, q: nat)
    requires a.Valid() && a.Sized(e) && q < a.Pixels()
    requires b == a.(threshold := b.threshold, allowNegative := b.allowNegative) && b.Valid() && b.Sized(e)
    ensures b.Subtract(e, q) == a.Subtract(e, q)
  {
    assert b.Column(e, q) == a.Column(e, q);
    assert b.Component(e, q) == a.Component(e, q);
    forall i | 0 <= i < a.Count() ensures b.Subtract(e, q)[i] == a.Subtract(e, q)[i] {
      forall p | 0 <= p < a.Pixels() ensures b.Subtract(e, q)[i][p] == a.Subtract(e, q)[i][p] {
        SubtractAt(a, e, q, i, p);
        SubtractAt(b, e, q, i, p);
      }
    }
  }

  lemma GoesOnAbove(c: Clean, e: Images, iteration: nat, q: nat)
    requires c.Valid() && c.Sized(e) && c.PlainGoesOn(e, iteration, q) && q < c.Pixels()
    ensures c.Cleanable(c.Value(e, q))
  {
    var r: Peak :| c.Finds(e, Some(r)) && c.Continues(r.value, iteration) && q == r.y * c.width + r.x;
    FoundInside(c, e, r);
  }

  /** The value of a pixel that a loop cleans. */
  lemma CleanedContinues(c: Clean, d: Images, iteration: nat, positions: seq<nat>, peaks: seq<nat>, k: nat)
    requires c.Valid() && c.Sized(d) && LoopRun(c, d, iteration, positions, peaks) && k < |peaks|
    ensures c.Cleanable(CleanedValue(c, d, peaks, k))
  {
    if c.way.WholeImage? {
      assert c.PlainStep(d, iteration, peaks, k);
      GoesOnAbove(c.At(k), c.Dirty(d, peaks[..k]), iteration + k, peaks[k]);
    } else {
      assert c.SubStep(d, positions, iteration, peaks, k);
    }
  }

  lemma SamePixel(a: Clean, b: Clean, e: Images, q: nat)
    requires a.Valid() && a.Sized(e) && q < a.Pixels()
    requires b == a.(threshold := b.threshold, allowNegative := b.allowNegative) && b.Valid() && b.Sized(e)
    ensures b.Value(e, q) == a.Value(e, q)
  {
    assert b.Column(e, q) == a.Column(e, q);
  }

  lemma SameValue(s: Settings, d: Images, first: real, peaks: seq<nat>, k: nat)
    requires s.clean.Valid() && s.clean.Sized(d) && s.clean.Peaks(peaks) && k < |peaks|
    requires s.ForLoop(first).Valid() && s.ForLoop(first).Sized(d)
    ensures CleanedValue(s.ForLoop(first), d, peaks, k) == CleanedValue(s.clean, d, peaks, k)
  {
    var c, e := s.ForLoop(first), s.clean.Dirty(d, peaks[..k]);
    SameResidual(s.clean, c, d, peaks[..k]);
    if c.way.WholeImage? {
      SamePixel(s.clean.At(k), c.At(k), e, peaks[k]);
    } else {
      SamePixel(s.clean, c, e, peaks[k]);
    }
  }

  /** All components are taken from peaks above all levels. */
  ghost predicate AllCleanedAbove(s: Settings, d: Images, first: real, peaks: seq<nat>)
    requires s.clean.Valid() && s.clean.Sized(d) && s.clean.Peaks(peaks)
  {
    forall k {:trigger CleanedAbove(s, d, first, peaks, k)} :: 0 <= k < |peaks| ==>
      CleanedAbove(s, d, first, peaks, k)
  }

  /** Every component of a major iteration is taken from a peak above all levels. */
  lemma AllAbove(s: Settings, d: Images, first: real, iteration: nat, positions: seq<nat>, peaks: seq<nat>)
    requires s.clean.Valid() && s.clean.Sized(d) && s.clean.Peaks(peaks)
    requires s.ForLoop(first).Valid() && s.ForLoop(first).Sized(d) &&
             LoopRun(s.ForLoop(first), d, iteration, positions, peaks)
    ensures AllCleanedAbove(s, d, first, peaks)
  {
    forall k | 0 <= k < |peaks| ensures CleanedAbove(s, d, first, peaks, k) {
      CleanedContinues(s.ForLoop(first), d, iteration, positions, peaks, k);
      SameValue(s, d, first, peaks, k);
      CleanableIs(s, first, CleanedValue(s.clean, d, peaks, k));
    }
  }

  /** The peak that is left is not above all levels, unless the iterations have run out or its sign stops the loop. */
  predicate LeavesBelow(s: Settings, first: real, last: Option<real>, iteration: nat) {
    last.Some? && iteration < s.clean.maxIter ==> !AboveLevels(s, first, last.value) || StopsOn(s, last.value)
  }

  /** The peak left for the next iteration is above the final threshold, and not above one of the other levels. */
  predicate LeftForNext(s: Settings, first: real, value: real) {
    Abs(value) > s.clean.threshold && !StopsOn(s, value) &&
    (Abs(value) <= s.majorIterThreshold || Abs(value) <= (1.0 - s.mGain) * Abs(first))
  }

  /** What the levels are to a finished loop. */
  lemma LoopLevels(s: Settings, d: Images, first: real, iteration: nat, positions: seq<nat>, peaks: seq<nat>,
                   last: Option<real>)
    requires s.clean.Valid() && s.clean.Sized(d) && s.clean.Peaks(peaks)
    requires var c := s.ForLoop(first);
             c.Valid() && c.Sized(d) && LoopRun(c, d, iteration, positions, peaks) &&
             Last(c, c.Dirty(d, peaks), positions, |peaks|, last)
    ensures AllCleanedAbove(s, d, first, peaks) && LeavesBelow(s, first, last, iteration + |peaks|)
    ensures last.Some? && s.AsksForMore(last.value, first, |peaks|) ==>
              peaks != [] && LeftForNext(s, first, last.value)
  {
    AllAbove(s, d, first, iteration, positions, peaks);
    if last.Some? {
      LastIsLeft(s.ForLoop(first), d, iteration, positions, peaks, last.value);
      CleanableIs(s, first, last.value);
    }
  }

  /** The last peak of a finished loop is one that the loop does not go on with. */
  lemma LastIsLeft(c: Clean, d: Images, iteration: nat, positions: seq<nat>, peaks: seq<nat>, last: real)
    requires c.Valid() && c.Sized(d) && LoopRun(c, d, iteration, positions, peaks)
    requires Last(c, c.Dirty(d, peaks), positions, |peaks|, Some(last))
    ensures !c.Continues(last, iteration + |peaks|)
  {
    var e := c.Dirty(d, peaks);
    if c.way.WholeImage? {
      var r: Option<Peak> :| c.At(|peaks|).Finds(e, r) && Some(last) == ValueOf(r);
      assert r == Some(r.value);
    } else {
      var k: nat :| c.Strongest(e, positions, k) && last == c.Value(e, positions[k]);
    }
  }

  /** ExecuteMajorIteration; `first` is the peak it starts with. */
  method ExecuteMajorIteration(s: Settings, dirtySet: array2<real>, modelSet: array2<real>, iteration0: nat,
                               threadCount: nat)
    returns (value: real, reachedMajorThreshold: bool, iteration: nat, first: Option<Peak>, last: Option<real>,
             ghost positions: seq<nat>, ghost peaks: seq<nat>)
    requires s.clean.Valid() && Fits(s.clean, dirtySet) && Fits(s.clean, modelSet) && dirtySet != modelSet
    requires threadCount > 0
    modifies dirtySet, modelSet
    ensures s.clean.Sized(old(Contents(dirtySet))) && s.clean.Sized(old(Contents(modelSet))) && s.clean.Peaks(peaks)
    ensures LooksFor(s, s.Signed()) && s.Signed().Valid() && s.Signed().Finds(old(Contents(dirtySet)), first)
    ensures first.Some? ==> LooksFor(s, s.ForLoop(first.value.value))
    ensures first.None? ==>
              Contents(dirtySet) == old(Contents(dirtySet)) && Contents(modelSet) == old(Contents(modelSet)) &&
              iteration == iteration0 && peaks == [] && last.None?
    ensures first.Some? ==>
              var c := s.ForLoop(first.value.value);
              c.Valid() && LoopRun(c, old(Contents(dirtySet)), iteration0, positions, peaks) &&
              (Contents(dirtySet), Contents(modelSet), iteration) ==
                Outcome(c, old(Contents(dirtySet)), old(Contents(modelSet)), iteration0, peaks) &&
              Last(c, c.Dirty(old(Contents(dirtySet)), peaks), positions, |peaks|, last)
    ensures value == if last.Some? then last.value else 0.0
    ensures reachedMajorThreshold <==>
              first.Some? && last.Some? && s.AsksForMore(last.value, first.value.value, |peaks|)
    ensures first.Some? ==>
              AllCleanedAbove(s, old(Contents(dirtySet)), first.value.value, peaks) &&
              LeavesBelow(s, first.value.value, last, iteration)
    ensures reachedMajorThreshold ==> peaks != [] && LeftForNext(s, first.value.value, value)
  {
    var signed := s.clean.(allowNegative := s.clean.allowNegative || s.clean.stopOnNegative);
    first := FindPeak(signed, dirtySet);
    if first.None? {
      return 0.0, false, iteration0, None, None, [], [];
    }
    var c := LoopSettings(s, signed, first.value.value);
    value, reachedMajorThreshold, iteration, last, positions, peaks :=
      CleanAndReport(s, c, first.value.value, dirtySet, modelSet, iteration0, threadCount);
    LoopLevels(s, old(Contents(dirtySet)), first.value.value, iteration0, positions, peaks, last);
  }

  /** The loop of a major iteration, and what is returned after it. */
  method CleanAndReport(s: Settings, c: Clean, first: real, dirtySet: array2<real>, modelSet: array2<real>,
                        iteration0: nat, threadCount: nat)
    returns (value: real, reachedMajorThreshold: bool, iteration: nat, last: Option<real>,
             ghost positions: seq<nat>, ghost peaks: seq<nat>)
    requires c.Valid() && Fits(c, dirtySet) && Fits(c, modelSet) && dirtySet != modelSet && threadCount > 0
    modifies dirtySet, modelSet
    ensures c.Sized(old(Contents(dirtySet))) && c.Sized(old(Contents(modelSet))) && c.Peaks(peaks)
    ensures LoopRun(c, old(Contents(dirtySet)), iteration0, positions, peaks)
    ensures (Contents(dirtySet), Contents(modelSet), iteration) ==
            Outcome(c, old(Contents(dirtySet)), old(Contents(modelSet)), iteration0, peaks)
    ensures Last(c, c.Dirty(old(Contents(dirtySet)), peaks), positions, |peaks|, last)
    ensures value == if last.Some? then last.value else 0.0
    ensures reachedMajorThreshold <==> last.Some? && s.AsksForMore(last.value, first, |peaks|)
  {
    iteration, last, positions, peaks := CleanLoop(c, dirtySet, modelSet, iteration0, threadCount);
    value, reachedMajorThreshold := Report(s, first, last, iteration - iteration0);
  }

  /** The settings of the loop, whose threshold is the larger of the two. */
  method LoopSettings(s: Settings, signed: Clean, first: real) returns (c: Clean)
    requires signed == s.Signed() && signed.Valid()
    ensures c == s.ForLoop(first) && c.Valid() && LooksFor(s, c)
  {
    var firstThreshold := s.clean.threshold;
    var majorIterThreshold := s.MajorThreshold(first);
    if majorIterThreshold > firstThreshold {
      firstThreshold := majorIterThreshold;
    }
    c := signed.(threshold := firstThreshold);
  }

  /** What a major iteration returns after its loop. */
  method Report(s: Settings, first: real, last: Option<real>, components: nat)
    returns (value: real, reachedMajorThreshold: bool)
    ensures value == if last.Some? then last.value else 0.0
    ensures reachedMajorThreshold <==> last.Some? && s.AsksForMore(last.value, first, components)
  {
    if last.None? {
      return 0.0, false;
    }
    value := last.value;
    var finalThresholdReached := Abs(value) <= s.clean.threshold || value == 0.0;
    var negativeReached := value < 0.0 && s.clean.stopOnNegative;
    var mgainReached := Abs(value) <= s.MajorThreshold(first);
    var didWork := components != 0;
    reachedMajorThreshold := mgainReached && didWork && !negativeReached && !finalThresholdReached;
  }

  /**
   * A loop that did something and did not run out of iterations asks for another major iteration if and only if the
   * peak it left would still be cleaned down to the final threshold.
   */
  lemma MoreToClean(s: Settings, first: real, d: Images, iteration: nat, positions: seq<nat>, peaks: seq<nat>,
                    last: real)
    requires s.clean.Valid() && s.clean.Sized(d) && s.ForLoop(first).Valid() && s.ForLoop(first).Sized(d)
    requires LoopRun(s.ForLoop(first), d, iteration, positions, peaks) && peaks != []
    requires Last(s.ForLoop(first), s.ForLoop(first).Dirty(d, peaks), positions, |peaks|, Some(last))
    requires iteration + |peaks| < s.clean.maxIter
    ensures s.AsksForMore(last, first, |peaks|) <==> s.clean.Cleanable(last) && last != 0.0
  {
    LastIsLeft(s.ForLoop(first), d, iteration, positions, peaks, last);
  }
}
