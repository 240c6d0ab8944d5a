/**
 * What a major iteration reports (deconvolution/genericclean.cpp): the value of the peak that its loop leaves, and
 * whether another major iteration is needed.  The loop on the whole image leaves the peak of the whole image, the
 * sub-minor loop the strongest selected pixel; here is when they report the same.
 */
module Reports {
  import opened Common
  import RowMajor
  import opened PeakFinder
  import opened CleanRuns
  import opened MajorIteration
  import L = SubMinorLoop

  /** The returned value: zero where the loop leaves no peak. */
  function Reported(last: Option<real>): real {
    if last.Some? then last.value else 0.0
  }

  /** Whether another major iteration is asked for. */
  predicate Asked(s: Settings, last: Option<real>, first: real, components: nat) {
    last.Some? && s.AsksForMore(last.value, first, components)
  }

  /** The pixel can be a peak, no pixel of the search outranks it, and its value is another one. */
  ghost predicate OtherPeak(c: Clean, e: Images, p: nat, value: real)
    requires c.Valid() && c.Sized(e) && p < c.Pixels()
  {
    c.Strength(c.Value(e, p)) > FLOAT_MIN && !c.Outranked(e, p) && c.Value(e, p) != value
  }

  /**
   * What has to hold of the last residual for both loops to report the same value.  If nothing is selected, no pixel
   * can be a peak.  Otherwise the strongest selected pixel can be a peak or is zero, and no unselected pixel is a peak
   * with another value.  On a dark image the first pixel is the one that is reported.
   */
  ghost predicate ReportAgrees(c: Clean, e: Images, positions: seq<nat>)
    requires c.Valid() && c.Sized(e) && c.Peaks(positions)
  {
    if c.Dark(e) then
      (positions == [] ==> c.Value(e, 0) == 0.0) &&
      forall k: nat {:trigger c.Strongest(e, positions, k)} :: c.Strongest(e, positions, k) ==>
        c.Value(e, positions[k]) == c.Value(e, 0)
    else if positions == [] then
      forall p: nat {:trigger c.Unselected(e, positions, p)} :: c.Unselected(e, positions, p) ==>
        c.Strength(c.Value(e, p)) <= FLOAT_MIN
    else
      forall k: nat {:trigger c.Strongest(e, positions, k)} :: c.Strongest(e, positions, k) ==>
        LeadsReport(c, e, positions, c.Value(e, positions[k]))
  }

  /** A selected pixel of this value is reported by both loops. */
  ghost predicate LeadsReport(c: Clean, e: Images, positions: seq<nat>, value: real)
    requires c.Valid() && c.Sized(e)
  {
    (c.Strength(value) > FLOAT_MIN || value == 0.0) &&
    forall p: nat {:trigger c.Unselected(e, positions, p)} :: c.Unselected(e, positions, p) ==>
      !OtherPeak(c, e, p, value)
  }

  /** The value that the loop on the whole image reports for a residual, seen from the sub-minor settings. */
  lemma PlainLast(c: Clean, e: Images, n: nat, last: Option<real>) returns (r: Option<Peak>)
    requires c.Valid() && c.Alike() && c.way.SubMinor? && c.Sized(e) && Last(c.For(WholeImage), e, [], n, last)
    ensures c.Finds(e, r) && last == ValueOf(r)
  {
    r :| c.For(WholeImage).At(n).Finds(e, r) && last == ValueOf(r);
    SameFinds(c, n, e, r);
  }

  /** Nothing is selected. */
  lemma NoneSelected(c: Clean, e: Images, r: Option<Peak>)
    requires c.Valid() && c.Sized(e) && !c.Dark(e) && c.SearchOf(e).Finds(r)
    ensures Reported(ValueOf(r)) == 0.0 <==> ReportAgrees(c, e, [])
  {
    if r.Some? {
      PeakInside(c, e, r.value);
      FoundOutranks(c, e, r.value, r.value.y * c.width + r.value.x);
      assert c.Unselected(e, [], r.value.y * c.width + r.value.x);
    } else {
      forall p: nat | c.Unselected(e, [], p) ensures c.Strength(c.Value(e, p)) <= FLOAT_MIN {
        DarkPixel(c, e, p);
      }
    }
  }

  /** A strongest selected pixel where the search finds no peak. */
  lemma NoPeak(c: Clean, e: Images, d0: Images, positions: seq<nat>, k: nat)
    requires c.Valid() && c.Sized(e) && c.Sized(d0) && c.Selection(d0, positions) && c.SearchOf(e).Finds(None)
    requires k < |positions|
    ensures c.Value(e, positions[k]) == 0.0 <==> LeadsReport(c, e, positions, c.Value(e, positions[k]))
  {
    assert positions[k] in positions;
    SelectedConsidered(c, e, d0, positions, positions[k]);
    DarkPixel(c, e, positions[k]);
    forall p: nat | c.Unselected(e, positions, p) ensures c.Strength(c.Value(e, p)) <= FLOAT_MIN {
      DarkPixel(c, e, p);
    }
  }

  /** A strongest selected pixel where the search finds a peak. */
  lemma SomePeak(c: Clean, e: Images, d0: Images, positions: seq<nat>, k: nat, r: Peak)
    requires c.Valid() && c.Sized(e) && c.Sized(d0) && c.Selection(d0, positions) && c.SearchOf(e).Finds(Some(r))
    requires c.Strongest(e, positions, k)
    ensures r.value == c.Value(e, positions[k]) <==> LeadsReport(c, e, positions, c.Value(e, positions[k]))
  {
    var q := r.y * c.width + r.x;
    PeakInside(c, e, r);
    FoundOutranks(c, e, r, q);
    forall p: nat | c.Unselected(e, positions, p) && p != q ensures c.Outranked(e, p) {
      FoundOutranks(c, e, r, p);
    }
    if q in positions {
      FullPeakIsStrongest(c, e, d0, positions, r);
    } else {
      assert c.Unselected(e, positions, q);
      NotOutrankedFound(c, e, r);
    }
  }

  lemma NotOutrankedFound(c: Clean, e: Images, r: Peak)
    requires c.Valid() && c.Sized(e) && c.SearchOf(e).Finds(Some(r))
    ensures r.y * c.width + r.x < c.Pixels() && !c.Outranked(e, r.y * c.width + r.x)
  {
    PeakInside(c, e, r);
    forall p: nat | p < c.Pixels() && c.ConsideredAt(e, p) ensures !c.Outranks(e, p, r.y * c.width + r.x) {
      FoundOutranks(c, e, r, p);
    }
  }

  /** Both loops report the same value for the same residual if and only if it meets the condition. */
  lemma SameValueIff(c: Clean, e: Images, d0: Images, positions: seq<nat>, n: nat, plain: Option<real>,
                     sub: Option<real>)
    requires c.Valid() && c.Alike() && c.way.SubMinor? && c.Sized(e) && c.Sized(d0) && c.Selection(d0, positions)
    requires Last(c.For(WholeImage), e, [], n, plain) && Last(c, e, positions, n, sub)
    ensures Reported(plain) == Reported(sub) <==> ReportAgrees(c, e, positions)
  {
    var r := PlainLast(c, e, n, plain);
    if positions == [] {
      if !c.Dark(e) {
        NoneSelected(c, e, r);
      }
    } else {
      var k: nat :| c.Strongest(e, positions, k) && sub == Some(c.Value(e, positions[k]));
      forall m: nat | c.Strongest(e, positions, m) ensures m == k {
        OneStrongest(c, e, positions, k, m);
      }
      if !c.Dark(e) {
        if r.None? {
          NoPeak(c, e, d0, positions, k);
        } else {
          SomePeak(c, e, d0, positions, k, r.value);
        }
      }
    }
  }

  // ----- a whole major iteration

  /** No peak and a peak of zero both ask for nothing. */
  lemma AskedByValue(s: Settings, last: Option<real>, first: real, components: nat)
    ensures Asked(s, last, first, components) <==> s.AsksForMore(Reported(last), first, components)
  {
  }

  /**
   * Two finished loops of a major iteration, one of each kind, with the same components: they leave the same model;
   * they report the same value if and only if the last residual meets the condition; and then they also agree on
   * whether another major iteration is needed.
   */
  lemma SameReport(s: Settings, first: real, d: Images, m: Images, iteration: nat, positions: seq<nat>,
                   peaks: seq<nat>, plain: Option<real>, sub: Option<real>)
    requires var c := s.ForLoop(first);
             c.Valid() && c.Alike() && c.way.SubMinor? && c.Sized(d) && c.Sized(m) && c.Selection(d, positions) &&
             c.For(WholeImage).PlainRun(d, iteration, peaks) && c.SubRun(d, positions, iteration, peaks) &&
             Last(c.For(WholeImage), c.For(WholeImage).Dirty(d, peaks), [], |peaks|, plain) &&
             Last(c, c.Dirty(d, peaks), positions, |peaks|, sub)
    ensures var c := s.ForLoop(first);
            Outcome(c.For(WholeImage), d, m, iteration, peaks).1 == Outcome(c, d, m, iteration, peaks).1 &&
            (Reported(plain) == Reported(sub) <==> ReportAgrees(c, c.Dirty(d, peaks), positions)) &&
            (Reported(plain) == Reported(sub) ==>
               (Asked(s, plain, first, |peaks|) <==> Asked(s, sub, first, |peaks|)))
  {
    var c := s.ForLoop(first);
    SameRun(c, m, d, peaks);
    SameValueIff(c, c.Dirty(d, peaks), d, positions, |peaks|, plain, sub);
    AskedByValue(s, plain, first, |peaks|);
    AskedByValue(s, sub, first, |peaks|);
  }

  /** Some selected pixel is stronger than a level. */
  ghost predicate SelectedAbove(c: Clean, e: Images, positions: seq<nat>, level: real)
    requires c.Valid() && c.Sized(e) && c.Peaks(positions)
  {
    exists k: nat :: k < |positions| && c.Strength(c.Value(e, positions[k])) > level
  }

  /** Some pixel of the search is stronger than a level. */
  ghost predicate AnyAbove(c: Clean, e: Images, level: real)
    requires c.Valid() && c.Sized(e)
  {
    exists p: nat :: p < c.Pixels() && c.ConsideredAt(e, p) && c.Strength(c.Value(e, p)) > level
  }

  /** What the search finds is above a level exactly if some pixel is. */
  lemma FoundAbove(c: Clean, e: Images, r: Option<Peak>, level: real)
    requires c.Valid() && c.Sized(e) && c.SearchOf(e).Finds(r) && level >= FLOAT_MIN
    ensures (r.Some? && c.Strength(r.value.value) > level) <==> AnyAbove(c, e, level)
  {
    if r.Some? {
      PeakInside(c, e, r.value);
      FoundOutranks(c, e, r.value, r.value.y * c.width + r.value.x);
      forall p: nat | p < c.Pixels() && c.ConsideredAt(e, p)
        ensures c.Strength(c.Value(e, p)) <= c.Strength(r.value.value) {
        FoundOutranks(c, e, r.value, p);
      }
    } else {
      forall p: nat | p < c.Pixels() && c.ConsideredAt(e, p) ensures c.Strength(c.Value(e, p)) <= FLOAT_MIN {
        DarkPixel(c, e, p);
      }
    }
  }

  /** The strongest selected pixel is above a level exactly if some selected one is. */
  lemma StrongestAbove(c: Clean, e: Images, positions: seq<nat>, last: Option<real>, level: real)
    requires c.Valid() && c.Sized(e) && c.Peaks(positions) && L.LastIs(c, e, positions, last)
    ensures (last.Some? && c.Strength(last.value) > level) <==> SelectedAbove(c, e, positions, level)
  {
    if positions != [] {
      var k: nat :| c.Strongest(e, positions, k) && last == Some(c.Value(e, positions[k]));
      assert c.Strength(c.Value(e, positions[k])) > level ==> SelectedAbove(c, e, positions, level);
      forall j: nat | j < |positions|
        ensures c.Strength(c.Value(e, positions[j])) <= c.Strength(c.Value(e, positions[k])) {
        assert positions[j] == positions[j];
      }
    }
  }

  /** Every unselected pixel is at most at a level, or some selected pixel is above it. */
  ghost predicate LevelSelected(c: Clean, e: Images, positions: seq<nat>, level: real)
    requires c.Valid() && c.Sized(e) && c.Peaks(positions)
  {
    SelectedAbove(c, e, positions, level) ||
    forall p: nat {:trigger c.Unselected(e, positions, p)} :: c.Unselected(e, positions, p) ==>
      c.Strength(c.Value(e, p)) <= level
  }

  lemma LevelSelectedIff(c: Clean, e: Images, d0: Images, positions: seq<nat>, level: real)
    requires c.Valid() && c.Sized(e) && c.Sized(d0) && c.Selection(d0, positions)
    ensures (AnyAbove(c, e, level) <==> SelectedAbove(c, e, positions, level)) <==>
              LevelSelected(c, e, positions, level)
  {
    if SelectedAbove(c, e, positions, level) {
      var k: nat :| k < |positions| && c.Strength(c.Value(e, positions[k])) > level;
      assert positions[k] in positions;
      SelectedConsidered(c, e, d0, positions, positions[k]);
    }
    if AnyAbove(c, e, level) {
      var p: nat :| p < c.Pixels() && c.ConsideredAt(e, p) && c.Strength(c.Value(e, p)) > level;
      assert p in positions || c.Unselected(e, positions, p);
    }
    forall p: nat | c.Unselected(e, positions, p) && c.Strength(c.Value(e, p)) > level
      ensures AnyAbove(c, e, level) {
    }
  }

  /**
   * Where negative components are cleaned as positive ones are, and iterations are left: both loops agree on whether
   * another major iteration is needed if and only if some selected pixel is above the final threshold or no
   * unselected one is; on a dark image, if and only if the first pixel is not above it.
   */
  lemma SameAnswerIff(s: Settings, first: real, d: Images, iteration: nat, positions: seq<nat>, peaks: seq<nat>,
                      plain: Option<real>, sub: Option<real>)
    requires s.clean.Valid() && s.clean.Sized(d) && s.clean.allowNegative && !s.clean.stopOnNegative
    requires s.clean.threshold >= FLOAT_MIN && peaks != [] && iteration + |peaks| < s.clean.maxIter
    requires var c := s.ForLoop(first);
             c.Valid() && c.Alike() && c.way.SubMinor? && c.Sized(d) && c.Selection(d, positions) &&
             c.For(WholeImage).PlainRun(d, iteration, peaks) && c.SubRun(d, positions, iteration, peaks) &&
             Last(c.For(WholeImage), c.For(WholeImage).Dirty(d, peaks), [], |peaks|, plain) &&
             Last(c, c.Dirty(d, peaks), positions, |peaks|, sub)
    ensures var c, e := s.ForLoop(first), s.ForLoop(first).Dirty(d, peaks);
            (Asked(s, plain, first, |peaks|) <==> Asked(s, sub, first, |peaks|)) <==>
              if c.Dark(e) then Abs(c.Value(e, 0)) <= s.clean.threshold
              else LevelSelected(c, e, positions, s.clean.threshold)
  {
    var c := s.ForLoop(first);
    var e, w, level := c.Dirty(d, peaks), c.For(WholeImage), s.clean.threshold;
    SameRun(c, d, d, peaks);
    var r := PlainLast(c, e, |peaks|, plain);
    AskedAbove(s, first, w, d, iteration, [], peaks, plain);
    AskedAbove(s, first, c, d, iteration, positions, peaks, sub);
    StrongestAbove(c, e, positions, sub, level);
    if c.Dark(e) {
      DarkSelected(c, e, d, positions, level);
    } else {
      FoundAbove(c, e, r, level);
      LevelSelectedIff(c, e, d, positions, level);
    }
  }

  lemma DarkSelected(c: Clean, e: Images, d0: Images, positions: seq<nat>, level: real)
    requires c.Valid() && c.Sized(e) && c.Sized(d0) && c.Selection(d0, positions) && c.Dark(e) && level >= FLOAT_MIN
    ensures !SelectedAbove(c, e, positions, level)
  {
    forall k: nat | k < |positions| ensures c.Strength(c.Value(e, positions[k])) <= level {
      assert positions[k] in positions;
      SelectedConsidered(c, e, d0, positions, positions[k]);
      DarkPixel(c, e, positions[k]);
    }
  }

  /** A finished loop asks for more exactly if the peak that it left is above the final threshold. */
  lemma AskedAbove(s: Settings, first: real, c: Clean, d: Images, iteration: nat, positions: seq<nat>,
                   peaks: seq<nat>, last: Option<real>)
    requires !s.clean.stopOnNegative && s.clean.threshold >= FLOAT_MIN && peaks != []
    requires c == s.ForLoop(first).For(c.way) && iteration + |peaks| < s.clean.maxIter
    requires c.Valid() && c.Sized(d) && LoopRun(c, d, iteration, positions, peaks)
    requires Last(c, c.Dirty(d, peaks), positions, |peaks|, last)
    ensures Asked(s, last, first, |peaks|) <==> last.Some? && Abs(last.value) > s.clean.threshold
  {
    if last.Some? {
      LastIsLeft(c, d, iteration, positions, peaks, last.value);
    }
  }

  // ----- the first peak

  /** Nothing is selected if and only if the first peak is below the threshold of the loop. */
  lemma NothingSelectedIff(c: Clean, d: Images, first: Peak, positions: seq<nat>)
    requires c.Valid() && c.Sized(d) && c.SearchOf(d).Finds(Some(first)) && c.Selection(d, positions)
    ensures positions == [] <==> Abs(first.value) < c.threshold
    ensures Abs(first.value) >= c.threshold ==> first.y * c.width + first.x in positions
  {
    var q := first.y * c.width + first.x;
    PeakInside(c, d, first);
    FoundOutranks(c, d, first, q);
    assert c.Strength(first.value) == Abs(first.value);
    assert q in positions <==> c.Strength(c.Value(d, q)) >= c.threshold;
    if positions != [] {
      assert positions[0] in positions;
      FoundOutranks(c, d, first, positions[0]);
    }
  }

  /** The threshold plays no part in the search, and neither does the way in which the loop runs. */
  lemma SameSearchFor(s: Settings, first: real, way: Way, d: Images)
    requires s.Signed().Valid() && s.Signed().Sized(d)
    ensures s.ForLoop(first).Valid() && s.ForLoop(first).For(way).SearchOf(d) == s.Signed().SearchOf(d)
  {
    SameSearchWith(s.Signed(), s.ForLoop(first).For(way), d);
  }

  /** Settings that differ in the threshold and the way of the loop only search for the same peak. */
  lemma SameSearchWith(a: Clean, b: Clean, d: Images)
    requires a.Valid() && a.Sized(d) && b == a.(threshold := b.threshold, way := b.way)
    ensures b.Valid() && b.Sized(d) && b.SearchOf(d) == a.SearchOf(d)
  {
    forall p | 0 <= p < a.Pixels() ensures a.Integrated(d)[p] == b.Integrated(d)[p] {
      assert a.Column(d, p) == b.Column(d, p);
    }
  }

  /** The sub-minor loop reports nothing if and only if the first peak is below the threshold of the loop. */
  lemma SubMinorReportsIff(s: Settings, d: Images, first: Peak, iteration: nat, positions: seq<nat>,
                           peaks: seq<nat>, last: Option<real>)
    requires s.Signed().Valid() && s.Signed().Sized(d) && s.Signed().SearchOf(d).Finds(Some(first))
    requires var c := s.ForLoop(first.value).For(SubMinor);
             c.Valid() && c.Sized(d) && LoopRun(c, d, iteration, positions, peaks) &&
             Last(c, c.Dirty(d, peaks), positions, |peaks|, last)
    ensures last.None? <==> Abs(first.value) < s.ForLoop(first.value).threshold
    ensures peaks == [] && last.Some? ==> last.value == first.value
  {
    var c := s.ForLoop(first.value).For(SubMinor);
    SameSearchFor(s, first.value, SubMinor, d);
    NothingSelectedIff(c, d, first, positions);
    if peaks == [] && last.Some? {
      FullPeakIsStrongest(c, d, d, positions, first);
    }
  }

  /** The loop on the whole image reports the first peak if it cleans nothing, as it does below its threshold. */
  lemma PlainReports(s: Settings, d: Images, first: Peak, iteration: nat, positions: seq<nat>, peaks: seq<nat>,
                     last: Option<real>)
    requires s.Signed().Valid() && s.Signed().Sized(d) && s.Signed().SearchOf(d).Finds(Some(first))
    requires var c := s.ForLoop(first.value).For(WholeImage);
             c.Valid() && c.Sized(d) && LoopRun(c, d, iteration, positions, peaks) &&
             Last(c, c.Dirty(d, peaks), positions, |peaks|, last)
    ensures Abs(first.value) <= s.ForLoop(first.value).threshold ==> peaks == []
    ensures peaks == [] ==> last == Some(first.value)
  {
    var c := s.ForLoop(first.value).For(WholeImage);
    SameSearchFor(s, first.value, WholeImage, d);
    FirstIsFound(c, d, first);
    if peaks != [] {
      FirstIsCleaned(c, d, first, iteration, peaks);
    } else {
      var r: Option<Peak> :| c.At(0).Finds(d, r) && last == ValueOf(r);
      FoundOnce(c, d, r, Some(first));
    }
  }

  lemma FirstIsFound(c: Clean, d: Images, first: Peak)
    requires c.Valid() && c.Sized(d) && c.SearchOf(d).Finds(Some(first))
    ensures c.Finds(d, Some(first))
  {
    if c.Dark(d) {
      FindsOne(c.SearchOf(d), None, Some(first));
    }
  }

  lemma FirstIsCleaned(c: Clean, d: Images, first: Peak, iteration: nat, peaks: seq<nat>)
    requires c.Valid() && c.Sized(d) && c.Finds(d, Some(first)) && c.PlainRun(d, iteration, peaks) && peaks != []
    ensures c.Continues(first.value, iteration)
  {
    assert c.PlainStep(d, iteration, peaks, 0) && peaks[..0] == [];
    var r: Peak :| c.Finds(d, Some(r)) && c.Continues(r.value, iteration);
    FoundOnce(c, d, Some(r), Some(first));
  }

  /**
   * A first peak, when no component is cleaned, as in the round that only looks for peaks: both loops report the same
   * value if and only if the peak reaches the threshold of the loop.  Below it the sub-minor loop reports zero.
   */
  lemma FirstReportedIff(s: Settings, d: Images, first: Peak, iteration: nat, positions: seq<nat>,
                         plain: Option<real>, sub: Option<real>)
    requires s.Signed().Valid() && s.Signed().Sized(d) && s.Signed().SearchOf(d).Finds(Some(first))
    requires var c := s.ForLoop(first.value);
             c.Valid() && c.Sized(d) &&
             LoopRun(c.For(WholeImage), d, iteration, [], []) &&
             LoopRun(c.For(SubMinor), d, iteration, positions, []) &&
             Last(c.For(WholeImage), d, [], 0, plain) && Last(c.For(SubMinor), d, positions, 0, sub)
    ensures Reported(plain) == first.value
    ensures Reported(plain) == Reported(sub) <==> Abs(first.value) >= s.ForLoop(first.value).threshold
    ensures Abs(first.value) < s.ForLoop(first.value).threshold ==> Reported(sub) == 0.0
  {
    PlainReports(s, d, first, iteration, [], [], plain);
    SubMinorReportsIff(s, d, first, iteration, positions, [], sub);
    var q := PixelOf(s.Signed(), d, first);
    FoundOutranks(s.Signed(), d, first, q);
  }

  lemma PixelOf(c: Clean, d: Images, first: Peak) returns (q: nat)
    requires c.Valid() && c.Sized(d) && c.SearchOf(d).Finds(Some(first))
    ensures q < c.Pixels() && c.ConsideredAt(d, q)
  {
    PeakInside(c, d, first);
    q := first.y * c.width + first.x;
  }

  /** A loop that cleans a component has iterations left at its start. */
  lemma HadIterations(c: Clean, d: Images, iteration: nat, positions: seq<nat>, peaks: seq<nat>)
    requires c.Valid() && c.Sized(d) && LoopRun(c, d, iteration, positions, peaks)
    ensures peaks == [] || iteration < c.maxIter
  {
    if peaks != [] {
      if c.way.WholeImage? {
        assert c.PlainStep(d, iteration, peaks, 0);
      } else {
        assert c.SubStep(d, positions, iteration, peaks, 0);
      }
    }
  }
}
