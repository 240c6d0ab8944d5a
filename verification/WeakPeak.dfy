/**
 * A peak that the loop on the whole image reports and the sub-minor loop does not: it is above the final threshold,
 * but below the level that an earlier major iteration has set.
 */
module WeakPeak {
  import opened Common
  import opened PeakFinder
  import opened CleanRuns
  import opened MajorIteration
  import opened Reports
  import U = UnselectedPeak
  import LocalClean

  /** A final threshold of 1, and a level of 3 for the major iteration. */
  function Levels(): Settings { Settings(U.Settings(SubMinor), 1.0, 3.0) }

  lemma PeakIs()
    ensures var c := Levels().Signed();
            c.Valid() && c.Sized(U.DIRTY) && c.SearchOf(U.DIRTY).Finds(Some(Peak(1, 1, 2.0)))
    ensures Levels().clean.threshold == 1.0 && Levels().ForLoop(2.0).threshold == 3.0
  {
    U.SettingsAlike(SubMinor);
    var c := Levels().Signed();
    assert c == U.Settings(SubMinor);
    forall p: nat | p < 4 ensures c.Value(U.DIRTY, p) == U.DIRTY[0][p] && c.ConsideredAt(U.DIRTY, p) {
      U.ValueIs(SubMinor, U.DIRTY, p);
    }
    var r := OutranksIsFound(c, U.DIRTY, 3);
    PeakInside(c, U.DIRTY, r);
  }

  /** A loop without an iteration left, and nothing selected. */
  lemma RunWithout(c: Clean, d: Images) returns (last: Option<real>)
    requires c.Valid() && c.Sized(d) && c.maxIter <= 10 && (c.way.SubMinor? ==> c.Selection(d, []))
    ensures LoopRun(c, d, 10, [], []) && Last(c, d, [], 0, last)
  {
    last := None;
    if c.way.WholeImage? {
      var r := LocalClean.SearchSucceeds(c.At(0), d);
      last := ValueOf(r);
    }
  }

  lemma NothingReaches3(c: Clean)
    requires c == Levels().ForLoop(2.0) && c.Valid() && c.Sized(U.DIRTY)
    requires c.SearchOf(U.DIRTY).Finds(Some(Peak(1, 1, 2.0)))
    ensures c.Selection(U.DIRTY, [])
  {
    var positions, peaks := LocalClean.RunExists(c, U.DIRTY, 0);
    NothingSelectedIff(c, U.DIRTY, Peak(1, 1, 2.0), positions);
  }

  /** Both loops without an iteration left, as in the round that looks for peaks: one reports 2, the other zero. */
  lemma OneReports() returns (plain: Option<real>, sub: Option<real>)
    ensures Levels().clean.threshold <= 2.0 < Levels().ForLoop(2.0).threshold
    ensures var c, d := Levels().ForLoop(2.0), U.DIRTY;
            c.Valid() && c.Sized(d) &&
            LoopRun(c.For(WholeImage), d, 10, [], []) && Last(c.For(WholeImage), d, [], 0, plain) &&
            LoopRun(c.For(SubMinor), d, 10, [], []) && Last(c.For(SubMinor), d, [], 0, sub)
    ensures Reported(plain) == 2.0 && Reported(sub) == 0.0
  {
    PeakIs();
    var c := Levels().ForLoop(2.0);
    SameSearchWith(Levels().Signed(), c, U.DIRTY);
    NothingReaches3(c);
    plain := RunWithout(c.For(WholeImage), U.DIRTY);
    sub := RunWithout(c, U.DIRTY);
    assert c.For(SubMinor) == c;
    FirstReportedIff(Levels(), U.DIRTY, Peak(1, 1, 2.0), 10, [], plain, sub);
  }
}
