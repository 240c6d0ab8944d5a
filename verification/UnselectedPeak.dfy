/**
 * An image on which the sub-minor loop and the loop on the whole image differ: a pixel that is not selected at first
 * rises above the threshold when its neighbour is cleaned with a negative lobe of the PSF.
 */
module UnselectedPeak {
  import opened Common
  import RowMajor
  import opened PeakFinder
  import opened CleanRuns

  /** The PSF is one at its centre, the last of the four pixels, and minus one left of it. */
  const PSF: seq<real> := [0.0, 0.0, -1.0, 1.0]

  const DIRTY: Images := [[0.0, 0.0, 0.5, 2.0]]

  const AFTER: Images := [[0.0, 0.0, 2.5, 0.0]]

  const CLEANED: Images := [[0.0, 0.0, 0.0, 0.0]]

  function First(v: seq<real>): real {
    if v == [] then 0.0 else v[0]
  }

  /** Clean with threshold 1 and gain 1, a single image and no spectral fit. */
  function Settings(way: Way): Clean {
    Clean(2, 2, [PSF], [0], 1.0, 1.0, 10, true, false, 0, 0, None, None, v => First(v), v => First(v), (v, x, y) => v,
          way, 0)
  }

  lemma SettingsAlike(way: Way)
    ensures Settings(way).Valid() && Settings(way).Alike()
    ensures Settings(SubMinor).For(WholeImage) == Settings(WholeImage)
  {
    var c := Settings(way);
    forall v: seq<real>, x, y | |v| == 1 ensures c.fit(Scale(c.gain, v), x, y) == Scale(c.gain, c.fit(v, x, y)) {
    }
  }

  lemma ValueIs(way: Way, d: Images, p: nat)
    requires Settings(way).Sized(d) && p < 4
    ensures Settings(way).Valid() && Settings(way).Value(d, p) == d[0][p]
    ensures Settings(way).ConsideredAt(d, p)
  {
    SettingsAlike(way);
    RowMajor.Joins(2, 2, p);
  }

  lemma KernelIs(way: Way, p: nat)
    requires p < 4
    ensures Settings(way).Valid()
    ensures Settings(way).Kernel(0, p, 3) == PSF[p]
    ensures Settings(way).Kernel(0, p, 2) == if p == 2 then 1.0 else 0.0
  {
    SettingsAlike(way);
  }

  lemma ComponentIs(way: Way, d: Images, q: nat)
    requires Settings(way).Sized(d) && q < 4
    ensures Settings(way).Valid() && Settings(way).Component(d, q) == [d[0][q]]
  {
    SettingsAlike(way);
    assert Settings(way).Column(d, q) == [d[0][q]];
    assert Scale(1.0, [d[0][q]]) == [d[0][q]];
  }

  /** What cleaning pixel q, whose value is v, leaves of pixel p. */
  lemma Subtracted(way: Way, d: Images, q: nat, v: real, p: nat)
    requires Settings(way).Sized(d) && p < 4 && q < 4 && d[0][q] == v
    ensures Settings(way).Valid()
    ensures Settings(way).Subtract(d, q)[0][p] == d[0][p] - Settings(way).Kernel(0, p, q) * v
  {
    ComponentIs(way, d, q);
    SubtractAt(Settings(way), d, q, 0, p);
  }

  lemma CleanPixel(way: Way, p: nat)
    requires p < 4
    ensures Settings(way).Valid() && Settings(way).Sized(DIRTY) && Settings(way).Sized(AFTER)
    ensures Settings(way).Subtract(DIRTY, 3)[0][p] == AFTER[0][p]
    ensures Settings(way).Subtract(AFTER, 2)[0][p] == CLEANED[0][p]
  {
    Subtracted(way, DIRTY, 3, 2.0, p);
    Subtracted(way, AFTER, 2, 2.5, p);
    KernelIs(way, p);
  }

  lemma SameImage(a: Images, b: Images)
    requires |a| == |b| == 1 && |a[0]| == |b[0]| == 4 && forall p :: 0 <= p < 4 ==> a[0][p] == b[0][p]
    ensures a == b
  {
    assert a[0] == b[0];
  }

  lemma CleanBoth(way: Way)
    ensures Settings(way).Valid() && Settings(way).Sized(DIRTY) && Settings(way).Sized(AFTER)
    ensures Settings(way).Subtract(DIRTY, 3) == AFTER && Settings(way).Subtract(AFTER, 2) == CLEANED
  {
    CleanPixel(way, 0);
    CleanPixel(way, 1);
    CleanPixel(way, 2);
    CleanPixel(way, 3);
    SameImage(Settings(way).Subtract(DIRTY, 3), AFTER);
    SameImage(Settings(way).Subtract(AFTER, 2), CLEANED);
  }

  lemma DirtyAre(way: Way)
    ensures var c := Settings(way);
            c.Valid() && c.Sized(DIRTY) && c.Dirty(DIRTY, []) == DIRTY && c.Dirty(DIRTY, [3]) == AFTER &&
            c.Dirty(DIRTY, [3, 2]) == CLEANED
  {
    CleanBoth(way);
    assert [3][..0] == [] && [3, 2][..1] == [3];
  }

  /** The pixel with the highest value above the threshold is what the loop on the whole image cleans. */
  lemma GoesOn(k: nat, d: Images, q: nat, iteration: nat)
    requires Settings(WholeImage).Sized(d) && q < 4 && d[0][q] > 1.0 && iteration < 10
    requires forall p :: 0 <= p < 4 && p != q ==> 0.0 <= d[0][p] < d[0][q]
    ensures Settings(WholeImage).Valid() && Settings(WholeImage).At(k).PlainGoesOn(d, iteration, q)
  {
    SettingsAlike(WholeImage);
    var c := Settings(WholeImage);
    assert c.At(k) == c;
    forall p: nat | p < 4 ensures c.Value(d, p) == d[0][p] && c.ConsideredAt(d, p) {
      ValueIs(WholeImage, d, p);
    }
    var r := OutranksIsFound(c, d, q);
  }

  /** The loop on the whole image stops when no value is above the threshold. */
  lemma Stops(k: nat, d: Images, iteration: nat)
    requires Settings(WholeImage).Sized(d) && forall p :: 0 <= p < 4 ==> Abs(d[0][p]) <= 1.0
    ensures Settings(WholeImage).Valid() && Settings(WholeImage).At(k).PlainStops(d, iteration)
  {
    SettingsAlike(WholeImage);
    var c := Settings(WholeImage);
    assert c.At(k) == c;
    forall r: Peak | c.Finds(d, Some(r)) ensures !c.Continues(r.value, iteration) {
      PeakInside(c, d, r);
      FoundOutranks(c, d, r, r.y * c.width + r.x);
      ValueIs(WholeImage, d, r.y * c.width + r.x);
    }
  }

  lemma PlainCleansBoth()
    ensures Settings(WholeImage).Valid() && Settings(WholeImage).Sized(DIRTY)
    ensures Settings(WholeImage).PlainRun(DIRTY, 0, [3, 2])
  {
    DirtyAre(WholeImage);
    GoesOn(0, DIRTY, 3, 0);
    GoesOn(1, AFTER, 2, 1);
    Stops(2, CLEANED, 2);
    assert [3, 2][..0] == [] && [3, 2][..1] == [3];
  }

  lemma SelectedIs()
    ensures Settings(SubMinor).Valid() && Settings(SubMinor).Sized(DIRTY)
    ensures Settings(SubMinor).Selection(DIRTY, [3])
  {
    SettingsAlike(SubMinor);
    var c := Settings(SubMinor);
    forall p: nat | p < 4 ensures c.Value(DIRTY, p) == DIRTY[0][p] && c.ConsideredAt(DIRTY, p) {
      ValueIs(SubMinor, DIRTY, p);
    }
    assert 3 in [3];
  }

  /** With one selected pixel the sub-minor loop goes on exactly as long as its value is to be cleaned. */
  lemma OneSelected(d: Images, iteration: nat)
    requires Settings(SubMinor).Sized(d)
    ensures var c := Settings(SubMinor);
            c.Valid() && (c.Continues(d[0][3], iteration) ==> c.SubGoesOn(d, [3], iteration, 3)) &&
            (!c.Continues(d[0][3], iteration) ==> c.SubStops(d, [3], iteration))
  {
    ValueIs(SubMinor, d, 3);
    assert Settings(SubMinor).Strongest(d, [3], 0);
  }

  lemma SubMinorCleansOne()
    ensures Settings(SubMinor).Valid() && Settings(SubMinor).Sized(DIRTY)
    ensures Settings(SubMinor).SubRun(DIRTY, [3], 0, [3])
  {
    DirtyAre(SubMinor);
    OneSelected(DIRTY, 0);
    OneSelected(AFTER, 1);
    assert [3][..0] == [];
  }

  /** On this image the two loops clean different pixels, although they subtract the same and search alike. */
  lemma UnselectedRises()
    ensures var c := Settings(SubMinor);
            c.Valid() && c.Alike() && c.Sized(DIRTY) && c.Selection(DIRTY, [3]) && c.SubRun(DIRTY, [3], 0, [3]) &&
            c.For(WholeImage).PlainRun(DIRTY, 0, [3, 2])
    ensures exists j :: 0 <= j <= 1 && !AgreesAt(Settings(SubMinor), DIRTY, [3], 0, [3], j)
  {
    SettingsAlike(SubMinor);
    SelectedIs();
    SubMinorCleansOne();
    PlainCleansBoth();
    SubMinorIsPlain(Settings(SubMinor), DIRTY, [3], 0, [3, 2], [3]);
  }
}
