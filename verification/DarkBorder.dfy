/**
 * An image on which the plain loop, with vector instructions, cleans a pixel in the border: the only pixel that takes
 * part in the search is zero, so that the search returns the first pixel of the image.
 */
module DarkBorder {
  import opened Common
  import opened PeakFinder
  import opened CleanRuns
  import GenericClean
  import U = UnselectedPeak

  const DIRTY: Images := [[5.0, 0.0, 0.0, 0.0, 0.0, 0.0, 0.0, 0.0, 0.0]]

  const PSF: seq<real> := [0.0, 0.0, 0.0, 0.0, 1.0, 0.0, 0.0, 0.0, 0.0]

  /** A 3 by 3 image with a border of one pixel, threshold 1 and gain 1. */
  function Settings(lanes: nat): Clean {
    Clean(3, 3, [PSF], [0], 1.0, 1.0, 10, true, false, 1, 1, None, None, v => U.First(v), v => U.First(v),
          (v, x, y) => v, WholeImage, lanes)
  }

  lemma SearchFails(lanes: nat)
    ensures var c := Settings(lanes);
            c.Valid() && c.Sized(DIRTY) && c.SearchOf(DIRTY).Finds(None) && c.Value(DIRTY, 0) == 5.0
  {
    var c := Settings(lanes);
    var s := c.SearchOf(DIRTY);
    assert c.Column(DIRTY, 0) == [5.0] && c.Column(DIRTY, 4) == [0.0];
    forall x, y | s.Considered(x, y) ensures s.Level(x, y) <= FLOAT_MIN {
      assert x == 1 && y == 1;
      assert s.image[4] == c.Value(DIRTY, 4);
    }
  }

  /** With vector instructions the loop goes on with the first pixel, in the border; without them it stops. */
  lemma BorderIsCleaned(lanes: nat)
    ensures var c := Settings(lanes);
            c.Valid() && c.Sized(DIRTY) && !c.ConsideredAt(DIRTY, 0) &&
            (lanes > 0 ==> c.PlainGoesOn(DIRTY, 0, 0)) && (lanes == 0 ==> c.PlainStops(DIRTY, 0))
  {
    SearchFails(lanes);
    var c := Settings(lanes);
    if lanes > 0 {
      assert c.Finds(DIRTY, Some(Peak(0, 0, 5.0)));
    } else {
      GenericClean.PlainEnds(c, DIRTY, 0, None);
    }
  }
}
