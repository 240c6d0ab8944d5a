/**
 * What the search for a peak finds, in terms of the pixels of the images: the peak search of
 * deconvolution/peakfinder.cpp as the clean loop of deconvolution/genericclean.cpp uses it.
 */
module FoundPeak {
  import opened Common
  import RowMajor
  import opened PeakFinder
  import opened CleanRuns

  /** A pixel inside the borders and in the mask. */
  predicate Searched(c: Clean, x: nat, y: nat)
    requires c.mask.Some? ==> |c.mask.value| == c.Pixels()
  {
    c.horizontalBorder <= x < c.width - c.horizontalBorder && c.verticalBorder <= y < c.height - c.verticalBorder &&
    (c.mask.Some? ==> (RowMajor.Fits(c.width, c.height, x, y); c.mask.value[y * c.width + x]))
  }

  /** The value of the images at a pixel: integrated over the channels, times the noise weight. */
  function ValueAt(c: Clean, d: Images, x: nat, y: nat): real
    requires c.Valid() && c.Sized(d) && x < c.width && y < c.height
  {
    RowMajor.Fits(c.width, c.height, x, y);
    var spectrum := seq(|d|, i requires 0 <= i < |d| => d[i][y * c.width + x]);
    if c.rms.Some? then c.integrate(spectrum) * c.rms.value[y * c.width + x] else c.integrate(spectrum)
  }

  /** What values are compared by: their size, where negative components are cleaned as well. */
  function SizeOf(c: Clean, value: real): real { if c.allowNegative && value < 0.0 then -value else value }

  /** Searched pixels are smaller than the peak, or as large and not before it in the order of rows and columns. */
  ghost predicate NotHigher(c: Clean, d: Images, r: Peak, x: nat, y: nat)
    requires c.Valid() && c.Sized(d)
  {
    Searched(c, x, y) ==>
      if y < r.y || (y == r.y && x < r.x) then SizeOf(c, ValueAt(c, d, x, y)) < SizeOf(c, r.value)
      else SizeOf(c, ValueAt(c, d, x, y)) <= SizeOf(c, r.value)
  }

  /** The first highest searched pixel, which is above the smallest positive number. */
  ghost predicate IsHighest(c: Clean, d: Images, r: Peak)
    requires c.Valid() && c.Sized(d)
  {
    Searched(c, r.x, r.y) && r.value == ValueAt(c, d, r.x, r.y) && SizeOf(c, r.value) > FLOAT_MIN &&
    forall x: nat, y: nat {:trigger NotHigher(c, d, r, x, y)} :: NotHigher(c, d, r, x, y)
  }

  lemma SearchedIs(c: Clean, d: Images, x: nat, y: nat)
    requires c.Valid() && c.Sized(d)
    ensures Searched(c, x, y) <==> c.SearchOf(d).Considered(x, y)
    ensures Searched(c, x, y) ==> ValueAt(c, d, x, y) == c.SearchOf(d).At(x, y)
    ensures Searched(c, x, y) ==> SizeOf(c, ValueAt(c, d, x, y)) == c.SearchOf(d).Level(x, y)
  {
    if Searched(c, x, y) {
      RowMajor.Fits(c.width, c.height, x, y);
      assert c.Column(d, y * c.width + x) == seq(|d|, i requires 0 <= i < |d| => d[i][y * c.width + x]);
    }
  }

  /** The search finds a peak exactly if it is the first highest searched pixel. */
  lemma FoundIs(c: Clean, d: Images, r: Peak)
    requires c.Valid() && c.Sized(d)
    ensures c.SearchOf(d).Finds(Some(r)) <==> IsHighest(c, d, r)
  {
    var s := c.SearchOf(d);
    SearchedIs(c, d, r.x, r.y);
    if IsHighest(c, d, r) {
      forall x, y | s.Considered(x, y)
        ensures s.Level(x, y) <= s.Level(r.x, r.y)
        ensures s.Before(x, y, r.x, r.y) ==> s.Level(x, y) < s.Level(r.x, r.y)
      {
        SearchedIs(c, d, x, y);
        assert NotHigher(c, d, r, x, y);
      }
    }
    if s.Finds(Some(r)) {
      forall x: nat, y: nat ensures NotHigher(c, d, r, x, y) {
        SearchedIs(c, d, x, y);
      }
    }
  }

  /** The search finds nothing exactly if every searched pixel is at most the smallest positive number. */
  lemma NothingFoundIs(c: Clean, d: Images)
    requires c.Valid() && c.Sized(d)
    ensures c.SearchOf(d).Finds(None) <==>
            forall x: nat, y: nat {:trigger Searched(c, x, y)} :: Searched(c, x, y) ==>
              SizeOf(c, ValueAt(c, d, x, y)) <= FLOAT_MIN
  {
    var s := c.SearchOf(d);
    if s.Finds(None) {
      forall x: nat, y: nat | Searched(c, x, y) ensures SizeOf(c, ValueAt(c, d, x, y)) <= FLOAT_MIN {
        SearchedIs(c, d, x, y);
      }
    } else {
      var x, y :| s.Considered(x, y) && s.Before(x, y, 0, c.height) && s.Level(x, y) > FLOAT_MIN;
      SearchedIs(c, d, x, y);
    }
  }
}
