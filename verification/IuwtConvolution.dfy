/**
 * The convolutions of the isotropic undecimated wavelet transform (iuwt/iuwtdecomposition.h and .cpp):
 * a five-tap kernel with holes, applied along rows and then along columns.  The simple version adds one
 * tap at a time; the fast version has one loop per segment of a line, by which taps fall on the image.
 */
module IuwtConvolution {
  import opened Common

  type Image = seq<seq<real>>

  ghost predicate Shaped(img: Image, width: nat, height: nat) {
    |img| == height && forall y {:trigger img[y]} :: 0 <= y < height ==> |img[y]| == width
  }

  /** A value times tap k of the kernel 1/16, 4/16, 6/16, 4/16, 1/16. */
  function Weigh(k: nat, value: real): real
    requires k < 5
  {
    if k == 0 || k == 4 then value * (1.0 / 16.0) else if k == 1 || k == 3 then value * (4.0 / 16.0)
        else value * (6.0 / 16.0)
  }

  /** The distance of tap k, for taps that are d apart. */
  function Dist(d: nat, k: nat): int
    requires k < 5
  {
    if k == 0 then -2 * d else if k == 1 then -1 * d else if k == 2 then 0 else if k == 3 then d else 2 * d
  }

  /** The pixel of a line; zero outside. */
  function At(line: seq<real>, x: int): real {
    if 0 <= x < |line| then line[x] else 0.0
  }

  /** The first n taps around pixel x. */
  function Taps(line: seq<real>, d: nat, x: int, n: nat): real
    requires n <= 5
  {
    if n == 0 then 0.0 else Taps(line, d, x, n - 1) + Weigh(n - 1, At(line, x + Dist(d, n - 1)))
  }

  lemma AllTaps(line: seq<real>, d: nat, x: int)
    ensures Taps(line, d, x, 5) == At(line, x - 2 * d) / 16.0 + At(line, x - d) * 4.0 / 16.0 +
            At(line, x) * 6.0 / 16.0 +
                                   At(line, x + d) * 4.0 / 16.0 + At(line, x + 2 * d) / 16.0
  {
    assert Taps(line, d, x, 1) == At(line, x - 2 * d) * (1.0 / 16.0);
    assert Taps(line, d, x, 2) == Taps(line, d, x, 1) + At(line, x - d) * (4.0 / 16.0);
    assert Taps(line, d, x, 3) == Taps(line, d, x, 2) + At(line, x) * (6.0 / 16.0);
    assert Taps(line, d, x, 4) == Taps(line, d, x, 3) + At(line, x + d) * (4.0 / 16.0);
  }

  function Column(img: Image, x: nat): (r: seq<real>)
    requires forall y {:trigger img[y]} :: 0 <= y < |img| ==> x < |img[y]|
    ensures |r| == |img|
  {
    seq(|img|, y requires 0 <= y < |img| => img[y][x])
  }

  /** Every row filtered. */
  ghost function Horizontal(img: Image, width: nat, height: nat, d: nat): (r: Image)
    requires Shaped(img, width, height)
    ensures Shaped(r, width, height)
  {
    seq(height, y requires 0 <= y < height => seq(width, x requires 0 <= x < width => Taps(img[y], d, x, 5)))
  }

  /** Every column filtered. */
  ghost function Vertical(img: Image, width: nat, height: nat, d: nat): (r: Image)
    requires Shaped(img, width, height)
    ensures Shaped(r, width, height)
  {
    seq(height, y requires 0 <= y < height => seq(width, x requires 0 <= x < width => Taps(Column(img, x), d, y, 5)))
  }

  ghost function Convolved(img: Image, width: nat, height: nat, d: nat): (r: Image)
    requires Shaped(img, width, height)
    ensures Shaped(r, width, height)
  {
    Vertical(Horizontal(img, width, height, d), width, height, d)
  }

  // ----- the kernel in two dimensions

  /** The pixel of an image; zero outside. */
  ghost function Pixel(img: Image, x: int, y: int): real {
    if 0 <= y < |img| then At(img[y], x) else 0.0
  }

  /** The first n rows of the 5 x 5 kernel, with holes, around (x, y). */
  ghost function Kernel(img: Image, d: nat, x: int, y: int, n: nat): real
    requires n <= 5
  {
    if n == 0 then 0.0 else Kernel(img, d, x, y, n - 1) + KernelRow(img, d, x, y + Dist(d, n - 1), n - 1, 5)
  }

  /** The first m taps of kernel row k on image row y. */
  ghost function KernelRow(img: Image, d: nat, x: int, y: int, k: nat, m: nat): real
    requires k < 5 && m <= 5
  {
    if m == 0 then 0.0
    else KernelRow(img, d, x, y, k, m - 1) + Weigh(k, Weigh(m - 1, Pixel(img, x + Dist(d, m - 1), y)))
  }

  lemma {:induction false} KernelRowIsTaps(img: Image, d: nat, x: int, y: int, k: nat, m: nat)
    requires k < 5 && m <= 5
    ensures KernelRow(img, d, x, y, k, m) == Weigh(k, if 0 <= y < |img| then Taps(img[y], d, x, m) else 0.0)
  {
    if m > 0 {
      KernelRowIsTaps(img, d, x, y, k, m - 1);
      if 0 <= y < |img| {
        WeighAdds(k, Taps(img[y], d, x, m - 1), Weigh(m - 1, At(img[y], x + Dist(d, m - 1))));
      }
    }
  }

  lemma WeighAdds(k: nat, a: real, b: real)
    requires k < 5
    ensures Weigh(k, a + b) == Weigh(k, a) + Weigh(k, b)
  {
  }

  lemma {:induction false} KernelIsTaps(img: Image, width: nat, height: nat, d: nat, x: nat, y: nat, n: nat)
    requires Shaped(img, width, height) && x < width && y < height && n <= 5
    ensures Kernel(img, d, x, y, n) == Taps(Column(Horizontal(img, width, height, d), x), d, y, n)
  {
    if n > 0 {
      KernelIsTaps(img, width, height, d, x, y, n - 1);
      KernelRowIsTaps(img, d, x, y + Dist(d, n - 1), n - 1, 5);
    }
  }

  /** Filtering rows and then columns is one convolution with the 5 x 5 kernel with holes, zero outside the image. */
  lemma ConvolvedIsKernel(img: Image, width: nat, height: nat, d: nat, x: nat, y: nat)
    requires Shaped(img, width, height) && x < width && y < height
    ensures Convolved(img, width, height, d)[y][x] == Kernel(img, d, x, y, 5)
  {
    KernelIsTaps(img, width, height, d, x, y, 5);
  }

  // ----- scales

  function Pow2(n: nat): (r: nat)
    ensures r > 0
  {
    if n == 0 then 1 else 2 * Pow2(n - 1)
  }

  /** The distance between the taps at a scale. */
  function Holes(scale: nat): nat { Pow2(scale) - 1 }

  /** The whole part of log2. */
  function Log2(n: nat): nat
    requires n > 0
  {
    if n == 1 then 0 else 1 + Log2(n / 2)
  }

  lemma {:induction false} Log2Bounds(n: nat)
    requires n > 0
    ensures Pow2(Log2(n)) <= n < 2 * Pow2(Log2(n))
  {
    if n > 1 {
      Log2Bounds(n / 2);
    }
  }

  lemma {:induction false} Pow2Grows(a: nat, b: nat)
    requires a <= b
    ensures Pow2(a) <= Pow2(b)
    decreases b - a
  {
    if a < b {
      Pow2Grows(a, b - 1);
    }
  }

  function EndScale(dimension: nat): nat
    requires dimension > 0
  {
    if Log2(dimension) - 3 >= 2 then Log2(dimension) - 3 else 2
  }

  /** The end scale is the largest one for which eight times its power of two is at most the side, and at least 2. */
  lemma EndScaleIs(dimension: nat)
    requires 0 < dimension
    ensures EndScale(dimension) >= 2 && 8 * Pow2(EndScale(dimension) + 1) > dimension
    ensures EndScale(dimension) > 2 ==> 8 * Pow2(EndScale(dimension)) <= dimension
  {
    Log2Bounds(dimension);
    var k, s := Log2(dimension), EndScale(dimension);
    assert Pow2(s + 3) == 2 * Pow2(s + 2) == 4 * Pow2(s + 1) == 8 * Pow2(s);
    Pow2Grows(k, s + 3);
  }

  /** A side is large enough for the fast convolution at a scale. */
  predicate FastFits(side: nat, scale: nat) { side >= 4 * Holes(scale) }

  /** All scales up to the end scale fit sides of at least 12 pixels. */
  lemma EndScaleFits(side: nat, scale: nat)
    requires 12 <= side && scale <= EndScale(side)
    ensures FastFits(side, scale)
  {
    Log2Bounds(side);
    var k := Log2(side);
    if scale <= 2 {
      Pow2Grows(scale, 2);
      assert Pow2(2) == 4;
    } else {
      Pow2Grows(scale, k - 3);
      assert Pow2(k) == 2 * Pow2(k - 1) == 4 * Pow2(k - 2) == 8 * Pow2(k - 3);
    }
  }

  /** A side is large enough for the bounds of the simple convolution at a scale, which are unsigned. */
  predicate SimpleFits(side: nat, scale: nat) { side >= 2 * Holes(scale) }

  /** An int converted to size_t. */
  function Size(x: int): int { if x < 0 then x + WORD else x }

  /** The first pixel for which tap k falls on a line, and the end of those pixels. */
  function FirstOf(d: nat, k: nat): int
    requires k < 5
  {
    Max(0, -Dist(d, k))
  }

  function EndOf(side: nat, d: nat, k: nat): int
    requires k < 5
  {
    EndAt(side, Dist(d, k))
  }

  /** The end of the pixels from which a pixel at the given distance is on the line. */
  function EndAt(side: nat, dist: int): int { Size(Min(side, side - dist)) }

  /** The bounds of the taps at distance d, which is a number here. */
  lemma FirstOfTap(d: nat)
    ensures FirstOf(d, 0) == 2 * d && FirstOf(d, 1) == d
  {
  }

  lemma DistOfTap(d: nat)
    ensures Dist(d, 0) == -2 * d && Dist(d, 1) == -1 * d && Dist(d, 2) == 0 && Dist(d, 3) == d && Dist(d, 4) == 2 * d
  {
  }

  lemma EndOnLine(side: nat, dist: int)
    requires dist <= side
    ensures EndAt(side, dist) == if dist <= 0 then side else side - dist
  {
  }

  lemma EndWraps(side: nat, dist: int)
    requires dist > side
    ensures EndAt(side, dist) == side - dist + WORD
  {
  }

  /** On a line that is long enough, the pixels from which a tap falls on it. */
  lemma TapRange(side: nat, d: nat, k: nat)
    requires k < 5 && 2 * d <= side
    ensures 0 <= side + Dist(d, k) && Dist(d, k) <= side
    ensures FirstOf(d, k) == (if Dist(d, k) < 0 then -Dist(d, k) else 0)
    ensures EndOf(side, d, k) == (if Dist(d, k) > 0 then side - Dist(d, k) else side)
  {
    DistOfTap(d);
    EndOnLine(side, Dist(d, k));
  }

  /** The bounds of all taps stay on the line. */
  predicate TapsStay(side: nat, d: nat) {
    forall k: nat {:trigger Dist(d, k)} :: k < 5 ==> EndOf(side, d, k) <= side
  }

  lemma TapBoundsAt(side: nat, d: nat)
    requires side + 2 * d < WORD
    ensures 2 * d <= side <==> TapsStay(side, d)
  {
    DistOfTap(d);
    if 2 * d <= side {
      forall k: nat | k < 5 ensures EndOf(side, d, k) <= side {
        EndOnLine(side, Dist(d, k));
      }
    } else {
      EndWraps(side, 2 * d);
      assert Dist(d, 4) == 2 * d && EndOf(side, d, 4) > side;
    }
  }

  /** The bounds of the segments at distance d. */
  lemma SegmentBounds(side: nat, d: nat)
    requires 4 * d <= side
    ensures FirstOf(d, 1) == d && FirstOf(d, 0) == 2 * d
    ensures EndOf(side, d, 4) == side - 2 * d && EndOf(side, d, 3) == side - d
  {
    FirstOfTap(d);
    DistOfTap(d);
    EndOnLine(side, 2 * d);
    EndOnLine(side, d);
  }

  /** Where the side is too small for the segments, they do not follow each other. */
  lemma SegmentsMeet(side: nat, d: nat)
    requires side + 2 * d < WORD && 4 * d > side
    ensures FirstOf(d, 0) > EndOf(side, d, 4) || EndOf(side, d, 4) > side
  {
    FirstOfTap(d);
    DistOfTap(d);
    if 2 * d <= side {
      EndOnLine(side, 2 * d);
    } else {
      EndWraps(side, 2 * d);
    }
  }

  lemma SegmentsFollowAt(side: nat, d: nat)
    requires side + 2 * d < WORD
    ensures 4 * d <= side <==> 0 <= FirstOf(d, 1) <= FirstOf(d, 0) <= EndOf(side, d, 4) <= EndOf(side, d, 3) <= side
  {
    if 4 * d <= side {
      SegmentBounds(side, d);
    } else {
      SegmentsMeet(side, d);
    }
  }

  /** The bounds of a tap stay on the line exactly if the side is large enough for it; otherwise they wrap around. */
  lemma TapBounds(side: nat, scale: nat)
    requires side + 2 * Holes(scale) < WORD
    ensures SimpleFits(side, scale) <==> TapsStay(side, Holes(scale))
  {
    TapBoundsAt(side, Holes(scale));
  }

  /** The five segments of the fast convolution follow each other exactly if the side is large enough. */
  lemma SegmentsFollow(side: nat, scale: nat)
    requires side + 2 * Holes(scale) < WORD
    ensures FastFits(side, scale) <==>
            0 <= FirstOf(Holes(scale), 1) <= FirstOf(Holes(scale), 0) <= EndOf(side, Holes(scale), 4) <=
              EndOf(side, Holes(scale), 3) <= side
  {
    SegmentsFollowAt(side, Holes(scale));
  }
}
