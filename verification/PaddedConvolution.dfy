/**
 * The correction of a full residual after a sub-minor run (deconvolution/subminorloop.cpp): the PSF and the model are
 * padded by a tenth of their sides, and convolved by a product of Fourier transforms.  That convolution is periodic in
 * the padded sides, so that a component also takes the PSF from the far end of the image; here is when it does not.
 */
module PaddedConvolution {
  import opened Common
  import RowMajor
  import S = SimpleClean
  import opened CleanRuns

  /** A side times 1.1, rounded up, and up again to an even number. */
  function PaddedSide(side: nat): (r: nat)
    ensures side <= r
  {
    var r := (11 * side + 9) / 10;
    if r % 2 != 0 then r + 1 else r
  }

  /** The smallest even side that is at least 1.1 times as long. */
  lemma PaddedSideIs(side: nat)
    ensures PaddedSide(side) % 2 == 0 && 10 * PaddedSide(side) >= 11 * side
    ensures forall r: nat {:trigger r % 2} :: r % 2 == 0 && 10 * r >= 11 * side ==> PaddedSide(side) <= r
  {
  }

  /** The offset in a PSF of the given side that an offset stands for, in a period of the padded side. */
  function Wrapped(dx: int, side: nat, padded: nat): int {
    if dx < -(side / 2) then dx + padded else if dx >= side - side / 2 then dx - padded else dx
  }

  /** The value of a PSF that is repeated with the padded sides; zero in between. */
  function PeriodicAt(psf: seq<real>, w: nat, h: nat, paddedW: nat, paddedH: nat, dx: int, dy: int): real
    requires |psf| == w * h
  {
    S.PsfAt(psf, w, h, Wrapped(dx, w, paddedW), Wrapped(dy, h, paddedH))
  }

  /** An offset between two positions on a side. */
  predicate Offset(dx: int, side: nat) { 0 < dx + side && dx < side }

  /** For every PSF and all offsets between two pixels, the repeated PSF is the PSF itself. */
  ghost predicate NeverWraps(w: nat, h: nat, paddedW: nat, paddedH: nat) {
    forall psf: seq<real>, dx: int, dy: int {:trigger PeriodicAt(psf, w, h, paddedW, paddedH, dx, dy)} ::
      |psf| == w * h && Offset(dx, w) && Offset(dy, h) ==>
        PeriodicAt(psf, w, h, paddedW, paddedH, dx, dy) == S.PsfAt(psf, w, h, dx, dy)
  }

  /** A PSF and its copies one period to the left and to the right. */
  function AcrossCopies(psf: seq<real>, w: nat, h: nat, paddedW: nat, dx: int, dy: int): real
    requires |psf| == w * h
  {
    S.PsfAt(psf, w, h, dx - paddedW, dy) + S.PsfAt(psf, w, h, dx, dy) + S.PsfAt(psf, w, h, dx + paddedW, dy)
  }

  /** A PSF and its eight nearest copies, one period away along each axis. */
  function AllCopies(psf: seq<real>, w: nat, h: nat, paddedW: nat, paddedH: nat, dx: int, dy: int): real
    requires |psf| == w * h
  {
    AcrossCopies(psf, w, h, paddedW, dx, dy - paddedH) + AcrossCopies(psf, w, h, paddedW, dx, dy) +
    AcrossCopies(psf, w, h, paddedW, dx, dy + paddedH)
  }

  lemma AcrossIs(psf: seq<real>, w: nat, h: nat, paddedW: nat, dx: int, dy: int)
    requires |psf| == w * h && Offset(dx, w) && w <= paddedW
    ensures AcrossCopies(psf, w, h, paddedW, dx, dy) == S.PsfAt(psf, w, h, Wrapped(dx, w, paddedW), dy)
  {
  }

  lemma RowsOutside(psf: seq<real>, w: nat, h: nat, dx: int, dy: int)
    requires |psf| == w * h && !(0 <= dy + h / 2 < h)
    ensures S.PsfAt(psf, w, h, dx, dy) == 0.0
  {
  }

  /** Between two pixels the repeated PSF is the sum of its copies. */
  lemma PeriodicIsCopies(psf: seq<real>, w: nat, h: nat, paddedW: nat, paddedH: nat, dx: int, dy: int)
    requires |psf| == w * h && Offset(dx, w) && Offset(dy, h) && w <= paddedW && h <= paddedH
    ensures PeriodicAt(psf, w, h, paddedW, paddedH, dx, dy) == AllCopies(psf, w, h, paddedW, paddedH, dx, dy)
  {
    var x := Wrapped(dx, w, paddedW);
    AcrossIs(psf, w, h, paddedW, dx, dy - paddedH);
    AcrossIs(psf, w, h, paddedW, dx, dy);
    AcrossIs(psf, w, h, paddedW, dx, dy + paddedH);
    if Wrapped(dy, h, paddedH) != dy {
      RowsOutside(psf, w, h, x, dy);
    }
    if Wrapped(dy, h, paddedH) != dy - paddedH {
      RowsOutside(psf, w, h, x, dy - paddedH);
    }
    if Wrapped(dy, h, paddedH) != dy + paddedH {
      RowsOutside(psf, w, h, x, dy + paddedH);
    }
  }

  /** An offset between two pixels stands for an offset in the PSF only if it is one, if half a side is padded. */
  lemma WrappedOutside(dx: int, side: nat, padded: nat)
    requires Offset(dx, side) && side <= padded
    ensures padded >= side + side / 2 && !(0 <= dx + side / 2 < side) ==>
              !(0 <= Wrapped(dx, side, padded) + side / 2 < side)
    ensures 0 <= dx + side / 2 < side ==> Wrapped(dx, side, padded) == dx
  {
  }

  /** The periodic convolution takes the PSF itself for all images if and only if half of each side is padded. */
  lemma NeverWrapsIff(w: nat, h: nat, paddedW: nat, paddedH: nat)
    requires 0 < w <= paddedW && 0 < h <= paddedH
    ensures NeverWraps(w, h, paddedW, paddedH) <==> paddedW >= w + w / 2 && paddedH >= h + h / 2
  {
    if paddedW >= w + w / 2 && paddedH >= h + h / 2 {
      forall psf: seq<real>, dx: int, dy: int | |psf| == w * h && Offset(dx, w) && Offset(dy, h)
        ensures PeriodicAt(psf, w, h, paddedW, paddedH, dx, dy) == S.PsfAt(psf, w, h, dx, dy)
      {
        WrappedOutside(dx, w, paddedW);
        WrappedOutside(dy, h, paddedH);
      }
    } else {
      var psf := seq(w * h, _ => 1.0);
      if paddedW < w + w / 2 {
        WrapsAcross(psf, w, h, paddedW, paddedH);
      } else {
        WrapsDown(psf, w, h, paddedW, paddedH);
      }
    }
  }

  /** A component in the first column takes the PSF from the last column. */
  lemma WrapsAcross(psf: seq<real>, w: nat, h: nat, paddedW: nat, paddedH: nat)
    requires 0 < w <= paddedW < w + w / 2 && 0 < h <= paddedH
    requires |psf| == w * h && forall k :: 0 <= k < |psf| ==> psf[k] == 1.0
    ensures PeriodicAt(psf, w, h, paddedW, paddedH, w - 1, 0) == 1.0 && S.PsfAt(psf, w, h, w - 1, 0) == 0.0
  {
    RowMajor.Fits(w, h, w - 1 - paddedW + w / 2, h / 2);
  }

  lemma WrapsDown(psf: seq<real>, w: nat, h: nat, paddedW: nat, paddedH: nat)
    requires 0 < w <= paddedW && 0 < h <= paddedH < h + h / 2
    requires |psf| == w * h && forall k :: 0 <= k < |psf| ==> psf[k] == 1.0
    ensures PeriodicAt(psf, w, h, paddedW, paddedH, 0, h - 1) == 1.0 && S.PsfAt(psf, w, h, 0, h - 1) == 0.0
  {
    RowMajor.Fits(w, h, w / 2, h - 1 - paddedH + h / 2);
  }

  /** A tenth of a side is half of it only for the smallest images. */
  lemma TenthIsHalfIff(side: nat)
    ensures PaddedSide(side) >= side + side / 2 <==> side <= 4
  {
  }

  /** The periodic convolution of the code takes the PSF itself for all images if and only if no side exceeds four. */
  lemma EnoughPaddingIff(w: nat, h: nat)
    requires 0 < w && 0 < h
    ensures NeverWraps(w, h, PaddedSide(w), PaddedSide(h)) <==> w <= 4 && h <= 4
  {
    NeverWrapsIff(w, h, PaddedSide(w), PaddedSide(h));
    TenthIsHalfIff(w);
    TenthIsHalfIff(h);
  }

  // ----- the corrected residual

  /** What the periodic convolution takes for a component at q with value 1 from pixel p of image i. */
  function PeriodicKernel(c: Clean, i: nat, p: nat, q: nat): real
    requires c.Valid() && i < c.Count() && p < c.Pixels() && q < c.Pixels()
  {
    RowMajor.Joins(c.width, c.height, p);
    PeriodicAt(c.Psf(i), c.width, c.height, PaddedSide(c.width), PaddedSide(c.height),
               p % c.width - q % c.width, p / c.width - q / c.width)
  }

  /** What is taken from the pixel at (x, y): the PSF of image i and its copies around a component at (qx, qy). */
  lemma PeriodicKernelIs(c: Clean, i: nat, p: nat, q: nat, x: nat, y: nat, qx: nat, qy: nat)
    requires c.Valid() && i < c.Count() && p < c.Pixels() && q < c.Pixels()
    requires x < c.width && y < c.height && p == y * c.width + x
    requires qx < c.width && qy < c.height && q == qy * c.width + qx
    ensures PeriodicKernel(c, i, p, q) == AllCopies(c.psfs[c.psfIndex[i]], c.width, c.height, PaddedSide(c.width),
                PaddedSide(c.height), x - qx, y - qy)
  {
    RowMajor.Splits(c.width, x, y);
    RowMajor.Splits(c.width, qx, qy);
    PeriodicIsCopies(c.Psf(i), c.width, c.height, PaddedSide(c.width), PaddedSide(c.height), x - qx, y - qy);
  }

  function PeriodicTaps(c: Clean, i: nat, p: nat): nat -> real
    requires c.Valid() && i < c.Count() && p < c.Pixels()
  {
    (q: nat) => if q < c.Pixels() then PeriodicKernel(c, i, p, q) else 0.0
  }

  /** What only the repeated PSF takes. */
  function WrapTaps(c: Clean, i: nat, p: nat): nat -> real
    requires c.Valid() && i < c.Count() && p < c.Pixels()
  {
    (q: nat) => PeriodicTaps(c, i, p)(q) - Taps(c, i, p)(q)
  }

  /** An image padded, convolved with the padded PSF of image i, and trimmed, at pixel p. */
  function PeriodicConvolved(c: Clean, i: nat, m: seq<real>, p: nat): real
    requires c.Valid() && i < c.Count() && |m| == c.Pixels() && p < c.Pixels()
  {
    Weighted(PeriodicTaps(c, i, p), m, |m|)
  }

  /** The part of it that comes from the far end of the image. */
  function WrappedPart(c: Clean, i: nat, m: seq<real>, p: nat): real
    requires c.Valid() && i < c.Count() && |m| == c.Pixels() && p < c.Pixels()
  {
    Weighted(WrapTaps(c, i, p), m, |m|)
  }

  lemma {:induction false} WeightedSplits(a: nat -> real, b: nat -> real, both: nat -> real, m: seq<real>, n: nat)
    requires n <= |m| && forall q: nat :: both(q) == a(q) + b(q)
    ensures Weighted(both, m, n) == Weighted(a, m, n) + Weighted(b, m, n)
  {
    if n > 0 {
      WeightedSplits(a, b, both, m, n - 1);
      assert (a(n - 1) + b(n - 1)) * m[n - 1] == a(n - 1) * m[n - 1] + b(n - 1) * m[n - 1];
    }
  }

  /** The residual that a sub-minor run leaves on the full images: the dirty image minus the periodic convolution. */
  ghost function Corrected(c: Clean, d: Images, peaks: seq<nat>): (r: Images)
    requires c.Valid() && c.Sized(d) && c.Peaks(peaks)
    ensures c.Sized(r)
  {
    seq(c.Count(), i requires 0 <= i < c.Count() => seq(c.Pixels(), p requires 0 <= p < c.Pixels() =>
      d[i][p] - PeriodicConvolved(c, i, c.Model(Nothing(c), d, peaks)[i], p)))
  }

  /** The residual that a run leaves on the full images. */
  ghost function Left(c: Clean, d: Images, peaks: seq<nat>): (r: Images)
    requires c.Valid() && c.Sized(d) && c.Peaks(peaks)
    ensures c.Sized(r)
  {
    match c.way
    case WholeImage => c.Dirty(d, peaks)
    case SubMinor => Corrected(c, d, peaks)
  }

  /** The corrected residual differs by the wrapped part of the model from the one that the loop has cleaned. */
  lemma CorrectedIs(c: Clean, d: Images, peaks: seq<nat>, i: nat, p: nat)
    requires c.Valid() && c.Sized(d) && c.Peaks(peaks) && i < c.Count() && p < c.Pixels()
    ensures Corrected(c, d, peaks)[i][p] ==
              c.Dirty(d, peaks)[i][p] - WrappedPart(c, i, c.Model(Nothing(c), d, peaks)[i], p)
  {
    var m := c.Model(Nothing(c), d, peaks)[i];
    ResidualIsDirtyMinusModel(c, d, peaks, i, p);
    WeightedSplits(Taps(c, i, p), WrapTaps(c, i, p), PeriodicTaps(c, i, p), m, |m|);
  }

  lemma {:induction false} WeightedZero(taps: nat -> real, m: seq<real>, n: nat)
    requires n <= |m| && forall q: nat :: q < n ==> taps(q) == 0.0
    ensures Weighted(taps, m, n) == 0.0
  {
    if n > 0 {
      WeightedZero(taps, m, n - 1);
    }
  }

  /** On small images nothing is wrapped. */
  lemma NothingWrapped(c: Clean, i: nat, m: seq<real>, p: nat)
    requires c.Valid() && c.way.SubMinor? && c.width <= 4 && c.height <= 4
    requires i < c.Count() && |m| == c.Pixels() && p < c.Pixels()
    ensures WrappedPart(c, i, m, p) == 0.0
  {
    RowMajor.Joins(c.width, c.height, p);
    EnoughPaddingIff(c.width, c.height);
    forall q: nat | q < |m| ensures WrapTaps(c, i, p)(q) == 0.0 {
      SameOffset(c, i, p, q);
      assert PeriodicTaps(c, i, p)(q) == PeriodicKernel(c, i, p, q) && Taps(c, i, p)(q) == c.Kernel(i, p, q);
    }
    WeightedZero(WrapTaps(c, i, p), m, |m|);
  }

  lemma SameOffset(c: Clean, i: nat, p: nat, q: nat)
    requires c.Valid() && c.way.SubMinor? && i < c.Count() && p < c.Pixels() && q < c.Pixels()
    requires NeverWraps(c.width, c.height, PaddedSide(c.width), PaddedSide(c.height))
    ensures PeriodicKernel(c, i, p, q) == c.Kernel(i, p, q)
  {
    var dx, dy := OffsetsOf(c.width, c.height, p, q);
    KernelsAt(c, i, p, q, dx, dy);
    SameAt(c.Psf(i), c.width, c.height, dx, dy);
  }

  lemma OffsetsOf(w: nat, h: nat, p: nat, q: nat) returns (dx: int, dy: int)
    requires p < w * h && q < w * h
    ensures 0 < w && dx == p % w - q % w && dy == p / w - q / w && Offset(dx, w) && Offset(dy, h)
  {
    RowMajor.Joins(w, h, p);
    RowMajor.Joins(w, h, q);
    dx, dy := p % w - q % w, p / w - q / w;
  }

  lemma KernelsAt(c: Clean, i: nat, p: nat, q: nat, dx: int, dy: int)
    requires c.Valid() && c.way.SubMinor? && i < c.Count() && p < c.Pixels() && q < c.Pixels() && 0 < c.width
    requires dx == p % c.width - q % c.width && dy == p / c.width - q / c.width
    ensures c.Kernel(i, p, q) == S.PsfAt(c.Psf(i), c.width, c.height, dx, dy)
    ensures PeriodicKernel(c, i, p, q) ==
              PeriodicAt(c.Psf(i), c.width, c.height, PaddedSide(c.width), PaddedSide(c.height), dx, dy)
  {
  }

  lemma SameAt(psf: seq<real>, w: nat, h: nat, dx: int, dy: int)
    requires |psf| == w * h && Offset(dx, w) && Offset(dy, h) && NeverWraps(w, h, PaddedSide(w), PaddedSide(h))
    ensures PeriodicAt(psf, w, h, PaddedSide(w), PaddedSide(h), dx, dy) == S.PsfAt(psf, w, h, dx, dy)
  {
  }
}
