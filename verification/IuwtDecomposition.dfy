/**
 * The wavelet transform itself (iuwt/iuwtdecomposition.h and .cpp): decomposing an image into scales,
 * and recomposing it.
 */
module IuwtDecomposition {
  import opened IuwtConvolution
  import opened ConvolveLoops

  ghost function Minus(a: Image, b: Image, width: nat, height: nat): (r: Image)
    requires Shaped(a, width, height) && Shaped(b, width, height)
    ensures Shaped(r, width, height)
  {
    seq(height, y requires 0 <= y < height => seq(width, x requires 0 <= x < width => a[y][x] - b[y][x]))
  }

  ghost function Plus(a: Image, b: Image, width: nat, height: nat): (r: Image)
    requires Shaped(a, width, height) && Shaped(b, width, height)
    ensures Shaped(r, width, height)
  {
    seq(height, y requires 0 <= y < height => seq(width, x requires 0 <= x < width => a[y][x] + b[y][x]))
  }

  /** The image after the convolutions of the first k scales. */
  ghost function Smooth(img: Image, width: nat, height: nat, k: nat): (r: Image)
    requires Shaped(img, width, height)
    ensures Shaped(r, width, height)
  {
    if k == 0 then img else Convolved(Smooth(img, width, height, k - 1), width, height, Holes(k))
  }

  /** The coefficients of a scale: what its two convolutions take away. */
  ghost function Coefficients(img: Image, width: nat, height: nat, scale: nat): (r: Image)
    requires Shaped(img, width, height)
    ensures Shaped(r, width, height)
  {
    Minus(Smooth(img, width, height, scale),
        Convolved(Smooth(img, width, height, scale + 1), width, height, Holes(scale + 1)), width, height)
  }

  ghost predicate AllShaped(scales: seq<Image>, width: nat, height: nat) {
    forall k {:trigger scales[k]} :: 0 <= k < |scales| ==> Shaped(scales[k], width, height)
  }

  /** Recomposing from the largest scale down to scale k. */
  ghost function Recomposed(base: Image, scales: seq<Image>, width: nat, height: nat, k: nat): (r: Image)
    requires Shaped(base, width, height) && AllShaped(scales, width, height) && k <= |scales|
    ensures Shaped(r, width, height)
    decreases |scales| - k
  {
    if k == |scales| then base
    else Plus(Convolved(Recomposed(base, scales, width, height, k + 1), width, height, Holes(k + 1)), scales[k], width,
        height)
  }

  /** The scales of a decomposition: the coefficients of each, and the smoothest image last. */
  ghost predicate Decomposed(img: Image, width: nat, height: nat, scales: seq<Image>, n: nat)
    requires Shaped(img, width, height)
  {
    |scales| == n + 1 && scales[n] == Smooth(img, width, height, n) &&
    forall k {:trigger scales[k]} :: 0 <= k < n ==> scales[k] == Coefficients(img, width, height, k)
  }

  lemma MinusPlus(a: Image, b: Image, width: nat, height: nat)
    requires Shaped(a, width, height) && Shaped(b, width, height)
    ensures Plus(b, Minus(a, b, width, height), width, height) == a
  {
    forall y | 0 <= y < height ensures Plus(b, Minus(a, b, width, height), width, height)[y] == a[y] {
    }
  }

  /** Perfect reconstruction: recomposing a whole decomposition gives the image back, from any scale on. */
  lemma {:induction false} PerfectReconstruction(img: Image, width: nat, height: nat, scales: seq<Image>, n: nat,
          k: nat)
    requires Shaped(img, width, height) && Decomposed(img, width, height, scales, n) && k <= n
    ensures AllShaped(scales[..n], width, height) &&
            Recomposed(scales[n], scales[..n], width, height, k) == Smooth(img, width, height, k)
    decreases n - k
  {
    assert AllShaped(scales[..n], width, height) by {
      forall j | 0 <= j < n ensures Shaped(scales[..n][j], width, height) {
        assert scales[j] == Coefficients(img, width, height, j);
      }
    }
    if k < n {
      PerfectReconstruction(img, width, height, scales, n, k + 1);
      assert scales[..n][k] == scales[k] == Coefficients(img, width, height, k);
      MinusPlus(Smooth(img, width, height, k),
          Convolved(Smooth(img, width, height, k + 1), width, height, Holes(k + 1)), width, height);
    }
  }

  // ----- the transform by its kernel

  /** An image is another one filtered by the 5 x 5 kernel with taps at the given distance. */
  ghost predicate FilteredFrom(r: Image, img: Image, width: nat, height: nat, d: nat) {
    Shaped(r, width, height) &&
    forall x: nat, y: nat {:trigger Kernel(img, d, x, y, 5)} :: x < width && y < height ==>
      r[y][x] == Kernel(img, d, x, y, 5)
  }

  /** An image less another one filtered by the kernel with taps at the given distance. */
  ghost predicate TakenAway(r: Image, img: Image, smooth: Image, width: nat, height: nat, d: nat)
    requires Shaped(img, width, height)
  {
    Shaped(r, width, height) &&
    forall x: nat, y: nat {:trigger Kernel(smooth, d, x, y, 5)} :: x < width && y < height ==>
      r[y][x] == img[y][x] - Kernel(smooth, d, x, y, 5)
  }

  /** The image of scale k filtered with taps 2^(k + 1) - 1 apart is that of the next scale. */
  ghost predicate NextSmooth(smooths: seq<Image>, width: nat, height: nat, k: nat)
    requires k + 1 < |smooths|
  {
    FilteredFrom(smooths[k + 1], smooths[k], width, height, Pow2(k + 1) - 1)
  }

  /** The coefficients of scale k are what filtering the image twice at this distance takes away. */
  ghost predicate TwiceFiltered(smooths: seq<Image>, scales: seq<Image>, width: nat, height: nat, k: nat)
    requires k + 1 < |smooths| && k < |scales| && Shaped(smooths[k], width, height)
  {
    TakenAway(scales[k], smooths[k], smooths[k + 1], width, height, Pow2(k + 1) - 1)
  }

  /** The images carried from scale to scale, from the input on, and the coefficients of the first n scales. */
  ghost predicate Transformed(img: Image, width: nat, height: nat, smooths: seq<Image>, scales: seq<Image>, n: nat) {
    |smooths| == n + 1 && n <= |scales| && AllShaped(smooths, width, height) && smooths[0] == img &&
    (forall k {:trigger NextSmooth(smooths, width, height, k)} :: 0 <= k < n ==>
       NextSmooth(smooths, width, height, k)) &&
    forall k {:trigger TwiceFiltered(smooths, scales, width, height, k)} :: 0 <= k < n ==>
      TwiceFiltered(smooths, scales, width, height, k)
  }

  lemma ConvolvedIsFiltered(img: Image, width: nat, height: nat, d: nat)
    requires Shaped(img, width, height)
    ensures FilteredFrom(Convolved(img, width, height, d), img, width, height, d)
  {
    forall x: nat, y: nat | x < width && y < height
      ensures Convolved(img, width, height, d)[y][x] == Kernel(img, d, x, y, 5)
    {
      ConvolvedIsKernel(img, width, height, d, x, y);
    }
  }

  lemma MinusIsTakenAway(img: Image, smooth: Image, width: nat, height: nat, d: nat)
    requires Shaped(img, width, height) && Shaped(smooth, width, height)
    ensures TakenAway(Minus(img, Convolved(smooth, width, height, d), width, height), img, smooth, width, height, d)
  {
    forall x: nat, y: nat | x < width && y < height
      ensures Minus(img, Convolved(smooth, width, height, d), width, height)[y][x] ==
              img[y][x] - Kernel(smooth, d, x, y, 5)
    {
      ConvolvedIsKernel(smooth, width, height, d, x, y);
    }
  }

  lemma ScaleByKernel(img: Image, width: nat, height: nat, k: nat)
    requires Shaped(img, width, height)
    ensures FilteredFrom(Smooth(img, width, height, k + 1), Smooth(img, width, height, k), width, height,
                Pow2(k + 1) - 1)
    ensures TakenAway(Coefficients(img, width, height, k), Smooth(img, width, height, k),
                Smooth(img, width, height, k + 1), width, height, Pow2(k + 1) - 1)
  {
    ConvolvedIsFiltered(Smooth(img, width, height, k), width, height, Holes(k + 1));
    MinusIsTakenAway(Smooth(img, width, height, k), Smooth(img, width, height, k + 1), width, height, Holes(k + 1));
  }

  /** The images after the convolutions of no scale, of the first one, and so on up to n scales. */
  ghost function Smooths(img: Image, width: nat, height: nat, n: nat): (r: seq<Image>)
    requires Shaped(img, width, height)
    ensures |r| == n + 1
  {
    seq(n + 1, k requires 0 <= k => Smooth(img, width, height, k))
  }

  /** The scales of a transform by the kernel with its holes. */
  lemma DecomposedByKernel(img: Image, width: nat, height: nat, scales: seq<Image>, n: nat)
    requires Shaped(img, width, height) && n <= |scales|
    requires forall k {:trigger scales[k]} :: 0 <= k < n ==> scales[k] == Coefficients(img, width, height, k)
    ensures Transformed(img, width, height, Smooths(img, width, height, n), scales, n)
  {
    var smooths := Smooths(img, width, height, n);
    forall k | 0 <= k < n
      ensures NextSmooth(smooths, width, height, k) && TwiceFiltered(smooths, scales, width, height, k)
    {
      ScaleByKernel(img, width, height, k);
      assert smooths[k] == Smooth(img, width, height, k) && smooths[k + 1] == Smooth(img, width, height, k + 1);
      assert scales[k] == Coefficients(img, width, height, k);
    }
  }

  // ----- without the largest scale

  /** An image spread by the convolutions of scales k and up. */
  ghost function Spread(base: Image, width: nat, height: nat, n: nat, k: nat): (r: Image)
    requires Shaped(base, width, height) && k <= n
    ensures Shaped(r, width, height)
    decreases n - k
  {
    if k == n then base else Convolved(Spread(base, width, height, n, k + 1), width, height, Holes(k + 1))
  }

  lemma {:induction false} TapsAdd(a: seq<real>, b: seq<real>, c: seq<real>, d: nat, x: int, n: nat)
    requires |a| == |b| == |c| && n <= 5 && forall i :: 0 <= i < |c| ==> c[i] == a[i] + b[i]
    ensures Taps(c, d, x, n) == Taps(a, d, x, n) + Taps(b, d, x, n)
  {
    if n > 0 {
      TapsAdd(a, b, c, d, x, n - 1);
      WeighAdds(n - 1, At(a, x + Dist(d, n - 1)), At(b, x + Dist(d, n - 1)));
    }
  }

  lemma ConvolvedAdds(a: Image, b: Image, width: nat, height: nat, d: nat)
    requires Shaped(a, width, height) && Shaped(b, width, height)
    ensures Convolved(Plus(a, b, width, height), width, height, d) ==
            Plus(Convolved(a, width, height, d), Convolved(b, width, height, d), width, height)
  {
    HorizontalAdds(a, b, width, height, d);
    VerticalAdds(Horizontal(a, width, height, d), Horizontal(b, width, height, d), width, height, d);
  }

  lemma HorizontalAdds(a: Image, b: Image, width: nat, height: nat, d: nat)
    requires Shaped(a, width, height) && Shaped(b, width, height)
    ensures Horizontal(Plus(a, b, width, height), width, height, d) ==
            Plus(Horizontal(a, width, height, d), Horizontal(b, width, height, d), width, height)
  {
    var c := Plus(a, b, width, height);
    forall y | 0 <= y < height
      ensures Horizontal(c, width, height, d)[y] ==
              Plus(Horizontal(a, width, height, d), Horizontal(b, width, height, d), width, height)[y] {
      forall x | 0 <= x < width ensures Taps(c[y], d, x, 5) == Taps(a[y], d, x, 5) + Taps(b[y], d, x, 5) {
        TapsAdd(a[y], b[y], c[y], d, x, 5);
      }
    }
  }

  lemma VerticalAdds(a: Image, b: Image, width: nat, height: nat, d: nat)
    requires Shaped(a, width, height) && Shaped(b, width, height)
    ensures Vertical(Plus(a, b, width, height), width, height, d) ==
            Plus(Vertical(a, width, height, d), Vertical(b, width, height, d), width, height)
  {
    var c := Plus(a, b, width, height);
    forall y | 0 <= y < height
      ensures Vertical(c, width, height, d)[y] ==
              Plus(Vertical(a, width, height, d), Vertical(b, width, height, d), width, height)[y] {
      forall x: nat | x < width ensures Taps(Column(c, x), d, y, 5) ==
        Taps(Column(a, x), d, y, 5) + Taps(Column(b, x), d, y, 5) {
        TapsAdd(Column(a, x), Column(b, x), Column(c, x), d, y, 5);
      }
    }
  }

  ghost function Zero(width: nat, height: nat): (r: Image)
    ensures Shaped(r, width, height)
  {
    seq(height, _ => seq(width, _ => 0.0))
  }

  lemma PlusMoves(a: Image, b: Image, c: Image, width: nat, height: nat)
    requires Shaped(a, width, height) && Shaped(b, width, height) && Shaped(c, width, height)
    ensures Plus(Plus(a, b, width, height), c, width, height) == Plus(Plus(a, c, width, height), b, width, height)
    ensures Plus(Zero(width, height), a, width, height) == a
  {
    forall y | 0 <= y < height
      ensures Plus(Plus(a, b, width, height), c, width, height)[y] ==
              Plus(Plus(a, c, width, height), b, width, height)[y]
      ensures Plus(Zero(width, height), a, width, height)[y] == a[y]
    {
    }
  }

  /** Leaving out the largest scale leaves out exactly what it is spread to. */
  lemma {:induction false} WithoutLargest(base: Image, scales: seq<Image>, width: nat, height: nat, k: nat)
    requires Shaped(base, width, height) && AllShaped(scales, width, height) && k <= |scales|
    ensures Recomposed(base, scales, width, height, k) ==
            Plus(Recomposed(Zero(width, height), scales, width, height, k), Spread(base, width, height, |scales|, k),
                width, height)
    decreases |scales| - k
  {
    if k == |scales| {
      PlusMoves(base, base, base, width, height);
    } else {
      WithoutLargest(base, scales, width, height, k + 1);
      var r, s := Recomposed(Zero(width, height), scales, width, height, k + 1),
          Spread(base, width, height, |scales|, k + 1);
      ConvolvedAdds(r, s, width, height, Holes(k + 1));
      PlusMoves(Convolved(r, width, height, Holes(k + 1)), Convolved(s, width, height, Holes(k + 1)), scales[k], width,
          height);
    }
  }

  lemma {:induction false} TapsOfZero(line: seq<real>, d: nat, x: int, n: nat)
    requires n <= 5 && forall i :: 0 <= i < |line| ==> line[i] == 0.0
    ensures Taps(line, d, x, n) == 0.0
  {
    if n > 0 {
      TapsOfZero(line, d, x, n - 1);
    }
  }

  lemma ConvolvedZero(width: nat, height: nat, d: nat)
    ensures Convolved(Zero(width, height), width, height, d) == Zero(width, height)
  {
    var z := Zero(width, height);
    var h := Horizontal(z, width, height, d);
    forall y | 0 <= y < height ensures h[y] == z[y] {
      forall x | 0 <= x < width ensures h[y][x] == 0.0 {
        TapsOfZero(z[y], d, x, 5);
      }
    }
    assert h == z;
    var v := Vertical(z, width, height, d);
    forall y | 0 <= y < height ensures v[y] == z[y] {
      forall x: nat | x < width ensures v[y][x] == 0.0 {
        TapsOfZero(Column(z, x), d, y, 5);
      }
    }
  }

  // ----- the transform

  /** A copy of a buffer. */
  method Copy(a: array2<real>) returns (img: Image)
    ensures img == Img(a)
  {
    img := [];
    for y := 0 to a.Length0
      invariant |img| == y && forall v {:trigger img[v]} :: 0 <= v < y ==> img[v] == Img(a)[v]
    {
      var row: seq<real> := [];
      for x := 0 to a.Length1
        invariant |row| == x && forall u :: 0 <= u < x ==> row[u] == a[y, u]
      {
        row := row + [a[y, x]];
      }
      img := img + [row];
    }
  }

  method CopyTo(img: Image, a: array2<real>)
    requires Shaped(img, a.Length1, a.Length0)
    modifies a
    ensures Img(a) == img
  {
    for y := 0 to a.Length0
      invariant forall v: nat, u: nat {:trigger a[v, u]} :: v < y && u < a.Length1 ==> a[v, u] == img[v][u]
    {
      for x := 0 to a.Length1
        invariant forall v: nat, u: nat {:trigger a[v, u]} ::
                    v < a.Length0 && u < a.Length1 && (v < y || (v == y && u < x)) ==>
                    a[v, u] == img[v][u]
      {
        a[y, x] := img[y][x];
      }
    }
    forall y | 0 <= y < a.Length0 ensures Img(a)[y] == img[y] {
    }
  }

  /** The difference of two images; the result may replace the second one. */
  method Difference(dest: array2<real>, lhs: array2<real>, rhs: array2<real>)
    requires Like(dest, lhs) && Like(dest, rhs) && dest != lhs
    modifies dest
    ensures Img(dest) == Minus(Img(lhs), old(Img(rhs)), dest.Length1, dest.Length0)
  {
    ghost var a, b := Img(lhs), Img(rhs);
    for y := 0 to dest.Length0
      invariant forall v: nat, u: nat {:trigger dest[v, u]} :: v < y && u < dest.Length1 ==>
                dest[v, u] == a[v][u] - b[v][u]
      invariant forall v: nat, u: nat {:trigger rhs[v, u]} :: y <= v < dest.Length0 && u < dest.Length1 ==>
                rhs[v, u] == b[v][u]
    {
      for x := 0 to dest.Length1
        invariant forall v: nat, u: nat {:trigger dest[v, u]} ::
                    v < dest.Length0 && u < dest.Length1 && (v < y || (v == y && u < x)) ==>
                    dest[v, u] == a[v][u] - b[v][u]
        invariant forall v: nat, u: nat {:trigger rhs[v, u]} ::
                    v < dest.Length0 && u < dest.Length1 && (v > y || (v == y && u >= x)) ==>
                    rhs[v, u] == b[v][u]
      {
        dest[y, x] := lhs[y, x] - rhs[y, x];
      }
    }
    forall y | 0 <= y < dest.Length0 ensures Img(dest)[y] == Minus(a, b, dest.Length1, dest.Length0)[y] {
    }
  }

  method AddTo(a: array2<real>, img: Image)
    requires Shaped(img, a.Length1, a.Length0)
    modifies a
    ensures Img(a) == Plus(old(Img(a)), img, a.Length1, a.Length0)
  {
    ghost var was := Img(a);
    for y := 0 to a.Length0
      invariant forall v: nat, u: nat {:trigger a[v, u]} :: v < a.Length0 && u < a.Length1 ==>
                a[v, u] == if v < y then was[v][u] + img[v][u] else was[v][u]
    {
      for x := 0 to a.Length1
        invariant forall v: nat, u: nat {:trigger a[v, u]} :: v < a.Length0 && u < a.Length1 ==>
          a[v, u] == if v < y || (v == y && u < x) then was[v][u] + img[v][u] else was[v][u]
      {
        a[y, x] := a[y, x] + img[y][x];
      }
    }
    forall y | 0 <= y < a.Length0 ensures Img(a)[y] == Plus(was, img, a.Length1, a.Length0)[y] {
    }
  }

  lemma FitsBelow(side: nat, n: nat, scale: nat)
    requires scale <= n
    ensures FastFits(side, n) ==> FastFits(side, scale)
    ensures SimpleFits(side, n) ==> SimpleFits(side, scale)
    ensures FastFits(side, n) ==> SimpleFits(side, n)
  {
    Pow2Grows(scale, n);
  }

  /** The first n scales hold their coefficients. */
  ghost predicate CoefficientsHold(img: Image, width: nat, height: nat, scales: seq<Image>, n: nat)
    requires Shaped(img, width, height)
  {
    n <= |scales| && forall k {:trigger scales[k]} :: 0 <= k < n ==> scales[k] == Coefficients(img, width, height, k)
  }

  class Decomposition {
    const scaleCount: nat
    const width: nat
    const height: nat
    /** The coefficients of the scales, and the largest scale last. */
    var scales: seq<Image>

    constructor (scaleCount: nat, width: nat, height: nat)
      ensures this.scaleCount == scaleCount && this.width == width && this.height == height &&
              |scales| == scaleCount + 1
    {
      this.scaleCount, this.width, this.height := scaleCount, width, height;
      scales := seq(scaleCount + 1, _ => []);
    }

    predicate Sized(a: array2<real>) { a.Length0 == height && a.Length1 == width }

    /** The two convolutions of one scale: i1 is i0 convolved, and the coefficients are i0 minus i1 convolved. */
    method ScaleST(i0: array2<real>, i1: array2<real>, scratch: array2<real>, scale: nat, ghost img: Image)
            returns (coefficients: Image)
      requires Sized(i0) && Sized(i1) && Sized(scratch) && i0 != i1 && scratch != i0 && scratch != i1
      requires Shaped(img, width, height) && Img(i0) == Smooth(img, width, height, scale)
      requires SimpleFits(width, scale + 1) && SimpleFits(height, scale + 1)
      modifies i1, scratch
      ensures Img(i0) == old(Img(i0)) && Img(i1) == Smooth(img, width, height, scale + 1) &&
              coefficients == Coefficients(img, width, height, scale)
    {
      var i2 := new real[height, width];
      Convolve(i1, i0, scratch, scale + 1);
      Convolve(i2, i1, scratch, scale + 1);
      Difference(i2, i0, i2);
      coefficients := Copy(i2);
    }

    /** The same with the fast convolution. */
    method ScaleMT(i0: array2<real>, i1: array2<real>, scratch: array2<real>, scale: nat, rowCuts: seq<nat>,
            columnCuts: seq<nat>, ghost img: Image)
      returns (coefficients: Image)
      requires Sized(i0) && Sized(i1) && Sized(scratch) && i0 != i1 && scratch != i0 && scratch != i1
      requires Shaped(img, width, height) && Img(i0) == Smooth(img, width, height, scale)
      requires FastFits(width, scale + 1) && FastFits(height, scale + 1) && Chunks(rowCuts, height) &&
               Chunks(columnCuts, width)
      modifies i1, scratch
      ensures Img(i0) == old(Img(i0)) && Img(i1) == Smooth(img, width, height, scale + 1) &&
              coefficients == Coefficients(img, width, height, scale)
    {
      var buffer := new real[height, width];
      ConvolveMT(i1, i0, scratch, scale + 1, rowCuts, columnCuts);
      ConvolveMT(buffer, i1, scratch, scale + 1, rowCuts, columnCuts);
      Difference(buffer, i0, buffer);
      coefficients := Copy(buffer);
    }

    /** The first scales are done, and the image for the next one, or at the end the smoothest one, is ready. */
    ghost predicate Progress(img: Image, i0: array2<real>, i1: array2<real>, scale: nat)
      requires Shaped(img, width, height)
      reads this, i0, i1
    {
      |scales| == scaleCount + 1 && CoefficientsHold(img, width, height, scales, scale) &&
      Img(if scale < scaleCount then i0 else i1) == Smooth(img, width, height, scale)
    }

    /** Stores the coefficients of a scale and makes its smoothed image the next one to work on. */
    method Store(i0: array2<real>, i1: array2<real>, scale: nat, coefficients: Image, ghost img: Image)
      requires Sized(i0) && Sized(i1) && i0 != i1 && Shaped(img, width, height) && scale < scaleCount
      requires |scales| == scaleCount + 1 && CoefficientsHold(img, width, height, scales, scale)
      requires coefficients == Coefficients(img, width, height, scale) &&
               Img(i1) == Smooth(img, width, height, scale + 1)
      modifies `scales, i0
      ensures Progress(img, i0, i1, scale + 1)
    {
      scales := scales[scale := coefficients];
      if scale + 1 != scaleCount {
        var next := Copy(i1);
        CopyTo(next, i0);
      }
    }

    /** Decomposition with the simple convolution. */
    method DecomposeST(input: array2<real>, scratch: array2<real>) returns (ghost smooths: seq<Image>)
      requires Sized(input) && Sized(scratch) && input != scratch && 0 < scaleCount && |scales| == scaleCount + 1
      requires SimpleFits(width, scaleCount) && SimpleFits(height, scaleCount)
      modifies `scales, scratch
      ensures Decomposed(Img(input), width, height, scales, scaleCount) && Img(input) == old(Img(input))
      ensures Transformed(Img(input), width, height, smooths, scales, scaleCount) &&
              scales[scaleCount] == smooths[scaleCount]
    {
      ghost var img := Img(input);
      var i0, i1 := new real[height, width], new real[height, width];
      var start := Copy(input);
      CopyTo(start, i0);
      AllScales(i0, i1, scratch, img);
      StoreLargest(i0, i1, true, img);
      smooths := Smooths(img, width, height, scaleCount);
      DecomposedByKernel(img, width, height, scales, scaleCount);
    }

    method AllScales(i0: array2<real>, i1: array2<real>, scratch: array2<real>, ghost img: Image)
      requires Sized(i0) && Sized(i1) && Sized(scratch) && i0 != i1 && scratch != i0 && scratch != i1 && 0 < scaleCount
      requires SimpleFits(width, scaleCount) && SimpleFits(height, scaleCount)
      requires Shaped(img, width, height) && Img(i0) == img && |scales| == scaleCount + 1
      modifies `scales, i0, i1, scratch
      ensures Progress(img, i0, i1, scaleCount)
    {
      for scale := 0 to scaleCount
        invariant Progress(img, i0, i1, scale)
      {
        FitsBelow(width, scaleCount, scale + 1);
        FitsBelow(height, scaleCount, scale + 1);
        var coefficients := ScaleST(i0, i1, scratch, scale, img);
        Store(i0, i1, scale, coefficients, img);
      }
    }

    method StoreLargest(i0: array2<real>, i1: array2<real>, includeLargest: bool, ghost img: Image)
      requires Sized(i0) && Sized(i1) && Shaped(img, width, height) && Progress(img, i0, i1, scaleCount)
      modifies `scales
      ensures |scales| == scaleCount + 1 && CoefficientsHold(img, width, height, scales, scaleCount)
      ensures if includeLargest then Decomposed(img, width, height, scales, scaleCount) else scales[scaleCount] == []
    {
      var largest: Image := [];
      if includeLargest {
        largest := Copy(i1);
      }
      scales := scales[scaleCount := largest];
    }

    /** Decomposition with the fast convolution, in any chunks; the first scale works on the input itself. */
    method DecomposeMT(input: array2<real>, scratch: array2<real>, includeLargest: bool, rowCuts: seq<nat>,
            columnCuts: seq<nat>) returns (ghost smooths: seq<Image>)
      requires Sized(input) && Sized(scratch) && input != scratch && 0 < scaleCount && |scales| == scaleCount + 1
      requires FastFits(width, scaleCount) && FastFits(height, scaleCount) && Chunks(rowCuts, height) &&
               Chunks(columnCuts, width)
      modifies `scales, scratch
      ensures |scales| == scaleCount + 1 && CoefficientsHold(Img(input), width, height, scales, scaleCount) &&
              Img(input) == old(Img(input))
      ensures if includeLargest then Decomposed(Img(input), width, height, scales, scaleCount)
              else scales[scaleCount] == []
      ensures Transformed(Img(input), width, height, smooths, scales, scaleCount) &&
              (includeLargest ==> scales[scaleCount] == smooths[scaleCount])
    {
      ghost var img := Img(input);
      var i0, i1 := new real[height, width], new real[height, width];
      FirstScale(input, i0, i1, scratch, rowCuts, columnCuts);
      OtherScales(i0, i1, scratch, rowCuts, columnCuts, img);
      StoreLargest(i0, i1, includeLargest, img);
      smooths := Smooths(img, width, height, scaleCount);
      DecomposedByKernel(img, width, height, scales, scaleCount);
    }

    method FirstScale(input: array2<real>, i0: array2<real>, i1: array2<real>, scratch: array2<real>, rowCuts: seq<nat>,
            columnCuts: seq<nat>)
      requires Sized(input) && Sized(i0) && Sized(i1) && Sized(scratch) && i0 != i1 && {i0, i1} !! {input, scratch} &&
               input != scratch
      requires 0 < scaleCount && |scales| == scaleCount + 1
      requires FastFits(width, scaleCount) && FastFits(height, scaleCount) && Chunks(rowCuts, height) &&
               Chunks(columnCuts, width)
      modifies `scales, i0, i1, scratch
      ensures Progress(Img(input), i0, i1, 1)
    {
      FitsBelow(width, scaleCount, 1);
      FitsBelow(height, scaleCount, 1);
      ghost var img := Img(input);
      var coefficients0 := ScaleMT(input, i1, scratch, 0, rowCuts, columnCuts, img);
      Store(i0, i1, 0, coefficients0, img);
    }

    method OtherScales(i0: array2<real>, i1: array2<real>, scratch: array2<real>, rowCuts: seq<nat>,
            columnCuts: seq<nat>, ghost img: Image)
      requires Sized(i0) && Sized(i1) && Sized(scratch) && i0 != i1 && scratch != i0 && scratch != i1 && 0 < scaleCount
      requires FastFits(width, scaleCount) && FastFits(height, scaleCount) && Chunks(rowCuts, height) &&
               Chunks(columnCuts, width)
      requires Shaped(img, width, height) && Progress(img, i0, i1, 1)
      modifies `scales, i0, i1, scratch
      ensures Progress(img, i0, i1, scaleCount)
    {
      for scale := 1 to scaleCount
        invariant Progress(img, i0, i1, scale)
      {
        FitsBelow(width, scaleCount, scale + 1);
        FitsBelow(height, scaleCount, scale + 1);
        var coefficients := ScaleMT(i0, i1, scratch, scale, rowCuts, columnCuts, img);
        Store(i0, i1, scale, coefficients, img);
      }
    }

    /** Recomposes the scales, from the largest one down if it is included. */
    method Recompose(includeLargest: bool) returns (output: array2<real>)
      requires |scales| == scaleCount + 1 && AllShaped(scales[..scaleCount], width, height)
      requires includeLargest ==> Shaped(scales[scaleCount], width, height)
      requires SimpleFits(width, scaleCount) && SimpleFits(height, scaleCount)
      ensures fresh(output) && Sized(output)
      ensures Img(output) == Recomposed(if includeLargest then scales[scaleCount]
              else Zero(width, height), scales[..scaleCount], width, height, 0)
    {
      ghost var base, parts := if includeLargest then scales[scaleCount] else Zero(width, height), scales[..scaleCount];
      output := new real[height, width];
      var scratch1 := new real[height, width];
      var scratch2 := new real[height, width];
      Clear(output);
      var isZero := !includeLargest;
      if includeLargest {
        CopyTo(scales[scaleCount], output);
      }
      assert isZero ==> Img(output) == Zero(width, height) by {
        forall y | 0 <= y < height ensures isZero ==> Img(output)[y] == Zero(width, height)[y] {
        }
      }
      var k: nat := scaleCount;
      while k != 0
        invariant k <= scaleCount && Img(output) == Recomposed(base, parts, width, height, k)
        invariant isZero ==> k == scaleCount && base == Zero(width, height)
      {
        k := k - 1;
        FitsBelow(width, scaleCount, k + 1);
        FitsBelow(height, scaleCount, k + 1);
        assert Shaped(parts[k], width, height) && parts[k] == scales[k];
        AddScale(output, scratch1, scratch2, k, isZero);
        isZero := false;
      }
    }

    /** One scale up: the image so far convolved, plus the coefficients of the scale. */
    method AddScale(output: array2<real>, scratch1: array2<real>, scratch2: array2<real>, k: nat, isZero: bool)
      requires Sized(output) && Sized(scratch1) && Sized(scratch2) && output != scratch1 && output != scratch2 &&
               scratch1 != scratch2
      requires k < |scales| && Shaped(scales[k], width, height) && SimpleFits(width, k + 1) && SimpleFits(height, k + 1)
      requires isZero ==> Img(output) == Zero(width, height)
      modifies output, scratch1, scratch2
      ensures Img(output) == Plus(Convolved(old(Img(output)), width, height, Holes(k + 1)), scales[k], width, height)
    {
      if isZero {
        CopyTo(scales[k], output);
        ConvolvedZero(width, height, Holes(k + 1));
        PlusMoves(scales[k], scales[k], scales[k], width, height);
      } else {
        Convolve(scratch2, output, scratch1, k + 1);
        var convolved := Copy(scratch2);
        CopyTo(convolved, output);
        AddTo(output, scales[k]);
      }
    }
  }

  /** Decomposing with the largest scale and recomposing gives the image back. */
  method RoundTrip(t: Decomposition, input: array2<real>, scratch: array2<real>, rowCuts: seq<nat>,
          columnCuts: seq<nat>) returns (output: array2<real>)
    requires t.Sized(input) && t.Sized(scratch) && input != scratch && 0 < t.scaleCount &&
             |t.scales| == t.scaleCount + 1
    requires FastFits(t.width, t.scaleCount) && FastFits(t.height, t.scaleCount) && Chunks(rowCuts, t.height) &&
             Chunks(columnCuts, t.width)
    modifies t, scratch
    ensures Img(output) == old(Img(input))
  {
    var _ := t.DecomposeMT(input, scratch, true, rowCuts, columnCuts);
    PerfectReconstruction(Img(input), t.width, t.height, t.scales, t.scaleCount, 0);
    FitsBelow(t.width, t.scaleCount, 0);
    FitsBelow(t.height, t.scaleCount, 0);
    output := t.Recompose(true);
  }
}
