/**
 * The convolution loops of the wavelet transform on image buffers (iuwt/iuwtdecomposition.h and .cpp):
 * the simple version, and the fast versions in chunks of rows and of columns.  Buffers are indexed [y, x].
 */
module ConvolveLoops {
  import S = SimpleClean
  import opened IuwtConvolution

  ghost function Img(a: array2<real>): (r: Image)
    reads a
    ensures Shaped(r, a.Length1, a.Length0)
    ensures forall y: nat, x: nat {:trigger a[y, x]} :: y < a.Length0 && x < a.Length1 ==> r[y][x] == a[y, x]
  {
    S.Images(a)
  }

  predicate Like(a: array2<real>, b: array2<real>) { a.Length0 == b.Length0 && a.Length1 == b.Length1 }

  /** The first n taps along the rows of an image. */
  ghost predicate RowsHold(a: array2<real>, img: Image, d: nat, n: nat)
    requires Shaped(img, a.Length1, a.Length0) && n <= 5
    reads a
  {
    forall y: nat, x: nat {:trigger a[y, x]} :: y < a.Length0 && x < a.Length1 ==> a[y, x] == Taps(img[y], d, x, n)
  }

  ghost predicate ColumnsHold(a: array2<real>, img: Image, d: nat, n: nat)
    requires Shaped(img, a.Length1, a.Length0) && n <= 5
    reads a
  {
    forall y: nat, x: nat {:trigger a[y, x]} :: y < a.Length0 && x < a.Length1 ==>
      a[y, x] == Taps(Column(img, x), d, y, n)
  }

  lemma AllRows(a: array2<real>, img: Image, d: nat)
    requires Shaped(img, a.Length1, a.Length0) && RowsHold(a, img, d, 5)
    ensures Img(a) == Horizontal(img, a.Length1, a.Length0, d)
  {
    forall y: nat | y < a.Length0 ensures Img(a)[y] == Horizontal(img, a.Length1, a.Length0, d)[y] {
      forall x: nat | x < a.Length1 ensures Img(a)[y][x] == Horizontal(img, a.Length1, a.Length0, d)[y][x] {
        assert a[y, x] == Taps(img[y], d, x, 5);
      }
    }
  }

  lemma AllColumns(a: array2<real>, img: Image, d: nat)
    requires Shaped(img, a.Length1, a.Length0) && ColumnsHold(a, img, d, 5)
    ensures Img(a) == Vertical(img, a.Length1, a.Length0, d)
  {
    forall y: nat | y < a.Length0 ensures Img(a)[y] == Vertical(img, a.Length1, a.Length0, d)[y] {
      forall x: nat | x < a.Length1 ensures Img(a)[y][x] == Vertical(img, a.Length1, a.Length0, d)[y][x] {
        assert a[y, x] == Taps(Column(img, x), d, y, 5);
      }
    }
  }

  // ----- the simple version

  method Clear(a: array2<real>)
    modifies a
    ensures forall y: nat, x: nat {:trigger a[y, x]} :: y < a.Length0 && x < a.Length1 ==> a[y, x] == 0.0
  {
    forall y, x | 0 <= y < a.Length0 && 0 <= x < a.Length1 { a[y, x] := 0.0; }
  }

  /** One tap along the rows, added to the output. */
  method ConvolveComponentHorizontal(input: array2<real>, output: array2<real>, k: nat, d: nat)
    requires Like(input, output) && input != output && k < 5 && 2 * d <= input.Length1 &&
             RowsHold(output, Img(input), d, k)
    modifies output
    ensures RowsHold(output, Img(input), d, k + 1)
  {
    var minX, maxX := FirstOf(d, k), EndOf(output.Length1, d, k);
    TapRange(output.Length1, d, k);
    for y := 0 to output.Length0
      invariant forall v: nat, u: nat {:trigger output[v, u]} :: v < output.Length0 && u < output.Length1 ==>
        output[v, u] == Taps(Img(input)[v], d, u, if v < y then k + 1 else k)
    {
      AddToRow(input, output, y, k, d, minX, maxX);
    }
  }

  method AddToRow(input: array2<real>, output: array2<real>, y: nat, k: nat, d: nat, minX: int, maxX: int)
    requires Like(input, output) && input != output && k < 5 && y < output.Length0
    requires -input.Length1 <= Dist(d, k) <= input.Length1
    requires minX == (if Dist(d, k) < 0 then -Dist(d, k) else 0)
    requires maxX == (if Dist(d, k) > 0 then input.Length1 - Dist(d, k) else input.Length1)
    requires forall u: nat {:trigger output[y, u]} :: u < output.Length1 ==>
             output[y, u] == Taps(Img(input)[y], d, u, k)
    modifies output
    ensures forall u: nat {:trigger output[y, u]} :: u < output.Length1 ==>
            output[y, u] == Taps(Img(input)[y], d, u, k + 1)
    ensures forall v: nat, u: nat {:trigger output[v, u]} :: v < output.Length0 && u < output.Length1 && v != y ==>
            output[v, u] == old(output[v, u])
  {
    var x := minX;
    while x < maxX
      invariant minX <= x && (maxX <= minX ==> x == minX) && (minX < maxX ==> x <= maxX)
      invariant forall u: nat {:trigger output[y, u]} :: u < output.Length1 ==>
        output[y, u] == Taps(Img(input)[y], d, u, if minX <= u < x then k + 1 else k)
      invariant forall v: nat, u: nat {:trigger output[v, u]} :: v < output.Length0 && u < output.Length1 && v != y ==>
                output[v, u] == old(output[v, u])
    {
      output[y, x] := output[y, x] + Weigh(k, input[y, x + Dist(d, k)]);
      x := x + 1;
    }
  }

  /** One tap along the columns, added to the output. */
  method ConvolveComponentVertical(input: array2<real>, output: array2<real>, k: nat, d: nat)
    requires Like(input, output) && input != output && k < 5 && 2 * d <= input.Length0 &&
             ColumnsHold(output, Img(input), d, k)
    modifies output
    ensures ColumnsHold(output, Img(input), d, k + 1)
  {
    var minY, maxY := FirstOf(d, k), EndOf(output.Length0, d, k);
    TapRange(output.Length0, d, k);
    var y := minY;
    while y < maxY
      invariant minY <= y && (maxY <= minY ==> y == minY) && (minY < maxY ==> y <= maxY)
      invariant forall v: nat, u: nat {:trigger output[v, u]} :: v < output.Length0 && u < output.Length1 ==>
        output[v, u] == Taps(Column(Img(input), u), d, v, if minY <= v < y then k + 1 else k)
    {
      AddRow(input, output, y, k, d);
      y := y + 1;
    }
  }

  method AddRow(input: array2<real>, output: array2<real>, y: nat, k: nat, d: nat)
    requires Like(input, output) && input != output && k < 5 && y < output.Length0 &&
             0 <= y + Dist(d, k) < output.Length0
    requires forall u: nat {:trigger output[y, u]} :: u < output.Length1 ==>
             output[y, u] == Taps(Column(Img(input), u), d, y, k)
    modifies output
    ensures forall u: nat {:trigger output[y, u]} :: u < output.Length1 ==>
            output[y, u] == Taps(Column(Img(input), u), d, y, k + 1)
    ensures forall v: nat, u: nat {:trigger output[v, u]} :: v < output.Length0 && u < output.Length1 && v != y ==>
            output[v, u] == old(output[v, u])
  {
    for x := 0 to output.Length1
      invariant forall u: nat {:trigger output[y, u]} :: u < output.Length1 ==>
        output[y, u] == Taps(Column(Img(input), u), d, y, if u < x then k + 1 else k)
      invariant forall v: nat, u: nat {:trigger output[v, u]} :: v < output.Length0 && u < output.Length1 && v != y ==>
                output[v, u] == old(output[v, u])
    {
      output[y, x] := output[y, x] + Weigh(k, input[y + Dist(d, k), x]);
    }
  }

  /** All rows, one tap at a time. */
  method FilterRows(image: array2<real>, output: array2<real>, d: nat)
    requires Like(output, image) && output != image && 2 * d <= image.Length1
    modifies output
    ensures Img(output) == Horizontal(Img(image), image.Length1, image.Length0, d)
  {
    Clear(output);
    for hIndex := 0 to 5
      invariant RowsHold(output, Img(image), d, hIndex)
    {
      ConvolveComponentHorizontal(image, output, hIndex, d);
    }
    AllRows(output, Img(image), d);
  }

  /** All columns, one tap at a time. */
  method FilterColumns(image: array2<real>, output: array2<real>, d: nat)
    requires Like(output, image) && output != image && 2 * d <= image.Length0
    modifies output
    ensures Img(output) == Vertical(Img(image), image.Length1, image.Length0, d)
  {
    Clear(output);
    for hIndex := 0 to 5
      invariant ColumnsHold(output, Img(image), d, hIndex)
    {
      ConvolveComponentVertical(image, output, hIndex, d);
    }
    AllColumns(output, Img(image), d);
  }

  /** The simple convolution; the output may be the image itself. */
  method Convolve(output: array2<real>, image: array2<real>, scratch: array2<real>, scale: nat)
    requires Like(output, image) && Like(scratch, image) && scratch != image && scratch != output
    requires SimpleFits(image.Length1, scale) && SimpleFits(image.Length0, scale)
    modifies output, scratch
    ensures Img(output) == Convolved(old(Img(image)), image.Length1, image.Length0, Holes(scale))
  {
    FilterRows(image, scratch, Holes(scale));
    FilterColumns(scratch, output, Holes(scale));
  }

  // ----- the fast versions

  /** The taps lo to hi - 1 around a pixel all fall on the line. */
  ghost predicate TapsFall(side: nat, d: nat, x: int, lo: nat, hi: nat) {
    lo <= hi <= 5 && forall k: nat {:trigger Dist(d, k)} :: lo <= k < hi ==> 0 <= x + Dist(d, k) < side
  }

  ghost function SomeTaps(line: seq<real>, d: nat, x: int, lo: nat, hi: nat): real
    requires TapsFall(|line|, d, x, lo, hi)
    decreases hi
  {
    if lo == hi then 0.0 else SomeTaps(line, d, x, lo, hi - 1) + Weigh(hi - 1, line[x + Dist(d, hi - 1)])
  }

  lemma {:induction false} TapsOnLine(line: seq<real>, d: nat, x: int, lo: nat, hi: nat)
    requires TapsFall(|line|, d, x, lo, hi)
    ensures SomeTaps(line, d, x, lo, hi) == Taps(line, d, x, hi) - Taps(line, d, x, lo)
  {
    if lo < hi {
      TapsOnLine(line, d, x, lo, hi - 1);
    }
  }

  /** Taps that fall outside the line add nothing. */
  lemma {:induction false} TapsOutside(line: seq<real>, d: nat, x: int, lo: nat, hi: nat)
    requires lo <= hi <= 5
    requires forall k: nat {:trigger Dist(d, k)} :: lo <= k < hi ==> !(0 <= x + Dist(d, k) < |line|)
    ensures Taps(line, d, x, hi) == Taps(line, d, x, lo)
  {
    if lo < hi {
      TapsOutside(line, d, x, lo, hi - 1);
      assert !(0 <= x + Dist(d, hi - 1) < |line|);
    }
  }

  /** The taps that fall on the line, for each of the five segments of a line. */
  predicate InSegment(side: nat, d: nat, x: int, lo: nat, hi: nat) {
    0 <= x < side && 4 * d <= side && match (lo, hi)
      case (2, 5) => x < d
      case (1, 5) => d <= x < 2 * d
      case (0, 5) => 2 * d <= x < side - 2 * d
      case (0, 4) => side - 2 * d <= x < side - d
      case (0, 3) => side - d <= x
      case _ => false
  }

  /** One of the five segments of a line of the given length. */
  predicate IsSegment(side: nat, d: nat, from: int, to: int, lo: nat, hi: nat) {
    4 * d <= side && match (lo, hi)
      case (2, 5) => (from, to) == (0, d)
      case (1, 5) => (from, to) == (d, 2 * d)
      case (0, 5) => (from, to) == (2 * d, side - 2 * d)
      case (0, 4) => (from, to) == (side - 2 * d, side - d)
      case (0, 3) => (from, to) == (side - d, side)
      case _ => false
  }

  lemma SegmentHolds(side: nat, d: nat, from: int, to: int, lo: nat, hi: nat, x: int)
    requires IsSegment(side, d, from, to, lo, hi) && from <= x < to
    ensures InSegment(side, d, x, lo, hi)
  {
  }

  /** In each segment the loop's taps are all the taps that matter. */
  lemma SegmentIsWhole(line: seq<real>, d: nat, x: int, lo: nat, hi: nat)
    requires InSegment(|line|, d, x, lo, hi)
    ensures TapsFall(|line|, d, x, lo, hi)
    ensures SomeTaps(line, d, x, lo, hi) == Taps(line, d, x, 5)
  {
    TapsOnLine(line, d, x, lo, hi);
    TapsOutside(line, d, x, 0, lo);
    TapsOutside(line, d, x, hi, 5);
  }

  /** The output has its rows from `from` to `to` filtered, and is unchanged elsewhere. */
  ghost predicate RowsFiltered(a: array2<real>, was: Image, img: Image, d: nat, from: nat, to: nat)
    requires Shaped(img, a.Length1, a.Length0) && Shaped(was, a.Length1, a.Length0)
    reads a
  {
    forall y: nat, x: nat {:trigger a[y, x]} :: y < a.Length0 && x < a.Length1 ==>
      a[y, x] == if from <= y < to then Taps(img[y], d, x, 5) else was[y][x]
  }

  /** One segment of a row: pixels from `from` to `to`, with the taps lo to hi - 1. */
  method RowSegment(output: array2<real>, image: array2<real>, y: nat, d: nat, from: nat, to: nat, lo: nat, hi: nat,
          ghost was: Image)
    requires Like(output, image) && output != image && y < image.Length0 && from <= to <= image.Length1 &&
             Shaped(was, image.Length1, image.Length0)
    requires IsSegment(image.Length1, d, from, to, lo, hi)
    requires RowPart(output, was, Img(image), d, y, from)
    modifies output
    ensures RowPart(output, was, Img(image), d, y, to)
  {
    for x := from to to
      invariant RowPart(output, was, Img(image), d, y, x)
    {
      SegmentHolds(image.Length1, d, from, to, lo, hi, x);
      var sum := FilteredInRow(image, y, x, d, lo, hi);
      output[y, x] := sum;
    }
  }

  /** Row y of the output is filtered up to pixel n; the rest is unchanged. */
  ghost predicate RowPart(a: array2<real>, was: Image, img: Image, d: nat, y: nat, n: nat)
    requires Shaped(img, a.Length1, a.Length0) && Shaped(was, a.Length1, a.Length0)
    reads a
  {
    forall v: nat, u: nat {:trigger a[v, u]} :: v < a.Length0 && u < a.Length1 ==>
      a[v, u] == if v == y && u < n then Taps(img[v], d, u, 5) else was[v][u]
  }

  /** The sum of the taps of a segment; no bounds are checked. */
  method PixelOfRow(image: array2<real>, y: nat, x: nat, d: nat, lo: nat, hi: nat) returns (sum: real)
    requires y < image.Length0 && x < image.Length1 && TapsFall(image.Length1, d, x, lo, hi)
    ensures sum == SomeTaps(Img(image)[y], d, x, lo, hi)
  {
    ghost var line := Img(image)[y];
    sum := 0.0;
    for k := lo to hi
      invariant TapsFall(image.Length1, d, x, lo, k) && sum == SomeTaps(line, d, x, lo, k)
    {
      assert 0 <= x + Dist(d, k) < image.Length1;
      sum := sum + Weigh(k, image[y, x + Dist(d, k)]);
    }
  }

  method FilteredInRow(image: array2<real>, y: nat, x: nat, d: nat, lo: nat, hi: nat) returns (sum: real)
    requires y < image.Length0 && InSegment(image.Length1, d, x, lo, hi)
    ensures sum == Taps(Img(image)[y], d, x, 5)
  {
    SegmentIsWhole(Img(image)[y], d, x, lo, hi);
    sum := PixelOfRow(image, y, x, d, lo, hi);
  }

  /** One row in five segments. */
  method FastRow(output: array2<real>, image: array2<real>, y: nat, scale: nat)
    requires Like(output, image) && output != image && y < image.Length0 && FastFits(image.Length1, scale)
    modifies output
    ensures RowPart(output, old(Img(output)), Img(image), Holes(scale), y, image.Length1)
  {
    var d, width := Pow2(scale) - 1, image.Length1;
    SegmentBounds(width, d);
    FiveSegments(output, image, y, d, FirstOf(d, 0), FirstOf(d, 1), EndOf(width, d, 3), EndOf(width, d, 4));
  }

  method FiveSegments(output: array2<real>, image: array2<real>, y: nat, d: nat, minX0: nat, minX1: nat, maxX3: nat,
                      maxX4: nat)
    requires Like(output, image) && output != image && y < image.Length0 && 4 * d <= image.Length1
    requires minX0 == 2 * d && minX1 == d && maxX3 == image.Length1 - d && maxX4 == image.Length1 - 2 * d
    modifies output
    ensures RowPart(output, old(Img(output)), Img(image), d, y, image.Length1)
  {
    ghost var was := Img(output);
    RowSegment(output, image, y, d, 0, minX1, 2, 5, was);
    RowSegment(output, image, y, d, minX1, minX0, 1, 5, was);
    RowSegment(output, image, y, d, minX0, maxX4, 0, 5, was);
    RowSegment(output, image, y, d, maxX4, maxX3, 0, 4, was);
    RowSegment(output, image, y, d, maxX3, image.Length1, 0, 3, was);
  }

  /** convolveHorizontalPartial: a chunk of rows. */
  method ConvolveHorizontalPartial(output: array2<real>, image: array2<real>, startY: nat, endY: nat, scale: nat)
    requires Like(output, image) && output != image && startY <= endY <= image.Length0 && FastFits(image.Length1, scale)
    modifies output
    ensures RowsFiltered(output, old(Img(output)), Img(image), Holes(scale), startY, endY)
  {
    ghost var was := Img(output);
    for y := startY to endY
      invariant RowsFiltered(output, was, Img(image), Holes(scale), startY, y)
    {
      FastRow(output, image, y, scale);
    }
  }

  /** The columns from startX to endX are filtered down to row y, and in row y up to column x; the rest is unchanged. */
  ghost predicate ColumnsPart(a: array2<real>, was: Image, img: Image, d: nat, startX: nat, endX: nat, y: nat, x: nat)
    requires Shaped(img, a.Length1, a.Length0) && Shaped(was, a.Length1, a.Length0)
    reads a
  {
    forall v: nat, u: nat {:trigger a[v, u]} :: v < a.Length0 && u < a.Length1 ==>
      a[v, u] == if startX <= u < endX && (v < y || (v == y && u < x)) then Taps(Column(img, u), d, v, 5) else was[v][u]
  }

  method PixelOfColumn(image: array2<real>, y: nat, x: nat, d: nat, lo: nat, hi: nat) returns (sum: real)
    requires y < image.Length0 && x < image.Length1 && TapsFall(image.Length0, d, y, lo, hi)
    ensures sum == SomeTaps(Column(Img(image), x), d, y, lo, hi)
  {
    ghost var line := Column(Img(image), x);
    sum := 0.0;
    for k := lo to hi
      invariant TapsFall(image.Length0, d, y, lo, k) && sum == SomeTaps(line, d, y, lo, k)
    {
      var row := y + Dist(d, k);
      assert 0 <= row < image.Length0 && line[row] == image[row, x];
      sum := sum + Weigh(k, image[row, x]);
    }
  }

  method FilteredInColumn(image: array2<real>, y: nat, x: nat, d: nat, lo: nat, hi: nat) returns (sum: real)
    requires y < image.Length0 && x < image.Length1 && InSegment(image.Length0, d, y, lo, hi)
    ensures sum == Taps(Column(Img(image), x), d, y, 5)
  {
    SegmentIsWhole(Column(Img(image), x), d, y, lo, hi);
    sum := PixelOfColumn(image, y, x, d, lo, hi);
  }

  /** One row of a chunk of columns, with the taps lo to hi - 1. */
  method SegmentRow(output: array2<real>, image: array2<real>, y: nat, startX: nat, endX: nat, d: nat, lo: nat, hi: nat,
          ghost was: Image)
    requires Like(output, image) && output != image && y < image.Length0 && startX <= endX <= image.Length1 &&
             Shaped(was, image.Length1, image.Length0)
    requires InSegment(image.Length0, d, y, lo, hi) && ColumnsPart(output, was, Img(image), d, startX, endX, y, startX)
    modifies output
    ensures ColumnsPart(output, was, Img(image), d, startX, endX, y + 1, startX)
  {
    for x := startX to endX
      invariant ColumnsPart(output, was, Img(image), d, startX, endX, y, x)
    {
      var sum := FilteredInColumn(image, y, x, d, lo, hi);
      output[y, x] := sum;
    }
  }

  /** The rows from `from` to `to`, which form one segment of the columns. */
  method ColumnSegment(output: array2<real>, image: array2<real>, startX: nat, endX: nat, d: nat, from: nat, to: nat,
          lo: nat, hi: nat, ghost was: Image)
    requires Like(output, image) && output != image && from <= to <= image.Length0 && startX <= endX <= image.Length1
    requires Shaped(was, image.Length1, image.Length0) &&
             ColumnsPart(output, was, Img(image), d, startX, endX, from, startX)
    requires IsSegment(image.Length0, d, from, to, lo, hi)
    modifies output
    ensures ColumnsPart(output, was, Img(image), d, startX, endX, to, startX)
  {
    for y := from to to
      invariant ColumnsPart(output, was, Img(image), d, startX, endX, y, startX)
    {
      SegmentHolds(image.Length0, d, from, to, lo, hi, y);
      SegmentRow(output, image, y, startX, endX, d, lo, hi, was);
    }
  }

  /** A chunk of columns in five segments of rows. */
  method ConvolveVerticalPartialFast(output: array2<real>, image: array2<real>, startX: nat, endX: nat, scale: nat)
    requires Like(output, image) && output != image && startX <= endX <= image.Length1 && FastFits(image.Length0, scale)
    modifies output
    ensures ColumnsPart(output, old(Img(output)), Img(image), Holes(scale), startX, endX, image.Length0, startX)
  {
    ghost var was := Img(output);
    var d, height := Pow2(scale) - 1, image.Length0;
    SegmentBounds(height, d);
    var minY0, minY1, maxY3, maxY4 := FirstOf(d, 0), FirstOf(d, 1), EndOf(height, d, 3), EndOf(height, d, 4);
    ColumnSegment(output, image, startX, endX, d, 0, minY1, 2, 5, was);
    ColumnSegment(output, image, startX, endX, d, minY1, minY0, 1, 5, was);
    ColumnSegment(output, image, startX, endX, d, minY0, maxY4, 0, 5, was);
    ColumnSegment(output, image, startX, endX, d, maxY4, maxY3, 0, 4, was);
    ColumnSegment(output, image, startX, endX, d, maxY3, height, 0, 3, was);
  }

  // ----- chunks of rows and columns for the threads

  /** Any division of 0 .. n - 1 into neighbouring chunks. */
  ghost predicate Chunks(cuts: seq<nat>, n: nat) {
    |cuts| > 0 && cuts[0] == 0 && cuts[|cuts| - 1] == n &&
    forall k {:trigger cuts[k]} :: 0 <= k < |cuts| ==> ChunkFits(cuts, k, n)
  }

  ghost predicate ChunkFits(cuts: seq<nat>, k: nat, n: nat)
    requires k < |cuts|
  {
    cuts[k] <= n && (k > 0 ==> cuts[k - 1] <= cuts[k])
  }

  method FilterRowsInChunks(output: array2<real>, image: array2<real>, scale: nat, cuts: seq<nat>)
    requires Like(output, image) && output != image && FastFits(image.Length1, scale) && Chunks(cuts, image.Length0)
    modifies output
    ensures Img(output) == Horizontal(Img(image), image.Length1, image.Length0, Holes(scale))
  {
    ghost var was, img := Img(output), Img(image);
    for k := 1 to |cuts|
      invariant RowsFiltered(output, was, img, Holes(scale), 0, cuts[k - 1]) && Img(image) == img
    {
      assert ChunkFits(cuts, k, image.Length0);
      ghost var before := Img(output);
      ConvolveHorizontalPartial(output, image, cuts[k - 1], cuts[k], scale);
      RowsJoin(output, was, before, img, Holes(scale), cuts[k - 1], cuts[k]);
    }
    RowsComplete(output, was, img, Holes(scale));
  }

  lemma RowsJoin(a: array2<real>, was: Image, before: Image, img: Image, d: nat, m: nat, n: nat)
    requires Shaped(img, a.Length1, a.Length0) && Shaped(was, a.Length1, a.Length0) &&
             Shaped(before, a.Length1, a.Length0) && m <= n
    requires RowsFiltered(a, before, img, d, m, n)
    requires forall y: nat, x: nat {:trigger before[y][x]} :: y < a.Length0 && x < a.Length1 ==>
      before[y][x] == if y < m then Taps(img[y], d, x, 5) else was[y][x]
    ensures RowsFiltered(a, was, img, d, 0, n)
  {
    forall y: nat, x: nat | y < a.Length0 && x < a.Length1
      ensures a[y, x] == if y < n then Taps(img[y], d, x, 5) else was[y][x] {
      assert before[y][x] == if y < m then Taps(img[y], d, x, 5) else was[y][x];
    }
  }

  lemma RowsComplete(a: array2<real>, was: Image, img: Image, d: nat)
    requires Shaped(img, a.Length1, a.Length0) && Shaped(was, a.Length1, a.Length0) &&
             RowsFiltered(a, was, img, d, 0, a.Length0)
    ensures Img(a) == Horizontal(img, a.Length1, a.Length0, d)
  {
    AllRows(a, img, d);
  }

  /** The columns before column n are filtered; the rest is unchanged. */
  ghost predicate ColumnsFiltered(a: array2<real>, was: Image, img: Image, d: nat, n: nat)
    requires Shaped(img, a.Length1, a.Length0) && Shaped(was, a.Length1, a.Length0)
    reads a
  {
    forall y: nat, x: nat {:trigger a[y, x]} :: y < a.Length0 && x < a.Length1 ==>
      a[y, x] == if x < n then Taps(Column(img, x), d, y, 5) else was[y][x]
  }

  method FilterColumnsInChunks(output: array2<real>, image: array2<real>, scale: nat, cuts: seq<nat>)
    requires Like(output, image) && output != image && FastFits(image.Length0, scale) && Chunks(cuts, image.Length1)
    modifies output
    ensures Img(output) == Vertical(Img(image), image.Length1, image.Length0, Holes(scale))
  {
    ghost var was, img := Img(output), Img(image);
    for k := 1 to |cuts|
      invariant ColumnsFiltered(output, was, img, Holes(scale), cuts[k - 1]) && Img(image) == img
    {
      assert ChunkFits(cuts, k, image.Length1);
      ghost var before := Img(output);
      ConvolveVerticalPartialFast(output, image, cuts[k - 1], cuts[k], scale);
      ColumnsJoin(output, was, before, img, Holes(scale), cuts[k - 1], cuts[k]);
    }
    AllColumns(output, img, Holes(scale));
  }

  lemma ColumnsJoin(a: array2<real>, was: Image, before: Image, img: Image, d: nat, m: nat, n: nat)
    requires Shaped(img, a.Length1, a.Length0) && Shaped(was, a.Length1, a.Length0) &&
             Shaped(before, a.Length1, a.Length0) && m <= n
    requires ColumnsPart(a, before, img, d, m, n, a.Length0, m)
    requires forall y: nat, x: nat {:trigger before[y][x]} :: y < a.Length0 && x < a.Length1 ==>
      before[y][x] == if x < m then Taps(Column(img, x), d, y, 5) else was[y][x]
    ensures ColumnsFiltered(a, was, img, d, n)
  {
    forall y: nat, x: nat | y < a.Length0 && x < a.Length1
      ensures a[y, x] == if x < n then Taps(Column(img, x), d, y, 5) else was[y][x] {
      assert before[y][x] == if x < m then Taps(Column(img, x), d, y, 5) else was[y][x];
    }
  }

  /** The fast convolution equals the simple one, however the rows and columns are divided into chunks. */
  method ConvolveMT(output: array2<real>, image: array2<real>, scratch: array2<real>, scale: nat, rowCuts: seq<nat>,
          columnCuts: seq<nat>)
    requires Like(output, image) && Like(scratch, image) && scratch != image && scratch != output
    requires FastFits(image.Length1, scale) && FastFits(image.Length0, scale) && Chunks(rowCuts, image.Length0) &&
             Chunks(columnCuts, image.Length1)
    modifies output, scratch
    ensures Img(output) == Convolved(old(Img(image)), image.Length1, image.Length0, Holes(scale))
  {
    FilterRowsInChunks(scratch, image, scale, rowCuts);
    FilterColumnsInChunks(output, scratch, scale, columnCuts);
  }

  // ----- the other vertical version

  /** The middle tap first, and then those of the first n taps that are not the middle one. */
  ghost function MiddleAnd(line: seq<real>, d: nat, x: int, n: nat): real
    requires n <= 5
  {
    Taps(line, d, x, n) + if n <= 2 then Weigh(2, At(line, x)) else 0.0
  }

  /**
   * On the columns from startX to endX, n taps are added beside the middle one, and one more on the rows from
   * `from` to `to`.
   */
  ghost predicate TapsAdded(a: array2<real>, was: Image, img: Image, d: nat, startX: nat, endX: nat, n: nat, from: int,
          to: int)
    requires Shaped(img, a.Length1, a.Length0) && Shaped(was, a.Length1, a.Length0) && n <= 5
    reads a
  {
    forall v: nat, u: nat {:trigger a[v, u]} :: v < a.Length0 && u < a.Length1 ==>
      a[v, u] == if startX <= u < endX
          then MiddleAnd(Column(img, u), d, v, if from <= v < to && n < 5 then n + 1 else n) else was[v][u]
  }

  method MiddleTap(output: array2<real>, image: array2<real>, d: nat, startX: nat, endX: nat)
    requires Like(output, image) && output != image && startX <= endX <= image.Length1
    modifies output
    ensures TapsAdded(output, old(Img(output)), Img(image), d, startX, endX, 0, 0, 0)
  {
    ghost var was := Img(output);
    for y := 0 to image.Length0
      invariant forall v: nat, u: nat {:trigger output[v, u]} :: v < output.Length0 && u < output.Length1 ==>
        output[v, u] == if startX <= u < endX && v < y then Weigh(2, image[v, u]) else was[v][u]
    {
      for x := startX to endX
        invariant forall v: nat, u: nat {:trigger output[v, u]} :: v < output.Length0 && u < output.Length1 ==>
          output[v, u] == if startX <= u < endX && (v < y || (v == y && u < x)) then Weigh(2, image[v, u])
              else was[v][u]
      {
        output[y, x] := Weigh(2, image[y, x]);
      }
    }
  }

  method AddTapToRow(output: array2<real>, image: array2<real>, k: nat, d: nat, startX: nat, endX: nat, from: int,
          y: nat, ghost was: Image)
    requires Like(output, image) && output != image && startX <= endX <= image.Length1 &&
             Shaped(was, image.Length1, image.Length0)
    requires k < 5 && k != 2 && from <= y < image.Length0 && 0 <= y + Dist(d, k) < image.Length0
    requires TapsAdded(output, was, Img(image), d, startX, endX, k, from, y)
    modifies output
    ensures TapsAdded(output, was, Img(image), d, startX, endX, k, from, y + 1)
  {
    ghost var img, before := Img(image), Img(output);
    for x := startX to endX
      invariant forall v: nat, u: nat {:trigger output[v, u]} :: v < output.Length0 && u < output.Length1 ==>
        output[v, u] == if startX <= u < x && v == y then MiddleAnd(Column(img, u), d, v, k + 1) else before[v][u]
    {
      assert output[y, x] == MiddleAnd(Column(img, x), d, y, k);
      output[y, x] := output[y, x] + Weigh(k, image[y + Dist(d, k), x]);
    }
    forall v: nat, u: nat | v < output.Length0 && u < output.Length1 && v != y
      ensures output[v, u] == if startX <= u < endX
              then MiddleAnd(Column(img, u), d, v, if from <= v < y + 1 then k + 1 else k) else was[v][u] {
      assert before[v][u] == if startX <= u < endX
        then MiddleAnd(Column(img, u), d, v, if from <= v < y then k + 1 else k) else was[v][u];
    }
  }

  method AddTap(output: array2<real>, image: array2<real>, k: nat, d: nat, startX: nat, endX: nat, ghost was: Image)
    requires Like(output, image) && output != image && startX <= endX <= image.Length1 &&
             Shaped(was, image.Length1, image.Length0)
    requires k < 5 && k != 2 && 2 * d <= image.Length0 && TapsAdded(output, was, Img(image), d, startX, endX, k, 0, 0)
    modifies output
    ensures TapsAdded(output, was, Img(image), d, startX, endX, k + 1, 0, 0)
  {
    var minY, maxY := FirstOf(d, k), EndOf(image.Length0, d, k);
    TapRange(image.Length0, d, k);
    var y := minY;
    while y < maxY
      invariant minY <= y && (maxY <= minY ==> y == minY) && (minY < maxY ==> y <= maxY)
      invariant TapsAdded(output, was, Img(image), d, startX, endX, k, minY, y)
    {
      AddTapToRow(output, image, k, d, startX, endX, minY, y, was);
      y := y + 1;
    }
  }

  /** The version that adds one tap at a time to a chunk of columns computes the same. */
  method ConvolveVerticalPartialFastFailed(output: array2<real>, image: array2<real>, startX: nat, endX: nat,
          scale: nat)
    requires Like(output, image) && output != image && startX <= endX <= image.Length1 &&
             SimpleFits(image.Length0, scale)
    modifies output
    ensures ColumnsPart(output, old(Img(output)), Img(image), Holes(scale), startX, endX, image.Length0, startX)
  {
    ghost var was := Img(output);
    MiddleTap(output, image, Holes(scale), startX, endX);
    for hIndex := 0 to 5
      invariant TapsAdded(output, was, Img(image), Holes(scale), startX, endX, hIndex, 0, 0)
    {
      if hIndex != 2 {
        AddTap(output, image, hIndex, Holes(scale), startX, endX, was);
      }
    }
  }
}
