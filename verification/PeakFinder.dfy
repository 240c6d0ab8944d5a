/**
 * Finding the highest pixel of an image (deconvolution/peakfinder.cpp).  Images are flat buffers
 * in row-major order.
 */
module PeakFinder {
  import opened Common
  import RowMajor

  /** The smallest positive normalised single-precision value, 2^-126; peaks have to exceed it. */
  const FLOAT_MIN: real := 1.0 / 85070591730234615865843651857942052864.0

  /** A found peak: its position and the value of the image there. */
  datatype Peak = Peak(x: nat, y: nat, value: real)

  /** What a search looks at: the image, the rows [startY, endY), the borders, the sign rule and an optional mask. */
  datatype Search = Search(image: seq<real>, width: nat, height: nat, allowNegative: bool,
                           startY: nat, endY: nat, horizontalBorder: nat, verticalBorder: nat,
                               mask: Option<seq<bool>>) {
    predicate Valid() {
      |image| == width * height && horizontalBorder <= width && verticalBorder <= height && endY <= height &&
          startY <= height &&
      (mask.Some? ==> |mask.value| == width * height)
    }

    function X0(): nat { horizontalBorder }

    function X1(): nat
      requires Valid()
    {
      if width - horizontalBorder < horizontalBorder then horizontalBorder else width - horizontalBorder
    }

    function Y0(): nat { if startY > verticalBorder then startY else verticalBorder }

    function Y1(): nat
      requires Valid()
    {
      var end := if endY < height - verticalBorder then endY else height - verticalBorder;
      if end < Y0() then Y0() else end
    }

    predicate Inside(x: int, y: int)
      requires Valid()
    {
      X0() <= x < X1() && Y0() <= y < Y1() && x < width && y < height
    }

    function At(x: int, y: int): real
      requires Valid() && 0 <= x < width && 0 <= y < height
    {
      RowMajor.Fits(width, height, x, y);
      image[y * width + x]
    }

    /** The value that is compared with the peak so far. */
    function Level(x: int, y: int): real
      requires Valid() && 0 <= x < width && 0 <= y < height
    {
      if allowNegative then Abs(At(x, y)) else At(x, y)
    }

    predicate Masked(x: int, y: int)
      requires Valid() && 0 <= x < width && 0 <= y < height
    {
      RowMajor.Fits(width, height, x, y);
      mask.None? || mask.value[y * width + x]
    }

    /** The pixel takes part in the search. */
    predicate Considered(x: int, y: int)
      requires Valid()
    {
      Inside(x, y) && Masked(x, y)
    }

    /** (x, y) comes before (x', y') in row-major order. */
    predicate Before(x: int, y: int, x': int, y': int) {
      y < y' || (y == y' && x < x')
    }

    /** Among the pixels before (ex, ey), (px, py) is the first one with the highest level, and it exceeds FLOAT_MIN. */
    ghost predicate FirstHighest(px: int, py: int, ex: int, ey: int)
      requires Valid()
    {
      Considered(px, py) && Before(px, py, ex, ey) && Level(px, py) > FLOAT_MIN &&
      forall x, y {:trigger Considered(x, y)} :: Considered(x, y) && Before(x, y, ex, ey) ==>
        Level(x, y) <= Level(px, py) && (Before(x, y, px, py) ==> Level(x, y) < Level(px, py))
    }

    ghost predicate NothingAbove(ex: int, ey: int)
      requires Valid()
    {
      forall x, y {:trigger Considered(x, y)} :: Considered(x, y) && Before(x, y, ex, ey) ==> Level(x, y) <= FLOAT_MIN
    }

    /** What a search is to return: the first highest pixel, or nothing when no level exceeds FLOAT_MIN. */
    ghost predicate Finds(r: Option<Peak>)
      requires Valid()
    {
      if r.None? then NothingAbove(0, height)
      else FirstHighest(r.value.x, r.value.y, 0, height) && r.value.value == At(r.value.x, r.value.y)
    }
  }

  /** The pixels that are considered: inside the rows that are searched and the borders, and in the mask. */
  lemma ConsideredIs(s: Search, x: int, y: int)
    requires s.Valid()
    ensures s.Considered(x, y) <==>
            s.horizontalBorder <= x < s.width - s.horizontalBorder &&
            s.verticalBorder <= y < s.height - s.verticalBorder && s.startY <= y < s.endY &&
            (s.mask.None? || (RowMajor.Fits(s.width, s.height, x, y); s.mask.value[y * s.width + x]))
  {
  }

  /** The outcome of a search is unique. */
  lemma FindsOne(s: Search, a: Option<Peak>, b: Option<Peak>)
    requires s.Valid() && s.Finds(a) && s.Finds(b)
    ensures a == b
  {
    if a.Some? {
      assert s.Considered(a.value.x, a.value.y);
    }
    if b.Some? {
      assert s.Considered(b.value.x, b.value.y);
    }
  }

  /** A pixel that does not beat the peak so far leaves it the first highest one. */
  lemma NextPixel(s: Search, found: bool, px: int, py: int, x: int, y: int)
    requires s.Valid() && s.Inside(x, y)
    requires if found then s.FirstHighest(px, py, x, y) else s.NothingAbove(x, y)
    ensures var level := if found then s.Level(px, py) else FLOAT_MIN;
            if s.Masked(x, y) && s.Level(x, y) > level then s.FirstHighest(x, y, x + 1, y)
            else if found then s.FirstHighest(px, py, x + 1, y)
            else s.NothingAbove(x + 1, y)
  {
    assert forall i, j :: s.Before(i, j, x + 1, y) ==> s.Before(i, j, x, y) || (i == x && j == y);
  }

  /** Past the last column of a row the search may as well be at the start of the next one. */
  lemma NextRow(s: Search, found: bool, px: int, py: int, y: int)
    requires s.Valid()
    requires if found then s.FirstHighest(px, py, s.X1(), y) else s.NothingAbove(s.X1(), y)
    ensures if found then s.FirstHighest(px, py, s.X0(), y + 1) else s.NothingAbove(s.X0(), y + 1)
  {
  }

  lemma WholeImage(s: Search, found: bool, px: int, py: int)
    requires s.Valid()
    requires if found then s.FirstHighest(px, py, s.X0(), s.Y1()) else s.NothingAbove(s.X0(), s.Y1())
    ensures if found then s.FirstHighest(px, py, 0, s.height) else s.NothingAbove(0, s.height)
  {
  }

  /** The result for the index at which the search ended. */
  method PeakOfIndex(s: Search, peakIndex: nat, ghost found: bool, ghost px: int, ghost py: int)
          returns (r: Option<Peak>)
    requires s.Valid() && if found then s.FirstHighest(px, py, 0, s.height) else s.NothingAbove(0, s.height)
    requires peakIndex == if found then py * s.width + px else |s.image|
    ensures s.Finds(r)
  {
    if found {
      RowMajor.Fits(s.width, s.height, px, py);
      RowMajor.Splits(s.width, px, py);
    }
    if peakIndex == s.width * s.height {
      r := None;
    } else {
      var x, y := peakIndex % s.width, peakIndex / s.width;
      r := Some(Peak(x, y, s.image[x + y * s.width]));
    }
  }

  /** The state of the scalar search before (x, y). */
  ghost predicate SimpleWell(s: Search, peakIndex: nat, peakMax: real, found: bool, px: int, py: int, x: int, y: int)
    requires s.Valid()
  {
    if found then s.FirstHighest(px, py, x, y) && peakMax == s.Level(px, py) && peakIndex == py * s.width + px
    else s.NothingAbove(x, y) && peakMax == FLOAT_MIN && peakIndex == |s.image|
  }

  /** One pixel of the scalar search. */
  method SimplePixel(s: Search, index: nat, x: nat, y: nat, peakIndex: nat, peakMax: real, ghost found: bool,
          ghost px: int, ghost py: int)
    returns (peakIndex': nat, peakMax': real, ghost found': bool, ghost px': int, ghost py': int)
    requires s.Valid() && s.mask.None? && s.Inside(x, y) && index == y * s.width + x
    requires SimpleWell(s, peakIndex, peakMax, found, px, py, x, y)
    ensures SimpleWell(s, peakIndex', peakMax', found', px', py', x + 1, y)
  {
    peakIndex', peakMax', found', px', py' := peakIndex, peakMax, found, px, py;
    RowMajor.Fits(s.width, s.height, x, y);
    NextPixel(s, found, px, py, x, y);
    var value := s.image[index];
    if s.allowNegative { value := Abs(value); }
    if value > peakMax {
      peakIndex' := index;
      peakMax' := Abs(value);
      px', py', found' := x, y, true;
    }
  }

  /** One row of the scalar search. */
  method SimpleRow(s: Search, y: nat, peakIndex0: nat, peakMax0: real, ghost found0: bool, ghost px0: int,
          ghost py0: int)
    returns (peakIndex: nat, peakMax: real, ghost found: bool, ghost px: int, ghost py: int)
    requires s.Valid() && s.mask.None? && s.Y0() <= y < s.Y1()
    requires SimpleWell(s, peakIndex0, peakMax0, found0, px0, py0, s.X0(), y)
    ensures SimpleWell(s, peakIndex, peakMax, found, px, py, s.X1(), y)
  {
    peakIndex, peakMax, found, px, py := peakIndex0, peakMax0, found0, px0, py0;
    InsideRow(s, y);
    ghost var start := y * s.width;
    var index: nat := y * s.width + s.X0();
    var x := s.X0();
    while x != s.X1()
      invariant s.X0() <= x <= s.X1() && index == start + x
      invariant SimpleWell(s, peakIndex, peakMax, found, px, py, x, y)
    {
      peakIndex, peakMax, found, px, py := SimplePixel(s, index, x, y, peakIndex, peakMax, found, px, py);
      index := index + 1;
      x := x + 1;
    }
  }

  method Simple(s: Search) returns (r: Option<Peak>)
    requires s.Valid() && s.mask.None?
    ensures s.Finds(r)
  {
    var peakMax := FLOAT_MIN;
    var peakIndex: nat := s.width * s.height;
    ghost var px, py, found := 0, 0, false;
    var y := s.Y0();
    while y != s.Y1()
      invariant s.Y0() <= y <= s.Y1()
      invariant SimpleWell(s, peakIndex, peakMax, found, px, py, s.X0(), y)
    {
      peakIndex, peakMax, found, px, py := SimpleRow(s, y, peakIndex, peakMax, found, px, py);
      NextRow(s, found, px, py, y);
      y := y + 1;
    }
    WholeImage(s, found, px, py);
    r := PeakOfIndex(s, peakIndex, found, px, py);
  }

  method FindWithMask(s: Search) returns (r: Option<Peak>)
    requires s.Valid() && s.mask.Some?
    ensures s.Finds(r)
  {
    var width, height := s.width, s.height;
    var peakMax := FLOAT_MIN;
    var x, y := width, height;
    var yi := s.Y0();
    while yi != s.Y1()
      invariant s.Y0() <= yi <= s.Y1()
      invariant y != height ==> s.FirstHighest(x, y, s.X0(), yi) && peakMax == s.Level(x, y)
      invariant y == height ==> s.NothingAbove(s.X0(), yi) && peakMax == FLOAT_MIN
    {
      var xi := s.X0();
      while xi != s.X1()
        invariant s.X0() <= xi <= s.X1()
        invariant y != height ==> s.FirstHighest(x, y, xi, yi) && peakMax == s.Level(x, y)
        invariant y == height ==> s.NothingAbove(xi, yi) && peakMax == FLOAT_MIN
      {
        RowMajor.Fits(width, height, xi, yi);
        NextPixel(s, y != height, x, y, xi, yi);
        var value := s.image[yi * width + xi];
        if s.allowNegative { value := Abs(value); }
        if value > peakMax && s.mask.value[yi * width + xi] {
          x, y := xi, yi;
          peakMax := Abs(value);
        }
        xi := xi + 1;
      }
      NextRow(s, y != height, x, y, yi);
      yi := yi + 1;
    }
    WholeImage(s, y != height, x, y);
    if y == height {
      r := None;
    } else {
      RowMajor.Fits(width, height, x, y);
      r := Some(Peak(x, y, s.image[x + y * width]));
    }
  }

  /** What the vectorised search returns: it never says that there is no peak. */
  ghost predicate FindsVectorised(s: Search, r: Peak)
    requires s.Valid()
  {
    s.Finds(Some(r)) || (s.Finds(None) && |s.image| > 0 && r == Peak(0, 0, s.image[0]))
  }

  /** Some of the pixels [x, x + lanes) of row y has a level above the filter. */
  predicate AnyAbove(s: Search, x: nat, y: nat, lanes: nat, filter: real)
    requires s.Valid() && y < s.height && x + lanes <= s.width
  {
    exists i :: x <= i < x + lanes && s.Level(i, y) > filter
  }

  /** The state of the vectorised search: the peak so far, and a filter level that may lag behind it. */
  datatype Scan = Scan(peakIndex: nat, peakMax: real, filter: real)

  ghost predicate ScanWell(s: Search, c: Scan, found: bool, px: int, py: int, x: int, y: int)
    requires s.Valid()
  {
    c.filter <= c.peakMax &&
    if found then s.FirstHighest(px, py, x, y) && c.peakMax == s.Level(px, py) && c.peakIndex == py * s.width + px
    else s.NothingAbove(x, y) && c.peakMax == FLOAT_MIN && c.peakIndex == 0
  }

  lemma {:induction false} SkipBlock(s: Search, c: Scan, found: bool, px: int, py: int, x: nat, y: nat, lanes: nat)
    requires s.Valid() && s.mask.None? && s.Y0() <= y < s.Y1() && s.X0() <= x && x + lanes <= s.X1() <= s.width &&
             y < s.height
    requires ScanWell(s, c, found, px, py, x, y) && !AnyAbove(s, x, y, lanes, c.filter)
    ensures ScanWell(s, c, found, px, py, x + lanes, y)
    decreases lanes
  {
    if lanes > 0 {
      assert !(s.Level(x, y) > c.filter);
      NextPixel(s, found, px, py, x, y);
      SkipBlock(s, c, found, px, py, x + 1, y, lanes - 1);
    }
  }

  /** One pixel; in a block a new peak raises the filter level too. */
  method ScanPixel(s: Search, c: Scan, x: nat, y: nat, raiseFilter: bool, ghost found: bool, ghost px: int,
          ghost py: int)
    returns (c': Scan, ghost found': bool, ghost px': int, ghost py': int)
    requires s.Valid() && s.mask.None? && s.Y0() <= y < s.Y1() && s.X0() <= x < s.X1() <= s.width && y < s.height
    requires ScanWell(s, c, found, px, py, x, y)
    ensures ScanWell(s, c', found', px', py', x + 1, y)
  {
    c', found', px', py' := c, found, px, py;
    NextPixel(s, found, px, py, x, y);
    var value := s.Level(x, y);
    if value > c.peakMax {
      var peakMax := Abs(s.At(x, y));
      c' := Scan(y * s.width + x, peakMax, if raiseFilter then peakMax else c.filter);
      found', px', py' := true, x, y;
    }
  }

  /** One block of the vectorised search, looked at lane by lane when the filter lets it through. */
  method ScanBlock(s: Search, c: Scan, x: nat, y: nat, lanes: nat, ghost found: bool, ghost px: int, ghost py: int)
    returns (c': Scan, ghost found': bool, ghost px': int, ghost py': int)
    requires s.Valid() && s.mask.None? && s.Y0() <= y < s.Y1() && s.X0() <= x && x + lanes <= s.X1() <= s.width &&
             y < s.height
    requires ScanWell(s, c, found, px, py, x, y)
    ensures ScanWell(s, c', found', px', py', x + lanes, y)
  {
    c', found', px', py' := c, found, px, py;
    if AnyAbove(s, x, y, lanes, c.filter) {
      var di := 0;
      while di != lanes
        invariant di <= lanes && ScanWell(s, c', found', px', py', x + di, y)
      {
        c', found', px', py' := ScanPixel(s, c', x + di, y, true, found', px', py');
        di := di + 1;
      }
    } else {
      SkipBlock(s, c, found, px, py, x, y, lanes);
    }
  }

  /** The end of a row, pixel by pixel; the filter level stays as it is. */
  method ScanTail(s: Search, c: Scan, x: nat, y: nat, ghost found: bool, ghost px: int, ghost py: int)
    returns (c': Scan, ghost found': bool, ghost px': int, ghost py': int)
    requires s.Valid() && s.mask.None? && s.Y0() <= y < s.Y1() && s.X0() <= x <= s.X1() <= s.width && y < s.height
    requires ScanWell(s, c, found, px, py, x, y)
    ensures ScanWell(s, c', found', px', py', s.X1(), y)
  {
    c', found', px', py' := c, found, px, py;
    var i := x;
    while i != s.X1()
      invariant x <= i <= s.X1() && ScanWell(s, c', found', px', py', i, y)
    {
      c', found', px', py' := ScanPixel(s, c', i, y, false, found', px', py');
      i := i + 1;
    }
  }

  /** The search in blocks of `lanes` pixels with a scalar tail in every row. */
  method Vectorised(s: Search, lanes: nat) returns (r: Peak)
    requires s.Valid() && s.mask.None? && 0 < |s.image| && 0 < lanes
    ensures FindsVectorised(s, r)
  {
    var c := Scan(0, FLOAT_MIN, FLOAT_MIN);
    ghost var px, py, found := 0, 0, false;
    var yi := s.Y0();
    while yi != s.Y1()
      invariant s.Y0() <= yi <= s.Y1()
      invariant ScanWell(s, c, found, px, py, s.X0(), yi)
    {
      InsideRow(s, yi);
      var i: nat := s.X0();
      while i < s.X1() - lanes
        invariant s.X0() <= i <= s.X1()
        invariant ScanWell(s, c, found, px, py, i, yi)
        decreases s.X1() - i
      {
        c, found, px, py := ScanBlock(s, c, i, yi, lanes, found, px, py);
        i := i + lanes;
      }
      c, found, px, py := ScanTail(s, c, i, yi, found, px, py);
      NextRow(s, found, px, py, yi);
      yi := yi + 1;
    }
    WholeImage(s, found, px, py);
    ghost var x, y := FinishScan(s, c, found, px, py);
    r := Peak(c.peakIndex % s.width, c.peakIndex / s.width, s.At(c.peakIndex % s.width, c.peakIndex / s.width));
  }

  lemma InsideRow(s: Search, y: nat)
    requires s.Valid() && s.Y0() <= y < s.Y1()
    ensures y < s.height && s.X0() <= s.X1() <= s.width
  {
  }

  /** The index of the peak is that of a pixel: the peak, or the first one if there is no peak. */
  lemma PeakPosition(s: Search, c: Scan, found: bool, px: int, py: int) returns (x: nat, y: nat)
    requires s.Valid() && 0 < |s.image| && ScanWell(s, c, found, px, py, 0, s.height)
    ensures s.width > 0 && x == c.peakIndex % s.width && y == c.peakIndex / s.width
    ensures x < s.width && y < s.height && (if found then x == px && y == py else x == y == 0)
  {
    RowMajor.Joins(s.width, s.height, 0);
    if found {
      x, y := px, py;
    } else {
      x, y := 0, 0;
    }
    RowMajor.Splits(s.width, x, y);
  }

  lemma FinishScan(s: Search, c: Scan, found: bool, px: int, py: int) returns (x: nat, y: nat)
    requires s.Valid() && 0 < |s.image| && ScanWell(s, c, found, px, py, 0, s.height)
    ensures s.width > 0 && x == c.peakIndex % s.width && y == c.peakIndex / s.width
    ensures x < s.width && y < s.height && FindsVectorised(s, Peak(x, y, s.At(x, y)))
  {
    x, y := PeakPosition(s, c, found, px, py);
    if !found {
      assert s.Finds(None);
    }
  }

  /** The vectorised search agrees with the scalar one exactly when some considered level exceeds FLOAT_MIN. */
  lemma VectorisedAgrees(s: Search, scalar: Option<Peak>, vectorised: Peak)
    requires s.Valid() && s.Finds(scalar) && FindsVectorised(s, vectorised)
    ensures scalar == Some(vectorised) <==> exists x, y :: s.Considered(x, y) && s.Level(x, y) > FLOAT_MIN
  {
    if scalar.Some? {
      var p := scalar.value;
      assert s.Considered(p.x, p.y);
      if s.Finds(None) {
        FindsOne(s, scalar, None);
      } else {
        FindsOne(s, scalar, Some(vectorised));
      }
      assert s.Level(p.x, p.y) > FLOAT_MIN;
    } else {
      forall x, y | s.Considered(x, y) ensures s.Level(x, y) <= FLOAT_MIN {
        assert s.Before(x, y, 0, s.height);
      }
    }
  }

  /** An image without positive values: the scalar search finds nothing, the vectorised one the first pixel. */
  lemma DarkImage()
    ensures var s := Search([-1.0], 1, 1, false, 0, 1, 0, 0, None);
            s.Valid() && s.Finds(None) && FindsVectorised(s, Peak(0, 0, -1.0))
  {
    var s := Search([-1.0], 1, 1, false, 0, 1, 0, 0, None);
    forall x, y | s.Considered(x, y) ensures s.Level(x, y) <= FLOAT_MIN {
      assert x == 0 && y == 0;
    }
  }
}
