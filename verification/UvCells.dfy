/**
 * Where a visibility ends up in the uv plane (gridding/wstackinggridder.cpp), cell by cell: which of the
 * oversampled kernels it is gridded with, and the weight with which it reaches each cell of the periodic plane.
 */
module UvCells {
  import opened Common
  import RowMajor
  import opened Shares
  import opened WLayers
  import opened UvPlane

  /** The integer nearest to a number; of two the one that is farther from zero. */
  predicate Nearest(x: real, m: int) {
    -0.5 <= m as real - x <= 0.5 && (m as real - x == 0.5 ==> x > 0.0) && (m as real - x == -0.5 ==> x < 0.0)
  }

  lemma RoundIsNearest(x: real, m: int)
    ensures Nearest(x, m) <==> m == Round(x)
  {
  }

  // ----- the choice of the kernel

  /** Kernel k is for offsets whose nearest multiple of 1 / n is (k - n / 2) / n, up to a whole number of cells. */
  ghost predicate KernelOf(n: nat, offset: real, k: nat) {
    k < n && exists cells: int :: NearestStep(n, offset, k, cells)
  }

  predicate NearestStep(n: nat, offset: real, k: nat, cells: int) {
    Nearest(offset * n as real, k - n / 2 + cells * n)
  }

  /** Step m is that of kernel k, up to the given number of cells. */
  predicate StepOf(n: nat, m: int, k: nat, cells: int) { m == k - n / 2 + cells * n }

  lemma NearestIsRounded(n: nat, offset: real, k: nat, cells: int)
    ensures NearestStep(n, offset, k, cells) <==> StepOf(n, Round(offset * n as real), k, cells)
  {
    RoundIsNearest(offset * n as real, k - n / 2 + cells * n);
  }

  /** The index that the code computes, and no other one, is the kernel for the offset. */
  lemma KernelIndexIs(p: Plane, offset: real, k: nat)
    requires 0 < p.overSampling && -0.5 <= offset <= 0.5
    ensures KernelOf(p.overSampling, offset, k) <==> k == p.KernelIndex(offset)
  {
    var n := p.overSampling;
    var m := Round(offset * n as real);
    assert p.KernelIndex(offset) == (m + n * 3 / 2) % n by {
      KernelIndexFits(offset, n);
    }
    RemainderIs(m, n, k);
    if KernelOf(n, offset, k) {
      var cells: int :| NearestStep(n, offset, k, cells);
      NearestIsRounded(n, offset, k, cells);
    }
    if k == p.KernelIndex(offset) {
      var cells: int :| StepOf(n, m, k, cells);
      NearestIsRounded(n, offset, k, cells);
    }
  }

  lemma RemainderIs(m: int, n: nat, k: nat)
    requires 0 < n
    ensures k < n && (exists cells: int :: StepOf(n, m, k, cells)) <==> k == (m + n * 3 / 2) % n
  {
    var r, q := (m + n * 3 / 2) % n, (m + n * 3 / 2) / n;
    assert n * 3 / 2 == n + n / 2;
    assert StepOf(n, m, r, q - 1) by {
      assert m + n + n / 2 == q * n + r;
    }
    forall cells: int | k < n && StepOf(n, m, k, cells) ensures k == r {
      SameRemainder(m + n + n / 2, n, cells + 1, k, q, r);
    }
  }

  lemma SameRemainder(t: int, n: nat, a: int, k: nat, b: int, r: nat)
    requires t == a * n + k == b * n + r && k < n && r < n
    ensures a == b && k == r
  {
    assert t < (a + 1) * n && t < (b + 1) * n;
    DivAtLeast(t, n, a);
    DivAtMost(t, n, a);
    DivAtLeast(t, n, b);
    DivAtMost(t, n, b);
  }

  /** On the centre of a cell the middle kernel is used, and one step further the next one. */
  lemma MiddleKernel(p: Plane)
    requires 1 < p.overSampling
    ensures p.KernelIndex(0.0) == p.overSampling / 2
    ensures 2 < p.overSampling ==> p.KernelIndex(1.0 / p.overSampling as real) == p.overSampling / 2 + 1
  {
    var n := p.overSampling;
    assert NearestStep(n, 0.0, n / 2, 0);
    KernelIndexIs(p, 0.0, n / 2);
    if 2 < n {
      var step := 1.0 / n as real;
      assert step * n as real == 1.0;
      assert 0.0 < step <= 0.5;
      assert NearestStep(n, step, n / 2 + 1, 0);
      KernelIndexIs(p, step, n / 2 + 1);
    }
  }

  // ----- the weight of a cell

  /** Position t of a periodic axis of n cells is cell c. */
  predicate OnCell(t: int, c: nat, n: nat)
    requires 0 < n
  {
    (t - c) % n == 0
  }

  /** Which elements of a kernel fall on cell c of a periodic axis, when the first one falls on `start`. */
  function Falls(start: int, c: nat, n: nat): nat -> bool
    requires 0 < n
  {
    i => OnCell(start + i, c, n)
  }

  /** The sum of those of the first m kernel elements that fall on a cell. */
  ghost function AxisWeight(kernel: seq<real>, falls: nat -> bool, m: nat): real
    requires m <= |kernel|
  {
    if m == 0 then 0.0 else AxisWeight(kernel, falls, m - 1) + if falls(m - 1) then kernel[m - 1] else 0.0
  }

  lemma RemainderOf(t: int, n: nat, q: int, r: nat)
    requires t == q * n + r && r < n
    ensures t % n == r
  {
    SameRemainder(t, n, t / n, t % n, q, r);
  }

  lemma WrapIs(t: int, n: nat, c: nat)
    requires 0 <= t + n && c < n
    ensures Wrap(t, n) == c <==> OnCell(t, c, n)
  {
    var q, r := (t + n) / n, (t + n) % n;
    assert t + n == q * n + r;
    if r >= c {
      RemainderOf(t - c, n, q - 1, r - c);
    } else {
      RemainderOf(t - c, n, q - 2, n + r - c);
    }
  }

  lemma OnCellShifts(t: int, c: nat, n: nat)
    requires 0 < n
    ensures OnCell(t + n, c, n) <==> OnCell(t, c, n)
  {
    var q, r := (t - c) / n, (t - c) % n;
    assert t + n - c == (q + 1) * n + r;
    RemainderOf(t + n - c, n, q + 1, r);
  }

  /** A kernel that is not longer than the axis puts one element on a cell, or none. */
  lemma {:induction false} AxisElement(kernel: seq<real>, start: int, c: nat, n: nat, m: nat, k: nat)
    requires 0 < n && m <= |kernel| && m <= n && k < n && OnCell(start + k, c, n)
    ensures AxisWeight(kernel, Falls(start, c, n), m) == if k < m then kernel[k] else 0.0
  {
    if m > 0 {
      AxisElement(kernel, start, c, n, m - 1, k);
      if k != m - 1 {
        NotTwice(start, c, n, m - 1, k);
      }
    }
  }

  lemma NotTwice(start: int, c: nat, n: nat, i: nat, k: nat)
    requires i < n && k < n && i != k && OnCell(start + k, c, n)
    ensures !OnCell(start + i, c, n)
  {
    var q := (start + k - c) / n;
    assert start + k - c == q * n;
    if i > k {
      RemainderOf(start + i - c, n, q, i - k);
    } else {
      RemainderOf(start + i - c, n, q - 1, n + i - k);
    }
  }

  /** The sum of the weights of the hits on a cell. */
  ghost function TotalOn(hits: seq<Hit>, c: nat): real {
    if hits == [] then 0.0
    else TotalOn(hits[..|hits| - 1], c) + if hits[|hits| - 1].cell == c then hits[|hits| - 1].weight else 0.0
  }

  lemma {:induction false} SpreadAt(g: seq<Complex>, hits: seq<Hit>, z: Complex, c: nat)
    requires HitsIn(hits, |g|) && c < |g|
    ensures Spread(g, hits, z)[c] == g[c].Plus(z.Scaled(TotalOn(hits, c)))
  {
    if hits != [] {
      SpreadAt(g, hits[..|hits| - 1], z, c);
    }
  }

  const ONE := Complex(1.0, 0.0)

  /** A layer that is 1 in one cell and 0 elsewhere. */
  ghost predicate OnlyOne(g: seq<Complex>, c: nat) {
    c < |g| && g[c] == ONE && forall b :: 0 <= b < |g| && b != c ==> g[b] == ZERO
  }

  /** From such a layer the sum of the weights of the hits on that cell is read. */
  lemma {:induction false} GatherAt(g: seq<Complex>, hits: seq<Hit>, c: nat)
    requires HitsIn(hits, |g|) && OnlyOne(g, c)
    ensures Gather(g, hits) == Complex(TotalOn(hits, c), 0.0)
  {
    if hits != [] {
      var rest, h := hits[..|hits| - 1], hits[|hits| - 1];
      GatherAt(g, rest, c);
      assert Gather(g, hits) == Gather(g, rest).Plus(Complex(if h.cell == c then h.weight else 0.0, 0.0)) by {
        assert Gather(g, hits) == Gather(g, rest).Plus(g[h.cell].Scaled(h.weight));
        assert g[h.cell] == if h.cell == c then ONE else ZERO;
        UnitScaled(h.weight);
      }
    }
  }

  lemma UnitScaled(f: real)
    ensures ONE.Scaled(f) == Complex(f, 0.0) && ZERO.Scaled(f) == ZERO
  {
  }

  /** The weights of the first j kernel rows, and of the first i elements of the next, that fall on a cell. */
  ghost function KernelWeight(kx: seq<real>, ky: seq<real>, fallsX: nat -> bool, fallsY: nat -> bool, i: nat,
                              j: nat): real
    requires i <= |kx| && (i == 0 || j < |ky|) && j <= |ky|
    decreases j, i
  {
    if i > 0 then
      KernelWeight(kx, ky, fallsX, fallsY, i - 1, j) + (if fallsX(i - 1) && fallsY(j) then ky[j] * kx[i - 1] else 0.0)
    else if j > 0 then KernelWeight(kx, ky, fallsX, fallsY, |kx|, j - 1)
    else 0.0
  }

  /** One kernel row on a cell. */
  lemma {:induction false} RowWeight(kx: seq<real>, ky: seq<real>, fallsX: nat -> bool, fallsY: nat -> bool, i: nat,
                                     j: nat)
    requires i <= |kx| && j < |ky|
    ensures KernelWeight(kx, ky, fallsX, fallsY, i, j) == KernelWeight(kx, ky, fallsX, fallsY, 0, j) +
              if fallsY(j) then ky[j] * AxisWeight(kx, fallsX, i) else 0.0
  {
    if i > 0 {
      RowWeight(kx, ky, fallsX, fallsY, i - 1, j);
      assert ky[j] * (AxisWeight(kx, fallsX, i - 1) + kx[i - 1]) ==
             ky[j] * AxisWeight(kx, fallsX, i - 1) + ky[j] * kx[i - 1];
    }
  }

  /** The weights of a kernel on a cell are the product of those along both axes. */
  lemma {:induction false} KernelSeparates(kx: seq<real>, ky: seq<real>, fallsX: nat -> bool, fallsY: nat -> bool,
                                           j: nat)
    requires j <= |ky|
    ensures KernelWeight(kx, ky, fallsX, fallsY, 0, j) == AxisWeight(ky, fallsY, j) * AxisWeight(kx, fallsX, |kx|)
  {
    if j > 0 {
      KernelSeparates(kx, ky, fallsX, fallsY, j - 1);
      RowWeight(kx, ky, fallsX, fallsY, |kx|, j - 1);
      var a, b := AxisWeight(ky, fallsY, j - 1), AxisWeight(kx, fallsX, |kx|);
      assert (a + ky[j - 1]) * b == a * b + ky[j - 1] * b;
    }
  }

  /** Which kernel elements fall on a cell of the plane. */
  ghost predicate Meets(p: Plane, x: nat, y: nat, c: nat, fallsX: nat -> bool, fallsY: nat -> bool)
    requires x < p.width && y < p.height
  {
    forall i: nat, j: nat {:trigger p.Cell(x, y, i, j)} :: p.Cell(x, y, i, j) == c <==> fallsX(i) && fallsY(j)
  }

  lemma CellIs(p: Plane, x: nat, y: nat, i: nat, j: nat, cx: nat, cy: nat)
    requires x < p.width && y < p.height && cx < p.width && cy < p.height
    requires p.kernelSize / 2 <= p.width && p.kernelSize / 2 <= p.height
    ensures p.Cell(x, y, i, j) == cy * p.width + cx <==>
            OnCell(x - p.kernelSize / 2 + i, cx, p.width) && OnCell(y - p.kernelSize / 2 + j, cy, p.height)
  {
    var tx, ty := x + i - p.kernelSize / 2, y + j - p.kernelSize / 2;
    WrapIs(tx, p.width, cx);
    WrapIs(ty, p.height, cy);
    RowMajor.Splits(p.width, Wrap(tx, p.width), Wrap(ty, p.height));
    RowMajor.Splits(p.width, cx, cy);
  }

  lemma {:induction false} HitsTotal(p: Plane, x: nat, y: nat, kx: seq<real>, ky: seq<real>, c: nat,
                                     fallsX: nat -> bool, fallsY: nat -> bool, i: nat, j: nat)
    requires x < p.width && y < p.height && |kx| == |ky| == p.kernelSize && Meets(p, x, y, c, fallsX, fallsY)
    requires i <= p.kernelSize && (i == 0 || j < p.kernelSize) && j <= p.kernelSize
    ensures TotalOn(p.KernelHits(x, y, kx, ky, i, j), c) == KernelWeight(kx, ky, fallsX, fallsY, i, j)
    decreases j, i
  {
    if i > 0 {
      HitsTotal(p, x, y, kx, ky, c, fallsX, fallsY, i - 1, j);
      var hits := p.KernelHits(x, y, kx, ky, i, j);
      assert hits[..|hits| - 1] == p.KernelHits(x, y, kx, ky, i - 1, j);
      assert hits[|hits| - 1] == Hit(p.Cell(x, y, i - 1, j), ky[j] * kx[i - 1]);
    } else if j > 0 {
      HitsTotal(p, x, y, kx, ky, c, fallsX, fallsY, p.kernelSize, j - 1);
    }
  }

  // ----- what is gridded and read

  /** A position on the plane, in pixels: the nearest pixel, and the kernels for the offsets from it. */
  ghost predicate Positioned(p: Plane, xExact: real, yExact: real, x: int, y: int, kx: nat, ky: nat) {
    Nearest(xExact, x) && Nearest(yExact, y) && KernelOf(p.overSampling, xExact - x as real, kx) &&
    KernelOf(p.overSampling, yExact - y as real, ky)
  }

  /** Every position has a pixel and kernels. */
  lemma HasPosition(p: Plane, xExact: real, yExact: real) returns (x: int, y: int, kx: nat, ky: nat)
    requires p.Valid()
    ensures Positioned(p, xExact, yExact, x, y, kx, ky)
  {
    x, y := Round(xExact), Round(yExact);
    kx, ky := p.KernelIndex(xExact - x as real), p.KernelIndex(yExact - y as real);
    RoundIsNearest(xExact, x);
    RoundIsNearest(yExact, y);
    KernelIndexIs(p, xExact - x as real, kx);
    KernelIndexIs(p, yExact - y as real, ky);
  }

  /** The pixel is on the plane, of which pixel (0, 0) is the middle. */
  predicate OnPlane(p: Plane, x: int, y: int) {
    -(p.width / 2) < x <= p.width / 2 && -(p.height / 2) < y <= p.height / 2
  }

  /**
   * The weight of cell (cx, cy) for a visibility at pixel (x, y): with kernels, the products of the elements of both
   * that fall on it when their middle elements fall on the pixel itself.
   */
  ghost function WeightOn(p: Plane, x: int, y: int, kx: nat, ky: nat, cx: nat, cy: nat): real
    requires p.Valid() && 0 < p.width && 0 < p.height && kx < p.overSampling && ky < p.overSampling
  {
    if p.nearestNeighbour then if OnCell(x, cx, p.width) && OnCell(y, cy, p.height) then 1.0 else 0.0
    else
      KernelWeight(p.kernels[kx], p.kernels[ky], Falls(x - p.kernelSize / 2, cx, p.width),
          Falls(y - p.kernelSize / 2, cy, p.height), 0, p.kernelSize)
  }

  /** Around a pixel, a kernel that is not longer than the sides has the weights of its elements. */
  lemma WeightAround(p: Plane, x: int, y: int, kx: nat, ky: nat, cx: nat, cy: nat, i: nat, j: nat)
    requires p.Valid() && !p.nearestNeighbour && kx < p.overSampling && ky < p.overSampling
    requires p.kernelSize <= p.width && p.kernelSize <= p.height && i < p.width && j < p.height
    requires OnCell(x - p.kernelSize / 2 + i, cx, p.width) && OnCell(y - p.kernelSize / 2 + j, cy, p.height)
    ensures WeightOn(p, x, y, kx, ky, cx, cy) ==
            if i < p.kernelSize && j < p.kernelSize then p.kernels[ky][j] * p.kernels[kx][i] else 0.0
  {
    var startX, startY := x - p.kernelSize / 2, y - p.kernelSize / 2;
    KernelSeparates(p.kernels[kx], p.kernels[ky], Falls(startX, cx, p.width), Falls(startY, cy, p.height),
        p.kernelSize);
    AxisElement(p.kernels[kx], startX, cx, p.width, p.kernelSize, i);
    AxisElement(p.kernels[ky], startY, cy, p.height, p.kernelSize, j);
  }

  /** The cells of the plane, and half a kernel that is not longer than a side. */
  predicate Reaches(p: Plane, cx: nat, cy: nat) {
    cx < p.width && cy < p.height && p.kernelSize / 2 <= p.width && p.kernelSize / 2 <= p.height
  }

  /** The index of a pixel on the plane from its first row and column on. */
  function FromEdge(t: int, n: nat): int { if t < 0 then t + n else t }

  lemma PixelOn(t: int, n: nat, c: nat)
    requires -(n / 2) < t <= n / 2 && c < n
    ensures 0 <= FromEdge(t, n) < n && (FromEdge(t, n) == c <==> OnCell(t, c, n))
  {
    WrapIs(t, n, c);
    if t < 0 {
      RemainderOf(t + n, n, 0, t + n);
    }
  }

  lemma SamePlace(w: nat, x: nat, y: nat, cx: nat, cy: nat)
    requires x < w && cx < w
    ensures x + y * w == cy * w + cx <==> x == cx && y == cy
  {
    RowMajor.Splits(w, x, y);
    RowMajor.Splits(w, cx, cy);
  }

  lemma FromEdgeOn(t: int, n: nat, half: nat, c: nat, i: nat)
    requires 0 < n
    ensures OnCell(FromEdge(t, n) - half + i, c, n) <==> Falls(t - half, c, n)(i)
  {
    if t < 0 {
      OnCellShifts(t - half + i, c, n);
      assert FromEdge(t, n) - half + i == t - half + i + n;
    }
  }

  lemma MeetsCell(p: Plane, x: int, y: int, cx: nat, cy: nat)
    requires OnPlane(p, x, y) && Reaches(p, cx, cy)
    ensures 0 <= FromEdge(x, p.width) < p.width && 0 <= FromEdge(y, p.height) < p.height
    ensures Meets(p, FromEdge(x, p.width), FromEdge(y, p.height), cy * p.width + cx,
                Falls(x - p.kernelSize / 2, cx, p.width), Falls(y - p.kernelSize / 2, cy, p.height))
  {
    var fallsX, fallsY := Falls(x - p.kernelSize / 2, cx, p.width), Falls(y - p.kernelSize / 2, cy, p.height);
    var px, py := FromEdge(x, p.width), FromEdge(y, p.height);
    forall i: nat, j: nat ensures p.Cell(px, py, i, j) == cy * p.width + cx <==> fallsX(i) && fallsY(j) {
      CellIs(p, px, py, i, j, cx, cy);
      FromEdgeOn(x, p.width, p.kernelSize / 2, cx, i);
      FromEdgeOn(y, p.height, p.kernelSize / 2, cy, j);
    }
  }

  lemma SingleTotal(h: Hit, c: nat)
    ensures TotalOn([h], c) == if h.cell == c then h.weight else 0.0
  {
    assert [h][..0] == [];
  }

  /** The hits at the nearest pixel, in the mode without kernels. */
  lemma NearestTotal(p: Plane, x: int, y: int, cx: nat, cy: nat, h: Hit)
    requires OnPlane(p, x, y) && cx < p.width && cy < p.height
    requires h.cell == FromEdge(x, p.width) + FromEdge(y, p.height) * p.width && h.weight == 1.0
    ensures TotalOn([h], cy * p.width + cx) ==
            if OnCell(x, cx, p.width) && OnCell(y, cy, p.height) then 1.0 else 0.0
  {
    PixelOn(x, p.width, cx);
    PixelOn(y, p.height, cy);
    SamePlace(p.width, FromEdge(x, p.width), FromEdge(y, p.height), cx, cy);
    SingleTotal(h, cy * p.width + cx);
  }

  /** The hits of a pair of kernels around a pixel, or of the pixel alone in the mode without kernels. */
  ghost function HitsAround(p: Plane, x: int, y: int, xKernel: seq<real>, yKernel: seq<real>): (r: seq<Hit>)
    requires OnPlane(p, x, y) && |xKernel| == |yKernel| == p.kernelSize
  {
    if p.nearestNeighbour then [Hit(FromEdge(x, p.width) + FromEdge(y, p.height) * p.width, 1.0)]
    else p.KernelHits(FromEdge(x, p.width), FromEdge(y, p.height), xKernel, yKernel, 0, p.kernelSize)
  }

  lemma AroundTotal(p: Plane, x: int, y: int, kx: nat, ky: nat, cx: nat, cy: nat)
    requires p.Valid() && Reaches(p, cx, cy) && OnPlane(p, x, y) && kx < p.overSampling && ky < p.overSampling
    ensures TotalOn(HitsAround(p, x, y, p.kernels[kx], p.kernels[ky]), cy * p.width + cx) ==
            WeightOn(p, x, y, kx, ky, cx, cy)
  {
    if p.nearestNeighbour {
      NearestTotal(p, x, y, cx, cy, HitsAround(p, x, y, p.kernels[kx], p.kernels[ky])[0]);
    } else {
      MeetsCell(p, x, y, cx, cy);
      HitsTotal(p, FromEdge(x, p.width), FromEdge(y, p.height), p.kernels[kx], p.kernels[ky], cy * p.width + cx,
          Falls(x - p.kernelSize / 2, cx, p.width), Falls(y - p.kernelSize / 2, cy, p.height), 0, p.kernelSize);
    }
  }

  /** A visibility hits the cells around the pixel at its position. */
  lemma HitsAre(p: Plane, xExact: real, yExact: real, x: int, y: int, kx: nat, ky: nat)
    requires p.Valid() && Positioned(p, xExact, yExact, x, y, kx, ky)
    ensures p.HitsAt(xExact, yExact) ==
            if OnPlane(p, x, y) then Some(HitsAround(p, x, y, p.kernels[kx], p.kernels[ky])) else None
  {
    RoundIsNearest(xExact, x);
    RoundIsNearest(yExact, y);
    KernelIndexIs(p, xExact - x as real, kx);
    KernelIndexIs(p, yExact - y as real, ky);
  }

  lemma LayerStep(p: Pass, g: Layers, s: Sample, hits: Option<seq<Hit>>, k: nat, c: nat)
    requires p.Valid() && p.Sized(g) && !p.imageConjugatePart && (s.w >= 0.0 || p.layering.isComplex)
    requires hits == p.HitsFor(s.u, s.v, s.w) && k < |g| && c < |g[k]|
    ensures p.Grid(g, s)[k][c] ==
            if hits.Some? && p.layering.WToLayer(s.w) == p.Offset() + k then
              g[k][c].Plus(s.value.Scaled(TotalOn(hits.value, c)))
            else g[k][c]
  {
    if hits.Some? {
      SpreadAt(g[k], hits.value, s.value, c);
    }
  }

  lemma LayerRead(p: Pass, g: Layers, u: real, v: real, w: real, hits: Option<seq<Hit>>, k: nat, c: nat)
    requires p.Valid() && p.Sized(g) && (w >= 0.0 || p.layering.isComplex)
    requires hits == p.HitsFor(u, v, w) && hits.Some? && k < |g| && OnlyOne(g[k], c)
    requires p.layering.WToLayer(w) == p.Offset() + k
    ensures p.Degrid(g, u, v, w) == Some(Complex(TotalOn(hits.value, c), 0.0))
  {
    var total := Gather(g[k], hits.value);
    assert total == Complex(TotalOn(hits.value, c), 0.0) by {
      GatherAt(g[k], hits.value, c);
    }
    assert p.Place(u, v, w) == Some(Placement(k, hits.value, false));
    assert p.Degrid(g, u, v, w) == Some(total.Conj());
  }

  /** Where a visibility that is not mirrored is: its pixel, and its kernels. */
  ghost predicate PlacedAt(p: Plane, u: real, v: real, x: int, y: int, kx: nat, ky: nat) {
    Positioned(p, u * p.pixelSizeX * p.width as real, v * p.pixelSizeY * p.height as real, x, y, kx, ky)
  }

  /** The cell number of the plane. */
  predicate Numbered(p: Plane, c: nat, cx: nat, cy: nat) { c == cy * p.width + cx }

  lemma PlacedTotal(p: Plane, u: real, v: real, x: int, y: int, kx: nat, ky: nat, c: nat, cx: nat, cy: nat)
    requires p.Valid() && PlacedAt(p, u, v, x, y, kx, ky) && Reaches(p, cx, cy) && Numbered(p, c, cx, cy)
    ensures p.Hits(u, v).Some? <==> OnPlane(p, x, y)
    ensures OnPlane(p, x, y) ==> TotalOn(p.Hits(u, v).value, c) == WeightOn(p, x, y, kx, ky, cx, cy)
  {
    HitsAre(p, p.XExact(u), p.YExact(v), x, y, kx, ky);
    if OnPlane(p, x, y) {
      AroundTotal(p, x, y, kx, ky, cx, cy);
    }
  }

  /**
   * Gridding a visibility adds its value, times the weight of the cell, to every cell of its layer if the visibility is
   * on the plane and the layer in the pass, and changes nothing else.
   */
  lemma GriddedAt(p: Pass, g: Layers, s: Sample, x: int, y: int, kx: nat, ky: nat, k: nat, c: nat, cx: nat, cy: nat)
    requires p.Valid() && p.Sized(g) && !p.imageConjugatePart && (s.w >= 0.0 || p.layering.isComplex)
    requires PlacedAt(p.plane, s.u, s.v, x, y, kx, ky) && Reaches(p.plane, cx, cy) && Numbered(p.plane, c, cx, cy)
    requires k < |g| && c < |g[k]|
    ensures p.Grid(g, s)[k][c] ==
            if OnPlane(p.plane, x, y) && p.layering.WToLayer(s.w) == p.Offset() + k then
              g[k][c].Plus(s.value.Scaled(WeightOn(p.plane, x, y, kx, ky, cx, cy)))
            else g[k][c]
  {
    PlacedTotal(p.plane, s.u, s.v, x, y, kx, ky, c, cx, cy);
    LayerStep(p, g, s, p.HitsFor(s.u, s.v, s.w), k, c);
  }

  /** From a layer that is 1 in one cell, a visibility on it is read as the weight of that cell. */
  lemma ReadAt(p: Pass, g: Layers, u: real, v: real, w: real, x: int, y: int, kx: nat, ky: nat, k: nat, c: nat, cx: nat,
               cy: nat)
    requires p.Valid() && p.Sized(g) && (w >= 0.0 || p.layering.isComplex) && OnPlane(p.plane, x, y)
    requires PlacedAt(p.plane, u, v, x, y, kx, ky) && Reaches(p.plane, cx, cy) && Numbered(p.plane, c, cx, cy)
    requires k < |g| && OnlyOne(g[k], c) && p.layering.WToLayer(w) == p.Offset() + k
    ensures p.Degrid(g, u, v, w) == Some(Complex(WeightOn(p.plane, x, y, kx, ky, cx, cy), 0.0))
  {
    PlacedTotal(p.plane, u, v, x, y, kx, ky, c, cx, cy);
    LayerRead(p, g, u, v, w, p.HitsFor(u, v, w), k, c);
  }

  // ----- symmetries

  lemma MirroredPlace(p: Pass, u: real, v: real, w: real)
    requires p.Valid() && !p.layering.isComplex && w < 0.0
    ensures p.Place(u, v, w) ==
            match p.Place(-u, -v, -w)
            case None => None
            case Some(place) => Some(place.(mirrored := true))
    ensures p.Place(-u, -v, -w).Some? ==> !p.Place(-u, -v, -w).value.mirrored
  {
    assert p.HitsFor(u, v, w) == p.HitsFor(-u, -v, -w);
  }

  /** A visibility below the plane is gridded as its conjugate at the mirrored position, and read as its conjugate. */
  lemma MirrorsAlike(p: Pass, g: Layers, value: Complex, u: real, v: real, w: real)
    requires p.Valid() && p.Sized(g) && !p.layering.isComplex && w < 0.0 && !p.imageConjugatePart
    ensures p.Grid(g, Sample(value, u, v, w)) == p.Grid(g, Sample(value.Conj(), -u, -v, -w))
    ensures p.Degrid(g, u, v, w) ==
            match p.Degrid(g, -u, -v, -w)
            case None => None
            case Some(read) => Some(read.Conj())
  {
    MirroredPlace(p, u, v, w);
  }

  /** For the conjugate part of the image, the conjugated value is gridded at the mirrored position on its layer. */
  lemma ConjugatePart(p: Pass, g: Layers, s: Sample)
    requires p.Valid() && p.Sized(g) && p.imageConjugatePart
    ensures p.(imageConjugatePart := false).Sized(g)
    ensures p.Grid(g, s) == p.(imageConjugatePart := false).Grid(g, Sample(s.value.Conj(), -s.u, -s.v, s.w))
  {
  }
}
