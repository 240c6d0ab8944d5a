/**
 * The w-stacking gridder (gridding/wstackinggridder.cpp): the loops that grid a visibility on a layer or
 * read it back, with their path for kernels that wrap around an edge and their faster path in the
 * interior, and the choice of the number of passes.
 */
module WStackingGridder {
  import opened Common
  import RowMajor
  import opened Shares
  import opened WLayers
  import opened UvPlane

  ghost function Rows(uv: array2<Complex>): (r: Layers)
    reads uv
    ensures |r| == uv.Length0 && forall k :: 0 <= k < |r| ==> |r[k]| == uv.Length1
  {
    seq(uv.Length0, k requires 0 <= k < uv.Length0 reads uv => seq(uv.Length1,
        c requires 0 <= c < uv.Length1 reads uv => uv[k, c]))
  }

  /** Whether a kernel around (x, y) may reach past an edge of the plane. */
  predicate OnEdge(p: Plane, x: nat, y: nat) {
    x < p.kernelSize / 2 || x + p.kernelSize / 2 + 1 >= p.width || y < p.kernelSize / 2 ||
        y + p.kernelSize / 2 + 1 >= p.height
  }

  /** Away from the edges the cells of a kernel row are neighbours. */
  lemma InteriorCell(p: Plane, x: nat, y: nat, i: nat, j: nat)
    requires x < p.width && y < p.height && !OnEdge(p, x, y) && i < p.kernelSize && j < p.kernelSize
    ensures p.Cell(x, y, i, j) == x - p.kernelSize / 2 + (y - p.kernelSize / 2 + j) * p.width + i
  {
  }

  lemma SpreadOne(g: seq<Complex>, hits: seq<Hit>, h: Hit, z: Complex)
    requires HitsIn(hits, |g|) && h.cell < |g|
    ensures HitsIn(hits + [h], |g|)
    ensures Spread(g, hits + [h], z) ==
            Spread(g, hits, z)[h.cell := Spread(g, hits, z)[h.cell].Plus(z.Scaled(h.weight))]
  {
    assert (hits + [h])[..|hits|] == hits;
  }

  lemma GatherOne(g: seq<Complex>, hits: seq<Hit>, h: Hit)
    requires HitsIn(hits, |g|) && h.cell < |g|
    ensures HitsIn(hits + [h], |g|)
    ensures Gather(g, hits + [h]) == Gather(g, hits).Plus(g[h.cell].Scaled(h.weight))
  {
    assert (hits + [h])[..|hits|] == hits;
  }

  method AddToCell(uv: array2<Complex>, k: nat, cell: nat, z: Complex)
    requires k < uv.Length0 && cell < uv.Length1
    modifies uv
    ensures Rows(uv) == old(Rows(uv))[k := old(Rows(uv))[k][cell := old(Rows(uv))[k][cell].Plus(z)]]
  {
    ghost var was: Layers := Rows(uv);
    ghost var row: seq<Complex> := was[k][cell := was[k][cell].Plus(z)];
    uv[k, cell] := uv[k, cell].Plus(z);
    forall m | 0 <= m < uv.Length0 ensures Rows(uv)[m] == was[k := row][m] {
    }
  }

  /** A kernel at a visibility: the nearest cell and the kernels along both axes. */
  datatype Footprint = Footprint(p: Plane, x: nat, y: nat, xKernel: seq<real>, yKernel: seq<real>) {
    predicate Valid() { x < p.width && y < p.height && |xKernel| == |yKernel| == p.kernelSize }

    /** The hits of the first j kernel rows and the first i elements of the next. */
    function Hits(i: nat, j: nat): (r: seq<Hit>)
      requires Valid() && i <= p.kernelSize && (i == 0 || j < p.kernelSize) && j <= p.kernelSize
      ensures HitsIn(r, p.Cells())
    {
      p.KernelHits(x, y, xKernel, yKernel, i, j)
    }

    function All(): (r: seq<Hit>)
      requires Valid()
      ensures HitsIn(r, p.Cells())
    {
      Hits(0, p.kernelSize)
    }
  }

  /** The offset of a kernel row that may wrap around the edges. */
  ghost predicate RowOffset(f: Footprint, j: nat, cy: nat)
    requires f.Valid()
  {
    cy == Wrap(f.y + j - f.p.kernelSize / 2, f.p.height) * f.p.width
  }

  method EdgeRow(f: Footprint, j: nat) returns (cy: nat)
    requires f.Valid()
    ensures RowOffset(f, j, cy)
  {
    cy := Wrap(f.y + j - f.p.kernelSize / 2, f.p.height) * f.p.width;
  }

  method EdgeCell(f: Footprint, i: nat, j: nat, cy: nat) returns (cell: nat)
    requires f.Valid() && RowOffset(f, j, cy)
    ensures cell == f.p.Cell(f.x, f.y, i, j)
  {
    var cx := Wrap(f.x + i - f.p.kernelSize / 2, f.p.width);
    WrappedCell(f, i, j, cx, cy);
    cell := cx + cy;
  }

  lemma WrappedCell(f: Footprint, i: nat, j: nat, cx: nat, cy: nat)
    requires f.Valid() && cx == Wrap(f.x + i - f.p.kernelSize / 2, f.p.width)
    requires cy == Wrap(f.y + j - f.p.kernelSize / 2, f.p.height) * f.p.width
    ensures f.p.Cell(f.x, f.y, i, j) == cx + cy
  {
  }

  lemma HitsGrow(f: Footprint, i: nat, j: nat, h: Hit)
    requires f.Valid() && i < f.p.kernelSize && j < f.p.kernelSize && h.cell == f.p.Cell(f.x, f.y, i, j) &&
             h.weight == f.p.Weight(f.xKernel, f.yKernel, i, j)
    ensures f.Hits(i + 1, j) == f.Hits(i, j) + [h]
  {
    var n := i + 1;
    assert f.p.KernelHits(f.x, f.y, f.xKernel, f.yKernel, n, j) ==
      f.p.KernelHits(f.x, f.y, f.xKernel, f.yKernel, n - 1, j) +
          [Hit(f.p.Cell(f.x, f.y, n - 1, j), f.p.Weight(f.xKernel, f.yKernel, n - 1, j))];
  }

  /** Adds a hit to layer k. */
  method AddHit(uv: array2<Complex>, k: nat, h: Hit, sample: Complex, ghost was: Layers, ghost hits: seq<Hit>)
    requires k < uv.Length0 == |was| && h.cell < uv.Length1 == |was[k]| && HitsIn(hits, uv.Length1)
    requires Rows(uv) == was[k := Spread(was[k], hits, sample)]
    modifies uv
    ensures HitsIn(hits + [h], uv.Length1) && Rows(uv) == was[k := Spread(was[k], hits + [h], sample)]
  {
    SpreadOne(was[k], hits, h, sample);
    AddToCell(uv, k, h.cell, sample.Scaled(h.weight));
  }

  method ReadHit(uv: array2<Complex>, k: nat, h: Hit, sample: Complex, ghost hits: seq<Hit>) returns (r: Complex)
    requires k < uv.Length0 && h.cell < uv.Length1 && HitsIn(hits, uv.Length1) && sample == Gather(Rows(uv)[k], hits)
    ensures HitsIn(hits + [h], uv.Length1) && r == Gather(Rows(uv)[k], hits + [h])
  {
    GatherOne(Rows(uv)[k], hits, h);
    r := sample.Plus(uv[k, h.cell].Scaled(h.weight));
  }

  /** Adds kernel element (i, j) at its cell. */
  method AddElement(uv: array2<Complex>, k: nat, f: Footprint, i: nat, j: nat, cell: nat, sample: Complex,
          ghost was: Layers)
    requires f.Valid() && k < uv.Length0 == |was| && |was[k]| == uv.Length1 == f.p.Cells()
    requires i < f.p.kernelSize && j < f.p.kernelSize && cell == f.p.Cell(f.x, f.y, i, j)
    requires Rows(uv) == was[k := Spread(was[k], f.Hits(i, j), sample)]
    modifies uv
    ensures Rows(uv) == was[k := Spread(was[k], f.Hits(i + 1, j), sample)]
  {
    var h := Hit(cell, f.yKernel[j] * f.xKernel[i]);
    HitsGrow(f, i, j, h);
    AddHit(uv, k, h, sample, was, f.Hits(i, j));
  }

  /** One kernel row that may wrap around the edges. */
  method GridRowOnEdge(uv: array2<Complex>, k: nat, f: Footprint, j: nat, sample: Complex, ghost was: Layers)
    requires f.Valid() && k < uv.Length0 == |was| && |was[k]| == uv.Length1 == f.p.Cells() && j < f.p.kernelSize
    requires Rows(uv) == was[k := Spread(was[k], f.Hits(0, j), sample)]
    modifies uv
    ensures Rows(uv) == was[k := Spread(was[k], f.Hits(f.p.kernelSize, j), sample)]
  {
    var cy := EdgeRow(f, j);
    for i := 0 to f.p.kernelSize
      invariant Rows(uv) == was[k := Spread(was[k], f.Hits(i, j), sample)]
    {
      var cell := EdgeCell(f, i, j, cy);
      AddElement(uv, k, f, i, j, cell, sample, was);
    }
  }

  /** One kernel row away from the edges: its cells are neighbours. */
  method GridRowInside(uv: array2<Complex>, k: nat, f: Footprint, j: nat, firstCell: nat, sample: Complex,
          ghost was: Layers)
    requires f.Valid() && k < uv.Length0 == |was| && |was[k]| == uv.Length1 == f.p.Cells() && j < f.p.kernelSize
    requires Rows(uv) == was[k := Spread(was[k], f.Hits(0, j), sample)]
    requires RowStartsAt(f, j, firstCell)
    modifies uv
    ensures Rows(uv) == was[k := Spread(was[k], f.Hits(f.p.kernelSize, j), sample)]
  {
    var cell := firstCell;
    for i := 0 to f.p.kernelSize
      invariant cell == firstCell + i
      invariant Rows(uv) == was[k := Spread(was[k], f.Hits(i, j), sample)]
    {
      AddElement(uv, k, f, i, j, cell, sample, was);
      cell := cell + 1;
    }
  }

  /** The cells of kernel row j are the neighbouring ones from the given cell on. */
  ghost predicate RowStartsAt(f: Footprint, j: nat, cell: nat)
    requires f.Valid()
  {
    forall i: nat {:trigger f.p.Cell(f.x, f.y, i, j)} :: i < f.p.kernelSize ==> f.p.Cell(f.x, f.y, i, j) == cell + i
  }

  lemma InteriorRow(f: Footprint, j: nat, cell: nat)
    requires f.Valid() && !OnEdge(f.p, f.x, f.y) && j < f.p.kernelSize
    requires cell == f.x - f.p.kernelSize / 2 + (f.y - f.p.kernelSize / 2 + j) * f.p.width
    ensures RowStartsAt(f, j, cell)
  {
    forall i: nat | i < f.p.kernelSize ensures f.p.Cell(f.x, f.y, i, j) == cell + i {
      InteriorCell(f.p, f.x, f.y, i, j);
    }
  }

  /** Gridding a kernel: rows that may wrap around the edges, or rows of neighbouring cells. */
  method GridKernel(uv: array2<Complex>, k: nat, f: Footprint, sample: Complex)
    requires f.Valid() && k < uv.Length0 && uv.Length1 == f.p.Cells()
    modifies uv
    ensures Rows(uv) == old(Rows(uv))[k := Spread(old(Rows(uv))[k], f.All(), sample)]
  {
    ghost var was := Rows(uv);
    if OnEdge(f.p, f.x, f.y) {
      for j := 0 to f.p.kernelSize
        invariant Rows(uv) == was[k := Spread(was[k], f.Hits(0, j), sample)]
      {
        GridRowOnEdge(uv, k, f, j, sample, was);
      }
    } else {
      var x, y := f.x - f.p.kernelSize / 2, f.y - f.p.kernelSize / 2;
      for j := 0 to f.p.kernelSize
        invariant y == f.y - f.p.kernelSize / 2 + j
        invariant Rows(uv) == was[k := Spread(was[k], f.Hits(0, j), sample)]
      {
        InteriorRow(f, j, x + y * f.p.width);
        GridRowInside(uv, k, f, j, x + y * f.p.width, sample, was);
        y := y + 1;
      }
    }
  }

  /** Reads kernel element (i, j) at its cell. */
  method ReadElement(uv: array2<Complex>, k: nat, f: Footprint, i: nat, j: nat, cell: nat, sample: Complex)
          returns (r: Complex)
    requires f.Valid() && k < uv.Length0 && uv.Length1 == f.p.Cells()
    requires i < f.p.kernelSize && j < f.p.kernelSize && cell == f.p.Cell(f.x, f.y, i, j)
    requires sample == Gather(Rows(uv)[k], f.Hits(i, j))
    ensures r == Gather(Rows(uv)[k], f.Hits(i + 1, j))
  {
    var h := Hit(cell, f.yKernel[j] * f.xKernel[i]);
    HitsGrow(f, i, j, h);
    r := ReadHit(uv, k, h, sample, f.Hits(i, j));
  }

  method SampleRowOnEdge(uv: array2<Complex>, k: nat, f: Footprint, j: nat, start: Complex) returns (sample: Complex)
    requires f.Valid() && k < uv.Length0 && uv.Length1 == f.p.Cells() && j < f.p.kernelSize
    requires start == Gather(Rows(uv)[k], f.Hits(0, j))
    ensures sample == Gather(Rows(uv)[k], f.Hits(f.p.kernelSize, j))
  {
    sample := start;
    var cy := EdgeRow(f, j);
    for i := 0 to f.p.kernelSize
      invariant sample == Gather(Rows(uv)[k], f.Hits(i, j))
    {
      var cell := EdgeCell(f, i, j, cy);
      sample := ReadElement(uv, k, f, i, j, cell, sample);
    }
  }

  method SampleRowInside(uv: array2<Complex>, k: nat, f: Footprint, j: nat, firstCell: nat, start: Complex)
          returns (sample: Complex)
    requires f.Valid() && k < uv.Length0 && uv.Length1 == f.p.Cells() && j < f.p.kernelSize &&
             RowStartsAt(f, j, firstCell)
    requires start == Gather(Rows(uv)[k], f.Hits(0, j))
    ensures sample == Gather(Rows(uv)[k], f.Hits(f.p.kernelSize, j))
  {
    sample := start;
    var cell := firstCell;
    for i := 0 to f.p.kernelSize
      invariant cell == firstCell + i
      invariant sample == Gather(Rows(uv)[k], f.Hits(i, j))
    {
      sample := ReadElement(uv, k, f, i, j, cell, sample);
      cell := cell + 1;
    }
  }

  /** Reading a kernel: the sum over the same cells with the same weights. */
  method SampleKernel(uv: array2<Complex>, k: nat, f: Footprint) returns (sample: Complex)
    requires f.Valid() && k < uv.Length0 && uv.Length1 == f.p.Cells()
    ensures sample == Gather(Rows(uv)[k], f.All())
  {
    sample := ZERO;
    if OnEdge(f.p, f.x, f.y) {
      for j := 0 to f.p.kernelSize
        invariant sample == Gather(Rows(uv)[k], f.Hits(0, j))
      {
        sample := SampleRowOnEdge(uv, k, f, j, sample);
      }
    } else {
      var x, y := f.x - f.p.kernelSize / 2, f.y - f.p.kernelSize / 2;
      for j := 0 to f.p.kernelSize
        invariant y == f.y - f.p.kernelSize / 2 + j
        invariant sample == Gather(Rows(uv)[k], f.Hits(0, j))
      {
        InteriorRow(f, j, x + y * f.p.width);
        sample := SampleRowInside(uv, k, f, j, x + y * f.p.width, sample);
        y := y + 1;
      }
    }
  }

  ghost function Blank(n: nat, cells: nat): Layers {
    seq(n, _ => seq(cells, _ => ZERO))
  }

  // ----- memory

  /** The bytes of one real image. */
  function ImageBytes(p: Plane, valueBytes: nat): real { (p.width * p.height * valueBytes) as real }

  /** A pass of n layers fits in memory beside the buffers of the given number of threads, or has at most one layer. */
  predicate FitsMemory(n: int, threads: nat, bytes: real, maxMem: real) {
    n <= 1 || n as real * (2.0 * bytes) + threads as real * (bytes * 5.0) <= maxMem
  }

  /** What the thread buffers leave of the memory. */
  predicate Leaves(maxMem: real, used: nat, bytes: real, remaining: real) {
    remaining == maxMem - used as real * (bytes * 5.0)
  }

  /** That many layers fit in the remaining memory, or it is just one. */
  predicate LayersFit(most: nat, bytes: real, remaining: real) {
    most == 1 || most as real * (2.0 * bytes) <= remaining
  }

  /** One layer more would not fit. */
  predicate NoMoreFit(most: nat, bytes: real, remaining: real) { (most as real + 1.0) * (2.0 * bytes) > remaining }

  /** The passes hold all layers. */
  predicate Covers(passes: nat, most: nat, n: nat) { n <= passes * most }

  /** However n layers are spread over the passes, one of these has more than one layer and does not fit in memory. */
  ghost predicate TooFewPasses(passes: nat, n: nat, threads: nat, bytes: real, maxMem: real) {
    forall sizes: seq<nat> {:trigger Total(sizes)} :: |sizes| == passes && Total(sizes) == n ==>
      exists k :: 0 <= k < passes && !FitsMemory(sizes[k], threads, bytes, maxMem)
  }

  function Total(sizes: seq<nat>): nat {
    if sizes == [] then 0 else Total(sizes[..|sizes| - 1]) + sizes[|sizes| - 1]
  }

  lemma {:induction false} TotalAtMost(sizes: seq<nat>, most: nat)
    requires forall k :: 0 <= k < |sizes| ==> sizes[k] <= most
    ensures Total(sizes) <= |sizes| * most
  {
    if sizes != [] {
      TotalAtMost(sizes[..|sizes| - 1], most);
      assert |sizes| * most == (|sizes| - 1) * most + most;
    }
  }

  lemma TimesGrows(a: real, b: real, y: real)
    requires a <= b && y > 0.0
    ensures a * y <= b * y && (a < b ==> a * y < b * y)
  {
    assert (b - a) * y >= 0.0 && (a < b ==> (b - a) * y > 0.0);
  }

  lemma Overfull(n: real, m: real, t: real, u: real, layer: real, buffers: real, all: real, remaining: real)
    requires m <= n && u <= t && layer > 0.0 && buffers > 0.0
    requires remaining == all - u * buffers && m * layer > remaining
    ensures n * layer + t * buffers > all
  {
    TimesGrows(m, n, layer);
    TimesGrows(u, t, buffers);
  }

  lemma MoreDoesNotFit(n: nat, most: nat, threads: nat, used: nat, bytes: real, maxMem: real, remaining: real)
    requires bytes > 0.0 && n > most > 0 && used <= threads && Leaves(maxMem, used, bytes, remaining) &&
             NoMoreFit(most, bytes, remaining)
    ensures !FitsMemory(n, threads, bytes, maxMem)
  {
    Overfull(n as real, most as real + 1.0, threads as real, used as real, 2.0 * bytes, bytes * 5.0, maxMem, remaining);
  }

  /** Passes that do not hold all layers are too few. */
  lemma NotCoveringIsTooFew(passes: nat, n: nat, most: nat, threads: nat, used: nat, bytes: real, maxMem: real,
                            remaining: real)
    requires bytes > 0.0 && most > 0 && used <= threads && Leaves(maxMem, used, bytes, remaining) &&
             NoMoreFit(most, bytes, remaining) && !Covers(passes, most, n)
    ensures TooFewPasses(passes, n, threads, bytes, maxMem)
  {
    forall sizes: seq<nat> | |sizes| == passes && Total(sizes) == n
      ensures exists k :: 0 <= k < passes && !FitsMemory(sizes[k], threads, bytes, maxMem)
    {
      if forall k :: 0 <= k < |sizes| ==> sizes[k] <= most {
        TotalAtMost(sizes, most);
        assert false;
      }
      var k :| 0 <= k < |sizes| && sizes[k] > most;
      MoreDoesNotFit(sizes[k], most, threads, used, bytes, maxMem, remaining);
    }
  }

  lemma PassSizeFits(n: int, most: nat, threads: nat, used: nat, bytes: real, maxMem: real, remaining: real)
    requires bytes > 0.0 && n <= most && threads <= used && Leaves(maxMem, used, bytes, remaining) &&
             LayersFit(most, bytes, remaining)
    ensures FitsMemory(n, threads, bytes, maxMem)
  {
    if n > 1 {
      assert n as real * (2.0 * bytes) <= most as real * (2.0 * bytes);
      assert threads as real * (bytes * 5.0) <= used as real * (bytes * 5.0);
    }
  }

  /** The most threads whose buffers take three fifths of the memory; at least one. */
  predicate ThreadShare(threads: nat, bytes: real, maxMem: real) {
    threads > 0 && 3.0 * maxMem < (threads as real + 1.0) * (5.0 * (bytes * 5.0)) &&
    (threads == 1 || threads as real * (5.0 * (bytes * 5.0)) <= 3.0 * maxMem)
  }

  /** The threads are kept if their buffers leave room for an image of each, and otherwise get their share. */
  predicate ThreadsFit(were: nat, threads: nat, n: nat, bytes: real, maxMem: real) {
    if maxMem - Min(were, n) as real * (bytes * 5.0) <= bytes * were as real then ThreadShare(threads, bytes, maxMem)
    else threads == were
  }

  lemma TimesBetween(a: real, q: real, b: real, x: real, y: real)
    requires a <= q < b && y > 0.0 && x == q * y
    ensures a * y <= x < b * y
  {
    TimesGrows(a, q, y);
    TimesGrows(q, b, y);
  }

  /** The whole part of a quotient, and one more, around it. */
  lemma FloorShare(q: real, x: real, y: real)
    requires y > 0.0 && q == x / y
    ensures q.Floor as real * y <= x < (q.Floor as real + 1.0) * y
  {
    assert x == q * y;
    TimesBetween(q.Floor as real, q, q.Floor as real + 1.0, x, y);
  }

  lemma PassesFit(l: Layering, most: nat, threads: nat, used: nat, bytes: real, maxMem: real, remaining: real)
    requires l.Valid() && Covers(l.nPasses, most, l.nWLayers) && bytes > 0.0 && threads <= used
    requires Leaves(maxMem, used, bytes, remaining) && LayersFit(most, bytes, remaining)
    ensures forall k: nat :: k < l.nPasses ==>
            FitsMemory(l.LayerRangeStart(k + 1) - l.LayerRangeStart(k), threads, bytes, maxMem)
  {
    forall k: nat | k < l.nPasses
      ensures FitsMemory(l.LayerRangeStart(k + 1) - l.LayerRangeStart(k), threads, bytes, maxMem) {
      ShareAtMost(l.nWLayers, l.nPasses, most, k);
      PassSizeFits(l.LayerRangeStart(k + 1) - l.LayerRangeStart(k), most, threads, used, bytes, maxMem, remaining);
    }
  }

  class Gridder {
    const plane: Plane
    const valueBytes: nat
    const isComplex: bool
    const imageConjugatePart: bool
    var nWLayers: nat
    var nPasses: nat
    var curLayerRangeIndex: nat
    var minW: real
    var maxW: real
    var nFFTThreads: nat
    var layeredUVData: array2<Complex>

    constructor (plane: Plane, valueBytes: nat, isComplex: bool, imageConjugatePart: bool, nFFTThreads: nat)
      ensures this.plane == plane && this.valueBytes == valueBytes && this.isComplex == isComplex
      ensures this.imageConjugatePart == imageConjugatePart && this.nFFTThreads == nFFTThreads
    {
      this.plane, this.valueBytes, this.isComplex := plane, valueBytes, isComplex;
      this.imageConjugatePart, this.nFFTThreads := imageConjugatePart, nFFTThreads;
      nWLayers, nPasses, curLayerRangeIndex, minW, maxW := 1, 1, 0, 0.0, 1.0;
      layeredUVData := new Complex[0, 0];
    }

    function Layering(): Layering
      reads this
    {
      WLayers.Layering.Layering(nWLayers, nPasses, curLayerRangeIndex, minW, maxW, isComplex)
    }

    function CurrentPass(): Pass
      reads this
    {
      Pass(plane, Layering(), imageConjugatePart)
    }

    /** The uv data holds the layers of the current pass. */
    ghost predicate Valid()
      reads this
    {
      CurrentPass().Valid() && layeredUVData.Length0 == CurrentPass().LayerCount() &&
          layeredUVData.Length1 == plane.Cells()
    }

    ghost function Data(): Layers
      reads this, layeredUVData
    {
      Rows(layeredUVData)
    }

    /** Spreads the layers over as many passes as the memory asks for. */
    method PrepareWLayers(nWLayers: nat, maxMem: real, minW: real, maxW: real)
      requires plane.Valid() && 0 < nWLayers && 0.0 <= minW <= maxW && ImageBytes(plane, valueBytes) > 0.0 &&
               0.0 <= maxMem
      modifies this
      ensures CurrentPass().Valid() && this.nWLayers == nWLayers && curLayerRangeIndex == 0
      ensures this.minW == minW && this.maxW == (if minW == maxW then maxW + 1.0 else maxW) &&
              layeredUVData == old(layeredUVData)
      ensures forall k: nat :: k < nPasses ==>
        FitsMemory(Layering().LayerRangeStart(k + 1) - Layering().LayerRangeStart(k), Min(nFFTThreads, nWLayers),
            (plane.width * plane.height * valueBytes) as real, maxMem)
      ensures nPasses == 1 || TooFewPasses(nPasses - 1, nWLayers, nFFTThreads,
                                  (plane.width * plane.height * valueBytes) as real, maxMem)
      ensures ThreadsFit(old(nFFTThreads), nFFTThreads, nWLayers, (plane.width * plane.height * valueBytes) as real,
                  maxMem)
    {
      this.minW, this.maxW, this.nWLayers := minW, maxW, nWLayers;
      if this.minW == this.maxW {
        this.maxW := this.maxW + 1.0;
      }
      var memPerImage := ImageBytes(plane, valueBytes);
      var remainingMem;
      ghost var used;
      nFFTThreads, remainingMem, used := ChooseThreads(nFFTThreads, nWLayers, maxMem, memPerImage);
      var maxNWLayersPerPass := LayersPerPass(remainingMem, memPerImage);
      nPasses := PassesFor(nWLayers, maxNWLayersPerPass);
      curLayerRangeIndex := 0;
      if nPasses > 1 {
        NotCoveringIsTooFew(nPasses - 1, nWLayers, maxNWLayersPerPass, nFFTThreads, used, memPerImage, maxMem,
            remainingMem);
      }
      PassesFit(Layering(), maxNWLayersPerPass, Min(nFFTThreads, nWLayers), used, memPerImage, maxMem, remainingMem);
    }

    /** Starts an inversion pass with empty layers. */
    method StartInversionPass(passIndex: nat)
      requires CurrentPass().Valid() && passIndex < nPasses
      modifies this`curLayerRangeIndex, this`layeredUVData
      ensures Valid() && curLayerRangeIndex == passIndex && fresh(layeredUVData)
      ensures Data() == Blank(CurrentPass().LayerCount(), plane.Cells())
    {
      curLayerRangeIndex := passIndex;
      ShareStep(nWLayers, nPasses, passIndex);
      var nLayersInPass: nat := Share(nWLayers, nPasses, passIndex + 1) - Share(nWLayers, nPasses, passIndex);
      layeredUVData := NewLayers(nLayersInPass, plane.Cells());
    }

    /** Grids one visibility. */
    method AddDataSample(sample: Complex, u: real, v: real, w: real)
      requires Valid()
      modifies layeredUVData
      ensures old(CurrentPass().Sized(Data())) && Data() == CurrentPass().Grid(old(Data()), Sample(sample, u, v, w))
    {
      var uInLambda, vInLambda, wInLambda, z := u, v, w, sample;
      if imageConjugatePart {
        uInLambda, vInLambda, z := -uInLambda, -vInLambda, z.Conj();
      }
      ghost var t := CurrentPass().Gridded(Sample(sample, u, v, w));
      assert t == Sample(z, uInLambda, vInLambda, wInLambda);
      if wInLambda < 0.0 && !isComplex {
        uInLambda, vInLambda, wInLambda, z := -uInLambda, -vInLambda, -wInLambda, z.Conj();
      }
      var wLayer := Layering().WToLayer(wInLambda);
      if Layering().InPass(wLayer, curLayerRangeIndex) {
        var layerIndex := wLayer - Layering().LayerRangeStart(curLayerRangeIndex);
        GridOnLayer(layeredUVData, layerIndex, plane, z, plane.XExact(uInLambda), plane.YExact(vInLambda));
      }
    }

    /** Reads one visibility back; none stands for not-a-number. */
    method SampleDataSample(u: real, v: real, w: real) returns (value: Option<Complex>)
      requires Valid()
      ensures CurrentPass().Sized(Data()) && value == CurrentPass().Degrid(Data(), u, v, w)
    {
      var uInLambda, vInLambda, wInLambda := u, v, w;
      var isConjugated := wInLambda < 0.0 && !isComplex;
      if isConjugated {
        uInLambda, vInLambda, wInLambda := -uInLambda, -vInLambda, -wInLambda;
      }
      var wLayer := Layering().WToLayer(wInLambda);
      if Layering().InPass(wLayer, curLayerRangeIndex) {
        var layerIndex := wLayer - Layering().LayerRangeStart(curLayerRangeIndex);
        var sample := SampleFromLayer(layeredUVData, layerIndex, plane, plane.XExact(uInLambda),
            plane.YExact(vInLambda));
        if sample.None? {
          value := None;
        } else if isConjugated {
          value := sample;
        } else {
          value := Some(sample.value.Conj());
        }
      } else {
        value := None;
      }
    }
  }

  method NewLayers(n: nat, cells: nat) returns (uv: array2<Complex>)
    ensures fresh(uv) && uv.Length0 == n && uv.Length1 == cells && Rows(uv) == Blank(n, cells)
  {
    uv := new Complex[n, cells]((_, _) => ZERO);
    forall k | 0 <= k < n ensures Rows(uv)[k] == Blank(n, cells)[k] {
    }
  }

  method ThreadsFor(maxMem: real, memPerImage: real) returns (threads: nat)
    requires 0.0 <= maxMem && memPerImage > 0.0
    ensures ThreadShare(threads, memPerImage, maxMem)
  {
    var share := maxMem * 3.0 / (5.0 * (memPerImage * 5.0));
    assert maxMem * 3.0 >= 0.0 && share >= 0.0;
    FloorShare(share, maxMem * 3.0, 5.0 * (memPerImage * 5.0));
    threads := share.Floor;
    if threads == 0 { threads := 1; }
  }

  /** The number of threads, fewer if the memory asks for it, and the memory beside their buffers. */
  method ChooseThreads(were: nat, n: nat, maxMem: real, memPerImage: real)
    returns (threads: nat, remaining: real, ghost used: nat)
    requires 0.0 <= maxMem && memPerImage > 0.0
    ensures ThreadsFit(were, threads, n, memPerImage, maxMem)
    ensures Leaves(maxMem, used, memPerImage, remaining) && Min(threads, n) <= used <= threads
  {
    threads, used := were, Min(were, n);
    remaining := MemoryLeft(maxMem, Min(were, n), memPerImage);
    if remaining <= memPerImage * were as real {
      threads := ThreadsFor(maxMem, memPerImage);
      used := threads;
      remaining := MemoryLeft(maxMem, threads, memPerImage);
    }
  }

  method MemoryLeft(maxMem: real, used: nat, memPerImage: real) returns (remaining: real)
    ensures Leaves(maxMem, used, memPerImage, remaining)
  {
    var memPerCore := memPerImage * 5.0;
    remaining := maxMem - used as real * memPerCore;
  }

  /** How many layers fit in the remaining memory; at least one. */
  method LayersPerPass(remainingMem: real, memPerImage: real) returns (n: nat)
    requires memPerImage > 0.0
    ensures n > 0 && LayersFit(n, memPerImage, remainingMem) && NoMoreFit(n, memPerImage, remainingMem)
  {
    var quotient := remainingMem / (2.0 * memPerImage);
    FloorShare(quotient, remainingMem, 2.0 * memPerImage);
    if quotient < 1.0 {
      n := 1;
    } else {
      n := quotient.Floor;
    }
  }

  method PassesFor(n: nat, most: nat) returns (passes: nat)
    requires most > 0
    ensures passes > 0 && Covers(passes, most, n) && (passes == 1 || !Covers(passes - 1, most, n))
  {
    passes := (n + most - 1) / most;
    if passes == 0 { passes := 1; }
  }

  /** Grids a value at an exact position on one layer, if the position is on the plane. */
  method GridOnLayer(uv: array2<Complex>, k: nat, p: Plane, sample: Complex, xExact: real, yExact: real)
    requires p.Valid() && k < uv.Length0 && uv.Length1 == p.Cells()
    modifies uv
    ensures p.HitsAt(xExact, yExact).None? ==> Rows(uv) == old(Rows(uv))
    ensures p.HitsAt(xExact, yExact).Some? ==>
            Rows(uv) == old(Rows(uv))[k := Spread(old(Rows(uv))[k], p.HitsAt(xExact, yExact).value, sample)]
  {
    var x, y := Round(xExact), Round(yExact);
    if p.InImage(x, y) {
      var px, py := if x < 0 then x + p.width else x, if y < 0 then y + p.height else y;
      if p.nearestNeighbour {
        GridNearest(uv, k, p, px, py, sample);
      } else {
        var f := Footprint(p, px, py, p.KernelFor(xExact - x as real), p.KernelFor(yExact - y as real));
        GridKernel(uv, k, f, sample);
      }
    }
  }

  /** Adds a value to the pixel at (px, py). */
  method GridNearest(uv: array2<Complex>, k: nat, p: Plane, px: nat, py: nat, sample: Complex)
    requires p.Valid() && k < uv.Length0 && uv.Length1 == p.Cells() && px < p.width && py < p.height
    modifies uv
    ensures 0 <= px + py * p.width < p.Cells() && HitsIn([Hit(px + py * p.width, 1.0)], p.Cells())
    ensures Rows(uv) == old(Rows(uv))[k := Spread(old(Rows(uv))[k], [Hit(px + py * p.width, 1.0)], sample)]
  {
    RowMajor.Fits(p.width, p.height, px, py);
    var h := Hit(px + py * p.width, 1.0);
    AddHit(uv, k, h, sample, Rows(uv), []);
    assert [] + [h] == [h];
  }

  /** Reads the pixel at (px, py). */
  method SampleNearest(uv: array2<Complex>, k: nat, p: Plane, px: nat, py: nat) returns (z: Complex)
    requires p.Valid() && k < uv.Length0 && uv.Length1 == p.Cells() && px < p.width && py < p.height
    ensures 0 <= px + py * p.width < p.Cells() && HitsIn([Hit(px + py * p.width, 1.0)], p.Cells())
    ensures z == Gather(Rows(uv)[k], [Hit(px + py * p.width, 1.0)])
  {
    RowMajor.Fits(p.width, p.height, px, py);
    var h := Hit(px + py * p.width, 1.0);
    z := ReadHit(uv, k, h, ZERO, []);
    assert [] + [h] == [h];
  }

  /** Reads a layer at an exact position, if the position is on the plane. */
  method SampleFromLayer(uv: array2<Complex>, k: nat, p: Plane, xExact: real, yExact: real)
          returns (sample: Option<Complex>)
    requires p.Valid() && k < uv.Length0 && uv.Length1 == p.Cells()
    ensures p.HitsAt(xExact, yExact).None? ==> sample.None?
    ensures p.HitsAt(xExact, yExact).Some? ==> sample == Some(Gather(Rows(uv)[k], p.HitsAt(xExact, yExact).value))
  {
    var x, y := Round(xExact), Round(yExact);
    if p.InImage(x, y) {
      var px, py := if x < 0 then x + p.width else x, if y < 0 then y + p.height else y;
      if p.nearestNeighbour {
        var z := SampleNearest(uv, k, p, px, py);
        sample := Some(z);
      } else {
        var f := Footprint(p, px, py, p.KernelFor(xExact - x as real), p.KernelFor(yExact - y as real));
        var z := SampleKernel(uv, k, f);
        sample := Some(z);
      }
    } else {
      sample := None;
    }
  }
}
