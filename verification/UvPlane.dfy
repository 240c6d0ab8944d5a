/**
 * What the w-stacking gridder computes (gridding/wstackinggridder.cpp): which uv cells a visibility
 * reaches with which weights, gridding and degridding through them, and that the two are adjoint.
 */
module UvPlane {
  import opened Common
  import RowMajor
  import opened WLayers

  datatype Complex = Complex(re: real, im: real) {
    function Plus(z: Complex): Complex { Complex(re + z.re, im + z.im) }

    function Scaled(f: real): Complex { Complex(re * f, im * f) }

    function Conj(): Complex { Complex(re, -im) }

    /** The real part of the product of two values. */
    function Dot(z: Complex): real { re * z.re - im * z.im }
  }

  function Turned(z: Complex, conjugate: bool): Complex { if conjugate then z.Conj() else z }

  const ZERO := Complex(0.0, 0.0)

  /** A cell of the flat uv plane and the weight it is reached with. */
  datatype Hit = Hit(cell: nat, weight: real)

  /** The index t of a periodic axis of length n, as the unsigned expression (t + n) % n. */
  function Wrap(t: int, n: nat): (r: nat)
    requires n > 0
    ensures r < n
    ensures 0 <= t < n ==> r == t
  {
    if t + n < 0 then (t + n + WORD) % n else (t + n) % n
  }

  /** The kernel index before the remainder is never negative, so its unsigned remainder is the plain one. */
  lemma KernelIndexFits(offset: real, overSampling: nat)
    requires -0.5 <= offset <= 0.5 && 0 < overSampling
    ensures Round(offset * overSampling as real) + overSampling * 3 / 2 >= 0
  {
    HalfOf(offset, overSampling as real);
    NotBelow(offset * overSampling as real, overSampling);
  }

  lemma NotBelow(x: real, n: nat)
    requires x >= -0.5 * n as real && n > 0
    ensures Round(x) + n * 3 / 2 >= 0
  {
    var r := Round(x);
    assert 2.0 * r as real >= -1.0 - n as real;
    assert (2 * r) as real >= (-1 - (n as int)) as real;
    assert 2 * r >= -1 - (n as int);
  }

  lemma HalfOf(x: real, n: real)
    requires -0.5 <= x && 0.0 <= n
    ensures x * n >= -0.5 * n
  {
    assert (x + 0.5) * n >= 0.0;
  }

  datatype Plane = Plane(width: nat, height: nat, pixelSizeX: real, pixelSizeY: real, nearestNeighbour: bool,
                         overSampling: nat, kernelSize: nat, kernels: seq<seq<real>>) {
    predicate Valid() {
      0 < overSampling == |kernels| && forall k :: 0 <= k < |kernels| ==> |kernels[k]| == kernelSize
    }

    function Cells(): nat { width * height }

    function XExact(u: real): real { u * pixelSizeX * width as real }

    function YExact(v: real): real { v * pixelSizeY * height as real }

    predicate InImage(x: int, y: int) {
      x > -(width / 2) && y > -(height / 2) && x <= width / 2 && y <= height / 2
    }

    function KernelIndex(offset: real): (k: nat)
      requires 0 < overSampling && -0.5 <= offset <= 0.5
      ensures k < overSampling
    {
      KernelIndexFits(offset, overSampling);
      (Round(offset * overSampling as real) + overSampling * 3 / 2) % overSampling
    }

    /** The kernel for a distance of at most half a cell from the nearest cell. */
    function KernelFor(offset: real): (r: seq<real>)
      requires Valid() && -0.5 <= offset <= 0.5
      ensures |r| == kernelSize
    {
      kernels[KernelIndex(offset)]
    }

    /** The cell of kernel element (i, j) for a visibility at (x, y); the plane is periodic. */
    function Cell(x: nat, y: nat, i: nat, j: nat): (r: nat)
      requires x < width && y < height
      ensures r < Cells()
    {
      RowMajor.Fits(width, height, Wrap(x + i - kernelSize / 2, width), Wrap(y + j - kernelSize / 2, height));
      Wrap(y + j - kernelSize / 2, height) * width + Wrap(x + i - kernelSize / 2, width)
    }

    function Weight(xKernel: seq<real>, yKernel: seq<real>, i: nat, j: nat): real
      requires i < |xKernel| && j < |yKernel|
    {
      yKernel[j] * xKernel[i]
    }

    /** The cells of the first j kernel rows and the first i elements of the next. */
    function KernelHits(x: nat, y: nat, xKernel: seq<real>, yKernel: seq<real>, i: nat, j: nat): (r: seq<Hit>)
      requires x < width && y < height && |xKernel| == |yKernel| == kernelSize && i <= kernelSize &&
               (i == 0 || j < kernelSize) && j <= kernelSize
      ensures forall k :: 0 <= k < |r| ==> r[k].cell < Cells()
      decreases j, i
    {
      if i > 0 then
        KernelHits(x, y, xKernel, yKernel, i - 1, j) + [Hit(Cell(x, y, i - 1, j), Weight(xKernel, yKernel, i - 1, j))]
      else if j > 0 then KernelHits(x, y, xKernel, yKernel, kernelSize, j - 1)
      else []
    }

    /** The cells that a visibility at an exact position reaches; none if it falls outside the plane. */
    function HitsAt(xExact: real, yExact: real): (r: Option<seq<Hit>>)
      requires Valid()
      ensures r.Some? ==> forall k :: 0 <= k < |r.value| ==> r.value[k].cell < Cells()
    {
      var x, y := Round(xExact), Round(yExact);
      if !InImage(x, y) then None
      else
        var px, py := if x < 0 then x + width else x, if y < 0 then y + height else y;
        RowMajor.Fits(width, height, px, py);
        if nearestNeighbour then Some([Hit(px + py * width, 1.0)])
        else Some(KernelHits(px, py, KernelFor(xExact - x as real), KernelFor(yExact - y as real), 0, kernelSize))
    }

    function Hits(u: real, v: real): (r: Option<seq<Hit>>)
      requires Valid()
      ensures r.Some? ==> forall k :: 0 <= k < |r.value| ==> r.value[k].cell < Cells()
    {
      HitsAt(XExact(u), YExact(v))
    }
  }

  ghost predicate HitsIn(hits: seq<Hit>, n: nat) {
    forall k :: 0 <= k < |hits| ==> hits[k].cell < n
  }

  /** A layer with a value added to each hit cell in turn, times the weight of the hit. */
  ghost function Spread(g: seq<Complex>, hits: seq<Hit>, z: Complex): (r: seq<Complex>)
    requires HitsIn(hits, |g|)
    ensures |r| == |g|
  {
    if hits == [] then g
    else
      var before, h := Spread(g, hits[..|hits| - 1], z), hits[|hits| - 1];
      before[h.cell := before[h.cell].Plus(z.Scaled(h.weight))]
  }

  /** The sum of the hit cells of a layer, each times the weight of the hit. */
  ghost function Gather(g: seq<Complex>, hits: seq<Hit>): Complex
    requires HitsIn(hits, |g|)
  {
    if hits == [] then ZERO
    else Gather(g, hits[..|hits| - 1]).Plus(g[hits[|hits| - 1].cell].Scaled(hits[|hits| - 1].weight))
  }

  type Layers = seq<seq<Complex>>

  /** Where a visibility is gridded: the layer in memory, the cells, and whether at the mirrored position. */
  datatype Placement = Placement(layer: nat, hits: seq<Hit>, mirrored: bool) {
    ghost predicate Fits(g: Layers) { layer < |g| && HitsIn(hits, |g[layer]|) }

    ghost function Grid(g: Layers, v: Complex): (r: Layers)
      requires Fits(g)
      ensures |r| == |g| && forall k :: 0 <= k < |g| ==> |r[k]| == |g[k]|
    {
      g[layer := Spread(g[layer], hits, Turned(v, mirrored))]
    }

    ghost function Degrid(g: Layers): Complex
      requires Fits(g)
    {
      Turned(Gather(g[layer], hits), !mirrored)
    }
  }

  datatype Sample = Sample(value: Complex, u: real, v: real, w: real)

  /** The gridder during one pass. */
  datatype Pass = Pass(plane: Plane, layering: Layering, imageConjugatePart: bool) {
    ghost predicate Valid() { plane.Valid() && layering.Valid() && 0 < layering.nWLayers }

    function Offset(): nat
      requires Valid()
    {
      layering.LayerRangeStart(layering.curLayerRangeIndex)
    }

    function LayerCount(): int
      requires Valid()
    {
      layering.LayerRangeStart(layering.curLayerRangeIndex + 1) - Offset()
    }

    ghost predicate Sized(g: Layers)
      requires Valid()
    {
      |g| == LayerCount() && forall k :: 0 <= k < |g| ==> |g[k]| == plane.Cells()
    }

    /** Values under the plane are gridded at the mirrored position. */
    predicate Mirrored(w: real) { w < 0.0 && !layering.isComplex }

    function Layer(w: real): int
      requires Valid()
    {
      layering.WToLayer(if Mirrored(w) then -w else w)
    }

    /** The cells that a visibility reaches on its layer. */
    function HitsFor(u: real, v: real, w: real): (r: Option<seq<Hit>>)
      requires Valid()
      ensures r.Some? ==> forall k :: 0 <= k < |r.value| ==> r.value[k].cell < plane.Cells()
    {
      if Mirrored(w) then plane.Hits(-u, -v) else plane.Hits(u, v)
    }

    /** Where a visibility is gridded, if its layer is in this pass and its position in the plane. */
    function Place(u: real, v: real, w: real): (r: Option<Placement>)
      requires Valid()
      ensures r.Some? ==> r.value.layer < LayerCount() && forall k :: 0 <= k < |r.value.hits| ==>
              r.value.hits[k].cell < plane.Cells()
    {
      if !layering.InPass(Layer(w), layering.curLayerRangeIndex) then None
      else
        var hits := HitsFor(u, v, w);
        if hits.None? then None else Some(Placement(Layer(w) - Offset(), hits.value, Mirrored(w)))
    }

    /**
     * The visibility that is gridded: for the conjugate part of the image, the conjugated value at the mirrored
     * position.
     */
    function Gridded(s: Sample): Sample {
      if imageConjugatePart then Sample(s.value.Conj(), -s.u, -s.v, s.w) else s
    }

    /** The layers after one visibility is gridded. */
    ghost function Grid(g: Layers, s: Sample): (r: Layers)
      requires Valid() && Sized(g)
      ensures Sized(r)
    {
      var t := Gridded(s);
      var place := Place(t.u, t.v, t.w);
      if place.None? then g else place.value.Grid(g, t.value)
    }

    /** The value that is read back for a visibility; none stands for the not-a-number that the code returns. */
    ghost function Degrid(g: Layers, u: real, v: real, w: real): Option<Complex>
      requires Valid() && Sized(g)
    {
      var place := Place(u, v, w);
      if place.None? then None else Some(place.value.Degrid(g))
    }

    ghost function GridAll(g: Layers, samples: seq<Sample>): (r: Layers)
      requires Valid() && Sized(g)
      ensures Sized(r)
    {
      if samples == [] then g else Grid(GridAll(g, samples[..|samples| - 1]), samples[|samples| - 1])
    }

    /** What a visibility contributes on the degridding side; nothing if it is not gridded in this pass. */
    ghost function Correlation(g: Layers, s: Sample): real
      requires Valid() && Sized(g)
    {
      var t := Gridded(s);
      var d := Degrid(g, t.u, t.v, t.w);
      if d.None? then 0.0 else t.value.Dot(d.value.Conj())
    }

    ghost function Correlations(g: Layers, samples: seq<Sample>): real
      requires Valid() && Sized(g)
    {
      if samples == [] then 0.0
      else Correlations(g, samples[..|samples| - 1]) + Correlation(g, samples[|samples| - 1])
    }
  }

  // ----- inner products

  /** The real part of the sum of the products of the first n cells. */
  ghost function Inner(a: seq<Complex>, b: seq<Complex>, n: nat): real
    requires n <= |a| == |b|
  {
    if n == 0 then 0.0 else Inner(a, b, n - 1) + a[n - 1].Dot(b[n - 1])
  }

  ghost function InnerLayers(a: Layers, b: Layers, n: nat): real
    requires n <= |a| == |b| && forall k :: 0 <= k < |a| ==> |a[k]| == |b[k]|
  {
    if n == 0 then 0.0 else InnerLayers(a, b, n - 1) + Inner(a[n - 1], b[n - 1], |a[n - 1]|)
  }

  lemma DotAdds(a: Complex, b: Complex, z: Complex)
    ensures a.Plus(b).Dot(z) == a.Dot(z) + b.Dot(z)
    ensures z.Dot(a.Plus(b)) == z.Dot(a) + z.Dot(b)
  {
  }

  lemma DotScales(a: Complex, f: real, z: Complex)
    ensures a.Scaled(f).Dot(z) == a.Dot(z.Scaled(f))
  {
  }

  lemma ConjugateMoves(v: Complex, z: Complex, mirrored: bool)
    ensures Turned(v, mirrored).Dot(z) == v.Dot(Turned(z, !mirrored).Conj())
  {
  }

  lemma {:induction false} InnerUpdate(a: seq<Complex>, b: seq<Complex>, c: nat, z: Complex, n: nat)
    requires n <= |a| == |b| && c < |a|
    ensures Inner(a[c := a[c].Plus(z)], b, n) == Inner(a, b, n) + if c < n then z.Dot(b[c]) else 0.0
  {
    if n > 0 {
      InnerUpdate(a, b, c, z, n - 1);
      DotAdds(a[c], z, b[c]);
    }
  }

  lemma {:induction false} SpreadGather(g: seq<Complex>, b: seq<Complex>, hits: seq<Hit>, z: Complex)
    requires HitsIn(hits, |g|) && |g| == |b|
    ensures Inner(Spread(g, hits, z), b, |g|) == Inner(g, b, |g|) + z.Dot(Gather(b, hits))
  {
    if hits != [] {
      var rest, h := hits[..|hits| - 1], hits[|hits| - 1];
      SpreadGather(g, b, rest, z);
      InnerUpdate(Spread(g, rest, z), b, h.cell, z.Scaled(h.weight), |g|);
      DotScales(z, h.weight, b[h.cell]);
      DotAdds(Gather(b, rest), b[h.cell].Scaled(h.weight), z);
    }
  }

  lemma {:induction false} InnerLayersUpdate(a: Layers, b: Layers, k: nat, layer: seq<Complex>, n: nat)
    requires n <= |a| == |b| && (forall k :: 0 <= k < |a| ==> |a[k]| == |b[k]|) && k < |a| && |layer| == |a[k]|
    ensures InnerLayers(a[k := layer], b, n) ==
            InnerLayers(a, b, n) + if k < n then Inner(layer, b[k], |layer|) - Inner(a[k], b[k], |layer|) else 0.0
  {
    if n > 0 {
      InnerLayersUpdate(a, b, k, layer, n - 1);
    }
  }

  lemma PlacementStep(p: Placement, g: Layers, b: Layers, v: Complex)
    requires |g| == |b| && (forall k :: 0 <= k < |g| ==> |g[k]| == |b[k]|) && p.Fits(g)
    ensures InnerLayers(p.Grid(g, v), b, |g|) == InnerLayers(g, b, |g|) + v.Dot(p.Degrid(b).Conj())
  {
    var z := Turned(v, p.mirrored);
    SpreadGather(g[p.layer], b[p.layer], p.hits, z);
    InnerLayersUpdate(g, b, p.layer, Spread(g[p.layer], p.hits, z), |g|);
    ConjugateMoves(v, Gather(b[p.layer], p.hits), p.mirrored);
  }

  /**
   * Gridding one visibility changes the inner product with any layers by its correlation with what is read from
   * them.
   */
  lemma GridStep(p: Pass, g: Layers, b: Layers, s: Sample)
    requires p.Valid() && p.Sized(g) && p.Sized(b)
    ensures InnerLayers(p.Grid(g, s), b, |g|) == InnerLayers(g, b, |g|) + p.Correlation(b, s)
  {
    var t := p.Gridded(s);
    var place := p.Place(t.u, t.v, t.w);
    if place.Some? {
      PlacementStep(place.value, g, b, t.value);
    }
  }

  /**
   * Gridding and degridding are adjoint: for any visibilities and any uv layers, the inner product of the
   * gridded visibilities with the layers is the correlation of the visibilities with the degridded values.
   */
  lemma {:induction false} GriddingIsAdjoint(p: Pass, g: Layers, b: Layers, samples: seq<Sample>)
    requires p.Valid() && p.Sized(g) && p.Sized(b)
    ensures InnerLayers(p.GridAll(g, samples), b, |g|) == InnerLayers(g, b, |g|) + p.Correlations(b, samples)
  {
    if samples != [] {
      var rest := samples[..|samples| - 1];
      GriddingIsAdjoint(p, g, b, rest);
      GridStep(p, p.GridAll(g, rest), b, samples[|samples| - 1]);
    }
  }
}
