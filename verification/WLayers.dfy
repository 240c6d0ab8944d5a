/**
 * The w-layers of the w-stacking gridder (gridding/wstackinggridder.h): which layer a w-value belongs to,
 * and the passes over the layers that keep the memory use bounded.
 */
module WLayers {
  import opened Common
  import opened Shares

  /** C++ std::round: to the nearest integer, halves away from zero. */
  function Round(x: real): (r: int)
    ensures -0.5 <= r as real - x <= 0.5
  {
    if x >= 0.0 then (x + 0.5).Floor else -((0.5 - x).Floor)
  }

  lemma RoundGrows(x: real, y: real)
    requires x <= y
    ensures Round(x) <= Round(y)
  {
  }

  lemma RoundWhole(x: real, n: int)
    requires x == n as real
    ensures Round(x) == n
  {
  }

  /** A distance in units of the layer spacing range / n. */
  function Spacings(distance: real, range: real, n: int): real
    requires range > 0.0
  {
    distance * n as real / range
  }

  /** The nearest of the layers 0, 1, .. whose centres start at first and are range / n apart. */
  function LayerAt(w: real, first: real, range: real, n: int): int
    requires range > 0.0
  {
    Round(Spacings(w - first, range, n))
  }

  function CentreOf(layer: nat, first: real, range: real, n: int): real
  {
    if n == 0 then first else layer as real * range / n as real + first
  }

  datatype Layering = Layering(nWLayers: nat, nPasses: nat, curLayerRangeIndex: nat, minW: real, maxW: real,
      isComplex: bool) {
    predicate Valid() {
      0 < nPasses && 0.0 <= minW < maxW
    }

    /** The w-value of layer 0. */
    function FirstW(): real { if isComplex then -maxW else minW }

    /** The range of w-values that the layers are spread over. */
    function Range(): (r: real)
      requires Valid()
      ensures r > 0.0
    {
      if isComplex then maxW + maxW else maxW - minW
    }

    /** The w-value that is compared with the layers. */
    function Placed(w: real): real { if isComplex then w else Abs(w) }

    /** The layer of a w-value; below 0 for values under the range. */
    function WToLayer(w: real): int
      requires Valid()
    {
      if nWLayers == 1 then 0 else LayerAt(Placed(w), FirstW(), Range(), nWLayers - 1)
    }

    function LayerToW(layer: nat): real
      requires Valid()
    {
      if nWLayers == 1 then 0.0 else CentreOf(layer, FirstW(), Range(), nWLayers - 1)
    }

    function LayerRangeStart(index: nat): nat
      requires Valid()
    {
      Share(nWLayers, nPasses, index)
    }

    /** Whether a layer belongs to the given pass. */
    predicate InPass(layer: int, pass: nat)
      requires Valid()
    {
      LayerRangeStart(pass) <= layer < LayerRangeStart(pass + 1)
    }

    predicate IsInLayerRange(w: real)
      requires Valid()
    {
      InPass(WToLayer(w), curLayerRangeIndex)
    }

    /** Whether any w-value between the two may be in this pass. */
    predicate MayBeInLayerRange(wStart: real, wEnd: real)
      requires Valid()
    {
      var rangeStart, rangeEnd := LayerRangeStart(curLayerRangeIndex), LayerRangeStart(curLayerRangeIndex + 1);
      var l1, l2 := WToLayer(wStart), WToLayer(wEnd);
      InPass(l1, curLayerRangeIndex) || InPass(l2, curLayerRangeIndex) || (l1 < rangeStart && l2 >= rangeEnd) ||
          (l2 < rangeStart && l1 >= rangeEnd)
    }

    /** Some w-value between the two is gridded in this pass. */
    ghost predicate SomeInLayerRange(w1: real, w2: real)
      requires Valid()
    {
      exists w: real :: (w1 <= w <= w2 || w2 <= w <= w1) && IsInLayerRange(w)
    }
  }

  lemma LayerAtGrows(w: real, w': real, first: real, range: real, n: int)
    requires w <= w' && range > 0.0 && n >= 0
    ensures LayerAt(w, first, range, n) <= LayerAt(w', first, range, n)
  {
    assert (w - first) * n as real <= (w' - first) * n as real;
    RoundGrows(Spacings(w - first, range, n), Spacings(w' - first, range, n));
  }

  /** Larger values are never placed on lower layers. */
  lemma LayersGrow(l: Layering, w: real, w': real)
    requires l.Valid() && 0 < l.nWLayers && l.Placed(w) <= l.Placed(w')
    ensures l.WToLayer(w) <= l.WToLayer(w')
  {
    LayerAtGrows(l.Placed(w), l.Placed(w'), l.FirstW(), l.Range(), l.nWLayers - 1);
  }

  lemma ThereAndBack(k: real, range: real, m: real)
    requires range > 0.0 && m > 0.0 && k >= 0.0
    ensures (k * range / m) * m / range == k && k * range / m >= 0.0
  {
    assert (k * range / m) * m == k * range >= 0.0;
  }

  lemma CentreIsOnLayer(layer: nat, first: real, range: real, n: int)
    requires range > 0.0 && n > 0
    ensures LayerAt(CentreOf(layer, first, range, n), first, range, n) == layer
    ensures CentreOf(layer, first, range, n) >= first
  {
    ThereAndBack(layer as real, range, n as real);
    var w := CentreOf(layer, first, range, n);
    assert Spacings(layer as real * range / n as real, range, n) == layer as real;
    assert w - first == layer as real * range / n as real;
    RoundWhole(Spacings(w - first, range, n), layer);
  }

  /** The central w-value of a layer is placed on that layer. */
  lemma LayerRoundTrip(l: Layering, layer: nat)
    requires l.Valid() && layer < l.nWLayers
    ensures l.WToLayer(l.LayerToW(layer)) == layer
    ensures l.nWLayers > 1 && !l.isComplex ==> l.LayerToW(layer) >= 0.0
  {
    if l.nWLayers > 1 {
      CentreIsOnLayer(layer, l.FirstW(), l.Range(), l.nWLayers - 1);
    }
  }

  /** The layers span all w-values: from the first layer at the smallest one to the last at the largest one. */
  lemma LayersSpan(l: Layering)
    requires l.Valid() && 1 < l.nWLayers
    ensures l.LayerToW(0) == (if l.isComplex then -l.maxW else l.minW) && l.LayerToW(l.nWLayers - 1) == l.maxW
  {
    var n, range := (l.nWLayers - 1) as real, l.Range();
    assert 0.0 * range / n == 0.0;
    assert n * range / n == range;
  }

  lemma HalfStep(x: real, k: nat, range: real, n: int)
    requires range > 0.0 && n > 0 && -0.5 <= k as real - Spacings(x, range, n) <= 0.5
    ensures -0.5 * range / n as real <= k as real * range / n as real - x <= 0.5 * range / n as real
  {
    var s := Spacings(x, range, n);
    assert s * range == x * n as real;
    Between(k as real, s, range);
    Quotients(k as real * range, x, n as real, 0.5 * range);
  }

  lemma Between(k: real, s: real, range: real)
    requires range > 0.0 && -0.5 <= k - s <= 0.5
    ensures -0.5 * range <= k * range - s * range <= 0.5 * range
  {
    assert (k - s) * range == k * range - s * range;
  }

  lemma Quotients(a: real, x: real, m: real, h: real)
    requires m > 0.0 && -h <= a - x * m <= h
    ensures -h / m <= a / m - x <= h / m
  {
    assert (a / m - x) * m == a - x * m;
    assert (h / m) * m == h;
  }

  lemma NearestIsClose(w: real, first: real, range: real, n: int)
    requires range > 0.0 && n > 0 && LayerAt(w, first, range, n) >= 0
    ensures Abs(CentreOf(LayerAt(w, first, range, n), first, range, n) - w) <= 0.5 * range / n as real
  {
    HalfStep(w - first, LayerAt(w, first, range, n), range, n);
  }

  /** The centre of the layer of a w-value is at most half a layer spacing away from it. */
  lemma WithinHalfSpacing(l: Layering, w: real)
    requires l.Valid() && 1 < l.nWLayers && 0 <= l.WToLayer(w)
    ensures Abs(l.LayerToW(l.WToLayer(w)) - l.Placed(w)) <= 0.5 * l.Range() / (l.nWLayers - 1) as real
  {
    NearestIsClose(l.Placed(w), l.FirstW(), l.Range(), l.nWLayers - 1);
  }

  // ----- passes

  lemma SamePass(l: Layering, layer: nat, pass: nat, k: nat)
    requires l.Valid() && l.InPass(layer, pass)
    ensures l.InPass(layer, k) <==> k == pass
  {
    if l.InPass(layer, k) {
      assert InShare(l.nWLayers, l.nPasses, k, layer) && InShare(l.nWLayers, l.nPasses, pass, layer);
      OneShare(l.nWLayers, l.nPasses, k, pass, layer);
    }
  }

  /** Every layer is in exactly one of the passes. */
  lemma PassesPartitionLayers(l: Layering, layer: nat) returns (pass: nat)
    requires l.Valid() && layer < l.nWLayers
    ensures pass < l.nPasses && forall k: nat {:trigger l.InPass(layer, k)} :: l.InPass(layer, k) <==> k == pass
  {
    ShareStep(l.nWLayers, l.nPasses, 0);
    pass := ShareOf(l.nWLayers, l.nPasses, l.nPasses, layer);
    assert l.InPass(layer, pass);
    forall k: nat ensures l.InPass(layer, k) <==> k == pass {
      SamePass(l, layer, pass, k);
    }
  }

  /** The layering during the given pass. */
  function During(l: Layering, pass: nat): Layering { l.(curLayerRangeIndex := pass) }

  /** Every w-value that has a layer is gridded in exactly one pass. */
  lemma OnePassPerSample(l: Layering, w: real) returns (pass: nat)
    requires l.Valid() && 0 <= l.WToLayer(w) < l.nWLayers
    ensures pass < l.nPasses && forall k: nat {:trigger During(l, k)} :: During(l, k).IsInLayerRange(w) <==> k == pass
  {
    pass := PassesPartitionLayers(l, l.WToLayer(w));
    forall k: nat ensures During(l, k).IsInLayerRange(w) <==> k == pass {
      assert During(l, k).IsInLayerRange(w) <==> l.InPass(l.WToLayer(w), k);
    }
  }

  // ----- skipping data by the w-values at the ends of a range

  /** Where complex values or the sign of the ends keep the layers in order, no needed data is skipped. */
  lemma NeverSkipsNeeded(l: Layering, w1: real, w2: real, w: real)
    requires l.Valid() && 0 < l.nWLayers && (w1 <= w <= w2 || w2 <= w <= w1)
    requires l.isComplex || (w1 <= 0.0 && w2 <= 0.0) || (w1 >= 0.0 && w2 >= 0.0)
    requires l.IsInLayerRange(w)
    ensures l.MayBeInLayerRange(w1, w2)
  {
    if l.Placed(w1) <= l.Placed(w2) {
      LayersGrow(l, w1, w);
      LayersGrow(l, w, w2);
    } else {
      LayersGrow(l, w2, w);
      LayersGrow(l, w, w1);
    }
  }

  /** The first layer of a pass has a w-value below any value on a layer after the pass. */
  lemma LayerBelow(l: Layering, layer: nat, w: real)
    requires l.Valid() && !l.isComplex && layer < l.nWLayers && 1 < l.nWLayers && layer < l.WToLayer(w)
    ensures 0.0 <= l.LayerToW(layer) <= Abs(w)
  {
    LayerRoundTrip(l, layer);
    if l.LayerToW(layer) > Abs(w) {
      LayersGrow(l, w, l.LayerToW(layer));
    }
  }

  /** A layer before one end and behind the other has a w-value between them. */
  lemma LayerBetween(l: Layering, layer: nat, w1: real, w2: real) returns (w: real)
    requires l.Valid() && 1 < l.nWLayers && layer < l.nWLayers && l.WToLayer(w1) < layer < l.WToLayer(w2)
    ensures (w1 <= w <= w2 || w2 <= w <= w1) && l.WToLayer(w) == layer
  {
    w := l.LayerToW(layer);
    LayerRoundTrip(l, layer);
    if l.Placed(w1) >= l.Placed(w) {
      LayersGrow(l, w, w1);
    }
    if l.Placed(w) >= l.Placed(w2) {
      LayersGrow(l, w2, w);
    }
    if !l.isComplex && w2 < 0.0 {
      assert l.Placed(-w) == l.Placed(w);
      w := -w;
    }
  }

  /** No data are read without need: some value between ends that may be in the range of a pass is in it. */
  lemma ReadsOnlyNeeded(l: Layering, w1: real, w2: real)
    requires l.Valid() && 0 < l.nWLayers && l.curLayerRangeIndex < l.nPasses
    requires l.LayerRangeStart(l.curLayerRangeIndex) < l.LayerRangeStart(l.curLayerRangeIndex + 1)
    requires l.MayBeInLayerRange(w1, w2)
    ensures l.SomeInLayerRange(w1, w2)
  {
    var start, end := l.LayerRangeStart(l.curLayerRangeIndex), l.LayerRangeStart(l.curLayerRangeIndex + 1);
    SharesGrow(l.nWLayers, l.nPasses, l.curLayerRangeIndex + 1, l.nPasses);
    ShareStep(l.nWLayers, l.nPasses, 0);
    if l.IsInLayerRange(w1) {
      assert w1 <= w1;
    } else if l.IsInLayerRange(w2) {
      assert w2 <= w2;
    } else if l.WToLayer(w1) < start {
      var w := LayerBetween(l, start, w1, w2);
      assert l.IsInLayerRange(w);
    } else {
      var w := LayerBetween(l, start, w2, w1);
      assert l.IsInLayerRange(w);
    }
  }

  /**
   * Ends of opposite sign: needed data is skipped exactly when both ends are placed after a pass that has
   * layers, since the values near zero between them are placed before.
   */
  lemma OppositeSigns(l: Layering, w1: real, w2: real)
    requires l.Valid() && !l.isComplex && 0 < l.nWLayers && l.curLayerRangeIndex < l.nPasses && w1 < 0.0 < w2
    ensures (l.SomeInLayerRange(w1, w2) ==> l.MayBeInLayerRange(w1, w2)) <==>
            !(l.LayerRangeStart(l.curLayerRangeIndex) < l.LayerRangeStart(l.curLayerRangeIndex + 1) &&
              l.WToLayer(w1) >= l.LayerRangeStart(l.curLayerRangeIndex + 1) &&
                  l.WToLayer(w2) >= l.LayerRangeStart(l.curLayerRangeIndex + 1))
  {
    var start, end := l.LayerRangeStart(l.curLayerRangeIndex), l.LayerRangeStart(l.curLayerRangeIndex + 1);
    SharesGrow(l.nWLayers, l.nPasses, l.curLayerRangeIndex + 1, l.nPasses);
    ShareStep(l.nWLayers, l.nPasses, 0);
    if start < end && l.WToLayer(w1) >= end && l.WToLayer(w2) >= end {
      var w := l.LayerToW(start);
      LayerRoundTrip(l, start);
      LayerBelow(l, start, w2);
      assert w1 <= w <= w2 && l.IsInLayerRange(w);
    } else if l.SomeInLayerRange(w1, w2) && !l.MayBeInLayerRange(w1, w2) {
      var w: real :| (w1 <= w <= w2 || w2 <= w <= w1) && l.IsInLayerRange(w);
      if Abs(w) <= w2 {
        LayersGrow(l, w, w2);
      } else {
        LayersGrow(l, w, w1);
      }
    }
  }

  /** Two layers in two passes: data from -1 to 1 are skipped in the first pass, although 0 belongs to it. */
  lemma SkippedAcrossZero()
    ensures var l := Layering(2, 2, 0, 0.0, 1.0, false);
            l.Valid() && l.IsInLayerRange(0.0) && l.SomeInLayerRange(-1.0, 1.0) && !l.MayBeInLayerRange(-1.0, 1.0)
  {
    var l := Layering(2, 2, 0, 0.0, 1.0, false);
    assert l.LayerRangeStart(0) == 0 && l.LayerRangeStart(1) == 1;
    assert l.WToLayer(-1.0) == l.WToLayer(1.0) == 1 && l.WToLayer(0.0) == 0;
    assert -1.0 <= 0.0 <= 1.0 && l.IsInLayerRange(0.0);
  }
}
