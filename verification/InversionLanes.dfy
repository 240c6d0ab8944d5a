/**
 * Gridding a measurement set with worker threads (gridding/wsmsgridder.cpp): one reader writes the
 * visibilities to the lane of their w-layer, and one worker per lane grids what arrives.
 */
module InversionLanes {
  import opened WLayers
  import opened UvPlane

  /** A visibility and the lane that the reader writes it to. */
  datatype Item = Item(sample: Sample, lane: nat)

  /** Buffers of the lanes: the write buffer of the reader, the lane itself, and the read buffer of the worker. */
  datatype State = State(next: nat, writing: seq<seq<Item>>, queued: seq<seq<Item>>, reading: seq<seq<Item>>,
                         gridded: seq<seq<Item>>, layers: Layers)

  datatype Event =
    | Write               // the reader puts its next visibility in the write buffer of its lane
    | Flush(lane: nat)    // the oldest visibility of a write buffer moves to the lane
    | Fetch(lane: nat)    // the oldest visibility of a lane moves to the read buffer
    | Work(lane: nat)     // a worker grids the oldest visibility of its read buffer

  /** The lane of a visibility: its w-layer modulo the number of threads. */
  function LaneOf(p: Pass, cpuCount: nat, w: real): nat
    requires p.Valid() && cpuCount > 0
  {
    p.layering.WToLayer(w) % cpuCount
  }

  ghost predicate Routed(p: Pass, cpuCount: nat, item: Item)
    requires p.Valid() && cpuCount > 0
  {
    item.lane == LaneOf(p, cpuCount, item.sample.w)
  }

  /** The worker that may write to a layer in memory. */
  function Writer(p: Pass, cpuCount: nat, layer: nat): nat
    requires p.Valid() && cpuCount > 0
  {
    (p.Offset() + layer) % cpuCount
  }

  /** The items of one lane, in order. */
  function Only(items: seq<Item>, lane: nat): (r: seq<Item>)
  {
    if items == [] then []
    else
      var rest, last := Only(items[..|items| - 1], lane), items[|items| - 1];
      if last.lane == lane then rest + [last] else rest
  }

  function Samples(items: seq<Item>): (r: seq<Sample>)
    ensures |r| == |items|
  {
    seq(|items|, k requires 0 <= k < |items| => items[k].sample)
  }

  /** What has gone into a lane: the items gridded, in the two buffers, and in the lane between them. */
  function Content(gridded: seq<Item>, reading: seq<Item>, queued: seq<Item>, writing: seq<Item>): seq<Item> {
    gridded + reading + queued + writing
  }

  datatype Setup = Setup(p: Pass, cpuCount: nat, capacity: nat, bufferSize: nat, input: seq<Item>, before: Layers) {
    ghost predicate Valid() {
      p.Valid() && 0 < cpuCount && p.Sized(before) && forall k {:trigger input[k]} :: 0 <= k < |input| ==>
          Routed(p, cpuCount, input[k])
    }

    ghost predicate Shaped(s: State)
      requires Valid()
    {
      s.next <= |input| && |s.writing| == |s.queued| == |s.reading| == |s.gridded| == cpuCount && p.Sized(s.layers)
    }

    ghost predicate Enabled(s: State, e: Event)
      requires Valid() && Shaped(s)
    {
      match e
      case Write => s.next < |input| && input[s.next].lane < cpuCount && |s.writing[input[s.next].lane]| < bufferSize
      case Flush(l) => l < cpuCount && s.writing[l] != [] && |s.queued[l]| < capacity
      case Fetch(l) => l < cpuCount && s.queued[l] != [] && |s.reading[l]| < bufferSize
      case Work(l) => l < cpuCount && s.reading[l] != []
    }

    ghost function Step(s: State, e: Event): (r: State)
      requires Valid() && Shaped(s) && Enabled(s, e)
      ensures Shaped(r)
    {
      match e
      case Write =>
        var item := input[s.next];
        s.(next := s.next + 1, writing := s.writing[item.lane := s.writing[item.lane] + [item]])
      case Flush(l) =>
        s.(writing := s.writing[l := s.writing[l][1..]], queued := s.queued[l := s.queued[l] + [s.writing[l][0]]])
      case Fetch(l) =>
        s.(queued := s.queued[l := s.queued[l][1..]], reading := s.reading[l := s.reading[l] + [s.queued[l][0]]])
      case Work(l) =>
        s.(reading := s.reading[l := s.reading[l][1..]], gridded := s.gridded[l := s.gridded[l] + [s.reading[l][0]]],
           layers := p.Grid(s.layers, s.reading[l][0].sample))
    }

    ghost function Start(): (r: State)
      requires Valid()
      ensures Shaped(r)
    {
      var empty := seq(cpuCount, _ => []);
      State(0, empty, empty, empty, empty, before)
    }

    ghost predicate Legal(s: State, run: seq<Event>)
      requires Valid() && Shaped(s)
      decreases |run|
    {
      run == [] || (Enabled(s, run[0]) && Legal(Step(s, run[0]), run[1..]))
    }

    ghost function Exec(s: State, run: seq<Event>): (r: State)
      requires Valid() && Shaped(s) && Legal(s, run)
      ensures Shaped(r)
      decreases |run|
    {
      if run == [] then s else Exec(Step(s, run[0]), run[1..])
    }

    /** Everything is read and all buffers are empty. */
    ghost predicate Finished(s: State)
      requires Valid() && Shaped(s)
    {
      s.next == |input| && forall l {:trigger s.writing[l]} :: 0 <= l < cpuCount ==>
          s.writing[l] == [] && s.queued[l] == [] && s.reading[l] == []
    }

    /** What a lane and its buffers hold, with what its worker has gridded, is what was written to it, in order. */
    ghost predicate LaneInv(s: State, l: nat)
      requires Valid() && Shaped(s) && l < cpuCount
    {
      Content(s.gridded[l], s.reading[l], s.queued[l], s.writing[l]) == Only(input[..s.next], l)
    }

    /** A layer in memory holds what its one writer has gridded. */
    ghost predicate LayerInv(s: State, k: nat)
      requires Valid() && Shaped(s) && k < |s.layers|
    {
      s.layers[k] == p.GridAll(before, Samples(s.gridded[Writer(p, cpuCount, k)]))[k]
    }

    ghost predicate Inv(s: State)
      requires Valid() && Shaped(s)
    {
      (forall l: nat {:trigger LaneInv(s, l)} :: l < cpuCount ==> LaneInv(s, l)) &&
      forall k: nat {:trigger LayerInv(s, k)} :: k < |s.layers| ==> LayerInv(s, k)
    }
  }

  // ----- one worker per layer

  /** The layer of a visibility does not depend on whether it is gridded at the mirrored position. */
  lemma LayerIgnoresMirroring(p: Pass, w: real)
    requires p.Valid()
    ensures p.Layer(w) == p.layering.WToLayer(w)
  {
    assert p.Mirrored(w) ==> p.layering.Placed(-w) == p.layering.Placed(w);
  }

  lemma GridOneLayer(p: Pass, g: Layers, s: Sample, k: nat)
    requires p.Valid() && p.Sized(g) && k < |g|
    ensures p.Layer(s.w) != p.Offset() + k ==> p.Grid(g, s)[k] == g[k]
    ensures forall h: Layers :: p.Sized(h) && h[k] == g[k] ==> p.Grid(h, s)[k] == p.Grid(g, s)[k]
  {
  }

  /** A worker writes only to the layers of its own lane: no layer is written by two threads. */
  lemma OneWriterPerLayer(p: Pass, cpuCount: nat, g: Layers, item: Item, k: nat)
    requires p.Valid() && cpuCount > 0 && p.Sized(g) && k < |g| && Routed(p, cpuCount, item)
    ensures p.Grid(g, item.sample)[k] != g[k] ==> item.lane == Writer(p, cpuCount, k)
  {
    GridOneLayer(p, g, item.sample, k);
    LayerIgnoresMirroring(p, item.sample.w);
  }

  // ----- lanes keep the order

  lemma {:induction false} OnlyItems(items: seq<Item>, lane: nat)
    ensures forall k :: 0 <= k < |Only(items, lane)| ==>
            Only(items, lane)[k].lane == lane && Only(items, lane)[k] in items
  {
    if items != [] {
      OnlyItems(items[..|items| - 1], lane);
    }
  }

  lemma OnlyGrows(items: seq<Item>, n: nat, lane: nat)
    requires n < |items|
    ensures Only(items[..n + 1], lane) == if items[n].lane == lane then Only(items[..n], lane) + [items[n]]
            else Only(items[..n], lane)
  {
    assert items[..n + 1][..n] == items[..n];
  }

  lemma FlushMoves(gridded: seq<Item>, reading: seq<Item>, queued: seq<Item>, writing: seq<Item>)
    requires writing != []
    ensures Content(gridded, reading, queued + [writing[0]], writing[1..]) == Content(gridded, reading, queued, writing)
  {
  }

  lemma FetchMoves(gridded: seq<Item>, reading: seq<Item>, queued: seq<Item>, writing: seq<Item>)
    requires queued != []
    ensures Content(gridded, reading + [queued[0]], queued[1..], writing) == Content(gridded, reading, queued, writing)
  {
  }

  lemma WorkMoves(gridded: seq<Item>, reading: seq<Item>, queued: seq<Item>, writing: seq<Item>)
    requires reading != []
    ensures Content(gridded + [reading[0]], reading[1..], queued, writing) == Content(gridded, reading, queued, writing)
  {
  }

  lemma WriteAppends(gridded: seq<Item>, reading: seq<Item>, queued: seq<Item>, writing: seq<Item>, item: Item)
    ensures Content(gridded, reading, queued, writing + [item]) == Content(gridded, reading, queued, writing) + [item]
  {
  }

  lemma LaneKeeps(c: Setup, s: State, e: Event, l: nat)
    requires c.Valid() && c.Shaped(s) && c.Enabled(s, e) && l < c.cpuCount && c.LaneInv(s, l)
    ensures c.LaneInv(c.Step(s, e), l)
  {
    match e
    case Write =>
      OnlyGrows(c.input, s.next, l);
      WriteAppends(s.gridded[l], s.reading[l], s.queued[l], s.writing[l], c.input[s.next]);
    case Flush(lane) =>
      if lane == l {
        FlushMoves(s.gridded[l], s.reading[l], s.queued[l], s.writing[l]);
      }
    case Fetch(lane) =>
      if lane == l {
        FetchMoves(s.gridded[l], s.reading[l], s.queued[l], s.writing[l]);
      }
    case Work(lane) =>
      if lane == l {
        WorkMoves(s.gridded[l], s.reading[l], s.queued[l], s.writing[l]);
      }
  }

  /** What a worker grids was routed to its lane. */
  lemma WorkIsRouted(c: Setup, s: State, l: nat)
    requires c.Valid() && c.Shaped(s) && l < c.cpuCount && c.LaneInv(s, l) && s.reading[l] != []
    ensures s.reading[l][0].lane == l && Routed(c.p, c.cpuCount, s.reading[l][0])
  {
    var all := Only(c.input[..s.next], l);
    OnlyItems(c.input[..s.next], l);
    assert all[|s.gridded[l]|] == s.reading[l][0];
    var k :| 0 <= k < s.next && c.input[k] == s.reading[l][0];
  }

  lemma SamplesGrow(items: seq<Item>, item: Item)
    ensures Samples(items + [item]) == Samples(items) + [item.sample]
  {
  }

  lemma GridAllGrows(p: Pass, g: Layers, samples: seq<Sample>, s: Sample)
    requires p.Valid() && p.Sized(g)
    ensures p.GridAll(g, samples + [s]) == p.Grid(p.GridAll(g, samples), s)
  {
    assert (samples + [s])[..|samples|] == samples;
  }

  lemma LayerKeeps(c: Setup, s: State, l: nat, k: nat)
    requires c.Valid() && c.Shaped(s) && c.Enabled(s, Work(l)) && c.LaneInv(s, l) && k < |s.layers| && c.LayerInv(s, k)
    ensures c.LayerInv(c.Step(s, Work(l)), k)
  {
    var item := s.reading[l][0];
    WorkIsRouted(c, s, l);
    OneWriterPerLayer(c.p, c.cpuCount, s.layers, item, k);
    if Writer(c.p, c.cpuCount, k) == l {
      SamplesGrow(s.gridded[l], item);
      GridAllGrows(c.p, c.before, Samples(s.gridded[l]), item.sample);
      GridOneLayer(c.p, s.layers, item.sample, k);
    }
  }

  lemma StepKeeps(c: Setup, s: State, e: Event)
    requires c.Valid() && c.Shaped(s) && c.Enabled(s, e) && c.Inv(s)
    ensures c.Inv(c.Step(s, e))
  {
    var r := c.Step(s, e);
    forall l: nat | l < c.cpuCount ensures c.LaneInv(r, l) {
      assert c.LaneInv(s, l);
      LaneKeeps(c, s, e, l);
    }
    forall k: nat | k < |r.layers| ensures c.LayerInv(r, k) {
      assert c.LayerInv(s, k);
      if e.Work? {
        assert c.LaneInv(s, e.lane);
        LayerKeeps(c, s, e.lane, k);
      }
    }
  }

  lemma {:induction false} RunKeeps(c: Setup, s: State, run: seq<Event>)
    requires c.Valid() && c.Shaped(s) && c.Inv(s) && c.Legal(s, run)
    ensures c.Inv(c.Exec(s, run))
    decreases |run|
  {
    if run != [] {
      StepKeeps(c, s, run[0]);
      RunKeeps(c, c.Step(s, run[0]), run[1..]);
    }
  }

  lemma StartsWell(c: Setup)
    requires c.Valid()
    ensures c.Inv(c.Start())
  {
    var s := c.Start();
    forall l: nat | l < c.cpuCount ensures c.LaneInv(s, l) {
      assert c.input[..0] == [];
    }
    forall k: nat | k < |s.layers| ensures c.LayerInv(s, k) {
      assert Samples([]) == [];
    }
  }

  /** Only the visibilities of its lane matter to a layer. */
  lemma {:induction false} OnlyItsLaneMatters(p: Pass, cpuCount: nat, g: Layers, items: seq<Item>, k: nat)
    requires p.Valid() && cpuCount > 0 && p.Sized(g) && k < |g|
    requires forall j {:trigger items[j]} :: 0 <= j < |items| ==> Routed(p, cpuCount, items[j])
    ensures p.GridAll(g, Samples(Only(items, Writer(p, cpuCount, k))))[k] == p.GridAll(g, Samples(items))[k]
    decreases |items|
  {
    if items != [] {
      var rest, last, lane := items[..|items| - 1], items[|items| - 1], Writer(p, cpuCount, k);
      OnlyItsLaneMatters(p, cpuCount, g, rest, k);
      assert items == rest + [last];
      SamplesGrow(rest, last);
      GridAllGrows(p, g, Samples(rest), last.sample);
      OneWriterPerLayer(p, cpuCount, p.GridAll(g, Samples(rest)), last, k);
      if last.lane == lane {
        SamplesGrow(Only(rest, lane), last);
        GridAllGrows(p, g, Samples(Only(rest, lane)), last.sample);
        GridOneLayer(p, p.GridAll(g, Samples(rest)), last.sample, k);
      }
    } else {
      assert Only(items, Writer(p, cpuCount, k)) == items;
    }
  }

  /** Under every interleaving of the reader and the workers, the layers end as if gridded one by one in row order. */
  lemma EveryInterleaving(c: Setup, run: seq<Event>)
    requires c.Valid() && c.Legal(c.Start(), run) && c.Finished(c.Exec(c.Start(), run))
    ensures c.Exec(c.Start(), run).layers == c.p.GridAll(c.before, Samples(c.input))
  {
    StartsWell(c);
    RunKeeps(c, c.Start(), run);
    var s := c.Exec(c.Start(), run);
    forall k | 0 <= k < |s.layers| ensures s.layers[k] == c.p.GridAll(c.before, Samples(c.input))[k] {
      var l := Writer(c.p, c.cpuCount, k);
      assert c.LayerInv(s, k) && c.LaneInv(s, l);
      assert s.writing[l] == [] && s.queued[l] == [] && s.reading[l] == [] && c.input[..s.next] == c.input;
      assert Content(s.gridded[l], [], [], []) == s.gridded[l];
      OnlyItsLaneMatters(c.p, c.cpuCount, c.before, c.input, k);
    }
  }

  /** No run gets stuck before everything is gridded. */
  lemma NeverStuck(c: Setup, run: seq<Event>)
    requires c.Valid() && c.Legal(c.Start(), run) && 0 < c.capacity && 0 < c.bufferSize
    requires !c.Finished(c.Exec(c.Start(), run))
    ensures exists e: Event :: c.Enabled(c.Exec(c.Start(), run), e)
  {
    var s := c.Exec(c.Start(), run);
    if l: nat :| l < c.cpuCount && (s.writing[l] != [] || s.queued[l] != [] || s.reading[l] != []) {
      assert c.Enabled(s, Work(l)) || c.Enabled(s, Fetch(l)) || c.Enabled(s, Flush(l));
    } else {
      assert Routed(c.p, c.cpuCount, c.input[s.next]);
      assert c.Enabled(s, Write);
    }
  }

  // ----- rows and passes

  datatype Row = Row(u: real, v: real, w: real, values: seq<Complex>)

  datatype Band = Band(wavelengths: seq<real>, longest: real, shortest: real) {
    ghost predicate Valid() {
      0.0 < shortest && forall ch {:trigger wavelengths[ch]} :: 0 <= ch < |wavelengths| ==>
          shortest <= wavelengths[ch] <= longest
    }
  }

  ghost predicate RowFits(band: Band, row: Row) { |row.values| == |band.wavelengths| }

  ghost predicate RowsFit(band: Band, rows: seq<Row>) {
    band.Valid() && forall k {:trigger rows[k]} :: 0 <= k < |rows| ==> RowFits(band, rows[k])
  }

  /** The visibilities of a row, channel by channel. */
  ghost function RowSamples(band: Band, row: Row): (r: seq<Sample>)
    requires band.Valid() && RowFits(band, row)
    ensures |r| == |band.wavelengths|
  {
    seq(|band.wavelengths|, ch requires 0 <= ch < |band.wavelengths| => SampleOf(band, row, ch))
  }

  ghost function SampleOf(band: Band, row: Row, ch: nat): Sample
    requires band.Valid() && RowFits(band, row) && ch < |band.wavelengths|
  {
    Sample(row.values[ch], row.u / band.wavelengths[ch], row.v / band.wavelengths[ch], row.w / band.wavelengths[ch])
  }

  /** Whether the row is read in this pass, judged by its w-values at the ends of the band. */
  ghost predicate IsRead(p: Pass, band: Band, row: Row)
    requires p.Valid() && band.Valid() && |band.wavelengths| > 0
  {
    assert band.wavelengths[0] <= band.longest;
    p.layering.MayBeInLayerRange(row.w / band.longest, row.w / band.shortest)
  }

  ghost function AllSamples(band: Band, rows: seq<Row>): seq<Sample>
    requires RowsFit(band, rows)
  {
    if rows == [] then [] else AllSamples(band, rows[..|rows| - 1]) + RowSamples(band, rows[|rows| - 1])
  }

  /** The visibilities that the reader writes to the lanes in this pass. */
  ghost function ReadSamples(p: Pass, band: Band, rows: seq<Row>): seq<Sample>
    requires p.Valid() && RowsFit(band, rows) && |band.wavelengths| > 0
  {
    if rows == [] then []
    else
      var before, row := ReadSamples(p, band, rows[..|rows| - 1]), rows[|rows| - 1];
      if IsRead(p, band, row) then before + RowSamples(band, row) else before
  }

  lemma {:induction false} GridAllJoins(p: Pass, g: Layers, a: seq<Sample>, b: seq<Sample>)
    requires p.Valid() && p.Sized(g)
    ensures p.GridAll(g, a + b) == p.GridAll(p.GridAll(g, a), b)
    decreases |b|
  {
    if b == [] {
      assert a + b == a;
    } else {
      GridAllJoins(p, g, a, b[..|b| - 1]);
      assert (a + b)[..|a + b| - 1] == a + b[..|b| - 1];
    }
  }

  lemma BetweenEnds(w: real, wavelength: real, longest: real, shortest: real)
    requires 0.0 < shortest <= wavelength <= longest
    ensures w >= 0.0 ==> 0.0 <= w / longest <= w / wavelength <= w / shortest
    ensures w < 0.0 ==> w / shortest <= w / wavelength <= w / longest <= 0.0
  {
    QuotientsShrink(w, longest, wavelength);
    QuotientsShrink(w, wavelength, shortest);
  }

  lemma QuotientsShrink(w: real, a: real, b: real)
    requires 0.0 < b <= a
    ensures w >= 0.0 ==> 0.0 <= w / a <= w / b
    ensures w < 0.0 ==> w / b <= w / a <= 0.0
  {
    var x, y := w / a, w / b;
    assert x * a == w && y * b == w;
    if w >= 0.0 {
      assert x >= 0.0 && y >= 0.0;
      assert x * b <= x * a;
    } else {
      assert x <= 0.0 && y <= 0.0;
      assert x * a <= x * b;
    }
  }

  /** A row that is read has some w-value between the ends of its band on a layer of this pass. */
  lemma ReadIsNeeded(p: Pass, band: Band, row: Row)
    requires p.Valid() && band.Valid() && |band.wavelengths| > 0 && IsRead(p, band, row)
    requires p.layering.curLayerRangeIndex < p.layering.nPasses && 0 < p.LayerCount()
    ensures 0.0 < band.shortest <= band.longest
    ensures p.layering.SomeInLayerRange(row.w / band.longest, row.w / band.shortest)
  {
    assert band.wavelengths[0] <= band.longest;
    ReadsOnlyNeeded(p.layering, row.w / band.longest, row.w / band.shortest);
  }

  /** A row that is not read has no visibility on a layer of this pass. */
  lemma SkippedIsElsewhere(p: Pass, band: Band, row: Row, ch: nat)
    requires p.Valid() && band.Valid() && RowFits(band, row) && ch < |band.wavelengths| && !IsRead(p, band, row)
    ensures !p.layering.IsInLayerRange(row.w / band.wavelengths[ch])
  {
    BetweenEnds(row.w, band.wavelengths[ch], band.longest, band.shortest);
    var w, w1, w2 := row.w / band.wavelengths[ch], row.w / band.longest, row.w / band.shortest;
    if p.layering.IsInLayerRange(w) {
      NeverSkipsNeeded(p.layering, w1, w2, w);
    }
  }

  lemma {:induction false} SkippedChangesNothing(p: Pass, band: Band, row: Row, g: Layers, n: nat)
    requires p.Valid() && band.Valid() && RowFits(band, row) && n <= |band.wavelengths| && 0 < |band.wavelengths| &&
             !IsRead(p, band, row) && p.Sized(g)
    ensures p.GridAll(g, RowSamples(band, row)[..n]) == g
  {
    if n > 0 {
      SkippedChangesNothing(p, band, row, g, n - 1);
      var samples := RowSamples(band, row);
      assert samples[..n][..n - 1] == samples[..n - 1] && samples[..n][n - 1] == SampleOf(band, row, n - 1);
      SkippedIsElsewhere(p, band, row, n - 1);
      LayerIgnoresMirroring(p, samples[n - 1].w);
    }
  }

  /** Reading only the rows that may matter grids the same as reading all rows. */
  lemma {:induction false} SkippingLosesNothing(p: Pass, band: Band, rows: seq<Row>, g: Layers)
    requires p.Valid() && RowsFit(band, rows) && |band.wavelengths| > 0 && p.Sized(g)
    ensures p.GridAll(g, ReadSamples(p, band, rows)) == p.GridAll(g, AllSamples(band, rows))
    decreases |rows|
  {
    if rows != [] {
      var rest, row := rows[..|rows| - 1], rows[|rows| - 1];
      SkippingLosesNothing(p, band, rest, g);
      var samples := RowSamples(band, row);
      GridAllJoins(p, g, AllSamples(band, rest), samples);
      if IsRead(p, band, row) {
        GridAllJoins(p, g, ReadSamples(p, band, rest), samples);
      } else {
        SkippedChangesNothing(p, band, row, p.GridAll(g, AllSamples(band, rest)), |samples|);
        assert samples[..|samples|] == samples;
      }
    }
  }

  /** The gridder during pass k. */
  function PassAt(p: Pass, k: nat): Pass { p.(layering := During(p.layering, k)) }

  /** In every pass, for every interleaving: the layers end as if all rows had been gridded one by one. */
  lemma EveryPass(c: Setup, run: seq<Event>, band: Band, rows: seq<Row>)
    requires c.Valid() && RowsFit(band, rows) && |band.wavelengths| > 0 &&
             Samples(c.input) == ReadSamples(c.p, band, rows)
    requires c.Legal(c.Start(), run) && c.Finished(c.Exec(c.Start(), run))
    ensures c.Exec(c.Start(), run).layers == c.p.GridAll(c.before, AllSamples(band, rows))
  {
    EveryInterleaving(c, run);
    SkippingLosesNothing(c.p, band, rows, c.before);
  }

  /** Over all passes, a visibility that has a layer and a position on the plane is gridded exactly once. */
  lemma GriddedInOnePass(p: Pass, u: real, v: real, w: real) returns (pass: nat)
    requires p.Valid() && 0 <= p.Layer(w) < p.layering.nWLayers && p.HitsFor(u, v, w).Some?
    ensures pass < p.layering.nPasses && forall k: nat {:trigger PassAt(p, k)} :: PassAt(p, k).Place(u, v, w).Some? <==>
            k == pass
  {
    LayerIgnoresMirroring(p, w);
    pass := PassesPartitionLayers(p.layering, p.Layer(w));
    forall k: nat ensures PassAt(p, k).Place(u, v, w).Some? <==> k == pass {
      PlacedWhenInPass(p, k, u, v, w);
    }
  }

  lemma PlacedWhenInPass(p: Pass, k: nat, u: real, v: real, w: real)
    requires p.Valid() && p.HitsFor(u, v, w).Some?
    ensures PassAt(p, k).Place(u, v, w).Some? <==> p.layering.InPass(p.Layer(w), k)
  {
  }
}
