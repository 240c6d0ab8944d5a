/**
 * Predicting a measurement set with threads (gridding/wsmsgridder.cpp): any number of threads calculate
 * rows in any order, and one thread puts the rows back in order with a priority queue.
 */
module PredictionOrder {
  import opened FiniteSets

  type Uvw = (real, real, real)

  /** The visibilities of a row. */
  type Row = seq<(real, real)>

  /** A calculated row. */
  datatype Item = Item(rowId: nat, data: Row)

  type Items = seq<Item>

  function Ids(items: seq<Item>): (r: seq<nat>)
    ensures |r| == |items|
  {
    seq(|items|, k requires 0 <= k < |items| => items[k].rowId)
  }

  /** The row numbers 0, 1, .. n - 1. */
  function Rows(n: nat): (r: seq<nat>)
    ensures |r| == n && forall k :: 0 <= k < n ==> r[k] == k
  {
    seq(n, k => k)
  }

  // ----- the calculation threads

  /** Rows read but not taken, rows in the buffers of the threads, and rows that reached the write lane. */
  datatype State = State(next: nat, lane: seq<nat>, buffers: seq<Items>, arrived: seq<Item>)

  datatype Event =
    | Read                 // the next row is put on the calculation lane
    | Calculate(thr: nat)  // a thread takes a row, calculates it and puts it in its buffer
    | Flush(thr: nat)      // the oldest row of a buffer reaches the write lane

  ghost function InBuffers(buffers: seq<Items>): multiset<nat> {
    if buffers == [] then multiset{} else InBuffers(buffers[..|buffers| - 1]) + multiset(Ids(buffers[|buffers| - 1]))
  }

  datatype Setup = Setup(uvws: seq<Uvw>, predict: Uvw -> Row, threads: nat) {
    ghost predicate Shaped(s: State) {
      s.next <= |uvws| && |s.buffers| == threads && forall k {:trigger s.lane[k]} :: 0 <= k < |s.lane| ==>
          s.lane[k] < |uvws|
    }

    ghost predicate Enabled(s: State, e: Event)
      requires Shaped(s)
    {
      match e
      case Read => s.next < |uvws|
      case Calculate(t) => t < threads && s.lane != []
      case Flush(t) => t < threads && s.buffers[t] != []
    }

    ghost function Step(s: State, e: Event): (r: State)
      requires Shaped(s) && Enabled(s, e)
      ensures Shaped(r)
    {
      match e
      case Read => s.(lane := s.lane + [s.next], next := s.next + 1)
      case Calculate(t) =>
        s.(lane := s.lane[1..], buffers := s.buffers[t := s.buffers[t] + [Item(s.lane[0], predict(uvws[s.lane[0]]))]])
      case Flush(t) =>
        s.(buffers := s.buffers[t := s.buffers[t][1..]], arrived := s.arrived + [s.buffers[t][0]])
    }

    ghost function Start(): (r: State)
      ensures Shaped(r)
    {
      State(0, [], seq(threads, _ => []), [])
    }

    ghost predicate Legal(s: State, run: seq<Event>)
      requires Shaped(s)
      decreases |run|
    {
      run == [] || (Enabled(s, run[0]) && Legal(Step(s, run[0]), run[1..]))
    }

    ghost function Exec(s: State, run: seq<Event>): (r: State)
      requires Shaped(s) && Legal(s, run)
      ensures Shaped(r)
      decreases |run|
    {
      if run == [] then s else Exec(Step(s, run[0]), run[1..])
    }

    ghost predicate Finished(s: State)
      requires Shaped(s)
    {
      s.next == |uvws| && s.lane == [] && forall t {:trigger s.buffers[t]} :: 0 <= t < threads ==> s.buffers[t] == []
    }

    /** A calculated row carries the prediction of its own row. */
    ghost predicate IsCalculated(x: Item) { x.rowId < |uvws| && x.data == predict(uvws[x.rowId]) }

    ghost predicate AllCalculated(items: seq<Item>) {
      forall k {:trigger items[k]} :: 0 <= k < |items| ==> IsCalculated(items[k])
    }

    /** Every row read so far is in exactly one place, and every calculated row has its own prediction. */
    ghost predicate Inv(s: State)
      requires Shaped(s)
    {
      multiset(s.lane) + InBuffers(s.buffers) + multiset(Ids(s.arrived)) == multiset(Rows(s.next)) &&
      (forall t {:trigger s.buffers[t]} :: 0 <= t < threads ==> AllCalculated(s.buffers[t])) && AllCalculated(s.arrived)
    }

    /** All rows, in some order, each with its own prediction. */
    ghost predicate Complete(items: seq<Item>) {
      multiset(Ids(items)) == multiset(Rows(|uvws|)) && AllCalculated(items)
    }
  }

  lemma Shuffle(a: multiset<nat>, b: multiset<nat>, m: multiset<nat>, x: multiset<nat>, y: multiset<nat>)
    requires a + x == b + y
    ensures (a + m) + x == (b + m) + y
  {
    forall id: nat ensures ((a + m) + x)[id] == ((b + m) + y)[id] {
      assert (a + x)[id] == (b + y)[id];
    }
  }

  lemma Moves(a: multiset<nat>, b: multiset<nat>, m: multiset<nat>, x: multiset<nat>, all: multiset<nat>)
    requires (a + x) + b + m == all
    ensures a + (b + x) + m == all
  {
    forall id: nat ensures (a + (b + x) + m)[id] == all[id] {
      assert ((a + x) + b + m)[id] == all[id];
    }
  }

  lemma Cancel(a: multiset<nat>, b: multiset<nat>, x: multiset<nat>, z: multiset<nat>)
    requires a + x == b + (x + z)
    ensures a == b + z
  {
    forall id: nat ensures a[id] == (b + z)[id] {
      assert (a + x)[id] == (b + (x + z))[id];
    }
  }

  lemma {:induction false} BufferChanges(buffers: seq<Items>, t: nat, b: Items)
    requires t < |buffers|
    ensures InBuffers(buffers[t := b]) + multiset(Ids(buffers[t])) == InBuffers(buffers) + multiset(Ids(b))
  {
    var n := |buffers| - 1;
    var after := buffers[t := b];
    assert InBuffers(buffers) == InBuffers(buffers[..n]) + multiset(Ids(buffers[n]));
    assert InBuffers(after) == InBuffers(after[..n]) + multiset(Ids(after[n]));
    if t < n {
      BufferChanges(buffers[..n], t, b);
      assert after[..n] == buffers[..n][t := b];
      Shuffle(InBuffers(after[..n]), InBuffers(buffers[..n]), multiset(Ids(buffers[n])), multiset(Ids(buffers[t])),
          multiset(Ids(b)));
    } else {
      assert after[..n] == buffers[..n];
    }
  }

  lemma {:induction false} EmptyBuffers(buffers: seq<Items>)
    requires forall t :: 0 <= t < |buffers| ==> buffers[t] == []
    ensures InBuffers(buffers) == multiset{}
  {
    if buffers != [] {
      EmptyBuffers(buffers[..|buffers| - 1]);
    }
  }

  lemma IdsGrow(items: seq<Item>, x: Item)
    ensures Ids(items + [x]) == Ids(items) + [x.rowId]
  {
  }

  lemma IdsShrink(items: seq<Item>)
    requires items != []
    ensures Ids(items) == [items[0].rowId] + Ids(items[1..])
  {
  }

  lemma ReadKeeps(c: Setup, s: State)
    requires c.Shaped(s) && c.Enabled(s, Read) && c.Inv(s)
    ensures c.Inv(c.Step(s, Read))
  {
    assert Rows(s.next + 1) == Rows(s.next) + [s.next];
  }

  lemma CalculateKeeps(c: Setup, s: State, t: nat)
    requires c.Shaped(s) && c.Enabled(s, Calculate(t)) && c.Inv(s)
    ensures c.Inv(c.Step(s, Calculate(t)))
  {
    var r, x := c.Step(s, Calculate(t)), Item(s.lane[0], c.predict(c.uvws[s.lane[0]]));
    assert s.lane == [s.lane[0]] + s.lane[1..];
    IdsGrow(s.buffers[t], x);
    BufferChanges(s.buffers, t, s.buffers[t] + [x]);
    assert multiset(Ids(s.buffers[t] + [x])) == multiset(Ids(s.buffers[t])) + multiset{x.rowId};
    Cancel(InBuffers(r.buffers), InBuffers(s.buffers), multiset(Ids(s.buffers[t])), multiset{x.rowId});
    assert multiset(s.lane) == multiset(r.lane) + multiset{x.rowId};
    Moves(multiset(r.lane), InBuffers(s.buffers), multiset(Ids(s.arrived)), multiset{x.rowId}, multiset(Rows(s.next)));
    forall u | 0 <= u < c.threads ensures c.AllCalculated(r.buffers[u]) {
      assert c.AllCalculated(s.buffers[u]);
    }
  }

  lemma FlushKeeps(c: Setup, s: State, t: nat)
    requires c.Shaped(s) && c.Enabled(s, Flush(t)) && c.Inv(s)
    ensures c.Inv(c.Step(s, Flush(t)))
  {
    var r, x := c.Step(s, Flush(t)), s.buffers[t][0];
    assert c.AllCalculated(s.buffers[t]);
    IdsShrink(s.buffers[t]);
    IdsGrow(s.arrived, x);
    BufferChanges(s.buffers, t, s.buffers[t][1..]);
    assert multiset(Ids(s.buffers[t])) == multiset(Ids(s.buffers[t][1..])) + multiset{x.rowId};
    Cancel(InBuffers(s.buffers), InBuffers(r.buffers), multiset(Ids(s.buffers[t][1..])), multiset{x.rowId});
    forall u | 0 <= u < c.threads ensures c.AllCalculated(r.buffers[u]) {
      assert c.AllCalculated(s.buffers[u]);
    }
  }

  lemma StepKeeps(c: Setup, s: State, e: Event)
    requires c.Shaped(s) && c.Enabled(s, e) && c.Inv(s)
    ensures c.Inv(c.Step(s, e))
  {
    match e
    case Read => ReadKeeps(c, s);
    case Calculate(t) => CalculateKeeps(c, s, t);
    case Flush(t) => FlushKeeps(c, s, t);
  }

  lemma {:induction false} RunKeeps(c: Setup, s: State, run: seq<Event>)
    requires c.Shaped(s) && c.Inv(s) && c.Legal(s, run)
    ensures c.Inv(c.Exec(s, run))
    decreases |run|
  {
    if run != [] {
      StepKeeps(c, s, run[0]);
      RunKeeps(c, c.Step(s, run[0]), run[1..]);
    }
  }

  /** Whatever the threads do, the write thread receives every row once, with its own prediction. */
  lemma EveryRowArrivesOnce(c: Setup, run: seq<Event>)
    requires c.Legal(c.Start(), run) && c.Finished(c.Exec(c.Start(), run))
    ensures c.Complete(c.Exec(c.Start(), run).arrived)
  {
    EmptyBuffers(c.Start().buffers);
    RunKeeps(c, c.Start(), run);
    EmptyBuffers(c.Exec(c.Start(), run).buffers);
  }

  // ----- the write thread

  /** The queue as the rows in it from the smallest row number up, so that its top comes first. */
  ghost predicate Sorted(queue: Items) {
    forall j, k {:trigger queue[j], queue[k]} :: 0 <= j < k < |queue| ==> queue[j].rowId < queue[k].rowId
  }

  function Insert(queue: Items, x: Item): (r: Items)
    ensures |r| == |queue| + 1
  {
    if queue == [] || x.rowId < queue[0].rowId then [x] + queue else [queue[0]] + Insert(queue[1..], x)
  }

  lemma {:induction false} InsertSorts(queue: Items, x: Item)
    requires Sorted(queue) && forall k :: 0 <= k < |queue| ==> queue[k].rowId != x.rowId
    ensures Sorted(Insert(queue, x))
    ensures forall y {:trigger y in Insert(queue, x)} :: y in Insert(queue, x) <==> y in queue || y == x
    decreases |queue|
  {
    if queue != [] && x.rowId > queue[0].rowId {
      InsertSorts(queue[1..], x);
      var rest := Insert(queue[1..], x);
      forall k | 0 <= k < |rest| ensures queue[0].rowId < rest[k].rowId {
        assert rest[k] in rest;
      }
    }
  }

  /** After some rows arrived: the rows 0, 1, .. are written in order, and the later ones wait in the queue. */
  ghost predicate Reordered(arrived: Items, written: Items, queue: Items) {
    Sorted(queue) &&
    (forall k {:trigger written[k]} :: 0 <= k < |written| ==> written[k].rowId == k && written[k] in arrived) &&
    (forall k {:trigger queue[k]} :: 0 <= k < |queue| ==> queue[k].rowId >= |written| && queue[k] in arrived) &&
    forall y {:trigger y in arrived} :: y in arrived ==> y in queue || (y.rowId < |written| && y == written[y.rowId])
  }

  ghost predicate Distinct(items: Items) {
    forall j, k {:trigger items[j].rowId, items[k].rowId} :: 0 <= j < k < |items| ==> items[j].rowId != items[k].rowId
  }

  /** The rows that arrived so far are exactly the first ones. */
  ghost predicate FirstRows(arrived: Items) {
    forall k {:trigger arrived[k]} :: 0 <= k < |arrived| ==> arrived[k].rowId < |arrived|
  }

  lemma NewId(arrived: Items, x: Item)
    requires Distinct(arrived + [x])
    ensures forall y {:trigger y in arrived} :: y in arrived ==> y.rowId != x.rowId
  {
    var all := arrived + [x];
    forall y | y in arrived ensures y.rowId != x.rowId {
      var j :| 0 <= j < |arrived| && arrived[j] == y;
      assert all[j].rowId != all[|arrived|].rowId;
    }
  }

  /** One arrival joins the queue. */
  lemma Arrives(arrived: Items, written: Items, queue: Items, x: Item)
    requires Reordered(arrived, written, queue) && Distinct(arrived + [x])
    ensures Reordered(arrived + [x], written, Insert(queue, x))
  {
    if x.rowId < |written| {
      assert written[x.rowId] in arrived;
    }
    NewId(arrived, x);
    InsertSorts(queue, x);
    var q := Insert(queue, x);
    forall k | 0 <= k < |q| ensures q[k].rowId >= |written| && q[k] in arrived + [x] {
      assert q[k] in q;
    }
  }

  /** The top of the queue is written when it is the next row. */
  lemma Written(arrived: Items, written: Items, queue: Items)
    requires Reordered(arrived, written, queue) && queue != [] && queue[0].rowId == |written|
    ensures Reordered(arrived, written + [queue[0]], queue[1..])
  {
    forall k | 0 <= k < |queue[1..]| ensures queue[1..][k].rowId >= |written| + 1 && queue[1..][k] in arrived {
      assert queue[0].rowId < queue[k + 1].rowId;
    }
  }

  /** The rows that have arrived, as far as they follow each other from row 0 on, are written: not one later. */
  lemma WrittenAreTheFirst(arrived: Items, written: Items, queue: Items)
    requires Reordered(arrived, written, queue) && (queue == [] || queue[0].rowId != |written|)
    ensures |written| !in Ids(arrived)
    ensures forall k: nat {:trigger k in Ids(arrived)} :: k < |written| ==> k in Ids(arrived)
  {
    forall j | 0 <= j < |arrived| ensures Ids(arrived)[j] != |written| {
      assert arrived[j] in arrived;
      if arrived[j] in queue {
        var k :| 0 <= k < |queue| && queue[k] == arrived[j];
        assert k > 0 ==> queue[0].rowId < queue[k].rowId;
      }
    }
    forall k: nat | k < |written| ensures k in Ids(arrived) {
      assert written[k] in arrived;
      var j :| 0 <= j < |arrived| && arrived[j] == written[k];
      assert Ids(arrived)[j] == k;
    }
  }

  // ----- counting rows

  function IdSet(items: Items): set<nat> { set x <- Ids(items) }

  function Below(n: nat): set<nat> { set k <- Rows(n) }

  lemma {:induction false} BelowSize(n: nat)
    ensures |Below(n)| == n
  {
    if n > 0 {
      BelowSize(n - 1);
      assert Rows(n) == Rows(n - 1) + [n - 1];
      assert Below(n) == Below(n - 1) + {n - 1};
    }
  }

  lemma {:induction false} IdSetSize(items: Items)
    requires Distinct(items)
    ensures |IdSet(items)| == |items|
  {
    if items != [] {
      var rest, x := items[..|items| - 1], items[|items| - 1];
      IdSetSize(rest);
      IdsGrow(rest, x);
      assert items == rest + [x];
      assert IdSet(items) == IdSet(rest) + {x.rowId};
      forall j | 0 <= j < |rest| ensures Ids(rest)[j] != x.rowId {
        assert items[j].rowId != items[|items| - 1].rowId;
      }
    }
  }

  lemma BelowHas(n: nat, k: nat)
    ensures k in Below(n) <==> k < n
  {
    if k < n {
      assert Rows(n)[k] == k;
    }
  }

  /** When nothing more can be written, the queue is empty exactly if the rows so far are the first ones. */
  lemma EmptyWhenFirst(arrived: Items, written: Items, queue: Items)
    requires Reordered(arrived, written, queue) && Distinct(arrived) && (queue == [] || queue[0].rowId != |written|)
    ensures queue == [] <==> FirstRows(arrived)
    ensures queue == [] ==> |written| == |arrived|
  {
    WrittenAreTheFirst(arrived, written, queue);
    IdSetSize(arrived);
    BelowSize(|written|);
    BelowSize(|arrived|);
    SubsetSize(Below(|written|), IdSet(arrived));
    if queue == [] {
      forall id | id in IdSet(arrived) ensures id in Below(|written|) {
        var j :| 0 <= j < |arrived| && Ids(arrived)[j] == id;
        assert arrived[j] in arrived;
        assert Rows(|written|)[id] == id;
      }
      SubsetSize(IdSet(arrived), Below(|written|));
      forall k | 0 <= k < |arrived| ensures arrived[k].rowId < |arrived| {
        assert Ids(arrived)[k] in IdSet(arrived);
      }
    }
    if FirstRows(arrived) {
      FirstRowsWritten(arrived, written, queue);
    }
  }

  lemma FirstRowsWritten(arrived: Items, written: Items, queue: Items)
    requires Reordered(arrived, written, queue) && Distinct(arrived) && (queue == [] || queue[0].rowId != |written|)
    requires FirstRows(arrived)
    ensures queue == []
  {
    forall k | 0 <= k < |queue| ensures queue[k].rowId < |arrived| {
      var j :| 0 <= j < |arrived| && arrived[j] == queue[k];
      assert arrived[j].rowId < |arrived|;
    }
    forall id | id in IdSet(arrived) ensures id in Below(|arrived|) {
      var j :| 0 <= j < |arrived| && Ids(arrived)[j] == id;
      assert arrived[j].rowId < |arrived|;
      BelowHas(|arrived|, id);
    }
    IdSetSize(arrived);
    BelowSize(|arrived|);
    SameSizeSubset(IdSet(arrived), Below(|arrived|));
    WrittenAreTheFirst(arrived, written, queue);
    BelowHas(|arrived|, |written|);
  }

  lemma {:induction false} RowsOnce(n: nat, id: nat)
    ensures multiset(Rows(n))[id] == if id < n then 1 else 0
  {
    if n > 0 {
      RowsOnce(n - 1, id);
      assert Rows(n) == Rows(n - 1) + [n - 1];
    }
  }

  /** If every row arrived once, the rows are distinct and the first ones. */
  lemma CompleteIsFirst(c: Setup, arrived: Items)
    requires c.Complete(arrived)
    ensures |arrived| == |c.uvws| && Distinct(arrived) && FirstRows(arrived)
  {
    var ids, n := Ids(arrived), |c.uvws|;
    assert |multiset(ids)| == |multiset(Rows(n))|;
    forall k | 0 <= k < |arrived| ensures arrived[k].rowId < n {
      assert ids[k] in multiset(ids);
      RowsOnce(n, ids[k]);
    }
    forall j, k | 0 <= j < k < |arrived| ensures arrived[j].rowId != arrived[k].rowId {
      if ids[j] == ids[k] {
        assert ids == ids[..k] + ids[k..];
        assert ids[j] in ids[..k] && ids[k] in ids[k..];
        RowsOnce(n, ids[k]);
        assert false;
      }
    }
  }

  /** Rows that were all predicted are written in row order, each with its own prediction. */
  method WritePrediction(c: Setup, arrived: Items) returns (written: Items, ghost emptyTops: set<nat>)
    requires c.Complete(arrived)
    ensures |written| == |c.uvws| && forall k :: 0 <= k < |written| ==> written[k] == Item(k, c.predict(c.uvws[k]))
    ensures |c.uvws| > 0 ==> |c.uvws| - 1 in emptyTops
  {
    CompleteIsFirst(c, arrived);
    ghost var queue: Items;
    written, queue, emptyTops := PredictWriteThread(arrived);
    EmptyWhenFirst(arrived, written, queue);
    assert arrived[..|arrived|] == arrived;
    forall k | 0 <= k < |written| ensures written[k] == Item(k, c.predict(c.uvws[k])) {
      var j :| 0 <= j < |arrived| && arrived[j] == written[k];
      assert c.IsCalculated(arrived[j]);
    }
  }

  /**
   * Writes the rows that follow the last one written, as long as they are on top of the queue.  Where the
   * code reads the top of an empty queue, this loop stops.
   */
  method WriteNextRows(ghost arrived: Items, written: Items, queue: Items) returns (written': Items, queue': Items)
    requires Reordered(arrived, written, queue)
    ensures Reordered(arrived, written', queue') && (queue' == [] || queue'[0].rowId != |written'|)
  {
    written', queue' := written, queue;
    var nextRowId := |written|;
    while queue' != [] && queue'[0].rowId == nextRowId
      invariant nextRowId == |written'| && Reordered(arrived, written', queue')
      decreases |queue'|
    {
      Written(arrived, written', queue');
      written' := written' + [queue'[0]];
      queue' := queue'[1..];
      nextRowId := nextRowId + 1;
    }
  }

  /** One row arrives, and all rows that can be written are. */
  method TakeRow(arrived: Items, i: nat, written: Items, queue: Items) returns (written': Items, queue': Items)
    requires i < |arrived| && Distinct(arrived) && Reordered(arrived[..i], written, queue)
    ensures Reordered(arrived[..i + 1], written', queue') && (queue' == [] || queue'[0].rowId != |written'|)
    ensures queue' == [] <==> FirstRows(arrived[..i + 1])
  {
    assert arrived[..i + 1] == arrived[..i] + [arrived[i]];
    Arrives(arrived[..i], written, queue, arrived[i]);
    written', queue' := WriteNextRows(arrived[..i + 1], written, Insert(queue, arrived[i]));
    EmptyWhenFirst(arrived[..i + 1], written', queue');
  }

  /** The arrivals after which the code reads the top of an empty queue. */
  ghost predicate EmptyTops(arrived: Items, n: nat, emptyTops: set<nat>)
    requires n <= |arrived|
  {
    forall k: nat {:trigger k in emptyTops} :: k in emptyTops <==> k < n && FirstRows(arrived[..k + 1])
  }

  /** The write thread: rows arrive in any order and are written in order. */
  method PredictWriteThread(arrived: Items) returns (written: Items, ghost queue: Items, ghost emptyTops: set<nat>)
    requires Distinct(arrived)
    ensures Reordered(arrived, written, queue) && (queue == [] || queue[0].rowId != |written|)
    ensures forall k :: 0 <= k < |written| ==> written[k].rowId == k && written[k] in arrived
    ensures FirstRows(arrived) ==> |written| == |arrived|
    ensures EmptyTops(arrived, |arrived|, emptyTops)
  {
    var pending: Items := [];
    written := [];
    emptyTops := {};
    for i := 0 to |arrived|
      invariant Reordered(arrived[..i], written, pending)
      invariant pending == [] || pending[0].rowId != |written|
      invariant EmptyTops(arrived, i, emptyTops)
    {
      written, pending := TakeRow(arrived, i, written, pending);
      if pending == [] { emptyTops := emptyTops + {i}; }
    }
    assert arrived[..|arrived|] == arrived;
    EmptyWhenFirst(arrived, written, pending);
    queue := pending;
  }
}
