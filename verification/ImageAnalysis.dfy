/**
 * Selecting structures in a wavelet transform (iuwt/imageanalysis.cpp): flood fills with an explicit stack
 * over cells at a position and a scale, and the scan that starts them.
 */
module ImageAnalysis {
  import opened Common
  import opened FiniteSets

  datatype Cell = Cell(x: nat, y: nat, scale: nat)

  predicate ExceedsThreshold(val: real, threshold: real) {
    if threshold >= 0.0 then val > threshold else val < threshold || val > -threshold
  }

  /** What a flood fill runs on: the coefficients of the scales, their thresholds, and the borders. */
  datatype Job = Job(width: nat, height: nat, xBorder: nat, yBorder: nat, minScale: nat, endScale: nat, nScales: nat,
                     iuwt: seq<seq<seq<real>>>, thresholds: seq<real>, priorMask: Option<seq<seq<bool>>>) {
    ghost predicate Valid() {
      2 * xBorder <= width && 2 * yBorder <= height && |iuwt| == |thresholds| == nScales &&
      (forall c: Cell {:trigger InGrid(c)} :: InGrid(c) ==> HasPixel(c))
    }

    predicate InGrid(c: Cell) { c.x < width && c.y < height && c.scale < nScales }

    predicate HasPixel(c: Cell) {
      c.scale < |iuwt| && c.scale < |thresholds| && c.y < |iuwt[c.scale]| && c.x < |iuwt[c.scale][c.y]| &&
      (priorMask.Some? ==> c.y < |priorMask.value| && c.x < |priorMask.value[c.y]|)
    }

    function End(): nat { if endScale <= nScales then endScale else nScales }

    /** The coefficient exceeds the threshold of its scale, and the position is in the prior mask. */
    predicate Passes(c: Cell) {
      InGrid(c) && HasPixel(c) && ExceedsThreshold(iuwt[c.scale][c.y][c.x], thresholds[c.scale]) &&
          (priorMask.None? || priorMask.value[c.y][c.x])
    }

    /** Inside the borders and the range of scales. */
    predicate InBox(c: Cell) {
      xBorder <= c.x < width - xBorder && yBorder <= c.y < height - yBorder && minScale <= c.scale < End()
    }

    /** The cells that a flood fill looks at from a cell, in its order. */
    function Neighbours(c: Cell): (r: seq<Cell>)
      requires InGrid(c)
      ensures forall k :: 0 <= k < |r| ==> InGrid(r[k])
      ensures InBox(c) ==> forall k :: 0 <= k < |r| ==> InBox(r[k])
    {
      OnScale(c) +
      (if c.scale > minScale then [Cell(c.x, c.y, c.scale - 1)] else []) +
      (if c.scale < End() - 1 then [Cell(c.x, c.y, c.scale + 1)] else [])
    }

    /** The neighbours of a cell on its own scale. */
    function OnScale(c: Cell): (r: seq<Cell>)
      requires InGrid(c)
      ensures forall k :: 0 <= k < |r| ==> InGrid(r[k])
      ensures InBox(c) ==> forall k :: 0 <= k < |r| ==> InBox(r[k])
    {
      (if c.x > xBorder then [Cell(c.x - 1, c.y, c.scale)] else []) +
      (if c.x < width - xBorder - 1 then [Cell(c.x + 1, c.y, c.scale)] else []) +
      (if c.y > yBorder then [Cell(c.x, c.y - 1, c.scale)] else []) +
      (if c.y < height - yBorder - 1 then [Cell(c.x, c.y + 1, c.scale)] else [])
    }

    /** A path from the seed through neighbours that pass and were not marked. */
    ghost predicate Path(was: set<Cell>, seed: Cell, path: seq<Cell>)
    {
      |path| > 0 && path[0] == seed && (forall i {:trigger path[i]} :: 0 <= i < |path| ==> InGrid(path[i])) &&
      forall i {:trigger PathStep(was, path, i)} :: 0 < i < |path| ==> PathStep(was, path, i)
    }

    ghost predicate PathStep(was: set<Cell>, path: seq<Cell>, i: int)
      requires 0 < i < |path|
    {
      InGrid(path[i - 1]) && InGrid(path[i]) && path[i] in Neighbours(path[i - 1]) && Passes(path[i]) && path[i] !in was
    }

    ghost predicate Reachable(was: set<Cell>, seed: Cell, c: Cell)
    {
      exists path: seq<Cell> :: Path(was, seed, path) && path[|path| - 1] == c
    }

    /** All marked cells of a mask. */
    ghost predicate Shows(mask: array3<bool>, marks: set<Cell>)
      reads mask
    {
      mask.Length0 == nScales && mask.Length1 == height && mask.Length2 == width &&
      (forall c: Cell {:trigger c in marks} :: c in marks ==> InGrid(c)) &&
      forall s: nat, y: nat, x: nat {:trigger mask[s, y, x]} :: s < nScales && y < height && x < width ==>
        (mask[s, y, x] <==> Cell(x, y, s) in marks)
    }

    /** The cells that structures consist of. */
    ghost predicate Eligible(c: Cell)
    {
      InBox(c) && Passes(c)
    }

    /** A cell that a flood fill adds. */
    ghost predicate Added(was: set<Cell>, seed: Cell, c: Cell)
    {
      InGrid(c) && Reachable(was, seed, c)
    }

    /** The cells looked at and those that wait on the stack are the cells added to the mask. */
    ghost predicate Flooding(was: set<Cell>, seed: Cell, looked: set<Cell>, todo: seq<Cell>, marks: set<Cell>)
    {
      marks == was + looked + Members(todo) && (seed in looked || seed in todo) && NoRepeats(todo) &&
      (forall c {:trigger c in todo} :: c in todo ==> c !in looked) &&
      forall c {:trigger Added(was, seed, c)} :: c in looked || c in todo ==> Added(was, seed, c)
    }

    /** All neighbours of the cells that pass are marked. */
    ghost predicate Closed(looked: set<Cell>, marks: set<Cell>)
    {
      forall c {:trigger c in looked} :: c in looked ==> InGrid(c) && Surrounded(c, marks, |Neighbours(c)|)
    }

    /** The first k neighbours are marked if they pass. */
    ghost predicate Surrounded(c: Cell, marks: set<Cell>, k: int)
      requires InGrid(c)
    {
      k <= |Neighbours(c)| && forall i {:trigger Neighbours(c)[i]} :: 0 <= i < k ==> Passes(Neighbours(c)[i]) ==>
          Neighbours(c)[i] in marks
    }

    function Grid(): (r: set<Cell>) {
      set x: nat, y: nat, s: nat | x < width && y < height && s < nScales :: Cell(x, y, s)
    }
  }

  ghost function Members(todo: seq<Cell>): set<Cell> { set c <- todo }

  ghost predicate NoRepeats(todo: seq<Cell>) {
    forall j, k {:trigger todo[j], todo[k]} :: 0 <= j < k < |todo| ==> todo[j] != todo[k]
  }

  lemma GridIsAll(j: Job, c: Cell)
    ensures j.InGrid(c) <==> c in j.Grid()
  {
  }

  /** A path grows by a neighbour that passes and was not marked. */
  lemma ReachesOneMore(j: Job, was: set<Cell>, seed: Cell, c: Cell, n: Cell)
    requires j.InGrid(c) && j.InGrid(n) && j.Reachable(was, seed, c) && n in j.Neighbours(c) && j.Passes(n) && n !in was
    ensures j.Reachable(was, seed, n)
  {
    var path: seq<Cell> :| j.Path(was, seed, path) && path[|path| - 1] == c;
    var longer := path + [n];
    forall i | 0 < i < |longer| ensures j.PathStep(was, longer, i) {
      if i < |path| {
        assert j.PathStep(was, path, i);
      }
    }
    assert j.Path(was, seed, longer);
  }

  lemma SeedIsReachable(j: Job, was: set<Cell>, seed: Cell)
    requires j.InGrid(seed)
    ensures j.Reachable(was, seed, seed)
  {
    assert j.Path(was, seed, [seed]);
  }

  /** Cells other than the seed are only reached if they were not marked, pass, and lie inside the box of the seed. */
  lemma {:induction false} PathIsNew(j: Job, was: set<Cell>, seed: Cell, path: seq<Cell>)
    requires j.Path(was, seed, path)
    ensures path[|path| - 1] == seed || (path[|path| - 1] !in was && j.Passes(path[|path| - 1]))
    ensures j.InBox(seed) ==> j.InBox(path[|path| - 1])
    decreases |path|
  {
    if |path| > 1 {
      var shorter := path[..|path| - 1];
      assert j.PathStep(was, path, |path| - 1);
      forall i | 0 < i < |shorter| ensures j.PathStep(was, shorter, i) {
        assert j.PathStep(was, path, i);
      }
      PathIsNew(j, was, seed, shorter);
    }
  }

  /** A closed set that holds the seed holds every cell on every path. */
  lemma {:induction false} PathIsLooked(j: Job, was: set<Cell>, seed: Cell, looked: set<Cell>, path: seq<Cell>)
    requires j.Path(was, seed, path) && seed in looked && j.Closed(looked, was + looked)
    ensures path[|path| - 1] in looked
    decreases |path|
  {
    if |path| > 1 {
      var shorter := path[..|path| - 1];
      assert j.PathStep(was, path, |path| - 1);
      forall i | 0 < i < |shorter| ensures j.PathStep(was, shorter, i) {
        assert j.PathStep(was, path, i);
      }
      PathIsLooked(j, was, seed, looked, shorter);
      var c, n := path[|path| - 2], path[|path| - 1];
      var k :| 0 <= k < |j.Neighbours(c)| && j.Neighbours(c)[k] == n;
      assert j.Surrounded(c, was + looked, |j.Neighbours(c)|);
    }
  }

  lemma PopKeeps(j: Job, was: set<Cell>, seed: Cell, looked: set<Cell>, todo: seq<Cell>, marks: set<Cell>)
    requires j.Flooding(was, seed, looked, todo, marks) && todo != []
    ensures var c := todo[|todo| - 1];
            c !in looked && j.Added(was, seed, c) &&
            j.Flooding(was, seed, looked + {c}, todo[..|todo| - 1], marks)
  {
    var c, rest := todo[|todo| - 1], todo[..|todo| - 1];
    assert todo == rest + [c];
    assert Members(todo) == Members(rest) + {c};
    assert c in todo;
    forall d | d in rest ensures d !in looked + {c} {
      var k :| 0 <= k < |rest| && rest[k] == d;
      assert todo[k] != todo[|todo| - 1];
      assert d in todo;
    }
    forall d | d in looked + {c} || d in rest ensures j.Added(was, seed, d) {
      assert d in looked || d in todo;
    }
  }

  lemma PushKeeps(j: Job, was: set<Cell>, seed: Cell, looked: set<Cell>, todo: seq<Cell>, marks: set<Cell>, c: Cell,
          n: Cell)
    requires j.Flooding(was, seed, looked, todo, marks) && c in looked && j.InGrid(c) && j.InGrid(n)
    requires n in j.Neighbours(c) && j.Passes(n) && n !in marks
    ensures j.Flooding(was, seed, looked, todo + [n], marks + {n})
  {
    assert j.Added(was, seed, c);
    ReachesOneMore(j, was, seed, c, n);
    assert Members(todo + [n]) == Members(todo) + {n};
    forall i, k | 0 <= i < k < |todo + [n]| ensures (todo + [n])[i] != (todo + [n])[k] {
      if k == |todo| {
        assert todo[i] in Members(todo);
      }
    }
    forall d | d in looked || d in todo + [n] ensures j.Added(was, seed, d) {
      assert d == n || d in looked || d in todo;
    }
  }

  /** When the stack is empty, exactly the reachable cells have been looked at. */
  lemma FloodDone(j: Job, was: set<Cell>, seed: Cell, looked: set<Cell>, marks: set<Cell>)
    requires j.Flooding(was, seed, looked, [], marks) && j.Closed(looked, marks)
    ensures marks == was + looked
    ensures forall c {:trigger c in looked} :: c in looked <==> j.Added(was, seed, c)
  {
    forall c | j.Added(was, seed, c) ensures c in looked {
      var path: seq<Cell> :| j.Path(was, seed, path) && path[|path| - 1] == c;
      assert marks == was + looked;
      PathIsLooked(j, was, seed, looked, path);
    }
    forall c | c in looked ensures j.Added(was, seed, c) {
    }
  }

  // ----- the flood in terms of positions and scales

  /** One step apart in exactly one of x, y and scale. */
  predicate Adjacent(c: Cell, n: Cell) {
    (NextTo(c.x, n.x) && n.y == c.y && n.scale == c.scale) || (n.x == c.x && NextTo(c.y, n.y) && n.scale == c.scale) ||
    (n.x == c.x && n.y == c.y && NextTo(c.scale, n.scale))
  }

  predicate NextTo(a: nat, b: nat) { a == b + 1 || b == a + 1 }

  /**
   * A cell of a structure: inside the borders, on one of the scales, in the prior mask, and with a coefficient above
   * the threshold of its scale, or for a negative threshold beyond it in either direction.
   */
  ghost predicate Significant(j: Job, c: Cell) {
    j.xBorder <= c.x < j.width - j.xBorder && j.yBorder <= c.y < j.height - j.yBorder &&
    j.minScale <= c.scale < j.endScale && c.scale < j.nScales && j.HasPixel(c) &&
    (j.priorMask.Some? ==> j.priorMask.value[c.y][c.x]) &&
    var coefficient, threshold := j.iuwt[c.scale][c.y][c.x], j.thresholds[c.scale];
    if threshold < 0.0 then Abs(coefficient) > -threshold else coefficient > threshold
  }

  lemma EligibleIs(j: Job, c: Cell)
    ensures j.Eligible(c) <==> Significant(j, c)
  {
  }

  lemma OnScaleAre(j: Job, c: Cell, n: Cell)
    requires j.InBox(c)
    ensures n in j.OnScale(c) <==> j.InBox(n) && Adjacent(c, n) && n.scale == c.scale
  {
    var left := if c.x > j.xBorder then [Cell(c.x - 1, c.y, c.scale)] else [];
    var right := if c.x < j.width - j.xBorder - 1 then [Cell(c.x + 1, c.y, c.scale)] else [];
    var up := if c.y > j.yBorder then [Cell(c.x, c.y - 1, c.scale)] else [];
    var low := if c.y < j.height - j.yBorder - 1 then [Cell(c.x, c.y + 1, c.scale)] else [];
    assert j.OnScale(c) == left + right + up + low;
    assert n in j.OnScale(c) <==> n in left || n in right || n in up || n in low;
  }

  /** A flood looks from a cell inside the borders and scales at exactly the adjacent cells inside them. */
  lemma NeighboursAre(j: Job, c: Cell, n: Cell)
    requires j.InBox(c)
    ensures n in j.Neighbours(c) <==> j.InBox(n) && Adjacent(c, n)
  {
    OnScaleAre(j, c, n);
    var down := if c.scale > j.minScale then [Cell(c.x, c.y, c.scale - 1)] else [];
    var up := if c.scale < j.End() - 1 then [Cell(c.x, c.y, c.scale + 1)] else [];
    assert n in j.Neighbours(c) <==> n in j.OnScale(c) || n in down || n in up;
  }

  /** The set holds every new cell of a structure that is adjacent to one of its cells. */
  ghost predicate ClosedUnder(j: Job, was: set<Cell>, s: set<Cell>) {
    forall c, n {:trigger c in s, Adjacent(c, n)} ::
      c in s && Adjacent(c, n) && Significant(j, n) && n !in was ==> n in s
  }

  /** The smallest set that holds the seed and every new cell of a structure that is adjacent to one of its cells. */
  ghost predicate IsFlood(j: Job, was: set<Cell>, seed: Cell, s: set<Cell>) {
    seed in s && ClosedUnder(j, was, s) &&
    forall t: set<Cell> {:trigger ClosedUnder(j, was, t)} :: seed in t && ClosedUnder(j, was, t) ==> s <= t
  }

  lemma {:induction false} PathStaysInside(j: Job, was: set<Cell>, seed: Cell, path: seq<Cell>, t: set<Cell>)
    requires j.Path(was, seed, path) && j.InBox(seed) && seed in t && ClosedUnder(j, was, t)
    ensures path[|path| - 1] in t && j.InBox(path[|path| - 1])
    decreases |path|
  {
    if |path| > 1 {
      var shorter := path[..|path| - 1];
      assert j.PathStep(was, path, |path| - 1);
      forall i | 0 < i < |shorter| ensures j.PathStep(was, shorter, i) {
        assert j.PathStep(was, path, i);
      }
      PathStaysInside(j, was, seed, shorter, t);
      NeighboursAre(j, path[|path| - 2], path[|path| - 1]);
      EligibleIs(j, path[|path| - 1]);
    }
  }

  /** From a seed inside the borders, what paths reach is the smallest set that adjacency closes. */
  lemma ReachedIsFlood(j: Job, was: set<Cell>, seed: Cell, looked: set<Cell>)
    requires j.InBox(seed) && forall c {:trigger c in looked} :: c in looked <==> j.Added(was, seed, c)
    ensures IsFlood(j, was, seed, looked)
  {
    SeedIsReachable(j, was, seed);
    assert j.Added(was, seed, seed);
    forall c, n | c in looked && Adjacent(c, n) && Significant(j, n) && n !in was ensures n in looked {
      EligibleIs(j, n);
      var path: seq<Cell> :| j.Path(was, seed, path) && path[|path| - 1] == c;
      PathIsNew(j, was, seed, path);
      NeighboursAre(j, c, n);
      ReachesOneMore(j, was, seed, c, n);
      assert j.Added(was, seed, n);
    }
    forall t: set<Cell>, c | seed in t && ClosedUnder(j, was, t) && c in looked ensures c in t {
      var path: seq<Cell> :| j.Path(was, seed, path) && path[|path| - 1] == c;
      PathStaysInside(j, was, seed, path, t);
    }
  }

  lemma ClosedGrows(j: Job, looked: set<Cell>, marks: set<Cell>, more: set<Cell>)
    requires j.Closed(looked, marks) && marks <= more
    ensures j.Closed(looked, more)
  {
    forall c | c in looked ensures j.InGrid(c) && j.Surrounded(c, more, |j.Neighbours(c)|) {
      assert j.Surrounded(c, marks, |j.Neighbours(c)|);
    }
  }

  /** Marks a cell. */
  method Mark(j: Job, mask: array3<bool>, n: Cell, ghost marks: set<Cell>)
    requires j.InGrid(n) && j.Shows(mask, marks)
    modifies mask
    ensures j.Shows(mask, marks + {n})
  {
    mask[n.scale, n.y, n.x] := true;
  }

  /**
   * Looks at the neighbours of a cell taken from the stack: those that pass and are not marked are marked and put
   * on the stack.
   */
  method LookAround(j: Job, mask: array3<bool>, c: Cell, todo: seq<Cell>, ghost was: set<Cell>, ghost seed: Cell,
          ghost looked: set<Cell>, ghost marks: set<Cell>)
    returns (todo': seq<Cell>, ghost marks': set<Cell>)
    requires j.Valid() && j.InGrid(c) && j.Shows(mask, marks) && j.Flooding(was, seed, looked, todo, marks)
    requires c in looked && j.Closed(looked - {c}, marks)
    modifies mask
    ensures j.Shows(mask, marks') && j.Flooding(was, seed, looked, todo', marks') && j.Closed(looked, marks')
  {
    todo', marks' := todo, marks;
    var neighbours := j.Neighbours(c);
    for k := 0 to |neighbours|
      invariant j.Shows(mask, marks') && j.Flooding(was, seed, looked, todo', marks')
      invariant j.Closed(looked - {c}, marks') && j.Surrounded(c, marks', k)
    {
      var n := neighbours[k];
      if j.Passes(n) && !mask[n.scale, n.y, n.x] {
        PushKeeps(j, was, seed, looked, todo', marks', c, n);
        ClosedGrows(j, looked - {c}, marks', marks' + {n});
        Mark(j, mask, n, marks');
        todo', marks' := todo' + [n], marks' + {n};
      }
    }
    forall d | d in looked ensures j.InGrid(d) && j.Surrounded(d, marks', |j.Neighbours(d)|) {
      assert d != c ==> d in looked - {c};
    }
  }

  /** A flood fill between two cells taken from the stack. */
  ghost predicate FloodState(j: Job, mask: array3<bool>, was: set<Cell>, seed: Cell, looked: set<Cell>, todo: seq<Cell>)
    reads mask
  {
    var marks := was + looked + Members(todo);
    j.Shows(mask, marks) && j.Flooding(was, seed, looked, todo, marks) && j.Closed(looked, marks) && looked <= j.Grid()
  }

  /** Takes a cell from the stack and looks around it. */
  method LookAtTop(j: Job, mask: array3<bool>, todo: seq<Cell>, ghost was: set<Cell>, ghost seed: Cell,
          ghost looked: set<Cell>)
    returns (todo': seq<Cell>, ghost looked': set<Cell>)
    requires j.Valid() && todo != [] && FloodState(j, mask, was, seed, looked, todo)
    modifies mask
    ensures FloodState(j, mask, was, seed, looked', todo') && |looked'| == |looked| + 1 <= |j.Grid()|
  {
    ghost var marks := was + looked + Members(todo);
    PopKeeps(j, was, seed, looked, todo, marks);
    var c := todo[|todo| - 1];
    looked' := looked + {c};
    assert looked' - {c} == looked;
    GridIsAll(j, c);
    SubsetSize(looked', j.Grid());
    todo', marks := LookAround(j, mask, c, todo[..|todo| - 1], was, seed, looked', marks);
    assert marks == was + looked' + Members(todo');
  }

  lemma FloodStarts(j: Job, was: set<Cell>, seed: Cell)
    requires j.InGrid(seed)
    ensures j.Flooding(was, seed, {}, [seed], was + {seed}) && j.Closed({}, was + {seed}) &&
            was + {seed} == was + {} + Members([seed])
  {
    SeedIsReachable(j, was, seed);
  }

  /** Floodfill and, with a prior mask, MaskedFloodfill: adds exactly the reachable cells, and counts them. */
  method Floodfill(j: Job, mask: array3<bool>, component: Cell, ghost was: set<Cell>)
          returns (areaSize: nat, ghost looked: set<Cell>)
    requires j.Valid() && j.InGrid(component) && j.Shows(mask, was)
    modifies mask
    ensures j.Shows(mask, was + looked) && areaSize == |looked|
    ensures forall c {:trigger c in looked} :: c in looked <==> j.Added(was, component, c)
    ensures j.InBox(component) ==> IsFlood(j, was, component, looked)
  {
    areaSize := 0;
    looked := {};
    var todo := [component];
    FloodStarts(j, was, component);
    Mark(j, mask, component, was);
    while todo != []
      invariant FloodState(j, mask, was, component, looked, todo) && areaSize == |looked|
      decreases |j.Grid()| - |looked|
    {
      todo, looked := LookAtTop(j, mask, todo, was, component, looked);
      areaSize := areaSize + 1;
    }
    FloodDone(j, was, component, looked, was + looked + Members([]));
    if j.InBox(component) {
      ReachedIsFlood(j, was, component, looked);
    }
  }

  // ----- the scan

  /** The cells before (scale, y, x) in the order of the scan. */
  predicate Before(c: Cell, scale: int, y: int, x: int) {
    c.scale < scale || (c.scale == scale && (c.y < y || (c.y == y && c.x < x)))
  }

  /** What the scan selected: eligible cells that were not marked. */
  ghost predicate Selects(j: Job, was: set<Cell>, selected: set<Cell>) {
    forall c {:trigger c in selected} :: c in selected ==> j.Eligible(c) && c !in was
  }

  /** All eligible cells before the current one are marked. */
  ghost predicate Covers(j: Job, marks: set<Cell>, scale: int, y: int, x: int) {
    forall c {:trigger j.Eligible(c)} :: j.Eligible(c) && Before(c, scale, y, x) ==> c in marks
  }

  /** During the scan: the mask shows the marks from before and the cells selected so far. */
  ghost predicate Selecting(j: Job, mask: array3<bool>, was: set<Cell>, selected: set<Cell>, scale: int, y: int, x: int)
    reads mask
  {
    var marks := was + selected;
    j.Shows(mask, marks) && Selects(j, was, selected) && Covers(j, marks, scale, y, x)
  }

  /** Flooding from an eligible cell that is not marked selects only eligible cells that are not marked. */
  lemma FloodSelects(j: Job, was: set<Cell>, selected: set<Cell>, looked: set<Cell>, seed: Cell)
    requires Selects(j, was, selected) && j.Eligible(seed) && seed !in was + selected
    requires forall c {:trigger c in looked} :: c in looked <==> j.Added(was + selected, seed, c)
    ensures Selects(j, was, selected + looked) && seed in looked && selected !! looked
  {
    SeedIsReachable(j, was + selected, seed);
    assert j.Added(was + selected, seed, seed);
    forall c | c in looked ensures j.Eligible(c) && c !in was + selected {
      var path: seq<Cell> :| j.Path(was + selected, seed, path) && path[|path| - 1] == c;
      PathIsNew(j, was + selected, seed, path);
    }
  }

  lemma CoverNext(j: Job, marks: set<Cell>, more: set<Cell>, c: Cell)
    requires Covers(j, marks, c.scale, c.y, c.x) && marks <= more && (j.Eligible(c) ==> c in more)
    ensures Covers(j, more, c.scale, c.y, c.x + 1)
  {
    forall d | j.Eligible(d) && Before(d, c.scale, c.y, c.x + 1) ensures d in more {
      if d != c {
        assert Before(d, c.scale, c.y, c.x);
      }
    }
  }

  /** Looks at one cell of the scan. */
  method ScanCell(j: Job, mask: array3<bool>, c: Cell, ghost was: set<Cell>, ghost selected: set<Cell>)
          returns (subAreaSize: nat, ghost selected': set<Cell>)
    requires j.Valid() && j.InBox(c) && Selecting(j, mask, was, selected, c.scale, c.y, c.x)
    modifies mask
    ensures Selecting(j, mask, was, selected', c.scale, c.y, c.x + 1) && |selected'| == |selected| + subAreaSize
  {
    subAreaSize, selected' := 0, selected;
    if j.Passes(c) && !mask[c.scale, c.y, c.x] {
      ghost var looked: set<Cell>;
      subAreaSize, looked := Floodfill(j, mask, c, was + selected);
      FloodSelects(j, was, selected, looked, c);
      assert was + selected + looked == was + (selected + looked);
      selected' := selected + looked;
    }
    CoverNext(j, was + selected, was + selected', c);
  }

  method ScanRow(j: Job, mask: array3<bool>, scale: nat, y: nat, ghost was: set<Cell>,
          ghost selected: set<Cell>) returns (rowArea: nat, ghost selected': set<Cell>)
    requires j.Valid() && j.minScale <= scale < j.End() && j.yBorder <= y < j.height - j.yBorder
    requires Selecting(j, mask, was, selected, scale, y, j.xBorder)
    modifies mask
    ensures Selecting(j, mask, was, selected', scale, y + 1, j.xBorder) && |selected'| == |selected| + rowArea
  {
    rowArea, selected' := 0, selected;
    var x := j.xBorder;
    while x != j.width - j.xBorder
      invariant j.xBorder <= x <= j.width - j.xBorder && |selected'| == |selected| + rowArea
      invariant Selecting(j, mask, was, selected', scale, y, x)
    {
      var subAreaSize;
      subAreaSize, selected' := ScanCell(j, mask, Cell(x, y, scale), was, selected');
      rowArea := rowArea + subAreaSize;
      x := x + 1;
    }
    NextScanRow(j, was + selected', scale, y);
  }

  /** SelectStructures: the mask gets exactly the eligible cells, and areaSize is the number of those that are new. */
  method SelectStructures(j: Job, mask: array3<bool>, ghost was: set<Cell>)
          returns (areaSize: nat, ghost selected: set<Cell>)
    requires j.Valid() && j.minScale <= j.endScale <= j.nScales && j.Shows(mask, was)
    modifies mask
    ensures j.Shows(mask, was + selected) && areaSize == |selected|
    ensures forall c {:trigger c in selected} :: c in selected <==> Significant(j, c) && c !in was
  {
    areaSize, selected := 0, {};
    assert was + selected == was;
    var scale := j.minScale;
    while scale != j.endScale
      invariant j.minScale <= scale <= j.endScale && areaSize == |selected|
      invariant Selecting(j, mask, was, selected, scale, j.yBorder, j.xBorder)
    {
      var scaleArea;
      scaleArea, selected := ScanScale(j, mask, scale, was, selected);
      areaSize := areaSize + scaleArea;
      scale := scale + 1;
    }
    ScanDone(j, was, selected);
  }

  method ScanScale(j: Job, mask: array3<bool>, scale: nat, ghost was: set<Cell>, ghost selected: set<Cell>)
          returns (scaleArea: nat, ghost selected': set<Cell>)
    requires j.Valid() && j.minScale <= scale < j.End() &&
             Selecting(j, mask, was, selected, scale, j.yBorder, j.xBorder)
    modifies mask
    ensures Selecting(j, mask, was, selected', scale + 1, j.yBorder, j.xBorder) && |selected'| == |selected| + scaleArea
  {
    scaleArea, selected' := 0, selected;
    var y := j.yBorder;
    while y != j.height - j.yBorder
      invariant j.yBorder <= y <= j.height - j.yBorder && |selected'| == |selected| + scaleArea
      invariant Selecting(j, mask, was, selected', scale, y, j.xBorder)
    {
      var rowArea;
      rowArea, selected' := ScanRow(j, mask, scale, y, was, selected');
      scaleArea := scaleArea + rowArea;
      y := y + 1;
    }
    NextScanScale(j, was + selected', scale);
  }

  lemma NextScanRow(j: Job, marks: set<Cell>, scale: int, y: int)
    requires Covers(j, marks, scale, y, j.width - j.xBorder)
    ensures Covers(j, marks, scale, y + 1, j.xBorder)
  {
  }

  lemma NextScanScale(j: Job, marks: set<Cell>, scale: int)
    requires Covers(j, marks, scale, j.height - j.yBorder, j.xBorder)
    ensures Covers(j, marks, scale + 1, j.yBorder, j.xBorder)
  {
  }

  lemma ScanDone(j: Job, was: set<Cell>, selected: set<Cell>)
    requires j.minScale <= j.endScale <= j.nScales && Selects(j, was, selected) &&
             Covers(j, was + selected, j.endScale, j.yBorder, j.xBorder)
    ensures forall c {:trigger c in selected} :: c in selected <==> Significant(j, c) && c !in was
  {
    forall c ensures c in selected <==> Significant(j, c) && c !in was {
      EligibleIs(j, c);
    }
  }
}
