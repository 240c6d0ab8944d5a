/**
 * The splitter of math/dijkstrasplitter.h: a search that marks a cheapest dividing path in an
 * image buffer.  Buffers are indexed [y, x]; `path` has the narrower stride of the strip.
 */
module DijkstraSplitter {
  import opened Common
  import opened DividingPath

  /** The buffers hold what is known of a pixel: its distance, or FLOAT_MAX, and its predecessor. */
  ghost predicate Stored(s: Strip, q: Search, output: array2<real>, path: array2<Coord>, c: Coord)
    requires s.Valid() && output.Length0 == s.height && output.Length1 == s.width && s.Contains(c)
    requires s.axis.Vertical? ==> path.Length0 == s.height && path.Length1 == s.hi - s.lo
    requires s.axis.Horizontal? ==> path.Length0 == s.hi - s.lo && path.Length1 == s.width
    reads output, path
  {
    output[c.y, c.x] == (if c in q.done then q.done[c].dist else FLOAT_MAX) &&
    (c in q.done ==>
       q.done[c].from == if s.axis.Vertical? then path[c.y, c.x - s.lo] else path[c.y - s.lo, c.x])
  }

  ghost predicate StripStored(s: Strip, q: Search, output: array2<real>, path: array2<Coord>)
    requires s.Valid() && output.Length0 == s.height && output.Length1 == s.width
    requires s.axis.Vertical? ==> path.Length0 == s.height && path.Length1 == s.hi - s.lo
    requires s.axis.Horizontal? ==> path.Length0 == s.hi - s.lo && path.Length1 == s.width
    reads output, path
  {
    forall c {:trigger Stored(s, q, output, path, c)} :: s.Contains(c) ==> Stored(s, q, output, path, c)
  }

  /** The buffer shows exactly the given pixels of the strip as 1 and its other pixels as 0. */
  ghost predicate Marks(s: Strip, output: array2<real>, p: seq<Coord>)
    requires output.Length0 == s.height && output.Length1 == s.width
    requires s.Valid()
    reads output
  {
    forall c :: s.Contains(c) ==> output[c.y, c.x] == if c in p then 1.0 else 0.0
  }

  twostate predicate KeptOutside(s: Strip, output: array2<real>)
    requires output.Length0 == s.height && output.Length1 == s.width
    reads output
  {
    forall x: nat, y: nat :: x < s.width && y < s.height && !s.Contains(Coord(x, y)) ==>
      output[y, x] == old(output[y, x])
  }

  /** The walk behind a settled pixel can be extended by one predecessor without changing its total. */
  lemma TraceStep(s: Strip, q: Search, c: Coord, tail: seq<Coord>)
    requires s.Valid() && AllSettledWell(s, q) && c in q.done && s.ReachesEnd([c] + tail) && s.Along(c) > 0
    ensures var b := q.done[c].from;
            b in q.done && q.done[b].rank < q.done[c].rank && s.ReachesEnd([b] + ([c] + tail)) &&
            q.done[b].dist + s.PathCost([b] + ([c] + tail)) - s.Cost(b) ==
                q.done[c].dist + s.PathCost([c] + tail) - s.Cost(c)
  {
    assert SettledWell(s, q, c);
    var b := q.done[c].from;
    assert SettledWell(s, q, b);
    assert ([b] + ([c] + tail))[1..] == [c] + tail;
    assert ([c] + tail)[0] == c;
    StepBack(s, b, c, tail);
  }

  /** A walk followed back from the end to pixel c, whose distance and the rest of the walk make up the given total. */
  ghost predicate Traced(s: Strip, q: Search, total: real, c: Coord, tail: seq<Coord>)
    requires s.Valid()
  {
    c in q.done && s.ReachesEnd([c] + tail) && q.done[c].dist + s.PathCost([c] + tail) == total + s.Cost(c)
  }

  lemma TraceNext(s: Strip, q: Search, total: real, c: Coord, tail: seq<Coord>)
    requires s.Valid() && AllSettledWell(s, q) && Traced(s, q, total, c, tail)
    ensures s.Contains(c)
    ensures s.Along(c) > 0 ==>
              var b := q.done[c].from; Traced(s, q, total, b, [c] + tail) && q.done[b].rank < q.done[c].rank
  {
    assert ([c] + tail)[0] == c;
    if s.Along(c) > 0 {
      TraceStep(s, q, c, tail);
    }
  }

  /** Marks one pixel of the strip. */
  method Mark(ghost s: Strip, output: array2<real>, c: Coord, ghost tail: seq<Coord>)
    requires s.Valid() && output.Length0 == s.height && output.Length1 == s.width && s.Contains(c) &&
             Marks(s, output, tail)
    modifies output
    ensures Marks(s, output, [c] + tail)
    ensures forall x: nat, y: nat {:trigger output[y, x]} :: x < s.width && y < s.height && Coord(x, y) != c ==>
            output[y, x] == old(output[y, x])
  {
    output[c.y, c.x] := 1.0;
  }

  lemma StepBack(s: Strip, b: Coord, c: Coord, tail: seq<Coord>)
    requires s.ReachesEnd([c] + tail) && s.Contains(b) && s.Step(b, c)
    ensures s.ReachesEnd([b] + ([c] + tail))
  {
    var p := [b] + ([c] + tail);
    forall i | 0 <= i < |p| - 1 ensures s.Step(p[i], p[i + 1]) {
      if i > 0 {
        assert p[i] == ([c] + tail)[i - 1] && p[i + 1] == ([c] + tail)[i];
      }
    }
  }

  /** A traced walk that costs no more than any divider is a cheapest divider. */
  lemma TraceIsCheapest(s: Strip, q: Search, total: real, c: Coord, tail: seq<Coord>)
    requires s.Valid() && AllSettledWell(s, q) && Traced(s, q, total, c, tail) && s.Along(c) == 0
    requires forall p :: s.Divides(p) ==> total <= s.PathCost(p)
    ensures s.Cheapest([c] + tail)
  {
    assert SettledWell(s, q, c);
    assert ([c] + tail)[1..] == tail && ([c] + tail)[0] == c;
  }

  /** Followed back to the first line, a traced walk becomes a dividing path of the given total. */
  lemma {:induction false} TraceDivides(s: Strip, q: Search, total: real, c: Coord, tail: seq<Coord>)
    returns (p: seq<Coord>)
    requires s.Valid() && AllSettledWell(s, q) && Traced(s, q, total, c, tail)
    ensures s.Divides(p) && s.PathCost(p) == total
    decreases q.done[c].rank
  {
    TraceNext(s, q, total, c, tail);
    if s.Along(c) > 0 {
      p := TraceDivides(s, q, total, q.done[c].from, [c] + tail);
    } else {
      assert SettledWell(s, q, c);
      assert ([c] + tail)[0] == c;
      p := [c] + tail;
    }
  }

  /**
   * A visit leaves the strip only if some dividing path is not too far; so the search succeeds exactly in that
   * case.
   */
  lemma LeavesOnlyIfFeasible(s: Strip, q: Search, v: Visit)
    requires s.Valid() && Inv(s, q) && v in q.queue && s.Along(v.to) == s.Length()
    ensures s.Feasible()
  {
    assert VisitWell(s, q, v) && SettledWell(s, q, v.from);
    assert [v.from] + [] == [v.from];
    var p := TraceDivides(s, q, v.distance, v.from, []);
  }

  /** Sets a rectangle given by all rows and xStart <= x < xEnd. */
  method FillColumns(output: array2<real>, xStart: nat, xEnd: nat, newValue: real)
    requires xStart <= xEnd <= output.Length1
    modifies output
    ensures forall x, y :: 0 <= x < output.Length1 && 0 <= y < output.Length0 ==>
              output[y, x] == if xStart <= x < xEnd then newValue else old(output[y, x])
  {
    for y := 0 to output.Length0
      invariant forall x, z :: 0 <= x < output.Length1 && 0 <= z < output.Length0 ==>
        output[z, x] == if z < y && xStart <= x < xEnd then newValue else old(output[z, x])
    {
      for i := xStart to xEnd
        invariant forall x, z :: 0 <= x < output.Length1 && 0 <= z < output.Length0 ==>
          output[z, x] == if (z < y && xStart <= x < xEnd) || (z == y && xStart <= x < i) then newValue
              else old(output[z, x])
      {
        output[y, i] := newValue;
      }
    }
  }

  /** Sets a rectangle given by all columns and yStart <= y < yEnd. */
  method FillRows(output: array2<real>, yStart: nat, yEnd: nat, newValue: real)
    requires yStart <= yEnd <= output.Length0
    modifies output
    ensures forall x, y :: 0 <= x < output.Length1 && 0 <= y < output.Length0 ==>
              output[y, x] == if yStart <= y < yEnd then newValue else old(output[y, x])
  {
    for y := yStart to yEnd
      invariant forall x, z :: 0 <= x < output.Length1 && 0 <= z < output.Length0 ==>
        output[z, x] == if yStart <= z < y then newValue else old(output[z, x])
    {
      for i := 0 to output.Length1
        invariant forall x, z :: 0 <= x < output.Length1 && 0 <= z < output.Length0 ==>
          output[z, x] == if yStart <= z < y || (z == y && x < i) then newValue else old(output[z, x])
      {
        output[y, i] := newValue;
      }
    }
  }

  /** Follows the predecessors from the last line back to the first and marks them. */
  method TraceUp(ghost s: Strip, ghost q: Search, x1: nat, visit: Visit,
                 output: array2<real>, path: array2<Coord>)
    returns (ghost divider: seq<Coord>)
    requires s.Valid() && s.axis.Vertical? && s.lo == x1 && output.Length0 == s.height && output.Length1 == s.width
    requires path.Length0 == s.height && path.Length1 == s.hi - s.lo
    requires forall c {:trigger q.done[c].from} :: s.Contains(c) && c in q.done ==>
             q.done[c].from == path[c.y, c.x - s.lo]
    requires AllSettledWell(s, q) && visit.from in q.done && s.ReachesEnd([visit.from])
    requires q.done[visit.from].dist == visit.distance
    requires forall p :: s.Divides(p) ==> visit.distance <= s.PathCost(p)
    requires Marks(s, output, [])
    modifies output
    ensures s.Cheapest(divider) && Marks(s, output, divider) && KeptOutside(s, output)
  {
    var pCoord := visit.from;
    ghost var tail: seq<Coord> := [];
    assert [pCoord] + tail == [pCoord] && Traced(s, q, visit.distance, pCoord, tail);
    while pCoord.y > 0
      invariant Traced(s, q, visit.distance, pCoord, tail) && Marks(s, output, tail) && KeptOutside(s, output)
      decreases q.done[pCoord].rank
    {
      TraceNext(s, q, visit.distance, pCoord, tail);
      Mark(s, output, pCoord, tail);
      tail := [pCoord] + tail;
      pCoord := path[pCoord.y, pCoord.x - x1];
    }
    TraceNext(s, q, visit.distance, pCoord, tail);
    TraceIsCheapest(s, q, visit.distance, pCoord, tail);
    Mark(s, output, Coord(pCoord.x, 0), tail);
    divider := [pCoord] + tail;
  }

  method Push(visits: multiset<Visit>, v: Visit) returns (r: multiset<Visit>)
    ensures forall u :: u in r <==> u == v || u in visits
  {
    r := visits + multiset{v};
  }

  /** Queues a free visit of every pixel on the first line. */
  method FirstRow(ghost s: Strip, x1: nat, x2: nat) returns (visits: multiset<Visit>)
    requires s.Valid() && s.axis.Vertical? && s.lo == x1 && s.hi == x2 && s.Feasible()
    ensures Inv(s, Search(map[], visits, 0.0)) && visits != multiset{}
  {
    visits := multiset{};
    var x := x1;
    while x != x2
      invariant x1 <= x <= x2
      invariant forall v :: v in visits ==> v.distance == 0.0 && v.from == v.to && x1 <= v.to.x < x2 && v.to.y == 0
      invariant forall a: nat :: x1 <= a < x ==> Visit(0.0, s.At(a, 0), s.At(a, 0)) in visits
    {
      visits := Push(visits, Visit(0.0, Coord(x, 0), Coord(x, 0)));
      x := x + 1;
    }
    InitialInv(s, visits);
    SearchSucceeds(s, Search(map[], visits, 0.0));
  }

  /** Queues the moves out of a pixel: down-left and left, down, down-right and right. */
  method PushDown(visits: multiset<Visit>, ghost s: Strip, x: nat, y: nat, x1: nat, x2: nat, newDistance: real)
    returns (pushed: multiset<Visit>)
    requires s.axis.Vertical? && s.lo == x1 && s.hi == x2 && x1 <= x < x2
    ensures forall u :: u in visits ==> u in pushed
    ensures forall n :: s.Step(Coord(x, y), n) && s.Between(n) ==> Visit(newDistance, n, Coord(x, y)) in pushed
    ensures forall u :: u in pushed ==>
              u in visits || (u.distance == newDistance && u.from == Coord(x, y) && s.Step(Coord(x, y), u.to) &&
                  s.Between(u.to))
  {
    pushed := visits;
    var visit := Visit(newDistance, Coord(x, y), Coord(x, y));
    if x > x1 {
      visit := visit.(to := Coord(x - 1, y + 1));
      pushed := Push(pushed, visit);
      visit := visit.(to := Coord(x - 1, y));
      pushed := Push(pushed, visit);
    }
    visit := visit.(to := Coord(x, y + 1));
    pushed := Push(pushed, visit);
    if x < x2 - 1 {
      visit := visit.(to := Coord(x + 1, y + 1));
      pushed := Push(pushed, visit);
      visit := visit.(to := Coord(x + 1, y));
      pushed := Push(pushed, visit);
    }
    forall n | s.Step(Coord(x, y), n) && s.Between(n) ensures Visit(newDistance, n, Coord(x, y)) in pushed {
      assert n == Coord(n.x, n.y) && (n.y == y || n.y == y + 1);
    }
  }

  /** Stores the distance and the predecessor of a settled pixel. */
  method Store(ghost s: Strip, ghost q: Search, ghost q': Search, output: array2<real>, path: array2<Coord>, x: nat,
          y: nat, px: nat, py: nat,
               distance: real, from: Coord)
    requires s.Valid() && output.Length0 == s.height && output.Length1 == s.width && s.Contains(Coord(x, y))
    requires s.axis.Vertical? ==> path.Length0 == s.height && path.Length1 == s.hi - s.lo && px == x - s.lo && py == y
    requires s.axis.Horizontal? ==> path.Length0 == s.hi - s.lo && path.Length1 == s.width && px == x && py == y - s.lo
    requires StripStored(s, q, output, path) && Coord(x, y) in q'.done && q'.done[Coord(x, y)].dist == distance &&
             q'.done[Coord(x, y)].from == from
    requires forall c {:trigger c in q'.done} :: c != Coord(x, y) ==>
             (c in q'.done <==> c in q.done) && (c in q.done ==> q'.done[c] == q.done[c])
    modifies output, path
    ensures StripStored(s, q', output, path) && KeptOutside(s, output)
  {
    output[y, x] := distance;
    path[py, px] := from;
    forall c | s.Contains(c) ensures Stored(s, q', output, path, c) {
      assert old(Stored(s, q, output, path, c));
      assert c == Coord(c.x, c.y);
    }
  }

  lemma StillStored(s: Strip, q: Search, q': Search, output: array2<real>, path: array2<Coord>)
    requires s.Valid() && output.Length0 == s.height && output.Length1 == s.width && q'.done == q.done
    requires s.axis.Vertical? ==> path.Length0 == s.height && path.Length1 == s.hi - s.lo
    requires s.axis.Horizontal? ==> path.Length0 == s.hi - s.lo && path.Length1 == s.width
    requires StripStored(s, q, output, path)
    ensures StripStored(s, q', output, path)
  {
    forall c | s.Contains(c) ensures Stored(s, q', output, path, c) {
      assert Stored(s, q, output, path, c);
    }
  }

  /** One iteration of the search on a visit that has not left the strip. */
  method VisitDown(image: Picture, output: array2<real>, path: array2<Coord>, x1: nat, x2: nat,
                   visit: Visit, visits: multiset<Visit>, ghost s: Strip, ghost q: Search)
    returns (visits': multiset<Visit>, ghost q': Search)
    requires s.Valid() && s.axis.Vertical? && s.lo == x1 && s.hi == x2 && s.image == image
    requires output.Length0 == s.height && output.Length1 == s.width
    requires path.Length0 == s.height && path.Length1 == x2 - x1
    requires s.Feasible() && Inv(s, q) && Nearest(q, visit) && visits == q.queue - multiset{visit}
    requires s.Contains(visit.to) && StripStored(s, q, output, path)
    modifies output, path
    ensures Inv(s, q') && q'.queue == visits' && visits' != multiset{} && StripStored(s, q', output, path) &&
            KeptOutside(s, output)
    ensures |q.done| < |q'.done| <= s.PixelTotal() || (q'.done == q.done && visits' == visits)
  {
    var x, y := visit.to.x, visit.to.y;
    SettledOnce(s, q, visit);
    assert Stored(s, q, output, path, visit.to);
    var curDistance := output[y, x];
    var newDistance := visit.distance + Abs(image[y][x]);
    assert newDistance == visit.distance + s.Cost(visit.to);
    if newDistance < curDistance {
      visits' := PushDown(visits, s, x, y, x1, x2, newDistance);
      SettleKeeps(s, q, visit, visits');
      q' := Settle(s, q, visit, visits');
      Store(s, q, q', output, path, x, y, x - x1, y, newDistance, visit.from);
    } else {
      visits' := visits;
      PopKeeps(s, q, visit);
      q' := Search(q.done, visits, visit.distance);
      StillStored(s, q, q', output, path);
    }
    SearchSucceeds(s, q');
  }

  /** Pops visits until one has left the strip; that visit comes from the end of a cheapest divider. */
  method SearchDown(image: Picture, output: array2<real>, path: array2<Coord>, x1: nat, x2: nat,
         first: multiset<Visit>, ghost s: Strip)
    returns (visit: Visit, ghost q: Search)
    requires s.Valid() && s.axis.Vertical? && s.lo == x1 && s.hi == x2 && s.image == image
    requires output.Length0 == s.height && output.Length1 == s.width
    requires path.Length0 == s.height && path.Length1 == x2 - x1
    requires s.Feasible() && Inv(s, Search(map[], first, 0.0)) && first != multiset{}
    requires StripStored(s, Search(map[], first, 0.0), output, path)
    modifies output, path
    ensures AllSettledWell(s, q) && visit.from in q.done && s.ReachesEnd([visit.from])
    ensures q.done[visit.from].dist == visit.distance
    ensures forall p :: s.Divides(p) ==> visit.distance <= s.PathCost(p)
    ensures forall c {:trigger q.done[c].from} :: s.Contains(c) && c in q.done ==>
            q.done[c].from == path[c.y, c.x - s.lo]
    ensures KeptOutside(s, output)
  {
    var visits := first;
    q := Search(map[], first, 0.0);
    visit := Visit(0.0, Coord(0, 0), Coord(0, 0));
    while visits != multiset{}
      invariant Inv(s, q) && q.queue == visits && visits != multiset{}
      invariant StripStored(s, q, output, path) && KeptOutside(s, output)
      decreases s.PixelTotal() - |q.done|, |visits|
    {
      NearestExists(visits);
      visit :| visit in visits && forall u :: u in visits ==> visit.distance <= u.distance;
      NearestIsWell(s, q, visit);
      if visit.to.y == output.Length0 {
        break;
      }
      visits, q := VisitDown(image, output, path, x1, x2, visit, visits - multiset{visit}, s, q);
    }
    LastVisit(s, q, visit);
    forall c | s.Contains(c) && c in q.done ensures q.done[c].from == path[c.y, c.x - s.lo] {
      assert Stored(s, q, output, path, c);
    }
  }

  method DivideVertically(image: Picture, output: array2<real>, x1: nat, x2: nat)
    returns (ghost divider: seq<Coord>)
    requires Shaped(image, output.Length1, output.Length0) && 0 < output.Length0
    requires x1 < x2 <= output.Length1
    requires Strip(Vertical, x1, x2, output.Length1, output.Length0, image).Feasible()
    modifies output
    ensures var s := Strip(Vertical, x1, x2, output.Length1, output.Length0, image);
            s.Cheapest(divider) && Marks(s, output, divider) && KeptOutside(s, output)
  {
    ghost var s := Strip(Vertical, x1, x2, output.Length1, output.Length0, image);
    var visit, path, q := SearchColumns(image, output, x1, x2, s);
    FillColumns(output, x1, x2, 0.0);
    divider := TraceUp(s, q, x1, visit, output, path);
  }

  /** The search through the columns from x1 to x2, with a new buffer for the predecessors. */
  method SearchColumns(image: Picture, output: array2<real>, x1: nat, x2: nat, ghost s: Strip)
    returns (visit: Visit, path: array2<Coord>, ghost q: Search)
    requires s == Strip(Vertical, x1, x2, output.Length1, output.Length0, image) && s.Valid() && s.Feasible()
    modifies output
    ensures fresh(path) && path.Length0 == s.height && path.Length1 == x2 - x1
    ensures AllSettledWell(s, q) && visit.from in q.done && s.ReachesEnd([visit.from])
    ensures q.done[visit.from].dist == visit.distance
    ensures forall p :: s.Divides(p) ==> visit.distance <= s.PathCost(p)
    ensures forall c {:trigger q.done[c].from} :: s.Contains(c) && c in q.done ==>
            q.done[c].from == path[c.y, c.x - s.lo]
    ensures KeptOutside(s, output)
  {
    var visits := FirstRow(s, x1, x2);
    path := new Coord[output.Length0, x2 - x1]((_, _) => Coord(0, 0));
    FillColumns(output, x1, x2, FLOAT_MAX);
    visit, q := SearchDown(image, output, path, x1, x2, visits, s);
  }

  /** Follows the predecessors from the last column back to the first and marks them. */
  method TraceLeft(ghost s: Strip, ghost q: Search, y1: nat, visit: Visit,
                 output: array2<real>, path: array2<Coord>)
    returns (ghost divider: seq<Coord>)
    requires s.Valid() && s.axis.Horizontal? && s.lo == y1 && output.Length0 == s.height && output.Length1 == s.width
    requires path.Length0 == s.hi - s.lo && path.Length1 == s.width
    requires forall c {:trigger q.done[c].from} :: s.Contains(c) && c in q.done ==>
             q.done[c].from == path[c.y - s.lo, c.x]
    requires AllSettledWell(s, q) && visit.from in q.done && s.ReachesEnd([visit.from])
    requires q.done[visit.from].dist == visit.distance
    requires forall p :: s.Divides(p) ==> visit.distance <= s.PathCost(p)
    requires Marks(s, output, [])
    modifies output
    ensures s.Cheapest(divider) && Marks(s, output, divider) && KeptOutside(s, output)
  {
    var pCoord := visit.from;
    ghost var tail: seq<Coord> := [];
    assert [pCoord] + tail == [pCoord] && Traced(s, q, visit.distance, pCoord, tail);
    while pCoord.x > 0
      invariant Traced(s, q, visit.distance, pCoord, tail) && Marks(s, output, tail) && KeptOutside(s, output)
      decreases q.done[pCoord].rank
    {
      TraceNext(s, q, visit.distance, pCoord, tail);
      Mark(s, output, pCoord, tail);
      tail := [pCoord] + tail;
      pCoord := path[pCoord.y - y1, pCoord.x];
    }
    TraceNext(s, q, visit.distance, pCoord, tail);
    TraceIsCheapest(s, q, visit.distance, pCoord, tail);
    Mark(s, output, Coord(0, pCoord.y), tail);
    divider := [pCoord] + tail;
  }

  /** Queues a free visit of every pixel on the first line. */
  method FirstColumn(ghost s: Strip, y1: nat, y2: nat) returns (visits: multiset<Visit>)
    requires s.Valid() && s.axis.Horizontal? && s.lo == y1 && s.hi == y2 && s.Feasible()
    ensures Inv(s, Search(map[], visits, 0.0)) && visits != multiset{}
  {
    visits := multiset{};
    var y := y1;
    while y != y2
      invariant y1 <= y <= y2
      invariant forall v :: v in visits ==> v.distance == 0.0 && v.from == v.to && y1 <= v.to.y < y2 && v.to.x == 0
      invariant forall a: nat :: y1 <= a < y ==> Visit(0.0, s.At(a, 0), s.At(a, 0)) in visits
    {
      visits := Push(visits, Visit(0.0, Coord(0, y), Coord(0, y)));
      y := y + 1;
    }
    InitialInv(s, visits);
    SearchSucceeds(s, Search(map[], visits, 0.0));
  }

  /** Queues the moves out of a pixel: right-up and up, right, right-down and down. */
  method PushRight(visits: multiset<Visit>, ghost s: Strip, x: nat, y: nat, y1: nat, y2: nat, newDistance: real)
    returns (pushed: multiset<Visit>)
    requires s.axis.Horizontal? && s.lo == y1 && s.hi == y2 && y1 <= y < y2
    ensures forall u :: u in visits ==> u in pushed
    ensures forall n :: s.Step(Coord(x, y), n) && s.Between(n) ==> Visit(newDistance, n, Coord(x, y)) in pushed
    ensures forall u :: u in pushed ==>
              u in visits || (u.distance == newDistance && u.from == Coord(x, y) && s.Step(Coord(x, y), u.to) &&
                  s.Between(u.to))
  {
    pushed := visits;
    var visit := Visit(newDistance, Coord(x, y), Coord(x, y));
    if y > y1 {
      visit := visit.(to := Coord(x + 1, y - 1));
      pushed := Push(pushed, visit);
      visit := visit.(to := Coord(x, y - 1));
      pushed := Push(pushed, visit);
    }
    visit := visit.(to := Coord(x + 1, y));
    pushed := Push(pushed, visit);
    if y < y2 - 1 {
      visit := visit.(to := Coord(x + 1, y + 1));
      pushed := Push(pushed, visit);
      visit := visit.(to := Coord(x, y + 1));
      pushed := Push(pushed, visit);
    }
    forall n | s.Step(Coord(x, y), n) && s.Between(n) ensures Visit(newDistance, n, Coord(x, y)) in pushed {
      assert n == Coord(n.x, n.y) && (n.x == x || n.x == x + 1);
    }
  }

  /** One iteration of the search on a visit that has not left the strip. */
  method VisitRight(image: Picture, output: array2<real>, path: array2<Coord>, y1: nat, y2: nat,
                   visit: Visit, visits: multiset<Visit>, ghost s: Strip, ghost q: Search)
    returns (visits': multiset<Visit>, ghost q': Search)
    requires s.Valid() && s.axis.Horizontal? && s.lo == y1 && s.hi == y2 && s.image == image
    requires output.Length0 == s.height && output.Length1 == s.width
    requires path.Length0 == y2 - y1 && path.Length1 == s.width
    requires s.Feasible() && Inv(s, q) && Nearest(q, visit) && visits == q.queue - multiset{visit}
    requires s.Contains(visit.to) && StripStored(s, q, output, path)
    modifies output, path
    ensures Inv(s, q') && q'.queue == visits' && visits' != multiset{} && StripStored(s, q', output, path) &&
            KeptOutside(s, output)
    ensures |q.done| < |q'.done| <= s.PixelTotal() || (q'.done == q.done && visits' == visits)
  {
    var x, y := visit.to.x, visit.to.y;
    SettledOnce(s, q, visit);
    assert Stored(s, q, output, path, visit.to);
    var curDistance := output[y, x];
    var newDistance := visit.distance + Abs(image[y][x]);
    assert newDistance == visit.distance + s.Cost(visit.to);
    if newDistance < curDistance {
      visits' := PushRight(visits, s, x, y, y1, y2, newDistance);
      SettleKeeps(s, q, visit, visits');
      q' := Settle(s, q, visit, visits');
      Store(s, q, q', output, path, x, y, x, y - y1, newDistance, visit.from);
    } else {
      visits' := visits;
      PopKeeps(s, q, visit);
      q' := Search(q.done, visits, visit.distance);
      StillStored(s, q, q', output, path);
    }
    SearchSucceeds(s, q');
  }

  /** Pops visits until one has left the strip; that visit comes from the end of a cheapest divider. */
  method SearchRight(image: Picture, output: array2<real>, path: array2<Coord>, y1: nat, y2: nat,
         first: multiset<Visit>, ghost s: Strip)
    returns (visit: Visit, ghost q: Search)
    requires s.Valid() && s.axis.Horizontal? && s.lo == y1 && s.hi == y2 && s.image == image
    requires output.Length0 == s.height && output.Length1 == s.width
    requires path.Length0 == y2 - y1 && path.Length1 == s.width
    requires s.Feasible() && Inv(s, Search(map[], first, 0.0)) && first != multiset{}
    requires StripStored(s, Search(map[], first, 0.0), output, path)
    modifies output, path
    ensures AllSettledWell(s, q) && visit.from in q.done && s.ReachesEnd([visit.from])
    ensures q.done[visit.from].dist == visit.distance
    ensures forall p :: s.Divides(p) ==> visit.distance <= s.PathCost(p)
    ensures forall c {:trigger q.done[c].from} :: s.Contains(c) && c in q.done ==>
            q.done[c].from == path[c.y - s.lo, c.x]
    ensures KeptOutside(s, output)
  {
    var visits := first;
    q := Search(map[], first, 0.0);
    visit := Visit(0.0, Coord(0, 0), Coord(0, 0));
    while visits != multiset{}
      invariant Inv(s, q) && q.queue == visits && visits != multiset{}
      invariant StripStored(s, q, output, path) && KeptOutside(s, output)
      decreases s.PixelTotal() - |q.done|, |visits|
    {
      NearestExists(visits);
      visit :| visit in visits && forall u :: u in visits ==> visit.distance <= u.distance;
      NearestIsWell(s, q, visit);
      if visit.to.x == output.Length1 {
        break;
      }
      visits, q := VisitRight(image, output, path, y1, y2, visit, visits - multiset{visit}, s, q);
    }
    LastVisit(s, q, visit);
    forall c | s.Contains(c) && c in q.done ensures q.done[c].from == path[c.y - s.lo, c.x] {
      assert Stored(s, q, output, path, c);
    }
  }

  method DivideHorizontally(image: Picture, output: array2<real>, y1: nat, y2: nat)
    returns (ghost divider: seq<Coord>)
    requires Shaped(image, output.Length1, output.Length0) && 0 < output.Length1
    requires y1 < y2 <= output.Length0
    requires Strip(Horizontal, y1, y2, output.Length1, output.Length0, image).Feasible()
    modifies output
    ensures var s := Strip(Horizontal, y1, y2, output.Length1, output.Length0, image);
            s.Cheapest(divider) && Marks(s, output, divider) && KeptOutside(s, output)
  {
    ghost var s := Strip(Horizontal, y1, y2, output.Length1, output.Length0, image);
    var visit, path, q := SearchLines(image, output, y1, y2, s);
    FillRows(output, y1, y2, 0.0);
    divider := TraceLeft(s, q, y1, visit, output, path);
  }

  /** The search through the rows from y1 to y2, with a new buffer for the predecessors. */
  method SearchLines(image: Picture, output: array2<real>, y1: nat, y2: nat, ghost s: Strip)
    returns (visit: Visit, path: array2<Coord>, ghost q: Search)
    requires s == Strip(Horizontal, y1, y2, output.Length1, output.Length0, image) && s.Valid() && s.Feasible()
    modifies output
    ensures fresh(path) && path.Length0 == y2 - y1 && path.Length1 == s.width
    ensures AllSettledWell(s, q) && visit.from in q.done && s.ReachesEnd([visit.from])
    ensures q.done[visit.from].dist == visit.distance
    ensures forall p :: s.Divides(p) ==> visit.distance <= s.PathCost(p)
    ensures forall c {:trigger q.done[c].from} :: s.Contains(c) && c in q.done ==>
            q.done[c].from == path[c.y - s.lo, c.x]
    ensures KeptOutside(s, output)
  {
    var visits := FirstColumn(s, y1, y2);
    path := new Coord[y2 - y1, output.Length1]((_, _) => Coord(0, 0));
    FillRows(output, y1, y2, FLOAT_MAX);
    visit, q := SearchRight(image, output, path, y1, y2, visits, s);
  }
}
