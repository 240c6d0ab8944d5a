/**
 * Dividing paths through an image and the abstract state of the search for a cheapest one.
 *
 * A strip is the part of the image between two vertical or two horizontal lines.  Positions in it
 * are image coordinates; `Across` is the coordinate bounded by the two lines, `Along` the one that
 * the dividing path runs through from the first line to the last.
 */
module DividingPath {
  import opened Common
  import opened FiniteSets

  /** The largest finite single-precision value, used by the splitter to mean "not visited". */
  const FLOAT_MAX: real := 340282346638528859811704183484516925440.0

  datatype Coord = Coord(x: nat, y: nat)

  datatype Visit = Visit(distance: real, to: Coord, from: Coord)

  datatype Axis = Vertical | Horizontal

  /** A read-only image as its rows. */
  type Picture = seq<seq<real>>

  predicate Shaped(image: Picture, width: nat, height: nat) {
    |image| == height && forall y :: 0 <= y < height ==> |image[y]| == width
  }

  datatype Strip = Strip(axis: Axis, lo: nat, hi: nat, width: nat, height: nat, image: Picture) {
    predicate Valid() {
      Shaped(image, width, height) && lo < hi && 0 < Length() &&
      hi <= (if axis.Vertical? then width else height)
    }

    function Length(): nat { if axis.Vertical? then height else width }

    function Across(c: Coord): nat { if axis.Vertical? then c.x else c.y }

    function Along(c: Coord): nat { if axis.Vertical? then c.y else c.x }

    function At(across: nat, along: nat): Coord {
      if axis.Vertical? then Coord(across, along) else Coord(along, across)
    }

    predicate Between(c: Coord) { lo <= Across(c) < hi }

    predicate Contains(c: Coord) { Between(c) && Along(c) < Length() }

    /** What a path pays for a pixel; 0 outside the strip. */
    function Cost(c: Coord): (r: real)
      requires Valid()
      ensures r >= 0.0
    {
      if Contains(c) then Abs(image[c.y][c.x]) else 0.0
    }

    /** The moves the search makes: to either side, or one line further with a sideways shift of at most one. */
    predicate Step(a: Coord, b: Coord) {
      (Along(b) == Along(a) && (Across(b) == Across(a) + 1 || Across(a) == Across(b) + 1)) ||
      (Along(b) == Along(a) + 1 && Across(a) <= Across(b) + 1 && Across(b) <= Across(a) + 1)
    }

    /** A walk inside the strip that ends on the last line. */
    ghost predicate ReachesEnd(p: seq<Coord>) {
      |p| > 0 && (forall i :: 0 <= i < |p| ==> Contains(p[i])) &&
      (forall i :: 0 <= i < |p| - 1 ==> Step(p[i], p[i + 1])) &&
      Along(p[|p| - 1]) == Length() - 1
    }

    /** A walk through the whole strip, from the first line to the last. */
    ghost predicate Divides(p: seq<Coord>) {
      ReachesEnd(p) && Along(p[0]) == 0
    }

    ghost function PathCost(p: seq<Coord>): (r: real)
      requires Valid()
      ensures r >= 0.0
    {
      if p == [] then 0.0 else Cost(p[0]) + PathCost(p[1..])
    }

    ghost predicate Cheapest(p: seq<Coord>)
      requires Valid()
    {
      Divides(p) && forall q :: Divides(q) ==> PathCost(p) <= PathCost(q)
    }

    ghost function PixelTotal(): nat { |Pixels(this, Length())| }

    /** Some dividing path costs less than the value that stands for "not visited". */
    ghost predicate Feasible()
      requires Valid()
    {
      exists p :: Divides(p) && PathCost(p) < FLOAT_MAX
    }

    /** A visit of a pixel that does not improve on "not visited". */
    predicate TooFar(distance: real, c: Coord)
      requires Valid()
    {
      Contains(c) && distance + Cost(c) >= FLOAT_MAX
    }
  }

  // ----- counting the pixels of a strip

  ghost function Pixels(s: Strip, lines: nat): set<Coord> {
    set a, b | s.lo <= a < s.hi && 0 <= b < lines :: s.At(a, b)
  }

  lemma AtMostAllPixels(s: Strip, cells: set<Coord>)
    requires s.Valid() && forall c :: c in cells ==> s.Contains(c)
    ensures |cells| <= s.PixelTotal()
  {
    forall c | c in cells ensures c in Pixels(s, s.Length()) {
      assert c == s.At(s.Across(c), s.Along(c));
    }
    SubsetSize(cells, Pixels(s, s.Length()));
  }

  // ----- the abstract search

  /** What is known of a settled pixel: its distance, its predecessor, and how many were settled before it. */
  datatype Settled = Settled(dist: real, from: Coord, rank: nat)

  datatype Search = Search(done: map<Coord, Settled>, queue: multiset<Visit>, level: real)

  ghost predicate SettledWell(s: Strip, q: Search, c: Coord)
    requires s.Valid() && c in q.done
  {
    var i := q.done[c];
    s.Contains(c) && i.rank < |q.done| &&
    s.Cost(c) <= i.dist <= s.Cost(c) + q.level && i.dist < FLOAT_MAX &&
    (s.Along(c) == 0 ==> i.dist == s.Cost(c)) &&
    ((s.Along(c) == 0 && i.from == c) ||
     (i.from in q.done && s.Step(i.from, c) && q.done[i.from].rank < i.rank &&
      i.dist == q.done[i.from].dist + s.Cost(c)))
  }

  ghost predicate VisitWell(s: Strip, q: Search, v: Visit) {
    s.Between(v.to) && s.Along(v.to) <= s.Length() && q.level <= v.distance &&
    ((s.Along(v.to) == 0 && v.from == v.to && v.distance == 0.0) ||
     (v.from in q.done && s.Step(v.from, v.to) && v.distance == q.done[v.from].dist))
  }

  /** The move from a settled pixel to a neighbour is either still queued or has become useless. */
  ghost predicate MoveKnown(s: Strip, q: Search, c: Coord, n: Coord)
    requires s.Valid() && c in q.done
  {
    Visit(q.done[c].dist, n, c) in q.queue ||
    (n in q.done && s.Contains(n) && q.done[n].dist <= q.done[c].dist + s.Cost(n)) || s.TooFar(q.done[c].dist, n)
  }

  ghost predicate StartKnown(s: Strip, q: Search, c: Coord)
    requires s.Valid()
  {
    Visit(0.0, c, c) in q.queue || c in q.done || s.TooFar(0.0, c)
  }

  ghost predicate AllSettledWell(s: Strip, q: Search)
    requires s.Valid()
  {
    forall c {:trigger SettledWell(s, q, c)} :: c in q.done ==> SettledWell(s, q, c)
  }

  /** What every iteration of the search keeps. */
  ghost predicate Inv(s: Strip, q: Search)
    requires s.Valid()
  {
    q.level >= 0.0 &&
    AllSettledWell(s, q) &&
    (forall v {:trigger VisitWell(s, q, v)} :: v in q.queue ==> VisitWell(s, q, v)) &&
    (forall c {:trigger StartKnown(s, q, c)} :: s.Between(c) && s.Along(c) == 0 ==> StartKnown(s, q, c)) &&
    (forall c, n {:trigger MoveKnown(s, q, c, n)} ::
      c in q.done && s.Step(c, n) && s.Between(n) && s.Along(n) <= s.Length() ==>
       MoveKnown(s, q, c, n))
  }

  ghost predicate Nearest(q: Search, v: Visit) {
    v in q.queue && forall u :: u in q.queue ==> v.distance <= u.distance
  }

  lemma InitialInv(s: Strip, visits: multiset<Visit>)
    requires s.Valid()
    requires forall v :: v in visits ==> v.distance == 0.0 && v.from == v.to && s.Between(v.to) && s.Along(v.to) == 0
    requires forall a: nat :: s.lo <= a < s.hi ==> Visit(0.0, s.At(a, 0), s.At(a, 0)) in visits
    ensures Inv(s, Search(map[], visits, 0.0))
  {
    var q := Search(map[], visits, 0.0);
    forall c | s.Between(c) && s.Along(c) == 0 ensures StartKnown(s, q, c) {
      assert c == s.At(s.Across(c), 0);
    }
  }

  lemma NearestIsWell(s: Strip, q: Search, v: Visit)
    requires s.Valid() && Inv(s, q) && v in q.queue && forall u :: u in q.queue ==> v.distance <= u.distance
    ensures Nearest(q, v) && VisitWell(s, q, v)
  {
    assert VisitWell(s, q, v);
  }

  /**
   * A popped visit improves on what is stored exactly when its target has not been settled before and is not too
   * far.
   */
  lemma SettledOnce(s: Strip, q: Search, v: Visit)
    requires s.Valid() && Inv(s, q) && Nearest(q, v) && s.Contains(v.to)
    ensures v.distance + s.Cost(v.to) < (if v.to in q.done then q.done[v.to].dist else FLOAT_MAX) <==>
            v.to !in q.done && !s.TooFar(v.distance, v.to)
    ensures v.to !in q.done ==> |q.done| < s.PixelTotal()
  {
    if v.to in q.done {
      assert SettledWell(s, q, v.to) && VisitWell(s, q, v);
    } else {
      forall c | c in q.done ensures s.Contains(c) { assert SettledWell(s, q, c); }
      AtMostAllPixels(s, q.done.Keys + {v.to});
    }
  }

  lemma PopKeeps(s: Strip, q: Search, v: Visit)
    requires s.Valid() && Inv(s, q) && Nearest(q, v) && s.Contains(v.to)
    requires v.to in q.done || s.TooFar(v.distance, v.to)
    ensures Inv(s, Search(q.done, q.queue - multiset{v}, v.distance))
  {
    var r := Search(q.done, q.queue - multiset{v}, v.distance);
    assert VisitWell(s, q, v);
    forall c | c in r.done ensures SettledWell(s, r, c) {
      assert SettledWell(s, q, c);
    }
    forall u | u in r.queue ensures VisitWell(s, r, u) {
      assert u in q.queue && VisitWell(s, q, u);
    }
    SettledOnce(s, q, v);
    forall c, n | c in r.done && s.Step(c, n) && s.Between(n) && s.Along(n) <= s.Length()
      ensures MoveKnown(s, r, c, n)
    {
      assert MoveKnown(s, q, c, n);
    }
    forall c | s.Between(c) && s.Along(c) == 0 ensures StartKnown(s, r, c) {
      assert StartKnown(s, q, c);
    }
  }

  /** The queue after settling c: what it held without v, and the moves out of c. */
  ghost predicate Pushed(s: Strip, q: multiset<Visit>, v: Visit, c: Coord, dist: real, r: multiset<Visit>) {
    (forall u :: u in q - multiset{v} ==> u in r) &&
    (forall n :: s.Step(c, n) && s.Between(n) ==> Visit(dist, n, c) in r) &&
    (forall u :: u in r ==> u in q || (u.distance == dist && u.from == c && s.Step(c, u.to) && s.Between(u.to)))
  }

  /** The search after settling v.to, given the new queue. */
  ghost function Settle(s: Strip, q: Search, v: Visit, queue: multiset<Visit>): Search
    requires s.Valid() && s.Contains(v.to)
  {
    Search(q.done[v.to := Settled(v.distance + s.Cost(v.to), v.from, |q.done|)], queue, v.distance)
  }

  ghost predicate CanSettle(s: Strip, q: Search, v: Visit, queue: multiset<Visit>) {
    s.Valid() && Inv(s, q) && Nearest(q, v) && s.Contains(v.to) && v.to !in q.done && !s.TooFar(v.distance, v.to) &&
    Pushed(s, q.queue, v, v.to, v.distance + s.Cost(v.to), queue)
  }

  lemma SettledStayWell(s: Strip, q: Search, v: Visit, queue: multiset<Visit>, c: Coord)
    requires CanSettle(s, q, v, queue)
    requires c in q.done || c == v.to
    ensures SettledWell(s, Settle(s, q, v, queue), c)
  {
    var r := Settle(s, q, v, queue);
    assert VisitWell(s, q, v);
    SettledOnce(s, q, v);
    assert |r.done| == |q.done| + 1;
    if c != v.to {
      assert SettledWell(s, q, c);
    } else {
      if s.Along(c) == 0 {
        assert StartKnown(s, q, c);
      }
      if v.from in q.done {
        assert SettledWell(s, q, v.from);
      }
    }
  }

  lemma VisitsStayWell(s: Strip, q: Search, v: Visit, queue: multiset<Visit>, u: Visit)
    requires CanSettle(s, q, v, queue) && u in queue
    ensures VisitWell(s, Settle(s, q, v, queue), u)
  {
    assert VisitWell(s, q, v);
    if u in q.queue {
      assert VisitWell(s, q, u);
    }
  }

  lemma MovesStayKnown(s: Strip, q: Search, v: Visit, queue: multiset<Visit>, c: Coord, n: Coord)
    requires s.Valid() && s.Contains(v.to) && v.to !in q.done && s.Between(n)
    requires Pushed(s, q.queue, v, v.to, v.distance + s.Cost(v.to), queue)
    requires if c == v.to then s.Step(c, n) else c in q.done && MoveKnown(s, q, c, n)
    ensures MoveKnown(s, Settle(s, q, v, queue), c, n)
  {
    if c != v.to {
      var u := Visit(q.done[c].dist, n, c);
      if u in q.queue && u != v {
        assert u in q.queue - multiset{v};
      }
    }
  }

  lemma SettleKeeps(s: Strip, q: Search, v: Visit, queue: multiset<Visit>)
    requires CanSettle(s, q, v, queue)
    ensures Inv(s, Settle(s, q, v, queue))
  {
    var r := Settle(s, q, v, queue);
    assert VisitWell(s, q, v);
    forall c | c in r.done ensures SettledWell(s, r, c) {
      SettledStayWell(s, q, v, queue, c);
    }
    forall u | u in r.queue ensures VisitWell(s, r, u) {
      VisitsStayWell(s, q, v, queue, u);
    }
    forall c, n | c in r.done && s.Step(c, n) && s.Between(n) && s.Along(n) <= s.Length()
      ensures MoveKnown(s, r, c, n)
    {
      if c != v.to {
        assert MoveKnown(s, q, c, n);
      }
      MovesStayKnown(s, q, v, queue, c, n);
    }
    forall c | s.Between(c) && s.Along(c) == 0 ensures StartKnown(s, r, c) {
      assert StartKnown(s, q, c);
    }
  }

  /**
   * For a walk from a settled pixel to the end that is not too far, some queued visit is no more distant than its
   * end.
   */
  lemma {:induction false} WaitsOnWalk(s: Strip, q: Search, p: seq<Coord>) returns (u: Visit)
    requires s.Valid() && Inv(s, q) && s.ReachesEnd(p) && p[0] in q.done
    requires q.done[p[0]].dist + s.PathCost(p[1..]) < FLOAT_MAX
    ensures u in q.queue && u.distance <= q.done[p[0]].dist + s.PathCost(p[1..])
    decreases |p|
  {
    if |p| == 1 {
      var n := s.At(s.Across(p[0]), s.Length());
      assert s.Step(p[0], n);
      assert MoveKnown(s, q, p[0], n);
      u := Visit(q.done[p[0]].dist, n, p[0]);
    } else {
      assert s.Step(p[0], p[1]);
      assert MoveKnown(s, q, p[0], p[1]);
      assert p[1..][1..] == p[2..];
      assert s.PathCost(p[1..]) == s.Cost(p[1]) + s.PathCost(p[2..]);
      u := Visit(q.done[p[0]].dist, p[1], p[0]);
      if u !in q.queue {
        u := WaitsOnWalk(s, q, p[1..]);
      }
    }
  }

  /** For every dividing path that is not too far, some queued visit is no more distant than its end. */
  lemma WaitsOnDivider(s: Strip, q: Search, p: seq<Coord>) returns (u: Visit)
    requires s.Valid() && Inv(s, q) && s.Divides(p) && s.PathCost(p) < FLOAT_MAX
    ensures u in q.queue && u.distance <= s.PathCost(p)
  {
    assert StartKnown(s, q, p[0]);
    u := Visit(0.0, p[0], p[0]);
    if u !in q.queue {
      assert SettledWell(s, q, p[0]);
      u := WaitsOnWalk(s, q, p);
    }
  }

  /** When the nearest visit has left the strip, its distance bounds the cost of every dividing path. */
  lemma NoCheaperDivider(s: Strip, q: Search, v: Visit, p: seq<Coord>)
    requires s.Valid() && Inv(s, q) && Nearest(q, v) && s.Along(v.to) == s.Length() && s.Divides(p)
    ensures v.distance <= s.PathCost(p)
  {
    assert VisitWell(s, q, v) && SettledWell(s, q, v.from);
    if s.PathCost(p) < FLOAT_MAX {
      var u := WaitsOnDivider(s, q, p);
    }
  }

  /** The visit that ends the search comes from the last line, at the cost of a cheapest divider. */
  lemma LastVisit(s: Strip, q: Search, v: Visit)
    requires s.Valid() && Inv(s, q) && Nearest(q, v) && s.Along(v.to) == s.Length()
    ensures AllSettledWell(s, q) && v.from in q.done && s.ReachesEnd([v.from])
    ensures q.done[v.from].dist == v.distance
    ensures forall p :: s.Divides(p) ==> v.distance <= s.PathCost(p)
  {
    assert VisitWell(s, q, v);
    assert SettledWell(s, q, v.from);
    forall p | s.Divides(p) ensures v.distance <= s.PathCost(p) {
      NoCheaperDivider(s, q, v, p);
    }
  }

  /** As long as some dividing path is not too far, the queue does not run dry before a visit has left the strip. */
  lemma SearchSucceeds(s: Strip, q: Search)
    requires s.Valid() && Inv(s, q) && s.Feasible()
    ensures q.queue != multiset{}
  {
    var p :| s.Divides(p) && s.PathCost(p) < FLOAT_MAX;
    var u := WaitsOnDivider(s, q, p);
  }

  lemma {:induction false} NearestAmong(visits: set<Visit>) returns (v: Visit)
    requires visits != {}
    ensures v in visits && forall u :: u in visits ==> v.distance <= u.distance
  {
    v :| v in visits;
    if visits != {v} {
      var w := NearestAmong(visits - {v});
      v := if v.distance <= w.distance then v else w;
    }
  }

  lemma NearestExists(queue: multiset<Visit>)
    requires queue != multiset{}
    ensures exists v :: v in queue && forall u :: u in queue ==> v.distance <= u.distance
  {
    var w :| w in queue;
    var visits := set u | u in queue;
    assert w in visits;
    var v := NearestAmong(visits);
  }

  // ----- the shape of a dividing path

  /** The pixels of a path on one line are exactly those with an across-position in [from, to). */
  ghost predicate Run(s: Strip, p: seq<Coord>, along: nat, from: nat, to: nat) {
    from < to && forall a: nat :: from <= a < to <==> s.At(a, along) in p
  }

  /** The across-positions on one line of the remaining path starting at p[0]. */
  lemma {:induction false} RunOfSuffix(s: Strip, p: seq<Coord>, along: nat) returns (from: nat, to: nat)
    requires s.ReachesEnd(p) && s.Along(p[0]) <= along < s.Length()
    ensures Run(s, p, along, from, to)
    ensures along == s.Along(p[0]) ==> from <= s.Across(p[0]) < to
    ensures forall i :: 0 <= i < |p| ==> s.Along(p[0]) <= s.Along(p[i])
    decreases |p|
  {
    var head := s.Across(p[0]);
    assert p[0] == s.At(head, s.Along(p[0]));
    if |p| == 1 {
      from, to := head, head + 1;
    } else {
      assert s.Step(p[0], p[1]);
      assert forall c :: c in p <==> c == p[0] || c in p[1..];
      if s.Along(p[1]) <= along {
        from, to := RunOfSuffix(s, p[1..], along);
        assert forall i :: 0 < i < |p| ==> p[i] == p[1..][i - 1];
        if along == s.Along(p[0]) {
          from, to := if head < from then head else from, if to <= head then head + 1 else to;
        }
      } else {
        var f, t := RunOfSuffix(s, p[1..], s.Along(p[1]));
        assert forall i :: 0 < i < |p| ==> p[i] == p[1..][i - 1];
        from, to := head, head + 1;
      }
    }
  }

  /** On every line a dividing path occupies one non-empty run of neighbouring pixels inside the strip. */
  lemma DividerRuns(s: Strip, p: seq<Coord>, along: nat) returns (from: nat, to: nat)
    requires s.Divides(p) && along < s.Length()
    ensures s.lo <= from < to <= s.hi && Run(s, p, along, from, to)
  {
    from, to := RunOfSuffix(s, p, along);
    assert s.At(from, along) in p && s.At(to - 1, along) in p;
  }

  // ----- transposition

  function Flip(c: Coord): Coord { Coord(c.y, c.x) }

  function FlipAll(p: seq<Coord>): seq<Coord> { seq(|p|, i requires 0 <= i < |p| => Flip(p[i])) }

  ghost predicate Transposes(a: Strip, b: Strip) {
    a.Valid() && b.Valid() && a.axis != b.axis && a.lo == b.lo && a.hi == b.hi &&
    a.width == b.height && a.height == b.width &&
    forall x, y :: 0 <= x < a.width && 0 <= y < a.height ==> a.image[y][x] == b.image[x][y]
  }

  lemma {:induction false} FlipCost(a: Strip, b: Strip, p: seq<Coord>)
    requires Transposes(a, b) && forall i :: 0 <= i < |p| ==> a.Contains(p[i])
    ensures forall i :: 0 <= i < |p| ==> b.Contains(FlipAll(p)[i])
    ensures b.PathCost(FlipAll(p)) == a.PathCost(p)
    decreases |p|
  {
    if p != [] {
      FlipCost(a, b, p[1..]);
      assert FlipAll(p)[1..] == FlipAll(p[1..]);
      assert forall i :: 0 <= i < |p| ==> a.Contains(p[i]) && FlipAll(p)[i] == Flip(p[i]);
    }
  }

  lemma FlipDivides(a: Strip, b: Strip, p: seq<Coord>)
    requires Transposes(a, b) && a.Divides(p)
    ensures b.Divides(FlipAll(p)) && FlipAll(FlipAll(p)) == p && b.PathCost(FlipAll(p)) == a.PathCost(p)
  {
    FlipCost(a, b, p);
    var f := FlipAll(p);
    forall i | 0 <= i < |f| - 1 ensures b.Step(f[i], f[i + 1]) {
      assert a.Step(p[i], p[i + 1]);
    }
  }

  /** Horizontal dividing is vertical dividing of the transposed image: the same paths are cheapest. */
  lemma CheapestTransposes(a: Strip, b: Strip, p: seq<Coord>)
    requires Transposes(a, b) && a.Cheapest(p)
    ensures b.Cheapest(FlipAll(p))
  {
    FlipDivides(a, b, p);
    forall q | b.Divides(q) ensures b.PathCost(FlipAll(p)) <= b.PathCost(q) {
      FlipDivides(b, a, q);
    }
  }
}
