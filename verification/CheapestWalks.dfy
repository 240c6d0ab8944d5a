/**
 * Cheapest walks through an image in terms of its pixels: what a divider of
 * deconvolution/paralleldeconvolution.cpp is meant to be, whatever strip it is searched in.
 */
module CheapestWalks {
  import opened Common
  import opened DividingPath

  /** One move: to a neighbour on the same row or the next one, for a walk downwards; to the right likewise. */
  predicate Moves(axis: Axis, a: Coord, b: Coord) {
    if axis.Vertical? then
      (b.y == a.y && (b.x == a.x + 1 || b.x + 1 == a.x)) || (b.y == a.y + 1 && a.x <= b.x + 1 && b.x <= a.x + 1)
    else
      (b.x == a.x && (b.y == a.y + 1 || b.y + 1 == a.y)) || (b.x == a.x + 1 && a.y <= b.y + 1 && b.y <= a.y + 1)
  }

  predicate WithinStrip(axis: Axis, width: nat, height: nat, lo: int, hi: int, c: Coord) {
    c.x < width && c.y < height && lo <= (if axis.Vertical? then c.x else c.y) < hi
  }

  /** A walk from the first row or column of the image to the last, between two positions on the other axis. */
  predicate Walk(axis: Axis, width: nat, height: nat, lo: int, hi: int, path: seq<Coord>) {
    |path| > 0 && (forall k :: 0 <= k < |path| ==> WithinStrip(axis, width, height, lo, hi, path[k])) &&
    (forall k {:trigger path[k + 1]} :: 0 <= k < |path| - 1 ==> Moves(axis, path[k], path[k + 1])) &&
    (if axis.Vertical? then path[0].y == 0 && path[|path| - 1].y == height - 1
     else path[0].x == 0 && path[|path| - 1].x == width - 1)
  }

  predicate OnPicture(image: Picture, path: seq<Coord>) {
    forall k :: 0 <= k < |path| ==> path[k].y < |image| && path[k].x < |image[path[k].y]|
  }

  /** The sum of the sizes of the pixels along a path. */
  ghost function AbsTotal(image: Picture, path: seq<Coord>): real
    requires OnPicture(image, path)
  {
    if path == [] then 0.0 else Abs(image[path[0].y][path[0].x]) + AbsTotal(image, path[1..])
  }

  /** A walk between two positions for which this sum is least. */
  ghost predicate CheapestBetween(axis: Axis, image: Picture, width: nat, height: nat, lo: int, hi: int,
                                  path: seq<Coord>)
  {
    Walk(axis, width, height, lo, hi, path) && OnPicture(image, path) &&
    forall other: seq<Coord> {:trigger Walk(axis, width, height, lo, hi, other)} ::
      Walk(axis, width, height, lo, hi, other) ==>
        OnPicture(image, other) && AbsTotal(image, path) <= AbsTotal(image, other)
  }

  lemma WalksDivide(s: Strip, path: seq<Coord>)
    requires s.Valid()
    ensures Walk(s.axis, s.width, s.height, s.lo, s.hi, path) <==> s.Divides(path)
  {
    if s.Divides(path) {
      forall k {:trigger path[k + 1]} | 0 <= k < |path| - 1 ensures Moves(s.axis, path[k], path[k + 1]) {
        assert s.Step(path[k], path[k + 1]);
      }
    }
    if Walk(s.axis, s.width, s.height, s.lo, s.hi, path) {
      forall k | 0 <= k < |path| - 1 ensures s.Step(path[k], path[k + 1]) {
        assert Moves(s.axis, path[k], path[k + 1]);
      }
    }
  }

  lemma {:induction false} TotalIsCost(s: Strip, path: seq<Coord>)
    requires s.Valid() && forall k :: 0 <= k < |path| ==> s.Contains(path[k])
    ensures OnPicture(s.image, path) && AbsTotal(s.image, path) == s.PathCost(path)
  {
    if path != [] {
      TotalIsCost(s, path[1..]);
      assert s.Contains(path[0]);
    }
  }

  lemma CheapestIsBetween(s: Strip, path: seq<Coord>)
    requires s.Valid() && s.Cheapest(path)
    ensures CheapestBetween(s.axis, s.image, s.width, s.height, s.lo, s.hi, path)
  {
    WalksDivide(s, path);
    TotalIsCost(s, path);
    forall other: seq<Coord> | Walk(s.axis, s.width, s.height, s.lo, s.hi, other)
      ensures OnPicture(s.image, other) && AbsTotal(s.image, path) <= AbsTotal(s.image, other)
    {
      WalksDivide(s, other);
      TotalIsCost(s, other);
    }
  }
}
