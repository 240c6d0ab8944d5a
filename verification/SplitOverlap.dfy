/**
 * An image on which two subimages of the parallel run own the same pixels: 8 by 8 pixels, zero in column 3 and one
 * elsewhere, split into two columns.  The divider runs straight down column 3, so the second subimage owns five
 * columns; its box is made even by starting one column earlier, in a column that the first subimage has written to
 * the shared mask.
 */
module SplitOverlap {
  import opened Common
  import opened DividingPath
  import opened Division
  import opened FloodAreas
  import opened Shares
  import opened SplitLines
  import opened SplitGrid
  import opened ImageSplit
  import opened ParallelDeconvolution
  import opened ParallelSplit

  const ROW: seq<real> := [1.0, 1.0, 1.0, 0.0, 1.0, 1.0, 1.0, 1.0]

  const IMAGE: Picture := [ROW, ROW, ROW, ROW, ROW, ROW, ROW, ROW]

  function Columns(): Division { DivisionOf(Vertical, 8, 8, IMAGE, 2) }

  function Rows(): Division { DivisionOf(Horizontal, 8, 8, IMAGE, 1) }

  lemma BothValid()
    ensures Columns().Valid() && Rows().Valid() && Columns().StripOf(1) == Strip(Vertical, 3, 5, 8, 8, IMAGE)
  {
    DivisionIsValid(Vertical, 8, 8, IMAGE, 2);
    DivisionIsValid(Horizontal, 8, 8, IMAGE, 1);
    assert Share(8, 2, 1) == 4;
  }

  /** The straight path down column 3, from line i on. */
  function Straight(i: nat): (p: seq<Coord>)
    requires i <= 8
    ensures |p| == 8 - i && forall k :: 0 <= k < |p| ==> p[k] == Coord(3, i + k)
    decreases 8 - i
  {
    if i == 8 then [] else [Coord(3, i)] + Straight(i + 1)
  }

  lemma {:induction false} StraightIsFree(s: Strip, i: nat)
    requires s == Strip(Vertical, 3, 5, 8, 8, IMAGE) && i <= 8
    ensures s.PathCost(Straight(i)) == 0.0
    decreases 8 - i
  {
    if i < 8 {
      StraightIsFree(s, i + 1);
      assert IMAGE[i] == ROW;
      assert Straight(i)[1..] == Straight(i + 1);
    }
  }

  lemma StraightDivides()
    ensures var s := Strip(Vertical, 3, 5, 8, 8, IMAGE);
            s.Divides(Straight(0)) && s.PathCost(Straight(0)) == 0.0 && s.Feasible()
  {
    StraightIsFree(Strip(Vertical, 3, 5, 8, 8, IMAGE), 0);
  }

  lemma Feasible()
    ensures Columns().Valid() && FeasibleStrips(Columns()) && Rows().Valid() && FeasibleStrips(Rows())
  {
    BothValid();
    StraightDivides();
    OneStrip(Columns());
    assert Rows().n == 1;
  }

  lemma OneStrip(v: Division)
    requires v.Valid() && v.n == 2 && v.StripOf(1).Valid() && v.StripOf(1).Feasible()
    ensures FeasibleStrips(v)
  {
    assert StripFeasible(v, 1);
  }

  lemma {:induction false} FreeIsStraight(s: Strip, p: seq<Coord>, k: nat)
    requires s == Strip(Vertical, 3, 5, 8, 8, IMAGE) && k < |p| && s.PathCost(p) == 0.0 && s.Contains(p[k])
    ensures p[k].x == 3
  {
    if k == 0 {
      assert IMAGE[p[0].y] == ROW;
    } else {
      FreeIsStraight(s, p[1..], k - 1);
    }
  }

  /** A grid of cheapest dividers on this image. */
  ghost predicate GridHere(g: Grid) {
    CheapestGrid(IMAGE, 8, 8, 2, 1, g)
  }

  lemma CheapestIsStraight(s: Strip, p: seq<Coord>, c: Coord)
    requires s == Strip(Vertical, 3, 5, 8, 8, IMAGE) && s.Cheapest(p) && c in p
    ensures c.x == 3
  {
    StraightDivides();
    var k :| 0 <= k < |p| && p[k] == c;
    FreeIsStraight(s, p, k);
  }

  lemma BorderIs3(g: Grid, i: nat)
    requires GridHere(g) && i < 8
    ensures Border(g.vertical, g.verticals, 1, i) == 3
  {
    BothValid();
    var s, p := g.vertical.StripOf(1), g.verticals[0];
    assert DividesStrip(g.vertical, g.verticals, 1) && s.Cheapest(p);
    var from := RunOn(s, p, i).0;
    CheapestIsStraight(s, p, s.At(from, i));
  }

  lemma OwnersAre(g: Grid, c: Coord)
    requires GridHere(g)
    ensures g.Owns(0, 0, c) <==> c.x < 3 && c.y < 8
    ensures g.Owns(1, 0, c) <==> 3 <= c.x < 8 && c.y < 8
  {
    if c.y < 8 {
      BorderIs3(g, c.y);
    }
  }

  lemma BoxesAre(g: Grid)
    requires GridHere(g)
    ensures BoxOf(g, 0, 0) == Box(0, 0, 4, 8) && BoxOf(g, 1, 0) == Box(2, 0, 6, 8)
  {
    forall c: Coord ensures c in g.Owned(0, 0) <==> 0 <= c.x <= 2 && c.y <= 7
      ensures c in g.Owned(1, 0) <==> 3 <= c.x <= 7 && c.y <= 7
    {
      OwnersAre(g, c);
    }
    WholeColumns(BoundsOf(g, 0, 0), 0, 2, g.Owned(0, 0));
    WholeColumns(BoundsOf(g, 1, 0), 3, 7, g.Owned(1, 0));
  }

  lemma WholeColumns(b: Bounds, lo: nat, hi: nat, s: set<Coord>)
    requires lo <= hi < 8 && IsBounds(b, s, 8, 8)
    requires forall c :: c in s <==> lo <= c.x <= hi && c.y <= 7
    ensures b == Bounds(lo, hi, 0, 7)
  {
    assert Coord(lo, 0) in s && Coord(hi, 7) in s;
  }

  /** Column 2 belongs to the first subimage, and the box of the second reaches it. */
  lemma SecondReaches(g: Grid, first: Scratch, y: nat)
    requires GridHere(g) && y < 8 && NoCopies(g, first)
    ensures Selects(g, first, 0, 0, Coord(2, y)) && Selects(g, first, 1, 0, Coord(2, y))
    ensures Reaches(g, first, 1, 0, Coord(2, y))
  {
    OwnersAre(g, Coord(2, y));
    BoxesAre(g);
    forall i: nat | i < 8 ensures Border(g.vertical, g.verticals, 1, i) == 3 {
      BorderIs3(g, i);
    }
    assert !BehindBorder(g.vertical, g.verticals, 1, 2);
    LeftoverReaches(g, first, 1, 0, Coord(2, y));
  }

  lemma MadeAt(g: Grid, first: Scratch, places: seq<(nat, nat)>, subImages: seq<SubImage>, k: nat)
    requires g.Valid() && AllMade(g, first, places, subImages) && k < |places|
    ensures places[k].0 < g.vertical.n && places[k].1 < g.horizontal.n && |subImages| == |places|
    ensures IsSubImage(g, first, places[k].0, places[k].1, subImages[k])
  {
    assert Made(g, first, places, subImages, k);
  }

  lemma MasksHere(g: Grid, first: Scratch, subImages: seq<SubImage>)
    requires GridHere(g) && AllMade(g, first, Places(2, 1, 0), subImages) && NoCopies(g, first)
    ensures |subImages| == 2 && subImages[0].box == Box(0, 0, 4, 8) && subImages[1].box == Box(2, 0, 6, 8)
    ensures subImages[0].boundaryMask.Length0 == subImages[1].boundaryMask.Length0 == 8
    ensures subImages[0].boundaryMask.Length1 == 4 && subImages[1].boundaryMask.Length1 == 6
    ensures forall y {:trigger subImages[0].boundaryMask[y, 2]} :: 0 <= y < 8 ==>
              subImages[0].boundaryMask[y, 2] && subImages[1].boundaryMask[y, 0]
  {
    var places := Places(2, 1, 0);
    assert Places(2, 0, 0) == [] && Places(2, 0, 1) == [(0, 0)] && Places(2, 0, 2) == [(0, 0), (1, 0)] == places;
    BoxesAre(g);
    MadeAt(g, first, places, subImages, 0);
    MadeAt(g, first, places, subImages, 1);
    forall y: nat | y < 8 ensures subImages[0].boundaryMask[y, 2] && subImages[1].boundaryMask[y, 0] {
      SecondReaches(g, first, y);
      BitOfPlace(g, first, 0, 0, subImages[0], 2, y);
      BitOfPlace(g, first, 1, 0, subImages[1], 0, y);
    }
  }

  lemma OrderMatters(g: Grid, first: Scratch, subImages: seq<SubImage>, u: Setup)
    requires GridHere(g) && AllMade(g, first, Places(2, 1, 0), subImages) && JobsOf(u, subImages)
    requires CopiesUser(g, first) && first.user.None?
    ensures !OrderIsIrrelevant(u)
  {
    NoUserNoCopies(g, first);
    SecondReaches(g, first, 0);
    assert !NotReached(g, first, Coord(2, 0));
    SplitIsSafeIff(u, IMAGE, 8, 8, 2, 1, g, first, subImages);
  }

  /**
   * The split of this image: both boundary masks select all of column 2, whatever the mask buffer held at first, and
   * the outcome of the parallel run depends on the schedule.
   */
  method SplitOverlaps() returns (subImages: seq<SubImage>)
    ensures |subImages| == 2 && subImages[0].box == Box(0, 0, 4, 8) && subImages[1].box == Box(2, 0, 6, 8)
    ensures subImages[0].boundaryMask.Length0 == subImages[1].boundaryMask.Length0 == 8
    ensures subImages[0].boundaryMask.Length1 == 4 && subImages[1].boundaryMask.Length1 == 6
    ensures forall y {:trigger subImages[0].boundaryMask[y, 2]} :: 0 <= y < 8 ==>
              subImages[0].boundaryMask[y, 2] && subImages[1].boundaryMask[y, 0]
    ensures forall u: Setup {:trigger JobsOf(u, subImages)} :: JobsOf(u, subImages) ==> !OrderIsIrrelevant(u)
  {
    Feasible();
    ghost var g, first;
    subImages, g, first := SplitImage(IMAGE, 8, 8, 2, 1, None);
    NoUserNoCopies(g, first);
    MasksHere(g, first, subImages);
    forall u: Setup | JobsOf(u, subImages) ensures !OrderIsIrrelevant(u) {
      OrderMatters(g, first, subImages, u);
    }
  }
}
