/**
 * The grid of subimages of deconvolution/paralleldeconvolution.cpp: which pixels a subimage owns, its bounding box,
 * and which pixels its boundary mask selects, given what the shared mask buffer held before the split.
 */
module SplitGrid {
  import opened Common
  import opened DividingPath
  import opened Division
  import opened FloodAreas
  import opened SplitLines

  /** The two divisions of an image and the paths that make them. */
  datatype Grid = Grid(vertical: Division, horizontal: Division, verticals: seq<seq<Coord>>,
      horizontals: seq<seq<Coord>>) {
    ghost predicate Valid() {
      vertical.axis.Vertical? && horizontal.axis.Horizontal? &&
      vertical.width == horizontal.width && vertical.height == horizontal.height &&
      Dividers(vertical, verticals) && Dividers(horizontal, horizontals)
    }

    /** The pixels that belong to the subimage in column d and row e of the grid. */
    ghost predicate Owns(d: nat, e: nat, c: Coord)
      requires Valid() && d < vertical.n && e < horizontal.n
    {
      c.x < vertical.width && c.y < vertical.height &&
      InArea(vertical, verticals, d, c) && InArea(horizontal, horizontals, e, c)
    }

    ghost function Owned(d: nat, e: nat): (s: set<Coord>)
      requires Valid() && d < vertical.n && e < horizontal.n
      ensures forall c :: c in s <==> Owns(d, e, c)
    {
      var s := set x: nat, y: nat | x < vertical.width && y < vertical.height && Owns(d, e, Coord(x, y)) :: Coord(x, y);
      assert forall c :: Owns(d, e, c) ==> Coord(c.x, c.y) in s;
      s
    }
  }

  /** Every pixel of the image belongs to exactly one place of the grid. */
  lemma OneOwner(g: Grid, c: Coord)
    requires g.Valid() && c.x < g.vertical.width && c.y < g.vertical.height
    ensures exists d: nat, e: nat :: d < g.vertical.n && e < g.horizontal.n && g.Owns(d, e, c)
    ensures forall d: nat, e: nat, d': nat, e': nat {:trigger g.Owns(d, e, c), g.Owns(d', e', c)} ::
              (d < g.vertical.n && e < g.horizontal.n && d' < g.vertical.n && e' < g.horizontal.n &&
               g.Owns(d, e, c) && g.Owns(d', e', c)) ==> d == d' && e == e'
  {
    OneArea(g.vertical, g.verticals, c);
    OneArea(g.horizontal, g.horizontals, c);
    var d: nat :| d < g.vertical.n && InArea(g.vertical, g.verticals, d, c);
    var e: nat :| e < g.horizontal.n && InArea(g.horizontal, g.horizontals, e, c);
    assert g.Owns(d, e, c);
  }

  /** Pixels of one area do not reach from the first position to the last but one, unless to the last as well. */
  lemma ExtentEven(v: Division, dividers: seq<seq<Coord>>, d: nat, s: set<Coord>, last: Coord)
    requires Dividers(v, dividers) && d < v.n && forall c {:trigger c in s} :: c in s ==> InArea(v, dividers, d, c)
    requires v.n == 1 ==> last in s && Position(v.axis, last) == v.Size() - 1
    ensures !MissesOnlyLast(v.axis, v.Size(), s)
  {
    if v.n > 1 {
      SeedBetweenStrips(v, d);
      SeedBetweenStrips(v, 1);
      forall c | c in s ensures Position(v.axis, c) > 0 || Position(v.axis, c) + 2 < v.Size()
        ensures d > 0 ==> Position(v.axis, c) > 0
        ensures d == 0 ==> Position(v.axis, c) + 2 < v.Size()
      {
        assert InArea(v, dividers, d, c);
      }
    }
  }

  /**
   * No place of the grid reaches from the first column to the last but one, or from the first row to the last but
   * one.
   */
  lemma OwnedBoundsEven(g: Grid, d: nat, e: nat)
    requires g.Valid() && d < g.vertical.n && e < g.horizontal.n
    ensures !MissesOnlyLast(Vertical, g.vertical.width, g.Owned(d, e))
    ensures !MissesOnlyLast(Horizontal, g.vertical.height, g.Owned(d, e))
    ensures g.Owned(d, e) != {}
  {
    var s, v, h := g.Owned(d, e), g.vertical, g.horizontal;
    var x, y := v.Mid(d), h.Mid(e);
    SeedBetweenStrips(v, d);
    SeedBetweenStrips(h, e);
    BordersAroundSeed(v, g.verticals, d, y);
    BordersAroundSeed(h, g.horizontals, e, x);
    assert g.Owns(d, e, Coord(x, y));
    var right, low := Coord(v.width - 1, y), Coord(x, h.height - 1);
    if v.n == 1 {
      BordersAroundSeed(h, g.horizontals, e, v.width - 1);
      assert g.Owns(d, e, right);
    }
    if h.n == 1 {
      BordersAroundSeed(v, g.verticals, d, h.height - 1);
      assert g.Owns(d, e, low);
    }
    forall c | c in s ensures InArea(v, g.verticals, d, c) && InArea(h, g.horizontals, e, c) {
      assert g.Owns(d, e, c);
    }
    ExtentEven(v, g.verticals, d, s, right);
    ExtentEven(h, g.horizontals, e, s, low);
  }

  // ----- bounding boxes

  lemma {:induction false} TightExists(axis: Axis, s: set<Coord>) returns (lo: nat, hi: nat)
    requires s != {}
    ensures Tight(axis, lo, hi, s)
  {
    var c :| c in s;
    if s == {c} {
      lo, hi := Position(axis, c), Position(axis, c);
    } else {
      lo, hi := TightExists(axis, s - {c});
      WidenTight(axis, lo, hi, s - {c}, c);
      assert s - {c} + {c} == s;
      var p := Position(axis, c);
      lo, hi := if p < lo then p else lo, if p > hi then p else hi;
    }
  }

  /** The smallest bounds of what a place owns. */
  ghost function BoundsOf(g: Grid, d: nat, e: nat): (b: Bounds)
    requires g.Valid() && d < g.vertical.n && e < g.horizontal.n
    ensures IsBounds(b, g.Owned(d, e), g.vertical.width, g.vertical.height)
  {
    BoundsExist(g, d, e);
    var b :| IsBounds(b, g.Owned(d, e), g.vertical.width, g.vertical.height);
    b
  }

  lemma BoundsExist(g: Grid, d: nat, e: nat)
    requires g.Valid() && d < g.vertical.n && e < g.horizontal.n
    ensures exists b :: IsBounds(b, g.Owned(d, e), g.vertical.width, g.vertical.height)
  {
    var s := g.Owned(d, e);
    OwnedBoundsEven(g, d, e);
    var x1, x2 := TightExists(Vertical, s);
    var y1, y2 := TightExists(Horizontal, s);
    BoundsInside(Bounds(x1, x2, y1, y2), s, g.vertical.width, g.vertical.height) by {
      assert forall c :: c in s ==> g.Owns(d, e, c);
    }
  }

  /** The bounding box of a place, even on even sides. */
  ghost function BoxOf(g: Grid, d: nat, e: nat): Box
    requires g.Valid() && d < g.vertical.n && e < g.horizontal.n
  {
    EvenBox(BoundsOf(g, d, e), g.vertical.width, g.vertical.height)
  }

  /** A box on the image, even where the image is. */
  predicate BoxFits(box: Box, width: nat, height: nat) {
    box.x + box.width <= width && box.y + box.height <= height &&
    (width % 2 == 0 ==> box.width % 2 == 0) && (height % 2 == 0 ==> box.height % 2 == 0)
  }

  /** The box of a place fits on the image, around everything that the place owns. */
  lemma BoxAround(g: Grid, d: nat, e: nat)
    requires g.Valid() && d < g.vertical.n && e < g.horizontal.n
    ensures BoxFits(BoxOf(g, d, e), g.vertical.width, g.vertical.height)
    ensures forall c {:trigger g.Owns(d, e, c)} :: g.Owns(d, e, c) ==> BoxOf(g, d, e).Contains(c)
  {
    var b := BoundsOf(g, d, e);
    EvenFits(b.subX, b.subX2, g.vertical.width);
    EvenFits(b.subY, b.subY2, g.vertical.height);
    forall c | g.Owns(d, e, c) ensures BoxOf(g, d, e).Contains(c) {
      assert c in g.Owned(d, e);
      assert b.subX <= Position(Vertical, c) <= b.subX2 && b.subY <= Position(Horizontal, c) <= b.subY2;
    }
  }

  /** Along an axis, positions [start, end) of a box: those of the given pixels, and one more to make them even. */
  ghost predicate Encloses(axis: Axis, side: nat, start: nat, end: nat, s: set<Coord>) {
    exists lo: nat, hi: nat :: Tight(axis, lo, hi, s) &&
      if side % 2 == 1 || (hi + 1 - lo) % 2 == 0 then start == lo && end == hi + 1
      else if hi + 2 < side then start == lo && end == hi + 2
      else start == lo - 1 && end == hi + 1
  }

  /** The box is the smallest one around what the place owns, but for one column or row that makes it even. */
  lemma BoxIsTight(g: Grid, d: nat, e: nat)
    requires g.Valid() && d < g.vertical.n && e < g.horizontal.n
    ensures var b := BoxOf(g, d, e);
            Encloses(Vertical, g.vertical.width, b.x, b.x + b.width, g.Owned(d, e)) &&
            Encloses(Horizontal, g.vertical.height, b.y, b.y + b.height, g.Owned(d, e))
  {
    var b := BoundsOf(g, d, e);
    EvenFits(b.subX, b.subX2, g.vertical.width);
    EvenFits(b.subY, b.subY2, g.vertical.height);
  }

  // ----- the shared mask buffer

  /** Without a user mask nothing is overwritten. */
  lemma NoUserNoCopies(g: Grid, first: Scratch)
    requires g.Valid() && CopiesUser(g, first) && first.user.None?
    ensures NoCopies(g, first)
  {
  }

  ghost predicate InColumns(g: Grid, d: nat, x: int)
    requires g.Valid() && d < g.vertical.n
  {
    InExtent(g.vertical, g.verticals, d, x)
  }

  /**
   * The mask buffer: what it happens to hold at first, the user mask, if there is one, and the pixels that are
   * overwritten after each place.
   */
  datatype Scratch = Scratch(contents: set<Coord>, user: Option<set<Coord>>, copies: (nat, nat) -> map<Coord, bool>)

  /** Nothing is overwritten. */
  ghost predicate NoCopies(g: Grid, first: Scratch) {
    forall d: nat, e: nat {:trigger first.copies(d, e)} :: d < g.vertical.n && e < g.horizontal.n ==>
      first.copies(d, e) == map[]
  }

  /**
   * Whether the mask buffer has a pixel set when it is the turn of column d in row e.  Every place before it, row by
   * row, has written the pixels it owns to the columns of its vertical area, and no other column.
   */
  ghost predicate WasSet(g: Grid, first: Scratch, d: nat, e: nat, c: Coord)
    requires g.Valid() && d <= g.vertical.n && (e < g.horizontal.n || (e == g.horizontal.n && d == 0))
    decreases e, d
  {
    if d > 0 then
      if c in first.copies(d - 1, e) then first.copies(d - 1, e)[c]
      else if InColumns(g, d - 1, c.x) then g.Owns(d - 1, e, c)
      else WasSet(g, first, d - 1, e, c)
    else if e > 0 then WasSet(g, first, g.vertical.n, e - 1, c)
    else c in first.contents
  }

  // ----- the user mask

  /** The place of a pixel in the flat buffer. */
  function FlatOf(g: Grid, c: Coord): nat { c.y * g.vertical.width + c.x }

  /** The pixels at the start of the buffer, as many as the box has. */
  ghost predicate AtStart(g: Grid, box: Box, c: Coord) {
    c.x < g.vertical.width && c.y < g.vertical.height && FlatOf(g, c) < box.width * box.height
  }

  /** With a user mask, its part in the box of a place is copied to the start of the buffer after the place. */
  ghost function UserCopy(g: Grid, user: Option<set<Coord>>, box: Box): (m: map<Coord, bool>)
    ensures user.None? ==> m == map[]
    ensures user.Some? ==> forall c :: (c in m <==> AtStart(g, box, c)) &&
                                       (c in m ==> m[c] == (InBox(box, FlatOf(g, c)) in user.value))
  {
    if user.None? then map[]
    else
      var all := set x: nat, y: nat | x < g.vertical.width && y < g.vertical.height :: Coord(x, y);
      assert forall c :: AtStart(g, box, c) ==> Coord(c.x, c.y) in all;
      map c | c in all && AtStart(g, box, c) :: InBox(box, FlatOf(g, c)) in user.value
  }

  /** The user mask is what overwrites the buffer. */
  ghost predicate CopiesUser(g: Grid, first: Scratch)
    requires g.Valid()
  {
    forall d: nat, e: nat {:trigger first.copies(d, e)} :: d < g.vertical.n && e < g.horizontal.n ==>
      first.copies(d, e) == UserCopy(g, first.user, BoxOf(g, d, e))
  }

  /** A pixel of the box of a place that the place does not write, and that was set before. */
  ghost predicate Leftover(g: Grid, first: Scratch, d: nat, e: nat, c: Coord)
    requires g.Valid() && d < g.vertical.n && e < g.horizontal.n
  {
    BoxOf(g, d, e).Contains(c) && !InColumns(g, d, c.x) && WasSet(g, first, d, e, c)
  }

  /** A pixel that the boundary mask of a place selects. */
  ghost predicate Selects(g: Grid, first: Scratch, d: nat, e: nat, c: Coord)
    requires g.Valid() && d < g.vertical.n && e < g.horizontal.n
  {
    g.Owns(d, e, c) || Leftover(g, first, d, e, c)
  }

  lemma OwnedInColumns(g: Grid, d: nat, e: nat, c: Coord)
    requires g.Valid() && d < g.vertical.n && e < g.horizontal.n && g.Owns(d, e, c)
    ensures InColumns(g, d, c.x)
  {
  }

  // ----- when the boundary masks partition the image

  ghost predicate SelectedOnce(g: Grid, first: Scratch, c: Coord)
    requires g.Valid()
  {
    (exists d: nat, e: nat :: d < g.vertical.n && e < g.horizontal.n && Selects(g, first, d, e, c)) &&
    forall d: nat, e: nat, d': nat, e': nat {:trigger Selects(g, first, d, e, c), Selects(g, first, d', e', c)} ::
      d < g.vertical.n && e < g.horizontal.n && d' < g.vertical.n && e' < g.horizontal.n &&
      Selects(g, first, d, e, c) && Selects(g, first, d', e', c) ==>
        d == d' && e == e'
  }

  /** Every pixel of the image is selected by exactly one boundary mask. */
  ghost predicate MasksPartition(g: Grid, first: Scratch)
    requires g.Valid()
  {
    forall c: Coord {:trigger SelectedOnce(g, first, c)} :: c.x < g.vertical.width && c.y < g.vertical.height ==>
      SelectedOnce(g, first, c)
  }

  /** The pixel is left over in the box of no place. */
  ghost predicate NotLeft(g: Grid, first: Scratch, c: Coord)
    requires g.Valid()
  {
    forall d: nat, e: nat {:trigger Leftover(g, first, d, e, c)} ::
      d < g.vertical.n && e < g.horizontal.n ==> !Leftover(g, first, d, e, c)
  }

  /** Boundary masks select no pixel that was left over. */
  ghost predicate NothingLeft(g: Grid, first: Scratch)
    requires g.Valid()
  {
    forall c: Coord {:trigger NotLeft(g, first, c)} :: NotLeft(g, first, c)
  }

  lemma OwnedOnce(g: Grid, first: Scratch, c: Coord)
    requires g.Valid() && NotLeft(g, first, c) && c.x < g.vertical.width && c.y < g.vertical.height
    ensures SelectedOnce(g, first, c)
  {
    OneOwner(g, c);
    var d: nat, e: nat :| d < g.vertical.n && e < g.horizontal.n && g.Owns(d, e, c);
    assert Selects(g, first, d, e, c);
    forall d': nat, e': nat | d' < g.vertical.n && e' < g.horizontal.n && Selects(g, first, d', e', c)
      ensures g.Owns(d', e', c) {
    }
  }

  /** One mask alone selects a pixel if and only if it is left over in no box. */
  lemma OnceIffNotLeft(g: Grid, first: Scratch, c: Coord)
    requires g.Valid() && c.x < g.vertical.width && c.y < g.vertical.height
    ensures SelectedOnce(g, first, c) <==> NotLeft(g, first, c)
  {
    if NotLeft(g, first, c) {
      OwnedOnce(g, first, c);
    } else {
      var d: nat, e: nat :| d < g.vertical.n && e < g.horizontal.n && Leftover(g, first, d, e, c);
      SelectedTwice(g, first, d, e, c);
    }
  }

  /** The boundary masks partition the image if and only if nothing is left over in any box. */
  lemma PartitionIffNothingLeft(g: Grid, first: Scratch)
    requires g.Valid()
    ensures MasksPartition(g, first) <==> NothingLeft(g, first)
  {
    forall c: Coord ensures c.x < g.vertical.width && c.y < g.vertical.height ==>
                              (SelectedOnce(g, first, c) <==> NotLeft(g, first, c))
      ensures !(c.x < g.vertical.width && c.y < g.vertical.height) ==> NotLeft(g, first, c)
    {
      if c.x < g.vertical.width && c.y < g.vertical.height {
        OnceIffNotLeft(g, first, c);
      } else {
        OutsideNotLeft(g, first, c);
      }
    }
  }

  lemma OutsideNotLeft(g: Grid, first: Scratch, c: Coord)
    requires g.Valid() && !(c.x < g.vertical.width && c.y < g.vertical.height)
    ensures NotLeft(g, first, c)
  {
    forall d: nat, e: nat | d < g.vertical.n && e < g.horizontal.n ensures !Leftover(g, first, d, e, c) {
      BoxAround(g, d, e);
    }
  }

  /** A pixel that is left over is selected by its owner's mask as well. */
  lemma SelectedTwice(g: Grid, first: Scratch, d: nat, e: nat, c: Coord)
    requires g.Valid() && d < g.vertical.n && e < g.horizontal.n && Leftover(g, first, d, e, c)
    ensures c.x < g.vertical.width && c.y < g.vertical.height && !SelectedOnce(g, first, c)
  {
    BoxAround(g, d, e);
    OneOwner(g, c);
    var d': nat, e': nat :| d' < g.vertical.n && e' < g.horizontal.n && g.Owns(d', e', c);
    LeftoverElsewhere(g, first, d, e, d', e', c);
  }

  lemma LeftoverElsewhere(g: Grid, first: Scratch, d: nat, e: nat, d': nat, e': nat, c: Coord)
    requires g.Valid() && d < g.vertical.n && e < g.horizontal.n && Leftover(g, first, d, e, c)
    requires d' < g.vertical.n && e' < g.horizontal.n && g.Owns(d', e', c)
    ensures Selects(g, first, d, e, c) && Selects(g, first, d', e', c) && d != d'
  {
    OwnedInColumns(g, d', e', c);
  }

  // ----- what is left over, in terms of the dividers

  /** What the buffer holds without a user mask. */
  ghost predicate Held(g: Grid, contents: set<Coord>, d: nat, e: nat, c: Coord)
    requires g.Valid() && d <= g.vertical.n && (e < g.horizontal.n || (e == g.horizontal.n && d == 0))
    decreases e, d
  {
    if d > 0 then
      if InColumns(g, d - 1, c.x) then g.Owns(d - 1, e, c) else Held(g, contents, d - 1, e, c)
    else if e > 0 then Held(g, contents, g.vertical.n, e - 1, c)
    else c in contents
  }

  lemma {:induction false} WasSetIsHeld(g: Grid, first: Scratch, d: nat, e: nat, c: Coord)
    requires g.Valid() && d <= g.vertical.n && (e < g.horizontal.n || (e == g.horizontal.n && d == 0))
    requires NoCopies(g, first)
    ensures WasSet(g, first, d, e, c) <==> Held(g, first.contents, d, e, c)
    decreases e, d
  {
    if d > 0 {
      WasSetIsHeld(g, first, d - 1, e, c);
    } else if e > 0 {
      WasSetIsHeld(g, first, g.vertical.n, e - 1, c);
    }
  }

  /** Places whose columns do not hold a pixel leave it as it is. */
  lemma {:induction false} Skips(g: Grid, contents: set<Coord>, lo: nat, hi: nat, e: nat, c: Coord)
    requires g.Valid() && lo <= hi <= g.vertical.n && e < g.horizontal.n
    requires forall d: nat {:trigger InColumns(g, d, c.x)} :: lo <= d < hi ==> !InColumns(g, d, c.x)
    ensures Held(g, contents, hi, e, c) <==> Held(g, contents, lo, e, c)
    decreases hi
  {
    if lo < hi {
      assert !InColumns(g, hi - 1, c.x);
      Skips(g, contents, lo, hi - 1, e, c);
    }
  }

  /** How far the box of a place reaches beyond its outermost pixels. */
  lemma BoxReach(g: Grid, d: nat, e: nat) returns (left: Coord, right: Coord)
    requires g.Valid() && d < g.vertical.n && e < g.horizontal.n
    ensures left.y < g.vertical.height && Border(g.vertical, g.verticals, d, left.y) <= left.x
    ensures right.y < g.vertical.height && right.x < Border(g.vertical, g.verticals, d + 1, right.y)
    ensures var box := BoxOf(g, d, e);
            box.x <= left.x <= box.x + 1 && right.x + 1 <= box.x + box.width <= right.x + 2 &&
            box.x + box.width <= g.vertical.width &&
            (g.vertical.width % 2 == 1 ==> box.x == left.x && box.x + box.width == right.x + 1)
  {
    var b := BoundsOf(g, d, e);
    EvenFits(b.subX, b.subX2, g.vertical.width);
    left :| left in g.Owned(d, e) && Position(Vertical, left) == b.subX;
    right :| right in g.Owned(d, e) && Position(Vertical, right) == b.subX2;
    assert g.Owns(d, e, left) && g.Owns(d, e, right);
  }

  /** On the given line the position is in area d. */
  ghost predicate Between(g: Grid, d: nat, x: int, i: nat)
    requires g.Valid() && d < g.vertical.n && i < g.vertical.height
  {
    Border(g.vertical, g.verticals, d, i) <= x < Border(g.vertical, g.verticals, d + 1, i)
  }

  /** On every line the position is in area d. */
  ghost predicate WholeColumn(g: Grid, d: nat, x: int)
    requires g.Valid() && d < g.vertical.n
  {
    forall i: nat {:trigger Between(g, d, x, i)} :: i < g.vertical.height ==> Between(g, d, x, i)
  }

  /** A column to the right of all columns of an area, but not farther, belongs to the next area on every line. */
  lemma NextIsWhole(g: Grid, d: nat, x: int, line: nat)
    requires g.Valid() && d + 1 < g.vertical.n && line < g.vertical.height
    requires Border(g.vertical, g.verticals, d + 1, line) == x && !BeforeBorder(g.vertical, g.verticals, d + 1, x)
    ensures WholeColumn(g, d + 1, x)
  {
    var next := d + 1;
    BordersAroundSeed(g.vertical, g.verticals, next, line);
    forall i: nat | i < g.vertical.height ensures Between(g, next, x, i) {
      BordersAroundSeed(g.vertical, g.verticals, next, i);
    }
  }

  /** A column of the box to the right of all columns of its area belongs to the next area on every line. */
  lemma NextColumn(g: Grid, d: nat, e: nat, c: Coord)
    requires g.Valid() && d < g.vertical.n && e < g.horizontal.n && BoxOf(g, d, e).Contains(c)
    requires !BeforeBorder(g.vertical, g.verticals, d + 1, c.x)
    ensures d + 1 < g.vertical.n && WholeColumn(g, d + 1, c.x)
  {
    var left, right := BoxReach(g, d, e);
    assert Border(g.vertical, g.verticals, d + 1, right.y) == c.x;
    NextIsWhole(g, d, c.x, right.y);
  }

  /** A column that is in area d on every line is one of the columns of that area only. */
  lemma OnlyColumns(g: Grid, d: nat, k: nat, x: int)
    requires g.Valid() && d < g.vertical.n && k < g.vertical.n && WholeColumn(g, d, x)
    ensures InColumns(g, k, x) <==> k == d
  {
    var v := g.vertical;
    assert Between(g, d, x, 0);
    if k < d {
      var after := k + 1;
      forall i: nat | i < v.height ensures Border(v, g.verticals, after, i) <= x {
        assert Between(g, d, x, i);
        BordersIncrease(v, g.verticals, after, d, i);
      }
    } else if k > d {
      forall i: nat | i < v.height ensures x < Border(v, g.verticals, k, i) {
        assert Between(g, d, x, i);
        BordersIncrease(v, g.verticals, d + 1, k, i);
      }
    }
  }

  /** What the mask buffer holds in a column that belongs to the next area on every line. */
  lemma HeldNext(g: Grid, contents: set<Coord>, d: nat, e: nat, c: Coord)
    requires g.Valid() && d + 1 < g.vertical.n && e < g.horizontal.n && WholeColumn(g, d + 1, c.x)
    requires c.x < g.vertical.width && c.y < g.vertical.height
    ensures Held(g, contents, d, e, c) <==>
              if e == 0 then c in contents else InArea(g.horizontal, g.horizontals, e - 1, c)
    ensures !InColumns(g, d, c.x)
  {
    var next := d + 1;
    forall k: nat | k < g.vertical.n ensures InColumns(g, k, c.x) <==> k == next {
      OnlyColumns(g, next, k, c.x);
    }
    Skips(g, contents, 0, d, e, c);
    if e > 0 {
      Skips(g, contents, next + 1, g.vertical.n, e - 1, c);
      assert Held(g, contents, next + 1, e - 1, c) <==> g.Owns(next, e - 1, c);
      assert Between(g, next, c.x, c.y);
    }
  }

  /** A column of the box to the left of all columns of its area is one of the columns of the area before. */
  lemma ColumnBefore(g: Grid, d: nat, e: nat, c: Coord)
    requires g.Valid() && d < g.vertical.n && e < g.horizontal.n && BoxOf(g, d, e).Contains(c)
    requires !BehindBorder(g.vertical, g.verticals, d, c.x)
    ensures 0 < d && InColumns(g, d - 1, c.x)
  {
    var left, right := BoxReach(g, d, e);
    assert c.x < Border(g.vertical, g.verticals, d, left.y) <= c.x + 1;
    StepBack(g, d - 1, d, c.x, left.y);
  }

  lemma StepBack(g: Grid, before: nat, d: nat, x: nat, line: nat)
    requires g.Valid() && d == before + 1 && d < g.vertical.n && line < g.vertical.height
    requires Border(g.vertical, g.verticals, d, line) == x + 1
    ensures InColumns(g, before, x)
  {
    BordersAroundSeed(g.vertical, g.verticals, before, line);
    assert Border(g.vertical, g.verticals, before, line) <= x;
  }

  /**
   * A pixel in the box of a place that the mask should not select, in terms of the dividers, the sides of the image
   * and the first contents of the mask.  In the column to the right of the area, it is one that the row of places
   * before has written for the next area, or in the first row one that was set from the start.  In the column to
   * the left of the area, it is one of the place before.  This is without a user mask.
   */
  ghost predicate Reaches(g: Grid, first: Scratch, d: nat, e: nat, c: Coord)
    requires g.Valid() && d < g.vertical.n && e < g.horizontal.n
  {
    BoxOf(g, d, e).Contains(c) &&
    ((!BeforeBorder(g.vertical, g.verticals, d + 1, c.x) &&
      if e == 0 then c in first.contents else InArea(g.horizontal, g.horizontals, e - 1, c)) ||
     (!BehindBorder(g.vertical, g.verticals, d, c.x) && d > 0 && g.Owns(d - 1, e, c)))
  }

  /** A position that is not before border d + 1 on any line is behind border d. */
  lemma BordersRise(g: Grid, d: nat, c: Coord)
    requires g.Valid() && d < g.vertical.n && c.y < g.vertical.height
    ensures BehindBorder(g.vertical, g.verticals, d, c.x) || BeforeBorder(g.vertical, g.verticals, d + 1, c.x)
  {
    BordersAroundSeed(g.vertical, g.verticals, d, c.y);
  }

  lemma LeftoverReaches(g: Grid, first: Scratch, d: nat, e: nat, c: Coord)
    requires g.Valid() && d < g.vertical.n && e < g.horizontal.n && NoCopies(g, first)
    ensures Leftover(g, first, d, e, c) <==> Reaches(g, first, d, e, c)
  {
    WasSetIsHeld(g, first, d, e, c);
    if BoxOf(g, d, e).Contains(c) {
      HeldReaches(g, first, d, e, c);
    }
  }

  lemma HeldReaches(g: Grid, first: Scratch, d: nat, e: nat, c: Coord)
    requires g.Valid() && d < g.vertical.n && e < g.horizontal.n && BoxOf(g, d, e).Contains(c)
    ensures !InColumns(g, d, c.x) && Held(g, first.contents, d, e, c) <==> Reaches(g, first, d, e, c)
  {
    if !BeforeBorder(g.vertical, g.verticals, d + 1, c.x) {
      NextColumn(g, d, e, c);
      BoxAround(g, d, e);
      HeldNext(g, first.contents, d, e, c);
      BordersRise(g, d, c);
    } else if !BehindBorder(g.vertical, g.verticals, d, c.x) {
      ColumnBefore(g, d, e, c);
    }
  }

  /** No box reaches such a pixel at c. */
  ghost predicate NotReached(g: Grid, first: Scratch, c: Coord)
    requires g.Valid()
  {
    forall d: nat, e: nat {:trigger Reaches(g, first, d, e, c)} ::
      d < g.vertical.n && e < g.horizontal.n ==> !Reaches(g, first, d, e, c)
  }

  ghost predicate NoneReaches(g: Grid, first: Scratch)
    requires g.Valid()
  {
    forall c: Coord {:trigger NotReached(g, first, c)} :: NotReached(g, first, c)
  }

  lemma NotLeftIffNotReached(g: Grid, first: Scratch, c: Coord)
    requires g.Valid() && NoCopies(g, first)
    ensures NotLeft(g, first, c) <==> NotReached(g, first, c)
  {
    forall d: nat, e: nat | d < g.vertical.n && e < g.horizontal.n
      ensures Leftover(g, first, d, e, c) <==> Reaches(g, first, d, e, c)
    {
      LeftoverReaches(g, first, d, e, c);
    }
  }

  /** Without a user mask, the boundary masks partition the image if and only if no box reaches such a pixel. */
  lemma PartitionIff(g: Grid, first: Scratch)
    requires g.Valid() && NoCopies(g, first)
    ensures NothingLeft(g, first) <==> NoneReaches(g, first)
    ensures MasksPartition(g, first) <==> NoneReaches(g, first)
  {
    PartitionIffNothingLeft(g, first);
    forall c: Coord ensures NotLeft(g, first, c) <==> NotReached(g, first, c) {
      NotLeftIffNotReached(g, first, c);
    }
  }

  /**
   * With or without a user mask, on an image of odd width, and with a single column of subimages, the masks always
   * partition the image.
   */
  lemma PartitionForSure(g: Grid, first: Scratch)
    requires g.Valid() && (g.vertical.width % 2 == 1 || g.vertical.n == 1)
    ensures MasksPartition(g, first) && NothingLeft(g, first)
  {
    forall d: nat, e: nat, c: Coord | d < g.vertical.n && e < g.horizontal.n ensures !Leftover(g, first, d, e, c) {
      if BoxOf(g, d, e).Contains(c) {
        StaysInColumns(g, d, e, c);
      }
    }
    PartitionIffNothingLeft(g, first);
  }

  lemma StaysInColumns(g: Grid, d: nat, e: nat, c: Coord)
    requires g.Valid() && d < g.vertical.n && e < g.horizontal.n && BoxOf(g, d, e).Contains(c)
    requires g.vertical.width % 2 == 1 || g.vertical.n == 1
    ensures InColumns(g, d, c.x)
  {
    var left, right := BoxReach(g, d, e);
    if g.vertical.n == 1 {
      assert Border(g.vertical, g.verticals, 0, left.y) == 0;
      assert Border(g.vertical, g.verticals, 1, left.y) == g.vertical.width;
    } else {
      assert Border(g.vertical, g.verticals, d, left.y) <= c.x < Border(g.vertical, g.verticals, d + 1, right.y);
    }
  }
}
