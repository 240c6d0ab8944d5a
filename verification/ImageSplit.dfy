/**
 * The splitting part of ParallelDeconvolution::executeParallelRun (deconvolution/paralleldeconvolution.cpp): the
 * bounding box and the boundary mask of every subimage.
 */
module ImageSplit {
  import opened Common
  import RowMajor
  import opened UserMask
  import opened CheapestWalks
  import opened DividingPath
  import opened Division
  import opened FloodAreas
  import opened SplitLines
  import opened SplitGrid

  method TrimBox(source: array2<bool>, x: nat, y: nat, boxWidth: nat, boxHeight: nat) returns (dest: array2<bool>)
    requires x + boxWidth <= source.Length1 && y + boxHeight <= source.Length0
    ensures fresh(dest) && dest.Length0 == boxHeight && dest.Length1 == boxWidth
    ensures forall i, j {:trigger dest[j, i]} :: 0 <= i < boxWidth && 0 <= j < boxHeight ==>
              dest[j, i] == source[y + j, x + i]
  {
    dest := new bool[boxHeight, boxWidth];
    for j := 0 to boxHeight
      invariant forall i, k :: 0 <= i < boxWidth && 0 <= k < j ==> dest[k, i] == source[y + k, x + i]
    {
      for i := 0 to boxWidth
        invariant forall h, k :: 0 <= h < boxWidth && 0 <= k < j ==> dest[k, h] == source[y + k, x + h]
        invariant forall h :: 0 <= h < i ==> dest[j, h] == source[y + j, x + h]
      {
        dest[j, i] := source[y + j, x + i];
      }
    }
  }

  /** A vertical area: its mask, trimmed to the columns from x on that it reaches. */
  datatype VerticalArea = VerticalArea(mask: array2<bool>, x: nat)

  ghost predicate IsArea(v: Division, dividers: seq<seq<Coord>>, d: nat, area: VerticalArea)
    requires v.axis.Vertical? && Dividers(v, dividers) && d < v.n
    reads area.mask
  {
    area.mask.Length0 == v.height && 0 < area.mask.Length1 && area.x + area.mask.Length1 <= v.width &&
    (forall x: nat, y: nat {:trigger area.mask[y, x]} :: x < area.mask.Length1 && y < v.height ==>
       (area.mask[y, x] <==> InArea(v, dividers, d, Coord(area.x + x, y)))) &&
    (forall x: int {:trigger InExtent(v, dividers, d, x)} ::
       area.x <= x < area.x + area.mask.Length1 <==> InExtent(v, dividers, d, x))
  }

  /** The mask of an area trimmed to its columns. */
  method TrimArea(v: Division, ghost dividers: seq<seq<Coord>>, ghost d: nat, scratch: array2<bool>, x: nat, width: nat)
    returns (area: VerticalArea)
    requires v.axis.Vertical? && Dividers(v, dividers) && d < v.n && scratch.Length0 == v.height &&
             scratch.Length1 == v.width
    requires forall x: nat, y: nat {:trigger scratch[y, x]} :: x < v.width && y < v.height ==>
             (scratch[y, x] <==> InArea(v, dividers, d, Coord(x, y)))
    requires forall a: int {:trigger InExtent(v, dividers, d, a)} :: x <= a < x + width <==> InExtent(v, dividers, d, a)
    requires 0 < width && x + width <= v.width
    ensures fresh(area.mask) && IsArea(v, dividers, d, area)
  {
    var mask := TrimBox(scratch, x, 0, width, v.height);
    area := VerticalArea(mask, x);
  }

  /** Floods one area and trims its mask. */
  method FloodVertical(v: Division, ghost dividers: seq<seq<Coord>>, dividingLine: array2<real>, scratch: array2<bool>,
          divNr: nat)
    returns (area: VerticalArea)
    requires v.Valid() && v.axis.Vertical? && dividingLine.Length0 == v.height && dividingLine.Length1 == v.width
    requires scratch.Length0 == v.height && scratch.Length1 == v.width && divNr < v.n
    requires Dividers(v, dividers) && Drawn(v, dividingLine, dividers, v.n)
    modifies scratch
    ensures fresh(area.mask) && IsArea(v, dividers, divNr, area)
  {
    SeedBetweenStrips(v, divNr);
    var midX := v.cuts[divNr] + v.average / 2;
    var x, width, lefts, inners, rights := FloodVerticalArea(dividingLine, midX, scratch);
    FloodedArea(v, dividingLine, dividers, divNr, scratch, lefts, inners, rights, x, width);
    area := TrimArea(v, dividers, divNr, scratch, x, width);
  }

  method FloodVerticals(v: Division, ghost dividers: seq<seq<Coord>>, dividingLine: array2<real>, scratch: array2<bool>)
    returns (areas: seq<VerticalArea>)
    requires v.Valid() && v.axis.Vertical? && dividingLine.Length0 == v.height && dividingLine.Length1 == v.width
    requires scratch.Length0 == v.height && scratch.Length1 == v.width
    requires Dividers(v, dividers) && Drawn(v, dividingLine, dividers, v.n)
    modifies scratch
    ensures |areas| == v.n && forall d :: 0 <= d < v.n ==> fresh(areas[d].mask) && IsArea(v, dividers, d, areas[d])
  {
    areas := [];
    var divNr := 0;
    while divNr < v.n
      invariant divNr <= v.n && |areas| == divNr
      invariant forall d :: 0 <= d < divNr ==> fresh(areas[d].mask)
      invariant forall d :: 0 <= d < divNr ==> IsArea(v, dividers, d, areas[d])
    {
      var area := FloodVertical(v, dividers, dividingLine, scratch, divNr);
      areas := areas + [area];
      divNr := divNr + 1;
    }
  }

  lemma SelectedIsOwned(g: Grid, d: nat, e: nat, vArea: VerticalArea, hMask: array2<bool>)
    requires g.Valid() && d < g.vertical.n && e < g.horizontal.n && IsArea(g.vertical, g.verticals, d, vArea)
    requires IsHorizontalMask(g, e, hMask)
    ensures SelectedSet(vArea.mask, vArea.x, hMask, g.Owned(d, e))
  {
    forall c ensures c in g.Owned(d, e) ==> Selected(vArea.mask, vArea.x, hMask, c) {
      if g.Owns(d, e, c) {
        OwnedInColumns(g, d, e, c);
        assert InExtent(g.vertical, g.verticals, d, c.x);
        assert Coord(vArea.x + (c.x - vArea.x), c.y) == c;
        assert vArea.mask[c.y, c.x - vArea.x] && hMask[c.y, c.x];
      }
    }
    forall c ensures Selected(vArea.mask, vArea.x, hMask, c) ==> c in g.Owned(d, e) {
      if Selected(vArea.mask, vArea.x, hMask, c) {
        assert vArea.mask[c.y, c.x - vArea.x] && hMask[c.y, c.x];
        assert Coord(vArea.x + (c.x - vArea.x), c.y) == c;
      }
    }
  }

  ghost predicate IsHorizontalMask(g: Grid, e: nat, hMask: array2<bool>)
    requires g.Valid() && e < g.horizontal.n
    reads hMask
  {
    hMask.Length0 == g.vertical.height && hMask.Length1 == g.vertical.width &&
    forall x: nat, y: nat {:trigger hMask[y, x]} :: x < g.vertical.width && y < g.vertical.height ==>
      (hMask[y, x] <==> InArea(g.horizontal, g.horizontals, e, Coord(x, y)))
  }

  /** The mask buffer when it is the turn of column d in row e. */
  ghost predicate MaskShows(g: Grid, first: Scratch, d: nat, e: nat, mask: array2<bool>)
    requires g.Valid() && d <= g.vertical.n && (e < g.horizontal.n || (e == g.horizontal.n && d == 0))
    reads mask
  {
    mask.Length0 == g.vertical.height && mask.Length1 == g.vertical.width &&
    forall x: nat, y: nat {:trigger mask[y, x]} :: x < g.vertical.width && y < g.vertical.height ==>
      (mask[y, x] <==> WasSet(g, first, d, e, Coord(x, y)))
  }

  /** The pixels that are set in a buffer. */
  ghost function SetPixels(mask: array2<bool>): (s: set<Coord>)
    reads mask
    ensures forall c :: c in s <==> c.y < mask.Length0 && c.x < mask.Length1 && mask[c.y, c.x]
  {
    var s := set x: nat, y: nat | x < mask.Length1 && y < mask.Length0 && mask[y, x] :: Coord(x, y);
    assert forall c: Coord :: c.y < mask.Length0 && c.x < mask.Length1 && mask[c.y, c.x] ==> Coord(c.x, c.y) in s;
    s
  }

  /** A subimage: its box, the mask of the pixels that it writes back, and the mask that it cleans under. */
  datatype SubImage = SubImage(index: nat, box: Box, boundaryMask: array2<bool>, mask: array2<bool>)

  /**
   * The subimage of a place: its bounding box, exactly the pixels that its boundary mask is to select, and those of
   * them that the user mask selects as well.
   */
  ghost predicate IsSubImage(g: Grid, first: Scratch, d: nat, e: nat, sub: SubImage)
    requires g.Valid() && d < g.vertical.n && e < g.horizontal.n
    reads sub.boundaryMask, sub.mask
  {
    var b := sub.box;
    b == BoxOf(g, d, e) && sub.boundaryMask.Length0 == b.height && sub.boundaryMask.Length1 == b.width &&
    (forall x: nat, y: nat {:trigger sub.boundaryMask[y, x]} :: x < b.width && y < b.height ==>
      (sub.boundaryMask[y, x] <==> Selects(g, first, d, e, Coord(b.x + x, b.y + y)))) &&
    IsCleanMask(first, b, sub.boundaryMask, sub.mask)
  }

  /** The pixels of a boundary mask that the user mask, if there is one, selects as well. */
  ghost predicate IsCleanMask(first: Scratch, box: Box, boundary: array2<bool>, mask: array2<bool>)
    requires boundary.Length0 == box.height && boundary.Length1 == box.width
    reads boundary, mask
  {
    mask.Length0 == box.height && mask.Length1 == box.width &&
    forall x: nat, y: nat {:trigger mask[y, x]} :: x < box.width && y < box.height ==>
      (mask[y, x] <==> boundary[y, x] && InUser(first, Coord(box.x + x, box.y + y)))
  }

  predicate InUser(first: Scratch, c: Coord) { first.user.Some? ==> c in first.user.value }

  /** The mask buffer after the scan of a place. */
  ghost predicate ScanShows(g: Grid, first: Scratch, d: nat, e: nat, mask: array2<bool>)
    requires g.Valid() && d < g.vertical.n && e < g.horizontal.n
    reads mask
  {
    mask.Length0 == g.vertical.height && mask.Length1 == g.vertical.width &&
    forall x: nat, y: nat {:trigger mask[y, x]} :: x < g.vertical.width && y < g.vertical.height ==>
      (mask[y, x] <==> Scanned(g, first, d, e, Coord(x, y)))
  }

  ghost predicate Scanned(g: Grid, first: Scratch, d: nat, e: nat, c: Coord)
    requires g.Valid() && d < g.vertical.n && e < g.horizontal.n
  {
    if InColumns(g, d, c.x) then g.Owns(d, e, c) else WasSet(g, first, d, e, c)
  }

  /** The box of the subimage in column d and row e, with its pixels written to the mask buffer. */
  method BoundSubImage(ghost g: Grid, ghost first: Scratch, ghost d: nat, ghost e: nat, vArea: VerticalArea,
                       hMask: array2<bool>, mask: array2<bool>)
    returns (box: Box)
    requires g.Valid() && d < g.vertical.n && e < g.horizontal.n && IsArea(g.vertical, g.verticals, d, vArea)
    requires mask != hMask && mask != vArea.mask && IsHorizontalMask(g, e, hMask) && MaskShows(g, first, d, e, mask)
    modifies mask
    ensures box == BoxOf(g, d, e) && ScanShows(g, first, d, e, mask)
  {
    SelectedIsOwned(g, d, e, vArea, hMask);
    OwnedBoundsEven(g, d, e);
    ghost var b;
    box, b := GetBoundingMask(vArea.mask, vArea.x, hMask, mask, g.Owned(d, e));
    OneBounds(b, BoundsOf(g, d, e), g.Owned(d, e), g.vertical.width, g.vertical.height);
    forall x: nat, y: nat | x < g.vertical.width && y < g.vertical.height
      ensures mask[y, x] <==> Scanned(g, first, d, e, Coord(x, y))
    {
      assert InColumns(g, d, x) <==> vArea.x <= x < vArea.x + vArea.mask.Length1;
      assert Coord(x, y) in g.Owned(d, e) <==> g.Owns(d, e, Coord(x, y));
    }
  }

  /** A pixel of the box that is set after the scan of a place is one that its boundary mask is to select. */
  lemma SetIsSelected(g: Grid, first: Scratch, d: nat, e: nat, mask: array2<bool>, c: Coord)
    requires g.Valid() && d < g.vertical.n && e < g.horizontal.n && ScanShows(g, first, d, e, mask)
    requires BoxOf(g, d, e).Contains(c) && c.x < g.vertical.width && c.y < g.vertical.height
    ensures mask[c.y, c.x] <==> Selects(g, first, d, e, c)
  {
    assert mask[c.y, c.x] <==> Scanned(g, first, d, e, c);
    ScannedIsSelected(g, first, d, e, c);
  }

  lemma ScannedIsSelected(g: Grid, first: Scratch, d: nat, e: nat, c: Coord)
    requires g.Valid() && d < g.vertical.n && e < g.horizontal.n && BoxOf(g, d, e).Contains(c)
    ensures Scanned(g, first, d, e, c) <==> Selects(g, first, d, e, c)
  {
    if g.Owns(d, e, c) {
      OwnedInColumns(g, d, e, c);
    }
  }

  /** A boundary mask is the part of the mask buffer in a box. */
  predicate IsCut(mask: array2<bool>, box: Box, boundary: array2<bool>)
    reads mask, boundary
  {
    boundary.Length0 == box.height && boundary.Length1 == box.width &&
    box.x + box.width <= mask.Length1 && box.y + box.height <= mask.Length0 &&
    forall x, y {:trigger boundary[y, x]} :: 0 <= x < box.width && 0 <= y < box.height ==>
      boundary[y, x] == mask[box.y + y, box.x + x]
  }

  /** The boundary mask selects the pixels of a place. */
  ghost predicate IsBoundary(g: Grid, first: Scratch, d: nat, e: nat, box: Box, boundary: array2<bool>)
    requires g.Valid() && d < g.vertical.n && e < g.horizontal.n
    reads boundary
  {
    boundary.Length0 == box.height && boundary.Length1 == box.width &&
    forall x: nat, y: nat {:trigger boundary[y, x]} :: x < box.width && y < box.height ==>
      (boundary[y, x] <==> Selects(g, first, d, e, Coord(box.x + x, box.y + y)))
  }

  lemma CutIsBoundary(g: Grid, first: Scratch, d: nat, e: nat, mask: array2<bool>, box: Box, boundary: array2<bool>)
    requires g.Valid() && d < g.vertical.n && e < g.horizontal.n && ScanShows(g, first, d, e, mask)
    requires box == BoxOf(g, d, e) && BoxFits(box, g.vertical.width, g.vertical.height) && IsCut(mask, box, boundary)
    ensures IsBoundary(g, first, d, e, box, boundary)
  {
    forall x: nat, y: nat | x < box.width && y < box.height
      ensures boundary[y, x] <==> Selects(g, first, d, e, Coord(box.x + x, box.y + y))
    {
      SetIsSelected(g, first, d, e, mask, Coord(box.x + x, box.y + y));
    }
  }

  // ----- the user mask

  /** The user mask has the size of the image and selects the given pixels. */
  ghost predicate UserShows(user: Option<array2<bool>>, first: Scratch, width: nat, height: nat)
    reads if user.Some? then {user.value} else {}
  {
    match user
    case None => first.user.None?
    case Some(a) => a.Length0 == height && a.Length1 == width && first.user == Some(SetPixels(a))
  }

  /** The value at the start of the buffer that the copy of the user mask puts there. */
  lemma CopyIs(g: Grid, first: Scratch, d: nat, e: nat, user: array2<bool>, box: Box, c: Coord, p: nat)
    requires g.Valid() && d < g.vertical.n && e < g.horizontal.n && CopiesUser(g, first)
    requires UserShows(Some(user), first, g.vertical.width, g.vertical.height) && box == BoxOf(g, d, e)
    requires BoxFits(box, g.vertical.width, g.vertical.height)
    requires c.x < g.vertical.width && c.y < g.vertical.height && p == FlatOf(g, c)
    ensures c in first.copies(d, e) <==> p < |Values(user, box)|
    ensures p < |Values(user, box)| ==> first.copies(d, e)[c] == Values(user, box)[p]
  {
    assert first.copies(d, e) == UserCopy(g, first.user, box);
    if p < |Values(user, box)| {
      var b := InBox(box, p);
      assert user[b.y, b.x] <==> b in first.user.value;
    }
  }

  lemma BoxIsSmaller(box: Box, width: nat, height: nat)
    requires box.x + box.width <= width && box.y + box.height <= height
    ensures box.width * box.height <= width * height
  {
    assert box.width * box.height <= width * box.height <= width * height;
  }

  /** The buffer after the copy of the user mask, pixel by pixel. */
  lemma AfterCopy(g: Grid, first: Scratch, d: nat, e: nat, user: array2<bool>, box: Box, c: Coord, p: nat,
                  was: bool, now: bool)
    requires g.Valid() && d < g.vertical.n && e < g.horizontal.n && CopiesUser(g, first)
    requires UserShows(Some(user), first, g.vertical.width, g.vertical.height) && box == BoxOf(g, d, e)
    requires BoxFits(box, g.vertical.width, g.vertical.height)
    requires c.x < g.vertical.width && c.y < g.vertical.height && p == FlatOf(g, c)
    requires was == Scanned(g, first, d, e, c) && now == if p < |Values(user, box)| then Values(user, box)[p] else was
    ensures now <==> WasSet(g, first, d + 1, e, c)
  {
    CopyIs(g, first, d, e, user, box, c, p);
  }

  /** The same by the order of the pixels. */
  lemma PixelAfterCopy(g: Grid, first: Scratch, d: nat, e: nat, user: array2<bool>, box: Box, order: seq<Coord>,
                       c: Coord, was: bool, now: bool)
    requires g.Valid() && d < g.vertical.n && e < g.horizontal.n && CopiesUser(g, first)
    requires UserShows(Some(user), first, g.vertical.width, g.vertical.height) && box == BoxOf(g, d, e)
    requires BoxFits(box, g.vertical.width, g.vertical.height)
    requires IsOrder(order, g.vertical.width, g.vertical.height) && c.x < g.vertical.width && c.y < g.vertical.height
    requires was == Scanned(g, first, d, e, c)
    requires forall p {:trigger order[p]} :: 0 <= p < |order| && order[p] == c ==>
               now == if p < |Values(user, box)| then Values(user, box)[p] else was
    ensures now <==> WasSet(g, first, d + 1, e, c)
  {
    var p := IndexOf(order, g.vertical.width, g.vertical.height, c);
    AfterCopy(g, first, d, e, user, box, c, p, was, now);
  }

  /** Copies the user mask in the box of a place to the start of the buffer. */
  method CopyUserMask(ghost g: Grid, ghost first: Scratch, ghost d: nat, ghost e: nat, user: array2<bool>, box: Box,
                      mask: array2<bool>, ghost order: seq<Coord>)
    requires g.Valid() && d < g.vertical.n && e < g.horizontal.n && CopiesUser(g, first) && mask != user
    requires UserShows(Some(user), first, g.vertical.width, g.vertical.height) && box == BoxOf(g, d, e)
    requires BoxFits(box, g.vertical.width, g.vertical.height) && ScanShows(g, first, d, e, mask)
    requires IsOrder(order, g.vertical.width, g.vertical.height) && |Values(user, box)| <= |order|
    modifies mask
    ensures MaskShows(g, first, d + 1, e, mask) && ShowsAtStart(mask, order, Values(user, box))
  {
    CopyToStart(user, box, mask, Values(user, box), order);
    forall x: nat, y: nat | x < g.vertical.width && y < g.vertical.height
      ensures mask[y, x] <==> WasSet(g, first, d + 1, e, Coord(x, y))
    {
      PixelAfterCopy(g, first, d, e, user, box, order, Coord(x, y), old(mask[y, x]), mask[y, x]);
    }
  }

  /** A mask combined with the user mask in its box is the one to clean under. */
  lemma CombinedIsClean(g: Grid, first: Scratch, user: array2<bool>, box: Box, boundary: array2<bool>,
                        clean: array2<bool>)
    requires UserShows(Some(user), first, g.vertical.width, g.vertical.height)
    requires BoxFits(box, g.vertical.width, g.vertical.height)
    requires boundary.Length0 == clean.Length0 == box.height && boundary.Length1 == clean.Length1 == box.width
    requires forall x: nat, y: nat {:trigger clean[y, x]} :: x < box.width && y < box.height ==>
               clean[y, x] == (boundary[y, x] && UserAt(user, box, x, y))
    ensures IsCleanMask(first, box, boundary, clean)
  {
    forall x: nat, y: nat | x < box.width && y < box.height
      ensures clean[y, x] <==> boundary[y, x] && InUser(first, Coord(box.x + x, box.y + y))
    {
      assert user[box.y + y, box.x + x] <==> Coord(box.x + x, box.y + y) in SetPixels(user);
    }
  }

  /** Combines the boundary mask with the user mask; the copy of the user mask overwrites the start of the buffer. */
  method ApplyUser(ghost g: Grid, ghost first: Scratch, ghost d: nat, ghost e: nat, user: array2<bool>, box: Box,
                   boundary: array2<bool>, mask: array2<bool>)
    returns (clean: array2<bool>)
    requires g.Valid() && d < g.vertical.n && e < g.horizontal.n && CopiesUser(g, first) && mask != user
    requires UserShows(Some(user), first, g.vertical.width, g.vertical.height) && box == BoxOf(g, d, e)
    requires BoxFits(box, g.vertical.width, g.vertical.height) && ScanShows(g, first, d, e, mask)
    requires mask != boundary && boundary.Length0 == box.height && boundary.Length1 == box.width
    modifies mask
    ensures MaskShows(g, first, d + 1, e, mask) && fresh(clean) && IsCleanMask(first, box, boundary, clean)
  {
    ghost var order := OrderExists(g.vertical.width, g.vertical.height);
    BoxIsSmaller(box, g.vertical.width, g.vertical.height);
    CopyUserMask(g, first, d, e, user, box, mask, order);
    clean := Combine(user, box, boundary, mask, order);
    CombinedIsClean(g, first, user, box, boundary, clean);
  }

  lemma NotOverwritten(g: Grid, first: Scratch, d: nat, e: nat, mask: array2<bool>)
    requires g.Valid() && d < g.vertical.n && e < g.horizontal.n && CopiesUser(g, first) && first.user.None?
    requires ScanShows(g, first, d, e, mask)
    ensures MaskShows(g, first, d + 1, e, mask)
  {
    assert first.copies(d, e) == map[];
    forall x: nat, y: nat | x < g.vertical.width && y < g.vertical.height
      ensures mask[y, x] <==> WasSet(g, first, d + 1, e, Coord(x, y))
    {
      assert mask[y, x] <==> Scanned(g, first, d, e, Coord(x, y));
    }
  }

  /** Without a user mask the subimage cleans under its boundary mask, and the buffer stays as it is. */
  method CopyBoundary(ghost first: Scratch, box: Box, boundary: array2<bool>) returns (clean: array2<bool>)
    requires first.user.None? && boundary.Length0 == box.height && boundary.Length1 == box.width
    ensures fresh(clean) && IsCleanMask(first, box, boundary, clean)
  {
    clean := TrimBox(boundary, 0, 0, box.width, box.height);
  }

  /** The masks of the subimage in column d and row e. */
  method MakeMasks(ghost g: Grid, ghost first: Scratch, ghost d: nat, ghost e: nat, user: Option<array2<bool>>,
                   box: Box, mask: array2<bool>)
    returns (boundary: array2<bool>, clean: array2<bool>)
    requires g.Valid() && d < g.vertical.n && e < g.horizontal.n && CopiesUser(g, first)
    requires UserShows(user, first, g.vertical.width, g.vertical.height) && (user.Some? ==> user.value != mask)
    requires box == BoxOf(g, d, e) && BoxFits(box, g.vertical.width, g.vertical.height)
    requires ScanShows(g, first, d, e, mask)
    modifies mask
    ensures fresh(boundary) && fresh(clean) && IsBoundary(g, first, d, e, box, boundary)
    ensures IsCleanMask(first, box, boundary, clean) && MaskShows(g, first, d + 1, e, mask)
  {
    boundary := TrimBox(mask, box.x, box.y, box.width, box.height);
    CutIsBoundary(g, first, d, e, mask, box, boundary);
    if user.Some? {
      clean := ApplyUser(g, first, d, e, user.value, box, boundary, mask);
    } else {
      clean := CopyBoundary(first, box, boundary);
      NotOverwritten(g, first, d, e, mask);
    }
  }

  /** Both masks of a subimage are new. */
  twostate predicate NewMasks(new sub: SubImage)
    reads sub.boundaryMask, sub.mask
  {
    fresh(sub.boundaryMask) && fresh(sub.mask)
  }

  /** The bounding box and the masks of the subimage in column d and row e. */
  method MakeSubImage(ghost g: Grid, ghost first: Scratch, ghost d: nat, ghost e: nat, user: Option<array2<bool>>,
                      vArea: VerticalArea, hMask: array2<bool>, mask: array2<bool>, index: nat)
    returns (sub: SubImage)
    requires g.Valid() && d < g.vertical.n && e < g.horizontal.n && IsArea(g.vertical, g.verticals, d, vArea)
    requires mask != hMask && mask != vArea.mask && IsHorizontalMask(g, e, hMask) && MaskShows(g, first, d, e, mask)
    requires UserShows(user, first, g.vertical.width, g.vertical.height) && (user.Some? ==> user.value != mask)
    requires CopiesUser(g, first)
    modifies mask
    ensures NewMasks(sub) && IsSubImage(g, first, d, e, sub) && sub.index == index
    ensures MaskShows(g, first, d + 1, e, mask)
  {
    var box := BoundSubImage(g, first, d, e, vArea, hMask, mask);
    BoxAround(g, d, e);
    var boundary, clean := MakeMasks(g, first, d, e, user, box, mask);
    sub := SubImage(index, box, boundary, clean);
    MasksMake(g, first, d, e, sub);
  }

  lemma MasksMake(g: Grid, first: Scratch, d: nat, e: nat, sub: SubImage)
    requires g.Valid() && d < g.vertical.n && e < g.horizontal.n && sub.box == BoxOf(g, d, e)
    requires IsBoundary(g, first, d, e, sub.box, sub.boundaryMask)
    requires IsCleanMask(first, sub.box, sub.boundaryMask, sub.mask)
    ensures IsSubImage(g, first, d, e, sub)
  {
  }

  /** The places of the first rows of a grid, and of the first columns of the next row, row by row. */
  function Places(columns: nat, rows: nat, next: nat): (r: seq<(nat, nat)>)
    decreases rows, next
  {
    if next > 0 then Places(columns, rows, next - 1) + [(next - 1, rows)]
    else if rows > 0 then Places(columns, rows - 1, columns)
    else []
  }

  predicate Distinct(places: seq<(nat, nat)>) {
    forall i, j :: 0 <= i < j < |places| ==> places[i] != places[j]
  }

  /** These are all places, each once. */
  lemma {:induction false} PlacesAre(columns: nat, rows: nat, next: nat)
    requires next <= columns
    ensures forall d: nat, e: nat {:trigger (d, e) in Places(columns, rows, next)} ::
              (d, e) in Places(columns, rows, next) <==> d < columns && (e < rows || (e == rows && d < next))
    ensures Distinct(Places(columns, rows, next))
    decreases rows, next
  {
    if next > 0 {
      PlacesAre(columns, rows, next - 1);
      var before := Places(columns, rows, next - 1);
      forall i | 0 <= i < |before| ensures before[i] != (next - 1, rows) {
        assert before[i] in before && before[i] == (before[i].0, before[i].1);
      }
      var p := Places(columns, rows, next);
      assert p == before + [(next - 1, rows)];
    } else if rows > 0 {
      PlacesAre(columns, rows - 1, columns);
      assert Places(columns, rows, next) == Places(columns, rows - 1, columns);
    } else {
      assert Places(columns, rows, next) == [];
    }
  }

  /** The places follow each other row by row. */
  lemma {:induction false} PlaceAt(columns: nat, rows: nat, next: nat, d: nat, e: nat)
    requires next <= columns && d < columns && (e < rows || (e == rows && d < next))
    ensures |Places(columns, rows, next)| == rows * columns + next && 0 <= e * columns + d < rows * columns + next
    ensures Places(columns, rows, next)[e * columns + d] == (d, e)
    decreases rows, next
  {
    PlaceCount(columns, rows, next);
    if next > 0 {
      PlaceCount(columns, rows, next - 1);
      if e < rows || d < next - 1 {
        PlaceAt(columns, rows, next - 1, d, e);
      }
    } else {
      PlaceAt(columns, rows - 1, columns, d, e);
    }
  }

  lemma {:induction false} PlaceCount(columns: nat, rows: nat, next: nat)
    requires next <= columns
    ensures |Places(columns, rows, next)| == rows * columns + next
    decreases rows, next
  {
    if next > 0 {
      PlaceCount(columns, rows, next - 1);
    } else if rows > 0 {
      PlaceCount(columns, rows - 1, columns);
    }
  }

  /** The k-th subimage is the one of the k-th place. */
  ghost predicate Made(g: Grid, first: Scratch, places: seq<(nat, nat)>, subImages: seq<SubImage>, k: nat)
    requires g.Valid() && k < |places| == |subImages|
    reads subImages[k].boundaryMask, subImages[k].mask
  {
    places[k].0 < g.vertical.n && places[k].1 < g.horizontal.n && subImages[k].index == k &&
    IsSubImage(g, first, places[k].0, places[k].1, subImages[k])
  }

  ghost predicate AllMade(g: Grid, first: Scratch, places: seq<(nat, nat)>, subImages: seq<SubImage>)
    requires g.Valid()
    reads set k | 0 <= k < |subImages| :: subImages[k].boundaryMask
    reads set k | 0 <= k < |subImages| :: subImages[k].mask
  {
    |places| == |subImages| &&
    forall k {:trigger Made(g, first, places, subImages, k)} :: 0 <= k < |places| ==>
      Made(g, first, places, subImages, k)
  }

  /** The subimage with number e * columns + d is the one in column d and row e. */
  ghost predicate SubImageAt(g: Grid, first: Scratch, subImages: seq<SubImage>, d: nat, e: nat)
    requires g.Valid() && d < g.vertical.n && e < g.horizontal.n
    reads set k | 0 <= k < |subImages| :: subImages[k].boundaryMask
    reads set k | 0 <= k < |subImages| :: subImages[k].mask
  {
    var k := e * g.vertical.n + d;
    k < |subImages| && subImages[k].index == k && IsSubImage(g, first, d, e, subImages[k])
  }

  lemma MadeAt(g: Grid, first: Scratch, places: seq<(nat, nat)>, subImages: seq<SubImage>, d: nat, e: nat, k: nat)
    requires g.Valid() && d < g.vertical.n && e < g.horizontal.n && AllMade(g, first, places, subImages)
    requires k < |places| && places[k] == (d, e)
    ensures subImages[k].index == k && IsSubImage(g, first, d, e, subImages[k])
  {
    assert Made(g, first, places, subImages, k);
  }

  lemma RowByRow(g: Grid, first: Scratch, subImages: seq<SubImage>)
    requires g.Valid() && AllMade(g, first, Places(g.vertical.n, g.horizontal.n, 0), subImages)
    ensures |subImages| == g.horizontal.n * g.vertical.n
    ensures forall d: nat, e: nat {:trigger SubImageAt(g, first, subImages, d, e)} ::
              d < g.vertical.n && e < g.horizontal.n ==> SubImageAt(g, first, subImages, d, e)
  {
    PlaceCount(g.vertical.n, g.horizontal.n, 0);
    forall d: nat, e: nat | d < g.vertical.n && e < g.horizontal.n ensures SubImageAt(g, first, subImages, d, e) {
      PlaceAt(g.vertical.n, g.horizontal.n, 0, d, e);
      MadeAt(g, first, Places(g.vertical.n, g.horizontal.n, 0), subImages, d, e, e * g.vertical.n + d);
    }
  }

  lemma MakeOneMore(g: Grid, first: Scratch, places: seq<(nat, nat)>, subImages: seq<SubImage>, d: nat, e: nat,
                    sub: SubImage)
    requires g.Valid() && AllMade(g, first, places, subImages) && d < g.vertical.n && e < g.horizontal.n
    requires IsSubImage(g, first, d, e, sub) && sub.index == |subImages|
    ensures AllMade(g, first, places + [(d, e)], subImages + [sub])
  {
    forall k | 0 <= k < |places| + 1 ensures Made(g, first, places + [(d, e)], subImages + [sub], k) {
      if k < |places| {
        assert Made(g, first, places, subImages, k);
      }
    }
  }

  /** No mask of the subimages is the given buffer. */
  predicate Apart(subImages: seq<SubImage>, buffer: array2<bool>) {
    forall k {:trigger subImages[k]} :: 0 <= k < |subImages| ==>
      subImages[k].boundaryMask != buffer && subImages[k].mask != buffer
  }

  /** Makes the next subimage of a row. */
  method AddPlace(ghost g: Grid, ghost first: Scratch, ghost x: nat, ghost y: nat, user: Option<array2<bool>>,
                  vArea: VerticalArea, hMask: array2<bool>, mask: array2<bool>, before: seq<SubImage>)
    returns (subImages: seq<SubImage>)
    requires g.Valid() && x < g.vertical.n && y < g.horizontal.n && IsArea(g.vertical, g.verticals, x, vArea)
    requires mask != hMask && mask != vArea.mask && IsHorizontalMask(g, y, hMask) && MaskShows(g, first, x, y, mask)
    requires UserShows(user, first, g.vertical.width, g.vertical.height) && (user.Some? ==> user.value != mask)
    requires CopiesUser(g, first) && AllMade(g, first, Places(g.vertical.n, y, x), before) && Apart(before, mask)
    modifies mask
    ensures AllMade(g, first, Places(g.vertical.n, y, x + 1), subImages) && MaskShows(g, first, x + 1, y, mask)
    ensures |subImages| == |before| + 1 && before <= subImages && NewMasks(subImages[|before|])
  {
    var sub := MakeSubImage(g, first, x, y, user, vArea, hMask, mask, |before|);
    MakeOneMore(g, first, Places(g.vertical.n, y, x), before, x, y, sub);
    subImages := before + [sub];
  }

  /** The subimages of one row of the grid. */
  method SubImageRow(ghost g: Grid, ghost first: Scratch, y: nat, user: Option<array2<bool>>, horImages: nat,
                     verticalAreas: seq<VerticalArea>, hMask: array2<bool>, mask: array2<bool>, before: seq<SubImage>)
    returns (subImages: seq<SubImage>)
    requires g.Valid() && horImages == g.vertical.n && y < g.horizontal.n
    requires |verticalAreas| == horImages
    requires forall d :: 0 <= d < horImages ==>
               mask != verticalAreas[d].mask && IsArea(g.vertical, g.verticals, d, verticalAreas[d])
    requires mask != hMask && IsHorizontalMask(g, y, hMask) && MaskShows(g, first, 0, y, mask)
    requires UserShows(user, first, g.vertical.width, g.vertical.height) && (user.Some? ==> user.value != mask)
    requires CopiesUser(g, first) && AllMade(g, first, Places(horImages, y, 0), before) && Apart(before, mask)
    modifies mask
    ensures AllMade(g, first, Places(horImages, y + 1, 0), subImages) && MaskShows(g, first, 0, y + 1, mask)
    ensures before <= subImages && forall k {:trigger subImages[k]} :: |before| <= k < |subImages| ==>
              NewMasks(subImages[k])
  {
    subImages := before;
    var x := 0;
    while x < horImages
      invariant x <= horImages && AllMade(g, first, Places(horImages, y, x), subImages) && Apart(subImages, mask)
      invariant forall d :: 0 <= d < horImages ==> IsArea(g.vertical, g.verticals, d, verticalAreas[d])
      invariant IsHorizontalMask(g, y, hMask) && MaskShows(g, first, x, y, mask)
      invariant UserShows(user, first, g.vertical.width, g.vertical.height)
      invariant before <= subImages && forall k {:trigger subImages[k]} :: |before| <= k < |subImages| ==>
                  NewMasks(subImages[k])
    {
      subImages := AddPlace(g, first, x, y, user, verticalAreas[x], hMask, mask, subImages);
      x := x + 1;
    }
  }

  /** The two divisions of an image with a cheapest divider in every strip. */
  ghost predicate CheapestGrid(image: Picture, width: nat, height: nat, horImages: nat, verImages: nat, g: Grid)
    requires 0 < horImages && 0 < verImages
  {
    g.Valid() && g.vertical == DivisionOf(Vertical, width, height, image, horImages) &&
    g.horizontal == DivisionOf(Horizontal, width, height, image, verImages) &&
    CheapestDividers(g.vertical, g.verticals) && CheapestDividers(g.horizontal, g.horizontals)
  }

  /**
   * A subimage with the given index, in a box on the image that is even where the image is, with a mask of its
   * size.
   */
  predicate Proper(sub: SubImage, index: nat, width: nat, height: nat) {
    sub.index == index && BoxFits(sub.box, width, height) &&
    sub.boundaryMask.Length0 == sub.box.height && sub.boundaryMask.Length1 == sub.box.width &&
    sub.mask.Length0 == sub.box.height && sub.mask.Length1 == sub.box.width
  }

  lemma AllProper(g: Grid, first: Scratch, places: seq<(nat, nat)>, subImages: seq<SubImage>)
    requires g.Valid() && AllMade(g, first, places, subImages)
    ensures forall k {:trigger subImages[k]} :: 0 <= k < |subImages| ==>
              Proper(subImages[k], k, g.vertical.width, g.vertical.height)
  {
    forall k | 0 <= k < |subImages| ensures Proper(subImages[k], k, g.vertical.width, g.vertical.height) {
      assert Made(g, first, places, subImages, k);
      BoxAround(g, places[k].0, places[k].1);
    }
  }

  /**
   * The split of an image into subimages.  The dividers are cheapest in their strips; the subimages follow each other
   * row by row; and the box and the masks of each are determined by the dividers, by the user mask, if there is one,
   * and by what the mask buffer held at first.
   */
  method SplitImage(image: Picture, width: nat, height: nat, horImages: nat, verImages: nat,
                    user: Option<array2<bool>>)
    returns (subImages: seq<SubImage>, ghost g: Grid, ghost first: Scratch)
    requires Shaped(image, width, height) && 0 < width && 0 < height && 0 < horImages && 0 < verImages
    requires 4 <= width / horImages && 4 <= height / verImages
    requires user.Some? ==> user.value.Length0 == height && user.value.Length1 == width
    requires DivisionOf(Vertical, width, height, image, horImages).Valid() ==>
               FeasibleStrips(DivisionOf(Vertical, width, height, image, horImages))
    requires DivisionOf(Horizontal, width, height, image, verImages).Valid() ==>
               FeasibleStrips(DivisionOf(Horizontal, width, height, image, verImages))
    ensures CheapestGrid(image, width, height, horImages, verImages, g)
    ensures forall d {:trigger g.verticals[d - 1]} :: 1 <= d < horImages ==>
              CheapestDivider(Vertical, image, width, height, horImages, d, g.verticals[d - 1])
    ensures forall e {:trigger g.horizontals[e - 1]} :: 1 <= e < verImages ==>
              CheapestDivider(Horizontal, image, width, height, verImages, e, g.horizontals[e - 1])
    ensures UserShows(user, first, width, height) && CopiesUser(g, first)
    ensures AllMade(g, first, Places(horImages, verImages, 0), subImages)
    ensures forall k {:trigger subImages[k]} :: 0 <= k < |subImages| ==> Proper(subImages[k], k, width, height)
    ensures |subImages| == verImages * horImages &&
            forall d: nat, e: nat {:trigger SubImageAt(g, first, subImages, d, e)} ::
              d < horImages && e < verImages ==> SubImageAt(g, first, subImages, d, e)
  {
    var v := DivisionOf(Vertical, width, height, image, horImages);
    var h := DivisionOf(Horizontal, width, height, image, verImages);
    DivisionIsValid(Vertical, width, height, image, horImages);
    DivisionIsValid(Horizontal, width, height, image, verImages);
    var verticalAreas, verticals := SplitColumns(v);
    subImages, g, first := SplitRows(h, v, verticals, verticalAreas, user);
    AllProper(g, first, Places(horImages, verImages, 0), subImages);
    RowByRow(g, first, subImages);
    CheapestAround(Vertical, image, width, height, horImages, g.verticals);
    CheapestAround(Horizontal, image, width, height, verImages, g.horizontals);
  }

  /** The vertical dividing lines and the areas between them. */
  method SplitColumns(v: Division) returns (areas: seq<VerticalArea>, ghost dividers: seq<seq<Coord>>)
    requires v.Valid() && v.axis.Vertical? && FeasibleStrips(v)
    ensures Dividers(v, dividers) && CheapestDividers(v, dividers)
    ensures |areas| == v.n && forall d :: 0 <= d < v.n ==> IsArea(v, dividers, d, areas[d])
  {
    var dividingLine := new real[v.height, v.width]((_, _) => 0.0);
    var largeScratchMask := new bool[v.height, v.width];
    dividers := DrawDividers(v, dividingLine);
    CheapestAll(v, dividingLine, dividers);
    areas := FloodVerticals(v, dividers, dividingLine, largeScratchMask);
  }

  /** Floods one horizontal area. */
  method FloodHorizontal(ghost g: Grid, h: Division, dividingLine: array2<real>, scratch: array2<bool>, y: nat)
    requires g.Valid() && h == g.horizontal && y < h.n && dividingLine.Length0 == scratch.Length0 == h.height
    requires dividingLine.Length1 == scratch.Length1 == h.width && Drawn(h, dividingLine, g.horizontals, h.n)
    modifies scratch
    ensures IsHorizontalMask(g, y, scratch)
  {
    SeedBetweenStrips(h, y);
    var midY := h.cuts[y] + h.average / 2;
    var hAreaY, hAreaHeight, lefts, inners, rights := FloodHorizontalArea(dividingLine, midY, scratch);
    FloodedArea(h, dividingLine, g.horizontals, y, scratch, lefts, inners, rights, hAreaY, hAreaHeight);
  }

  /** The horizontal dividing lines, and the subimages between them. */
  method SplitRows(h: Division, ghost v: Division, ghost verticals: seq<seq<Coord>>, verticalAreas: seq<VerticalArea>,
                   user: Option<array2<bool>>)
    returns (subImages: seq<SubImage>, ghost g: Grid, ghost first: Scratch)
    requires h.Valid() && h.axis.Horizontal? && FeasibleStrips(h) && v.axis.Vertical?
    requires v.width == h.width && v.height == h.height && Dividers(v, verticals) && |verticalAreas| == v.n
    requires forall d :: 0 <= d < v.n ==> IsArea(v, verticals, d, verticalAreas[d])
    requires user.Some? ==> user.value.Length0 == h.height && user.value.Length1 == h.width
    ensures g.Valid() && g.vertical == v && g.horizontal == h && g.verticals == verticals &&
            CheapestDividers(h, g.horizontals)
    ensures UserShows(user, first, h.width, h.height) && CopiesUser(g, first)
    ensures AllMade(g, first, Places(v.n, h.n, 0), subImages)
  {
    var dividingLine := new real[h.height, h.width]((_, _) => 0.0);
    ghost var horizontals := DrawDividers(h, dividingLine);
    CheapestAll(h, dividingLine, horizontals);
    g := Grid(v, h, verticals, horizontals);
    subImages, first := SubImageRows(h, g, dividingLine, verticalAreas, user);
  }

  /** A mask buffer with the given contents and user mask. */
  ghost function ScratchOf(g: Grid, contents: set<Coord>, user: Option<set<Coord>>): (first: Scratch)
    requires g.Valid()
    ensures first.contents == contents && first.user == user && CopiesUser(g, first)
  {
    Scratch(contents, user, (d: nat, e: nat) =>
      if d < g.vertical.n && e < g.horizontal.n then UserCopy(g, user, BoxOf(g, d, e)) else map[])
  }

  /** The subimages row by row.  The mask buffer starts with any contents. */
  method SubImageRows(h: Division, ghost g: Grid, dividingLine: array2<real>, verticalAreas: seq<VerticalArea>,
                      user: Option<array2<bool>>)
    returns (subImages: seq<SubImage>, ghost first: Scratch)
    requires g.Valid() && g.horizontal == h && |verticalAreas| == g.vertical.n
    requires forall d :: 0 <= d < g.vertical.n ==> IsArea(g.vertical, g.verticals, d, verticalAreas[d])
    requires dividingLine.Length0 == h.height && dividingLine.Length1 == h.width &&
             Drawn(h, dividingLine, g.horizontals, h.n)
    requires user.Some? ==> user.value.Length0 == h.height && user.value.Length1 == h.width
    ensures UserShows(user, first, h.width, h.height) && CopiesUser(g, first)
    ensures AllMade(g, first, Places(g.vertical.n, h.n, 0), subImages)
  {
    var largeScratchMask := new bool[h.height, h.width];
    var mask := new bool[h.height, h.width];
    first := ScratchOf(g, SetPixels(mask), if user.Some? then Some(SetPixels(user.value)) else None);
    subImages := [];
    var y := 0;
    while y < h.n
      invariant y <= h.n && AllMade(g, first, Places(g.vertical.n, y, 0), subImages)
      invariant MaskShows(g, first, 0, y, mask) && UserShows(user, first, h.width, h.height)
      invariant forall d :: 0 <= d < g.vertical.n ==> IsArea(g.vertical, g.verticals, d, verticalAreas[d])
      invariant forall k {:trigger subImages[k]} :: 0 <= k < |subImages| ==> NewMasks(subImages[k])
      invariant Apart(subImages, mask) && Apart(subImages, largeScratchMask)
    {
      FloodHorizontal(g, h, dividingLine, largeScratchMask, y);
      subImages := SubImageRow(g, first, y, user, |verticalAreas|, verticalAreas, largeScratchMask, mask, subImages);
      y := y + 1;
    }
  }

  ghost predicate CheapestDividers(v: Division, dividers: seq<seq<Coord>>)
    requires v.Valid() && |dividers| == v.n - 1
  {
    forall d :: 1 <= d < v.n ==> v.StripOf(d).Valid() && v.StripOf(d).Cheapest(dividers[d - 1])
  }

  /** The dividers of the division of an image are cheapest in the strips around their shares of the size. */
  lemma CheapestAround(axis: Axis, image: Picture, width: nat, height: nat, n: nat, dividers: seq<seq<Coord>>)
    requires 0 < n && DivisionOf(axis, width, height, image, n).Valid() && |dividers| == n - 1
    requires CheapestDividers(DivisionOf(axis, width, height, image, n), dividers)
    ensures forall d {:trigger dividers[d - 1]} :: 1 <= d < n ==>
              CheapestDivider(axis, image, width, height, n, d, dividers[d - 1])
  {
    var v := DivisionOf(axis, width, height, image, n);
    forall d {:trigger dividers[d - 1]} | 1 <= d < n
      ensures CheapestDivider(axis, image, width, height, n, d, dividers[d - 1])
    {
      assert v.StripOf(d).Valid() && v.StripOf(d).Cheapest(dividers[d - 1]);
      StripIs(axis, width, height, image, n, d);
      CheapestIsBetween(v.StripOf(d), dividers[d - 1]);
    }
  }

  lemma CheapestAll(v: Division, buffer: array2<real>, dividers: seq<seq<Coord>>)
    requires v.Valid() && buffer.Length0 == v.height && buffer.Length1 == v.width && |dividers| == v.n - 1
    requires Drawn(v, buffer, dividers, v.n)
    ensures CheapestDividers(v, dividers)
  {
    forall d | 1 <= d < v.n ensures v.StripOf(d).Valid() && v.StripOf(d).Cheapest(dividers[d - 1]) {
      assert DrawnStrip(v, buffer, dividers, d);
    }
  }
}
