/**
 * Flooding between dividing lines and combining the flooded areas into the mask of one subimage
 * (math/dijkstrasplitter.h).
 */
module FloodAreas {
  import RowMajor
  import opened DividingPath
  import opened Division

  ghost function RowOf(a: array2<real>, y: nat): seq<real>
    requires y < a.Length0
    reads a
  {
    seq(a.Length1, x requires 0 <= x < a.Length1 reads a => a[y, x])
  }

  ghost function ColumnOf(a: array2<real>, x: nat): seq<real>
    requires x < a.Length1
    reads a
  {
    seq(a.Length0, y requires 0 <= y < a.Length0 reads a => a[y, x])
  }

  method FloodRow(subdivision: array2<real>, y: nat, subImgX: nat, mask: array2<bool>)
    returns (left: nat, ghost inner: nat, right: nat)
    requires mask.Length0 == subdivision.Length0 && mask.Length1 == subdivision.Length1
    requires y < mask.Length0 && subImgX < mask.Length1
    requires forall x :: 0 <= x < mask.Length1 ==> !mask[y, x]
    modifies mask
    ensures Flooded(RowOf(subdivision, y), subImgX, left, inner, right)
    ensures forall x :: 0 <= x < mask.Length1 ==> (mask[y, x] <==> left <= x < right)
    ensures forall x, z :: 0 <= x < mask.Length1 && 0 <= z < mask.Length0 && z != y ==> mask[z, x] == old(mask[z, x])
  {
    var xIter: int := subImgX;
    while xIter >= 0 && subdivision[y, xIter] == 0.0
      invariant -1 <= xIter <= subImgX
      invariant forall x :: xIter < x <= subImgX ==> subdivision[y, x] == 0.0
      invariant forall x, z :: 0 <= x < mask.Length1 && 0 <= z < mask.Length0 ==>
        mask[z, x] == if z == y then xIter < x <= subImgX else old(mask[z, x])
    {
      mask[y, xIter] := true;
      xIter := xIter - 1;
    }
    inner := xIter + 1;
    while xIter >= 0 && subdivision[y, xIter] != 0.0
      invariant -1 <= xIter < inner
      invariant forall x :: xIter < x < inner ==> subdivision[y, x] != 0.0
      invariant forall x, z :: 0 <= x < mask.Length1 && 0 <= z < mask.Length0 ==>
        mask[z, x] == if z == y then xIter < x <= subImgX else old(mask[z, x])
    {
      mask[y, xIter] := true;
      xIter := xIter - 1;
    }
    left := xIter + 1;
    xIter := subImgX + 1;
    while xIter < subdivision.Length1 && subdivision[y, xIter] == 0.0
      invariant subImgX < xIter <= subdivision.Length1
      invariant forall x :: subImgX < x < xIter ==> subdivision[y, x] == 0.0
      invariant forall x, z :: 0 <= x < mask.Length1 && 0 <= z < mask.Length0 ==>
        mask[z, x] == if z == y then left <= x < xIter else old(mask[z, x])
    {
      mask[y, xIter] := true;
      xIter := xIter + 1;
    }
    right := xIter;
  }

  method FloodColumn(subdivision: array2<real>, x: nat, subImgY: nat, mask: array2<bool>)
    returns (top: nat, ghost inner: nat, bottom: nat)
    requires mask.Length0 == subdivision.Length0 && mask.Length1 == subdivision.Length1
    requires x < mask.Length1 && subImgY < mask.Length0
    requires forall y :: 0 <= y < mask.Length0 ==> !mask[y, x]
    modifies mask
    ensures Flooded(ColumnOf(subdivision, x), subImgY, top, inner, bottom)
    ensures forall y :: 0 <= y < mask.Length0 ==> (mask[y, x] <==> top <= y < bottom)
    ensures forall z, y :: 0 <= z < mask.Length1 && 0 <= y < mask.Length0 && z != x ==> mask[y, z] == old(mask[y, z])
  {
    var yIter: int := subImgY;
    while yIter >= 0 && subdivision[yIter, x] == 0.0
      invariant -1 <= yIter <= subImgY
      invariant forall y :: yIter < y <= subImgY ==> subdivision[y, x] == 0.0
      invariant forall z, y :: 0 <= z < mask.Length1 && 0 <= y < mask.Length0 ==>
        mask[y, z] == if z == x then yIter < y <= subImgY else old(mask[y, z])
    {
      mask[yIter, x] := true;
      yIter := yIter - 1;
    }
    inner := yIter + 1;
    while yIter >= 0 && subdivision[yIter, x] != 0.0
      invariant -1 <= yIter < inner
      invariant forall y :: yIter < y < inner ==> subdivision[y, x] != 0.0
      invariant forall z, y :: 0 <= z < mask.Length1 && 0 <= y < mask.Length0 ==>
        mask[y, z] == if z == x then yIter < y <= subImgY else old(mask[y, z])
    {
      mask[yIter, x] := true;
      yIter := yIter - 1;
    }
    top := yIter + 1;
    yIter := subImgY + 1;
    while yIter < subdivision.Length0 && subdivision[yIter, x] == 0.0
      invariant subImgY < yIter <= subdivision.Length0
      invariant forall y :: subImgY < y < yIter ==> subdivision[y, x] == 0.0
      invariant forall z, y :: 0 <= z < mask.Length1 && 0 <= y < mask.Length0 ==>
        mask[y, z] == if z == x then top <= y < yIter else old(mask[y, z])
    {
      mask[yIter, x] := true;
      yIter := yIter + 1;
    }
    bottom := yIter;
  }

  method Clear(mask: array2<bool>)
    modifies mask
    ensures forall x, y :: 0 <= x < mask.Length1 && 0 <= y < mask.Length0 ==> !mask[y, x]
  {
    for y := 0 to mask.Length0
      invariant forall x, z :: 0 <= x < mask.Length1 && 0 <= z < y ==> !mask[z, x]
    {
      for i := 0 to mask.Length1
        invariant forall x, z :: 0 <= x < mask.Length1 && 0 <= z < y ==> !mask[z, x]
        invariant forall x :: 0 <= x < i ==> !mask[y, x]
      {
        mask[y, i] := false;
      }
    }
  }

  /** What a flood leaves behind on every line of one axis, and the bounds it reports. */
  ghost predicate FloodResult(axis: Axis, subdivision: array2<real>, seed: nat, mask: array2<bool>,
                              lefts: seq<nat>, inners: seq<nat>, rights: seq<nat>, lo: nat, size: nat)
    requires mask.Length0 == subdivision.Length0 && mask.Length1 == subdivision.Length1
    reads subdivision, mask
  {
    var lines := if axis.Vertical? then mask.Length0 else mask.Length1;
    var across := if axis.Vertical? then mask.Length1 else mask.Length0;
    |lefts| == |inners| == |rights| == lines &&
    (forall i {:trigger inners[i]} :: 0 <= i < lines ==>
       Flooded(if axis.Vertical? then RowOf(subdivision, i)
           else ColumnOf(subdivision, i), seed, lefts[i], inners[i], rights[i])) &&
    (forall x, y :: 0 <= x < mask.Length1 && 0 <= y < mask.Length0 ==>
       (mask[y, x] <==> if axis.Vertical? then lefts[y] <= x < rights[y] else lefts[x] <= y < rights[x])) &&
    (forall i :: 0 <= i < lines ==> lo <= lefts[i] && rights[i] <= lo + size) &&
    (lines > 0 ==> lo in lefts && lo + size in rights && lo + size <= across)
  }

  method FloodVerticalArea(subdivision: array2<real>, subImgX: nat, mask: array2<bool>)
    returns (x: nat, subWidth: nat, ghost lefts: seq<nat>, ghost inners: seq<nat>, ghost rights: seq<nat>)
    requires mask.Length0 == subdivision.Length0 && mask.Length1 == subdivision.Length1 && subImgX < mask.Length1
    modifies mask
    ensures FloodResult(Vertical, subdivision, subImgX, mask, lefts, inners, rights, x, subWidth)
  {
    Clear(mask);
    var width, height := mask.Length1, mask.Length0;
    x := width;
    var x2 := 0;
    lefts, inners, rights := [], [], [];
    for y := 0 to height
      invariant |lefts| == |inners| == |rights| == y
      invariant forall i {:trigger inners[i]} :: 0 <= i < y ==>
                Flooded(RowOf(subdivision, i), subImgX, lefts[i], inners[i], rights[i])
      invariant forall i, z {:trigger mask[z, i]} :: 0 <= i < width && 0 <= z < height ==>
                (mask[z, i] <==> z < y && lefts[z] <= i < rights[z])
      invariant forall i :: 0 <= i < y ==> x <= lefts[i] && rights[i] <= x2
      invariant if y > 0 then x <= x2 <= width && x in lefts && x2 in rights else x == width && x2 == 0
    {
      var left, inner, right := FloodRow(subdivision, y, subImgX, mask);
      lefts, inners, rights := lefts + [left], inners + [inner], rights + [right];
      x := if left < x then left else x;
      x2 := if right > x2 then right else x2;
    }
    subWidth := if x2 < x then 0 else x2 - x;
  }

  method FloodHorizontalArea(subdivision: array2<real>, subImgY: nat, mask: array2<bool>)
    returns (y: nat, subHeight: nat, ghost lefts: seq<nat>, ghost inners: seq<nat>, ghost rights: seq<nat>)
    requires mask.Length0 == subdivision.Length0 && mask.Length1 == subdivision.Length1 && subImgY < mask.Length0
    modifies mask
    ensures FloodResult(Horizontal, subdivision, subImgY, mask, lefts, inners, rights, y, subHeight)
  {
    Clear(mask);
    var width, height := mask.Length1, mask.Length0;
    y := height;
    var y2 := 0;
    lefts, inners, rights := [], [], [];
    for x := 0 to width
      invariant |lefts| == |inners| == |rights| == x
      invariant forall i {:trigger inners[i]} :: 0 <= i < x ==>
                Flooded(ColumnOf(subdivision, i), subImgY, lefts[i], inners[i], rights[i])
      invariant forall i, z {:trigger mask[i, z]} :: 0 <= i < height && 0 <= z < width ==>
                (mask[i, z] <==> z < x && lefts[z] <= i < rights[z])
      invariant forall i :: 0 <= i < x ==> y <= lefts[i] && rights[i] <= y2
      invariant if x > 0 then y <= y2 <= height && y in lefts && y2 in rights else y == height && y2 == 0
    {
      var top, inner, bottom := FloodColumn(subdivision, x, subImgY, mask);
      lefts, inners, rights := lefts + [top], inners + [inner], rights + [bottom];
      y := if top < y then top else y;
      y2 := if bottom > y2 then bottom else y2;
    }
    subHeight := if y2 < y then 0 else y2 - y;
  }

  // ----- combining a vertical and a horizontal area

  datatype Box = Box(x: nat, y: nat, width: nat, height: nat) {
    predicate Contains(c: Coord) {
      x <= c.x < x + width && y <= c.y < y + height
    }
  }

  /** The pixel of the image that is the p-th of a box, row by row. */
  function InBox(box: Box, p: nat): (c: Coord)
    requires p < box.width * box.height
    ensures box.Contains(c)
  {
    RowMajor.Joins(box.width, box.height, p);
    Coord(box.x + p % box.width, box.y + p / box.width)
  }

  /** A pixel selected by both masks; vMask is trimmed to start at column vMaskX. */
  predicate Selected(vMask: array2<bool>, vMaskX: nat, hMask: array2<bool>, c: Coord)
    reads vMask, hMask
  {
    vMaskX <= c.x < vMaskX + vMask.Length1 && c.x < hMask.Length1 && c.y < vMask.Length0 && c.y < hMask.Length0 &&
    vMask[c.y, c.x - vMaskX] && hMask[c.y, c.x]
  }

  /** Column or row of a pixel. */
  function Position(axis: Axis, c: Coord): nat { if axis.Vertical? then c.x else c.y }

  /** [lo, hi] is the smallest interval that holds the positions of all selected pixels. */
  ghost predicate Tight(axis: Axis, lo: nat, hi: nat, selected: set<Coord>) {
    lo <= hi && (forall c :: c in selected ==> lo <= Position(axis, c) <= hi) &&
    (exists c :: c in selected && Position(axis, c) == lo) && (exists c :: c in selected && Position(axis, c) == hi)
  }

  ghost predicate SelectedSet(vMask: array2<bool>, vMaskX: nat, hMask: array2<bool>, selected: set<Coord>)
    reads vMask, hMask
  {
    forall c :: c in selected <==> Selected(vMask, vMaskX, hMask, c)
  }

  /** The mask after a scan of the rows in [from, to): selected pixels in columns [x1, x2), old contents elsewhere. */
  twostate predicate Scanned(mask: array2<bool>, x1: nat, x2: nat, from: nat, to: nat, selected: set<Coord>)
    reads mask
  {
    forall x: nat, y: nat {:trigger mask[y, x]} :: x < mask.Length1 && y < mask.Length0 ==>
      mask[y, x] == if from <= y < to && x1 <= x < x2 then Coord(x, y) in selected else old(mask[y, x])
  }

  /** The case in which keeping the extent even on an even side would move the start below zero. */
  predicate GoesBelow(lo: nat, hi: nat, side: nat) { side % 2 == 0 && lo == 0 && hi + 2 == side }

  ghost predicate MissesOnlyLast(axis: Axis, side: nat, selected: set<Coord>) {
    side >= 2 && side % 2 == 0 && Tight(axis, 0, side - 2, selected)
  }

  /** The size of the extent [lo, hi] on a side: one more if it is odd and the side is even. */
  function EvenSize(lo: nat, hi: nat, side: nat): nat
    requires lo <= hi
  {
    var size := hi + 1 - lo;
    if side % 2 == 0 && size % 2 != 0 then size + 1 else size
  }

  /** Where it starts: one earlier if it was made larger and would reach the end of the side. */
  function EvenStart(lo: nat, hi: nat, side: nat): nat
    requires lo <= hi < side && !GoesBelow(lo, hi, side)
  {
    var size := EvenSize(lo, hi, side);
    if size != hi + 1 - lo && size + lo >= side then lo - 1 else lo
  }

  /** The bounds kept while scanning; they start crossed. */
  datatype Bounds = Bounds(subX: nat, subX2: nat, subY: nat, subY2: nat) {
    function Widen(x: nat, y: nat): Bounds {
      Bounds(if x < subX then x else subX, if x > subX2 then x else subX2,
             if y < subY then y else subY, if y > subY2 then y else subY2)
    }

    ghost predicate Bound(start: Bounds, selected: set<Coord>) {
      if selected == {} then this == start
      else Tight(Vertical, subX, subX2, selected) && Tight(Horizontal, subY, subY2, selected)
    }
  }

  /** The bounding box of tight bounds, kept even on even sides. */
  function EvenBox(b: Bounds, width: nat, height: nat): (box: Box)
    requires b.subX <= b.subX2 < width && b.subY <= b.subY2 < height
    requires !GoesBelow(b.subX, b.subX2, width) && !GoesBelow(b.subY, b.subY2, height)
  {
    Box(EvenStart(b.subX, b.subX2, width), EvenStart(b.subY, b.subY2, height),
        EvenSize(b.subX, b.subX2, width), EvenSize(b.subY, b.subY2, height))
  }

  /** Along each axis the box encloses the bounds, sticks out by at most one position, and stays on the image. */
  lemma EvenFits(lo: nat, hi: nat, side: nat)
    requires lo <= hi < side && !GoesBelow(lo, hi, side)
    ensures var start, end := EvenStart(lo, hi, side), EvenStart(lo, hi, side) + EvenSize(lo, hi, side);
            start <= lo && hi < end <= side && (lo <= start + 1 && end <= hi + 2) &&
            (start < lo ==> end == hi + 1 && hi + 2 >= side) && (end > hi + 1 ==> hi + 2 < side) &&
            (side % 2 == 0 ==> (end - start) % 2 == 0) && (side % 2 == 1 ==> start == lo && end == hi + 1)
  {
  }

  lemma WidenTight(axis: Axis, lo: nat, hi: nat, selected: set<Coord>, c: Coord)
    requires Tight(axis, lo, hi, selected)
    ensures var p := Position(axis, c);
            Tight(axis, if p < lo then p else lo, if p > hi then p else hi, selected + {c})
  {
    assert c in selected + {c};
    var a :| a in selected && Position(axis, a) == lo;
    var b :| b in selected && Position(axis, b) == hi;
    assert a in selected + {c} && b in selected + {c};
  }

  lemma WidenBounds(b: Bounds, start: Bounds, selected: set<Coord>, c: Coord)
    requires b.Bound(start, selected) && start.subX2 == start.subY2 == 0 && c.x < start.subX && c.y < start.subY
    ensures b.Widen(c.x, c.y).Bound(start, selected + {c})
  {
    if selected == {} {
      assert c in selected + {c};
    } else {
      WidenTight(Vertical, b.subX, b.subX2, selected, c);
      WidenTight(Horizontal, b.subY, b.subY2, selected, c);
    }
  }

  /** The bounds after the first n pixels of a row that starts at column x0. */
  function ScanRow(b: Bounds, row: seq<bool>, x0: nat, y: nat, n: nat): Bounds
    requires n <= |row|
  {
    if n == 0 then b
    else
      var p := ScanRow(b, row, x0, y, n - 1);
      if row[n - 1] then p.Widen(x0 + n - 1, y) else p
  }

  /** The pixels selected by the first n pixels of that row, on top of those selected before. */
  ghost function ScanSet(before: set<Coord>, row: seq<bool>, x0: nat, y: nat, n: nat): set<Coord>
    requires n <= |row|
  {
    if n == 0 then before
    else
      var p := ScanSet(before, row, x0, y, n - 1);
      if row[n - 1] then p + {Coord(x0 + n - 1, y)} else p
  }

  lemma {:induction false} ScanSetIs(before: set<Coord>, row: seq<bool>, x0: nat, y: nat, n: nat, c: Coord)
    requires n <= |row|
    ensures c in ScanSet(before, row, x0, y, n) <==> c in before || (c.y == y && x0 <= c.x < x0 + n && row[c.x - x0])
  {
    if n > 0 {
      ScanSetIs(before, row, x0, y, n - 1, c);
    }
  }

  lemma {:induction false} ScanRowBounds(b: Bounds, start: Bounds, before: set<Coord>, row: seq<bool>, x0: nat, y: nat,
          n: nat)
    requires n <= |row| && b.Bound(start, before) && start.subX2 == start.subY2 == 0 && x0 + n <= start.subX &&
             y < start.subY
    ensures ScanRow(b, row, x0, y, n).Bound(start, ScanSet(before, row, x0, y, n))
  {
    if n > 0 {
      ScanRowBounds(b, start, before, row, x0, y, n - 1);
      WidenBounds(ScanRow(b, row, x0, y, n - 1), start, ScanSet(before, row, x0, y, n - 1), Coord(x0 + n - 1, y));
    }
  }

  ghost function RowBits(vMask: array2<bool>, vMaskX: nat, hMask: array2<bool>, y: nat): (s: seq<bool>)
    requires y < vMask.Length0 && y < hMask.Length0 && vMaskX + vMask.Length1 <= hMask.Length1
    reads vMask, hMask
    ensures |s| == vMask.Length1
  {
    seq(vMask.Length1, x requires 0 <= x < vMask.Length1 reads vMask, hMask => vMask[y, x] && hMask[y, x + vMaskX])
  }

  /** One row of the scan: writes the mask inside the vertical area's columns and widens the bounds. */
  method SelectRow(vMask: array2<bool>, vMaskX: nat, hMask: array2<bool>, mask: array2<bool>, y: nat, b: Bounds)
          returns (b': Bounds)
    requires mask != vMask && mask != hMask && y < mask.Length0
    requires hMask.Length0 == vMask.Length0 == mask.Length0 && hMask.Length1 == mask.Length1
    requires vMaskX + vMask.Length1 <= mask.Length1
    modifies mask
    ensures forall x: nat, z: nat {:trigger mask[z, x]} :: x < mask.Length1 && z < mask.Length0 ==>
              mask[z, x] == if z == y && vMaskX <= x < vMaskX + vMask.Length1
                  then RowBits(vMask, vMaskX, hMask, y)[x - vMaskX] else old(mask[z, x])
    ensures b' == ScanRow(b, RowBits(vMask, vMaskX, hMask, y), vMaskX, y, vMask.Length1)
  {
    b' := b;
    ghost var row := RowBits(vMask, vMaskX, hMask, y);
    for x := 0 to vMask.Length1
      invariant RowBits(vMask, vMaskX, hMask, y) == row && b' == ScanRow(b, row, vMaskX, y, x)
      invariant forall i: nat, z: nat {:trigger mask[z, i]} :: i < mask.Length1 && z < mask.Length0 ==>
        mask[z, i] == if z == y && vMaskX <= i < vMaskX + x then row[i - vMaskX] else old(mask[z, i])
    {
      var hx := x + vMaskX;
      if vMask[y, x] && hMask[y, hx] {
        mask[y, hx] := true;
        b' := b'.Widen(hx, y);
      } else {
        mask[y, hx] := false;
      }
    }
  }

  method SelectPixels(vMask: array2<bool>, vMaskX: nat, hMask: array2<bool>, mask: array2<bool>,
          ghost selected: set<Coord>)
    returns (b: Bounds)
    requires mask != vMask && mask != hMask
    requires hMask.Length0 == vMask.Length0 == mask.Length0 && hMask.Length1 == mask.Length1
    requires vMaskX + vMask.Length1 <= mask.Length1
    requires SelectedSet(vMask, vMaskX, hMask, selected)
    modifies mask
    ensures Scanned(mask, vMaskX, vMaskX + vMask.Length1, 0, mask.Length0, selected)
    ensures b.Bound(Bounds(vMask.Length1 + vMaskX, 0, mask.Length0, 0), selected)
  {
    b := Bounds(vMask.Length1 + vMaskX, 0, mask.Length0, 0);
    ghost var start := b;
    ghost var seen: set<Coord> := {};
    for y := 0 to mask.Length0
      invariant b.Bound(start, seen)
      invariant forall c {:trigger c in seen} :: c in seen <==> c.y < y && c in selected
      invariant Scanned(mask, vMaskX, vMaskX + vMask.Length1, 0, y, selected)
    {
      ghost var row := RowBits(vMask, vMaskX, hMask, y);
      ghost var seen' := ScanSet(seen, row, vMaskX, y, vMask.Length1);
      forall c: Coord ensures c in seen' <==> c.y < y + 1 && c in selected {
        ScanSetIs(seen, row, vMaskX, y, vMask.Length1, c);
        assert c.y == y ==> (c in selected <==> vMaskX <= c.x < vMaskX + vMask.Length1 && row[c.x - vMaskX]);
      }
      forall x: nat | vMaskX <= x < vMaskX + vMask.Length1 ensures row[x - vMaskX] <==> Coord(x, y) in selected {
        assert Selected(vMask, vMaskX, hMask, Coord(x, y)) <==> vMask[y, x - vMaskX] && hMask[y, x];
      }
      ScanRowBounds(b, start, seen, row, vMaskX, y, vMask.Length1);
      b := SelectRow(vMask, vMaskX, hMask, mask, y, b);
      seen := seen';
    }
    assert seen == selected;
  }

  /** The bounding box around the scanned bounds, kept even on even sides. */
  method KeepEven(b: Bounds, width: nat, height: nat) returns (box: Box)
    requires b.subX <= b.subX2 ==> b.subX2 < width && !GoesBelow(b.subX, b.subX2, width)
    requires b.subX <= b.subX2 ==> b.subY <= b.subY2 < height && !GoesBelow(b.subY, b.subY2, height)
    ensures b.subX2 < b.subX ==> box.width == 0 && box.height == 0
    ensures b.subX <= b.subX2 ==> box == EvenBox(b, width, height)
  {
    var subX, subY, subWidth, subHeight := b.subX, b.subY, 0, 0;
    if !(b.subX2 < b.subX) {
      subWidth := b.subX2 + 1 - b.subX;
      subHeight := b.subY2 + 1 - b.subY;
    }
    if width % 2 == 0 {
      if subWidth % 2 != 0 {
        subWidth := subWidth + 1;
        if subWidth + subX >= width { subX := subX - 1; }
      }
    }
    if height % 2 == 0 {
      if subHeight % 2 != 0 {
        subHeight := subHeight + 1;
        if subHeight + subY >= height { subY := subY - 1; }
      }
    }
    box := Box(subX, subY, subWidth, subHeight);
  }

  method GetBoundingMask(vMask: array2<bool>, vMaskX: nat, hMask: array2<bool>, mask: array2<bool>,
          ghost selected: set<Coord>)
    returns (box: Box, ghost b: Bounds)
    requires mask != vMask && mask != hMask
    requires hMask.Length0 == vMask.Length0 == mask.Length0 && hMask.Length1 == mask.Length1
    requires vMaskX + vMask.Length1 <= mask.Length1 && 0 < vMask.Length1
    requires SelectedSet(vMask, vMaskX, hMask, selected)
    requires !MissesOnlyLast(Vertical, mask.Length1, selected) && !MissesOnlyLast(Horizontal, mask.Length0, selected)
    modifies mask
    ensures Scanned(mask, vMaskX, vMaskX + vMask.Length1, 0, mask.Length0, selected)
    ensures selected == {} ==> box.width == 0 && box.height == 0
    ensures selected != {} ==>
              IsBounds(b, selected, mask.Length1, mask.Length0) && box == EvenBox(b, mask.Length1, mask.Length0)
  {
    var bounds := SelectPixels(vMask, vMaskX, hMask, mask, selected);
    b := bounds;
    if selected != {} {
      BoundsInside(b, selected, mask.Length1, mask.Length0) by {
        assert forall c :: c in selected ==> Selected(vMask, vMaskX, hMask, c);
      }
    }
    box := KeepEven(bounds, mask.Length1, mask.Length0);
  }

  /** The smallest bounds of a selection on an image, which can be kept even. */
  ghost predicate IsBounds(b: Bounds, selected: set<Coord>, width: nat, height: nat) {
    Tight(Vertical, b.subX, b.subX2, selected) && Tight(Horizontal, b.subY, b.subY2, selected) &&
    b.subX2 < width && b.subY2 < height && !GoesBelow(b.subX, b.subX2, width) && !GoesBelow(b.subY, b.subY2, height)
  }

  lemma OneBounds(a: Bounds, b: Bounds, selected: set<Coord>, width: nat, height: nat)
    requires IsBounds(a, selected, width, height) && IsBounds(b, selected, width, height)
    ensures a == b
  {
    OneTight(Vertical, a.subX, a.subX2, b.subX, b.subX2, selected);
    OneTight(Horizontal, a.subY, a.subY2, b.subY, b.subY2, selected);
  }

  lemma OneTight(axis: Axis, lo: nat, hi: nat, lo': nat, hi': nat, selected: set<Coord>)
    requires Tight(axis, lo, hi, selected) && Tight(axis, lo', hi', selected)
    ensures lo == lo' && hi == hi'
  {
    var a :| a in selected && Position(axis, a) == lo;
    var b :| b in selected && Position(axis, b) == hi;
    var a' :| a' in selected && Position(axis, a') == lo';
    var b' :| b' in selected && Position(axis, b') == hi';
  }

  lemma BoundsInside(b: Bounds, selected: set<Coord>, width: nat, height: nat)
    requires Tight(Vertical, b.subX, b.subX2, selected) && Tight(Horizontal, b.subY, b.subY2, selected)
    requires forall c :: c in selected ==> c.x < width && c.y < height
    requires !MissesOnlyLast(Vertical, width, selected) && !MissesOnlyLast(Horizontal, height, selected)
    ensures IsBounds(b, selected, width, height)
  {
    var c :| c in selected && Position(Vertical, c) == b.subX2;
    var d :| d in selected && Position(Horizontal, d) == b.subY2;
  }
}
