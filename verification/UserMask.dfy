/**
 * The user mask in the split of ParallelDeconvolution (deconvolution/paralleldeconvolution.cpp): its part in a box is
 * copied to the start of the mask buffer, without gaps between its rows, and combined with the boundary mask there.
 */
module UserMask {
  import RowMajor
  import opened DividingPath
  import opened FloodAreas

  /** The values of the user mask in a box, row by row. */
  ghost function Values(user: array2<bool>, box: Box): (v: seq<bool>)
    requires box.x + box.width <= user.Length1 && box.y + box.height <= user.Length0
    reads user
    ensures |v| == box.width * box.height
    ensures forall p :: 0 <= p < |v| ==> v[p] == user[InBox(box, p).y, InBox(box, p).x]
  {
    seq(box.width * box.height, p requires 0 <= p < box.width * box.height reads user =>
      user[InBox(box, p).y, InBox(box, p).x])
  }

  /** The pixel at index p of a flat buffer with rows of the given width. */
  predicate IsAt(c: Coord, width: nat, p: nat) { 0 < width && c == Coord(p % width, p / width) }

  /** The pixels of a buffer in the order of its flat indices. */
  ghost predicate IsOrder(order: seq<Coord>, width: nat, height: nat) {
    |order| == width * height &&
    (forall p {:trigger order[p]} :: 0 <= p < |order| ==> order[p].x < width && order[p].y < height) &&
    (forall p {:trigger order[p]} :: 0 <= p < |order| ==> IsAt(order[p], width, p)) &&
    forall p, q {:trigger order[p], order[q]} :: 0 <= p < |order| && 0 <= q < |order| && order[p] == order[q] ==>
      p == q
  }

  lemma OrderExists(width: nat, height: nat) returns (order: seq<Coord>)
    ensures IsOrder(order, width, height)
  {
    order := seq(width * height, p requires 0 <= p < width * height => AtIndex(width, height, p));
    forall p | 0 <= p < |order| ensures order[p].x < width && order[p].y < height {
      RowMajor.Joins(width, height, p);
    }
    forall p, q | 0 <= p < |order| && 0 <= q < |order| && order[p] == order[q] ensures p == q {
      RowMajor.Joins(width, height, p);
      RowMajor.Joins(width, height, q);
    }
  }

  function AtIndex(width: nat, height: nat, p: nat): (c: Coord)
    requires p < width * height
    ensures IsAt(c, width, p)
  {
    RowMajor.Joins(width, height, p);
    Coord(p % width, p / width)
  }

  /** Where a pixel is in the order. */
  lemma IndexOf(order: seq<Coord>, width: nat, height: nat, c: Coord) returns (p: nat)
    requires IsOrder(order, width, height) && c.x < width && c.y < height
    ensures p == c.y * width + c.x < |order| && order[p] == c
  {
    RowMajor.Fits(width, height, c.x, c.y);
    RowMajor.Splits(width, c.x, c.y);
    p := c.y * width + c.x;
    assert IsAt(order[p], width, p);
  }

  /** The buffer shows the first n values at its start, and what it held behind them. */
  twostate predicate Copied(mask: array2<bool>, order: seq<Coord>, values: seq<bool>, n: nat)
    requires n <= |values| <= |order|
    requires forall p {:trigger order[p]} :: 0 <= p < |order| ==>
               order[p].x < mask.Length1 && order[p].y < mask.Length0
    reads mask
  {
    forall p {:trigger order[p]} :: 0 <= p < |order| ==>
      mask[order[p].y, order[p].x] == if p < n then values[p] else old(mask[order[p].y, order[p].x])
  }

  method ReadBox(user: array2<bool>, box: Box, p: nat) returns (value: bool)
    requires box.x + box.width <= user.Length1 && box.y + box.height <= user.Length0 && p < box.width * box.height
    ensures value == Values(user, box)[p]
  {
    RowMajor.Joins(box.width, box.height, p);
    value := user[box.y + p / box.width, box.x + p % box.width];
  }

  method WriteFlat(mask: array2<bool>, p: nat, value: bool, ghost c: Coord)
    requires IsAt(c, mask.Length1, p) && c.x < mask.Length1 && c.y < mask.Length0
    modifies mask
    ensures forall x: nat, y: nat {:trigger mask[y, x]} :: x < mask.Length1 && y < mask.Length0 ==>
              mask[y, x] == if Coord(x, y) == c then value else old(mask[y, x])
  {
    mask[p / mask.Length1, p % mask.Length1] := value;
  }

  method ReadFlat(mask: array2<bool>, p: nat, ghost c: Coord) returns (value: bool)
    requires IsAt(c, mask.Length1, p) && c.x < mask.Length1 && c.y < mask.Length0
    ensures value == mask[c.y, c.x]
  {
    value := mask[p / mask.Length1, p % mask.Length1];
  }

  /** Copies a box of the user mask to the start of the buffer. */
  method CopyToStart(user: array2<bool>, box: Box, mask: array2<bool>, ghost values: seq<bool>,
                     ghost order: seq<Coord>)
    requires user != mask && box.x + box.width <= user.Length1 && box.y + box.height <= user.Length0
    requires values == Values(user, box) && IsOrder(order, mask.Length1, mask.Length0) && |values| <= |order|
    modifies mask
    ensures Copied(mask, order, values, |values|)
  {
    var p := 0;
    while p < box.width * box.height
      invariant p <= |values| && values == Values(user, box) && Copied(mask, order, values, p)
    {
      var value := ReadBox(user, box, p);
      WriteFlat(mask, p, value, order[p]);
      p := p + 1;
    }
  }

  /** The buffer shows the values at its start. */
  ghost predicate ShowsAtStart(mask: array2<bool>, order: seq<Coord>, values: seq<bool>)
    requires IsOrder(order, mask.Length1, mask.Length0) && |values| <= |order|
    reads mask
  {
    forall p {:trigger order[p]} :: 0 <= p < |values| ==> mask[order[p].y, order[p].x] == values[p]
  }

  /** A pixel of the boundary mask combined with the one at the same flat index of the buffer. */
  method CombinePixel(box: Box, boundary: array2<bool>, mask: array2<bool>, x: nat, y: nat, ghost values: seq<bool>,
                      ghost order: seq<Coord>)
    returns (value: bool)
    requires boundary.Length0 == box.height && boundary.Length1 == box.width && |values| == box.width * box.height
    requires IsOrder(order, mask.Length1, mask.Length0) && |values| <= |order| && ShowsAtStart(mask, order, values)
    requires x < box.width && y < box.height
    ensures 0 <= y * box.width + x < |values| && value == (boundary[y, x] && values[y * box.width + x])
  {
    RowMajor.Fits(box.width, box.height, x, y);
    var p: nat := y * box.width + x;
    var start := ReadFlat(mask, p, order[p]);
    value := boundary[y, x] && start;
  }

  /** The value of the user mask at pixel (x, y) of a box. */
  predicate UserAt(user: array2<bool>, box: Box, x: nat, y: nat)
    requires box.x + box.width <= user.Length1 && box.y + box.height <= user.Length0
    requires x < box.width && y < box.height
    reads user
  {
    user[box.y + y, box.x + x]
  }

  lemma ValueAt(user: array2<bool>, box: Box, x: nat, y: nat)
    requires box.x + box.width <= user.Length1 && box.y + box.height <= user.Length0
    requires x < box.width && y < box.height
    ensures 0 <= y * box.width + x < |Values(user, box)|
    ensures Values(user, box)[y * box.width + x] == UserAt(user, box, x, y)
  {
    RowMajor.Fits(box.width, box.height, x, y);
    RowMajor.Splits(box.width, x, y);
  }

  /** The boundary mask combined with the start of the buffer, which shows the user mask in the box. */
  method Combine(user: array2<bool>, box: Box, boundary: array2<bool>, mask: array2<bool>, ghost order: seq<Coord>)
    returns (clean: array2<bool>)
    requires boundary.Length0 == box.height && boundary.Length1 == box.width
    requires box.x + box.width <= user.Length1 && box.y + box.height <= user.Length0
    requires IsOrder(order, mask.Length1, mask.Length0) && |Values(user, box)| <= |order|
    requires ShowsAtStart(mask, order, Values(user, box))
    ensures fresh(clean) && clean.Length0 == box.height && clean.Length1 == box.width
    ensures forall x: nat, y: nat {:trigger clean[y, x]} :: x < box.width && y < box.height ==>
              clean[y, x] == (boundary[y, x] && UserAt(user, box, x, y))
  {
    clean := new bool[box.height, box.width];
    ghost var values := Values(user, box);
    for y := 0 to box.height
      invariant values == Values(user, box) && ShowsAtStart(mask, order, values)
      invariant forall x: nat, j: nat {:trigger clean[j, x]} :: x < box.width && j < y ==>
                  clean[j, x] == (boundary[j, x] && UserAt(user, box, x, j))
    {
      for x := 0 to box.width
        invariant values == Values(user, box) && ShowsAtStart(mask, order, values)
        invariant forall i: nat, j: nat {:trigger clean[j, i]} :: i < box.width && (j < y || (j == y && i < x)) ==>
                    clean[j, i] == (boundary[j, i] && UserAt(user, box, i, j))
      {
        ValueAt(user, box, x, y);
        var value := CombinePixel(box, boundary, mask, x, y, values, order);
        clean[y, x] := value;
      }
    }
  }
}
