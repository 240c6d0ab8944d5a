/**
 * Cutting a box out of an image and putting it back (iuwt/iuwtdeconvolutionalgorithm.cpp).  Images are flat
 * row-major buffers; putting back works in place, so source and destination overlap.
 */
module BoxTrim {
  import RowMajor

  /** The box [x1, x2) x [y1, y2) of an image. */
  datatype Box = Box(width: nat, height: nat, x1: nat, y1: nat, x2: nat, y2: nat) {
    predicate Valid() { x1 <= x2 <= width && y1 <= y2 <= height }

    function Pixels(): nat { width * height }

    function BoxWidth(): nat
      requires Valid()
    {
      x2 - x1
    }

    function BoxPixels(): nat
      requires Valid()
    {
      (x2 - x1) * (y2 - y1)
    }

    predicate Inside(x: int, y: int) { x1 <= x < x2 && y1 <= y < y2 }

    /** The index of a pixel in the image. */
    function Big(x: nat, y: nat): nat { y * width + x }

    /** The index of a pixel in the cut-out box. */
    function Small(x: nat, y: nat): nat
      requires Valid() && x1 <= x && y1 <= y
    {
      (y - y1) * BoxWidth() + x - x1
    }
  }

  lemma IndexFits(b: Box, x: nat, y: nat)
    requires b.Valid()
    ensures x < b.width && y < b.height ==> b.Big(x, y) < b.Pixels()
    ensures b.Inside(x, y) ==> b.Small(x, y) < b.BoxPixels()
  {
    if x < b.width && y < b.height { RowMajor.Fits(b.width, b.height, x, y); }
    if b.Inside(x, y) { RowMajor.Fits(b.BoxWidth(), b.y2 - b.y1, x - b.x1, y - b.y1); }
  }

  /** The small image is the box of the big one. */
  ghost predicate IsTrim(b: Box, big: seq<real>, small: seq<real>)
    requires b.Valid()
  {
    |big| == b.Pixels() && |small| == b.BoxPixels() && forall x: nat,
        y: nat {:trigger TrimPixel(b, big, small, x, y)} :: b.Inside(x, y) ==> TrimPixel(b, big, small, x, y)
  }

  ghost predicate TrimPixel(b: Box, big: seq<real>, small: seq<real>, x: nat, y: nat)
    requires b.Valid() && |big| == b.Pixels() && |small| == b.BoxPixels() && b.Inside(x, y)
  {
    IndexFits(b, x, y);
    small[b.Small(x, y)] == big[b.Big(x, y)]
  }

  /** The big image is the small one in the box, and zero around it. */
  ghost predicate IsUntrim(b: Box, small: seq<real>, big: seq<real>)
    requires b.Valid()
  {
    |big| == b.Pixels() && |small| == b.BoxPixels() &&
    forall x: nat, y: nat {:trigger UntrimPixel(b, small, big, x, y)} :: x < b.width && y < b.height ==>
      UntrimPixel(b, small, big, x, y)
  }

  ghost predicate UntrimPixel(b: Box, small: seq<real>, big: seq<real>, x: nat, y: nat)
    requires b.Valid() && |big| == b.Pixels() && |small| == b.BoxPixels() && x < b.width && y < b.height
  {
    IndexFits(b, x, y);
    big[b.Big(x, y)] == if b.Inside(x, y) then small[b.Small(x, y)] else 0.0
  }

  /** Cutting out what was put back gives the small image. */
  lemma TrimAfterUntrim(b: Box, small: seq<real>, big: seq<real>, again: seq<real>)
    requires b.Valid() && IsUntrim(b, small, big) && IsTrim(b, big, again)
    ensures again == small
  {
    forall p | 0 <= p < |small| ensures again[p] == small[p] {
      RowMajor.Joins(b.BoxWidth(), b.y2 - b.y1, p);
      var x, y := p % b.BoxWidth() + b.x1, p / b.BoxWidth() + b.y1;
      assert b.Small(x, y) == p;
      assert TrimPixel(b, big, again, x, y);
      assert UntrimPixel(b, small, big, x, y);
    }
  }

  /** Putting back what was cut out gives the image, with zeros outside the box. */
  lemma UntrimAfterTrim(b: Box, big: seq<real>, small: seq<real>, again: seq<real>, x: nat, y: nat)
    requires b.Valid() && IsTrim(b, big, small) && IsUntrim(b, small, again) && x < b.width && y < b.height
    ensures b.Big(x, y) < |big| == |again| && again[b.Big(x, y)] == if b.Inside(x, y) then big[b.Big(x, y)] else 0.0
  {
    IndexFits(b, x, y);
    assert UntrimPixel(b, small, again, x, y);
    if b.Inside(x, y) {
      assert TrimPixel(b, big, small, x, y);
    }
  }

  // ----- moving in place

  /** Moves n elements to the right, last one first. */
  method MoveBack(a: array<real>, src: nat, dst: nat, n: nat)
    requires src <= dst && dst + n <= a.Length
    modifies a
    ensures forall p {:trigger a[p]} :: 0 <= p < a.Length ==>
            a[p] == old(a[if dst <= p < dst + n then p - dst + src else p])
  {
    var x: nat := n;
    while x != 0
      invariant x <= n
      invariant forall p {:trigger a[p]} :: 0 <= p < a.Length ==>
                a[p] == old(a[if dst + x <= p < dst + n then p - dst + src else p])
    {
      x := x - 1;
      a[dst + x] := a[src + x];
    }
  }

  method Zero(a: array<real>, from: nat, to: nat)
    requires from <= to <= a.Length
    modifies a
    ensures forall p :: 0 <= p < a.Length ==> a[p] == if from <= p < to then 0.0 else old(a[p])
  {
    for k := from to to
      invariant forall p :: 0 <= p < a.Length ==> a[p] == if from <= p < k then 0.0 else old(a[p])
    {
      a[k] := 0.0;
    }
  }

  /** Row y of the box is in its place; `at` is the index of the first pixel of the row. */
  ghost predicate RowMoved(b: Box, small: seq<real>, a: seq<real>, y: nat)
    requires b.Valid() && |a| == b.Pixels() && |small| == b.BoxPixels() && b.y1 <= y < b.y2
  {
    forall x: nat {:trigger UntrimPixel(b, small, a, x, y)} :: b.x1 <= x < b.x2 ==> UntrimPixel(b, small, a, x, y)
  }

  /** All pixels of row y are in their place. */
  ghost predicate RowDone(b: Box, small: seq<real>, a: seq<real>, y: nat)
    requires b.Valid() && |a| == b.Pixels() && |small| == b.BoxPixels() && y < b.height
  {
    forall x: nat {:trigger UntrimPixel(b, small, a, x, y)} :: x < b.width ==> UntrimPixel(b, small, a, x, y)
  }

  lemma Times(a: nat, b: nat, c: nat)
    requires a <= b
    ensures a * c <= b * c && c * a <= c * b && (a + 1) * c == a * c + c
  {
  }

  /** Where a row of the box is, and where it goes: never to the left, and past all rows before it. */
  lemma RowPlaces(b: Box, y: nat)
    requires b.Valid() && b.y1 <= y < b.y2
    ensures b.Small(b.x1, y) <= b.Big(0, y)
    ensures b.Small(b.x1, y + 1) == b.Small(b.x1, y) + b.BoxWidth()
    ensures b.Big(0, y) + b.width <= b.Pixels()
  {
    Times(y - b.y1, y, b.BoxWidth());
    Times(b.BoxWidth(), b.width, y);
    Times(y + 1, b.height, b.width);
    Times(y, y, b.width);
  }

  lemma RowsFollow(b: Box, y: nat, v: nat)
    requires y < v
    ensures b.Big(0, y) + b.width <= b.Big(0, v)
  {
    Times(y + 1, v, b.width);
    Times(y, y, b.width);
  }

  lemma InRow(b: Box, x: nat, y: nat)
    requires b.Valid()
    ensures b.Big(x, y) == b.Big(0, y) + x
    ensures b.x1 <= x && b.y1 <= y ==> b.Small(x, y) == b.Small(b.x1, y) + x - b.x1
  {
  }

  /** While moving: the rows from y on are in their place, and the sources of the rows before are untouched. */
  ghost predicate Moving(b: Box, small: seq<real>, a: seq<real>, y: nat)
    requires b.Valid() && |a| == b.Pixels() && |small| == b.BoxPixels() && b.y1 <= y <= b.y2
  {
    var sources := b.Small(b.x1, y);
    (forall p {:trigger a[p]} :: 0 <= p < sources && p < |a| && p < |small| ==> a[p] == small[p]) &&
    forall v: nat {:trigger RowMoved(b, small, a, v)} :: y <= v < b.y2 ==> RowMoved(b, small, a, v)
  }

  /** Moving row y keeps everything that is still needed. */
  lemma MovedRow(b: Box, small: seq<real>, was: seq<real>, a: seq<real>, y: nat)
    requires b.Valid() && |a| == |was| == b.Pixels() && |small| == b.BoxPixels() && b.y1 <= y < b.y2
    requires Moving(b, small, was, y + 1)
    requires var src, dst := b.Small(b.x1, y), b.Big(0, y) + b.x1;
             forall p {:trigger a[p]} :: 0 <= p < |a| ==> var from := if dst <= p < dst + b.BoxWidth()
               then p - dst + src else p; 0 <= from < |was| && a[p] == was[from]
    ensures Moving(b, small, a, y)
  {
    RowPlaces(b, y);
    forall x: nat | b.x1 <= x < b.x2 ensures UntrimPixel(b, small, a, x, y) {
      IndexFits(b, x, y);
      InRow(b, x, y);
    }
    assert RowMoved(b, small, a, y);
    forall v: nat | y < v < b.y2 ensures RowMoved(b, small, a, v) {
      RowsFollow(b, y, v);
      assert RowMoved(b, small, was, v);
      forall x: nat | b.x1 <= x < b.x2 ensures UntrimPixel(b, small, a, x, v) {
        IndexFits(b, x, v);
        InRow(b, x, v);
        assert UntrimPixel(b, small, was, x, v);
      }
    }
  }

  /**
   * After moving: the rows from `from` to `to` are entirely in their place, and the box is still in its place
   * elsewhere.
   */
  ghost predicate Filling(b: Box, small: seq<real>, a: seq<real>, from: nat, to: nat)
    requires b.Valid() && |a| == b.Pixels() && |small| == b.BoxPixels() && to <= b.height
  {
    (forall v: nat {:trigger RowDone(b, small, a, v)} :: from <= v < to ==> RowDone(b, small, a, v)) &&
    forall v: nat {:trigger RowMoved(b, small, a, v)} :: b.y1 <= v < b.y2 ==> RowMoved(b, small, a, v)
  }

  /** Zeros in row y from x = from to x = to, outside the box, change nothing else. */
  ghost predicate ZeroedRow(b: Box, was: seq<real>, a: seq<real>, y: nat, from: nat, to: nat)
    requires |a| == |was|
  {
    forall p {:trigger a[p]} :: 0 <= p < |a| ==>
      a[p] == if b.Big(0, y) + from <= p < b.Big(0, y) + to then 0.0 else was[p]
  }

  lemma ZeroKeepsRow(b: Box, small: seq<real>, was: seq<real>, a: seq<real>, y: nat, from: nat, to: nat, v: nat)
    requires b.Valid() && |a| == |was| == b.Pixels() && |small| == b.BoxPixels() && y < b.height && v < b.height &&
             v != y
    requires from <= to <= b.width && ZeroedRow(b, was, a, y, from, to)
    ensures RowDone(b, small, was, v) ==> RowDone(b, small, a, v)
    ensures b.y1 <= v < b.y2 && RowMoved(b, small, was, v) ==> RowMoved(b, small, a, v)
  {
    if v < y { RowsFollow(b, v, y); } else { RowsFollow(b, y, v); }
    forall x: nat | x < b.width && UntrimPixel(b, small, was, x, v) ensures UntrimPixel(b, small, a, x, v) {
      IndexFits(b, x, v);
      InRow(b, x, v);
    }
  }

  /**
   * Zeroing a part of a row outside the box keeps the rows that are in their place, and puts that part in its
   * place.
   */
  lemma ZeroFills(b: Box, small: seq<real>, was: seq<real>, a: seq<real>, y: nat, from: nat, to: nat)
    requires b.Valid() && |a| == |was| == b.Pixels() && |small| == b.BoxPixels() && y < b.height
    requires from <= to <= b.width && ZeroedRow(b, was, a, y, from, to)
    requires forall x: nat {:trigger b.Inside(x, y)} :: from <= x < to ==> !b.Inside(x, y)
    ensures forall x: nat {:trigger UntrimPixel(b, small, a, x, y)} :: from <= x < to ==> UntrimPixel(b, small, a, x, y)
    ensures forall x: nat {:trigger UntrimPixel(b, small, a, x, y)} ::
              x < b.width && UntrimPixel(b, small, was, x, y) ==>
              UntrimPixel(b, small, a, x, y)
  {
    forall x: nat | x < b.width && (from <= x < to || UntrimPixel(b, small, was, x, y))
      ensures UntrimPixel(b, small, a, x, y) {
      IndexFits(b, x, y);
      InRow(b, x, y);
      assert from <= x < to ==> !b.Inside(x, y);
    }
  }

  // ----- the two operations

  /** The box is copied up to pixel (x, y). */
  ghost predicate Copied(b: Box, big: seq<real>, small: seq<real>, x: int, y: int)
    requires b.Valid() && |big| == b.Pixels() && |small| == b.BoxPixels()
  {
    forall u: nat, v: nat {:trigger TrimPixel(b, big, small, u, v)} ::
      b.Inside(u, v) && (v < y || (v == y && u < x)) ==>
        TrimPixel(b, big, small, u, v)
  }

  lemma CopyStep(b: Box, big: seq<real>, was: seq<real>, small: seq<real>, x: nat, y: nat)
    requires b.Valid() && |big| == b.Pixels() && |small| == |was| == b.BoxPixels() && b.Inside(x, y) &&
             Copied(b, big, was, x, y)
    requires b.Small(x, y) < |was| && b.Big(x, y) < |big| && small == was[b.Small(x, y) := big[b.Big(x, y)]]
    ensures Copied(b, big, small, x + 1, y)
  {
    forall u: nat, v: nat | b.Inside(u, v) && (v < y || (v == y && u < x + 1)) ensures TrimPixel(b, big, small, u, v) {
      IndexFits(b, u, v);
      if (u, v) != (x, y) {
        SmallOrder(b, u, v, x, y);
        assert TrimPixel(b, big, was, u, v);
      }
    }
  }

  lemma SmallOrder(b: Box, u: nat, v: nat, x: nat, y: nat)
    requires b.Valid() && b.Inside(u, v) && b.Inside(x, y) && (v < y || (v == y && u < x))
    ensures b.Small(u, v) < b.Small(x, y)
  {
    if v < y {
      Times(v - b.y1 + 1, y - b.y1, b.BoxWidth());
      Times(v - b.y1, v - b.y1, b.BoxWidth());
    }
  }

  method CopyPixel(source: array<real>, dest: array<real>, b: Box, x: nat, y: nat)
    requires b.Valid() && source.Length == b.Pixels() && dest.Length == b.BoxPixels() && source != dest &&
             b.Inside(x, y)
    requires Copied(b, source[..], dest[..], x, y)
    modifies dest
    ensures Copied(b, source[..], dest[..], x + 1, y)
  {
    IndexFits(b, x, y);
    ghost var was := dest[..];
    dest[b.Small(x, y)] := source[b.Big(x, y)];
    CopyStep(b, source[..], was, dest[..], x, y);
  }

  /** trim: a copy of the box. */
  method Trim(source: array<real>, b: Box) returns (dest: array<real>)
    requires b.Valid() && source.Length == b.Pixels()
    ensures fresh(dest) && IsTrim(b, source[..], dest[..])
  {
    dest := new real[b.BoxPixels()];
    for y := b.y1 to b.y2
      invariant Copied(b, source[..], dest[..], b.x1, y)
    {
      for x := b.x1 to b.x2
        invariant Copied(b, source[..], dest[..], x, y)
      {
        CopyPixel(source, dest, b, x, y);
      }
    }
  }

  /** Moves row y of the box to its place. */
  method MoveRow(image: array<real>, b: Box, y: nat, ghost small: seq<real>)
    requires b.Valid() && image.Length == b.Pixels() && |small| == b.BoxPixels() && b.y1 <= y < b.y2 &&
             Moving(b, small, image[..], y + 1)
    modifies image
    ensures Moving(b, small, image[..], y)
  {
    ghost var was := image[..];
    RowPlaces(b, y);
    var src, dst := b.Small(b.x1, y), b.Big(0, y) + b.x1;
    MoveBack(image, src, dst, b.BoxWidth());
    MovedRow(b, small, was, image[..], y);
  }

  /** Moves the rows of the box to their place, last one first. */
  method MoveRows(image: array<real>, b: Box, ghost small: seq<real>)
    requires b.Valid() && image.Length == b.Pixels() && |small| == b.BoxPixels() && Moving(b, small, image[..], b.y2)
    modifies image
    ensures Moving(b, small, image[..], b.y1)
  {
    var y := b.y2;
    while y != b.y1
      invariant b.y1 <= y <= b.y2 && Moving(b, small, image[..], y)
    {
      y := y - 1;
      MoveRow(image, b, y, small);
    }
  }

  /** Zeroes row y from `from` to `to`, outside the box. */
  method ZeroPart(image: array<real>, b: Box, y: nat, from: nat, to: nat)
    requires b.Valid() && image.Length == b.Pixels() && y < b.height && from <= to <= b.width
    modifies image
    ensures ZeroedRow(b, old(image[..]), image[..], y, from, to)
  {
    Times(y + 1, b.height, b.width);
    Times(y, y, b.width);
    Zero(image, b.Big(0, y) + from, b.Big(0, y) + to);
  }

  /** Zeroes what lies outside the box in row y. */
  method FillRow(image: array<real>, b: Box, y: nat, ghost small: seq<real>)
    requires b.Valid() && image.Length == b.Pixels() && |small| == b.BoxPixels() && y < b.height &&
             Filling(b, small, image[..], 0, y)
    modifies image
    ensures Filling(b, small, image[..], 0, y + 1)
  {
    ghost var was := image[..];
    if b.y1 <= y < b.y2 {
      ZeroPart(image, b, y, 0, b.x1);
      ghost var mid := image[..];
      ZeroPart(image, b, y, b.x2, b.width);
      FilledAround(b, small, was, mid, image[..], y);
    } else {
      ZeroPart(image, b, y, 0, b.width);
      FilledWhole(b, small, was, image[..], y);
    }
  }

  lemma FilledWhole(b: Box, small: seq<real>, was: seq<real>, a: seq<real>, y: nat)
    requires b.Valid() && |a| == |was| == b.Pixels() && |small| == b.BoxPixels() && y < b.height && !(b.y1 <= y < b.y2)
    requires Filling(b, small, was, 0, y) && ZeroedRow(b, was, a, y, 0, b.width)
    ensures Filling(b, small, a, 0, y + 1)
  {
    ZeroFills(b, small, was, a, y, 0, b.width);
    assert RowDone(b, small, a, y);
    OtherRowsKeep(b, small, was, a, y, 0, b.width);
  }

  lemma FilledAround(b: Box, small: seq<real>, was: seq<real>, mid: seq<real>, a: seq<real>, y: nat)
    requires b.Valid() && |a| == |was| == |mid| == b.Pixels() && |small| == b.BoxPixels() && b.y1 <= y < b.y2
    requires Filling(b, small, was, 0, y) && ZeroedRow(b, was, mid, y, 0, b.x1) &&
             ZeroedRow(b, mid, a, y, b.x2, b.width)
    ensures Filling(b, small, a, 0, y + 1)
  {
    ZeroFills(b, small, was, mid, y, 0, b.x1);
    ZeroFills(b, small, mid, a, y, b.x2, b.width);
    assert RowMoved(b, small, was, y);
    assert RowDone(b, small, a, y) && RowMoved(b, small, a, y);
    OtherRowsKeep(b, small, was, mid, y, 0, b.x1);
    OtherRowsKeep(b, small, mid, a, y, b.x2, b.width);
  }

  lemma OtherRowsKeep(b: Box, small: seq<real>, was: seq<real>, a: seq<real>, y: nat, from: nat, to: nat)
    requires b.Valid() && |a| == |was| == b.Pixels() && |small| == b.BoxPixels() && y < b.height
    requires from <= to <= b.width && ZeroedRow(b, was, a, y, from, to)
    ensures forall v: nat {:trigger RowDone(b, small, a, v)} :: v < b.height && v != y && RowDone(b, small, was, v) ==>
            RowDone(b, small, a, v)
    ensures forall v: nat {:trigger RowMoved(b, small, a, v)} ::
              b.y1 <= v < b.y2 && v != y && RowMoved(b, small, was, v) ==>
              RowMoved(b, small, a, v)
  {
    forall v: nat | v < b.height && v != y
      ensures RowDone(b, small, was, v) ==> RowDone(b, small, a, v)
      ensures b.y1 <= v < b.y2 && RowMoved(b, small, was, v) ==> RowMoved(b, small, a, v)
    {
      ZeroKeepsRow(b, small, was, a, y, from, to, v);
    }
  }

  /** untrim, on a buffer of the full size that starts with the small image. */
  method UntrimInPlace(image: array<real>, b: Box, ghost small: seq<real>)
    requires b.Valid() && image.Length == b.Pixels() && |small| == b.BoxPixels() && small <= image[..]
    modifies image
    ensures IsUntrim(b, small, image[..])
  {
    assert Moving(b, small, image[..], b.y2);
    MoveRows(image, b, small);
    for y := 0 to b.height
      invariant Filling(b, small, image[..], 0, y)
    {
      FillRow(image, b, y, small);
    }
    AllRowsDone(b, small, image[..]);
  }

  lemma AllRowsDone(b: Box, small: seq<real>, a: seq<real>)
    requires b.Valid() && |a| == b.Pixels() && |small| == b.BoxPixels() && Filling(b, small, a, 0, b.height)
    ensures IsUntrim(b, small, a)
  {
    forall x: nat, y: nat | x < b.width && y < b.height ensures UntrimPixel(b, small, a, x, y) {
      assert RowDone(b, small, a, y);
    }
  }

  /** untrim: the box back in an image of the given size. */
  method Untrim(image: array<real>, b: Box) returns (result: array<real>)
    requires b.Valid() && image.Length == b.BoxPixels()
    ensures fresh(result) && IsUntrim(b, image[..], result[..])
  {
    BoxInImage(b);
    result := new real[b.Pixels()](_ => 0.0);
    for k := 0 to image.Length
      invariant result[..k] == image[..k]
    {
      result[k] := image[k];
    }
    assert image[..image.Length] == image[..];
    UntrimInPlace(result, b, image[..]);
  }

  lemma BoxInImage(b: Box)
    requires b.Valid()
    ensures b.BoxPixels() <= b.Pixels()
  {
    Times(b.y2 - b.y1, b.height, b.BoxWidth());
    Times(b.BoxWidth(), b.width, b.height);
  }
}
