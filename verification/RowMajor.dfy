/**
 * Positions in a row-major buffer: pixel (x, y) of an image of width w is element y * w + x.
 */
module RowMajor {
  lemma Fits(w: nat, h: nat, x: int, y: int)
    requires 0 <= x < w && 0 <= y < h
    ensures 0 <= y * w + x < w * h
  {
    assert (y + 1) * w <= h * w;
  }

  lemma Splits(w: nat, x: int, y: int)
    requires 0 <= x < w && 0 <= y
    ensures (y * w + x) % w == x && (y * w + x) / w == y
  {
    var i := y * w + x;
    var row := i / w;
    assert row * w + i % w == i;
    assert row < y ==> (row + 1) * w <= y * w;
    assert row > y ==> (y + 1) * w <= row * w;
  }

  lemma Joins(w: nat, h: nat, p: nat)
    requires p < w * h
    ensures 0 < w && p % w < w && p / w < h && p / w * w + p % w == p
  {
    assert w == 0 ==> w * h == 0;
    var row := p / w;
    assert row >= h ==> h * w <= row * w;
  }

  /** The elements are ordered by row, then by column. */
  lemma Order(w: nat, x: int, y: int, x': int, y': int)
    requires 0 <= x < w && 0 <= y && 0 <= x' < w && 0 <= y'
    ensures y * w + x < y' * w + x' <==> y < y' || (y == y' && x < x')
  {
    if y < y' {
      assert (y + 1) * w <= y' * w;
    } else if y' < y {
      assert (y' + 1) * w <= y * w;
    }
  }
}
