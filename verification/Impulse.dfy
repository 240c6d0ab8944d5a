/**
 * An image with a single bright pixel in the wavelet transform: the taps of the second convolution are three pixels
 * apart, so that they meet one pixel only of what the first convolution has left.
 */
module Impulse {
  import opened IuwtConvolution
  import opened IuwtDecomposition

  /** Sixteen by sixteen pixels, of which (8, 8) is 1. */
  const IMAGE: Image := seq(16, y => seq(16, x => if x == 8 && y == 8 then 1.0 else 0.0))

  /** The pixels that the taps of the second convolution meet around (8, 8). */
  predicate Met(a: int) { a == 2 || a == 5 || a == 8 || a == 11 || a == 14 }

  /** What filtering the rows leaves in the columns that the next convolution meets. */
  lemma FilteredRow(x: nat, y: nat)
    requires Met(x) && y < 16
    ensures Taps(IMAGE[y], 1, x, 5) == if x == 8 && y == 8 then 6.0 / 16.0 else 0.0
  {
    AllTaps(IMAGE[y], 1, x);
  }

  /** What one convolution leaves at the pixels that the next one meets. */
  lemma Once(x: nat, y: nat)
    requires Met(x) && Met(y)
    ensures Convolved(IMAGE, 16, 16, 1)[y][x] == if x == 8 && y == 8 then 36.0 / 256.0 else 0.0
  {
    var rows := Horizontal(IMAGE, 16, 16, 1);
    forall v: nat | v < 16 ensures rows[v][x] == if x == 8 && v == 8 then 6.0 / 16.0 else 0.0 {
      FilteredRow(x, v);
    }
    AllTaps(Column(rows, x), 1, y);
  }

  /** The smoothest image of two scales: 36 / 256 of 36 / 256 at the bright pixel. */
  lemma SmoothedTwice()
    ensures Smooth(IMAGE, 16, 16, 2)[8][8] == (36.0 / 256.0) * (36.0 / 256.0)
  {
    var once := Convolved(IMAGE, 16, 16, 1);
    assert Holes(1) == 1 && Holes(2) == 3;
    assert Smooth(IMAGE, 16, 16, 0) == IMAGE;
    assert Smooth(IMAGE, 16, 16, 1) == once;
    assert Smooth(IMAGE, 16, 16, 2) == Convolved(once, 16, 16, 3);
    var rows := Horizontal(once, 16, 16, 3);
    forall y: nat | y < 16 && Met(y) ensures rows[y][8] == if y == 8 then 6.0 / 16.0 * (36.0 / 256.0) else 0.0 {
      AllTaps(once[y], 3, 8);
      forall x: nat | Met(x) ensures once[y][x] == if x == 8 && y == 8 then 36.0 / 256.0 else 0.0 {
        Once(x, y);
      }
    }
    AllTaps(Column(rows, 8), 3, 8);
  }
}
