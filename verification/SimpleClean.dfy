/**
 * Subtracting a scaled point-spread function from an image (deconvolution/simpleclean.cpp), in row
 * ranges as the threaded tools hand them out.  Image and PSF are flat row-major buffers; an image set
 * keeps its images in the rows of one buffer.
 */
module SimpleClean {
  import RowMajor
  import opened Shares

  /** The value of a PSF at an offset from its centre pixel (w / 2, h / 2); zero outside. */
  function PsfAt(psf: seq<real>, w: nat, h: nat, dx: int, dy: int): real
    requires |psf| == w * h
  {
    if 0 <= dx + w / 2 < w && 0 <= dy + h / 2 < h then
      RowMajor.Fits(w, h, dx + w / 2, dy + h / 2);
      psf[(dy + h / 2) * w + dx + w / 2]
    else 0.0
  }

  /** The part of the PSF that PartialSubtractImage uses: as many pixels before the centre as from the centre on. */
  function WindowAt(psf: seq<real>, w: nat, h: nat, dx: int, dy: int): real
    requires |psf| == w * h
  {
    if -(w / 2) <= dx < w / 2 && -(h / 2) <= dy < h / 2 then PsfAt(psf, w, h, dx, dy) else 0.0
  }

  /** For even sides the window is the whole PSF. */
  lemma WindowIsWhole(psf: seq<real>, w: nat, h: nat, dx: int, dy: int)
    requires |psf| == w * h && w % 2 == 0 && h % 2 == 0
    ensures WindowAt(psf, w, h, dx, dy) == PsfAt(psf, w, h, dx, dy)
  {
  }

  /** Exactly when a side is odd, some PSF has a pixel that the window drops. */
  lemma WindowDropsOddSide(w: nat, h: nat)
    requires 0 < w && 0 < h
    ensures (forall psf: seq<real>, dx, dy :: |psf| == w * h ==>
            WindowAt(psf, w, h, dx, dy) == PsfAt(psf, w, h, dx, dy)) <==>
            w % 2 == 0 && h % 2 == 0
  {
    if w % 2 == 0 && h % 2 == 0 {
      forall psf: seq<real>, dx, dy | |psf| == w * h ensures WindowAt(psf, w, h, dx, dy) == PsfAt(psf, w, h, dx, dy) {
        WindowIsWhole(psf, w, h, dx, dy);
      }
    } else {
      RowMajor.Fits(w, h, w - 1, h - 1);
      var psf := seq(w * h, _ => 1.0);
      assert PsfAt(psf, w, h, w - 1 - w / 2, h - 1 - h / 2) == 1.0;
      assert WindowAt(psf, w, h, w - 1 - w / 2, h - 1 - h / 2) == 0.0;
    }
  }

  /** The contents of an image set: one sequence of pixels per image. */
  ghost function Images(a: array2<real>): (s: seq<seq<real>>)
    reads a
    ensures |s| == a.Length0 && forall k :: 0 <= k < a.Length0 ==> |s[k]| == a.Length1
  {
    seq(a.Length0, k requires 0 <= k < a.Length0 reads a => seq(a.Length1,
        p requires 0 <= p < a.Length1 reads a => a[k, p]))
  }

  /** Subtracts n pixels of a PSF row, two at a time and an odd one at the end. */
  method SubtractRow(set_: array2<real>, i: nat, imageIter0: nat, psf: seq<real>, psfIter0: nat, n: nat, factor: real)
    requires i < set_.Length0 && imageIter0 + n <= set_.Length1 && psfIter0 + n <= |psf|
    modifies set_
    ensures forall k: nat, p: nat {:trigger set_[k, p]} :: k < set_.Length0 && p < set_.Length1 ==>
              set_[k, p] == old(set_[k, p]) - if k == i && imageIter0 <= p < imageIter0 + n
                  then psf[psfIter0 + (p - imageIter0)] * factor else 0.0
  {
    var isAligned := n % 2 == 0;
    var end := if isAligned then n else n - 1;
    var imageIter, psfIter := imageIter0, psfIter0;
    var xpos := 0;
    while xpos != end
      invariant 0 <= xpos <= end && (end - xpos) % 2 == 0 && imageIter == imageIter0 + xpos &&
                psfIter == psfIter0 + xpos
      invariant forall k: nat, p: nat {:trigger set_[k, p]} :: k < set_.Length0 && p < set_.Length1 ==>
        set_[k, p] == old(set_[k, p]) - if k == i && imageIter0 <= p < imageIter0 + xpos
            then psf[psfIter0 + (p - imageIter0)] * factor else 0.0
    {
      set_[i, imageIter] := set_[i, imageIter] - psf[psfIter] * factor;
      set_[i, imageIter + 1] := set_[i, imageIter + 1] - psf[psfIter + 1] * factor;
      imageIter := imageIter + 2;
      psfIter := psfIter + 2;
      xpos := xpos + 2;
    }
    if !isAligned {
      set_[i, imageIter] := set_[i, imageIter] - psf[psfIter] * factor;
    }
  }

  /** A subtraction of a PSF at (x, y) from image i of a set. */
  datatype Job = Job(i: nat, width: nat, height: nat, psf: seq<real>, psfWidth: nat, psfHeight: nat, x: nat, y: nat,
      factor: real) {
    predicate Valid(images: nat, pixels: nat) {
      pixels == width * height && |psf| == psfWidth * psfHeight && i < images && x < width && y < height
    }

    /** What the subtraction takes from pixel (c, r). */
    function Taken(c: int, r: int): real
      requires |psf| == psfWidth * psfHeight
    {
      WindowAt(psf, psfWidth, psfHeight, c - x, r - y) * factor
    }

    predicate RowUsed(r: int) { -(psfHeight / 2) <= r - y < psfHeight / 2 }

    /** Pixel (c, r) of image k after the subtraction from the rows [startY, endY). */
    ghost predicate PixelDone(was: seq<seq<real>>, now: seq<seq<real>>, startY: int, endY: int, k: nat, c: nat, r: nat)
      requires |psf| == psfWidth * psfHeight && c < width && r < height && k < |was| == |now| &&
               |was[k]| == |now[k]| == width * height
    {
      RowMajor.Fits(width, height, c, r);
      now[k][r * width + c] == was[k][r * width + c] - if k == i && startY <= r < endY then Taken(c, r) else 0.0
    }

    ghost predicate Done(was: seq<seq<real>>, now: seq<seq<real>>, startY: int, endY: int) {
      |psf| == psfWidth * psfHeight && |was| == |now| &&
      (forall k :: 0 <= k < |was| ==> |was[k]| == |now[k]| == width * height) &&
      forall k: nat, c: nat, r: nat {:trigger PixelDone(was, now, startY, endY, k, c, r)} ::
        k < |was| && c < width && r < height ==> PixelDone(was, now, startY, endY, k, c, r)
    }
  }

  /** Row ranges that meet can be joined. */
  lemma DoneJoins(j: Job, was: seq<seq<real>>, mid: seq<seq<real>>, now: seq<seq<real>>, a: int, b: int, c: int)
    requires j.Done(was, mid, a, b) && j.Done(mid, now, b, c) && a <= b <= c
    ensures j.Done(was, now, a, c)
  {
    forall k: nat, x: nat, y: nat | k < |was| && x < j.width && y < j.height
      ensures j.PixelDone(was, now, a, c, k, x, y) {
      assert j.PixelDone(was, mid, a, b, k, x, y) && j.PixelDone(mid, now, b, c, k, x, y);
    }
  }

  /** Nothing is taken from rows before the window or behind it. */
  lemma DoneWidens(j: Job, was: seq<seq<real>>, now: seq<seq<real>>, a: int, b: int, a': int, b': int)
    requires j.Done(was, now, a, b) && a' <= a && b <= b'
    requires forall r {:trigger j.RowUsed(r)} :: (a' <= r < b' && !(a <= r < b)) ==> !j.RowUsed(r)
    ensures j.Done(was, now, a', b')
  {
    forall k: nat, x: nat, y: nat | k < |was| && x < j.width && y < j.height
      ensures j.PixelDone(was, now, a', b', k, x, y) {
      assert j.PixelDone(was, now, a, b, k, x, y);
      assert j.RowUsed(y) || j.Taken(x, y) == 0.0;
    }
  }

  lemma DoneNothing(j: Job, was: seq<seq<real>>, a: int, b: int)
    requires |j.psf| == j.psfWidth * j.psfHeight && b <= a
    requires forall k :: 0 <= k < |was| ==> |was[k]| == j.width * j.height
    ensures j.Done(was, was, a, b)
  {
  }

  /** One image row of the subtraction, from where it starts in the image and in the PSF. */
  lemma RowDone(j: Job, was: seq<seq<real>>, now: seq<seq<real>>, ypos: nat, startX: nat, n: nat, base: nat,
          psfBase: nat)
    requires |was| == |now| && j.i < |was| && j.Valid(|was|, j.width * j.height) && ypos < j.height
    requires forall k :: 0 <= k < |was| ==> |was[k]| == |now[k]| == j.width * j.height
    requires startX == if j.x - j.psfWidth / 2 > 0 then j.x - j.psfWidth / 2 else 0
    requires startX + n == if j.x + j.psfWidth / 2 < j.width then j.x + j.psfWidth / 2 else j.width
    requires j.RowUsed(ypos) && base == ypos * j.width + startX
    requires psfBase == (ypos - j.y + j.psfHeight / 2) * j.psfWidth + startX - j.x + j.psfWidth / 2 &&
             psfBase + n <= |j.psf|
    requires forall k: nat, p: nat {:trigger now[k][p]} :: k < |was| && p < |was[k]| ==>
               now[k][p] == was[k][p] - if k == j.i && base <= p < base + n
                   then j.psf[psfBase + (p - base)] * j.factor else 0.0
    ensures j.Done(was, now, ypos, ypos + 1)
  {
    var next := ypos + 1;
    forall k: nat, c: nat, r: nat | k < |was| && c < j.width && r < j.height
      ensures j.PixelDone(was, now, ypos, next, k, c, r) {
      RowMajor.Fits(j.width, j.height, c, r);
      var p := r * j.width + c;
      assert now[k][p] == now[k][p];
      if r != ypos {
        RowsApart(j.width, ypos, r, c, startX, n);
      }
      if r == ypos {
        assert p - base == c - startX;
      }
    }
  }

  lemma RowsApart(w: nat, y: nat, r: nat, c: nat, start: nat, n: nat)
    requires c < w && start + n <= w && r != y
    ensures !(y * w + start <= r * w + c < y * w + start + n)
  {
    if r < y {
      assert (r + 1) * w <= y * w;
    } else {
      assert (y + 1) * w <= r * w;
    }
  }

  method SubtractImageRow(set_: array2<real>, j: Job, ypos: nat, startX: nat, endX: nat, offsetX: int, offsetY: int)
    requires j.Valid(set_.Length0, set_.Length1) && ypos < j.height && j.RowUsed(ypos)
    requires offsetX == j.x - j.psfWidth / 2 && offsetY == j.y - j.psfHeight / 2
    requires startX == if offsetX > 0 then offsetX else 0
    requires endX == if j.x + j.psfWidth / 2 < j.width then j.x + j.psfWidth / 2 else j.width
    modifies set_
    ensures j.Done(old(Images(set_)), Images(set_), ypos, ypos + 1)
  {
    ghost var was := Images(set_);
    RowFits(j, ypos, startX, endX);
    var imageIter, psfIter := ypos * j.width + startX, (ypos - offsetY) * j.psfWidth + startX - offsetX;
    SubtractRow(set_, j.i, imageIter, j.psf, psfIter, endX - startX, j.factor);
    RowDone(j, was, Images(set_), ypos, startX, endX - startX, imageIter, psfIter);
  }

  /** PartialSubtractImage: the rows [startY0, endY0) of image i of the set. */
  method PartialSubtractImage(set_: array2<real>, j: Job, startY0: nat, endY0: nat)
    requires j.Valid(set_.Length0, set_.Length1) && startY0 <= endY0 <= j.height
    modifies set_
    ensures j.Done(old(Images(set_)), Images(set_), startY0, endY0)
  {
    var offsetX: int, offsetY: int := j.x - j.psfWidth / 2, j.y - j.psfHeight / 2;
    var startX := if offsetX > 0 then offsetX else 0;
    var startY := if offsetY > startY0 then offsetY else startY0;
    var endX := if j.x + j.psfWidth / 2 < j.width then j.x + j.psfWidth / 2 else j.width;
    var endY := if j.y + j.psfHeight / 2 < endY0 then j.y + j.psfHeight / 2 else endY0;
    var ypos := startY;
    ghost var was := Images(set_);
    DoneNothing(j, was, startY, startY);
    while ypos < endY
      invariant startY <= ypos && (ypos <= endY || ypos == startY)
      invariant j.Done(was, Images(set_), startY, ypos)
    {
      ghost var mid := Images(set_);
      SubtractImageRow(set_, j, ypos, startX, endX, offsetX, offsetY);
      DoneJoins(j, was, mid, Images(set_), startY, ypos, ypos + 1);
      ypos := ypos + 1;
    }
    if ypos <= endY0 {
      DoneWidens(j, was, Images(set_), startY, ypos, startY0, endY0);
    } else {
      DoneNothing(j, was, startY0, startY0);
      DoneWidens(j, was, was, startY0, startY0, startY0, endY0);
      assert Images(set_) == was by { SameImages(j, was, Images(set_), startY, ypos); }
    }
  }

  /** A finished subtraction has taken the PSF value in the window from every pixel. */
  lemma DoneAt(j: Job, was: seq<seq<real>>, now: seq<seq<real>>, k: nat, p: nat, c: nat, r: nat)
    requires j.Done(was, now, 0, j.height)
    requires k < |was| && c < j.width && r < j.height && p == r * j.width + c && p < j.width * j.height
    ensures now[k][p] == was[k][p] - if k == j.i
            then WindowAt(j.psf, j.psfWidth, j.psfHeight, c - j.x, r - j.y) * j.factor else 0.0
  {
    assert j.PixelDone(was, now, 0, j.height, k, c, r);
  }

  lemma SameImages(j: Job, was: seq<seq<real>>, now: seq<seq<real>>, a: int, b: int)
    requires j.Done(was, now, a, b) && b <= a
    ensures was == now
  {
    forall k | 0 <= k < |was| ensures was[k] == now[k] {
      forall p | 0 <= p < j.width * j.height ensures was[k][p] == now[k][p] {
        RowMajor.Joins(j.width, j.height, p);
        assert j.PixelDone(was, now, a, b, k, p % j.width, p / j.width);
      }
    }
  }

  lemma RowInside(w: nat, h: nat, r: int)
    requires 0 <= r < h
    ensures 0 <= r * w && r * w + w <= w * h
  {
    assert (r + 1) * w <= h * w;
  }

  lemma RowFits(j: Job, ypos: int, startX: int, endX: int)
    requires j.x < j.width && 0 <= ypos < j.height && j.RowUsed(ypos)
    requires startX == if j.x - j.psfWidth / 2 > 0 then j.x - j.psfWidth / 2 else 0
    requires endX == if j.x + j.psfWidth / 2 < j.width then j.x + j.psfWidth / 2 else j.width
    ensures startX <= endX && ypos * j.width + startX + (endX - startX) <= j.width * j.height && 0 <= ypos * j.width
    ensures var b := (ypos - j.y + j.psfHeight / 2) * j.psfWidth + startX - j.x + j.psfWidth / 2;
            0 <= b && b + (endX - startX) <= j.psfWidth * j.psfHeight
  {
    RowInside(j.width, j.height, ypos);
    RowInside(j.psfWidth, j.psfHeight, ypos - j.y + j.psfHeight / 2);
  }

  /** Subtraction in the row ranges of any number of threads subtracts the PSF from the whole image. */
  method SubtractImage(set_: array2<real>, j: Job, threadCount: nat)
    requires j.Valid(set_.Length0, set_.Length1) && j.psfHeight == j.height && threadCount > 0
    modifies set_
    ensures j.Done(old(Images(set_)), Images(set_), 0, j.height)
  {
    var thr := 0;
    ghost var was := Images(set_);
    FirstShare(j.height, threadCount);
    LastShare(j.height, threadCount);
    DoneNothing(j, was, 0, 0);
    while thr != threadCount
      invariant thr <= threadCount && Share(j.height, threadCount, threadCount) == j.height
      invariant j.Done(was, Images(set_), 0, Share(j.height, threadCount, thr))
    {
      CutsInside(j.height, threadCount, thr);
      ghost var mid := Images(set_);
      PartialSubtractImage(set_, j, Share(j.psfHeight, threadCount, thr), Share(j.psfHeight, threadCount, thr + 1));
      DoneJoins(j, was, mid, Images(set_), 0, Share(j.height, threadCount, thr), Share(j.height, threadCount, thr + 1));
      thr := thr + 1;
    }
  }
}
