/**
 * The dividing lines of ParallelDeconvolution::executeParallelRun (deconvolution/paralleldeconvolution.cpp), and
 * the areas that floods find between them.
 */
module SplitLines {
  import opened CheapestWalks
  import opened DividingPath
  import opened Division
  import opened DijkstraSplitter
  import opened FloodAreas

  /** Divider d has been drawn in its strip. */
  ghost predicate DrawnStrip(v: Division, buffer: array2<real>, dividers: seq<seq<Coord>>, d: nat)
    requires v.Valid() && buffer.Length0 == v.height && buffer.Length1 == v.width && 1 <= d < v.n && d <= |dividers|
    reads buffer
  {
    var s := v.StripOf(d);
    s.Valid() && s.Cheapest(dividers[d - 1]) && Marks(s, buffer, dividers[d - 1])
  }

  ghost predicate InSomeStrip(v: Division, c: Coord, k: nat)
    requires v.Valid() && k <= v.n
  {
    exists d :: 1 <= d < k && v.StripOf(d).Contains(c)
  }

  /** Outside the strips of the dividers with numbers below k everything is zero. */
  ghost predicate ZeroElsewhere(v: Division, buffer: array2<real>, k: nat)
    requires v.Valid() && buffer.Length0 == v.height && buffer.Length1 == v.width && k <= v.n
    reads buffer
  {
    forall x: nat, y: nat {:trigger buffer[y, x]} :: x < v.width && y < v.height && buffer[y, x] != 0.0 ==>
      InSomeStrip(v, Coord(x, y), k)
  }

  /** The dividers with numbers below k have been drawn and nothing else. */
  ghost predicate Drawn(v: Division, buffer: array2<real>, dividers: seq<seq<Coord>>, k: nat)
    requires v.Valid() && buffer.Length0 == v.height && buffer.Length1 == v.width && 1 <= k <= v.n &&
             |dividers| == k - 1
    reads buffer
  {
    StripsDrawn(v, buffer, dividers, k) && ZeroElsewhere(v, buffer, k)
  }

  ghost predicate StripsDrawn(v: Division, buffer: array2<real>, dividers: seq<seq<Coord>>, k: nat)
    requires v.Valid() && buffer.Length0 == v.height && buffer.Length1 == v.width && 1 <= k <= v.n &&
             |dividers| == k - 1
    reads buffer
  {
    forall d {:trigger DrawnStrip(v, buffer, dividers, d)} :: 1 <= d < k ==> DrawnStrip(v, buffer, dividers, d)
  }

  lemma DrawnDivides(v: Division, buffer: array2<real>, dividers: seq<seq<Coord>>)
    requires v.Valid() && buffer.Length0 == v.height && buffer.Length1 == v.width && |dividers| == v.n - 1
    requires Drawn(v, buffer, dividers, v.n)
    ensures Dividers(v, dividers)
  {
    forall d | 1 <= d < v.n ensures DividesStrip(v, dividers, d) {
      assert DrawnStrip(v, buffer, dividers, d);
    }
  }

  /** The line with the given number along the axis. */
  ghost function LineOf(v: Division, buffer: array2<real>, along: nat): seq<real>
    requires buffer.Length0 == v.height && buffer.Length1 == v.width && along < v.Lines()
    reads buffer
  {
    if v.axis.Vertical? then RowOf(buffer, along) else ColumnOf(buffer, along)
  }

  lemma OutsideStrips(v: Division, d: nat, c: Coord)
    requires v.Valid() && d < v.n
    requires var s := Strip(v.axis, 0, 0, v.width, v.height, v.image); v.Hi(d) <= s.Across(c) < v.Lo(d + 1)
    ensures !InSomeStrip(v, c, v.n)
  {
    forall e | 1 <= e < v.n ensures !v.StripOf(e).Contains(c) {
      if e < d {
        StripsDisjoint(v, e, d);
        SeedBetweenStrips(v, d);
      } else if d + 1 < e {
        StripsDisjoint(v, d + 1, e);
        SeedBetweenStrips(v, d + 1);
      }
    }
  }

  lemma GapIsZero(v: Division, buffer: array2<real>, d: nat, along: nat, a: nat)
    requires v.Valid() && buffer.Length0 == v.height && buffer.Length1 == v.width && ZeroElsewhere(v, buffer, v.n)
    requires along < v.Lines() && d < v.n && v.Hi(d) <= a < v.Lo(d + 1) && a < v.Size()
    ensures LineOf(v, buffer, along)[a] == 0.0
  {
    var c := if v.axis.Vertical? then Coord(a, along) else Coord(along, a);
    OutsideStrips(v, d, c);
    assert buffer[c.y, c.x] == 0.0;
  }

  lemma DrawnLine(v: Division, buffer: array2<real>, dividers: seq<seq<Coord>>, d: nat, along: nat)
    requires v.Valid() && buffer.Length0 == v.height && buffer.Length1 == v.width && Dividers(v, dividers)
    requires Drawn(v, buffer, dividers, v.n)
    requires along < v.Lines() && d < v.n
    ensures AreaDrawn(v, dividers, along, LineOf(v, buffer, along), d)
  {
    var line := LineOf(v, buffer, along);
    SeedBetweenStrips(v, d);
    if d > 0 {
      SeedBetweenStrips(v, d - 1);
      GapIsZero(v, buffer, d - 1, along, v.Lo(d) - 1);
      StripLine(v, buffer, dividers, d, along);
    }
    if d + 1 < v.n {
      StripLine(v, buffer, dividers, d + 1, along);
    }
    forall a | v.Hi(d) <= a < v.Lo(d + 1) ensures line[a] == 0.0 {
      GapIsZero(v, buffer, d, along, a);
    }
  }

  lemma StripLine(v: Division, buffer: array2<real>, dividers: seq<seq<Coord>>, d: nat, along: nat)
    requires v.Valid() && buffer.Length0 == v.height && buffer.Length1 == v.width && |dividers| == v.n - 1
    requires along < v.Lines() && 1 <= d < v.n && Drawn(v, buffer, dividers, v.n)
    ensures StripDrawn(v.StripOf(d), dividers[d - 1], along, LineOf(v, buffer, along))
  {
    var s, line := v.StripOf(d), LineOf(v, buffer, along);
    assert DrawnStrip(v, buffer, dividers, d);
    forall a: nat | s.lo <= a < s.hi ensures line[a] != 0.0 <==> s.At(a, along) in dividers[d - 1] {
      assert s.Contains(s.At(a, along));
    }
  }

  /** On some line the position is at border d or behind it. */
  ghost predicate BehindBorder(v: Division, dividers: seq<seq<Coord>>, d: nat, a: int)
    requires Dividers(v, dividers) && d <= v.n
  {
    exists i: nat :: i < v.Lines() && Border(v, dividers, d, i) <= a
  }

  /** On some line the position is before border d. */
  ghost predicate BeforeBorder(v: Division, dividers: seq<seq<Coord>>, d: nat, a: int)
    requires Dividers(v, dividers) && d <= v.n
  {
    exists i: nat :: i < v.Lines() && a < Border(v, dividers, d, i)
  }

  /** The positions that area d reaches, from its first one on any line to its last one on any line. */
  ghost predicate InExtent(v: Division, dividers: seq<seq<Coord>>, d: nat, a: int)
    requires Dividers(v, dividers) && d < v.n
  {
    BehindBorder(v, dividers, d, a) && BeforeBorder(v, dividers, d + 1, a)
  }

  lemma ExtentIs(v: Division, dividers: seq<seq<Coord>>, d: nat, lefts: seq<nat>, rights: seq<nat>, lo: nat, size: nat,
                 a: int)
    requires Dividers(v, dividers) && d < v.n && |lefts| == |rights| == v.Lines() && lo in lefts && lo + size in rights
    requires forall i: nat :: i < v.Lines() ==>
               lefts[i] == Border(v, dividers, d, i) >= lo && rights[i] == Border(v, dividers, d + 1, i) <= lo + size
    ensures lo <= a < lo + size <==> InExtent(v, dividers, d, a)
  {
    if lo <= a < lo + size {
      var i: nat :| i < |lefts| && lefts[i] == lo;
      var j: nat :| j < |rights| && rights[j] == lo + size;
      assert Border(v, dividers, d, i) <= a < Border(v, dividers, d + 1, j);
    }
    if InExtent(v, dividers, d, a) {
      var i: nat :| i < v.Lines() && Border(v, dividers, d, i) <= a;
      var j: nat :| j < v.Lines() && a < Border(v, dividers, d + 1, j);
      assert lefts[i] >= lo && rights[j] <= lo + size;
    }
  }

  /** The pixels of area d are exactly those a flood from its seed reaches. */
  lemma FloodedArea(v: Division, buffer: array2<real>, dividers: seq<seq<Coord>>, d: nat, mask: array2<bool>,
                    lefts: seq<nat>, inners: seq<nat>, rights: seq<nat>, lo: nat, size: nat)
    requires v.Valid() && buffer.Length0 == v.height && buffer.Length1 == v.width && Dividers(v, dividers) && d < v.n
    requires Drawn(v, buffer, dividers, v.n)
    requires mask.Length0 == v.height && mask.Length1 == v.width
    requires FloodResult(v.axis, buffer, v.Mid(d), mask, lefts, inners, rights, lo, size)
    ensures forall x: nat, y: nat {:trigger mask[y, x]} :: x < v.width && y < v.height ==>
            (mask[y, x] <==> InArea(v, dividers, d, Coord(x, y)))
    ensures 0 < size && lo + size <= v.Size()
    ensures forall a: int {:trigger InExtent(v, dividers, d, a)} :: lo <= a < lo + size <==> InExtent(v, dividers, d, a)
  {
    SeedBetweenStrips(v, d);
    forall i | 0 <= i < v.Lines()
      ensures lefts[i] == Border(v, dividers, d, i) && rights[i] == Border(v, dividers, d + 1, i) &&
              lefts[i] < rights[i]
    {
      DrawnLine(v, buffer, dividers, d, i);
      assert inners[i] == inners[i];
      FloodIsArea(v, dividers, i, LineOf(v, buffer, i), d, lefts[i], inners[i], rights[i]);
      BordersAroundSeed(v, dividers, d, i);
    }
    assert lo <= lefts[0] && rights[0] <= lo + size;
    forall a: int ensures lo <= a < lo + size <==> InExtent(v, dividers, d, a) {
      ExtentIs(v, dividers, d, lefts, rights, lo, size, a);
    }
  }

  ghost predicate StripFeasible(v: Division, d: nat)
    requires v.Valid() && 1 <= d < v.n
  {
    SeedBetweenStrips(v, d);
    v.StripOf(d).Feasible()
  }

  /** In every strip some dividing path costs less than the value that stands for "not visited". */
  ghost predicate FeasibleStrips(v: Division)
    requires v.Valid()
  {
    forall d {:trigger StripFeasible(v, d)} :: 1 <= d < v.n ==> StripFeasible(v, d)
  }

  /** Divides strip k. */
  method DivideStrip(v: Division, dividingLine: array2<real>, k: nat)
          returns (ghost divider: seq<Coord>)
    requires v.Valid() && dividingLine.Length0 == v.height && dividingLine.Length1 == v.width && 1 <= k < v.n &&
             StripFeasible(v, k)
    modifies dividingLine
    ensures var s := v.StripOf(k);
            s.Valid() && s.Cheapest(divider) && Marks(s, dividingLine, divider) && KeptOutside(s, dividingLine)
  {
    SeedBetweenStrips(v, k);
    var splitStart := v.cuts[k] - v.average / 4;
    var splitEnd := v.cuts[k] + v.average / 4;
    if v.axis.Vertical? {
      divider := DivideVertically(v.image, dividingLine, splitStart, splitEnd);
    } else {
      divider := DivideHorizontally(v.image, dividingLine, splitStart, splitEnd);
    }
  }

  /** Draws divider k; the earlier ones and the pixels outside all strips stay as they are. */
  method DrawDivider(v: Division, dividingLine: array2<real>, ghost dividers: seq<seq<Coord>>,
          k: nat) returns (ghost divider: seq<Coord>)
    requires v.Valid() && dividingLine.Length0 == v.height && dividingLine.Length1 == v.width
    requires 1 <= k < v.n && |dividers| == k - 1 && StripFeasible(v, k) && Drawn(v, dividingLine, dividers, k)
    modifies dividingLine
    ensures Drawn(v, dividingLine, dividers + [divider], k + 1)
  {
    divider := DivideStrip(v, dividingLine, k);
    ghost var t, more := v.StripOf(k), dividers + [divider];
    assert more[k - 1] == divider;
    assert DrawnStrip(v, dividingLine, more, k);
    forall d | 1 <= d < k ensures DrawnStrip(v, dividingLine, more, d) {
      assert old(DrawnStrip(v, dividingLine, dividers, d));
      assert more[d - 1] == dividers[d - 1];
      StripsDisjoint(v, d, k);
      forall c | v.StripOf(d).Contains(c) ensures dividingLine[c.y, c.x] == old(dividingLine[c.y, c.x]) {
        assert !t.Contains(Coord(c.x, c.y));
      }
    }
    forall x: nat, y: nat | x < v.width && y < v.height && dividingLine[y, x] != 0.0
      ensures InSomeStrip(v, Coord(x, y), k + 1) {
      if !t.Contains(Coord(x, y)) {
        assert old(dividingLine[y, x]) != 0.0;
        assert InSomeStrip(v, Coord(x, y), k);
      }
    }
  }

  /** Draws all dividing paths of a division. */
  method DrawDividers(v: Division, dividingLine: array2<real>)
          returns (ghost dividers: seq<seq<Coord>>)
    requires v.Valid() && dividingLine.Length0 == v.height && dividingLine.Length1 == v.width
    requires FeasibleStrips(v)
    requires forall x, y :: 0 <= x < v.width && 0 <= y < v.height ==> dividingLine[y, x] == 0.0
    modifies dividingLine
    ensures Dividers(v, dividers) && Drawn(v, dividingLine, dividers, v.n)
    ensures forall d {:trigger dividers[d - 1]} :: 1 <= d < v.n ==>
              CheapestBetween(v.axis, v.image, v.width, v.height, v.cuts[d] - v.average / 4,
                  v.cuts[d] + v.average / 4, dividers[d - 1])
  {
    dividers := [];
    var divNr := 1;
    while divNr < v.n
      invariant 1 <= divNr <= v.n && |dividers| == divNr - 1 && Drawn(v, dividingLine, dividers, divNr)
    {
      assert StripFeasible(v, divNr);
      ghost var divider := DrawDivider(v, dividingLine, dividers, divNr);
      dividers := dividers + [divider];
      divNr := divNr + 1;
    }
    DrawnDivides(v, dividingLine, dividers);
    forall d {:trigger dividers[d - 1]} | 1 <= d < v.n
      ensures CheapestBetween(v.axis, v.image, v.width, v.height, v.cuts[d] - v.average / 4,
                  v.cuts[d] + v.average / 4, dividers[d - 1])
    {
      assert DrawnStrip(v, dividingLine, dividers, d);
      CheapestIsBetween(v.StripOf(d), dividers[d - 1]);
    }
  }
}
