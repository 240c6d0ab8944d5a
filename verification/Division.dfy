/**
 * How ParallelDeconvolution places its dividing paths: the positions of the strips, and the areas
 * that the paths cut the image into.
 */
module Division {
  import opened CheapestWalks
  import opened DividingPath
  import opened Shares

  /** The division of an image along one axis into n areas by n - 1 dividing paths, around the given cuts. */
  datatype Division = Division(axis: Axis, width: nat, height: nat, image: Picture, n: nat, average: nat,
      cuts: seq<nat>) {
    predicate Valid() {
      Shaped(image, width, height) && 0 < n && 4 <= average && 0 < width && 0 < height &&
      |cuts| == n + 1 && cuts[0] == 0 && cuts[n] == Size() &&
      forall d {:trigger CutFits(d)} :: 0 <= d < n ==> CutFits(d)
    }

    predicate CutFits(d: int)
      requires 0 <= d < n && |cuts| == n + 1
    {
      cuts[d] + average <= cuts[d + 1]
    }

    function Size(): nat { if axis.Vertical? then width else height }

    function Lines(): nat { if axis.Vertical? then height else width }

    /** The strip searched for divider d is [Lo(d), Hi(d)); the ends of the image count as empty strips. */
    function Lo(d: nat): nat
      requires Valid() && 1 <= d <= n
    {
      assert CutFits(d - 1);
      if d == n then Size() else cuts[d] - average / 4
    }

    function Hi(d: nat): nat
      requires Valid() && d < n
    {
      if d == 0 then 0 else cuts[d] + average / 4
    }

    /** Where the flood of area d starts. */
    function Mid(d: nat): nat
      requires Valid() && d < n
    {
      cuts[d] + average / 2
    }

    function StripOf(d: nat): Strip
      requires Valid() && 1 <= d < n
    {
      Strip(axis, Lo(d), Hi(d), width, height, image)
    }
  }

  /** Divider d of n areas of an axis is cheapest within a quarter of the average size around the share of d. */
  ghost predicate CheapestDivider(axis: Axis, image: Picture, width: nat, height: nat, n: nat, d: nat,
                                  path: seq<Coord>)
    requires 0 < n
  {
    var size := if axis.Vertical? then width else height;
    CheapestBetween(axis, image, width, height, size * d / n - size / n / 4, size * d / n + size / n / 4, path)
  }

  /** The division that the parallel run makes of an image. */
  function DivisionOf(axis: Axis, width: nat, height: nat, image: Picture, n: nat): Division
    requires 0 < n
  {
    var size := if axis.Vertical? then width else height;
    Division(axis, width, height, image, n, size / n, seq(n + 1, d requires 0 <= d => Share(size, n, d)))
  }

  lemma StripIs(axis: Axis, width: nat, height: nat, image: Picture, n: nat, d: nat)
    requires 0 < n && 1 <= d < n && DivisionOf(axis, width, height, image, n).Valid()
    ensures var v, size := DivisionOf(axis, width, height, image, n), if axis.Vertical? then width else height;
            v.Lo(d) == size * d / n - size / n / 4 && v.Hi(d) == size * d / n + size / n / 4
  {
    var size := if axis.Vertical? then width else height;
    assert DivisionOf(axis, width, height, image, n).cuts[d] == Share(size, n, d);
  }

  lemma DivisionIsValid(axis: Axis, width: nat, height: nat, image: Picture, n: nat)
    requires Shaped(image, width, height) && 0 < n && 0 < width && 0 < height
    requires 4 <= (if axis.Vertical? then width else height) / n
    ensures DivisionOf(axis, width, height, image, n).Valid()
  {
    var size := if axis.Vertical? then width else height;
    var v := DivisionOf(axis, width, height, image, n);
    forall d | 0 <= d < n ensures v.CutFits(d) {
      ShareStep(size, n, d);
    }
    ShareStep(size, n, 0);
  }

  /** Every flood seed lies strictly between the strips on either side of it. */
  lemma SeedBetweenStrips(v: Division, d: nat)
    requires v.Valid() && d < v.n
    ensures v.Hi(d) <= v.Mid(d) < v.Lo(d + 1) <= v.Size()
    ensures d > 0 ==> v.StripOf(d).Valid() && 0 < v.Lo(d) < v.Hi(d)
  {
    assert v.CutFits(d);
    CutsBelowSize(v, d + 1);
    if d > 0 {
      assert v.CutFits(d - 1);
    }
  }

  lemma {:induction false} CutsBelowSize(v: Division, d: nat)
    requires v.Valid() && d <= v.n
    ensures v.cuts[d] <= v.Size()
    decreases v.n - d
  {
    if d < v.n {
      CutsBelowSize(v, d + 1);
      assert v.CutFits(d);
    }
  }

  /** The strips of different dividers are disjoint and in order, so the searches never share a pixel. */
  lemma {:induction false} StripsDisjoint(v: Division, d: nat, e: nat)
    requires v.Valid() && d < e <= v.n
    ensures v.Hi(d) <= v.Lo(e)
    decreases e
  {
    SeedBetweenStrips(v, e - 1);
    if d < e - 1 {
      SeedBetweenStrips(v, e - 1);
      StripsDisjoint(v, d, e - 1);
    }
  }

  // ----- the areas

  ghost predicate Dividers(v: Division, dividers: seq<seq<Coord>>) {
    v.Valid() && |dividers| == v.n - 1 && forall d {:trigger DividesStrip(v, dividers, d)} :: 1 <= d < v.n ==>
        DividesStrip(v, dividers, d)
  }

  ghost predicate DividesStrip(v: Division, dividers: seq<seq<Coord>>, d: nat)
    requires v.Valid() && 1 <= d < v.n && d <= |dividers|
  {
    v.StripOf(d).Divides(dividers[d - 1])
  }

  lemma RunExists(s: Strip, p: seq<Coord>, along: nat)
    requires s.Divides(p) && along < s.Length()
    ensures exists from: nat, to: nat :: s.lo <= from < to <= s.hi && Run(s, p, along, from, to)
  {
    var from, to := DividerRuns(s, p, along);
  }

  ghost function RunOn(s: Strip, p: seq<Coord>, along: nat): (r: (nat, nat))
    requires s.Divides(p) && along < s.Length()
    ensures s.lo <= r.0 < r.1 <= s.hi && Run(s, p, along, r.0, r.1)
  {
    RunExists(s, p, along);
    var from: nat, to: nat :| s.lo <= from < to <= s.hi && Run(s, p, along, from, to);
    (from, to)
  }

  /**
   * The first across-position of area d on a line: where divider d starts, since an area owns the divider before
   * it.
   */
  ghost function Border(v: Division, dividers: seq<seq<Coord>>, d: nat, along: nat): (r: nat)
    requires Dividers(v, dividers) && d <= v.n && along < v.Lines()
    ensures d == 0 ==> r == 0
    ensures d == v.n ==> r == v.Size()
    ensures 0 < d < v.n ==> v.Lo(d) <= r < v.Hi(d)
  {
    if d == 0 then 0
    else if d == v.n then v.Size()
    else assert DividesStrip(v, dividers, d); RunOn(v.StripOf(d), dividers[d - 1], along).0
  }

  ghost predicate InArea(v: Division, dividers: seq<seq<Coord>>, d: nat, c: Coord)
    requires Dividers(v, dividers) && d < v.n
  {
    var s := Strip(v.axis, 0, 0, v.width, v.height, v.image);
    s.Along(c) < v.Lines() &&
    Border(v, dividers, d, s.Along(c)) <= s.Across(c) < Border(v, dividers, d + 1, s.Along(c))
  }

  /** The pixel lies on the path, or behind it on one of its lines. */
  predicate FromPathOn(axis: Axis, path: seq<Coord>, c: Coord) {
    exists k :: 0 <= k < |path| && NotBehind(axis, path[k], c)
  }

  predicate NotBehind(axis: Axis, a: Coord, c: Coord) {
    if axis.Vertical? then a.y == c.y && a.x <= c.x else a.x == c.x && a.y <= c.y
  }

  lemma BorderIsPath(v: Division, dividers: seq<seq<Coord>>, d: nat, c: Coord)
    requires Dividers(v, dividers) && 0 < d < v.n && c.x < v.width && c.y < v.height
    ensures var s := Strip(v.axis, 0, 0, v.width, v.height, v.image);
            Border(v, dividers, d, s.Along(c)) <= s.Across(c) <==> FromPathOn(v.axis, dividers[d - 1], c)
  {
    var s, p := v.StripOf(d), dividers[d - 1];
    assert DividesStrip(v, dividers, d);
    var (from, to) := RunOn(s, p, s.Along(c));
    assert s.At(from, s.Along(c)) in p;
    var j :| 0 <= j < |p| && p[j] == s.At(from, s.Along(c));
    assert from <= s.Across(c) ==> NotBehind(v.axis, p[j], c);
    if FromPathOn(v.axis, p, c) {
      var k :| 0 <= k < |p| && NotBehind(v.axis, p[k], c);
      assert s.At(s.Across(p[k]), s.Along(c)) == p[k] && p[k] in p;
    }
  }

  /** An area holds the pixels on or behind the divider before it that are not on or behind the next one. */
  lemma AreaIsBetween(v: Division, dividers: seq<seq<Coord>>, d: nat, c: Coord)
    requires Dividers(v, dividers) && d < v.n && c.x < v.width && c.y < v.height
    ensures InArea(v, dividers, d, c) <==>
            (d > 0 ==> FromPathOn(v.axis, dividers[d - 1], c)) &&
            (d + 1 < v.n ==> !FromPathOn(v.axis, dividers[d], c))
  {
    if d > 0 {
      BorderIsPath(v, dividers, d, c);
    }
    if d + 1 < v.n {
      BorderIsPath(v, dividers, d + 1, c);
    }
  }

  lemma BordersAroundSeed(v: Division, dividers: seq<seq<Coord>>, d: nat, along: nat)
    requires Dividers(v, dividers) && d < v.n && along < v.Lines()
    ensures Border(v, dividers, d, along) <= v.Mid(d) < Border(v, dividers, d + 1, along) <= v.Size()
  {
    SeedBetweenStrips(v, d);
    if d + 1 < v.n {
      SeedBetweenStrips(v, d + 1);
    }
  }

  lemma {:induction false} BordersIncrease(v: Division, dividers: seq<seq<Coord>>, d: nat, e: nat, along: nat)
    requires Dividers(v, dividers) && d <= e <= v.n && along < v.Lines()
    ensures Border(v, dividers, d, along) <= Border(v, dividers, e, along)
    decreases e
  {
    if d < e {
      BordersAroundSeed(v, dividers, e - 1, along);
      BordersIncrease(v, dividers, d, e - 1, along);
    }
  }

  /** A pixel before border d + 1 lies in one of the first d + 1 areas. */
  lemma {:induction false} AreaOf(v: Division, dividers: seq<seq<Coord>>, d: nat, c: Coord) returns (e: nat)
    requires Dividers(v, dividers) && d < v.n && c.x < v.width && c.y < v.height
    requires var s := Strip(v.axis, 0, 0, v.width, v.height, v.image);
             s.Across(c) < Border(v, dividers, d + 1, s.Along(c))
    ensures e <= d && InArea(v, dividers, e, c)
  {
    var s := Strip(v.axis, 0, 0, v.width, v.height, v.image);
    if Border(v, dividers, d, s.Along(c)) <= s.Across(c) {
      e := d;
    } else {
      e := AreaOf(v, dividers, d - 1, c);
    }
  }

  /** Along one axis every pixel lies in exactly one area. */
  lemma OneArea(v: Division, dividers: seq<seq<Coord>>, c: Coord)
    requires Dividers(v, dividers) && c.x < v.width && c.y < v.height
    ensures exists d: nat :: d < v.n && InArea(v, dividers, d, c)
    ensures forall d: nat, e: nat :: d < v.n && e < v.n && InArea(v, dividers, d, c) && InArea(v, dividers, e, c) ==>
            d == e
  {
    var e := AreaOf(v, dividers, v.n - 1, c);
    forall d: nat, e: nat | d < e < v.n && InArea(v, dividers, d, c) && InArea(v, dividers, e, c) ensures false {
      var s := Strip(v.axis, 0, 0, v.width, v.height, v.image);
      BordersIncrease(v, dividers, d + 1, e, s.Along(c));
    }
  }

  // ----- flooding one line

  /** Flooding from `seed` to the left through zeros and then through the border, and to the right through zeros. */
  ghost predicate Flooded(line: seq<real>, seed: nat, left: nat, inner: nat, right: nat) {
    left <= inner <= seed + 1 <= right <= |line| &&
    (forall i :: inner <= i <= seed ==> line[i] == 0.0) && (inner == 0 || line[inner - 1] != 0.0) &&
    (forall i :: left <= i < inner ==> line[i] != 0.0) && (left == 0 || line[left - 1] == 0.0) &&
    (forall i :: seed < i < right ==> line[i] == 0.0) && (right == |line| || line[right] != 0.0)
  }

  /** One line of a drawn divider: non-zero exactly on the run of its path. */
  ghost predicate StripDrawn(s: Strip, p: seq<Coord>, along: nat, line: seq<real>) {
    s.hi <= |line| && forall a: nat :: s.lo <= a < s.hi ==> (line[a] != 0.0 <==> s.At(a, along) in p)
  }

  /** One line of the drawn dividers around area d: both strips, and zeros up to and between them. */
  ghost predicate AreaDrawn(v: Division, dividers: seq<seq<Coord>>, along: nat, line: seq<real>, d: nat)
    requires Dividers(v, dividers) && d < v.n
  {
    |line| == v.Size() &&
    (d > 0 ==> StripDrawn(v.StripOf(d), dividers[d - 1], along, line) && ZeroAt(line, v.Lo(d) - 1)) &&
    (d + 1 < v.n ==> StripDrawn(v.StripOf(d + 1), dividers[d], along, line)) &&
    ZeroOn(line, v.Hi(d), v.Lo(d + 1))
  }

  ghost predicate ZeroAt(line: seq<real>, a: int) {
    0 <= a < |line| && line[a] == 0.0
  }

  ghost predicate ZeroOn(line: seq<real>, from: nat, to: nat) {
    to <= |line| && forall a :: from <= a < to ==> line[a] == 0.0
  }

  lemma FloodStopsBehind(s: Strip, p: seq<Coord>, along: nat, line: seq<real>, seed: nat,
                         left: nat, inner: nat, right: nat)
    requires s.Divides(p) && along < s.Length() && StripDrawn(s, p, along, line) && ZeroAt(line, s.lo - 1)
    requires s.hi <= seed < |line| && ZeroOn(line, s.hi, seed + 1)
    requires Flooded(line, seed, left, inner, right)
    ensures left == RunOn(s, p, along).0
  {
    var (from, to) := RunOn(s, p, along);
    forall a: nat | s.lo <= a < s.hi ensures line[a] != 0.0 <==> from <= a < to {
      assert line[a] != 0.0 <==> s.At(a, along) in p;
    }
    assert line[to - 1] != 0.0 && line[from] != 0.0;
    assert forall a :: to <= a <= seed ==> line[a] == 0.0;
    assert inner == to;
    assert line[from - 1] == 0.0;
  }

  lemma FloodStopsAhead(s: Strip, p: seq<Coord>, along: nat, line: seq<real>, seed: nat,
                        left: nat, inner: nat, right: nat)
    requires s.Divides(p) && along < s.Length() && StripDrawn(s, p, along, line)
    requires seed < s.lo && ZeroOn(line, seed, s.lo)
    requires Flooded(line, seed, left, inner, right)
    ensures right == RunOn(s, p, along).0
  {
    var (from, to) := RunOn(s, p, along);
    forall a: nat | s.lo <= a < s.hi ensures line[a] != 0.0 <==> from <= a < to {
      assert line[a] != 0.0 <==> s.At(a, along) in p;
    }
    assert line[from] != 0.0;
    assert forall a :: seed <= a < from ==> line[a] == 0.0;
  }

  /** On every line the flood from the seed of area d covers exactly the pixels of that area. */
  lemma FloodIsArea(v: Division, dividers: seq<seq<Coord>>, along: nat, line: seq<real>, d: nat,
                    left: nat, inner: nat, right: nat)
    requires Dividers(v, dividers) && along < v.Lines() && d < v.n && AreaDrawn(v, dividers, along, line, d)
    requires Flooded(line, v.Mid(d), left, inner, right)
    ensures left == Border(v, dividers, d, along) && right == Border(v, dividers, d + 1, along)
  {
    SeedBetweenStrips(v, d);
    var seed := v.Mid(d);
    if d > 0 {
      assert DividesStrip(v, dividers, d);
      FloodStopsBehind(v.StripOf(d), dividers[d - 1], along, line, seed, left, inner, right);
    }
    if d + 1 < v.n {
      assert DividesStrip(v, dividers, d + 1);
      FloodStopsAhead(v.StripOf(d + 1), dividers[d], along, line, seed, left, inner, right);
    }
  }
}
