/**
 * Cleaning inside a mask: a major iteration depends on the data only through the pixels under the mask, and what it
 * leaves of a pixel depends on no other pixel outside the mask.
 */
module LocalClean {
  import opened Common
  import RowMajor
  import opened PeakFinder
  import opened CleanRuns
  import opened GenericClean
  import opened PaddedConvolution
  import opened MajorIteration

  ghost predicate AgreeAt(c: Clean, d: Images, d': Images, p: nat)
    requires c.Sized(d) && c.Sized(d') && p < c.Pixels()
  {
    forall i :: 0 <= i < c.Count() ==> d[i][p] == d'[i][p]
  }

  /** Two image sets are equal on the given pixels. */
  ghost predicate SameOn(c: Clean, d: Images, d': Images, on: set<nat>) {
    c.Sized(d) && c.Sized(d') &&
    forall p: nat {:trigger AgreeAt(c, d, d', p)} :: p < c.Pixels() && p in on ==> AgreeAt(c, d, d', p)
  }

  /** There is a clean mask and it selects given pixels only. */
  ghost predicate MaskedBy(c: Clean, on: set<nat>) {
    c.Valid() && c.mask.Some? && forall p: nat {:trigger c.mask.value[p]} :: p < c.Pixels() && c.mask.value[p] ==>
      p in on
  }

  lemma SameValue(c: Clean, d: Images, d': Images, p: nat)
    requires c.Valid() && c.Sized(d) && c.Sized(d') && p < c.Pixels() && AgreeAt(c, d, d', p)
    ensures c.Column(d, p) == c.Column(d', p) && c.Value(d, p) == c.Value(d', p)
    ensures c.Component(d, p) == c.Component(d', p)
  {
    assert c.Column(d, p) == c.Column(d', p);
  }

  /** Pixels of the search are under the mask, and the same ones for both image sets. */
  lemma SearchMasked(c: Clean, d: Images, d': Images, on: set<nat>, p: nat)
    requires MaskedBy(c, on) && SameOn(c, d, d', on) && p < c.Pixels()
    ensures c.ConsideredAt(d, p) <==> c.ConsideredAt(d', p)
    ensures c.ConsideredAt(d, p) ==> p in on && c.Value(d, p) == c.Value(d', p)
  {
    RowMajor.Joins(c.width, c.height, p);
    if c.ConsideredAt(d, p) {
      assert p in on;
      SameValue(c, d, d', p);
    }
  }

  lemma SameLevel(c: Clean, d: Images, d': Images, on: set<nat>, x: nat, y: nat)
    requires MaskedBy(c, on) && SameOn(c, d, d', on) && c.SearchOf(d').Considered(x, y)
    ensures c.SearchOf(d).Considered(x, y)
    ensures c.SearchOf(d).Level(x, y) == c.SearchOf(d').Level(x, y) && c.SearchOf(d).At(x, y) == c.SearchOf(d').At(x, y)
  {
    var p := y * c.width + x;
    RowMajor.Fits(c.width, c.height, x, y);
    RowMajor.Splits(c.width, x, y);
    FlatAt(c, d, p);
    FlatAt(c, d', p);
    assert c.ConsideredAt(d', p);
    SearchMasked(c, d, d', on, p);
  }

  lemma SameFound(c: Clean, d: Images, d': Images, on: set<nat>, r: Option<Peak>)
    requires MaskedBy(c, on) && SameOn(c, d, d', on) && c.SearchOf(d).Finds(r)
    ensures c.SearchOf(d').Finds(r)
  {
    var s, t := c.SearchOf(d), c.SearchOf(d');
    forall x, y | t.Considered(x, y) ensures s.Considered(x, y) && s.Level(x, y) == t.Level(x, y) {
      SameLevel(c, d, d', on, x, y);
    }
    if r.Some? {
      SameAlso(c, d', d, on);
      SameLevel(c, d', d, on, r.value.x, r.value.y);
    }
  }

  lemma SameAlso(c: Clean, d: Images, d': Images, on: set<nat>)
    requires SameOn(c, d', d, on)
    ensures SameOn(c, d, d', on)
  {
    forall p: nat | p < c.Pixels() && p in on ensures AgreeAt(c, d, d', p) {
      assert AgreeAt(c, d', d, p);
    }
  }

  // ----- one loop test, of either loop

  /** The loop goes on with pixel q after k components. */
  ghost predicate GoesOn(c: Clean, positions: seq<nat>, e: Images, iteration: nat, k: nat, q: nat)
    requires c.Valid() && c.Sized(e) && c.Peaks(positions)
  {
    match c.way
    case WholeImage => c.At(k).PlainGoesOn(e, iteration, q)
    case SubMinor => c.SubGoesOn(e, positions, iteration, q)
  }

  ghost predicate Stops(c: Clean, positions: seq<nat>, e: Images, iteration: nat, k: nat)
    requires c.Valid() && c.Sized(e) && c.Peaks(positions)
  {
    match c.way
    case WholeImage => c.At(k).PlainStops(e, iteration)
    case SubMinor => c.SubStops(e, positions, iteration)
  }

  /** The selected pixels of a sub-minor loop; the other loop selects none. */
  ghost predicate Selects(c: Clean, d: Images, positions: seq<nat>)
    requires c.Valid() && c.Sized(d)
  {
    if c.way.SubMinor? then c.Selection(d, positions) else positions == []
  }

  /** A finished run, test by test. */
  ghost predicate Tested(c: Clean, positions: seq<nat>, d: Images, iteration: nat, peaks: seq<nat>)
    requires c.Valid() && c.Sized(d) && c.Peaks(positions)
  {
    c.Peaks(peaks) &&
    (forall k {:trigger TestedAt(c, positions, d, iteration, peaks, k)} :: 0 <= k < |peaks| ==>
       TestedAt(c, positions, d, iteration, peaks, k)) &&
    Stops(c, positions, c.Dirty(d, peaks), iteration + |peaks|, |peaks|)
  }

  ghost predicate TestedAt(c: Clean, positions: seq<nat>, d: Images, iteration: nat, peaks: seq<nat>, k: nat)
    requires c.Valid() && c.Sized(d) && c.Peaks(positions) && c.Peaks(peaks) && k < |peaks|
  {
    GoesOn(c, positions, c.Dirty(d, peaks[..k]), iteration + k, k, peaks[k])
  }

  lemma RunTested(c: Clean, d: Images, iteration: nat, positions: seq<nat>, peaks: seq<nat>)
    requires c.Valid() && c.Sized(d) && Selects(c, d, positions)
    ensures c.Peaks(positions) &&
              (LoopRun(c, d, iteration, positions, peaks) <==> Tested(c, positions, d, iteration, peaks))
  {
    if LoopRun(c, d, iteration, positions, peaks) {
      forall k | 0 <= k < |peaks| ensures TestedAt(c, positions, d, iteration, peaks, k) {
        if c.way.WholeImage? {
          assert c.PlainStep(d, iteration, peaks, k);
        } else {
          assert c.SubStep(d, positions, iteration, peaks, k);
        }
      }
    }
    if Tested(c, positions, d, iteration, peaks) {
      forall k | 0 <= k < |peaks|
        ensures if c.way.WholeImage? then c.PlainStep(d, iteration, peaks, k)
                else c.SubStep(d, positions, iteration, peaks, k)
      {
        assert TestedAt(c, positions, d, iteration, peaks, k);
      }
    }
  }

  /** A loop goes on with one pixel only. */
  lemma OnePixel(c: Clean, positions: seq<nat>, e: Images, iteration: nat, k: nat, q: nat, q': nat)
    requires c.Valid() && c.Sized(e) && c.Peaks(positions)
    requires GoesOn(c, positions, e, iteration, k, q) && GoesOn(c, positions, e, iteration, k, q')
    ensures q == q'
  {
    if c.way.WholeImage? {
      OnePlainPixel(c.At(k), e, iteration, q, q');
    } else {
      var j: nat :| c.Strongest(e, positions, j) && q == positions[j];
      var j': nat :| c.Strongest(e, positions, j') && q' == positions[j'];
      OneStrongest(c, e, positions, j, j');
    }
  }

  /** A loop that goes on does not stop. */
  lemma NotBoth(c: Clean, positions: seq<nat>, e: Images, iteration: nat, k: nat, q: nat)
    requires c.Valid() && c.Sized(e) && c.Peaks(positions) && GoesOn(c, positions, e, iteration, k, q)
    ensures !Stops(c, positions, e, iteration, k)
  {
  }

  lemma {:induction false} Extend(c: Clean, positions: seq<nat>, d: Images, iteration: nat, peaks: seq<nat>)
    returns (run: seq<nat>)
    requires c.Valid() && c.Sized(d) && c.Peaks(positions) && c.Peaks(peaks)
    requires forall k {:trigger TestedAt(c, positions, d, iteration, peaks, k)} :: 0 <= k < |peaks| ==>
               TestedAt(c, positions, d, iteration, peaks, k)
    ensures Tested(c, positions, d, iteration, run)
    decreases c.maxIter - iteration - |peaks|
  {
    if Stops(c, positions, c.Dirty(d, peaks), iteration + |peaks|, |peaks|) {
      run := peaks;
    } else {
      var q := Decides(c, positions, c.Dirty(d, peaks), iteration + |peaks|, |peaks|);
      var more := peaks + [q];
      assert more[..|peaks|] == peaks;
      forall k | 0 <= k < |more| ensures TestedAt(c, positions, d, iteration, more, k) {
        if k < |peaks| {
          assert TestedAt(c, positions, d, iteration, peaks, k);
          assert more[..k] == peaks[..k];
        }
      }
      run := Extend(c, positions, d, iteration, more);
    }
  }

  /** The selected pixels among the first n. */
  lemma {:induction false} SelectFirst(c: Clean, d: Images, n: nat) returns (positions: seq<nat>)
    requires c.Valid() && c.Sized(d) && n <= c.Pixels()
    ensures forall j, k :: 0 <= j < k < |positions| ==> positions[j] < positions[k]
    ensures forall p: nat {:trigger p in positions} :: p in positions <==>
              p < n && c.ConsideredAt(d, p) && c.Strength(c.Value(d, p)) >= c.threshold
  {
    if n == 0 {
      positions := [];
    } else {
      var last := n - 1;
      positions := SelectFirst(c, d, last);
      if c.ConsideredAt(d, last) && c.Strength(c.Value(d, last)) >= c.threshold {
        forall j | 0 <= j < |positions| ensures positions[j] < last {
          assert positions[j] in positions;
        }
        positions := positions + [last];
      }
    }
  }

  /** Every loop has a finished run. */
  lemma RunExists(c: Clean, d: Images, iteration: nat) returns (positions: seq<nat>, peaks: seq<nat>)
    requires c.Valid() && c.Sized(d)
    ensures Selects(c, d, positions) && LoopRun(c, d, iteration, positions, peaks)
  {
    positions := [];
    if c.way.SubMinor? {
      positions := SelectFirst(c, d, c.Pixels());
      forall k | 0 <= k < |positions| ensures positions[k] < c.Pixels() {
        assert positions[k] in positions;
      }
    }
    peaks := Extend(c, positions, d, iteration, []);
    RunTested(c, d, iteration, positions, peaks);
  }

  /** What a finished run did at its k-th loop test. */
  lemma TestOf(c: Clean, positions: seq<nat>, d: Images, iteration: nat, run: seq<nat>, k: nat, e: Images)
    requires c.Valid() && c.Sized(d) && c.Peaks(positions) && Tested(c, positions, d, iteration, run) && k <= |run|
    requires e == c.Dirty(d, run[..k])
    ensures if k < |run| then GoesOn(c, positions, e, iteration + k, k, run[k])
            else Stops(c, positions, e, iteration + k, k)
  {
    if k < |run| {
      assert TestedAt(c, positions, d, iteration, run, k);
    } else {
      assert run[..k] == run;
    }
  }

  lemma Decides(c: Clean, positions: seq<nat>, e: Images, iteration: nat, k: nat) returns (q: nat)
    requires c.Valid() && c.Sized(e) && c.Peaks(positions) && !Stops(c, positions, e, iteration, k)
    ensures GoesOn(c, positions, e, iteration, k, q) && q < c.Pixels() && iteration < c.maxIter
  {
    if c.way.WholeImage? {
      q := PlainPixel(c.At(k), e, iteration);
    } else {
      q := SubPixel(c, e, positions, iteration);
    }
  }

  /** Selected pixels are under the mask. */
  ghost predicate PositionsOn(c: Clean, positions: seq<nat>, on: set<nat>) {
    forall j :: 0 <= j < |positions| ==> positions[j] < c.Pixels() && positions[j] in on
  }

  /** The decision of a loop test depends on the pixels under the mask only. */
  lemma SameDecision(c: Clean, positions: seq<nat>, e: Images, e': Images, on: set<nat>, iteration: nat, k: nat, q: nat)
    requires MaskedBy(c, on) && SameOn(c, e, e', on) && PositionsOn(c, positions, on)
    requires c.Peaks(positions) && GoesOn(c, positions, e, iteration, k, q)
    ensures q in on && q < c.Pixels() && GoesOn(c, positions, e', iteration, k, q)
  {
    if c.way.WholeImage? {
      SameOnAt(c, k, e, e', on);
      SamePlain(c.At(k), e, e', on, iteration, q);
    } else {
      var j: nat :| c.Strongest(e, positions, j) && q == positions[j];
      SameStrongest(c, positions, e, e', on, j);
    }
  }

  lemma SameOnAt(c: Clean, k: nat, e: Images, e': Images, on: set<nat>)
    requires MaskedBy(c, on) && SameOn(c, e, e', on)
    ensures MaskedBy(c.At(k), on) && SameOn(c.At(k), e, e', on)
  {
    forall p: nat | p < c.Pixels() && p in on ensures AgreeAt(c.At(k), e, e', p) {
      assert AgreeAt(c, e, e', p);
    }
  }

  lemma SamePlain(c: Clean, e: Images, e': Images, on: set<nat>, iteration: nat, q: nat)
    requires MaskedBy(c, on) && SameOn(c, e, e', on) && c.PlainGoesOn(e, iteration, q)
    ensures q in on && q < c.Pixels() && c.PlainGoesOn(e', iteration, q)
  {
    var r: Peak :| c.Finds(e, Some(r)) && c.Continues(r.value, iteration) && q == r.y * c.width + r.x;
    PeakInside(c, e, r);
    SearchMasked(c, e, e', on, q);
    SameFound(c, e, e', on, Some(r));
  }

  lemma SameStrongest(c: Clean, positions: seq<nat>, e: Images, e': Images, on: set<nat>, j: nat)
    requires MaskedBy(c, on) && SameOn(c, e, e', on) && PositionsOn(c, positions, on) && c.Peaks(positions)
    requires c.Strongest(e, positions, j)
    ensures c.Strongest(e', positions, j) && c.Value(e', positions[j]) == c.Value(e, positions[j])
  {
    forall m | 0 <= m < |positions| ensures c.Value(e', positions[m]) == c.Value(e, positions[m]) {
      SameValue(c, e, e', positions[m]);
    }
  }

  /** Cleaning a pixel under the mask leaves equal pixels equal. */
  lemma SameSubtraction(c: Clean, e: Images, e': Images, on: set<nat>, q: nat)
    requires c.Valid() && SameOn(c, e, e', on) && q in on && q < c.Pixels()
    ensures c.Component(e, q) == c.Component(e', q) && SameOn(c, c.Subtract(e, q), c.Subtract(e', q), on)
  {
    SameValue(c, e, e', q);
    forall p: nat | p < c.Pixels() && p in on ensures AgreeAt(c, c.Subtract(e, q), c.Subtract(e', q), p) {
      forall i | 0 <= i < c.Count() ensures c.Subtract(e, q)[i][p] == c.Subtract(e', q)[i][p] {
        assert AgreeAt(c, e, e', p);
        SubtractAt(c, e, q, i, p);
        SubtractAt(c, e', q, i, p);
      }
    }
  }

  // ----- whole runs

  lemma DirtyStep(c: Clean, d: Images, peaks: seq<nat>, k: nat)
    requires c.Valid() && c.Sized(d) && c.Peaks(peaks) && k < |peaks|
    ensures var next := k + 1; c.Dirty(d, peaks[..next]) == c.Subtract(c.Dirty(d, peaks[..k]), peaks[k])
    ensures var next := k + 1; peaks[..next] == peaks[..k] + [peaks[k]]
  {
    var next := k + 1;
    assert peaks[..next][..k] == peaks[..k];
  }

  /** Two finished runs over image sets that are equal under the mask clean the same pixels, all of them under it. */
  lemma {:induction false} SamePrefix(c: Clean, positions: seq<nat>, d: Images, d': Images, on: set<nat>,
                                      iteration: nat, a: seq<nat>, b: seq<nat>, k: nat)
    requires MaskedBy(c, on) && SameOn(c, d, d', on) && PositionsOn(c, positions, on) && c.Peaks(positions)
    requires Tested(c, positions, d, iteration, a) && Tested(c, positions, d', iteration, b) && k <= |a|
    ensures k <= |b| && a[..k] == b[..k] && forall j :: 0 <= j < k ==> a[j] in on
    ensures SameOn(c, c.Dirty(d, a[..k]), c.Dirty(d', a[..k]), on)
  {
    if k > 0 {
      var before := k - 1;
      SamePrefix(c, positions, d, d', on, iteration, a, b, before);
      var e, e' := c.Dirty(d, a[..before]), c.Dirty(d', a[..before]);
      SameNext(c, positions, d, d', on, iteration, a, b, before, e, e');
      DirtyStep(c, d, a, before);
      DirtyStep(c, d', b, before);
      SameSubtraction(c, e, e', on, a[before]);
    }
  }

  lemma SameNext(c: Clean, positions: seq<nat>, d: Images, d': Images, on: set<nat>, iteration: nat, a: seq<nat>,
                 b: seq<nat>, k: nat, e: Images, e': Images)
    requires MaskedBy(c, on) && PositionsOn(c, positions, on) && c.Peaks(positions) && c.Sized(d) && c.Sized(d')
    requires Tested(c, positions, d, iteration, a) && Tested(c, positions, d', iteration, b)
    requires k < |a| && k <= |b| && a[..k] == b[..k] && SameOn(c, e, e', on)
    requires e == c.Dirty(d, a[..k]) && e' == c.Dirty(d', b[..k])
    ensures k < |b| && a[k] == b[k] && a[k] in on
  {
    TestOf(c, positions, d, iteration, a, k, e);
    SameDecision(c, positions, e, e', on, iteration + k, k, a[k]);
    NextTested(c, positions, d', iteration, b, k, a[k]);
  }

  /** A finished run does what its loop tests say. */
  lemma NextTested(c: Clean, positions: seq<nat>, d: Images, iteration: nat, run: seq<nat>, k: nat, q: nat)
    requires c.Valid() && c.Sized(d) && c.Peaks(positions) && Tested(c, positions, d, iteration, run) && k <= |run|
    requires GoesOn(c, positions, c.Dirty(d, run[..k]), iteration + k, k, q)
    ensures k < |run| && run[k] == q
  {
    var e := c.Dirty(d, run[..k]);
    TestOf(c, positions, d, iteration, run, k, e);
    NotBoth(c, positions, e, iteration + k, k, q);
    if k < |run| {
      OnePixel(c, positions, e, iteration + k, k, q, run[k]);
    }
  }

  lemma SameTested(c: Clean, positions: seq<nat>, d: Images, d': Images, on: set<nat>, iteration: nat, a: seq<nat>,
                   b: seq<nat>)
    requires MaskedBy(c, on) && SameOn(c, d, d', on) && PositionsOn(c, positions, on) && c.Peaks(positions)
    requires Tested(c, positions, d, iteration, a) && Tested(c, positions, d', iteration, b)
    ensures a == b && forall j :: 0 <= j < |a| ==> a[j] in on
  {
    SamePrefix(c, positions, d, d', on, iteration, a, b, |a|);
    SameAlso(c, d', d, on);
    SamePrefix(c, positions, d', d, on, iteration, b, a, |b|);
  }

  /** Two selections from image sets that are equal under the mask are the same. */
  lemma SameSelection(c: Clean, d: Images, d': Images, on: set<nat>, a: seq<nat>, b: seq<nat>)
    requires MaskedBy(c, on) && SameOn(c, d, d', on) && Selects(c, d, a) && Selects(c, d', b)
    ensures a == b && PositionsOn(c, a, on) && c.Peaks(a)
  {
    if c.way.SubMinor? {
      assert Rising(a) && Rising(b);
      forall p: nat ensures p in a <==> p in b
        ensures p in a ==> p in on
      {
        if p < c.Pixels() {
          SearchMasked(c, d, d', on, p);
          SameAlso(c, d', d, on);
          SearchMasked(c, d', d, on, p);
        }
      }
      SameSorted(a, b);
      forall j | 0 <= j < |a| ensures a[j] in on {
        assert a[j] in a;
      }
    }
  }

  predicate Rising(a: seq<nat>) {
    forall j, k :: 0 <= j < k < |a| ==> a[j] < a[k]
  }

  ghost predicate SameMembers(a: seq<nat>, b: seq<nat>) {
    forall p: nat {:trigger p in a} {:trigger p in b} :: p in a <==> p in b
  }

  /** Rising sequences with the same elements are equal. */
  lemma {:induction false} SameSorted(a: seq<nat>, b: seq<nat>)
    requires Rising(a) && Rising(b) && SameMembers(a, b)
    ensures a == b
  {
    assert |a| > 0 ==> a[0] in b;
    assert |b| > 0 ==> b[0] in a;
    if a != [] {
      var front, front', last := a[..|a| - 1], b[..|b| - 1], a[|a| - 1];
      SameLast(a, b);
      assert a == front + [last] && b == front' + [last];
      SameFronts(front, front', last);
      SameSorted(front, front');
    }
  }

  lemma SameLast(a: seq<nat>, b: seq<nat>)
    requires a != [] && b != [] && Rising(a) && Rising(b) && SameMembers(a, b)
    ensures a[|a| - 1] == b[|b| - 1]
  {
    AtMostLast(a, b[|b| - 1]);
    AtMostLast(b, a[|a| - 1]);
  }

  lemma AtMostLast(a: seq<nat>, p: nat)
    requires Rising(a) && p in a
    ensures p <= a[|a| - 1]
  {
  }

  lemma SameFronts(front: seq<nat>, front': seq<nat>, last: nat)
    requires Rising(front + [last]) && Rising(front' + [last]) && SameMembers(front + [last], front' + [last])
    ensures Rising(front) && Rising(front') && SameMembers(front, front')
  {
    InFront(front, last);
    InFront(front', last);
    forall p: nat ensures p in front <==> p in front' {
      assert p in front + [last] <==> p in front' + [last];
    }
  }

  lemma InFront(front: seq<nat>, last: nat)
    requires Rising(front + [last])
    ensures Rising(front) && last !in front
    ensures forall p: nat {:trigger p in front} :: p in front <==> p in front + [last] && p != last
  {
    var a := front + [last];
    assert a[|front|] == last;
    forall j | 0 <= j < |front| ensures front[j] < last {
      assert a[j] == front[j];
    }
    forall j, k | 0 <= j < k < |front| ensures front[j] < front[k] {
      assert a[j] == front[j] && a[k] == front[k];
    }
  }

  /** What a run under the mask leaves there, and the model it makes. */
  lemma {:induction false} SameOutcomeOn(c: Clean, m: Images, d: Images, d': Images, on: set<nat>, peaks: seq<nat>)
    requires c.Valid() && SameOn(c, d, d', on) && c.Sized(m) && c.Peaks(peaks)
    requires forall j :: 0 <= j < |peaks| ==> peaks[j] in on
    ensures SameOn(c, c.Dirty(d, peaks), c.Dirty(d', peaks), on)
    ensures c.Model(m, d, peaks) == c.Model(m, d', peaks)
    decreases |peaks|
  {
    if peaks != [] {
      var before, q := peaks[..|peaks| - 1], peaks[|peaks| - 1];
      SameOutcomeOn(c, m, d, d', on, before);
      SameSubtraction(c, c.Dirty(d, before), c.Dirty(d', before), on, q);
    }
  }

  /** A finished loop depends on the data under the mask only. */
  lemma LoopIsLocal(c: Clean, m: Images, d: Images, d': Images, on: set<nat>, iteration: nat, positions: seq<nat>,
                    positions': seq<nat>, a: seq<nat>, b: seq<nat>)
    requires MaskedBy(c, on) && SameOn(c, d, d', on) && c.Sized(m)
    requires Selects(c, d, positions) && Selects(c, d', positions')
    requires LoopRun(c, d, iteration, positions, a) && LoopRun(c, d', iteration, positions', b)
    ensures a == b && c.Peaks(a) && c.Model(m, d, a) == c.Model(m, d', b)
    ensures SameOn(c, Left(c, d, a), Left(c, d', b), on)
  {
    SameSelection(c, d, d', on, positions, positions');
    RunTested(c, d, iteration, positions, a);
    RunTested(c, d', iteration, positions, b);
    SameTested(c, positions, d, d', on, iteration, a, b);
    SameOutcomeOn(c, m, d, d', on, a);
    SameLeft(c, d, d', on, a);
  }

  /** What a run under the mask leaves there on the full images, also after a sub-minor run. */
  lemma SameLeft(c: Clean, d: Images, d': Images, on: set<nat>, peaks: seq<nat>)
    requires c.Valid() && SameOn(c, d, d', on) && c.Peaks(peaks)
    requires forall j :: 0 <= j < |peaks| ==> peaks[j] in on
    ensures SameOn(c, Left(c, d, peaks), Left(c, d', peaks), on)
  {
    SameOutcomeOn(c, Nothing(c), d, d', on, peaks);
    if c.way.SubMinor? {
      forall p: nat | p < c.Pixels() && p in on ensures AgreeAt(c, Corrected(c, d, peaks), Corrected(c, d', peaks), p) {
        assert AgreeAt(c, d, d', p);
      }
    }
  }

  // ----- a major iteration

  /** The first pixels that a search would find among the first n; none if none can be a peak. */
  lemma {:induction false} BestOf(c: Clean, d: Images, n: nat) returns (best: Option<nat>)
    requires c.Valid() && c.Sized(d) && n <= c.Pixels()
    ensures best.None? ==> forall p: nat :: p < n && c.ConsideredAt(d, p) ==> c.Strength(c.Value(d, p)) <= FLOAT_MIN
    ensures best.Some? ==>
              best.value < n && c.ConsideredAt(d, best.value) && c.Strength(c.Value(d, best.value)) > FLOAT_MIN &&
              forall p: nat :: p < n && c.ConsideredAt(d, p) ==> !c.Outranks(d, p, best.value)
  {
    best := None;
    if n > 0 {
      var last := n - 1;
      best := BestOf(c, d, last);
      if c.ConsideredAt(d, last) && c.Strength(c.Value(d, last)) > FLOAT_MIN &&
         (best.None? || c.Outranks(d, last, best.value)) {
        best := Some(last);
      }
    }
  }

  lemma SearchSucceeds(c: Clean, d: Images) returns (r: Option<Peak>)
    requires c.Valid() && c.Sized(d)
    ensures c.Finds(d, r)
  {
    var found := PeakExists(c, d);
    r := if c.Dark(d) then Some(Peak(0, 0, c.Value(d, 0))) else found;
  }

  lemma PeakExists(c: Clean, d: Images) returns (r: Option<Peak>)
    requires c.Valid() && c.Sized(d)
    ensures c.SearchOf(d).Finds(r)
  {
    var best := BestOf(c, d, c.Pixels());
    if best.Some? {
      var peak := OutranksIsFound(c, d, best.value);
      r := Some(peak);
    } else {
      r := None;
      var s := c.SearchOf(d);
      forall x, y | s.Considered(x, y) ensures s.Level(x, y) <= FLOAT_MIN {
        RowMajor.Fits(c.width, c.height, x, y);
        RowMajor.Splits(c.width, x, y);
        FlatAt(c, d, y * c.width + x);
        assert c.ConsideredAt(d, y * c.width + x);
      }
    }
  }

  /** The settings of the loop of a major iteration that starts with the given peak. */
  function LoopOf(s: Settings, first: Option<Peak>): Clean {
    if first.None? then s.clean else s.ForLoop(first.value.value)
  }

  /** A major iteration: its first peak, and the pixels it cleans. */
  ghost predicate MajorRun(s: Settings, d: Images, iteration: nat, first: Option<Peak>, peaks: seq<nat>)
    requires s.clean.Valid() && s.clean.Sized(d)
  {
    s.Signed().Finds(d, first) &&
    if first.None? then peaks == []
    else exists positions: seq<nat> {:trigger Selects(LoopOf(s, first), d, positions)} ::
           Selects(LoopOf(s, first), d, positions) && LoopRun(LoopOf(s, first), d, iteration, positions, peaks)
  }

  lemma MajorRunExists(s: Settings, d: Images, iteration: nat) returns (first: Option<Peak>, peaks: seq<nat>)
    requires s.clean.Valid() && s.clean.Sized(d)
    ensures MajorRun(s, d, iteration, first, peaks)
  {
    first := SearchSucceeds(s.Signed(), d);
    peaks := [];
    if first.Some? {
      var positions;
      positions, peaks := RunExists(LoopOf(s, first), d, iteration);
    }
  }

  lemma SameOnFor(s: Settings, c: Clean, d: Images, d': Images, on: set<nat>)
    requires MaskedBy(s.clean, on) && SameOn(s.clean, d, d', on)
    requires c == s.clean.(allowNegative := c.allowNegative, threshold := c.threshold)
    ensures MaskedBy(c, on) && SameOn(c, d, d', on)
  {
    forall p: nat | p < c.Pixels() && p in on ensures AgreeAt(c, d, d', p) {
      assert AgreeAt(s.clean, d, d', p);
    }
  }

  /** A major iteration depends on the data under the clean mask only. */
  lemma MajorIsLocal(s: Settings, m: Images, d: Images, d': Images, on: set<nat>, iteration: nat, first: Option<Peak>,
                     first': Option<Peak>, a: seq<nat>, b: seq<nat>)
    requires MaskedBy(s.clean, on) && SameOn(s.clean, d, d', on) && s.clean.Sized(m)
    requires MajorRun(s, d, iteration, first, a) && MajorRun(s, d', iteration, first', b)
    ensures first == first' && a == b && LoopOf(s, first).Valid() && LoopOf(s, first).Peaks(a)
    ensures LoopOf(s, first).Model(m, d, a) == LoopOf(s, first).Model(m, d', a)
    ensures SameOn(LoopOf(s, first), Left(LoopOf(s, first), d, a), Left(LoopOf(s, first), d', a), on)
  {
    SameOnFor(s, s.Signed(), d, d', on);
    SameFound(s.Signed(), d, d', on, first);
    FindsOne(s.Signed().SearchOf(d'), first, first');
    var c := LoopOf(s, first);
    SameOnFor(s, c, d, d', on);
    if first.Some? {
      var p: seq<nat> :| Selects(c, d, p) && LoopRun(c, d, iteration, p, a);
      var p': seq<nat> :| Selects(c, d', p') && LoopRun(c, d', iteration, p', b);
      LoopIsLocal(c, m, d, d', on, iteration, p, p', a, b);
    } else {
      SameOutcomeOn(c, m, d, d', on, a);
      SameLeft(c, d, d', on, a);
    }
  }
}
