/**
 * The workers of ParallelDeconvolution::executeParallelRun.  Each worker trims its subimage out of the
 * shared images under a mutex, deconvolves it on its own, and merges the outcome under the mutex.
 * A schedule is any interleaving of these locked steps.
 */
module ParallelDeconvolution {
  import opened DividingPath
  import opened FloodAreas

  /** The values of an image; zero outside the image. */
  type Image = Coord -> real

  /** The deconvolution of one subimage: new data and new model from the trimmed data and model. */
  type Algorithm = (nat, Image, Image) -> (Image, Image)

  // ----- the locked operations on values

  /** ImageSet::Trim. */
  function Trim(image: Image, box: Box): Image {
    c => if box.Contains(c) then image(c) else 0.0
  }

  /** ImageSet::TrimMasked: values outside the mask become zero. */
  function TrimMasked(image: Image, box: Box, mask: set<Coord>): Image {
    c => if box.Contains(c) && c in mask then image(c) else 0.0
  }

  /** ImageSet::CopyMasked: only masked values are written. */
  function CopyMasked(image: Image, box: Box, mask: set<Coord>, from: Image): Image {
    c => if box.Contains(c) && c in mask then from(c) else image(c)
  }

  /** ImageSet::AddSubImage: the whole box is added. */
  function AddSubImage(image: Image, box: Box, from: Image): Image {
    c => if box.Contains(c) then image(c) + from(c) else image(c)
  }

  // ----- schedules

  datatype Phase = Waiting | Trimmed(data: Image, model: Image) | Merged(data: Image, model: Image)

  datatype State = State(data: Image, result: Image, phases: seq<Phase>)

  datatype Event = TrimStep(worker: nat) | MergeStep(worker: nat)

  datatype Job = Job(box: Box, mask: set<Coord>)

  datatype Setup = Setup(data: Image, model: Image, jobs: seq<Job>, run: Algorithm) {
    /** Every mask lies in its box, and no pixel is in two masks. */
    ghost predicate Disjoint() {
      MasksInBoxes() &&
      forall i, j, c :: 0 <= i < |jobs| && 0 <= j < |jobs| && c in jobs[i].mask && c in jobs[j].mask ==> i == j
    }

    /** The pixel is in the mask of worker i and in no other. */
    ghost predicate Sole(i: nat, c: Coord)
      requires i < |jobs|
    {
      c in jobs[i].mask && forall j :: 0 <= j < |jobs| && j != i ==> c !in jobs[j].mask
    }

    ghost predicate MasksInBoxes() {
      forall i, c :: 0 <= i < |jobs| && c in jobs[i].mask ==> jobs[i].box.Contains(c)
    }

    function Start(): State {
      State(data, _ => 0.0, seq(|jobs|, _ => Waiting))
    }

    predicate Enabled(s: State, e: Event) {
      |s.phases| == |jobs| && e.worker < |jobs| &&
      if e.TrimStep? then s.phases[e.worker].Waiting? else s.phases[e.worker].Trimmed?
    }

    function Outcome(i: nat, p: Phase): (Image, Image)
      requires !p.Waiting?
    {
      run(i, p.data, p.model)
    }

    function Step(s: State, e: Event): State
      requires Enabled(s, e)
    {
      var i := e.worker;
      var job := jobs[i];
      if e.TrimStep? then
        s.(phases := s.phases[i := Trimmed(Trim(s.data, job.box), TrimMasked(model, job.box, job.mask))])
      else
        var (d, m) := Outcome(i, s.phases[i]);
        State(CopyMasked(s.data, job.box, job.mask, d), AddSubImage(s.result, job.box, m),
              s.phases[i := Merged(s.phases[i].data, s.phases[i].model)])
    }

    ghost predicate Legal(events: seq<Event>)
      decreases |events|, 0
    {
      events == [] || (Legal(events[..|events| - 1]) && Enabled(Exec(events[..|events| - 1]), events[|events| - 1]))
    }

    /** The state after a schedule. */
    ghost function Exec(events: seq<Event>): (s: State)
      requires Legal(events)
      decreases |events|, 1
    {
      if events == [] then Start() else Step(Exec(events[..|events| - 1]), events[|events| - 1])
    }

    ghost predicate Finished(s: State) {
      |s.phases| == |jobs| && forall i :: 0 <= i < |jobs| ==> s.phases[i].Merged?
    }

    /** What worker i adds to the model at a pixel: the new submodel inside its box, nothing before it merged. */
    ghost function Contribution(s: State, i: nat, c: Coord): real
      requires i < |jobs| == |s.phases|
    {
      if s.phases[i].Merged? && jobs[i].box.Contains(c) then Outcome(i, s.phases[i]).1(c) else 0.0
    }

    /** The sum of the contributions of the first n workers. */
    ghost function Total(s: State, c: Coord, n: nat): real
      requires n <= |jobs| == |s.phases|
    {
      if n == 0 then 0.0 else Total(s, c, n - 1) + Contribution(s, n - 1, c)
    }

    /** The sum of the masked submodels of the first n workers. */
    ghost function SubModels(c: Coord, n: nat): real
      requires n <= |jobs|
    {
      if n == 0 then 0.0 else SubModels(c, n - 1) + TrimMasked(model, jobs[n - 1].box, jobs[n - 1].mask)(c)
    }

    ghost predicate WorkerWell(s: State, i: nat)
      requires i < |jobs| == |s.phases|
    {
      var p := s.phases[i];
      (!p.Waiting? ==> forall c {:trigger Sole(i, c)} :: Sole(i, c) ==> p.data(c) == data(c)) &&
      (!p.Waiting? ==> forall c :: p.model(c) == TrimMasked(model, jobs[i].box, jobs[i].mask)(c)) &&
      forall c {:trigger Sole(i, c)} :: Sole(i, c) ==>
        s.data(c) == if p.Merged? then Outcome(i, p).0(c) else data(c)
    }

    /** What every step of every schedule keeps. */
    ghost predicate Inv(s: State) {
      |s.phases| == |jobs| &&
      (forall i :: 0 <= i < |jobs| ==> WorkerWell(s, i)) &&
      (forall c :: (forall i :: 0 <= i < |jobs| ==> c !in jobs[i].mask) ==> s.data(c) == data(c)) &&
      forall c :: s.result(c) == Total(s, c, |jobs|)
    }
  }

  /** Changing the phase of one worker changes the total by the change of its own contribution. */
  lemma {:induction false} TotalAfter(u: Setup, s: State, t: State, i: nat, c: Coord, n: nat)
    requires n <= |u.jobs| == |s.phases| == |t.phases| && i < |u.jobs|
    requires forall j :: 0 <= j < |u.jobs| && j != i ==> s.phases[j] == t.phases[j]
    ensures u.Total(t, c, n) == u.Total(s, c, n) + if i < n then u.Contribution(t, i, c) - u.Contribution(s, i, c)
            else 0.0
  {
    if n > 0 {
      TotalAfter(u, s, t, i, c, n - 1);
    }
  }

  lemma WorkerStaysWell(u: Setup, s: State, e: Event, j: nat)
    requires u.MasksInBoxes() && u.Inv(s) && u.Enabled(s, e) && j < |u.jobs|
    ensures u.WorkerWell(u.Step(s, e), j)
  {
    var t := u.Step(s, e);
    assert u.WorkerWell(s, j) && u.WorkerWell(s, e.worker);
    if e.MergeStep? && j != e.worker {
      forall c | u.Sole(j, c) ensures t.data(c) == s.data(c) {
        assert c !in u.jobs[e.worker].mask;
      }
    }
  }

  lemma StepKeeps(u: Setup, s: State, e: Event)
    requires u.MasksInBoxes() && u.Inv(s) && u.Enabled(s, e)
    ensures u.Inv(u.Step(s, e))
  {
    var t := u.Step(s, e);
    var i := e.worker;
    forall j | 0 <= j < |u.jobs| ensures u.WorkerWell(t, j) {
      WorkerStaysWell(u, s, e, j);
    }
    forall c ensures t.result(c) == u.Total(t, c, |u.jobs|) {
      TotalAfter(u, s, t, i, c, |u.jobs|);
    }
  }

  lemma {:induction false} ScheduleKeeps(u: Setup, events: seq<Event>)
    requires u.MasksInBoxes() && u.Legal(events)
    ensures u.Inv(u.Exec(events))
    decreases |events|
  {
    if events == [] {
      forall c ensures u.Total(u.Start(), c, |u.jobs|) == 0.0 {
        NothingMerged(u, c, |u.jobs|);
      }
    } else {
      ScheduleKeeps(u, events[..|events| - 1]);
      StepKeeps(u, u.Exec(events[..|events| - 1]), events[|events| - 1]);
    }
  }

  lemma {:induction false} NothingMerged(u: Setup, c: Coord, n: nat)
    requires n <= |u.jobs|
    ensures u.Total(u.Start(), c, n) == 0.0
  {
    if n > 0 {
      NothingMerged(u, c, n - 1);
    }
  }

  /** The masked submodels add up to the original model where one mask holds the pixel, to nothing where none does. */
  lemma {:induction false} SubModelsSum(u: Setup, c: Coord, n: nat)
    requires u.MasksInBoxes() && n <= |u.jobs|
    requires forall i, j :: 0 <= i < |u.jobs| && 0 <= j < |u.jobs| && c in u.jobs[i].mask && c in u.jobs[j].mask ==>
               i == j
    ensures (exists i :: 0 <= i < n && c in u.jobs[i].mask) ==> u.SubModels(c, n) == u.model(c)
    ensures !(exists i :: 0 <= i < n && c in u.jobs[i].mask) ==> u.SubModels(c, n) == 0.0
  {
    if n > 0 {
      SubModelsSum(u, c, n - 1);
      if c in u.jobs[n - 1].mask {
        assert forall i :: 0 <= i < n - 1 ==> c !in u.jobs[i].mask;
      }
    }
  }

  /**
   * Every finished schedule: where one mask alone holds a pixel, its worker has read the original data there and the
   * data image holds its result; where none does, the data image is as it was; and the model is the sum of all
   * submodels.
   */
  lemma EverySchedule(u: Setup, events: seq<Event>, c: Coord)
    requires u.MasksInBoxes() && u.Legal(events) && u.Finished(u.Exec(events))
    ensures var s := u.Exec(events);
            (forall i :: 0 <= i < |u.jobs| && u.Sole(i, c) ==>
               s.phases[i].data(c) == u.data(c) && s.data(c) == u.Outcome(i, s.phases[i]).0(c)) &&
            ((forall i :: 0 <= i < |u.jobs| ==> c !in u.jobs[i].mask) ==> s.data(c) == u.data(c)) &&
            s.result(c) == u.Total(s, c, |u.jobs|)
  {
    ScheduleKeeps(u, events);
    var s := u.Exec(events);
    forall i | 0 <= i < |u.jobs| && u.Sole(i, c)
      ensures s.phases[i].data(c) == u.data(c) && s.data(c) == u.Outcome(i, s.phases[i]).0(c)
    {
      assert u.WorkerWell(s, i);
    }
  }

  lemma {:induction false} OneContribution(u: Setup, s: State, i: nat, c: Coord, n: nat)
    requires |s.phases| == |u.jobs| && i < |u.jobs| && n <= |u.jobs|
    requires forall j :: 0 <= j < |u.jobs| && j != i ==> !u.jobs[j].box.Contains(c)
    ensures u.Total(s, c, n) == if i < n then u.Contribution(s, i, c) else 0.0
  {
    if n > 0 {
      OneContribution(u, s, i, c, n - 1);
    }
  }

  /** On a pixel in one box only, in its mask or not, the model is what its worker has made of it. */
  lemma ModelInOneBox(u: Setup, events: seq<Event>, c: Coord, i: nat)
    requires u.MasksInBoxes() && u.Legal(events) && u.Finished(u.Exec(events)) && i < |u.jobs|
    requires forall j :: 0 <= j < |u.jobs| ==> (u.jobs[j].box.Contains(c) <==> j == i)
    ensures var s := u.Exec(events); s.result(c) == u.run(i, s.phases[i].data, s.phases[i].model).1(c)
  {
    ScheduleKeeps(u, events);
    OneContribution(u, u.Exec(events), i, c, |u.jobs|);
  }

  // ----- the first round, in which the workers only look for a peak

  /** As long as no worker merges, every worker is handed the same data and model, whatever the schedule. */
  lemma {:induction false} OnlyTrims(u: Setup, events: seq<Event>, i: nat)
    requires u.Legal(events) && i < |u.jobs| && forall k {:trigger events[k]} :: 0 <= k < |events| ==>
             events[k].TrimStep?
    ensures var s := u.Exec(events);
            s.data == u.data && |s.phases| == |u.jobs| &&
            (!s.phases[i].Waiting? ==>
               s.phases[i] == Trimmed(Trim(u.data, u.jobs[i].box), TrimMasked(u.model, u.jobs[i].box, u.jobs[i].mask)))
    decreases |events|
  {
    if events != [] {
      var before := events[..|events| - 1];
      OnlyTrims(u, before, i);
      assert events[|events| - 1].TrimStep?;
    }
  }

  /** The threshold of the run: a part of the highest peak that a subimage reported, of the first such subimage. */
  method StartingThreshold(peaks: seq<real>, mGain: real) returns (threshold: real, maxValue: real, indexOfMax: nat)
    ensures threshold == maxValue * (1.0 - mGain)
    ensures maxValue >= 0.0 && forall k :: 0 <= k < |peaks| ==> peaks[k] <= maxValue
    ensures maxValue > 0.0 ==> indexOfMax < |peaks| && peaks[indexOfMax] == maxValue && forall k ::
            0 <= k < indexOfMax ==> peaks[k] < maxValue
    ensures maxValue == 0.0 ==> indexOfMax == 0
  {
    maxValue, indexOfMax := 0.0, 0;
    for k := 0 to |peaks|
      invariant maxValue >= 0.0 && forall j :: 0 <= j < k ==> peaks[j] <= maxValue
      invariant maxValue > 0.0 ==> indexOfMax < k && peaks[indexOfMax] == maxValue && forall j ::
                0 <= j < indexOfMax ==> peaks[j] < maxValue
      invariant maxValue == 0.0 ==> indexOfMax == 0
    {
      if peaks[k] > maxValue {
        maxValue, indexOfMax := peaks[k], k;
      }
    }
    threshold := maxValue * (1.0 - mGain);
  }

  datatype Report = Report(reachedMajorThreshold: bool, iterationNumber: nat, maxNIter: nat)

  /** Another major iteration follows if some subimage asks for it and none has run out of iterations. */
  method NextIteration(reports: seq<Report>) returns (reachedMajorThreshold: bool)
    ensures reachedMajorThreshold <==>
              (exists k :: 0 <= k < |reports| && reports[k].reachedMajorThreshold) &&
              forall k :: 0 <= k < |reports| ==> reports[k].iterationNumber < reports[k].maxNIter
  {
    var subImagesFinished, reachedMaxNIter := 0, false;
    for k := 0 to |reports|
      invariant subImagesFinished <= k
      invariant subImagesFinished == k <==> forall j :: 0 <= j < k ==> !reports[j].reachedMajorThreshold
      invariant reachedMaxNIter <==> exists j :: 0 <= j < k && reports[j].iterationNumber >= reports[j].maxNIter
    {
      if !reports[k].reachedMajorThreshold {
        subImagesFinished := subImagesFinished + 1;
      }
      if reports[k].iterationNumber >= reports[k].maxNIter {
        reachedMaxNIter := true;
      }
    }
    reachedMajorThreshold := subImagesFinished != |reports|;
    if reachedMajorThreshold && reachedMaxNIter {
      reachedMajorThreshold := false;
    }
  }

  /** An algorithm whose outcome depends on the data only through the pixels the worker owns. */
  ghost predicate Local(u: Setup) {
    forall i: nat, d: Image, d': Image, m: Image, m': Image {:trigger SameFor(u, i, d, m, d', m')} ::
      i < |u.jobs| && (forall b :: b in u.jobs[i].mask ==> d(b) == d'(b)) && (forall b :: m(b) == m'(b)) ==>
      SameFor(u, i, d, m, d', m')
  }

  /** The algorithm's outcome is the same for two inputs: data on the worker's own pixels, model everywhere. */
  ghost predicate SameFor(u: Setup, i: nat, d: Image, m: Image, d': Image, m': Image)
    requires i < |u.jobs|
  {
    (forall c :: c in u.jobs[i].mask ==> u.run(i, d, m).0(c) == u.run(i, d', m').0(c)) &&
    forall c :: u.run(i, d, m).1(c) == u.run(i, d', m').1(c)
  }

  lemma {:induction false} SameTotals(u: Setup, s: State, t: State, c: Coord, n: nat)
    requires n <= |u.jobs| == |s.phases| == |t.phases|
    requires forall i :: 0 <= i < |u.jobs| ==> u.Contribution(s, i, c) == u.Contribution(t, i, c)
    ensures u.Total(s, c, n) == u.Total(t, c, n)
  {
    if n > 0 {
      SameTotals(u, s, t, c, n - 1);
    }
  }

  lemma SameOutcome(u: Setup, s: State, t: State, i: nat, c: Coord)
    requires Local(u) && u.Inv(s) && u.Inv(t) && u.Finished(s) && u.Finished(t) && i < |u.jobs|
    requires forall b :: b in u.jobs[i].mask ==> u.Sole(i, b)
    ensures c in u.jobs[i].mask ==> u.Outcome(i, s.phases[i]).0(c) == u.Outcome(i, t.phases[i]).0(c)
    ensures u.Outcome(i, s.phases[i]).1(c) == u.Outcome(i, t.phases[i]).1(c)
  {
    assert u.WorkerWell(s, i) && u.WorkerWell(t, i);
    var p, q := s.phases[i], t.phases[i];
    assert forall b :: p.model(b) == q.model(b);
    assert SameFor(u, i, p.data, p.model, q.data, q.model);
  }

  /**
   * With a local algorithm, a worker that shares no pixel of its mask has the same outcome in all finished schedules,
   * whatever the other workers share.
   */
  lemma OwnOutcome(u: Setup, first: seq<Event>, second: seq<Event>, i: nat, c: Coord)
    requires u.MasksInBoxes() && Local(u) && i < |u.jobs| && forall b :: b in u.jobs[i].mask ==> u.Sole(i, b)
    requires u.Legal(first) && u.Finished(u.Exec(first)) && u.Legal(second) && u.Finished(u.Exec(second))
    ensures c in u.jobs[i].mask ==> u.Exec(first).data(c) == u.Exec(second).data(c)
    ensures u.Contribution(u.Exec(first), i, c) == u.Contribution(u.Exec(second), i, c)
  {
    ScheduleKeeps(u, first);
    ScheduleKeeps(u, second);
    var s, t := u.Exec(first), u.Exec(second);
    SameOutcome(u, s, t, i, c);
    assert u.WorkerWell(s, i) && u.WorkerWell(t, i);
  }

  /** With a local algorithm all finished schedules agree on the data and on the model. */
  lemma ScheduleIndependent(u: Setup, first: seq<Event>, second: seq<Event>, c: Coord)
    requires u.Disjoint() && Local(u)
    requires u.Legal(first) && u.Finished(u.Exec(first)) && u.Legal(second) && u.Finished(u.Exec(second))
    ensures u.Exec(first).data(c) == u.Exec(second).data(c)
    ensures u.Exec(first).result(c) == u.Exec(second).result(c)
  {
    var s, t := u.Exec(first), u.Exec(second);
    ScheduleKeeps(u, first);
    ScheduleKeeps(u, second);
    forall i | 0 <= i < |u.jobs|
      ensures u.Contribution(s, i, c) == u.Contribution(t, i, c)
      ensures c in u.jobs[i].mask ==> s.data(c) == t.data(c)
    {
      OwnOutcome(u, first, second, i, c);
    }
    SameTotals(u, s, t, c, |u.jobs|);
  }

  // ----- what goes wrong when two masks share a pixel

  lemma Extend(u: Setup, events: seq<Event>, e: Event)
    requires u.Legal(events) && u.Enabled(u.Exec(events), e)
    ensures u.Legal(events + [e]) && u.Exec(events + [e]) == u.Step(u.Exec(events), e)
  {
    assert (events + [e])[..|events + [e]| - 1] == events;
  }

  /** What worker i is handed if it trims before any other worker merges. */
  function Handed(u: Setup, i: nat): Phase
    requires i < |u.jobs|
  {
    Trimmed(Trim(u.data, u.jobs[i].box), TrimMasked(u.model, u.jobs[i].box, u.jobs[i].mask))
  }

  /** What worker i makes of it. */
  function FirstOutcome(u: Setup, i: nat): (Image, Image)
    requires i < |u.jobs|
  {
    u.Outcome(i, Handed(u, i))
  }

  /** The first n workers trim. */
  lemma {:induction false} TrimAll(u: Setup, n: nat) returns (events: seq<Event>)
    requires n <= |u.jobs|
    ensures u.Legal(events) && |u.Exec(events).phases| == |u.jobs| && u.Exec(events).data == u.data
    ensures forall k :: 0 <= k < |u.jobs| ==> u.Exec(events).phases[k] == if k < n then Handed(u, k) else Waiting
  {
    events := [];
    if n > 0 {
      events := TrimAll(u, n - 1);
      Extend(u, events, TrimStep(n - 1));
      events := events + [TrimStep(n - 1)];
    }
  }

  /** All workers have trimmed; the first n of them, except the last one, then merge. */
  lemma {:induction false} MergeAllBut(u: Setup, n: nat, last: nat) returns (events: seq<Event>)
    requires n <= |u.jobs|
    ensures u.Legal(events) && |u.Exec(events).phases| == |u.jobs|
    ensures forall k :: 0 <= k < n && k != last ==> u.Exec(events).phases[k].Merged?
    ensures forall k :: 0 <= k < |u.jobs| && (k >= n || k == last) ==> u.Exec(events).phases[k] == Handed(u, k)
  {
    if n == 0 {
      events := TrimAll(u, |u.jobs|);
    } else {
      events := MergeAllBut(u, n - 1, last);
      if n - 1 != last {
        Extend(u, events, MergeStep(n - 1));
        events := events + [MergeStep(n - 1)];
      }
    }
  }

  /** A finished schedule in which all workers trim before any merges, and the given one merges last. */
  lemma MergedLast(u: Setup, last: nat) returns (events: seq<Event>)
    requires last < |u.jobs|
    ensures u.Legal(events) && u.Finished(u.Exec(events))
    ensures forall c :: u.jobs[last].box.Contains(c) && c in u.jobs[last].mask ==>
              u.Exec(events).data(c) == FirstOutcome(u, last).0(c)
  {
    var before := MergeAllBut(u, |u.jobs|, last);
    Extend(u, before, MergeStep(last));
    events := before + [MergeStep(last)];
  }

  /** An algorithm that ignores what it is given, and marks what one of the workers writes. */
  function Marking(i: nat): Algorithm {
    (k, d, m) => (_ => if k == i then 1.0 else 0.0, _ => 0.0)
  }

  /**
   * When two masks share a pixel, there is for each of the two workers a finished schedule in which it decides the
   * value; whatever the algorithm.
   */
  lemma Race(u: Setup, i: nat, j: nat, c: Coord) returns (first: seq<Event>, second: seq<Event>)
    requires i < |u.jobs| && j < |u.jobs| && u.MasksInBoxes() && c in u.jobs[i].mask && c in u.jobs[j].mask
    ensures u.Legal(first) && u.Finished(u.Exec(first)) && u.Legal(second) && u.Finished(u.Exec(second))
    ensures u.Exec(first).data(c) == FirstOutcome(u, i).0(c) && u.Exec(second).data(c) == FirstOutcome(u, j).0(c)
  {
    first := MergedLast(u, i);
    second := MergedLast(u, j);
  }

  /** So if the two workers make different values of the original data, the outcome depends on the schedule. */
  lemma RaceMatters(u: Setup, i: nat, j: nat, c: Coord)
    requires i < |u.jobs| && j < |u.jobs| && u.MasksInBoxes() && c in u.jobs[i].mask && c in u.jobs[j].mask
    requires FirstOutcome(u, i).0(c) != FirstOutcome(u, j).0(c)
    ensures !SchedulesAgree(u)
  {
    var first, second := Race(u, i, j, c);
    assert u.Exec(first).data(c) != u.Exec(second).data(c);
  }

  /** All finished schedules end with the same data and the same model. */
  ghost predicate SchedulesAgree(u: Setup) {
    forall first: seq<Event>, second: seq<Event> {:trigger u.Legal(first), u.Legal(second)} ::
      u.Legal(first) && u.Finished(u.Exec(first)) && u.Legal(second) && u.Finished(u.Exec(second)) ==>
        forall c :: u.Exec(first).data(c) == u.Exec(second).data(c) &&
                    u.Exec(first).result(c) == u.Exec(second).result(c)
  }

  /** For whatever local algorithm, the schedule makes no difference. */
  ghost predicate OrderIsIrrelevant(u: Setup) {
    forall run: Algorithm {:trigger SchedulesAgree(u.(run := run))} ::
      Local(u.(run := run)) ==> SchedulesAgree(u.(run := run))
  }

  /** The schedule makes no difference to any local algorithm if and only if no two masks share a pixel. */
  lemma DisjointIffOrderIrrelevant(u: Setup)
    requires u.MasksInBoxes()
    ensures u.Disjoint() <==> OrderIsIrrelevant(u)
  {
    if u.Disjoint() {
      forall run: Algorithm | Local(u.(run := run)) ensures SchedulesAgree(u.(run := run)) {
        var w := u.(run := run);
        forall first: seq<Event>, second: seq<Event>, c |
          w.Legal(first) && w.Finished(w.Exec(first)) && w.Legal(second) && w.Finished(w.Exec(second))
          ensures w.Exec(first).data(c) == w.Exec(second).data(c) && w.Exec(first).result(c) == w.Exec(second).result(c)
        {
          ScheduleIndependent(w, first, second, c);
        }
      }
    } else {
      var i, j, c :| 0 <= i < |u.jobs| && 0 <= j < |u.jobs| && c in u.jobs[i].mask && c in u.jobs[j].mask && i != j;
      var w := u.(run := Marking(i));
      assert Local(w);
      RaceMatters(w, i, j, c);
    }
  }

  // ----- the locked operations on buffers

  /** The buffer holds the part of an image that starts at (x, y). */
  ghost predicate Shows(a: array2<real>, image: Image, x: nat, y: nat)
    reads a
  {
    forall i: nat, j: nat {:trigger a[j, i]} :: i < a.Length1 && j < a.Length0 ==> a[j, i] == image(Coord(x + i, y + j))
  }

  /** The boundary mask of a box selects exactly the given pixels. */
  ghost predicate MaskIs(mask: array2<bool>, box: Box, selected: set<Coord>)
    reads mask
  {
    mask.Length0 == box.height && mask.Length1 == box.width &&
    forall i: nat, j: nat {:trigger mask[j, i]} :: i < box.width && j < box.height ==>
      (mask[j, i] <==> Coord(box.x + i, box.y + j) in selected)
  }

  /** The first critical section of runSubImage: trims the data, and the model with zeros outside the mask. */
  method LockedTrim(box: Box, boundaryMask: array2<bool>, data: array2<real>, model: array2<real>,
                    ghost d: Image, ghost m: Image, ghost selected: set<Coord>)
    returns (subData: array2<real>, subModel: array2<real>)
    requires data.Length0 == model.Length0 && data.Length1 == model.Length1
    requires box.x + box.width <= data.Length1 && box.y + box.height <= data.Length0
    requires Shows(data, d, 0, 0) && Shows(model, m, 0, 0) && MaskIs(boundaryMask, box, selected)
    ensures fresh(subData) && fresh(subModel) && subData != subModel
    ensures subData.Length0 == subModel.Length0 == box.height && subData.Length1 == subModel.Length1 == box.width
    ensures Shows(subData, Trim(d, box), box.x, box.y) && Shows(subModel, TrimMasked(m, box, selected), box.x, box.y)
  {
    subData := CopySmallerPart(data, box, d);
    subModel := CopySmallerPart(model, box, m);
    for j := 0 to box.height
      invariant Shows(subData, Trim(d, box), box.x, box.y)
      invariant forall i: nat, k: nat {:trigger subModel[k, i]} :: i < box.width && k < box.height ==>
        subModel[k, i] == if k < j then TrimMasked(m, box, selected)(Coord(box.x + i, box.y + k))
            else Trim(m, box)(Coord(box.x + i, box.y + k))
    {
      for i := 0 to box.width
        invariant Shows(subData, Trim(d, box), box.x, box.y)
        invariant forall h: nat, k: nat {:trigger subModel[k, h]} :: h < box.width && k < box.height ==>
          subModel[k, h] == if k < j || (k == j && h < i)
              then TrimMasked(m, box, selected)(Coord(box.x + h, box.y + k))
              else Trim(m, box)(Coord(box.x + h, box.y + k))
      {
        if !boundaryMask[j, i] {
          subModel[j, i] := 0.0;
        }
      }
    }
  }

  method CopySmallerPart(input: array2<real>, box: Box, ghost image: Image) returns (output: array2<real>)
    requires box.x + box.width <= input.Length1 && box.y + box.height <= input.Length0 && Shows(input, image, 0, 0)
    ensures fresh(output) && output.Length0 == box.height && output.Length1 == box.width
    ensures Shows(output, Trim(image, box), box.x, box.y)
  {
    output := new real[box.height, box.width];
    for j := 0 to box.height
      invariant forall i: nat, k: nat {:trigger output[k, i]} :: i < box.width && k < j ==>
                output[k, i] == image(Coord(box.x + i, box.y + k))
    {
      for i := 0 to box.width
        invariant forall h: nat, k: nat {:trigger output[k, h]} :: h < box.width && (k < j || (k == j && h < i)) ==>
          output[k, h] == image(Coord(box.x + h, box.y + k))
      {
        output[j, i] := input[box.y + j, box.x + i];
      }
    }
  }

  /** The last critical section of runSubImage: copies the masked data back and adds the whole submodel. */
  method LockedMerge(box: Box, boundaryMask: array2<bool>, subData: array2<real>, subModel: array2<real>,
                     data: array2<real>, resultModel: array2<real>,
                     ghost d: Image, ghost r: Image, ghost sd: Image, ghost sm: Image, ghost selected: set<Coord>)
    requires data != resultModel && subData != data && subData != resultModel && subModel != data &&
             subModel != resultModel
    requires data.Length0 == resultModel.Length0 && data.Length1 == resultModel.Length1
    requires box.x + box.width <= data.Length1 && box.y + box.height <= data.Length0
    requires subData.Length0 == subModel.Length0 == box.height && subData.Length1 == subModel.Length1 == box.width
    requires Shows(data, d, 0, 0) && Shows(resultModel, r, 0, 0) && MaskIs(boundaryMask, box, selected)
    requires Shows(subData, sd, box.x, box.y) && Shows(subModel, sm, box.x, box.y)
    modifies data, resultModel
    ensures Shows(data, CopyMasked(d, box, selected, sd), 0, 0)
    ensures Shows(resultModel, AddSubImage(r, box, sm), 0, 0)
  {
    CopyMaskedInto(box, boundaryMask, subData, data, d, sd, selected);
    AddSubImageInto(box, subModel, resultModel, r, sm);
  }

  method CopyMaskedInto(box: Box, boundaryMask: array2<bool>, from: array2<real>, to: array2<real>,
                        ghost d: Image, ghost sd: Image, ghost selected: set<Coord>)
    requires from != to && box.x + box.width <= to.Length1 && box.y + box.height <= to.Length0
    requires from.Length0 == box.height && from.Length1 == box.width
    requires Shows(to, d, 0, 0) && MaskIs(boundaryMask, box, selected) && Shows(from, sd, box.x, box.y)
    modifies to
    ensures Shows(to, CopyMasked(d, box, selected, sd), 0, 0)
  {
    ghost var all := CopyMasked(d, box, selected, sd);
    for j := 0 to box.height
      invariant forall i: nat, k: nat {:trigger to[k, i]} :: i < to.Length1 && k < to.Length0 ==>
        to[k, i] == if k < box.y + j then all(Coord(i, k)) else d(Coord(i, k))
    {
      for i := 0 to box.width
        invariant forall h: nat, k: nat {:trigger to[k, h]} :: h < to.Length1 && k < to.Length0 ==>
          to[k, h] == if k < box.y + j || (k == box.y + j && h < box.x + i) then all(Coord(h, k)) else d(Coord(h, k))
      {
        if boundaryMask[j, i] {
          to[box.y + j, box.x + i] := from[j, i];
        }
      }
    }
  }

  method AddSubImageInto(box: Box, from: array2<real>, to: array2<real>, ghost r: Image, ghost sm: Image)
    requires from != to && box.x + box.width <= to.Length1 && box.y + box.height <= to.Length0
    requires from.Length0 == box.height && from.Length1 == box.width
    requires Shows(to, r, 0, 0) && Shows(from, sm, box.x, box.y)
    modifies to
    ensures Shows(to, AddSubImage(r, box, sm), 0, 0)
  {
    ghost var all := AddSubImage(r, box, sm);
    for j := 0 to box.height
      invariant forall i: nat, k: nat {:trigger to[k, i]} :: i < to.Length1 && k < to.Length0 ==>
        to[k, i] == if k < box.y + j then all(Coord(i, k)) else r(Coord(i, k))
    {
      for i := 0 to box.width
        invariant forall h: nat, k: nat {:trigger to[k, h]} :: h < to.Length1 && k < to.Length0 ==>
          to[k, h] == if k < box.y + j || (k == box.y + j && h < box.x + i) then all(Coord(h, k)) else r(Coord(h, k))
      {
        to[box.y + j, box.x + i] := to[box.y + j, box.x + i] + from[j, i];
      }
    }
  }
}
