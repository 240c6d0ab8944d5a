/**
 * The parallel run with the clean algorithm: every worker runs a major iteration of its own inside its boundary mask,
 * so the outcome of the whole run does not depend on the order in which the workers trim and merge.
 */
module ParallelClean {
  import opened Common
  import RowMajor
  import F = PeakFinder
  import opened DividingPath
  import opened FloodAreas
  import opened SplitGrid
  import opened ImageSplit
  import C = CleanRuns
  import M = MajorIteration
  import L = LocalClean
  import P = PaddedConvolution
  import opened ParallelDeconvolution
  import opened ParallelSplit

  /** The algorithm of a worker: its settings and how many components it has cleaned before. */
  datatype Worker = Worker(settings: M.Settings, iteration: nat)

  /** The part of an image in a box, as a flat buffer. */
  function FlatImage(image: Image, box: Box): (r: seq<real>)
    ensures |r| == box.width * box.height
  {
    seq(box.width * box.height, p requires 0 <= p < box.width * box.height => image(InBox(box, p)))
  }

  /** Where a pixel of the box is in the flat buffer. */
  function FlatIndex(box: Box, c: Coord): (p: nat)
    requires box.Contains(c)
    ensures p < box.width * box.height && InBox(box, p) == c
  {
    RowMajor.Fits(box.width, box.height, c.x - box.x, c.y - box.y);
    RowMajor.Splits(box.width, c.x - box.x, c.y - box.y);
    (c.y - box.y) * box.width + (c.x - box.x)
  }

  /** A flat buffer as an image, with zeros outside the box. */
  function ImageOf(flat: seq<real>, box: Box): Image
    requires |flat| == box.width * box.height
  {
    c => if box.Contains(c) then flat[FlatIndex(box, c)] else 0.0
  }

  /** The worker cleans one image of the size of its box, under a mask that selects pixels of its boundary mask only. */
  ghost predicate WorkerFits(w: Worker, job: Job) {
    var c := w.settings.clean;
    c.Valid() && c.Count() == 1 && c.width == job.box.width && c.height == job.box.height &&
    L.MaskedBy(c, Under(job))
  }

  /** The pixels of the boundary mask of a job as positions in its box. */
  ghost function Under(job: Job): set<nat> {
    set p: nat | p < job.box.width * job.box.height && InBox(job.box, p) in job.mask
  }

  /** The worker cleans under the mask of a subimage. */
  ghost predicate CleansUnder(w: Worker, sub: SubImage)
    reads sub.mask
  {
    var c := w.settings.clean;
    c.mask.Some? && |c.mask.value| == sub.box.width * sub.box.height &&
    sub.mask.Length0 == sub.box.height && sub.mask.Length1 == sub.box.width &&
    forall p: nat {:trigger c.mask.value[p]} :: p < |c.mask.value| ==> c.mask.value[p] == MaskAt(sub, p)
  }

  /** Pixel p of the mask of a subimage. */
  predicate MaskAt(sub: SubImage, p: nat)
    requires p < sub.box.width * sub.box.height
    requires sub.mask.Length0 == sub.box.height && sub.mask.Length1 == sub.box.width
    reads sub.mask
  {
    RowMajor.Joins(sub.box.width, sub.box.height, p);
    sub.mask[p / sub.box.width, p % sub.box.width]
  }

  /** The masks that the split makes fit: with or without a user mask, a subimage is cleaned under its boundary mask. */
  lemma SplitMaskFits(g: Grid, first: Scratch, d: nat, e: nat, sub: SubImage, job: Job, w: Worker)
    requires g.Valid() && d < g.vertical.n && e < g.horizontal.n && IsSubImage(g, first, d, e, sub) && JobIs(job, sub)
    requires w.settings.clean.Valid() && w.settings.clean.Count() == 1 && CleansUnder(w, sub)
    requires w.settings.clean.width == sub.box.width && w.settings.clean.height == sub.box.height
    ensures WorkerFits(w, job)
  {
    var c := w.settings.clean;
    forall p: nat | p < c.Pixels() && c.mask.value[p] ensures p in Under(job) {
      InBoundary(first, sub, job, p);
    }
  }

  /** What a subimage cleans is in its boundary mask. */
  lemma InBoundary(first: Scratch, sub: SubImage, job: Job, p: nat)
    requires sub.boundaryMask.Length0 == sub.box.height && sub.boundaryMask.Length1 == sub.box.width
    requires IsCleanMask(first, sub.box, sub.boundaryMask, sub.mask) && JobIs(job, sub)
    requires p < sub.box.width * sub.box.height && MaskAt(sub, p)
    ensures InBox(sub.box, p) in job.mask
  {
    RowMajor.Joins(sub.box.width, sub.box.height, p);
    var x: nat, y: nat := p % sub.box.width, p / sub.box.width;
    BitOfJob(sub, job, x, y);
  }

  /** The first peak and the components of a major iteration. */
  ghost function RunOf(s: M.Settings, d: C.Images, iteration: nat): (r: (Option<F.Peak>, seq<nat>))
    requires s.clean.Valid() && s.clean.Sized(d)
    ensures L.MajorRun(s, d, iteration, r.0, r.1)
    ensures L.LoopOf(s, r.0).Valid() && L.LoopOf(s, r.0).Sized(d) && L.LoopOf(s, r.0).Peaks(r.1)
  {
    RunExists(s, d, iteration);
    var first, peaks :| L.MajorRun(s, d, iteration, first, peaks);
    RunIsValid(s, d, iteration, first, peaks);
    (first, peaks)
  }

  /** What a major iteration makes of the data and the model of a worker. */
  ghost function CleanOf(w: Worker, job: Job, data: Image, model: Image): (Image, Image)
    requires WorkerFits(w, job)
  {
    var d, m := [FlatImage(data, job.box)], [FlatImage(model, job.box)];
    var (first, peaks) := RunOf(w.settings, d, w.iteration);
    var c := L.LoopOf(w.settings, first);
    (ImageOf(P.Left(c, d, peaks)[0], job.box), ImageOf(c.Model(m, d, peaks)[0], job.box))
  }

  lemma RunExists(s: M.Settings, d: C.Images, iteration: nat)
    requires s.clean.Valid() && s.clean.Sized(d)
    ensures exists first: Option<F.Peak>, peaks: seq<nat> :: L.MajorRun(s, d, iteration, first, peaks)
  {
    var first, peaks := L.MajorRunExists(s, d, iteration);
  }

  lemma RunIsValid(s: M.Settings, d: C.Images, iteration: nat, first: Option<F.Peak>, peaks: seq<nat>)
    requires s.clean.Valid() && s.clean.Sized(d) && L.MajorRun(s, d, iteration, first, peaks)
    ensures L.LoopOf(s, first).Valid() && L.LoopOf(s, first).Sized(d) && L.LoopOf(s, first).Peaks(peaks)
  {
  }

  /** Equal data under the boundary mask, and equal models, are equal image sets for the loop. */
  lemma SameInside(w: Worker, job: Job, data: Image, data': Image)
    requires WorkerFits(w, job) && forall b :: b in job.mask ==> data(b) == data'(b)
    ensures L.SameOn(w.settings.clean, [FlatImage(data, job.box)], [FlatImage(data', job.box)], Under(job))
  {
    var d, d' := [FlatImage(data, job.box)], [FlatImage(data', job.box)];
    forall p: nat | p < w.settings.clean.Pixels() && p in Under(job)
      ensures L.AgreeAt(w.settings.clean, d, d', p) {
      assert data(InBox(job.box, p)) == data'(InBox(job.box, p));
    }
  }

  /** The clean algorithm is local: its outcome depends on the data only through the pixels of the boundary mask. */
  lemma CleanDependsOn(w: Worker, job: Job, data: Image, data': Image, model: Image, model': Image, c: Coord)
    requires WorkerFits(w, job)
    requires (forall b :: b in job.mask ==> data(b) == data'(b)) && forall b :: model(b) == model'(b)
    ensures c in job.mask ==> CleanOf(w, job, data, model).0(c) == CleanOf(w, job, data', model').0(c)
    ensures CleanOf(w, job, data, model).1(c) == CleanOf(w, job, data', model').1(c)
  {
    var d, d' := [FlatImage(data, job.box)], [FlatImage(data', job.box)];
    assert FlatImage(model, job.box) == FlatImage(model', job.box);
    SameInside(w, job, data, data');
    var m := [FlatImage(model, job.box)];
    var r, r' := RunOf(w.settings, d, w.iteration), RunOf(w.settings, d', w.iteration);
    L.MajorIsLocal(w.settings, m, d, d', Under(job), w.iteration, r.0, r'.0, r.1, r'.1);
    var clean := L.LoopOf(w.settings, r.0);
    if c in job.mask {
      SamePixel(clean, job, P.Left(clean, d, r.1), P.Left(clean, d', r.1), c);
    }
  }

  lemma SamePixel(clean: C.Clean, job: Job, e: C.Images, e': C.Images, c: Coord)
    requires L.SameOn(clean, e, e', Under(job)) && clean.Count() == 1 && c in job.mask
    requires clean.width == job.box.width && clean.height == job.box.height
    ensures |e[0]| == |e'[0]| == job.box.width * job.box.height
    ensures ImageOf(e[0], job.box)(c) == ImageOf(e'[0], job.box)(c)
  {
    if job.box.Contains(c) {
      var p := FlatIndex(job.box, c);
      assert p in Under(job);
      assert L.AgreeAt(clean, e, e', p);
    }
  }

  /** Every worker cleans its subimage. */
  ghost predicate Cleans(u: Setup, workers: seq<Worker>) {
    |workers| == |u.jobs| &&
    (forall i {:trigger WorkerFits(workers[i], u.jobs[i])} :: 0 <= i < |workers| ==>
       WorkerFits(workers[i], u.jobs[i])) &&
    forall i: nat, d: Image, m: Image {:trigger u.run(i, d, m)} :: i < |workers| ==>
      u.run(i, d, m) == CleanOf(workers[i], u.jobs[i], d, m)
  }

  lemma CleanIsLocal(u: Setup, workers: seq<Worker>)
    requires Cleans(u, workers)
    ensures Local(u)
  {
    forall i: nat, d: Image, d': Image, m: Image, m': Image |
      i < |u.jobs| && (forall b :: b in u.jobs[i].mask ==> d(b) == d'(b)) && (forall b :: m(b) == m'(b))
      ensures SameFor(u, i, d, m, d', m')
    {
      assert WorkerFits(workers[i], u.jobs[i]);
      forall c ensures c in u.jobs[i].mask ==> u.run(i, d, m).0(c) == u.run(i, d', m').0(c)
        ensures u.run(i, d, m).1(c) == u.run(i, d', m').1(c)
      {
        CleanDependsOn(workers[i], u.jobs[i], d, d', m, m', c);
      }
    }
  }

  /**
   * The parallel clean of a split image: when nothing is left over in any box, all schedules end with the same data
   * and the same model.
   */
  lemma ParallelCleanAgrees(u: Setup, workers: seq<Worker>, image: Picture, width: nat, height: nat, horImages: nat,
                            verImages: nat, g: Grid, first: Scratch, subImages: seq<SubImage>)
    requires 0 < horImages && 0 < verImages && CheapestGrid(image, width, height, horImages, verImages, g)
    requires CopiesUser(g, first) && AllMade(g, first, Places(horImages, verImages, 0), subImages)
    requires JobsOf(u, subImages) && Cleans(u, workers) && NothingLeft(g, first)
    ensures SchedulesAgree(u)
  {
    SplitIsSafeIff(u, image, width, height, horImages, verImages, g, first, subImages);
    CleanIsLocal(u, workers);
    assert u.(run := u.run) == u;
    assert SchedulesAgree(u.(run := u.run));
  }

  /**
   * When two boundary masks share a pixel and the two workers leave different values of the original data there, the
   * outcome of the parallel clean depends on the schedule.
   */
  lemma CleanRace(u: Setup, workers: seq<Worker>, i: nat, j: nat, c: Coord)
    requires Cleans(u, workers) && u.MasksInBoxes() && i < |workers| && j < |workers|
    requires c in u.jobs[i].mask && c in u.jobs[j].mask
    requires CleanFirst(u, workers, i)(c) != CleanFirst(u, workers, j)(c)
    ensures !SchedulesAgree(u)
  {
    assert FirstOutcome(u, i).0 == CleanFirst(u, workers, i) && FirstOutcome(u, j).0 == CleanFirst(u, workers, j);
    RaceMatters(u, i, j, c);
  }

  /** What a worker leaves of the original data. */
  ghost function CleanFirst(u: Setup, workers: seq<Worker>, i: nat): Image
    requires Cleans(u, workers) && i < |workers|
  {
    assert WorkerFits(workers[i], u.jobs[i]);
    var job := u.jobs[i];
    CleanOf(workers[i], job, Trim(u.data, job.box), TrimMasked(u.model, job.box, job.mask)).0
  }
}
