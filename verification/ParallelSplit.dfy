/**
 * The parallel run over a split image: what the boundary masks of ImageSplit mean for the schedules of
 * ParallelDeconvolution.
 */
module ParallelSplit {
  import opened Common
  import opened DividingPath
  import opened Division
  import opened FloodAreas
  import opened Shares
  import opened SplitLines
  import opened SplitGrid
  import opened ImageSplit
  import opened ParallelDeconvolution

  ghost predicate JobIs(job: Job, sub: SubImage)
    reads sub.boundaryMask
  {
    job.box == sub.box && MaskIs(sub.boundaryMask, sub.box, job.mask) &&
    forall c :: c in job.mask ==> job.box.Contains(c)
  }

  /** Worker k gets the box and the pixels selected by the boundary mask of the k-th subimage. */
  ghost predicate JobsOf(u: Setup, subImages: seq<SubImage>)
    reads set k | 0 <= k < |subImages| :: subImages[k].boundaryMask
  {
    |u.jobs| == |subImages| &&
    forall k {:trigger u.jobs[k]} :: 0 <= k < |subImages| ==> JobIs(u.jobs[k], subImages[k])
  }

  /** Worker k is at place k and its mask is what the grid says. */
  ghost predicate SelectsAt(u: Setup, g: Grid, first: Scratch, places: seq<(nat, nat)>, k: nat, c: Coord)
    requires g.Valid() && k < |u.jobs| == |places|
  {
    places[k].0 < g.vertical.n && places[k].1 < g.horizontal.n &&
    (c in u.jobs[k].mask <==> Selects(g, first, places[k].0, places[k].1, c))
  }

  ghost predicate Laid(u: Setup, g: Grid, first: Scratch, places: seq<(nat, nat)>)
    requires g.Valid()
  {
    |u.jobs| == |places| && u.MasksInBoxes() &&
    forall k, c {:trigger SelectsAt(u, g, first, places, k, c)} :: 0 <= k < |places| ==>
      SelectsAt(u, g, first, places, k, c)
  }

  lemma LaidOut(u: Setup, g: Grid, first: Scratch, places: seq<(nat, nat)>, subImages: seq<SubImage>)
    requires g.Valid() && AllMade(g, first, places, subImages) && JobsOf(u, subImages)
    ensures Laid(u, g, first, places)
  {
    forall k, c | 0 <= k < |places| ensures SelectsAt(u, g, first, places, k, c) {
      assert Made(g, first, places, subImages, k);
      assert JobIs(u.jobs[k], subImages[k]);
      SelectedInBox(g, first, places[k].0, places[k].1, subImages[k], u.jobs[k], c);
    }
    forall i, c | 0 <= i < |u.jobs| && c in u.jobs[i].mask ensures u.jobs[i].box.Contains(c) {
      assert JobIs(u.jobs[i], subImages[i]);
    }
  }

  lemma SelectedInBox(g: Grid, first: Scratch, d: nat, e: nat, sub: SubImage, job: Job, c: Coord)
    requires g.Valid() && d < g.vertical.n && e < g.horizontal.n && IsSubImage(g, first, d, e, sub) && JobIs(job, sub)
    ensures c in job.mask <==> Selects(g, first, d, e, c)
  {
    if sub.box.Contains(c) {
      var x: nat, y: nat := c.x - sub.box.x, c.y - sub.box.y;
      assert Coord(sub.box.x + x, sub.box.y + y) == c;
      BitOfJob(sub, job, x, y);
      BitOfPlace(g, first, d, e, sub, x, y);
    } else {
      BoxAround(g, d, e);
    }
  }

  lemma BitOfJob(sub: SubImage, job: Job, x: nat, y: nat)
    requires JobIs(job, sub) && x < sub.box.width && y < sub.box.height
    ensures sub.boundaryMask.Length0 == sub.box.height && sub.boundaryMask.Length1 == sub.box.width
    ensures sub.boundaryMask[y, x] <==> Coord(sub.box.x + x, sub.box.y + y) in job.mask
  {
  }

  lemma BitOfPlace(g: Grid, first: Scratch, d: nat, e: nat, sub: SubImage, x: nat, y: nat)
    requires g.Valid() && d < g.vertical.n && e < g.horizontal.n && IsSubImage(g, first, d, e, sub)
    requires x < sub.box.width && y < sub.box.height
    ensures sub.boundaryMask.Length0 == sub.box.height && sub.boundaryMask.Length1 == sub.box.width
    ensures sub.boundaryMask[y, x] <==> Selects(g, first, d, e, Coord(sub.box.x + x, sub.box.y + y))
  {
  }

  /** The worker at a place of the grid. */
  lemma WorkerAt(places: seq<(nat, nat)>, columns: nat, rows: nat, d: nat, e: nat) returns (k: nat)
    requires places == Places(columns, rows, 0) && d < columns && e < rows
    ensures k < |places| && places[k] == (d, e)
    ensures forall i :: 0 <= i < |places| && places[i] == (d, e) ==> i == k
  {
    PlacesAre(columns, rows, 0);
    assert (d, e) in places;
    k :| 0 <= k < |places| && places[k] == (d, e);
  }

  /** Two workers select a pixel if and only if two places do. */
  lemma DisjointIffOnce(u: Setup, g: Grid, first: Scratch)
    requires g.Valid() && Laid(u, g, first, Places(g.vertical.n, g.horizontal.n, 0))
    ensures u.Disjoint() <==> MasksPartition(g, first)
  {
    var places := Places(g.vertical.n, g.horizontal.n, 0);
    if MasksPartition(g, first) {
      forall i, j, c | 0 <= i < |u.jobs| && 0 <= j < |u.jobs| && c in u.jobs[i].mask && c in u.jobs[j].mask
        ensures i == j
      {
        OneWorkerEach(u, g, first, i, j, c);
      }
    }
    if u.Disjoint() {
      forall c: Coord | c.x < g.vertical.width && c.y < g.vertical.height ensures SelectedOnce(g, first, c) {
        OnePlaceEach(u, g, first, c);
      }
    }
  }

  lemma OneWorkerEach(u: Setup, g: Grid, first: Scratch, i: nat, j: nat, c: Coord)
    requires g.Valid() && Laid(u, g, first, Places(g.vertical.n, g.horizontal.n, 0)) && MasksPartition(g, first)
    requires i < |u.jobs| && j < |u.jobs| && c in u.jobs[i].mask && c in u.jobs[j].mask
    ensures i == j
  {
    var places := Places(g.vertical.n, g.horizontal.n, 0);
    assert SelectsAt(u, g, first, places, i, c) && SelectsAt(u, g, first, places, j, c);
    BoxAround(g, places[i].0, places[i].1);
    assert SelectedOnce(g, first, c);
    var k := WorkerAt(places, g.vertical.n, g.horizontal.n, places[i].0, places[i].1);
    assert places[i] == (places[i].0, places[i].1) == places[j];
  }

  lemma OnePlaceEach(u: Setup, g: Grid, first: Scratch, c: Coord)
    requires g.Valid() && Laid(u, g, first, Places(g.vertical.n, g.horizontal.n, 0)) && u.Disjoint()
    requires c.x < g.vertical.width && c.y < g.vertical.height
    ensures SelectedOnce(g, first, c)
  {
    var places := Places(g.vertical.n, g.horizontal.n, 0);
    OneOwner(g, c);
    var d: nat, e: nat :| d < g.vertical.n && e < g.horizontal.n && g.Owns(d, e, c);
    assert Selects(g, first, d, e, c);
    var k := WorkerAt(places, g.vertical.n, g.horizontal.n, d, e);
    assert SelectsAt(u, g, first, places, k, c);
    forall d': nat, e': nat | d' < g.vertical.n && e' < g.horizontal.n && Selects(g, first, d', e', c)
      ensures d' == d && e' == e
    {
      var i := WorkerAt(places, g.vertical.n, g.horizontal.n, d', e');
      assert SelectsAt(u, g, first, places, i, c);
    }
  }

  /**
   * The split and the run: the result of the parallel run is independent of the schedule, for whatever local
   * algorithm, if and only if nothing is left over in any box.  Without a user mask this is so if and only if no box
   * reaches a pixel that another subimage left in the mask buffer.
   */
  lemma SplitIsSafeIff(u: Setup, image: Picture, width: nat, height: nat, horImages: nat, verImages: nat, g: Grid,
                       first: Scratch, subImages: seq<SubImage>)
    requires 0 < horImages && 0 < verImages && CheapestGrid(image, width, height, horImages, verImages, g)
    requires CopiesUser(g, first) && AllMade(g, first, Places(horImages, verImages, 0), subImages)
    requires JobsOf(u, subImages)
    ensures OrderIsIrrelevant(u) <==> NothingLeft(g, first)
    ensures u.Disjoint() <==> NothingLeft(g, first)
    ensures first.user.None? ==> (OrderIsIrrelevant(u) <==> NoneReaches(g, first))
    ensures width % 2 == 1 || horImages == 1 ==> OrderIsIrrelevant(u)
  {
    LaidOut(u, g, first, Places(horImages, verImages, 0), subImages);
    DisjointIffOnce(u, g, first);
    PartitionIffNothingLeft(g, first);
    DisjointIffOrderIrrelevant(u);
    if first.user.None? {
      NoUserNoCopies(g, first);
      PartitionIff(g, first);
    }
    if width % 2 == 1 || horImages == 1 {
      PartitionForSure(g, first);
    }
  }

  /** A pixel that is left over in no box is in the mask of its owner and in no other. */
  lemma OwnerIsSole(u: Setup, g: Grid, first: Scratch, owner: nat, d: nat, e: nat, c: Coord)
    requires g.Valid() && Laid(u, g, first, Places(g.vertical.n, g.horizontal.n, 0)) && NotLeft(g, first, c)
    requires d < g.vertical.n && e < g.horizontal.n && g.Owns(d, e, c) && owner < |u.jobs|
    requires Places(g.vertical.n, g.horizontal.n, 0)[owner] == (d, e)
    ensures u.Sole(owner, c)
  {
    var places := Places(g.vertical.n, g.horizontal.n, 0);
    OwnedOnce(g, first, c);
    assert SelectsAt(u, g, first, places, owner, c) && Selects(g, first, d, e, c);
    forall j | 0 <= j < |u.jobs| && c in u.jobs[j].mask ensures j == owner {
      assert SelectsAt(u, g, first, places, j, c);
      var k := WorkerAt(places, g.vertical.n, g.horizontal.n, d, e);
      assert places[j] == (places[j].0, places[j].1);
    }
  }

  /**
   * Under every schedule, for every pixel that is left over in no box, whatever happens at others: it has one owner,
   * who has read the original data there and whose result ends up there, the submodels handed out add up to the
   * original model there, and the new model is the sum of all new submodels.
   */
  lemma SplitRun(u: Setup, image: Picture, width: nat, height: nat, horImages: nat, verImages: nat, g: Grid,
                 first: Scratch, subImages: seq<SubImage>, events: seq<Event>, c: Coord) returns (owner: nat)
    requires 0 < horImages && 0 < verImages && CheapestGrid(image, width, height, horImages, verImages, g)
    requires CopiesUser(g, first) && AllMade(g, first, Places(horImages, verImages, 0), subImages)
    requires JobsOf(u, subImages)
    requires NotLeft(g, first, c) && u.Legal(events) && u.Finished(u.Exec(events)) && c.x < width && c.y < height
    ensures owner < |u.jobs| && owner < |Places(horImages, verImages, 0)| && u.Sole(owner, c)
    ensures var (d, e) := Places(horImages, verImages, 0)[owner];
            d < horImages && e < verImages && g.Owns(d, e, c)
    ensures var s := u.Exec(events);
            |s.phases| == |u.jobs| && !s.phases[owner].Waiting? && s.phases[owner].data(c) == u.data(c) &&
            s.data(c) == u.Outcome(owner, s.phases[owner]).0(c) &&
            s.result(c) == u.Total(s, c, |u.jobs|) && u.SubModels(c, |u.jobs|) == u.model(c)
  {
    var places := Places(horImages, verImages, 0);
    LaidOut(u, g, first, places, subImages);
    OneOwner(g, c);
    var d: nat, e: nat :| d < horImages && e < verImages && g.Owns(d, e, c);
    owner := WorkerAt(places, horImages, verImages, d, e);
    OwnerIsSole(u, g, first, owner, d, e, c);
    EverySchedule(u, events, c);
    SubModelsSum(u, c, |u.jobs|);
  }
}
