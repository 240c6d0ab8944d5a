/**
 * The images of a deconvolution (deconvolution/imageset.cpp): which image and which PSF belongs to an entry
 * of the table, averaging the channels of a group, and storing a group's image for all its channels.
 */
module ImageSet {
  import opened Common
  import opened BlockLists
  import opened Shares
  import opened ChannelGroups

  type Image = seq<real>

  ghost predicate AllSized(images: seq<Image>, size: nat) {
    forall k {:trigger images[k]} :: 0 <= k < |images| ==> |images[k]| == size
  }

  /** The table as the image set sees it: entries per original channel, and original channels per group. */
  datatype Table = Table(originals: seq<seq<nat>>, groups: seq<seq<nat>>, entryCount: nat, nPol: nat) {
    function Channels(): nat { |originals| }

    ghost predicate Valid() {
      0 < |groups| <= |originals| && groups == GroupsUpTo(|originals|, |groups|, |originals|) && 0 < nPol &&
      (forall c {:trigger originals[c]} :: 0 <= c < |originals| ==> |originals[c]| == nPol) &&
      (forall c, p {:trigger originals[c][p]} :: 0 <= c < |originals| && 0 <= p < nPol ==>
          originals[c][p] < entryCount) &&
      forall c, p, e, q {:trigger originals[c][p], originals[e][q]} ::
        0 <= c < |originals| && 0 <= p < nPol && 0 <= e < |originals| && 0 <= q < nPol &&
          originals[c][p] == originals[e][q] ==>
            c == e && p == q
    }

    /** Entries were added channel by channel. */
    ghost predicate InOrder()
      requires Valid()
    {
      forall c: nat, p: nat {:trigger originals[c][p]} :: c < |originals| && p < nPol ==>
        originals[c][p] == ValueCount(c, nPol) + p
    }

    predicate IsGroupChannel(d: int, k: int) { 0 <= d < |groups| && 0 <= k < |groups[d]| }
  }

  lemma ChannelIs(t: Table, d: nat, k: nat)
    requires t.Valid() && t.IsGroupChannel(d, k)
    ensures t.groups[d][k] == Start(t.Channels(), |t.groups|, d) + k < t.Channels() &&
            GroupOf(t.Channels(), |t.groups|, t.groups[d][k]) == d
  {
    GroupsPartition(t.Channels(), |t.groups|, d);
    GroupIsRange(t.Channels(), |t.groups|, t.groups[d][k], d);
  }

  /** The entry of polarisation p of channel k of group d. */
  ghost function EntryOf(t: Table, d: nat, k: nat, p: nat): (r: nat)
    requires t.Valid() && t.IsGroupChannel(d, k) && p < t.nPol
    ensures r < t.entryCount
  {
    ChannelIs(t, d, k);
    t.originals[t.groups[d][k]][p]
  }

  lemma DifferentEntries(t: Table, d: nat, k: nat, p: nat, d': nat, k': nat, p': nat)
    requires t.Valid() && t.IsGroupChannel(d, k) && t.IsGroupChannel(d', k') && p < t.nPol && p' < t.nPol
    requires EntryOf(t, d, k, p) == EntryOf(t, d', k', p')
    ensures d == d' && k == k' && p == p'
  {
    ChannelIs(t, d, k);
    ChannelIs(t, d', k');
    assert t.originals[t.groups[d][k]][p] == t.originals[t.groups[d'][k']][p'];
  }

  /** The image of polarisation p of group d. */
  function ImageIndex(nPol: nat, d: nat, p: nat): nat { ValueCount(d, nPol) + p }

  lemma ImageExists(t: Table, d: nat, p: nat)
    requires d < |t.groups| && p < t.nPol
    ensures ImageIndex(t.nPol, d, p) < ValueCount(|t.groups|, t.nPol)
  {
    ValueCountGrows(d + 1, |t.groups|, t.nPol);
  }

  // ----- storing a group's image for all its channels

  /** The place (e, m, q) comes before (d, k, p) in the order of groups, channels and polarisations. */
  predicate Earlier(e: int, m: int, q: int, d: int, k: int, p: int) {
    e < d || (e == d && (m < k || (m == k && q < p)))
  }

  ghost predicate HoldsImage(t: Table, images: seq<Image>, stored: seq<Image>, e: nat, m: nat, q: nat) {
    t.Valid() && |stored| == t.entryCount && |images| == ValueCount(|t.groups|, t.nPol) && t.IsGroupChannel(e, m) &&
        q < t.nPol &&
    (ImageExists(t, e, q); stored[EntryOf(t, e, m, q)] == images[ImageIndex(t.nPol, e, q)])
  }

  /** The entries before place (d, k, p) hold the image of their group. */
  ghost predicate Stored(t: Table, images: seq<Image>, stored: seq<Image>, d: int, k: int, p: int) {
    forall e: nat, m: nat, q: nat {:trigger HoldsImage(t, images, stored, e, m, q)} ::
      t.IsGroupChannel(e, m) && q < t.nPol && Earlier(e, m, q, d, k, p) ==> HoldsImage(t, images, stored, e, m, q)
  }

  lemma StoreKeeps(t: Table, images: seq<Image>, before: seq<Image>, stored: seq<Image>, d: nat, k: nat, p: nat)
    requires t.Valid() && |before| == |stored| == t.entryCount && |images| == ValueCount(|t.groups|, t.nPol) &&
             t.IsGroupChannel(d, k) && p < t.nPol
    requires Stored(t, images, before, d, k, p) && HoldsImage(t, images, stored, d, k, p)
    requires forall j {:trigger stored[j]} :: 0 <= j < |stored| && j != EntryOf(t, d, k, p) ==> stored[j] == before[j]
    ensures Stored(t, images, stored, d, k, p + 1)
  {
    forall e: nat, m: nat, q: nat | t.IsGroupChannel(e, m) && q < t.nPol && Earlier(e, m, q, d, k, p + 1)
      ensures HoldsImage(t, images, stored, e, m, q) {
      if (e, m, q) != (d, k, p) {
        assert HoldsImage(t, images, before, e, m, q);
        if EntryOf(t, e, m, q) == EntryOf(t, d, k, p) {
          DifferentEntries(t, e, m, q, d, k, p);
        }
      }
    }
  }

  /** The entry at place (d, k, p). */
  method EntryAt(t: Table, d: nat, k: nat, p: nat) returns (entry: nat)
    requires t.Valid() && t.IsGroupChannel(d, k) && p < t.nPol
    ensures entry == EntryOf(t, d, k, p)
  {
    ChannelIs(t, d, k);
    entry := t.originals[t.groups[d][k]][p];
  }

  /** Stores the image of a group for one entry. */
  method StoreOne(t: Table, images: seq<Image>, was: seq<Image>, d: nat, k: nat, p: nat, imgIndex: nat,
          ghost size: nat) returns (stored: seq<Image>)
    requires AllSized(images, size) && AllSized(was, size)
    requires t.Valid() && |was| == t.entryCount && |images| == ValueCount(|t.groups|, t.nPol)
    requires t.IsGroupChannel(d, k) && p < t.nPol && imgIndex == ImageIndex(t.nPol, d, p) &&
             Stored(t, images, was, d, k, p)
    ensures AllSized(stored, size)
    ensures |stored| == t.entryCount && Stored(t, images, stored, d, k, p + 1)
  {
    ImageExists(t, d, p);
    var entry := EntryAt(t, d, k, p);
    stored := was[entry := images[imgIndex]];
    StoreKeeps(t, images, was, stored, d, k, p);
  }

  /** Stores the images of a group for one of its channels. */
  method StoreChannel(t: Table, images: seq<Image>, was: seq<Image>, d: nat, k: nat, startIndex: nat,
          ghost size: nat) returns (stored: seq<Image>, imgIndex: nat)
    requires AllSized(images, size) && AllSized(was, size)
    requires t.Valid() && |was| == t.entryCount && |images| == ValueCount(|t.groups|, t.nPol)
    requires t.IsGroupChannel(d, k) && startIndex == ValueCount(d, t.nPol) && Stored(t, images, was, d, k, 0)
    ensures AllSized(stored, size)
    ensures |stored| == t.entryCount && Stored(t, images, stored, d, k + 1, 0) && imgIndex == startIndex + t.nPol
  {
    stored, imgIndex := was, startIndex;
    for p := 0 to t.nPol
      invariant AllSized(stored, size) && |stored| == t.entryCount && imgIndex == startIndex + p &&
                Stored(t, images, stored, d, k, p)
    {
      stored := StoreOne(t, images, stored, d, k, p, imgIndex, size);
      imgIndex := imgIndex + 1;
    }
  }

  /** Stores the images of a group for all its channels. */
  method StoreGroup(t: Table, images: seq<Image>, was: seq<Image>, d: nat, startIndex: nat, ghost size: nat)
          returns (stored: seq<Image>, imgIndex: nat)
    requires AllSized(images, size) && AllSized(was, size)
    requires t.Valid() && |was| == t.entryCount && |images| == ValueCount(|t.groups|, t.nPol)
    requires d < |t.groups| && startIndex == ValueCount(d, t.nPol) && Stored(t, images, was, d, 0, 0)
    ensures AllSized(stored, size)
    ensures |stored| == t.entryCount && Stored(t, images, stored, d + 1, 0, 0) && imgIndex == startIndex + t.nPol
  {
    stored, imgIndex := was, startIndex;
    GroupsPartition(t.Channels(), |t.groups|, d);
    for k := 0 to |t.groups[d]|
      invariant AllSized(stored, size) && |stored| == t.entryCount && Stored(t, images, stored, d, k, 0)
      invariant imgIndex == if k == 0 then startIndex else startIndex + t.nPol
    {
      stored, imgIndex := StoreChannel(t, images, stored, d, k, startIndex, size);
    }
  }

  /** AssignAndStoreResidual: the residual of every entry becomes the image of its group. */
  method AssignAndStoreResidual(t: Table, images: seq<Image>, residuals: seq<Image>, ghost size: nat)
          returns (stored: seq<Image>)
    requires t.Valid() && |residuals| == t.entryCount && |images| == ValueCount(|t.groups|, t.nPol)
    requires AllSized(images, size) && AllSized(residuals, size)
    ensures |stored| == t.entryCount && AllSized(stored, size) && Stored(t, images, stored, |t.groups|, 0, 0)
  {
    stored := residuals;
    var imgIndex := 0;
    for d := 0 to |t.groups|
      invariant AllSized(stored, size) && |stored| == t.entryCount && imgIndex == ValueCount(d, t.nPol) &&
                Stored(t, images, stored, d, 0, 0)
    {
      stored, imgIndex := StoreGroup(t, images, stored, d, imgIndex, size);
    }
  }

  // ----- averaging the channels of a group

  function Scaled(a: Image, f: real): (r: Image)
    ensures |r| == |a|
  {
    seq(|a|, i requires 0 <= i < |a| => a[i] * f)
  }

  function AddScaled(a: Image, b: Image, f: real): (r: Image)
    requires |a| == |b|
    ensures |r| == |a|
  {
    seq(|a|, i requires 0 <= i < |a| => a[i] + b[i] * f)
  }

  function Blank(size: nat): (r: Image)
    ensures |r| == size
  {
    seq(size, _ => 0.0)
  }

  /** The residuals and the weights of the entries. */
  datatype Data = Data(residuals: seq<Image>, weights: seq<real>, size: nat) {
    ghost predicate Fits(t: Table) { t.Valid() && |residuals| == |weights| == t.entryCount &&
            AllSized(residuals, size) }
  }

  /** The weighted sum of the first k channels of a group, for one polarisation. */
  ghost function Total(t: Table, x: Data, d: nat, p: nat, k: nat): (r: Image)
    requires x.Fits(t) && d < |t.groups| && k <= |t.groups[d]| && p < t.nPol
    ensures |r| == x.size
  {
    if k == 0 then Blank(x.size)
    else
      var e := EntryOf(t, d, k - 1, p);
      AddScaled(Total(t, x, d, p, k - 1), x.residuals[e], x.weights[e])
  }

  ghost function WeightSum(t: Table, x: Data, d: nat, p: nat, k: nat): real
    requires x.Fits(t) && d < |t.groups| && k <= |t.groups[d]| && p < t.nPol
  {
    if k == 0 then 0.0 else WeightSum(t, x, d, p, k - 1) + x.weights[EntryOf(t, d, k - 1, p)]
  }

  /** How many channels of group e have been added for polarisation q, at place (d, k, p) of the loops. */
  function Added(t: Table, e: nat, q: nat, d: int, k: int, p: int): nat
    requires e < |t.groups| && k >= 0
  {
    if e < d then |t.groups[e]| else if e == d then (if q < p then k + 1 else k) else 0
  }

  ghost predicate Sums(t: Table, x: Data, images: seq<Image>, sums: seq<real>, e: nat, q: nat, n: nat) {
    x.Fits(t) && e < |t.groups| && q < t.nPol && n <= |t.groups[e]| &&
        |images| == |sums| == ValueCount(|t.groups|, t.nPol) &&
    (ImageExists(t, e, q); images[ImageIndex(t.nPol, e, q)] == Total(t, x, e, q, n) &&
        sums[ImageIndex(t.nPol, e, q)] == WeightSum(t, x, e, q, n))
  }

  /** At place (d, k, p) of the loops, the images and the weights hold the sums over the channels added so far. */
  ghost predicate Averaging(t: Table, x: Data, images: seq<Image>, sums: seq<real>, d: nat, k: nat, p: nat) {
    forall e: nat, q: nat {:trigger SumsAt(t, x, images, sums, d, k, p, e, q)} :: e < |t.groups| && q < t.nPol ==>
      SumsAt(t, x, images, sums, d, k, p, e, q)
  }

  ghost predicate SumsAt(t: Table, x: Data, images: seq<Image>, sums: seq<real>, d: int, k: int, p: int, e: nat,
          q: nat) {
    e < |t.groups| && k >= 0 && Sums(t, x, images, sums, e, q, Added(t, e, q, d, k, p))
  }

  lemma DifferentImages(nPol: nat, d: nat, p: nat, e: nat, q: nat)
    requires p < nPol && q < nPol && ImageIndex(nPol, d, p) == ImageIndex(nPol, e, q)
    ensures d == e && p == q
  {
    if d < e {
      ValueCountGrows(d + 1, e, nPol);
    } else if e < d {
      ValueCountGrows(e + 1, d, nPol);
    }
  }

  lemma AddKeeps(t: Table, x: Data, was: seq<Image>, sumsWas: seq<real>, images: seq<Image>, sums: seq<real>, d: nat,
          k: nat, p: nat)
    requires x.Fits(t) && t.IsGroupChannel(d, k) && p < t.nPol && Averaging(t, x, was, sumsWas, d, k, p)
    requires |was| == |sumsWas| == |images| == |sums| == ValueCount(|t.groups|, t.nPol) &&
             ImageIndex(t.nPol, d, p) < |images|
    requires var e, i := EntryOf(t, d, k, p), ImageIndex(t.nPol, d, p);
             |was[i]| == x.size && images == was[i := AddScaled(was[i], x.residuals[e], x.weights[e])] &&
                 sums == sumsWas[i := sumsWas[i] + x.weights[e]]
    ensures Averaging(t, x, images, sums, d, k, p + 1)
  {
    var next := p + 1;
    forall e: nat, q: nat | e < |t.groups| && q < t.nPol ensures SumsAt(t, x, images, sums, d, k, next, e, q) {
      ImageExists(t, e, q);
      assert SumsAt(t, x, was, sumsWas, d, k, p, e, q);
      if (e, q) != (d, p) && ImageIndex(t.nPol, e, q) == ImageIndex(t.nPol, d, p) {
        DifferentImages(t.nPol, e, q, d, p);
      }
    }
  }

  /** Adds the residual of one entry to its image. */
  method AddOne(t: Table, x: Data, was: seq<Image>, sumsWas: seq<real>, d: nat, k: nat, p: nat, imgIndex: nat)
          returns (images: seq<Image>, sums: seq<real>)
    requires x.Fits(t) && t.IsGroupChannel(d, k) && p < t.nPol && imgIndex == ImageIndex(t.nPol, d, p)
    requires |was| == |sumsWas| == ValueCount(|t.groups|, t.nPol) && Averaging(t, x, was, sumsWas, d, k, p)
    ensures |images| == |sums| == |was| && Averaging(t, x, images, sums, d, k, p + 1)
  {
    ImageExists(t, d, p);
    assert SumsAt(t, x, was, sumsWas, d, k, p, d, p);
    var entry := EntryAt(t, d, k, p);
    images := was[imgIndex := AddScaled(was[imgIndex], x.residuals[entry], x.weights[entry])];
    sums := sumsWas[imgIndex := sumsWas[imgIndex] + x.weights[entry]];
    AddKeeps(t, x, was, sumsWas, images, sums, d, k, p);
  }

  lemma NextPlace(t: Table, x: Data, images: seq<Image>, sums: seq<real>, d: nat, k: nat)
    requires x.Fits(t) && t.IsGroupChannel(d, k) && Averaging(t, x, images, sums, d, k, t.nPol)
    ensures Averaging(t, x, images, sums, d, k + 1, 0)
  {
    var next := k + 1;
    forall e: nat, q: nat | e < |t.groups| && q < t.nPol ensures SumsAt(t, x, images, sums, d, next, 0, e, q) {
      assert SumsAt(t, x, images, sums, d, k, t.nPol, e, q);
    }
  }

  lemma NextGroup(t: Table, x: Data, images: seq<Image>, sums: seq<real>, d: nat)
    requires x.Fits(t) && d < |t.groups| && Averaging(t, x, images, sums, d, |t.groups[d]|, 0)
    ensures Averaging(t, x, images, sums, d + 1, 0, 0)
  {
    var next := d + 1;
    forall e: nat, q: nat | e < |t.groups| && q < t.nPol ensures SumsAt(t, x, images, sums, next, 0, 0, e, q) {
      assert SumsAt(t, x, images, sums, d, |t.groups[d]|, 0, e, q);
    }
  }

  /** Adds the residuals of one group. */
  method AddGroup(t: Table, x: Data, was: seq<Image>, sumsWas: seq<real>, d: nat, startIndex: nat)
          returns (images: seq<Image>, sums: seq<real>, imgIndex: nat)
    requires x.Fits(t) && d < |t.groups| && startIndex == ValueCount(d, t.nPol)
    requires |was| == |sumsWas| == ValueCount(|t.groups|, t.nPol) && Averaging(t, x, was, sumsWas, d, 0, 0)
    ensures |images| == |sums| == |was| && Averaging(t, x, images, sums, d + 1, 0, 0) && imgIndex == startIndex + t.nPol
  {
    images, sums, imgIndex := was, sumsWas, startIndex;
    GroupsPartition(t.Channels(), |t.groups|, d);
    for k := 0 to |t.groups[d]|
      invariant |images| == |sums| == |was| && Averaging(t, x, images, sums, d, k, 0)
      invariant imgIndex == if k == 0 then startIndex else startIndex + t.nPol
    {
      imgIndex := startIndex;
      for p := 0 to t.nPol
        invariant |images| == |sums| == |was| && Averaging(t, x, images, sums, d, k, p) && imgIndex == startIndex + p
      {
        images, sums := AddOne(t, x, images, sums, d, k, p, imgIndex);
        imgIndex := imgIndex + 1;
      }
      NextPlace(t, x, images, sums, d, k);
    }
    NextGroup(t, x, images, sums, d);
  }

  /** The weighted average of the channels of a group; without weight its pixels are no numbers. */
  ghost predicate IsAverage(t: Table, x: Data, image: Option<Image>, d: nat, p: nat)
    requires x.Fits(t) && d < |t.groups| && p < t.nPol
  {
    var n := |t.groups[d]|;
    IsQuotient(image, Total(t, x, d, p, n), WeightSum(t, x, d, p, n))
  }

  ghost predicate AllAverages(t: Table, x: Data, images: seq<Option<Image>>)
    requires x.Fits(t)
  {
    |images| == ValueCount(|t.groups|, t.nPol) &&
    forall d: nat, p: nat {:trigger ImageIndex(t.nPol, d, p)} :: d < |t.groups| && p < t.nPol ==>
      (ImageExists(t, d, p); IsAverage(t, x, images[ImageIndex(t.nPol, d, p)], d, p))
  }

  /** LoadAndAverage: every image becomes the weighted average of the residuals of its group. */
  method LoadAndAverage(t: Table, x: Data) returns (averages: seq<Option<Image>>)
    requires x.Fits(t)
    ensures AllAverages(t, x, averages)
  {
    var images := seq(ValueCount(|t.groups|, t.nPol), _ => Blank(x.size));
    var averagedWeights := seq(ValueCount(|t.groups|, t.nPol), _ => 0.0);
    var imgIndex := 0;
    NothingAdded(t, x, images, averagedWeights);
    for d := 0 to |t.groups|
      invariant |images| == |averagedWeights| == ValueCount(|t.groups|, t.nPol)
      invariant imgIndex == ValueCount(d, t.nPol) && Averaging(t, x, images, averagedWeights, d, 0, 0)
    {
      images, averagedWeights, imgIndex := AddGroup(t, x, images, averagedWeights, d, imgIndex);
    }
    averages := Divide(t, x, images, averagedWeights);
  }

  lemma NothingAdded(t: Table, x: Data, images: seq<Image>, sums: seq<real>)
    requires x.Fits(t) && |images| == |sums| == ValueCount(|t.groups|, t.nPol)
    requires forall i {:trigger images[i]} :: 0 <= i < |images| ==> images[i] == Blank(x.size) && sums[i] == 0.0
    ensures Averaging(t, x, images, sums, 0, 0, 0)
  {
    forall e: nat, q: nat | e < |t.groups| && q < t.nPol ensures SumsAt(t, x, images, sums, 0, 0, 0, e, q) {
      ImageExists(t, e, q);
    }
  }

  /** The image at an index belongs to some group and polarisation. */
  lemma {:induction false} PlaceOfImage(nPol: nat, n: nat, i: nat) returns (d: nat, p: nat)
    requires i < ValueCount(n, nPol)
    ensures d < n && p < nPol && i == ImageIndex(nPol, d, p)
  {
    if i < ValueCount(n - 1, nPol) {
      d, p := PlaceOfImage(nPol, n - 1, i);
    } else {
      d, p := n - 1, i - ValueCount(n - 1, nPol);
    }
  }

  /** Dividing by a weight of zero leaves infinities and values that are no numbers, which are not modelled. */
  predicate IsQuotient(image: Option<Image>, total: Image, sum: real) {
    image == if sum == 0.0 then None else Some(Scaled(total, 1.0 / sum))
  }

  method Divide(t: Table, x: Data, totals: seq<Image>, sums: seq<real>) returns (images: seq<Option<Image>>)
    requires x.Fits(t) && |totals| == |sums| == ValueCount(|t.groups|, t.nPol) &&
             Averaging(t, x, totals, sums, |t.groups|, 0, 0)
    ensures AllAverages(t, x, images)
  {
    images := [];
    for i := 0 to |totals|
      invariant |images| == i
      invariant forall j {:trigger images[j]} :: 0 <= j < i ==> IsQuotient(images[j], totals[j], sums[j])
    {
      images := images + [if sums[i] == 0.0 then None else Some(Scaled(totals[i], 1.0 / sums[i]))];
    }
    forall d: nat, p: nat | d < |t.groups| && p < t.nPol
      ensures ImageIndex(t.nPol, d, p) < |images| && IsAverage(t, x, images[ImageIndex(t.nPol, d, p)], d, p) {
      ImageExists(t, d, p);
      assert SumsAt(t, x, totals, sums, |t.groups|, 0, 0, d, p);
    }
  }

  // ----- the round trip

  lemma {:induction false} TotalOfSame(t: Table, x: Data, image: Image, d: nat, p: nat, k: nat, i: nat)
    requires x.Fits(t) && d < |t.groups| && k <= |t.groups[d]| && p < t.nPol && |image| == x.size && i < x.size
    requires forall m: nat {:trigger EntryOf(t, d, m, p)} :: m < k ==> x.residuals[EntryOf(t, d, m, p)] == image
    ensures Total(t, x, d, p, k)[i] == image[i] * WeightSum(t, x, d, p, k)
  {
    if k > 0 {
      TotalOfSame(t, x, image, d, p, k - 1, i);
      var e := EntryOf(t, d, k - 1, p);
      assert image[i] * (WeightSum(t, x, d, p, k - 1) + x.weights[e]) ==
        image[i] * WeightSum(t, x, d, p, k - 1) + image[i] * x.weights[e];
    }
  }

  lemma BackAgain(v: real, w: real)
    requires w != 0.0
    ensures v * w * (1.0 / w) == v
  {
  }

  /** The image of polarisation p of group d, unless the group has no weight. */
  ghost predicate Restored(t: Table, x: Data, images: seq<Image>, loaded: seq<Option<Image>>, d: nat, p: nat)
    requires x.Fits(t) && d < |t.groups| && p < t.nPol
  {
    |images| == |loaded| == ValueCount(|t.groups|, t.nPol) &&
    (ImageExists(t, d, p);
     loaded[ImageIndex(t.nPol, d, p)] ==
       if WeightSum(t, x, d, p, |t.groups[d]|) == 0.0 then None else Some(images[ImageIndex(t.nPol, d, p)]))
  }

  /** Averaging what was stored for all channels of a group gives the image of the group back, if it has a weight. */
  lemma StoreThenAverage(t: Table, x: Data, images: seq<Image>, loaded: seq<Option<Image>>, d: nat, p: nat)
    requires x.Fits(t) && |images| == ValueCount(|t.groups|, t.nPol) && AllSized(images, x.size)
    requires Stored(t, images, x.residuals, |t.groups|, 0, 0) && AllAverages(t, x, loaded)
    requires d < |t.groups| && p < t.nPol
    ensures Restored(t, x, images, loaded, d, p)
  {
    ImageExists(t, d, p);
    var n, image, sum := |t.groups[d]|, images[ImageIndex(t.nPol, d, p)], WeightSum(t, x, d, p, |t.groups[d]|);
    assert IsAverage(t, x, loaded[ImageIndex(t.nPol, d, p)], d, p);
    if sum != 0.0 {
      forall m: nat | m < n ensures x.residuals[EntryOf(t, d, m, p)] == image {
        assert HoldsImage(t, images, x.residuals, d, m, p);
      }
      var average := Scaled(Total(t, x, d, p, n), 1.0 / sum);
      forall i | 0 <= i < x.size ensures average[i] == image[i] {
        TotalOfSame(t, x, image, d, p, n, i);
        BackAgain(image[i], sum);
      }
      assert average == image;
    }
  }

  lemma {:induction false} SameWeights(t: Table, x: Data, y: Data, d: nat, p: nat, k: nat)
    requires x.Fits(t) && y.Fits(t) && x.weights == y.weights && d < |t.groups| && k <= |t.groups[d]| && p < t.nPol
    ensures WeightSum(t, x, d, p, k) == WeightSum(t, y, d, p, k)
  {
    if k > 0 {
      SameWeights(t, x, y, d, p, k - 1);
    }
  }

  /** Storing the residuals and loading them again restores every image whose group has a weight. */
  method StoreAndLoad(t: Table, x: Data, images: seq<Image>) returns (loaded: seq<Option<Image>>)
    requires x.Fits(t) && |images| == ValueCount(|t.groups|, t.nPol) && AllSized(images, x.size)
    ensures forall d: nat, p: nat {:trigger Restored(t, x, images, loaded, d, p)} :: d < |t.groups| && p < t.nPol ==>
              Restored(t, x, images, loaded, d, p)
  {
    var stored := AssignAndStoreResidual(t, images, x.residuals, x.size);
    var y := x.(residuals := stored);
    loaded := LoadAndAverage(t, y);
    forall d: nat, p: nat | d < |t.groups| && p < t.nPol ensures Restored(t, x, images, loaded, d, p) {
      SameWeights(t, x, y, d, p, |t.groups[d]|);
      StoreThenAverage(t, y, images, loaded, d, p);
    }
  }

  // ----- the other users of the groups

  predicate ChannelsBelow(list: seq<nat>, n: nat) {
    forall k {:trigger list[k]} :: 0 <= k < |list| ==> list[k] < n
  }

  /** The sum over the listed channels. */
  function ListSum(list: seq<nat>, values: seq<real>): real
    requires ChannelsBelow(list, |values|)
  {
    if list == [] then 0.0 else ListSum(list[..|list| - 1], values) + values[list[|list| - 1]]
  }

  /** The weighted sum of the images of the listed channels. */
  function ListTotal(list: seq<nat>, images: seq<Image>, weights: seq<real>, size: nat): (r: Image)
    requires |weights| == |images| && ChannelsBelow(list, |images|) && forall k {:trigger images[k]} ::
             0 <= k < |images| ==> |images[k]| == size
    ensures |r| == size
  {
    if list == [] then Blank(size)
    else AddScaled(ListTotal(list[..|list| - 1], images, weights, size), images[list[|list| - 1]],
        weights[list[|list| - 1]])
  }

  lemma {:induction false} GroupsBelow(n: nat, groups: nat, i: nat, d: nat)
    requires 0 < groups <= n && i <= n && d < groups
    ensures ChannelsBelow(GroupsUpTo(n, groups, i)[d], i)
  {
    if i > 0 {
      GroupsBelow(n, groups, i - 1, d);
    }
  }

  lemma SumGrows(list: seq<nat>, c: nat, values: seq<real>)
    requires ChannelsBelow(list, |values|) && c < |values|
    ensures ChannelsBelow(list + [c], |values|) && ListSum(list + [c], values) == ListSum(list, values) + values[c]
  {
    assert (list + [c])[..|list|] == list;
  }

  lemma TotalGrows(list: seq<nat>, c: nat, images: seq<Image>, weights: seq<real>, size: nat)
    requires |weights| == |images| && AllSized(images, size) && ChannelsBelow(list, |images|) && c < |images|
    ensures ChannelsBelow(list + [c], |images|) && ListTotal(list + [c], images, weights, size) ==
            AddScaled(ListTotal(list, images, weights, size), images[c], weights[c])
  {
    assert (list + [c])[..|list|] == list;
  }

  /**
   * While channels are added to the bucket that the formula gives, every bucket holds the sum over its group so
   * far.
   */
  ghost predicate Bucketed(n: nat, groups: nat, i: nat, values: seq<real>, buckets: seq<real>)
    requires 0 < groups <= n && i <= n
  {
    |buckets| == groups && |values| == n &&
    forall d: nat {:trigger buckets[d]} :: d < groups ==>
      (GroupsBelow(n, groups, i, d); buckets[d] == ListSum(GroupsUpTo(n, groups, i)[d], values))
  }

  lemma BucketNext(n: nat, groups: nat, i: nat, values: seq<real>, was: seq<real>, buckets: seq<real>, ch: nat)
    requires 0 < groups <= n && i < n && Bucketed(n, groups, i, values, was) && ch == GroupOf(n, groups, i) < groups
    requires buckets == was[ch := was[ch] + values[i]]
    ensures Bucketed(n, groups, i + 1, values, buckets)
  {
    GroupsBelow(n, groups, i, ch);
    SumGrows(GroupsUpTo(n, groups, i)[ch], i, values);
    var next := i + 1;
    forall d: nat | d < groups
      ensures ChannelsBelow(GroupsUpTo(n, groups, next)[d], n) &&
              buckets[d] == ListSum(GroupsUpTo(n, groups, next)[d], values) {
      GroupsBelow(n, groups, next, d);
      assert was[d] == ListSum(GroupsUpTo(n, groups, i)[d], values);
    }
  }

  /** Adds a value of every channel to the bucket of its group. */
  method SumPerGroup(n: nat, groups: nat, values: seq<real>) returns (buckets: seq<real>)
    requires 0 < groups <= n && |values| == n
    ensures Bucketed(n, groups, n, values, buckets)
  {
    buckets := seq(groups, _ => 0.0);
    for i := 0 to n
      invariant Bucketed(n, groups, i, values, buckets)
    {
      GroupExists(n, groups, i);
      var deconvolutionChannel := GroupOf(n, groups, i);
      ghost var was := buckets;
      buckets := buckets[deconvolutionChannel := buckets[deconvolutionChannel] + values[i]];
      BucketNext(n, groups, i, values, was, buckets, deconvolutionChannel);
    }
  }

  function Products(a: seq<real>, b: seq<real>): (r: seq<real>)
    requires |a| == |b|
    ensures |r| == |a|
  {
    seq(|a|, i requires 0 <= i < |a| => a[i] * b[i])
  }

  /** The frequency of a group: the weighted average over its channels, or the plain average if they have no weight. */
  ghost predicate IsGroupFrequency(t: Table, d: nat, frequencies: seq<real>, weights: seq<real>, frequency: real,
          weight: real)
    requires t.Valid() && d < |t.groups| && |frequencies| == |weights| == t.Channels()
  {
    GroupsBelow(t.Channels(), |t.groups|, t.Channels(), d);
    weight == ListSum(t.groups[d], weights) && 0 < |t.groups[d]| &&
    frequency == if weight > 0.0 then ListSum(t.groups[d], Products(frequencies, weights)) / weight
                 else ListSum(t.groups[d], frequencies) / |t.groups[d]| as real
  }

  /** CalculateDeconvolutionFrequencies, given the central frequency and the weight of each channel. */
  method CalculateDeconvolutionFrequencies(t: Table, frequencies: seq<real>, weights: seq<real>)
          returns (groupFrequencies: seq<real>, groupWeights: seq<real>)
    requires t.Valid() && |frequencies| == |weights| == t.Channels()
    ensures |groupFrequencies| == |groupWeights| == |t.groups|
    ensures forall d: nat {:trigger groupFrequencies[d]} :: d < |t.groups| ==>
            IsGroupFrequency(t, d, frequencies, weights, groupFrequencies[d], groupWeights[d])
  {
    var n, groups := t.Channels(), |t.groups|;
    var weighted := SumPerGroup(n, groups, Products(frequencies, weights));
    groupWeights := SumPerGroup(n, groups, weights);
    var unweighted := SumPerGroup(n, groups, frequencies);
    groupFrequencies := [];
    for d := 0 to groups
      invariant |groupFrequencies| == d
      invariant forall e: nat {:trigger groupFrequencies[e]} :: e < d ==>
                IsGroupFrequency(t, e, frequencies, weights, groupFrequencies[e], groupWeights[e])
    {
      GroupsPartition(n, groups, d);
      GroupsBelow(n, groups, n, d);
      assert weighted[d] == ListSum(t.groups[d], Products(frequencies, weights)) &&
        unweighted[d] == ListSum(t.groups[d], frequencies);
      var frequency := if groupWeights[d] > 0.0 then weighted[d] / groupWeights[d]
          else unweighted[d] / |t.groups[d]| as real;
      groupFrequencies := groupFrequencies + [frequency];
    }
  }

  /**
   * While PSFs are added to the group that the formula gives, every group holds the weighted sum of its PSFs so
   * far.
   */
  ghost predicate PsfsAdded(n: nat, groups: nat, i: nat, psfs: seq<Image>, weights: seq<real>, size: nat,
          sums: seq<Image>)
    requires 0 < groups <= n && i <= n && |psfs| == |weights| == n && AllSized(psfs, size)
  {
    |sums| == groups &&
    forall d: nat {:trigger sums[d]} :: d < groups ==>
      (GroupsBelow(n, groups, i, d); sums[d] == ListTotal(GroupsUpTo(n, groups, i)[d], psfs, weights, size))
  }

  lemma PsfNext(n: nat, groups: nat, i: nat, psfs: seq<Image>, weights: seq<real>, size: nat, was: seq<Image>,
          sums: seq<Image>, ch: nat)
    requires 0 < groups <= n && i < n && |psfs| == |weights| == n && AllSized(psfs, size) &&
             PsfsAdded(n, groups, i, psfs, weights, size, was)
    requires ch == GroupOf(n, groups, i) < groups && |was[ch]| == size &&
             sums == was[ch := AddScaled(was[ch], psfs[i], weights[i])]
    ensures PsfsAdded(n, groups, i + 1, psfs, weights, size, sums)
  {
    GroupsBelow(n, groups, i, ch);
    TotalGrows(GroupsUpTo(n, groups, i)[ch], i, psfs, weights, size);
    var next := i + 1;
    forall d: nat | d < groups
      ensures ChannelsBelow(GroupsUpTo(n, groups, next)[d], n) &&
              sums[d] == ListTotal(GroupsUpTo(n, groups, next)[d], psfs, weights, size) {
      GroupsBelow(n, groups, next, d);
      assert was[d] == ListTotal(GroupsUpTo(n, groups, i)[d], psfs, weights, size);
    }
  }

  /** The PSF of a group is the weighted average of the PSFs of its channels; zero if they have no weight. */
  ghost predicate IsGroupPsf(t: Table, d: nat, psfs: seq<Image>, weights: seq<real>, size: nat, psf: Image)
    requires t.Valid() && d < |t.groups| && |psfs| == |weights| == t.Channels() && AllSized(psfs, size)
  {
    GroupsBelow(t.Channels(), |t.groups|, t.Channels(), d);
    var weight := ListSum(t.groups[d], weights);
    psf == Scaled(ListTotal(t.groups[d], psfs, weights, size), if weight == 0.0 then 0.0 else 1.0 / weight)
  }

  /** LoadAndAveragePSFs, given the PSF and the weight of each channel. */
  method LoadAndAveragePSFs(t: Table, psfs: seq<Image>, weights: seq<real>, size: nat) returns (psfImages: seq<Image>)
    requires t.Valid() && |psfs| == |weights| == t.Channels() && AllSized(psfs, size)
    ensures |psfImages| == |t.groups| && forall d: nat {:trigger psfImages[d]} :: d < |t.groups| ==>
            IsGroupPsf(t, d, psfs, weights, size, psfImages[d])
  {
    var n, groups := t.Channels(), |t.groups|;
    var sums := seq(groups, _ => Blank(size));
    for groupIndex := 0 to n
      invariant PsfsAdded(n, groups, groupIndex, psfs, weights, size, sums)
    {
      GroupExists(n, groups, groupIndex);
      var chIndex := GroupOf(n, groups, groupIndex);
      ghost var was := sums;
      GroupsBelow(n, groups, groupIndex, chIndex);
      assert sums[chIndex] == ListTotal(GroupsUpTo(n, groups, groupIndex)[chIndex], psfs, weights, size);
      sums := sums[chIndex := AddScaled(sums[chIndex], psfs[groupIndex], weights[groupIndex])];
      PsfNext(n, groups, groupIndex, psfs, weights, size, was, sums, chIndex);
    }
    var averagedWeights := SumPerGroup(n, groups, weights);
    psfImages := [];
    for chIndex := 0 to groups
      invariant |psfImages| == chIndex
      invariant forall d: nat {:trigger psfImages[d]} :: d < chIndex ==>
                IsGroupPsf(t, d, psfs, weights, size, psfImages[d])
    {
      GroupsBelow(n, groups, n, chIndex);
      assert sums[chIndex] == ListTotal(t.groups[chIndex], psfs, weights, size) &&
        averagedWeights[chIndex] == ListSum(t.groups[chIndex], weights);
      var factor := if averagedWeights[chIndex] == 0.0 then 0.0 else 1.0 / averagedWeights[chIndex];
      psfImages := psfImages + [Scaled(sums[chIndex], factor)];
    }
  }

  // ----- the indices

  /** The entries listed so far are those before place (d, k, p), each with the image of its group. */
  ghost predicate Indexed(t: Table, images: seq<nat>, d: int, k: int, p: int) {
    t.Valid() && t.InOrder() && forall e: nat, m: nat, q: nat {:trigger IndexHolds(t, images, e, m, q)} ::
      t.IsGroupChannel(e, m) && q < t.nPol && Earlier(e, m, q, d, k, p) ==> IndexHolds(t, images, e, m, q)
  }

  ghost predicate IndexHolds(t: Table, images: seq<nat>, e: nat, m: nat, q: nat) {
    t.Valid() && t.IsGroupChannel(e, m) && q < t.nPol && EntryOf(t, e, m, q) < |images| &&
        images[EntryOf(t, e, m, q)] == ImageIndex(t.nPol, e, q)
  }

  lemma EntryInOrder(t: Table, d: nat, k: nat, p: nat)
    requires t.Valid() && t.InOrder() && t.IsGroupChannel(d, k) && p < t.nPol
    ensures EntryOf(t, d, k, p) == ValueCount(Start(t.Channels(), |t.groups|, d) + k, t.nPol) + p
  {
    ChannelIs(t, d, k);
    assert t.originals[t.groups[d][k]][p] == ValueCount(t.groups[d][k], t.nPol) + p;
  }

  lemma IndexNext(t: Table, was: seq<nat>, images: seq<nat>, d: nat, k: nat, p: nat)
    requires t.Valid() && t.InOrder() && t.IsGroupChannel(d, k) && p < t.nPol && Indexed(t, was, d, k, p)
    requires |was| == EntryOf(t, d, k, p) && images == was + [ImageIndex(t.nPol, d, p)]
    ensures Indexed(t, images, d, k, p + 1)
  {
    var next := p + 1;
    forall e: nat, m: nat, q: nat | t.IsGroupChannel(e, m) && q < t.nPol && Earlier(e, m, q, d, k, next)
      ensures IndexHolds(t, images, e, m, q) {
      if (e, m, q) != (d, k, p) {
        assert IndexHolds(t, was, e, m, q);
      }
    }
  }

  /** initializeIndices: the image of every entry; each entry is listed at its own index. */
  method EntryIndices(t: Table) returns (images: seq<nat>)
    requires t.Valid() && t.InOrder()
    ensures Indexed(t, images, |t.groups|, 0, 0)
  {
    images := [];
    var imgIndex := 0;
    FirstStart(t.Channels(), |t.groups|);
    for d := 0 to |t.groups|
      invariant imgIndex == ValueCount(d, t.nPol) && |images| == ValueCount(Start(t.Channels(), |t.groups|, d), t.nPol)
      invariant Indexed(t, images, d, 0, 0)
    {
      images, imgIndex := GroupIndices(t, images, d, imgIndex);
    }
  }

  method GroupIndices(t: Table, was: seq<nat>, d: nat, startIndex: nat) returns (images: seq<nat>, imgIndex: nat)
    requires t.Valid() && t.InOrder() && d < |t.groups| && startIndex == ValueCount(d, t.nPol)
    requires |was| == ValueCount(Start(t.Channels(), |t.groups|, d), t.nPol) && Indexed(t, was, d, 0, 0)
    ensures |images| == ValueCount(Start(t.Channels(), |t.groups|, d + 1), t.nPol) && Indexed(t, images, d + 1, 0, 0) &&
            imgIndex == startIndex + t.nPol
  {
    images, imgIndex := was, startIndex;
    GroupsPartition(t.Channels(), |t.groups|, d);
    var first := Start(t.Channels(), |t.groups|, d);
    for k := 0 to |t.groups[d]|
      invariant |images| == ValueCount(first + k, t.nPol) && Indexed(t, images, d, k, 0)
      invariant imgIndex == if k == 0 then startIndex else startIndex + t.nPol
    {
      imgIndex := startIndex;
      for p := 0 to t.nPol
        invariant |images| == ValueCount(first + k, t.nPol) + p && Indexed(t, images, d, k, p) &&
                  imgIndex == startIndex + p
      {
        EntryInOrder(t, d, k, p);
        ghost var before := images;
        images := images + [imgIndex];
        imgIndex := imgIndex + 1;
        IndexNext(t, before, images, d, k, p);
      }
    }
  }

  /** The images of the groups below d, and the first p ones of group d, have the PSF of their group. */
  ghost predicate PsfsUpTo(t: Table, psfs: seq<nat>, d: int, p: int)
    requires t.Valid()
  {
    |psfs| == ValueCount(|t.groups|, t.nPol) &&
    forall e: nat, q: nat {:trigger PsfHolds(t, psfs, e, q)} ::
      e < |t.groups| && q < t.nPol && (e < d || (e == d && q < p)) ==> PsfHolds(t, psfs, e, q)
  }

  ghost predicate PsfHolds(t: Table, psfs: seq<nat>, e: nat, q: nat) {
    ImageIndex(t.nPol, e, q) < |psfs| && psfs[ImageIndex(t.nPol, e, q)] == e
  }

  lemma PsfNextImage(t: Table, was: seq<nat>, psfs: seq<nat>, d: nat, p: nat)
    requires t.Valid() && d < |t.groups| && p < t.nPol && PsfsUpTo(t, was, d, p)
    requires ImageIndex(t.nPol, d, p) < |was| && psfs == was[ImageIndex(t.nPol, d, p) := d]
    ensures PsfsUpTo(t, psfs, d, p + 1)
  {
    forall e: nat, q: nat | e < |t.groups| && q < t.nPol && (e < d || (e == d && q < p + 1))
      ensures PsfHolds(t, psfs, e, q)
    {
      ImageExists(t, e, q);
      if (e, q) != (d, p) {
        assert PsfHolds(t, was, e, q);
        if ImageIndex(t.nPol, e, q) == ImageIndex(t.nPol, d, p) {
          DifferentImages(t.nPol, e, q, d, p);
        }
      }
    }
  }

  /** Names the PSF of the image of polarisation p of a group, by the first channel of the group. */
  method PsfOfImage(t: Table, images: seq<nat>, was: seq<nat>, chIndex: nat, p: nat) returns (psfs: seq<nat>)
    requires t.Valid() && t.InOrder() && Indexed(t, images, |t.groups|, 0, 0) && t.IsGroupChannel(chIndex, 0)
    requires p < t.nPol && PsfsUpTo(t, was, chIndex, p)
    ensures PsfsUpTo(t, psfs, chIndex, p + 1)
  {
    var entry := EntryAt(t, chIndex, 0, p);
    assert IndexHolds(t, images, chIndex, 0, p);
    ImageExists(t, chIndex, p);
    psfs := was[images[entry] := chIndex];
    PsfNextImage(t, was, psfs, chIndex, p);
  }

  lemma PsfNextGroup(t: Table, psfs: seq<nat>, d: nat)
    requires t.Valid() && d < |t.groups| && PsfsUpTo(t, psfs, d, t.nPol)
    ensures PsfsUpTo(t, psfs, d + 1, 0)
  {
    var next := d + 1;
    forall e: nat, q: nat | e < |t.groups| && q < t.nPol && e < next ensures PsfHolds(t, psfs, e, q) {
    }
  }

  /** The second half of initializeIndices: the images of a group use the PSF of the group. */
  method PsfIndices(t: Table, images: seq<nat>) returns (psfs: seq<nat>)
    requires t.Valid() && t.InOrder() && Indexed(t, images, |t.groups|, 0, 0)
    ensures PsfsUpTo(t, psfs, |t.groups|, 0)
  {
    psfs := seq(ValueCount(|t.groups|, t.nPol), _ => 0);
    for chIndex := 0 to |t.groups|
      invariant PsfsUpTo(t, psfs, chIndex, 0)
    {
      GroupsPartition(t.Channels(), |t.groups|, chIndex);
      for p := 0 to t.nPol
        invariant PsfsUpTo(t, psfs, chIndex, p)
      {
        psfs := PsfOfImage(t, images, psfs, chIndex, p);
      }
      PsfNextGroup(t, psfs, chIndex);
    }
  }

  // ----- making a table

  /** How many images the first c channels have, one after the other. */
  function ImagesBefore(counts: seq<nat>, c: nat): nat
    requires c <= |counts|
  {
    if c == 0 then 0 else ImagesBefore(counts, c - 1) + counts[c - 1]
  }

  /** The entries of a channel after p of them have been added, when `before` images have come before. */
  function Block(before: nat, p: nat): (r: seq<nat>)
    ensures |r| == p && forall q :: 0 <= q < p ==> r[q] == before + q
  {
    if p == 0 then [] else Block(before, p - 1) + [before + p - 1]
  }

  /** All channels before c are complete, channel c has p entries, and the others have none. */
  ghost predicate Filled(originals: seq<seq<nat>>, counts: seq<nat>, c: nat, p: nat) {
    |originals| == |counts| &&
    forall e: nat {:trigger originals[e]} :: e < |originals| ==>
      originals[e] == Block(ImagesBefore(counts, e), if e < c then counts[e] else if e == c then p else 0)
  }

  ghost predicate AllSame(counts: seq<nat>, n: nat) {
    forall c {:trigger counts[c]} :: 0 <= c < |counts| ==> counts[c] == n
  }

  lemma {:induction false} SameImagesBefore(counts: seq<nat>, n: nat, c: nat)
    requires AllSame(counts, n) && c <= |counts|
    ensures ImagesBefore(counts, c) == ValueCount(c, n)
  {
    if c > 0 {
      SameImagesBefore(counts, n, c - 1);
    }
  }

  /** A table that was filled channel by channel is valid if and only if all channels have the same number of images. */
  lemma FilledIsValid(t: Table, counts: seq<nat>)
    requires 0 < |t.groups| <= |t.originals| && t.groups == GroupsUpTo(|t.originals|, |t.groups|, |t.originals|)
    requires 0 < t.nPol && Filled(t.originals, counts, |counts|, 0) && t.entryCount == ImagesBefore(counts, |counts|)
    ensures t.Valid() <==> AllSame(counts, t.nPol)
    ensures t.Valid() ==> t.InOrder()
  {
    if AllSame(counts, t.nPol) {
      EqualCounts(t, counts);
    }
    if t.Valid() {
      forall c | 0 <= c < |counts| ensures counts[c] == t.nPol {
        assert |t.originals[c]| == counts[c];
      }
    }
  }

  /** All channels are filled with the same number of images. */
  ghost predicate FilledAlike(t: Table, counts: seq<nat>) {
    Filled(t.originals, counts, |counts|, 0) && t.entryCount == ImagesBefore(counts, |counts|) &&
    AllSame(counts, t.nPol)
  }

  lemma EntryIs(t: Table, counts: seq<nat>, c: nat)
    requires FilledAlike(t, counts) && c < |t.originals|
    ensures t.originals[c] == Block(ValueCount(c, t.nPol), t.nPol)
    ensures ValueCount(c, t.nPol) + t.nPol <= t.entryCount
  {
    assert counts[c] == t.nPol;
    SameImagesBefore(counts, t.nPol, c);
    SameImagesBefore(counts, t.nPol, |counts|);
    ValueCountGrows(c + 1, |counts|, t.nPol);
  }

  lemma OneEntry(t: Table, counts: seq<nat>, c: nat, p: nat, e: nat, q: nat)
    requires FilledAlike(t, counts) && c < |t.originals| && e < |t.originals| && p < t.nPol && q < t.nPol
    requires |t.originals[c]| == |t.originals[e]| == t.nPol && t.originals[c][p] == t.originals[e][q]
    ensures c == e && p == q
  {
    EntryIs(t, counts, c);
    EntryIs(t, counts, e);
    DifferentImages(t.nPol, c, p, e, q);
  }

  lemma EqualCounts(t: Table, counts: seq<nat>)
    requires 0 < |t.groups| <= |t.originals| && t.groups == GroupsUpTo(|t.originals|, |t.groups|, |t.originals|)
    requires 0 < t.nPol && FilledAlike(t, counts)
    ensures t.Valid() && t.InOrder()
  {
    forall c | 0 <= c < |t.originals|
      ensures t.originals[c] == Block(ValueCount(c, t.nPol), t.nPol) && ValueCount(c, t.nPol) + t.nPol <= t.entryCount
    {
      EntryIs(t, counts, c);
    }
    forall c: nat, p: nat, e: nat, q: nat |
      c < |t.originals| && p < t.nPol && e < |t.originals| && q < t.nPol && t.originals[c][p] == t.originals[e][q]
      ensures c == e && p == q
    {
      OneEntry(t, counts, c, p, e, q);
    }
  }

  /** The table of a list of channels with the given numbers of images, filled channel by channel. */
  method CreateDeconvolutionTable(counts: seq<nat>, weights: seq<real>, frequencies: seq<real>, nDeconvolution: int,
                                  channelIndexOffset: nat)
    returns (table: DeconvolutionTable)
    requires 0 < |weights| == |frequencies| == |counts|
    ensures fresh(table) && |table.entries| == ImagesBefore(counts, |counts|)
    ensures Filled(table.originalGroups, counts, |counts|, 0)
    ensures table.deconvolutionGroups ==
              GroupsUpTo(|weights|, GroupCount(|weights|, nDeconvolution), |weights|)
  {
    table := new DeconvolutionTable(|weights|, nDeconvolution, channelIndexOffset);
    for c := 0 to |weights|
      invariant fresh(table) && |table.entries| == ImagesBefore(counts, c)
      invariant Filled(table.originalGroups, counts, c, 0)
      invariant table.deconvolutionGroups ==
                  GroupsUpTo(|weights|, GroupCount(|weights|, nDeconvolution), |weights|)
    {
      for p := 0 to counts[c]
        invariant fresh(table) && |table.entries| == ImagesBefore(counts, c) + p
        invariant Filled(table.originalGroups, counts, c, p)
        invariant table.deconvolutionGroups ==
                    GroupsUpTo(|weights|, GroupCount(|weights|, nDeconvolution), |weights|)
      {
        table.AddEntry(c, weights[c], frequencies[c]);
      }
    }
  }

  /** What the image set sees of such a table. */
  method TableOf(counts: seq<nat>, weights: seq<real>, frequencies: seq<real>, nDeconvolution: int, nPol: nat)
    returns (table: DeconvolutionTable, ghost t: Table)
    requires 0 < |weights| == |frequencies| == |counts| && 0 < nPol
    ensures t == Table(table.originalGroups, table.deconvolutionGroups, |table.entries|, nPol)
    ensures t.Channels() == |weights| && |t.groups| == GroupCount(|weights|, nDeconvolution)
    ensures (t.Valid() <==> AllSame(counts, nPol)) && (t.Valid() ==> t.InOrder())
  {
    table := CreateDeconvolutionTable(counts, weights, frequencies, nDeconvolution, 0);
    t := Table(table.originalGroups, table.deconvolutionGroups, |table.entries|, nPol);
    FilledIsValid(t, counts);
  }
}
