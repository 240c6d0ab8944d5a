/**
 * The averages over the channels of a group, of images, frequencies and PSFs (deconvolution/imageset.cpp), as weighted
 * means of plain numbers.
 */
module ChannelAverages {
  import opened Common
  import opened BlockLists
  import opened ChannelGroups
  import opened ImageSet

  /** The sum of the values of the listed channels, each times its weight. */
  ghost function WeightedSum(list: seq<nat>, weight: nat -> real, value: nat -> real): real {
    if list == [] then 0.0
    else
      var rest, last := list[..|list| - 1], list[|list| - 1];
      WeightedSum(rest, weight, value) + weight(last) * value(last)
  }

  /** A weighted mean: times the sum of the weights it is the weighted sum. */
  ghost predicate IsMean(mean: real, list: seq<nat>, weight: nat -> real, value: nat -> real) {
    mean * WeightedSum(list, weight, _ => 1.0) == WeightedSum(list, weight, value)
  }

  /** The weight of the entry that channel c has for a polarisation. */
  function EntryWeight(t: Table, x: Data, p: nat): nat -> real {
    (c: nat) => if c < |t.originals| && p < |t.originals[c]| && t.originals[c][p] < |x.weights|
      then x.weights[t.originals[c][p]] else 0.0
  }

  /** Pixel i of the residual of that entry. */
  function EntryPixel(t: Table, x: Data, p: nat, i: nat): nat -> real {
    (c: nat) => if c < |t.originals| && p < |t.originals[c]| && t.originals[c][p] < |x.residuals| &&
         i < |x.residuals[t.originals[c][p]]|
      then x.residuals[t.originals[c][p]][i] else 0.0
  }

  lemma EntryIs(t: Table, x: Data, d: nat, k: nat, p: nat, i: nat)
    requires x.Fits(t) && t.IsGroupChannel(d, k) && p < t.nPol && i < x.size
    ensures var e := EntryOf(t, d, k, p);
            EntryWeight(t, x, p)(t.groups[d][k]) == x.weights[e] &&
            EntryPixel(t, x, p, i)(t.groups[d][k]) == x.residuals[e][i]
  {
    ChannelIs(t, d, k);
  }

  lemma {:induction false} TotalPixel(t: Table, x: Data, d: nat, p: nat, k: nat, i: nat)
    requires x.Fits(t) && d < |t.groups| && k <= |t.groups[d]| && p < t.nPol && i < x.size
    ensures Total(t, x, d, p, k)[i] == WeightedSum(t.groups[d][..k], EntryWeight(t, x, p), EntryPixel(t, x, p, i))
  {
    if k > 0 {
      TotalPixel(t, x, d, p, k - 1, i);
      EntryIs(t, x, d, k - 1, p, i);
      assert t.groups[d][..k][..k - 1] == t.groups[d][..k - 1];
    }
  }

  lemma {:induction false} WeightTotal(t: Table, x: Data, d: nat, p: nat, k: nat)
    requires x.Fits(t) && d < |t.groups| && k <= |t.groups[d]| && p < t.nPol
    ensures WeightSum(t, x, d, p, k) == WeightedSum(t.groups[d][..k], EntryWeight(t, x, p), _ => 1.0)
  {
    if k > 0 {
      WeightTotal(t, x, d, p, k - 1);
      ChannelIs(t, d, k - 1);
      assert t.groups[d][..k][..k - 1] == t.groups[d][..k - 1];
    }
  }

  lemma TimesQuotient(a: real, b: real)
    requires b != 0.0
    ensures a * (1.0 / b) * b == a && a / b * b == a
  {
  }

  /** Every pixel of an averaged image is the mean of the residuals of the channels of its group. */
  lemma AverageIsMean(t: Table, x: Data, image: Image, d: nat, p: nat, i: nat)
    requires x.Fits(t) && d < |t.groups| && p < t.nPol && i < x.size && IsAverage(t, x, Some(image), d, p)
    ensures |image| == x.size
    ensures IsMean(image[i], t.groups[d], EntryWeight(t, x, p), EntryPixel(t, x, p, i))
  {
    var n := |t.groups[d]|;
    TotalPixel(t, x, d, p, n, i);
    WeightTotal(t, x, d, p, n);
    assert t.groups[d][..n] == t.groups[d];
    TimesQuotient(Total(t, x, d, p, n)[i], WeightSum(t, x, d, p, n));
  }

  /** A number for each channel. */
  function Values(values: seq<real>): nat -> real {
    (c: nat) => if c < |values| then values[c] else 0.0
  }

  lemma {:induction false} ListSums(list: seq<nat>, values: seq<real>, weights: seq<real>)
    requires |values| == |weights| && ChannelsBelow(list, |values|)
    ensures ListSum(list, weights) == WeightedSum(list, Values(weights), _ => 1.0)
    ensures ListSum(list, Products(values, weights)) == WeightedSum(list, Values(weights), Values(values))
    ensures ListSum(list, values) == WeightedSum(list, _ => 1.0, Values(values))
    ensures |list| as real == WeightedSum(list, _ => 1.0, _ => 1.0)
  {
    if list != [] {
      ListSums(list[..|list| - 1], values, weights);
    }
  }

  /** The frequency of a group is the mean of those of its channels, weighted or, without weight, plain. */
  lemma FrequencyIsMean(t: Table, d: nat, frequencies: seq<real>, weights: seq<real>, frequency: real, weight: real)
    requires t.Valid() && d < |t.groups| && |frequencies| == |weights| == t.Channels()
    requires IsGroupFrequency(t, d, frequencies, weights, frequency, weight)
    ensures weight == WeightedSum(t.groups[d], Values(weights), _ => 1.0)
    ensures IsMean(frequency, t.groups[d], if weight > 0.0 then Values(weights) else _ => 1.0, Values(frequencies))
  {
    GroupsBelow(t.Channels(), |t.groups|, t.Channels(), d);
    ListSums(t.groups[d], frequencies, weights);
    if weight > 0.0 {
      TimesQuotient(ListSum(t.groups[d], Products(frequencies, weights)), weight);
    } else {
      TimesQuotient(ListSum(t.groups[d], frequencies), |t.groups[d]| as real);
    }
  }

  /** Pixel i of the PSF of each channel. */
  function PsfPixel(psfs: seq<Image>, i: nat): nat -> real {
    (c: nat) => if c < |psfs| && i < |psfs[c]| then psfs[c][i] else 0.0
  }

  lemma {:induction false} PsfTotal(list: seq<nat>, psfs: seq<Image>, weights: seq<real>, size: nat, i: nat)
    requires |weights| == |psfs| && ChannelsBelow(list, |psfs|) && AllSized(psfs, size) && i < size
    ensures ListTotal(list, psfs, weights, size)[i] == WeightedSum(list, Values(weights), PsfPixel(psfs, i))
    ensures ListSum(list, weights) == WeightedSum(list, Values(weights), _ => 1.0)
  {
    if list != [] {
      PsfTotal(list[..|list| - 1], psfs, weights, size, i);
    }
  }

  /** Every pixel of the PSF of a group that has weight is the mean of the PSFs of its channels. */
  lemma PsfIsMean(t: Table, d: nat, psfs: seq<Image>, weights: seq<real>, size: nat, psf: Image, i: nat)
    requires t.Valid() && d < |t.groups| && |psfs| == |weights| == t.Channels() && AllSized(psfs, size) && i < size
    requires IsGroupPsf(t, d, psfs, weights, size, psf)
    ensures |psf| == size
    ensures if WeightedSum(t.groups[d], Values(weights), _ => 1.0) == 0.0 then psf[i] == 0.0
            else IsMean(psf[i], t.groups[d], Values(weights), PsfPixel(psfs, i))
  {
    GroupsBelow(t.Channels(), |t.groups|, t.Channels(), d);
    PsfTotal(t.groups[d], psfs, weights, size, i);
    var weight := ListSum(t.groups[d], weights);
    if weight != 0.0 {
      TimesQuotient(ListTotal(t.groups[d], psfs, weights, size)[i], weight);
    }
  }
}
