/**
 * Grouping channels for deconvolution (deconvolution/deconvolutiontable.cpp): channel i of n goes to
 * group i * groups / n.
 */
module ChannelGroups {
  import opened Common
  import opened Shares

  /** The group of a channel. */
  function GroupOf(n: nat, groups: nat, i: nat): nat
    requires n > 0
  {
    Share(groups, n, i)
  }

  /** The first channel of a group. */
  function Start(n: nat, groups: nat, d: nat): nat
    requires groups > 0
  {
    (d * n + groups - 1) / groups
  }

  lemma RoundedUp(x: nat, groups: nat, i: nat)
    requires groups > 0
    ensures (x + groups - 1) / groups <= i <==> x <= i * groups
  {
    if x <= i * groups {
      assert (i + 1) * groups == i * groups + groups;
      DivAtMost(x + groups - 1, groups, i);
    } else {
      assert (i + 1) * groups == i * groups + groups;
      DivAtLeast(x + groups - 1, groups, i + 1);
    }
  }

  lemma QuotientIs(x: nat, n: nat, d: nat)
    requires n > 0
    ensures x / n == d <==> d * n <= x < (d + 1) * n
  {
    assert (x / n) * n <= x < (x / n + 1) * n;
    if d * n <= x < (d + 1) * n {
      DivAtLeast(x, n, d);
      DivAtMost(x, n, d);
    }
  }

  /** A channel is in a group exactly if it lies between the starts of that group and the next. */
  lemma GroupIsRange(n: nat, groups: nat, i: nat, d: nat)
    requires n > 0 && groups > 0
    ensures GroupOf(n, groups, i) == d <==> Start(n, groups, d) <= i < Start(n, groups, d + 1)
  {
    QuotientIs(groups * i, n, d);
    RoundedUp(d * n, groups, i);
    RoundedUp((d + 1) * n, groups, i);
  }

  /** Group sizes differ by at most one, and the groups cover the channels. */
  lemma GroupSizes(n: nat, groups: nat, d: nat)
    requires groups > 0
    ensures Start(n, groups, d) + n / groups <= Start(n, groups, d + 1) <= Start(n, groups, d) + n / groups + 1
    ensures Start(n, groups, 0) == 0 && Start(n, groups, groups) == n
  {
    assert (d + 1) * n == d * n + n;
    DivAdds(d * n + groups - 1, n, groups);
    FirstStart(n, groups);
    LastStart(n, groups);
  }

  lemma FirstStart(n: nat, groups: nat)
    requires groups > 0
    ensures Start(n, groups, 0) == 0
  {
    assert 0 * n == 0;
    DivAtMost(groups - 1, groups, 0);
  }

  lemma LastStart(n: nat, groups: nat)
    requires groups > 0
    ensures Start(n, groups, groups) == n
  {
    assert groups * n == n * groups;
    DivAtLeast(n * groups + groups - 1, groups, n);
    assert (n + 1) * groups == n * groups + groups;
    DivAtMost(n * groups + groups - 1, groups, n);
  }

  lemma {:induction false} StartsGrow(n: nat, groups: nat, d: nat, e: nat)
    requires groups > 0 && d <= e
    ensures Start(n, groups, d) <= Start(n, groups, e)
    decreases e - d
  {
    if d < e {
      GroupSizes(n, groups, d);
      StartsGrow(n, groups, d + 1, e);
    }
  }

  /** With at least as many channels as groups, no group is empty. */
  lemma NoEmptyGroup(n: nat, groups: nat, d: nat)
    requires 0 < groups <= n && d < groups
    ensures Start(n, groups, d) < Start(n, groups, d + 1) <= n
  {
    GroupSizes(n, groups, d);
    DivAtLeast(n, groups, 1);
    StartsGrow(n, groups, d + 1, groups);
  }

  /** The channels from a to b. */
  function Range(a: nat, b: nat): (r: seq<nat>)
    requires a <= b
    ensures |r| == b - a && forall k :: 0 <= k < |r| ==> r[k] == a + k
  {
    seq(b - a, k requires 0 <= k => a + k)
  }

  /** The groups after the first i channels have been put in them. */
  function GroupsUpTo(n: nat, groups: nat, i: nat): (r: seq<seq<nat>>)
    requires 0 < groups <= n && i <= n
    ensures |r| == groups
  {
    if i == 0 then seq(groups, _ => [])
    else
      var before, d := GroupsUpTo(n, groups, i - 1), GroupOf(n, groups, i - 1);
      GroupExists(n, groups, i - 1);
      before[d := before[d] + [i - 1]]
  }

  lemma GroupExists(n: nat, groups: nat, i: nat)
    requires 0 < groups && i < n
    ensures GroupOf(n, groups, i) < groups
  {
    ShareStep(groups, n, i);
    Below(groups, i, n);
    DivAtMost(groups * i, n, groups - 1);
  }

  lemma Below(groups: nat, i: nat, n: nat)
    requires 0 < groups && i < n
    ensures groups * i < groups * n
  {
  }

  /** While the channels are put in groups, every group holds its channels so far, in order. */
  lemma {:induction false} GroupsAreRanges(n: nat, groups: nat, i: nat, d: nat)
    requires 0 < groups <= n && i <= n && d < groups
    ensures Start(n, groups, d) <= Start(n, groups, d + 1)
    ensures GroupsUpTo(n, groups, i)[d] == Range(Min(i, Start(n, groups, d)), Min(i, Start(n, groups, d + 1)))
  {
    StartsGrow(n, groups, d, d + 1);
    if i > 0 {
      GroupsAreRanges(n, groups, i - 1, d);
      GroupExists(n, groups, i - 1);
      GroupIsRange(n, groups, i - 1, d);
    }
  }

  /**
   * The groups are neighbouring runs of channels, none empty, that cover all channels; a channel is in the group of
   * the formula.
   */
  lemma GroupsPartition(n: nat, groups: nat, d: nat)
    requires 0 < groups <= n && d < groups
    ensures Start(n, groups, d) < Start(n, groups, d + 1) <= n
    ensures GroupsUpTo(n, groups, n)[d] == Range(Start(n, groups, d), Start(n, groups, d + 1))
    ensures forall i: nat {:trigger GroupOf(n, groups, i)} :: i < n ==>
            (i in GroupsUpTo(n, groups, n)[d] <==> GroupOf(n, groups, i) == d)
  {
    NoEmptyGroup(n, groups, d);
    GroupsAreRanges(n, groups, n, d);
    var range := Range(Start(n, groups, d), Start(n, groups, d + 1));
    forall i: nat | i < n ensures i in range <==> GroupOf(n, groups, i) == d {
      GroupIsRange(n, groups, i, d);
      if Start(n, groups, d) <= i < Start(n, groups, d + 1) {
        assert range[i - Start(n, groups, d)] == i;
      }
    }
  }

  // ----- the table

  datatype Entry = Entry(index: nat, originalChannelIndex: nat, imageWeight: real, frequency: real)

  /** The number of groups that the constructor makes. */
  function GroupCount(nOriginal: int, nDeconvolution: int): (r: nat)
    ensures r > 0
  {
    var n := if nOriginal > 1 then nOriginal else 1;
    if nDeconvolution <= 0 || nDeconvolution > n then n else nDeconvolution
  }

  class DeconvolutionTable {
    const channelIndexOffset: nat
    var entries: seq<Entry>
    /** Entry indices per original channel. */
    var originalGroups: seq<seq<nat>>
    /** Original channels per deconvolution group. */
    var deconvolutionGroups: seq<seq<nat>>

    /** Puts every original channel in its deconvolution group. */
    constructor (nOriginalGroups: int, nDeconvolutionGroups: int, channelIndexOffset: nat)
      ensures entries == [] && this.channelIndexOffset == channelIndexOffset
      ensures |originalGroups| == if nOriginalGroups > 1 then nOriginalGroups else 1
      ensures forall c :: 0 <= c < |originalGroups| ==> originalGroups[c] == []
      ensures nOriginalGroups >= 1 ==>
                deconvolutionGroups ==
                  GroupsUpTo(nOriginalGroups, GroupCount(nOriginalGroups, nDeconvolutionGroups), nOriginalGroups)
      ensures nOriginalGroups <= 0 ==> deconvolutionGroups == [[]]
      ensures |deconvolutionGroups| ==
                if 1 <= nDeconvolutionGroups <= nOriginalGroups then nDeconvolutionGroups else |originalGroups|
    {
      this.channelIndexOffset := channelIndexOffset;
      entries := [];
      originalGroups := seq(if nOriginalGroups > 1 then nOriginalGroups else 1, _ => []);
      var groups: seq<seq<nat>> := seq(GroupCount(nOriginalGroups, nDeconvolutionGroups), _ => []);
      var i: nat := 0;
      while i < nOriginalGroups
        invariant nOriginalGroups >= 1 ==> i <= nOriginalGroups
        invariant |groups| == GroupCount(nOriginalGroups, nDeconvolutionGroups)
        invariant nOriginalGroups >= 1 ==> groups == GroupsUpTo(nOriginalGroups, |groups|, i)
        invariant nOriginalGroups <= 0 ==> groups == [[]]
      {
        GroupExists(nOriginalGroups, |groups|, i);
        var d := GroupOf(nOriginalGroups, |groups|, i);
        groups := groups[d := groups[d] + [i]];
        i := i + 1;
      }
      deconvolutionGroups := groups;
    }

    /** Adds an entry to its original channel; its index is its place in the table. */
    method AddEntry(originalChannelIndex: nat, imageWeight: real, frequency: real)
      requires originalChannelIndex < |originalGroups|
      modifies this
      ensures entries == old(entries) + [Entry(|old(entries)|, originalChannelIndex, imageWeight, frequency)]
      ensures originalGroups == old(originalGroups)[originalChannelIndex := old(originalGroups)[originalChannelIndex] +
              [|old(entries)|]]
      ensures deconvolutionGroups == old(deconvolutionGroups)
    {
      var entry := Entry(|entries|, originalChannelIndex, imageWeight, frequency);
      entries := entries + [entry];
      originalGroups := originalGroups[originalChannelIndex := originalGroups[originalChannelIndex] + [entry.index]];
    }
  }

  /** For a requested number of channels, no deconvolution group is empty exactly if there is at least one channel. */
  lemma GroupsFilledIffChannels(nOriginal: int, nDeconvolution: int, made: seq<seq<nat>>)
    requires made == if nOriginal >= 1 then GroupsUpTo(nOriginal, GroupCount(nOriginal, nDeconvolution), nOriginal)
             else [[]]
    ensures (forall d :: 0 <= d < |made| ==> made[d] != []) <==> nOriginal >= 1
  {
    if nOriginal >= 1 {
      forall d | 0 <= d < |made| ensures made[d] != [] {
        GroupsPartition(nOriginal, GroupCount(nOriginal, nDeconvolution), d);
      }
    } else {
      assert made[0] == [];
    }
  }
}
