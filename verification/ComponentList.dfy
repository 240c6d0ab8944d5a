/**
 * The list of clean components (deconvolution/componentlist.h), one list per scale, which is merged only
 * now and then: what it adds up to never changes by merging.
 */
module ComponentList {
  import RowMajor
  import opened BlockLists
  import opened ComponentSums

  datatype Position = Position(x: nat, y: nat)

  function Flat(width: nat, p: Position): nat { p.x + p.y * width }

  function Flats(width: nat, positions: seq<Position>): (r: seq<nat>)
    ensures |r| == |positions|
  {
    seq(|positions|, k requires 0 <= k < |positions| => Flat(width, positions[k]))
  }

  lemma FlatsGrow(width: nat, positions: seq<Position>, p: Position)
    ensures Flats(width, positions + [p]) == Flats(width, positions) + [Flat(width, p)]
  {
  }

  predicate InImage(width: nat, height: nat, positions: seq<Position>) {
    forall k {:trigger positions[k]} :: 0 <= k < |positions| ==> positions[k].x < width && positions[k].y < height
  }

  lemma FlatsInside(width: nat, height: nat, positions: seq<Position>)
    requires InImage(width, height, positions)
    ensures forall k :: 0 <= k < |positions| ==> Flats(width, positions)[k] < width * height
  {
    forall k | 0 <= k < |positions| ensures Flats(width, positions)[k] < width * height {
      RowMajor.Fits(width, height, positions[k].x, positions[k].y);
    }
  }

  datatype ScaleList = ScaleList(positions: seq<Position>, values: seq<real>)

  ghost predicate ListFits(width: nat, height: nat, nF: nat, list: ScaleList) {
    InImage(width, height, list.positions) && Sized(Flats(width, list.positions), list.values, nF)
  }

  ghost predicate IsMerged(width: nat, nF: nat, list: ScaleList)
    requires Sized(Flats(width, list.positions), list.values, nF)
  {
    NoDuplicates(Flats(width, list.positions)) && NonZero(Flats(width, list.positions), list.values, nF)
  }

  /** What a list adds up to, at all positions. */
  ghost function TotalsOfList(width: nat, height: nat, nF: nat, list: ScaleList): (t: Totals)
    requires ListFits(width, height, nF, list)
    ensures TotalsFit(t, nF, width * height)
  {
    TotalsOf(Flats(width, list.positions), list.values, nF, width * height)
  }

  // ----- merging one list

  /** The images hold the sums of the first n components. */
  ghost predicate Accumulated(images: array2<real>, flats: seq<nat>, values: seq<real>, nF: nat)
    requires Sized(flats, values, nF) && images.Length0 == nF
    reads images
  {
    forall f: nat, q: nat {:trigger images[f, q]} :: f < nF && q < images.Length1 ==>
      images[f, q] == SumAt(flats, values, nF, q, f)
  }

  method AddBlock(images: array2<real>, p: nat, block: seq<real>, ghost flats: seq<nat>, ghost values: seq<real>,
          nF: nat)
    requires Sized(flats, values, nF) && images.Length0 == nF == |block| && p < images.Length1 &&
             Accumulated(images, flats, values, nF)
    modifies images
    ensures Sized(flats + [p], values + block, nF) && Accumulated(images, flats + [p], values + block, nF)
  {
    for frequency := 0 to nF
      invariant forall f: nat, q: nat {:trigger images[f, q]} :: f < nF && q < images.Length1 ==>
        images[f, q] == SumAt(flats, values, nF, q, f) + if q == p && f < frequency then block[f] else 0.0
    {
      images[frequency, p] := images[frequency, p] + block[frequency];
    }
    forall f: nat, q: nat | f < nF && q < images.Length1
      ensures images[f, q] == SumAt(flats + [p], values + block, nF, q, f) {
      SumGrows(flats, values, nF, p, block, q, f);
    }
  }

  method Accumulate(width: nat, height: nat, nF: nat, list: ScaleList) returns (images: array2<real>)
    requires ListFits(width, height, nF, list)
    ensures fresh(images) && images.Length0 == nF && images.Length1 == width * height
    ensures forall f: nat, q: nat {:trigger images[f, q]} :: f < nF && q < width * height ==>
            images[f, q] == TotalsOfList(width, height, nF, list)[f][q]
  {
    images := new real[nF, width * height]((_, _) => 0.0);
    ghost var flats := Flats(width, list.positions);
    var valueIndex := 0;
    FlatsInside(width, height, list.positions);
    for index := 0 to |list.positions|
      invariant valueIndex == ValueCount(index, nF) <= |list.values| &&
                Accumulated(images, flats[..index], list.values[..valueIndex], nF)
    {
      NextBlock(flats, list.values, nF, index);
      var position := Flat(width, list.positions[index]);
      AddBlock(images, position, list.values[valueIndex..valueIndex + nF], flats[..index], list.values[..valueIndex],
          nF);
      valueIndex := valueIndex + nF;
    }
    assert flats[..|flats|] == flats && list.values[..|list.values|] == list.values;
  }

  lemma NextBlock(flats: seq<nat>, values: seq<real>, nF: nat, index: nat)
    requires Sized(flats, values, nF) && index < |flats|
    ensures var valueIndex := ValueCount(index, nF);
            ValueCount(index + 1, nF) == valueIndex + nF <= |values| &&
            flats[..index + 1] == flats[..index] + [flats[index]] &&
            values[..valueIndex + nF] == values[..valueIndex] + values[valueIndex..valueIndex + nF]
  {
    ValueCountGrows(index + 1, |flats|, nF);
  }

  /** While listing: positions and values so far, and the images with zeros where positions are listed. */
  ghost predicate Listing(t: Totals, width: nat, nF: nat, n: nat, images: array2<real>, list: ScaleList, f: nat, q: nat)
    requires TotalsFit(t, nF, n) && q <= n && (f < nF || q == 0) && f <= nF
    reads images
  {
    images.Length0 == nF && images.Length1 == n && Flats(width, list.positions) == Listed(t, nF, n, f, q) &&
    list.values == Blocks(t, nF, n, Listed(t, nF, n, f, q)) &&
    forall g: nat, p: nat {:trigger images[g, p]} :: g < nF && p < n ==>
      images[g, p] == if IsListed(t, nF, n, f, q, p) then 0.0 else t[g][p]
  }

  /** Takes the values of a position from the images, leaving zeros. */
  method TakeBlock(images: array2<real>, p: nat) returns (block: seq<real>)
    requires p < images.Length1
    modifies images
    ensures |block| == images.Length0 && forall g :: 0 <= g < |block| ==> block[g] == old(images[g, p])
    ensures forall g: nat, q: nat {:trigger images[g, q]} :: g < images.Length0 && q < images.Length1 ==>
            images[g, q] == if q == p then 0.0 else old(images[g, q])
  {
    block := [];
    for i := 0 to images.Length0
      invariant |block| == i && forall g :: 0 <= g < i ==> block[g] == old(images[g, p])
      invariant forall g: nat, q: nat {:trigger images[g, q]} :: g < images.Length0 && q < images.Length1 ==>
        images[g, q] == if q == p && g < i then 0.0 else old(images[g, q])
    {
      block := block + [images[i, p]];
      images[i, p] := 0.0;
    }
  }

  lemma ListedNext(t: Totals, nF: nat, n: nat, f: nat, q: nat, value: real)
    requires TotalsFit(t, nF, n) && q < n && f < nF && value == if IsListed(t, nF, n, f, q, q) then 0.0 else t[f][q]
    ensures value != 0.0 <==> Rank(t, q, 0) == f
    ensures value != 0.0 ==> !IsListed(t, nF, n, f, q, q)
    ensures Listed(t, nF, n, f, q + 1) == if value != 0.0 then Listed(t, nF, n, f, q) + [q] else Listed(t, nF, n, f, q)
    ensures forall p: nat {:trigger IsListed(t, nF, n, f, q + 1, p)} :: p < n ==>
              (IsListed(t, nF, n, f, q + 1, p) <==> IsListed(t, nF, n, f, q, p) || (value != 0.0 && p == q))
  {
  }

  lemma BlocksGrow(t: Totals, nF: nat, n: nat, flats: seq<nat>, q: nat)
    requires TotalsFit(t, nF, n) && (forall k :: 0 <= k < |flats| ==> flats[k] < n) && q < n
    ensures Blocks(t, nF, n, flats + [q]) == Blocks(t, nF, n, flats) + Block(t, q)
  {
    assert (flats + [q])[..|flats|] == flats;
  }

  /** One position of the scan over an image: listed if it is not zero. */
  method ListPosition(ghost t: Totals, width: nat, height: nat, nF: nat, n: nat, images: array2<real>, list: ScaleList,
          f: nat, x: nat, y: nat, posIndex: nat)
    returns (list': ScaleList)
    requires TotalsFit(t, nF, n) && f < nF && posIndex < n && posIndex == Flat(width, Position(x, y))
    requires x < width && y < height && InImage(width, height, list.positions)
    requires Listing(t, width, nF, n, images, list, f, posIndex)
    modifies images
    ensures Listing(t, width, nF, n, images, list', f, posIndex + 1)
    ensures InImage(width, height, list'.positions)
  {
    list' := list;
    ListedNext(t, nF, n, f, posIndex, images[f, posIndex]);
    if images[f, posIndex] != 0.0 {
      var block := TakeBlock(images, posIndex);
      assert block == Block(t, posIndex);
      BlocksGrow(t, nF, n, Listed(t, nF, n, f, posIndex), posIndex);
      FlatsGrow(width, list.positions, Position(x, y));
      list' := ScaleList(list.positions + [Position(x, y)], list.values + block);
    }
  }

  /** mergeDuplicates: the list with every position once. */
  method MergeList(width: nat, height: nat, nF: nat, list: ScaleList) returns (merged: ScaleList)
    requires ListFits(width, height, nF, list)
    ensures ListFits(width, height, nF, merged)
    ensures Flats(width, merged.positions) == MergedFlats(TotalsOfList(width, height, nF, list), nF, width * height)
    ensures merged.values == MergedValues(TotalsOfList(width, height, nF, list), nF, width * height)
  {
    ghost var t := TotalsOfList(width, height, nF, list);
    var n := width * height;
    ValueCountIsProduct(height, width);
    var images := Accumulate(width, height, nF, list);
    merged := ScaleList([], []);
    for imageIndex := 0 to nF
      invariant InImage(width, height, merged.positions) && Listing(t, width, nF, n, images, merged, imageIndex, 0)
    {
      merged := ListImage(t, width, height, nF, n, images, merged, imageIndex);
    }
  }

  method ListRow(ghost t: Totals, width: nat, height: nat, nF: nat, n: nat, images: array2<real>, list: ScaleList,
          f: nat, y: nat, rowStart: nat) returns (list': ScaleList)
    requires TotalsFit(t, nF, n) && f < nF && y < height && rowStart == ValueCount(y, width) && rowStart + width <= n
    requires InImage(width, height, list.positions) && Listing(t, width, nF, n, images, list, f, rowStart)
    modifies images
    ensures InImage(width, height, list'.positions) && Listing(t, width, nF, n, images, list', f, rowStart + width)
  {
    list' := list;
    ValueCountIsProduct(y, width);
    for x := 0 to width
      invariant InImage(width, height, list'.positions) && Listing(t, width, nF, n, images, list', f, rowStart + x)
    {
      list' := ListPosition(t, width, height, nF, n, images, list', f, x, y, rowStart + x);
    }
  }

  method ListImage(ghost t: Totals, width: nat, height: nat, nF: nat, n: nat, images: array2<real>, list: ScaleList,
          f: nat) returns (list': ScaleList)
    requires n == ValueCount(height, width) && TotalsFit(t, nF, n) && f < nF && InImage(width, height, list.positions)
    requires Listing(t, width, nF, n, images, list, f, 0)
    modifies images
    ensures InImage(width, height, list'.positions) && Listing(t, width, nF, n, images, list', f + 1, 0)
  {
    list' := list;
    var posIndex := 0;
    for y := 0 to height
      invariant posIndex == ValueCount(y, width) <= n
      invariant InImage(width, height, list'.positions) && Listing(t, width, nF, n, images, list', f, posIndex)
    {
      ValueCountGrows(y + 1, height, width);
      list' := ListRow(t, width, height, nF, n, images, list', f, y, posIndex);
      posIndex := posIndex + width;
    }
    NextImage(t, width, nF, n, images, list', f);
  }

  lemma NextImage(t: Totals, width: nat, nF: nat, n: nat, images: array2<real>, list: ScaleList, f: nat)
    requires TotalsFit(t, nF, n) && f < nF && Listing(t, width, nF, n, images, list, f, n)
    ensures Listing(t, width, nF, n, images, list, f + 1, 0)
  {
    forall p: nat | p < n ensures IsListed(t, nF, n, f, n, p) <==> IsListed(t, nF, n, f + 1, 0, p) {
    }
  }

  // ----- the list over all scales

  /** What a list adds at a position and frequency. */
  ghost function ListSum(width: nat, height: nat, nF: nat, list: ScaleList, q: nat, f: nat): real
    requires ListFits(width, height, nF, list) && f < nF
  {
    SumAt(Flats(width, list.positions), list.values, nF, q, f)
  }

  /** Merging a list keeps its sums at all positions of the image, and leaves every position once and no zeros. */
  lemma MergeKeeps(width: nat, height: nat, nF: nat, list: ScaleList, merged: ScaleList)
    requires ListFits(width, height, nF, list) && ListFits(width, height, nF, merged)
    requires Flats(width, merged.positions) == MergedFlats(TotalsOfList(width, height, nF, list), nF, width * height)
    requires merged.values == MergedValues(TotalsOfList(width, height, nF, list), nF, width * height)
    ensures IsMerged(width, nF, merged) && SameSums(width, height, nF, list, merged)
  {
    var t, n := TotalsOfList(width, height, nF, list), width * height;
    MergedKeepsSums(t, nF, n);
    forall q: nat, f: nat | q < n && f < nF
      ensures ListSum(width, height, nF, merged, q, f) == ListSum(width, height, nF, list, q, f) {
      assert SumAt(MergedFlats(t, nF, n), MergedValues(t, nF, n), nF, q, f) == t[f][q];
    }
  }

  ghost predicate SameSums(width: nat, height: nat, nF: nat, a: ScaleList, b: ScaleList)
    requires ListFits(width, height, nF, a) && ListFits(width, height, nF, b)
  {
    forall q: nat, f: nat {:trigger ListSum(width, height, nF, b, q, f)} ::
      q < width * height && f < nF ==> ListSum(width, height, nF, b, q, f) == ListSum(width, height, nF, a, q, f)
  }

  lemma AddKeeps(width: nat, height: nat, nF: nat, list: ScaleList, p: Position, block: seq<real>)
    requires ListFits(width, height, nF, list) && p.x < width && p.y < height && |block| == nF
    ensures var more := ScaleList(list.positions + [p], list.values + block);
            ListFits(width, height, nF, more) &&
            forall q: nat, f: nat {:trigger ListSum(width, height, nF, more, q, f)} :: f < nF ==>
              ListSum(width, height, nF, more, q, f) ==
                  ListSum(width, height, nF, list, q, f) + if Flat(width, p) == q then block[f] else 0.0
  {
    FlatsGrow(width, list.positions, p);
    forall q: nat, f: nat | f < nF
      ensures Sized(Flats(width, list.positions + [p]), list.values + block, nF)
      ensures SumAt(Flats(width, list.positions + [p]), list.values + block, nF, q, f) ==
              SumAt(Flats(width, list.positions), list.values, nF, q, f) + if Flat(width, p) == q then block[f] else 0.0
    {
      SumGrows(Flats(width, list.positions), list.values, nF, Flat(width, p), block, q, f);
    }
  }

  ghost predicate AllFit(width: nat, height: nat, nF: nat, lists: seq<ScaleList>) {
    forall s {:trigger lists[s]} :: 0 <= s < |lists| ==> ListFits(width, height, nF, lists[s])
  }

  /** What the lists add at a scale, position and frequency; nothing at scales that do not exist. */
  ghost function SumOf(width: nat, height: nat, nF: nat, lists: seq<ScaleList>, s: nat, q: nat, f: nat): real
    requires AllFit(width, height, nF, lists) && f < nF
  {
    if s < |lists| then ListSum(width, height, nF, lists[s], q, f) else 0.0
  }

  class List {
    const width: nat
    const height: nat
    const nFrequencies: nat
    const maxComponentsBeforeMerge: nat
    var componentsAddedSinceLastMerge: nat
    var listPerScale: seq<ScaleList>

    ghost predicate Valid()
      reads this
    {
      AllFit(width, height, nFrequencies, listPerScale) &&
      (componentsAddedSinceLastMerge == 0 ==>
         forall s {:trigger listPerScale[s]} :: 0 <= s < |listPerScale| ==>
           IsMerged(width, nFrequencies, listPerScale[s]))
    }

    ghost function Sum(s: nat, q: nat, f: nat): real
      requires Valid() && f < nFrequencies
      reads this
    {
      SumOf(width, height, nFrequencies, listPerScale, s, q, f)
    }

    constructor (width: nat, height: nat, nScales: nat, nFrequencies: nat, maxComponentsBeforeMerge: nat)
      ensures Valid() && this.width == width && this.height == height && this.nFrequencies == nFrequencies &&
              |listPerScale| == nScales
      ensures this.maxComponentsBeforeMerge == maxComponentsBeforeMerge && componentsAddedSinceLastMerge == 0
      ensures forall s: nat, q: nat, f: nat {:trigger Sum(s, q, f)} :: f < nFrequencies ==> Sum(s, q, f) == 0.0
    {
      this.width, this.height, this.nFrequencies := width, height, nFrequencies;
      this.maxComponentsBeforeMerge, componentsAddedSinceLastMerge := maxComponentsBeforeMerge, 0;
      listPerScale := seq(nScales, _ => ScaleList([], []));
    }

    /** Merges all scales, unless nothing was added since the last time. */
    method MergeDuplicates()
      requires Valid()
      modifies this
      ensures Valid() && componentsAddedSinceLastMerge == 0 && |listPerScale| == old(|listPerScale|)
      ensures old(componentsAddedSinceLastMerge) == 0 ==> listPerScale == old(listPerScale)
      ensures forall s: nat, q: nat, f: nat {:trigger Sum(s, q, f)} :: q < width * height && f < nFrequencies ==>
              Sum(s, q, f) == old(Sum(s, q, f))
    {
      if componentsAddedSinceLastMerge != 0 {
        listPerScale := MergeAll(width, height, nFrequencies, listPerScale);
        componentsAddedSinceLastMerge := 0;
      }
    }

    /** Adds a component; after enough of them, all duplicates are merged. */
    method Add(x: nat, y: nat, scaleIndex: nat, values: seq<real>)
      requires Valid() && x < width && y < height && scaleIndex < |listPerScale| && |values| == nFrequencies
      modifies this
      ensures Valid() && |listPerScale| == old(|listPerScale|)
      ensures forall s: nat, q: nat, f: nat {:trigger Sum(s, q, f)} :: q < width * height && f < nFrequencies ==>
        Sum(s, q, f) == old(Sum(s, q, f)) + if s == scaleIndex && q == Flat(width, Position(x, y)) then values[f]
            else 0.0
      ensures componentsAddedSinceLastMerge ==
                if old(componentsAddedSinceLastMerge) + 1 >= maxComponentsBeforeMerge then 0
                else old(componentsAddedSinceLastMerge) + 1
    {
      var list := listPerScale[scaleIndex];
      AddKeeps(width, height, nFrequencies, list, Position(x, y), values);
      listPerScale := listPerScale[scaleIndex := ScaleList(list.positions + [Position(x, y)], list.values + values)];
      componentsAddedSinceLastMerge := componentsAddedSinceLastMerge + 1;
      if componentsAddedSinceLastMerge >= maxComponentsBeforeMerge {
        MergeDuplicates();
      }
    }
  }

  // ----- adding another list

  predicate ShiftFits(width: nat, height: nat, dx: int, dy: int, positions: seq<Position>) {
    forall k {:trigger positions[k]} :: 0 <= k < |positions| ==>
      0 <= positions[k].x + dx < width && 0 <= positions[k].y + dy < height
  }

  /** The flat indices of shifted positions. */
  function ShiftedFlats(width: nat, height: nat, dx: int, dy: int, positions: seq<Position>): (r: seq<nat>)
    requires ShiftFits(width, height, dx, dy, positions)
    ensures |r| == |positions|
  {
    seq(|positions|, k requires 0 <= k < |positions| => Flat(width, Position(positions[k].x + dx, positions[k].y + dy)))
  }

  /** What the first n components of a list add at a position and frequency, when shifted. */
  ghost function ShiftedSum(width: nat, height: nat, nF: nat, dx: int, dy: int, list: ScaleList, n: nat, q: nat,
          f: nat): real
    requires ShiftFits(width, height, dx, dy, list.positions) && |list.values| == ValueCount(|list.positions|, nF) &&
             n <= |list.positions| && f < nF
  {
    ValueCountGrows(n, |list.positions|, nF);
    SumAt(ShiftedFlats(width, height, dx, dy, list.positions)[..n], list.values[..ValueCount(n, nF)], nF, q, f)
  }

  /** One component more of the shifted list. */
  lemma ShiftedNextAt(width: nat, height: nat, nF: nat, dx: int, dy: int, list: ScaleList, n: nat, q: nat, f: nat)
    requires ShiftFits(width, height, dx, dy, list.positions) && |list.values| == ValueCount(|list.positions|, nF) &&
             n < |list.positions| && f < nF
    ensures var v := ValueCount(n, nF);
            v + nF <= |list.values| && 0 <= list.positions[n].x + dx && 0 <= list.positions[n].y + dy &&
            ShiftedSum(width, height, nF, dx, dy, list, n + 1, q, f) ==
              ShiftedSum(width, height, nF, dx, dy, list, n, q, f) +
                if q == Flat(width, Position(list.positions[n].x + dx, list.positions[n].y + dy))
                  then list.values[v..v + nF][f] else 0.0
  {
    var flats, v := ShiftedFlats(width, height, dx, dy, list.positions), ValueCount(n, nF);
    NextBlock(flats, list.values, nF, n);
    SumGrows(flats[..n], list.values[..v], nF, flats[n], list.values[v..v + nF], q, f);
  }

  lemma ShiftedNext(width: nat, height: nat, nF: nat, dx: int, dy: int, list: ScaleList, n: nat)
    requires ShiftFits(width, height, dx, dy, list.positions) && |list.values| == ValueCount(|list.positions|, nF) &&
             n < |list.positions|
    ensures var v := ValueCount(n, nF);
            v + nF <= |list.values| && 0 <= list.positions[n].x + dx && 0 <= list.positions[n].y + dy &&
            forall q: nat, f: nat {:trigger ShiftedSum(width, height, nF, dx, dy, list, n + 1, q, f)} :: f < nF ==>
              ShiftedSum(width, height, nF, dx, dy, list, n + 1, q, f) ==
                  ShiftedSum(width, height, nF, dx, dy, list, n, q, f) +
                if q == Flat(width, Position(list.positions[n].x + dx, list.positions[n].y + dy))
                    then list.values[v..v + nF][f] else 0.0
  {
    var v := ValueCount(n, nF);
    NextBlock(ShiftedFlats(width, height, dx, dy, list.positions), list.values, nF, n);
    forall q: nat, f: nat | f < nF
      ensures ShiftedSum(width, height, nF, dx, dy, list, n + 1, q, f) ==
              ShiftedSum(width, height, nF, dx, dy, list, n, q, f) +
                if q == Flat(width, Position(list.positions[n].x + dx, list.positions[n].y + dy))
                  then list.values[v..v + nF][f] else 0.0
    {
      ShiftedNextAt(width, height, nF, dx, dy, list, n, q, f);
    }
  }

  lemma ShiftedPosition(width: nat, otherWidth: nat, p: Position, dx: int, dy: int, x: nat, y: nat)
    requires p.x < otherWidth && 0 <= p.x + dx < width && 0 <= p.y + dy && x < width
    requires 0 <= x - dx < otherWidth && 0 <= y - dy
    ensures Flat(width, Position(p.x + dx, p.y + dy)) == Flat(width, Position(x, y)) <==>
            Flat(otherWidth, p) == Flat(otherWidth, Position(x - dx, y - dy))
  {
    RowMajor.Splits(width, p.x + dx, p.y + dy);
    RowMajor.Splits(width, x, y);
    RowMajor.Splits(otherWidth, p.x, p.y);
    RowMajor.Splits(otherWidth, x - dx, y - dy);
  }

  lemma OtherPosition(width: nat, otherWidth: nat, p: Position, dx: int, dy: int, x: nat, y: nat)
    requires p.x < otherWidth && 0 <= p.x + dx < width && 0 <= p.y + dy && x < width
    requires !(0 <= x - dx < otherWidth && 0 <= y - dy)
    ensures Flat(width, Position(p.x + dx, p.y + dy)) != Flat(width, Position(x, y))
  {
    RowMajor.Splits(width, p.x + dx, p.y + dy);
    RowMajor.Splits(width, x, y);
  }

  /** The shifted sum at (x, y) is the sum of the other list at (x - dx, y - dy), or nothing outside its image. */
  lemma {:induction false} ShiftedIsOther(width: nat, height: nat, nF: nat, dx: int, dy: int, otherWidth: nat,
                                          otherHeight: nat, list: ScaleList, n: nat, x: nat, y: nat, f: nat)
    requires ShiftFits(width, height, dx, dy, list.positions) && ListFits(otherWidth, otherHeight, nF, list)
    requires n <= |list.positions| && f < nF && x < width && y < height
    ensures ValueCount(n, nF) <= |list.values|
    ensures ShiftedSum(width, height, nF, dx, dy, list, n, Flat(width, Position(x, y)), f) ==
            if 0 <= x - dx < otherWidth && 0 <= y - dy then
              SumAt(Flats(otherWidth, list.positions)[..n], list.values[..ValueCount(n, nF)], nF,
                  Flat(otherWidth, Position(x - dx, y - dy)), f)
            else 0.0
  {
    ValueCountGrows(n, |list.positions|, nF);
    if n > 0 {
      var v, p := ValueCount(n - 1, nF), list.positions[n - 1];
      ShiftedIsOther(width, height, nF, dx, dy, otherWidth, otherHeight, list, n - 1, x, y, f);
      ShiftedNextAt(width, height, nF, dx, dy, list, n - 1, Flat(width, Position(x, y)), f);
      if 0 <= x - dx < otherWidth && 0 <= y - dy {
        ShiftedPosition(width, otherWidth, p, dx, dy, x, y);
        OtherNext(nF, otherWidth, list, n, Flat(otherWidth, Position(x - dx, y - dy)), f);
      } else {
        OtherPosition(width, otherWidth, p, dx, dy, x, y);
      }
    }
  }

  lemma OtherNext(nF: nat, otherWidth: nat, list: ScaleList, n: nat, q: nat, f: nat)
    requires Sized(Flats(otherWidth, list.positions), list.values, nF) && 0 < n <= |list.positions| && f < nF
    ensures var flats, v := Flats(otherWidth, list.positions), ValueCount(n - 1, nF);
            v + nF == ValueCount(n, nF) <= |list.values| &&
            SumAt(flats[..n], list.values[..v + nF], nF, q, f) ==
              SumAt(flats[..n - 1], list.values[..v], nF, q, f) +
                if q == flats[n - 1] then list.values[v..v + nF][f] else 0.0
  {
    var flats, v := Flats(otherWidth, list.positions), ValueCount(n - 1, nF);
    NextBlock(flats, list.values, nF, n - 1);
    ValueCountGrows(n - 1, |list.positions|, nF);
    SumGrows(flats[..n - 1], list.values[..v], nF, flats[n - 1], list.values[v..v + nF], q, f);
  }

  ghost predicate OtherFits(width: nat, height: nat, nF: nat, dx: int, dy: int, lists: seq<ScaleList>) {
    forall s {:trigger lists[s]} :: 0 <= s < |lists| ==>
      ShiftFits(width, height, dx, dy, lists[s].positions) && |lists[s].values| == ValueCount(|lists[s].positions|, nF)
  }

  /** What the scales before `scale`, and the first n components of that scale, add. */
  ghost function Gained(width: nat, height: nat, nF: nat, dx: int, dy: int, lists: seq<ScaleList>, scale: nat, n: nat,
          s: nat, q: nat, f: nat): real
    requires OtherFits(width, height, nF, dx, dy, lists) && f < nF &&
             (scale < |lists| ==> n <= |lists[scale].positions|)
  {
    if s >= |lists| || s > scale then 0.0
    else ShiftedSum(width, height, nF, dx, dy, lists[s], if s < scale then |lists[s].positions| else n, q, f)
  }

  /** Adds one component of another list. */
  method AddOne(to: List, lists: seq<ScaleList>, dx: int, dy: int, scale: nat, i: nat)
    requires to.Valid() && OtherFits(to.width, to.height, to.nFrequencies, dx, dy, lists) &&
             scale < |lists| <= |to.listPerScale| && i < |lists[scale].positions|
    modifies to
    ensures to.Valid() && |to.listPerScale| == old(|to.listPerScale|)
    ensures forall s: nat, q: nat, f: nat {:trigger to.Sum(s, q, f)} ::
              q < to.width * to.height && f < to.nFrequencies ==>
      to.Sum(s, q, f) - Gained(to.width, to.height, to.nFrequencies, dx, dy, lists, scale, i + 1, s, q, f) ==
      old(to.Sum(s, q, f)) - Gained(to.width, to.height, to.nFrequencies, dx, dy, lists, scale, i, s, q, f)
  {
    var list, nF := lists[scale], to.nFrequencies;
    ShiftedNext(to.width, to.height, nF, dx, dy, list, i);
    var v := ValueCount(i, nF);
    to.Add(list.positions[i].x + dx, list.positions[i].y + dy, scale, list.values[v..v + nF]);
    forall s: nat, q: nat, f: nat | q < to.width * to.height && f < nF
      ensures to.Sum(s, q, f) - Gained(to.width, to.height, nF, dx, dy, lists, scale, i + 1, s, q, f) ==
              old(to.Sum(s, q, f)) - Gained(to.width, to.height, nF, dx, dy, lists, scale, i, s, q, f) {
      var next := i + 1;
      assert s == scale ==>
          Gained(to.width, to.height, nF, dx, dy, lists, scale, next, s, q, f) ==
            ShiftedSum(to.width, to.height, nF, dx, dy, list, i + 1, q, f);
    }
  }

  /** The sums of a list, above what was gained. */
  ghost predicate GainedOver(to: List, was: seq<ScaleList>, lists: seq<ScaleList>, dx: int, dy: int, scale: nat, n: nat)
    requires to.Valid() && OtherFits(to.width, to.height, to.nFrequencies, dx, dy, lists) &&
             AllFit(to.width, to.height, to.nFrequencies, was)
    requires scale < |lists| ==> n <= |lists[scale].positions|
    reads to
  {
    forall s: nat, q: nat, f: nat {:trigger to.Sum(s, q, f)} :: q < to.width * to.height && f < to.nFrequencies ==>
      to.Sum(s, q, f) == SumOf(to.width, to.height, to.nFrequencies, was, s, q, f) +
          Gained(to.width, to.height, to.nFrequencies, dx, dy, lists, scale, n, s, q, f)
  }

  /** Adds another list with an offset: every sum grows by the shifted sum of the other list. */
  method AddList(to: List, other: List, offsetX: int, offsetY: int)
    requires to != other && to.Valid() && other.Valid() && other.nFrequencies == to.nFrequencies
    requires OtherFits(to.width, to.height, to.nFrequencies, offsetX, offsetY, other.listPerScale)
    modifies to
    ensures to.Valid() && AllFit(to.width, to.height, to.nFrequencies, old(to.listPerScale))
    ensures GainedOver(to, old(to.listPerScale), other.listPerScale, offsetX, offsetY, |other.listPerScale|, 0)
  {
    ghost var was := to.listPerScale;
    var lists := other.listPerScale;
    if |lists| > |to.listPerScale| {
      to.listPerScale := to.listPerScale + seq(|lists| - |to.listPerScale|, _ => ScaleList([], []));
    }
    NothingGained(to, was, lists, offsetX, offsetY);
    for scale := 0 to |lists|
      invariant to.Valid() && |lists| <= |to.listPerScale| && GainedOver(to, was, lists, offsetX, offsetY, scale, 0)
    {
      AddScale(to, was, lists, offsetX, offsetY, scale);
    }
  }

  lemma NothingGained(to: List, was: seq<ScaleList>, lists: seq<ScaleList>, dx: int, dy: int)
    requires to.Valid() && OtherFits(to.width, to.height, to.nFrequencies, dx, dy, lists) &&
             AllFit(to.width, to.height, to.nFrequencies, was)
    requires was <= to.listPerScale && forall s {:trigger to.listPerScale[s]} :: |was| <= s < |to.listPerScale| ==>
             to.listPerScale[s] == ScaleList([], [])
    ensures GainedOver(to, was, lists, dx, dy, 0, 0)
  {
    forall s: nat, q: nat, f: nat | q < to.width * to.height && f < to.nFrequencies
      ensures to.Sum(s, q, f) == SumOf(to.width, to.height, to.nFrequencies, was, s, q, f) +
              Gained(to.width, to.height, to.nFrequencies, dx, dy, lists, 0, 0, s, q, f) {
      if s < |was| {
        assert to.listPerScale[s] == was[s];
      }
    }
  }

  /** Adds all components of one scale of another list. */
  method AddScale(to: List, ghost was: seq<ScaleList>, lists: seq<ScaleList>, dx: int, dy: int, scale: nat)
    requires to.Valid() && OtherFits(to.width, to.height, to.nFrequencies, dx, dy, lists) &&
             scale < |lists| <= |to.listPerScale|
    requires AllFit(to.width, to.height, to.nFrequencies, was) && GainedOver(to, was, lists, dx, dy, scale, 0)
    modifies to
    ensures to.Valid() && |lists| <= |to.listPerScale| && GainedOver(to, was, lists, dx, dy, scale + 1, 0)
  {
    for i := 0 to |lists[scale].positions|
      invariant to.Valid() && |lists| <= |to.listPerScale| && GainedOver(to, was, lists, dx, dy, scale, i)
    {
      AddOne(to, lists, dx, dy, scale, i);
    }
    ScaleGained(to, was, lists, dx, dy, scale);
  }

  lemma ScaleGained(to: List, was: seq<ScaleList>, lists: seq<ScaleList>, dx: int, dy: int, scale: nat)
    requires to.Valid() && OtherFits(to.width, to.height, to.nFrequencies, dx, dy, lists) &&
             AllFit(to.width, to.height, to.nFrequencies, was)
    requires scale < |lists| && GainedOver(to, was, lists, dx, dy, scale, |lists[scale].positions|)
    ensures GainedOver(to, was, lists, dx, dy, scale + 1, 0)
  {
    forall s: nat, q: nat, f: nat | q < to.width * to.height && f < to.nFrequencies
      ensures to.Sum(s, q, f) == SumOf(to.width, to.height, to.nFrequencies, was, s, q, f) +
              Gained(to.width, to.height, to.nFrequencies, dx, dy, lists, scale + 1, 0, s, q, f) {
    }
  }

  /** Merges every scale. */
  method MergeAll(width: nat, height: nat, nF: nat, lists: seq<ScaleList>) returns (merged: seq<ScaleList>)
    requires AllFit(width, height, nF, lists)
    ensures |merged| == |lists| && AllFit(width, height, nF, merged)
    ensures forall s {:trigger merged[s]} :: 0 <= s < |merged| ==>
            IsMerged(width, nF, merged[s]) && SameSums(width, height, nF, lists[s], merged[s])
  {
    merged := [];
    for scaleIndex := 0 to |lists|
      invariant |merged| == scaleIndex && AllFit(width, height, nF, merged)
      invariant forall s {:trigger merged[s]} :: 0 <= s < scaleIndex ==>
                IsMerged(width, nF, merged[s]) && SameSums(width, height, nF, lists[s], merged[s])
    {
      var list := MergeList(width, height, nF, lists[scaleIndex]);
      MergeKeeps(width, height, nF, lists[scaleIndex], list);
      merged := merged + [list];
    }
  }

  lemma SamePosition(width: nat, height: nat, a: Position, b: Position)
    requires a.x < width && a.y < height && b.x < width && b.y < height && Flat(width, a) == Flat(width, b)
    ensures a == b
  {
    RowMajor.Splits(width, a.x, a.y);
    RowMajor.Splits(width, b.x, b.y);
  }

  /** Merging is idempotent: merging a merged list gives the same list, in the same order. */
  lemma MergeIsIdempotent(width: nat, height: nat, nF: nat, list: ScaleList, once: ScaleList, twice: ScaleList)
    requires ListFits(width, height, nF, list) && ListFits(width, height, nF, once) &&
             ListFits(width, height, nF, twice)
    requires Flats(width, once.positions) == MergedFlats(TotalsOfList(width, height, nF, list), nF, width * height)
    requires once.values == MergedValues(TotalsOfList(width, height, nF, list), nF, width * height)
    requires Flats(width, twice.positions) == MergedFlats(TotalsOfList(width, height, nF, once), nF, width * height)
    requires twice.values == MergedValues(TotalsOfList(width, height, nF, once), nF, width * height)
    ensures twice == once
  {
    MergingTwice(TotalsOfList(width, height, nF, list), nF, width * height);
    forall k | 0 <= k < |once.positions| ensures once.positions[k] == twice.positions[k] {
      assert Flats(width, once.positions)[k] == Flats(width, twice.positions)[k];
      SamePosition(width, height, once.positions[k], twice.positions[k]);
    }
  }
}
