/** `flatMinMaxNoEncode`: the flattening without interleaved counts. The bound streams hold
    only bounds, the interval counts go to a separate array with `fieldLength` slots per
    block, and block edges advance by the block's interval count alone. */
module FlattenNoEncode {
  import opened Wrappers
  import opened Blocks

  /** The five parallel arrays the encoder returns, in the source's order. */
  datatype NoEncodeArrays<V> = NoEncodeArrays(
    flatMins: seq<V>,
    flatMaxes: seq<V>,
    blockEdges: seq<nat>,
    blockClasses: seq<int>,
    intervalCounts: seq<nat>)

  /** The source reads, for every attribute of `minimums`, as many upper bounds from
      `maximums` as there are lower bounds. */
  predicate Readable<V>(b: HyperBlock<V>) {
    && |b.maximums| >= |b.minimums|
    && forall m :: 0 <= m < |b.minimums| ==> |b.maximums[m]| >= |b.minimums[m]|
  }

  predicate AllReadable<V>(blocks: seq<HyperBlock<V>>) {
    forall i :: 0 <= i < |blocks| ==> Readable(blocks[i])
  }

  lemma WellShapedReadable<V>(blocks: seq<HyperBlock<V>>, f: nat)
    requires AllWellShaped(blocks, f)
    ensures AllReadable(blocks)
  {
    forall i | 0 <= i < |blocks| ensures Readable(blocks[i]) {
      assert WellShaped(blocks[i], f);
    }
  }

  lemma ReadablePrefix<V>(blocks: seq<HyperBlock<V>>, n: nat)
    requires AllReadable(blocks) && n <= |blocks|
    ensures AllReadable(blocks[..n])
  {
    forall i | 0 <= i < n ensures Readable(blocks[..n][i]) {
      assert blocks[..n][i] == blocks[i];
    }
  }

  /** A block's lower bounds, attribute after attribute. */
  function MinValues<V>(b: HyperBlock<V>): seq<V> {
    Concat(b.minimums)
  }

  /** The upper bounds the source copies: as many per attribute as it has lower bounds. */
  function MaxValues<V>(b: HyperBlock<V>): seq<V>
    requires Readable(b)
  {
    Concat(seq(|b.minimums|, m requires 0 <= m < |b.minimums| => b.maximums[m][..|b.minimums[m]|]))
  }

  lemma ValuesLengths<V>(b: HyperBlock<V>)
    requires Readable(b)
    ensures |MinValues(b)| == IntervalTotal(b) == |MaxValues(b)|
  {
    ConcatLength(b.minimums);
    var hs := seq(|b.minimums|, m requires 0 <= m < |b.minimums| => b.maximums[m][..|b.minimums[m]|]);
    ConcatLength(hs);
    assert Lengths(hs) == Lengths(b.minimums);
  }

  /** The encoder's loop: blocks appended one at a time; `intervalCounts` here holds only the
      slots written so far, one per attribute of `minimums`. */
  function Accumulate<V>(blocks: seq<HyperBlock<V>>): (r: NoEncodeArrays<V>)
    requires AllReadable(blocks)
    ensures |r.blockEdges| == |blocks| + 1 && r.blockEdges[0] == 0
    ensures forall i {:trigger blocks[i]} :: 0 <= i < |blocks| ==>
      r.blockEdges[i + 1] == r.blockEdges[i] + IntervalTotal(blocks[i])
    ensures |r.blockClasses| == |blocks|
    ensures forall i :: 0 <= i < |blocks| ==> r.blockClasses[i] == blocks[i].classNum
    ensures |r.flatMins| == |r.flatMaxes| == r.blockEdges[|blocks|]
    decreases |blocks|
  {
    if |blocks| == 0 then NoEncodeArrays([], [], [0], [], [])
    else
      var prev := Accumulate(blocks[..|blocks| - 1]);
      var b := blocks[|blocks| - 1];
      ValuesLengths(b);
      NoEncodeArrays(
        prev.flatMins + MinValues(b),
        prev.flatMaxes + MaxValues(b),
        prev.blockEdges + [prev.blockEdges[|blocks| - 1] + IntervalTotal(b)],
        prev.blockClasses + [b.classNum],
        prev.intervalCounts + Lengths(b.minimums))
  }

  /** Number of attributes over all blocks: the count slots the encoder writes. */
  function AttributeTotal<V>(blocks: seq<HyperBlock<V>>): nat
    decreases |blocks|
  {
    if |blocks| == 0 then 0
    else AttributeTotal(blocks[..|blocks| - 1]) + |blocks[|blocks| - 1].minimums|
  }

  lemma {:induction false} AccumulatedCounts<V>(blocks: seq<HyperBlock<V>>)
    requires AllReadable(blocks)
    ensures |Accumulate(blocks).intervalCounts| == AttributeTotal(blocks)
    decreases |blocks|
  {
    if |blocks| > 0 {
      AccumulatedCounts(blocks[..|blocks| - 1]);
    }
  }

  /** The encoder. `intervalCounts` is allocated with `|blocks| * fieldLength` zero slots and
      filled from the front, so the source writes past its end unless the blocks have at
      most that many attributes in all. */
  function FlatMinMaxNoEncode<V>(blocks: seq<HyperBlock<V>>, fieldLength: nat): (r: NoEncodeArrays<V>)
    requires AllReadable(blocks)
    requires AttributeTotal(blocks) <= |blocks| * fieldLength
    ensures |r.intervalCounts| == |blocks| * fieldLength
    ensures |r.blockEdges| == |blocks| + 1 && r.blockEdges[0] == 0
    ensures forall i {:trigger blocks[i]} :: 0 <= i < |blocks| ==>
      r.blockEdges[i + 1] == r.blockEdges[i] + IntervalTotal(blocks[i])
    ensures |r.blockClasses| == |blocks|
    ensures forall i :: 0 <= i < |blocks| ==> r.blockClasses[i] == blocks[i].classNum
    ensures |r.flatMins| == |r.flatMaxes| == r.blockEdges[|blocks|]
    ensures forall j :: AttributeTotal(blocks) <= j < |r.intervalCounts| ==> r.intervalCounts[j] == 0
  {
    var acc := Accumulate(blocks);
    AccumulatedCounts(blocks);
    acc.(intervalCounts := acc.intervalCounts + Repeat(0, |blocks| * fieldLength - |acc.intervalCounts|))
  }

  /** One step of the accumulation, field by field. */
  lemma AccumulateStep<V>(blocks: seq<HyperBlock<V>>)
    requires |blocks| > 0 && AllReadable(blocks)
    ensures Accumulate(blocks).flatMins
      == Accumulate(blocks[..|blocks| - 1]).flatMins + MinValues(blocks[|blocks| - 1])
    ensures Accumulate(blocks).flatMaxes
      == Accumulate(blocks[..|blocks| - 1]).flatMaxes + MaxValues(blocks[|blocks| - 1])
    ensures Accumulate(blocks).blockEdges[..|blocks|] == Accumulate(blocks[..|blocks| - 1]).blockEdges
    ensures Accumulate(blocks).intervalCounts
      == Accumulate(blocks[..|blocks| - 1]).intervalCounts + Lengths(blocks[|blocks| - 1].minimums)
  {
  }

  /** Block `i` occupies edges `i` to `i + 1` of both streams. */
  ghost predicate StreamsAt<V>(r: NoEncodeArrays<V>, blocks: seq<HyperBlock<V>>, i: nat)
    requires i < |blocks| && |r.blockEdges| == |blocks| + 1 && AllReadable(blocks)
  {
    && r.blockEdges[i] <= r.blockEdges[i + 1] <= |r.flatMins|
    && r.blockEdges[i + 1] <= |r.flatMaxes|
    && r.flatMins[r.blockEdges[i]..r.blockEdges[i + 1]] == MinValues(blocks[i])
    && r.flatMaxes[r.blockEdges[i]..r.blockEdges[i + 1]] == MaxValues(blocks[i])
  }

  /** Block `i`'s interval counts occupy slots `lo` to `lo + f`. */
  ghost predicate CountsAt<V>(r: NoEncodeArrays<V>, blocks: seq<HyperBlock<V>>, lo: nat, f: nat, i: nat)
    requires i < |blocks|
  {
    && lo + f <= |r.intervalCounts|
    && r.intervalCounts[lo..lo + f] == Lengths(blocks[i].minimums)
  }

  lemma StreamsKept<V>(blocks: seq<HyperBlock<V>>, i: nat)
    requires |blocks| > 0 && AllReadable(blocks) && i < |blocks| - 1
    requires StreamsAt(Accumulate(blocks[..|blocks| - 1]), blocks[..|blocks| - 1], i)
    ensures StreamsAt(Accumulate(blocks), blocks, i)
  {
    var front := blocks[..|blocks| - 1];
    var last := blocks[|blocks| - 1];
    var p := Accumulate(front);
    var r := Accumulate(blocks);
    AccumulateStep(blocks);
    var lo, hi := p.blockEdges[i], p.blockEdges[i + 1];
    IndexOfPrefix(r.blockEdges, p.blockEdges, i);
    IndexOfPrefix(r.blockEdges, p.blockEdges, i + 1);
    assert front[i] == blocks[i];
    KeptSlice(r.flatMins, p.flatMins, MinValues(last), lo, hi, MinValues(blocks[i]));
    KeptSlice(r.flatMaxes, p.flatMaxes, MaxValues(last), lo, hi, MaxValues(blocks[i]));
  }

  lemma CountsKept<V>(blocks: seq<HyperBlock<V>>, lo: nat, f: nat, i: nat)
    requires |blocks| > 0 && AllReadable(blocks) && i < |blocks| - 1
    requires CountsAt(Accumulate(blocks[..|blocks| - 1]), blocks[..|blocks| - 1], lo, f, i)
    ensures CountsAt(Accumulate(blocks), blocks, lo, f, i)
  {
    var front := blocks[..|blocks| - 1];
    var last := blocks[|blocks| - 1];
    var p := Accumulate(front);
    AccumulateStep(blocks);
    assert front[i] == blocks[i];
    KeptSlice(Accumulate(blocks).intervalCounts, p.intervalCounts, Lengths(last.minimums),
              lo, lo + f, Lengths(blocks[i].minimums));
  }

  lemma StreamsLast<V>(blocks: seq<HyperBlock<V>>)
    requires |blocks| > 0 && AllReadable(blocks)
    ensures StreamsAt(Accumulate(blocks), blocks, |blocks| - 1)
  {
    var n := |blocks| - 1;
    var front := blocks[..n];
    var b := blocks[n];
    ReadablePrefix(blocks, n);
    var p := Accumulate(front);
    var r := Accumulate(blocks);
    AccumulateStep(blocks);
    var e := p.blockEdges[n];
    assert |p.flatMins| == |p.flatMaxes| == e;
    IndexOfPrefix(r.blockEdges, p.blockEdges, n);
    assert r.blockEdges[n + 1] == e + IntervalTotal(b);
    ValuesLengths(b);
    SliceOfLast(p.flatMins, MinValues(b));
    SliceOfLast(p.flatMaxes, MaxValues(b));
  }

  lemma CountsLast<V>(blocks: seq<HyperBlock<V>>)
    requires |blocks| > 0 && AllReadable(blocks)
    ensures CountsAt(Accumulate(blocks), blocks, |Accumulate(blocks[..|blocks| - 1]).intervalCounts|,
                     |blocks[|blocks| - 1].minimums|, |blocks| - 1)
  {
    var b := blocks[|blocks| - 1];
    var p := Accumulate(blocks[..|blocks| - 1]);
    AccumulateStep(blocks);
    SliceOfLast(p.intervalCounts, Lengths(b.minimums));
  }

  /** `i * f`, spelled out as repeated addition so that the offset proofs stay linear. */
  function Stride(i: nat, f: nat): nat {
    if i == 0 then 0 else Stride(i - 1, f) + f
  }

  lemma {:induction false} StrideIsProduct(i: nat, f: nat)
    ensures Stride(i, f) == i * f
  {
    if i > 0 {
      StrideIsProduct(i - 1, f);
      assert (i - 1) * f + f == i * f;
    }
  }

  /** Block `i` of a well-shaped list: its stretches of the streams and its `f` count slots. */
  ghost predicate BlockAt<V>(r: NoEncodeArrays<V>, blocks: seq<HyperBlock<V>>, f: nat, i: nat)
    requires i < |blocks| && |r.blockEdges| == |blocks| + 1 && AllReadable(blocks)
  {
    StreamsAt(r, blocks, i) && CountsAt(r, blocks, Stride(i, f), f, i)
  }

  /** Under the shape invariant the counts fill exactly `f` slots per block. */
  lemma {:induction false} CountsLength<V>(blocks: seq<HyperBlock<V>>, f: nat)
    requires AllWellShaped(blocks, f)
    ensures AllReadable(blocks)
    ensures |Accumulate(blocks).intervalCounts| == Stride(|blocks|, f)
    decreases |blocks|
  {
    WellShapedReadable(blocks, f);
    if |blocks| > 0 {
      var n := |blocks| - 1;
      WellShapedPrefix(blocks, f, n);
      ReadablePrefix(blocks, n);
      CountsLength(blocks[..n], f);
      AccumulateStep(blocks);
      assert WellShaped(blocks[n], f);
    }
  }

  lemma LocateKept<V>(blocks: seq<HyperBlock<V>>, f: nat, i: nat)
    requires AllReadable(blocks) && i < |blocks| - 1
    requires AllReadable(blocks[..|blocks| - 1])
    requires BlockAt(Accumulate(blocks[..|blocks| - 1]), blocks[..|blocks| - 1], f, i)
    ensures BlockAt(Accumulate(blocks), blocks, f, i)
  {
    StreamsKept(blocks, i);
    CountsKept(blocks, Stride(i, f), f, i);
  }

  lemma LocateLast<V>(blocks: seq<HyperBlock<V>>, f: nat)
    requires AllWellShaped(blocks, f) && AllReadable(blocks) && |blocks| > 0
    ensures BlockAt(Accumulate(blocks), blocks, f, |blocks| - 1)
  {
    var n := |blocks| - 1;
    WellShapedPrefix(blocks, f, n);
    CountsLength(blocks[..n], f);
    assert |blocks[n].minimums| == f;
    StreamsLast(blocks);
    CountsLast(blocks);
  }

  lemma {:induction false} LocateBlocks<V>(blocks: seq<HyperBlock<V>>, f: nat)
    requires AllWellShaped(blocks, f)
    ensures AllReadable(blocks)
    ensures forall i :: 0 <= i < |blocks| ==> BlockAt(Accumulate(blocks), blocks, f, i)
    decreases |blocks|
  {
    WellShapedReadable(blocks, f);
    if |blocks| > 0 {
      var n := |blocks| - 1;
      WellShapedPrefix(blocks, f, n);
      ReadablePrefix(blocks, n);
      var front := blocks[..n];
      LocateBlocks(front, f);
      forall i | 0 <= i < |blocks| ensures BlockAt(Accumulate(blocks), blocks, f, i) {
        LocateStep(blocks, front, f, i);
      }
    }
  }

  /** The inductive step for one block: kept if it was already in front, placed if it is new. */
  lemma LocateStep<V>(blocks: seq<HyperBlock<V>>, front: seq<HyperBlock<V>>, f: nat, i: nat)
    requires |blocks| > 0 && AllWellShaped(blocks, f) && AllReadable(blocks) && i < |blocks|
    requires front == blocks[..|blocks| - 1] && AllReadable(front)
    requires forall j :: 0 <= j < |front| ==> BlockAt(Accumulate(front), front, f, j)
    ensures BlockAt(Accumulate(blocks), blocks, f, i)
  {
    if i < |blocks| - 1 {
      LocateKept(blocks, f, i);
    } else {
      LocateLast(blocks, f);
    }
  }

  /** The encoder's arrays are the accumulated ones, with no padding under the shape invariant. */
  lemma {:induction false} NoPadding<V>(blocks: seq<HyperBlock<V>>, f: nat)
    requires AllWellShaped(blocks, f)
    ensures AllReadable(blocks) && AttributeTotal(blocks) <= |blocks| * f
    ensures FlatMinMaxNoEncode(blocks, f) == Accumulate(blocks)
  {
    CountsLength(blocks, f);
    StrideIsProduct(|blocks|, f);
    AccumulatedCounts(blocks);
    PadNothing(Accumulate(blocks), |blocks| * f);
  }

  lemma PadNothing<V>(acc: NoEncodeArrays<V>, slots: nat)
    requires slots == |acc.intervalCounts|
    ensures acc.(intervalCounts := acc.intervalCounts + Repeat(0, slots - |acc.intervalCounts|)) == acc
  {
    assert acc.intervalCounts + Repeat(0, 0) == acc.intervalCounts;
  }

  /** Under the shape invariant, block `b`'s `f` count slots (from offset `b * f`, written
      `Stride(b, f)`) hold its attributes' interval counts and sum to the width between its
      edges. */
  lemma CountsMatchEdges<V>(blocks: seq<HyperBlock<V>>, f: nat, b: nat)
    requires AllWellShaped(blocks, f) && b < |blocks|
    ensures Stride(b, f) == b * f
    ensures AllReadable(blocks) && AttributeTotal(blocks) <= |blocks| * f
    ensures Stride(b, f) + f <= |FlatMinMaxNoEncode(blocks, f).intervalCounts|
    ensures FlatMinMaxNoEncode(blocks, f).intervalCounts[Stride(b, f)..Stride(b, f) + f]
         == Lengths(blocks[b].minimums)
    ensures Sum(FlatMinMaxNoEncode(blocks, f).intervalCounts[Stride(b, f)..Stride(b, f) + f])
         == FlatMinMaxNoEncode(blocks, f).blockEdges[b + 1] - FlatMinMaxNoEncode(blocks, f).blockEdges[b]
  {
    StrideIsProduct(b, f);
    NoPadding(blocks, f);
    LocateBlocks(blocks, f);
    var acc := Accumulate(blocks);
    assert BlockAt(acc, blocks, f, b);
    assert CountsAt(acc, blocks, Stride(b, f), f, b);
    assert acc.blockEdges[b + 1] == acc.blockEdges[b] + IntervalTotal(blocks[b]);
  }

  /** Cuts a stream into consecutive pieces of the given lengths, using all of it. */
  function Split<V>(s: seq<V>, counts: seq<nat>): Option<seq<seq<V>>>
    decreases |counts|
  {
    if |counts| == 0 then (if |s| == 0 then Some([]) else None)
    else if counts[0] > |s| then None
    else
      var more :- Split(s[counts[0]..], counts[1..]);
      Some([s[..counts[0]]] + more)
  }

  lemma {:induction false} SplitConcat<V>(xss: seq<seq<V>>)
    ensures Split(Concat(xss), Lengths(xss)) == Some(xss)
    decreases |xss|
  {
    if |xss| > 0 {
      ConcatFront(xss);
      var s := Concat(xss);
      assert s[..|xss[0]|] == xss[0];
      assert s[|xss[0]|..] == Concat(xss[1..]);
      assert Lengths(xss)[1..] == Lengths(xss[1..]);
      SplitConcat(xss[1..]);
      assert [xss[0]] + xss[1..] == xss;
    } else {
      assert Lengths(xss) == [];
    }
  }

  /** Rebuilds block `i` from its counts and its stretch of the two streams. */
  function DecodeBlockAt<V>(a: NoEncodeArrays<V>, f: nat, i: nat): Option<HyperBlock<V>>
    requires i < |a.blockClasses| && |a.blockEdges| == |a.blockClasses| + 1
  {
    var lo := a.blockEdges[i];
    var hi := a.blockEdges[i + 1];
    var first := Stride(i, f);
    if !(lo <= hi <= |a.flatMins| && hi <= |a.flatMaxes| && first + f <= |a.intervalCounts|) then None
    else
      var counts := a.intervalCounts[first..first + f];
      var mins :- Split(a.flatMins[lo..hi], counts);
      var maxs :- Split(a.flatMaxes[lo..hi], counts);
      Some(HyperBlock(mins, maxs, a.blockClasses[i]))
  }

  /** Block `i`'s decoder; past the last class there is no block. */
  function BlockDecoder<V>(a: NoEncodeArrays<V>, f: nat): nat -> Option<HyperBlock<V>>
    requires |a.blockEdges| == |a.blockClasses| + 1
  {
    (i: nat) => if i < |a.blockClasses| then DecodeBlockAt(a, f, i) else None
  }

  function UnflattenNoEncode<V>(a: NoEncodeArrays<V>, f: nat): Option<seq<HyperBlock<V>>> {
    if |a.blockEdges| != |a.blockClasses| + 1 then None
    else Collect(BlockDecoder(a, f), |a.blockClasses|)
  }

  /** Block `i` decodes to `b` when its stretches of the streams are `b`'s bounds and its
      count slots are `b`'s interval counts. */
  lemma DecodeLocatedBlock<V>(a: NoEncodeArrays<V>, b: HyperBlock<V>, f: nat, i: nat)
    requires i < |a.blockClasses| && |a.blockEdges| == |a.blockClasses| + 1 && WellShaped(b, f)
    requires a.blockEdges[i] <= a.blockEdges[i + 1] <= |a.flatMins| && a.blockEdges[i + 1] <= |a.flatMaxes|
    requires a.flatMins[a.blockEdges[i]..a.blockEdges[i + 1]] == Concat(b.minimums)
    requires a.flatMaxes[a.blockEdges[i]..a.blockEdges[i + 1]] == Concat(b.maximums)
    requires Stride(i, f) + f <= |a.intervalCounts|
    requires a.intervalCounts[Stride(i, f)..Stride(i, f) + f] == Lengths(b.minimums)
    requires a.blockClasses[i] == b.classNum
    ensures DecodeBlockAt(a, f, i) == Some(b)
  {
    var lo, hi, first := a.blockEdges[i], a.blockEdges[i + 1], Stride(i, f);
    var counts := a.intervalCounts[first..first + f];
    assert Split(a.flatMins[lo..hi], counts) == Some(b.minimums) by {
      SplitConcat(b.minimums);
    }
    assert Split(a.flatMaxes[lo..hi], counts) == Some(b.maximums) by {
      MaxValuesShaped(b, f);
      SplitConcat(b.maximums);
    }
    DecodeOfSplits(a, f, i, b.minimums, b.maximums);
  }

  lemma DecodeOfSplits<V>(a: NoEncodeArrays<V>, f: nat, i: nat, mins: seq<seq<V>>, maxs: seq<seq<V>>)
    requires i < |a.blockClasses| && |a.blockEdges| == |a.blockClasses| + 1
    requires a.blockEdges[i] <= a.blockEdges[i + 1] <= |a.flatMins| && a.blockEdges[i + 1] <= |a.flatMaxes|
    requires Stride(i, f) + f <= |a.intervalCounts|
    requires Split(a.flatMins[a.blockEdges[i]..a.blockEdges[i + 1]], a.intervalCounts[Stride(i, f)..Stride(i, f) + f])
          == Some(mins)
    requires Split(a.flatMaxes[a.blockEdges[i]..a.blockEdges[i + 1]], a.intervalCounts[Stride(i, f)..Stride(i, f) + f])
          == Some(maxs)
    ensures DecodeBlockAt(a, f, i) == Some(HyperBlock(mins, maxs, a.blockClasses[i]))
  {
  }

  /** Under the shape invariant the copied upper bounds are all of them, with the lower
      bounds' interval counts. */
  lemma MaxValuesShaped<V>(b: HyperBlock<V>, f: nat)
    requires WellShaped(b, f)
    ensures Readable(b) && MaxValues(b) == Concat(b.maximums)
    ensures Lengths(b.maximums) == Lengths(b.minimums)
  {
    var heads := seq(|b.minimums|, m requires 0 <= m < |b.minimums| => b.maximums[m][..|b.minimums[m]|]);
    forall m | 0 <= m < |heads| ensures heads[m] == b.maximums[m] {
      assert |b.maximums[m]| == |b.minimums[m]|;
    }
    assert heads == b.maximums;
  }

  /** Where block `i` of a well-shaped list sits in the accumulated arrays. */
  lemma LocateBlock<V>(blocks: seq<HyperBlock<V>>, f: nat, i: nat)
    requires AllWellShaped(blocks, f) && i < |blocks|
    ensures AllReadable(blocks) && WellShaped(blocks[i], f)
    ensures var a := Accumulate(blocks);
      && a.blockEdges[i] <= a.blockEdges[i + 1] <= |a.flatMins| && a.blockEdges[i + 1] <= |a.flatMaxes|
      && a.flatMins[a.blockEdges[i]..a.blockEdges[i + 1]] == Concat(blocks[i].minimums)
      && a.flatMaxes[a.blockEdges[i]..a.blockEdges[i + 1]] == Concat(blocks[i].maximums)
      && Stride(i, f) + f <= |a.intervalCounts|
      && a.intervalCounts[Stride(i, f)..Stride(i, f) + f] == Lengths(blocks[i].minimums)
      && a.blockClasses[i] == blocks[i].classNum
  {
    LocateBlocks(blocks, f);
    var a := Accumulate(blocks);
    assert BlockAt(a, blocks, f, i);
    assert WellShaped(blocks[i], f);
    BlockAtShaped(a, blocks, f, i);
  }

  /** What `BlockAt` says of a well-shaped block, in terms of its bound lists. */
  lemma BlockAtShaped<V>(a: NoEncodeArrays<V>, blocks: seq<HyperBlock<V>>, f: nat, i: nat)
    requires i < |blocks| && |a.blockEdges| == |blocks| + 1 && AllReadable(blocks)
    requires WellShaped(blocks[i], f) && BlockAt(a, blocks, f, i)
    ensures a.blockEdges[i] <= a.blockEdges[i + 1] <= |a.flatMins| && a.blockEdges[i + 1] <= |a.flatMaxes|
    ensures a.flatMins[a.blockEdges[i]..a.blockEdges[i + 1]] == Concat(blocks[i].minimums)
    ensures a.flatMaxes[a.blockEdges[i]..a.blockEdges[i + 1]] == Concat(blocks[i].maximums)
    ensures Stride(i, f) + f <= |a.intervalCounts|
    ensures a.intervalCounts[Stride(i, f)..Stride(i, f) + f] == Lengths(blocks[i].minimums)
  {
    MaxValuesShaped(blocks[i], f);
  }

  lemma DecodeBlockAtFlattened<V>(blocks: seq<HyperBlock<V>>, f: nat, i: nat)
    requires AllWellShaped(blocks, f) && i < |blocks|
    ensures AllReadable(blocks) && AttributeTotal(blocks) <= |blocks| * f
    ensures DecodeBlockAt(FlatMinMaxNoEncode(blocks, f), f, i) == Some(blocks[i])
  {
    NoPadding(blocks, f);
    DecodeAccumulated(blocks, f, i);
  }

  lemma DecodeAccumulated<V>(blocks: seq<HyperBlock<V>>, f: nat, i: nat)
    requires AllWellShaped(blocks, f) && i < |blocks|
    ensures AllReadable(blocks)
    ensures DecodeBlockAt(Accumulate(blocks), f, i) == Some(blocks[i])
  {
    LocateBlock(blocks, f, i);
    DecodeLocatedBlock(Accumulate(blocks), blocks[i], f, i);
  }

  /** Round trip: for blocks of `f` attributes with matching bound lists, the five arrays
      determine the blocks again. */
  lemma {:induction false} NoEncodeRoundTrip<V>(blocks: seq<HyperBlock<V>>, f: nat)
    requires AllWellShaped(blocks, f)
    ensures AllReadable(blocks) && AttributeTotal(blocks) <= |blocks| * f
    ensures UnflattenNoEncode(FlatMinMaxNoEncode(blocks, f), f) == Some(blocks)
  {
    NoPadding(blocks, f);
    var a := FlatMinMaxNoEncode(blocks, f);
    var decode := BlockDecoder(a, f);
    forall i | 0 <= i < |blocks| ensures decode(i) == Some(blocks[i]) {
      DecodeBlockAtFlattened(blocks, f, i);
    }
    CollectAll(decode, blocks, |blocks|);
    TakeAll(blocks);
  }
}
