/** `flattenMinsMaxesForRUB`: the self-describing flattening. Every attribute contributes
    its interval count followed by its bounds to both bound streams, and each block's edge
    step is padded by the field length, one slot per attribute for that count. */
module FlattenRub {
  import opened Wrappers
  import opened Blocks

  /** One float slot of an interleaved stream: an interval count or a bound. */
  datatype Slot<V> = Count(n: nat) | Bound(v: V)

  /** The four parallel arrays the encoder returns, in the source's order. */
  datatype RubArrays<V> = RubArrays(
    flatMins: seq<Slot<V>>,
    flatMaxes: seq<Slot<V>>,
    blockEdges: seq<nat>,
    blockClasses: seq<int>)

  /** What one attribute contributes to a stream: an interval count, then bounds. */
  function Group<V>(count: nat, vs: seq<V>): seq<Slot<V>> {
    [Count(count)] + seq(|vs|, i requires 0 <= i < |vs| => Bound(vs[i]))
  }

  /** The self-describing groups of a list of attributes. */
  function Groups<V>(vss: seq<seq<V>>): seq<seq<Slot<V>>> {
    seq(|vss|, m requires 0 <= m < |vss| => Group(|vss[m]|, vss[m]))
  }

  /** A block's stretch of the mins stream. */
  function MinSegment<V>(b: HyperBlock<V>): seq<Slot<V>> {
    Concat(Groups(b.minimums))
  }

  /** A block's stretch of the maxes stream; the counts are again those of `minimums`. */
  function MaxSegment<V>(b: HyperBlock<V>): seq<Slot<V>>
    requires |b.maximums| >= |b.minimums|
  {
    Concat(seq(|b.minimums|, m requires 0 <= m < |b.minimums| => Group(|b.minimums[m]|, b.maximums[m])))
  }

  /** The encoder. Blocks are appended one at a time, as the source's loop does; the source
      indexes `maximums[m]` for every attribute of `minimums`, hence the requires. */
  function FlattenMinsMaxesForRub<V>(blocks: seq<HyperBlock<V>>, fieldLength: nat): (r: RubArrays<V>)
    requires AllMaxesCoverMins(blocks)
    ensures |r.blockEdges| == |blocks| + 1 && r.blockEdges[0] == 0
    ensures forall i {:trigger blocks[i]} :: 0 <= i < |blocks| ==>
      r.blockEdges[i + 1] == r.blockEdges[i] + IntervalTotal(blocks[i]) + fieldLength
    ensures |r.blockClasses| == |blocks|
    ensures forall i :: 0 <= i < |blocks| ==> r.blockClasses[i] == blocks[i].classNum
    ensures AllWellShaped(blocks, fieldLength) ==>
      |r.flatMins| == |r.flatMaxes| == r.blockEdges[|blocks|]
    decreases |blocks|
  {
    if |blocks| == 0 then RubArrays([], [], [0], [])
    else
      var prev := FlattenMinsMaxesForRub(blocks[..|blocks| - 1], fieldLength);
      var b := blocks[|blocks| - 1];
      var last := prev.blockEdges[|blocks| - 1];
      SegmentLengths(b, fieldLength);
      RubArrays(
        prev.flatMins + MinSegment(b),
        prev.flatMaxes + MaxSegment(b),
        prev.blockEdges + [last + IntervalTotal(b) + fieldLength],
        prev.blockClasses + [b.classNum])
  }

  lemma {:induction false} SumSucc(xs: seq<nat>, ys: seq<nat>)
    requires |xs| == |ys|
    requires forall i :: 0 <= i < |xs| ==> ys[i] == xs[i] + 1
    ensures Sum(ys) == Sum(xs) + |xs|
    decreases |xs|
  {
    if |xs| > 0 {
      SumSucc(xs[..|xs| - 1], ys[..|ys| - 1]);
    }
  }

  /** Each segment holds one count slot per attribute plus the intervals. */
  lemma SegmentLengths<V>(b: HyperBlock<V>, f: nat)
    requires |b.maximums| >= |b.minimums|
    ensures |MinSegment(b)| == |b.minimums| + IntervalTotal(b)
    ensures WellShaped(b, f) ==> |MaxSegment(b)| == f + IntervalTotal(b)
  {
    var gs := Groups(b.minimums);
    ConcatLength(gs);
    SumSucc(Lengths(b.minimums), Lengths(gs));
    if WellShaped(b, f) {
      var hs := seq(|b.minimums|, m requires 0 <= m < |b.minimums| => Group(|b.minimums[m]|, b.maximums[m]));
      ConcatLength(hs);
      SumSucc(Lengths(b.minimums), Lengths(hs));
    }
  }

  /** Block `i`'s segments sit between edges `i` and `i + 1` of both streams. */
  ghost predicate SegmentAt<V>(r: RubArrays<V>, blocks: seq<HyperBlock<V>>, i: nat)
    requires i < |blocks| && |r.blockEdges| == |blocks| + 1 && AllMaxesCoverMins(blocks)
  {
    && r.blockEdges[i] <= r.blockEdges[i + 1] <= |r.flatMins|
    && r.blockEdges[i + 1] <= |r.flatMaxes|
    && r.flatMins[r.blockEdges[i]..r.blockEdges[i + 1]] == MinSegment(blocks[i])
    && r.flatMaxes[r.blockEdges[i]..r.blockEdges[i + 1]] == MaxSegment(blocks[i])
  }

  /** One step of the encoder's loop, field by field. */
  lemma FlattenStep<V>(blocks: seq<HyperBlock<V>>, fieldLength: nat)
    requires |blocks| > 0 && AllMaxesCoverMins(blocks)
    ensures FlattenMinsMaxesForRub(blocks, fieldLength).flatMins
      == FlattenMinsMaxesForRub(blocks[..|blocks| - 1], fieldLength).flatMins + MinSegment(blocks[|blocks| - 1])
    ensures FlattenMinsMaxesForRub(blocks, fieldLength).flatMaxes
      == FlattenMinsMaxesForRub(blocks[..|blocks| - 1], fieldLength).flatMaxes + MaxSegment(blocks[|blocks| - 1])
    ensures FlattenMinsMaxesForRub(blocks, fieldLength).blockEdges[..|blocks|]
      == FlattenMinsMaxesForRub(blocks[..|blocks| - 1], fieldLength).blockEdges
  {
  }

  /** Appending a block leaves the earlier blocks' segments where they were. */
  lemma SegmentKept<V>(blocks: seq<HyperBlock<V>>, fieldLength: nat, i: nat)
    requires |blocks| > 0 && AllMaxesCoverMins(blocks) && i < |blocks| - 1
    requires SegmentAt(FlattenMinsMaxesForRub(blocks[..|blocks| - 1], fieldLength), blocks[..|blocks| - 1], i)
    ensures SegmentAt(FlattenMinsMaxesForRub(blocks, fieldLength), blocks, i)
  {
    var front := blocks[..|blocks| - 1];
    var p := FlattenMinsMaxesForRub(front, fieldLength);
    var r := FlattenMinsMaxesForRub(blocks, fieldLength);
    FlattenStep(blocks, fieldLength);
    var lo, hi := p.blockEdges[i], p.blockEdges[i + 1];
    IndexOfPrefix(r.blockEdges, p.blockEdges, i);
    IndexOfPrefix(r.blockEdges, p.blockEdges, i + 1);
    SliceOfAppend(p.flatMins, MinSegment(blocks[|blocks| - 1]), lo, hi);
    SliceOfAppend(p.flatMaxes, MaxSegment(blocks[|blocks| - 1]), lo, hi);
    assert front[i] == blocks[i];
  }

  /** The appended block's segments start at the previous last edge. */
  lemma SegmentLast<V>(blocks: seq<HyperBlock<V>>, fieldLength: nat)
    requires |blocks| > 0 && AllWellShaped(blocks, fieldLength)
    ensures SegmentAt(FlattenMinsMaxesForRub(blocks, fieldLength), blocks, |blocks| - 1)
  {
    var n := |blocks| - 1;
    var front := blocks[..n];
    var p := FlattenMinsMaxesForRub(front, fieldLength);
    var r := FlattenMinsMaxesForRub(blocks, fieldLength);
    FlattenStep(blocks, fieldLength);
    var b := blocks[n];
    assert WellShaped(b, fieldLength);
    WellShapedPrefix(blocks, fieldLength, n);
    var e := p.blockEdges[n];
    assert |p.flatMins| == |p.flatMaxes| == e;
    IndexOfPrefix(r.blockEdges, p.blockEdges, n);
    SegmentLengths(b, fieldLength);
    var hi := r.blockEdges[n + 1];
    assert hi == e + |MinSegment(b)| == e + |MaxSegment(b)|;
    SliceAt(p.flatMins, MinSegment(b), e, hi);
    SliceAt(p.flatMaxes, MaxSegment(b), e, hi);
  }

  /** When every block has `fieldLength` attributes, the padded edges are exactly the
      offsets of the blocks' segments in both streams. */
  lemma {:induction false} EdgesLocateSegments<V>(blocks: seq<HyperBlock<V>>, fieldLength: nat)
    requires AllWellShaped(blocks, fieldLength)
    ensures forall i :: 0 <= i < |blocks| ==>
      SegmentAt(FlattenMinsMaxesForRub(blocks, fieldLength), blocks, i)
    decreases |blocks|
  {
    if |blocks| > 0 {
      var n := |blocks| - 1;
      var front := blocks[..n];
      WellShapedPrefix(blocks, fieldLength, n);
      EdgesLocateSegments(front, fieldLength);
      forall i | 0 <= i < |blocks|
        ensures SegmentAt(FlattenMinsMaxesForRub(blocks, fieldLength), blocks, i)
      {
        SegmentStep(blocks, front, fieldLength, i);
      }
    }
  }

  /** The inductive step for one block: kept if it was already in front, placed if it is new. */
  lemma SegmentStep<V>(blocks: seq<HyperBlock<V>>, front: seq<HyperBlock<V>>, fieldLength: nat, i: nat)
    requires |blocks| > 0 && AllWellShaped(blocks, fieldLength) && i < |blocks|
    requires front == blocks[..|blocks| - 1] && AllWellShaped(front, fieldLength)
    requires forall j :: 0 <= j < |front| ==> SegmentAt(FlattenMinsMaxesForRub(front, fieldLength), front, j)
    ensures SegmentAt(FlattenMinsMaxesForRub(blocks, fieldLength), blocks, i)
  {
    if i < |blocks| - 1 {
      SegmentKept(blocks, fieldLength, i);
    } else {
      SegmentLast(blocks, fieldLength);
    }
  }

  /** Reads one group from the front of a stream: a count `c`, then `c` bounds. */
  function ReadGroup<V>(s: seq<Slot<V>>): Option<(seq<V>, seq<Slot<V>>)> {
    if |s| == 0 || !s[0].Count? || |s| - 1 < s[0].n then None
    else if exists i :: 1 <= i <= s[0].n && !s[i].Bound? then None
    else Some((seq(s[0].n, i requires 0 <= i < s[0].n => s[i + 1].v), s[s[0].n + 1..]))
  }

  /** Reads `k` groups from the front of a stream. */
  function ReadGroups<V>(s: seq<Slot<V>>, k: nat): Option<(seq<seq<V>>, seq<Slot<V>>)>
    decreases k
  {
    if k == 0 then Some(([], s))
    else
      var first :- ReadGroup(s);
      var more :- ReadGroups(first.1, k - 1);
      Some(([first.0] + more.0, more.1))
  }

  /** Reads a whole segment as the `f` attributes of one block. */
  function DecodeSegment<V>(s: seq<Slot<V>>, f: nat): Option<seq<seq<V>>> {
    var groups :- ReadGroups(s, f);
    if groups.1 == [] then Some(groups.0) else None
  }

  /** Rebuilds block `i` from its stretch of the two streams. */
  function DecodeBlockAt<V>(a: RubArrays<V>, f: nat, i: nat): Option<HyperBlock<V>>
    requires i < |a.blockClasses| && |a.blockEdges| == |a.blockClasses| + 1
  {
    var lo := a.blockEdges[i];
    var hi := a.blockEdges[i + 1];
    if !(lo <= hi <= |a.flatMins| && hi <= |a.flatMaxes|) then None
    else
      var mins :- DecodeSegment(a.flatMins[lo..hi], f);
      var maxs :- DecodeSegment(a.flatMaxes[lo..hi], f);
      Some(HyperBlock(mins, maxs, a.blockClasses[i]))
  }

  /** Block `i`'s decoder; past the last class there is no block. */
  function BlockDecoder<V>(a: RubArrays<V>, f: nat): nat -> Option<HyperBlock<V>>
    requires |a.blockEdges| == |a.blockClasses| + 1
  {
    (i: nat) => if i < |a.blockClasses| then DecodeBlockAt(a, f, i) else None
  }

  function UnflattenRub<V>(a: RubArrays<V>, f: nat): Option<seq<HyperBlock<V>>> {
    if |a.blockEdges| != |a.blockClasses| + 1 then None
    else Collect(BlockDecoder(a, f), |a.blockClasses|)
  }

  lemma {:induction false} ReadGroupsOfGroups<V>(vss: seq<seq<V>>, rest: seq<Slot<V>>)
    ensures ReadGroups(Concat(Groups(vss)) + rest, |vss|) == Some((vss, rest))
    decreases |vss|
  {
    if |vss| > 0 {
      ReadGroupsOfGroups(vss[1..], rest);
      ReadGroupsStep(vss, rest);
    } else {
      assert Groups(vss) == [];
      assert Concat(Groups(vss)) + rest == rest;
    }
  }

  lemma ReadGroupsStep<V>(vss: seq<seq<V>>, rest: seq<Slot<V>>)
    requires |vss| > 0
    requires ReadGroups(Concat(Groups(vss[1..])) + rest, |vss[1..]|) == Some((vss[1..], rest))
    ensures ReadGroups(Concat(Groups(vss)) + rest, |vss|) == Some((vss, rest))
  {
    var tail := Concat(Groups(vss[1..])) + rest;
    ReadFirstGroup(vss, rest);
    ReadGroupsCons(Concat(Groups(vss)) + rest, tail, |vss|, vss[0], vss[1..], rest);
    assert [vss[0]] + vss[1..] == vss;
  }

  lemma ReadGroupsCons<V>(s: seq<Slot<V>>, tail: seq<Slot<V>>, k: nat, v: seq<V>, vs: seq<seq<V>>, rest: seq<Slot<V>>)
    requires k > 0
    requires ReadGroup(s) == Some((v, tail))
    requires ReadGroups(tail, k - 1) == Some((vs, rest))
    ensures ReadGroups(s, k) == Some(([v] + vs, rest))
  {
  }

  /** The first group of the stream is read back as the first attribute's bounds. */
  lemma ReadFirstGroup<V>(vss: seq<seq<V>>, rest: seq<Slot<V>>)
    requires |vss| > 0
    ensures ReadGroup(Concat(Groups(vss)) + rest) == Some((vss[0], Concat(Groups(vss[1..])) + rest))
  {
    var gs := Groups(vss);
    ConcatFront(gs);
    assert gs[1..] == Groups(vss[1..]);
    var tail := Concat(gs[1..]) + rest;
    var v := vss[0];
    AppendAssoc(gs[0], Concat(gs[1..]), rest);
    ReadGroupOfGroup(v, tail);
  }

  lemma ReadGroupOfGroup<V>(v: seq<V>, tail: seq<Slot<V>>)
    ensures ReadGroup(Group(|v|, v) + tail) == Some((v, tail))
  {
    var s := Group(|v|, v) + tail;
    assert s[0] == Count(|v|);
    forall i | 1 <= i <= |v| ensures s[i] == Bound(v[i - 1]) {
      assert s[i] == Group(|v|, v)[i];
    }
    assert seq(|v|, i requires 0 <= i < |v| => s[i + 1].v) == v;
    assert s[|v| + 1..] == tail;
  }

  /** A well-shaped block's segments decode to its own bounds. */
  lemma DecodeSegments<V>(b: HyperBlock<V>, f: nat)
    requires WellShaped(b, f)
    ensures DecodeSegment(MinSegment(b), f) == Some(b.minimums)
    ensures DecodeSegment(MaxSegment(b), f) == Some(b.maximums)
  {
    ReadGroupsOfGroups(b.minimums, []);
    assert MinSegment(b) + [] == MinSegment(b);
    assert seq(|b.minimums|, m requires 0 <= m < |b.minimums| => Group(|b.minimums[m]|, b.maximums[m]))
        == Groups(b.maximums);
    ReadGroupsOfGroups(b.maximums, []);
    assert MaxSegment(b) + [] == MaxSegment(b);
  }

  /** Block `i` is read back from its stretch of the streams. */
  lemma DecodeBlockAtFlattened<V>(blocks: seq<HyperBlock<V>>, f: nat, i: nat)
    requires AllWellShaped(blocks, f) && i < |blocks|
    ensures DecodeBlockAt(FlattenMinsMaxesForRub(blocks, f), f, i) == Some(blocks[i])
  {
    var a := FlattenMinsMaxesForRub(blocks, f);
    EdgesLocateSegments(blocks, f);
    assert SegmentAt(a, blocks, i);
    var lo, hi := a.blockEdges[i], a.blockEdges[i + 1];
    assert WellShaped(blocks[i], f);
    DecodeSegments(blocks[i], f);
    assert DecodeSegment(a.flatMins[lo..hi], f) == Some(blocks[i].minimums);
    assert DecodeSegment(a.flatMaxes[lo..hi], f) == Some(blocks[i].maximums);
    assert a.blockClasses[i] == blocks[i].classNum;
  }

  /** Round trip: for blocks of `f` attributes with matching bound lists, the four arrays
      determine the blocks again, intervals, multiplicities and classes included. */
  lemma {:induction false} RubRoundTrip<V>(blocks: seq<HyperBlock<V>>, f: nat)
    requires AllWellShaped(blocks, f)
    ensures UnflattenRub(FlattenMinsMaxesForRub(blocks, f), f) == Some(blocks)
  {
    var a := FlattenMinsMaxesForRub(blocks, f);
    var decode := BlockDecoder(a, f);
    forall i | 0 <= i < |blocks| ensures decode(i) == Some(blocks[i]) {
      DecodeBlockAtFlattened(blocks, f, i);
    }
    CollectAll(decode, blocks, |blocks|);
    TakeAll(blocks);
  }
}
