/** The one-to-one binary hyperblock file: block sets, each separating one pair of classes.
    Layout: the number of sets; then per set the two class numbers (ascending), the number of
    blocks, and per block its attribute count, one lower bound per attribute, one upper bound
    per upper-bound list, and its class. */
module OneToOneCodec {
  import opened Wrappers
  import opened Blocks
  import opened Words

  /** Some block of the set votes for a class other than the first block's. */
  predicate TwoClasses<V>(bs: seq<HyperBlock<V>>) {
    |bs| > 0 && exists j :: 0 <= j < |bs| && bs[j].classNum != bs[0].classNum
  }

  /** The first block from `j` on whose class differs from the first block's. */
  function FirstOther<V>(bs: seq<HyperBlock<V>>, j: nat): (k: nat)
    requires 0 < |bs| && j <= |bs|
    requires exists i :: j <= i < |bs| && bs[i].classNum != bs[0].classNum
    ensures j <= k < |bs| && bs[k].classNum != bs[0].classNum
    ensures forall i :: j <= i < k ==> bs[i].classNum == bs[0].classNum
    decreases |bs| - j
  {
    if bs[j].classNum != bs[0].classNum then j else FirstOther(bs, j + 1)
  }

  /** The pair the writer stores for a set: it collects class numbers into an ordered set,
      stopping at the second distinct one, and writes the smaller then the larger. */
  function ClassPair<V>(bs: seq<HyperBlock<V>>): (p: (int, int))
    requires TwoClasses(bs)
    ensures p.0 < p.1
    ensures {p.0, p.1} == set i | 0 <= i <= FirstOther(bs, 1) :: bs[i].classNum
  {
    var k := FirstOther(bs, 1);
    var a, b := bs[0].classNum, bs[k].classNum;
    var seen := set i | 0 <= i <= k :: bs[i].classNum;
    assert seen == {a, b} by {
      forall x | x in seen ensures x == a || x == b {
        var i :| 0 <= i <= k && bs[i].classNum == x;
        if i < k {
          assert 1 <= i ==> bs[i].classNum == a;
        }
      }
      assert a in seen && b in seen by {
        assert bs[0].classNum == a && bs[k].classNum == b;
      }
    }
    if a < b then (a, b) else (b, a)
  }

  /** Every interval list of the block is non-empty: the writer reads entry `[0]` of each. */
  predicate BlockSavable<V>(b: HyperBlock<V>) {
    && (forall m :: 0 <= m < |b.minimums| ==> |b.minimums[m]| > 0)
    && (forall m :: 0 <= m < |b.maximums| ==> |b.maximums[m]| > 0)
  }

  predicate SetSavable<V>(bs: seq<HyperBlock<V>>) {
    TwoClasses(bs) && forall i :: 0 <= i < |bs| ==> BlockSavable(bs[i])
  }

  predicate AllSetsSavable<V>(sets: seq<seq<HyperBlock<V>>>) {
    forall s :: 0 <= s < |sets| ==> SetSavable(sets[s])
  }

  /** One block's record: its attribute count is that of `minimums`, but every list of
      `maximums` is written. */
  function EncodeBlock<V>(b: HyperBlock<V>): (ws: seq<Word<V>>)
    requires BlockSavable(b)
    ensures |ws| == |b.minimums| + |b.maximums| + 2
    ensures ws[0] == I(|b.minimums|) && ws[|ws| - 1] == I(b.classNum)
  {
    [I(|b.minimums|)] + Floats(Firsts(b.minimums)) + Floats(Firsts(b.maximums)) + [I(b.classNum)]
  }

  function EncodeBlocks<V>(bs: seq<HyperBlock<V>>): seq<Word<V>>
    requires forall i :: 0 <= i < |bs| ==> BlockSavable(bs[i])
    decreases |bs|
  {
    if |bs| == 0 then [] else EncodeBlock(bs[0]) + EncodeBlocks(bs[1..])
  }

  function EncodeSet<V>(bs: seq<HyperBlock<V>>): (ws: seq<Word<V>>)
    requires SetSavable(bs)
    ensures |ws| >= 3 && ws[0] == I(ClassPair(bs).0) && ws[1] == I(ClassPair(bs).1) && ws[2] == I(|bs|)
  {
    [I(ClassPair(bs).0), I(ClassPair(bs).1), I(|bs|)] + EncodeBlocks(bs)
  }

  function EncodeSets<V>(sets: seq<seq<HyperBlock<V>>>): seq<Word<V>>
    requires AllSetsSavable(sets)
    decreases |sets|
  {
    if |sets| == 0 then [] else EncodeSet(sets[0]) + EncodeSets(sets[1..])
  }

  /** The whole file for a list of block sets. */
  function SaveOneToOne<V>(sets: seq<seq<HyperBlock<V>>>): (ws: seq<Word<V>>)
    requires AllSetsSavable(sets)
    ensures |ws| > 0 && ws[0] == I(|sets|)
  {
    [I(|sets|)] + EncodeSets(sets)
  }

  /** Reads one record; a negative attribute count fails, as sizing a vector by it does. */
  function ReadBlock<V>(ws: seq<Word<V>>): (r: Read<HyperBlock<V>, V>)
    ensures r.Success? ==> |ws| > 0 && ws[0].I? && ws[0].n >= 0
    ensures r.Success? ==> |r.value.0.minimums| == ws[0].n && SingleInterval(r.value.0)
    ensures r.Success? ==> |r.value.1| < |ws|
  {
    var (attrCount, afterCount) :- ReadInt(ws);
    if attrCount < 0 then Failure(NegativeLength)
    else
      var (mins, afterMins) :- ReadVals(afterCount, attrCount);
      var (maxs, afterMaxs) :- ReadVals(afterMins, attrCount);
      var (classNum, rest) :- ReadInt(afterMaxs);
      Success((HyperBlock(Singletons(mins), Singletons(maxs), classNum), rest))
  }

  function ReadBlocks<V>(ws: seq<Word<V>>, n: nat): (r: Read<seq<HyperBlock<V>>, V>)
    ensures r.Success? ==> |r.value.0| == n
    ensures r.Success? ==> forall i :: 0 <= i < n ==> SingleInterval(r.value.0[i])
    decreases n
  {
    if n == 0 then Success(([], ws))
    else
      var (b, afterBlock) :- ReadBlock(ws);
      var (bs, rest) :- ReadBlocks(afterBlock, n - 1);
      Success(([b] + bs, rest))
  }

  /** Reads one set: the stored pair, then its blocks (none when the count is not positive). */
  function ReadSet<V>(ws: seq<Word<V>>): (r: Read<(seq<HyperBlock<V>>, (int, int)), V>)
    ensures r.Success? ==> |ws| >= 3 && ws[0].I? && ws[1].I? && ws[2].I?
    ensures r.Success? ==> r.value.0.1 == (ws[0].n, ws[1].n) && |r.value.0.0| == LoopCount(ws[2].n)
  {
    var (classA, afterA) :- ReadInt(ws);
    var (classB, afterB) :- ReadInt(afterA);
    var (numBlocks, body) :- ReadInt(afterB);
    var (blocks, rest) :- ReadBlocks(body, LoopCount(numBlocks));
    Success(((blocks, (classA, classB)), rest))
  }

  function ReadSets<V>(ws: seq<Word<V>>, n: nat): (r: Read<(seq<seq<HyperBlock<V>>>, seq<(int, int)>), V>)
    ensures r.Success? ==> |r.value.0.0| == n && |r.value.0.1| == n
    decreases n
  {
    if n == 0 then Success((([], []), ws))
    else
      var (first, afterSet) :- ReadSet(ws);
      var (more, rest) :- ReadSets(afterSet, n - 1);
      Success((([first.0] + more.0, [first.1] + more.1), rest))
  }

  /** The reader: the block sets and, alongside, the class pair stored for each. */
  function LoadOneToOne<V>(ws: seq<Word<V>>): (r: Result<(seq<seq<HyperBlock<V>>>, seq<(int, int)>), CodecError>)
    ensures r.Success? ==> |ws| > 0 && ws[0].I?
    ensures r.Success? ==> |r.value.0| == LoopCount(ws[0].n) && |r.value.1| == |r.value.0|
  {
    var (numSets, body) :- ReadInt(ws);
    var (loaded, _) :- ReadSets(body, LoopCount(numSets));
    Success(loaded)
  }

  /** The reader reads as many upper bounds as the attribute count, so a block is read back
      in step only when it has as many upper-bound lists as lower-bound lists. */
  predicate Matched<V>(b: HyperBlock<V>) {
    |b.maximums| == |b.minimums|
  }

  predicate SetReadable<V>(bs: seq<HyperBlock<V>>) {
    SetSavable(bs) && forall i :: 0 <= i < |bs| ==> Matched(bs[i])
  }

  predicate AllSetsReadable<V>(sets: seq<seq<HyperBlock<V>>>) {
    forall s :: 0 <= s < |sets| ==> SetReadable(sets[s])
  }

  /** What the file keeps of a block: every attribute cut down to its first interval. */
  function CollapseBlock<V>(b: HyperBlock<V>): (r: HyperBlock<V>)
    requires BlockSavable(b) && Matched(b)
    ensures Savable(b, |b.minimums|) && r == Collapse(b, |b.minimums|)
  {
    assert Savable(b, |b.minimums|);
    Collapse(b, |b.minimums|)
  }

  function CollapseBlocks<V>(bs: seq<HyperBlock<V>>): (r: seq<HyperBlock<V>>)
    requires AllMatched(bs)
    ensures |r| == |bs|
    ensures forall i :: 0 <= i < |bs| ==> r[i] == CollapseBlock(bs[i])
    decreases |bs|
  {
    if |bs| == 0 then [] else [CollapseBlock(bs[0])] + CollapseBlocks(bs[1..])
  }

  function CollapseSets<V>(sets: seq<seq<HyperBlock<V>>>): (r: seq<seq<HyperBlock<V>>>)
    requires AllSetsReadable(sets)
    ensures |r| == |sets|
    ensures forall s :: 0 <= s < |sets| ==> r[s] == CollapseBlocks(sets[s])
    decreases |sets|
  {
    if |sets| == 0 then [] else [CollapseBlocks(sets[0])] + CollapseSets(sets[1..])
  }

  /** The class pair of every set, in order. */
  function Pairs<V>(sets: seq<seq<HyperBlock<V>>>): (r: seq<(int, int)>)
    requires AllSetsSavable(sets)
    ensures |r| == |sets|
    ensures forall s :: 0 <= s < |sets| ==> r[s] == ClassPair(sets[s])
    decreases |sets|
  {
    if |sets| == 0 then [] else [ClassPair(sets[0])] + Pairs(sets[1..])
  }

  lemma ReadBlockOfEncoded<V>(b: HyperBlock<V>, rest: seq<Word<V>>)
    requires BlockSavable(b) && Matched(b)
    ensures ReadBlock(EncodeBlock(b) + rest) == Success((CollapseBlock(b), rest))
  {
    var mins := Firsts(b.minimums);
    var maxs := Firsts(b.maximums);
    var ws := EncodeBlock(b) + rest;
    assert ws[1..] == Floats(mins) + (Floats(maxs) + ([I(b.classNum)] + rest));
    ReadValsOfFloats(mins, Floats(maxs) + ([I(b.classNum)] + rest));
    ReadValsOfFloats(maxs, [I(b.classNum)] + rest);
    assert b.minimums[..|b.minimums|] == b.minimums;
    assert b.maximums[..|b.minimums|] == b.maximums;
  }

  lemma ReadBlocksCons<V>(ws: seq<Word<V>>, mid: seq<Word<V>>, rest: seq<Word<V>>, n: nat,
                         b: HyperBlock<V>, bs: seq<HyperBlock<V>>)
    requires n > 0
    requires ReadBlock(ws) == Success((b, mid))
    requires ReadBlocks(mid, n - 1) == Success((bs, rest))
    ensures ReadBlocks(ws, n) == Success(([b] + bs, rest))
  {
  }

  predicate AllMatched<V>(bs: seq<HyperBlock<V>>) {
    forall i :: 0 <= i < |bs| ==> BlockSavable(bs[i]) && Matched(bs[i])
  }

  lemma MatchedTail<V>(bs: seq<HyperBlock<V>>)
    requires |bs| > 0 && AllMatched(bs)
    ensures BlockSavable(bs[0]) && Matched(bs[0]) && AllMatched(bs[1..])
  {
    var tail := bs[1..];
    forall i | 0 <= i < |tail| ensures BlockSavable(tail[i]) && Matched(tail[i]) {
      assert tail[i] == bs[i + 1];
    }
  }

  lemma ReadFirstBlock<V>(bs: seq<HyperBlock<V>>, rest: seq<Word<V>>)
    requires |bs| > 0 && AllMatched(bs) && AllMatched(bs[1..])
    ensures ReadBlock(EncodeBlocks(bs) + rest) == Success((CollapseBlock(bs[0]), EncodeBlocks(bs[1..]) + rest))
  {
    var head := EncodeBlock(bs[0]);
    var tail := EncodeBlocks(bs[1..]);
    assert EncodeBlocks(bs) == head + tail;
    AppendAssoc(head, tail, rest);
    ReadBlockOfEncoded(bs[0], tail + rest);
  }

  lemma ReadBlocksStep<V>(bs: seq<HyperBlock<V>>, rest: seq<Word<V>>)
    requires |bs| > 0 && AllMatched(bs) && AllMatched(bs[1..])
    requires ReadBlocks(EncodeBlocks(bs[1..]) + rest, |bs[1..]|) == Success((CollapseBlocks(bs[1..]), rest))
    ensures ReadBlocks(EncodeBlocks(bs) + rest, |bs|) == Success((CollapseBlocks(bs), rest))
  {
    ReadFirstBlock(bs, rest);
    ReadBlocksCons(EncodeBlocks(bs) + rest, EncodeBlocks(bs[1..]) + rest, rest, |bs|,
                   CollapseBlock(bs[0]), CollapseBlocks(bs[1..]));
  }

  lemma ReadBlocksOfNothing<V>(bs: seq<HyperBlock<V>>, rest: seq<Word<V>>)
    requires |bs| == 0
    ensures ReadBlocks(EncodeBlocks(bs) + rest, |bs|) == Success((CollapseBlocks(bs), rest))
  {
    assert EncodeBlocks(bs) + rest == rest;
  }

  lemma {:induction false} ReadBlocksOfEncoded<V>(bs: seq<HyperBlock<V>>, rest: seq<Word<V>>)
    requires AllMatched(bs)
    ensures ReadBlocks(EncodeBlocks(bs) + rest, |bs|) == Success((CollapseBlocks(bs), rest))
    decreases |bs|
  {
    if |bs| > 0 {
      MatchedTail(bs);
      ReadBlocksOfEncoded(bs[1..], rest);
      ReadBlocksStep(bs, rest);
    } else {
      ReadBlocksOfNothing(bs, rest);
    }
  }

  lemma ReadSetOfEncoded<V>(bs: seq<HyperBlock<V>>, rest: seq<Word<V>>)
    requires SetReadable(bs)
    ensures ReadSet(EncodeSet(bs) + rest) == Success(((CollapseBlocks(bs), ClassPair(bs)), rest))
  {
    var p := ClassPair(bs);
    var ws := EncodeSet(bs) + rest;
    SetHeader(p.0, p.1, |bs|, EncodeBlocks(bs), rest);
    ReadBlocksOfEncoded(bs, rest);
    ReadSetOfParts(ws, p.0, p.1, |bs|, EncodeBlocks(bs) + rest, CollapseBlocks(bs), rest);
  }

  lemma SetHeader<V>(a: int, b: int, n: int, body: seq<Word<V>>, rest: seq<Word<V>>)
    ensures ([I(a), I(b), I(n)] + body + rest)[..3] == [I(a), I(b), I(n)]
    ensures ([I(a), I(b), I(n)] + body + rest)[3..] == body + rest
  {
  }

  lemma ReadSetOfParts<V>(ws: seq<Word<V>>, a: int, b: int, n: nat, body: seq<Word<V>>,
                          blocks: seq<HyperBlock<V>>, rest: seq<Word<V>>)
    requires |ws| >= 3 && ws[..3] == [I(a), I(b), I(n)] && ws[3..] == body
    requires ReadBlocks(body, n) == Success((blocks, rest))
    ensures ReadSet(ws) == Success(((blocks, (a, b)), rest))
  {
    assert ws[0] == I(a) && ws[1] == I(b) && ws[2] == I(n) by {
      assert ws[..3][0] == ws[0] && ws[..3][1] == ws[1] && ws[..3][2] == ws[2];
    }
    assert ws[1..][1..][1..] == body;
  }

  lemma ReadSetsCons<V>(ws: seq<Word<V>>, mid: seq<Word<V>>, rest: seq<Word<V>>, n: nat,
                       first: (seq<HyperBlock<V>>, (int, int)),
                       more: (seq<seq<HyperBlock<V>>>, seq<(int, int)>))
    requires n > 0
    requires ReadSet(ws) == Success((first, mid))
    requires ReadSets(mid, n - 1) == Success((more, rest))
    ensures ReadSets(ws, n) == Success((([first.0] + more.0, [first.1] + more.1), rest))
  {
  }

  lemma ReadableTail<V>(sets: seq<seq<HyperBlock<V>>>)
    requires |sets| > 0 && AllSetsReadable(sets)
    ensures SetReadable(sets[0]) && AllSetsReadable(sets[1..])
  {
    var tail := sets[1..];
    forall s | 0 <= s < |tail| ensures SetReadable(tail[s]) {
      assert tail[s] == sets[s + 1];
    }
  }

  lemma ReadFirstSet<V>(sets: seq<seq<HyperBlock<V>>>, rest: seq<Word<V>>)
    requires |sets| > 0 && AllSetsReadable(sets) && AllSetsReadable(sets[1..])
    ensures ReadSet(EncodeSets(sets) + rest)
         == Success(((CollapseBlocks(sets[0]), ClassPair(sets[0])), EncodeSets(sets[1..]) + rest))
  {
    var head := EncodeSet(sets[0]);
    var tail := EncodeSets(sets[1..]);
    assert EncodeSets(sets) == head + tail;
    AppendAssoc(head, tail, rest);
    ReadSetOfEncoded(sets[0], tail + rest);
  }

  /** The inductive step: one more set in front of files already read back. */
  lemma ReadSetsStep<V>(sets: seq<seq<HyperBlock<V>>>, rest: seq<Word<V>>)
    requires |sets| > 0 && AllSetsReadable(sets) && AllSetsReadable(sets[1..])
    requires ReadSets(EncodeSets(sets[1..]) + rest, |sets[1..]|)
          == Success(((CollapseSets(sets[1..]), Pairs(sets[1..])), rest))
    ensures ReadSets(EncodeSets(sets) + rest, |sets|) == Success(((CollapseSets(sets), Pairs(sets)), rest))
  {
    ReadFirstSet(sets, rest);
    ReadSetsCons(EncodeSets(sets) + rest, EncodeSets(sets[1..]) + rest, rest, |sets|,
                 (CollapseBlocks(sets[0]), ClassPair(sets[0])), (CollapseSets(sets[1..]), Pairs(sets[1..])));
  }

  lemma ReadSetsOfNothing<V>(sets: seq<seq<HyperBlock<V>>>, rest: seq<Word<V>>)
    requires |sets| == 0
    ensures AllSetsSavable(sets)
    ensures ReadSets(EncodeSets(sets) + rest, |sets|) == Success(((CollapseSets(sets), Pairs(sets)), rest))
  {
    assert EncodeSets(sets) + rest == rest;
  }

  lemma {:induction false} ReadSetsOfEncoded<V>(sets: seq<seq<HyperBlock<V>>>, rest: seq<Word<V>>)
    requires AllSetsReadable(sets)
    ensures AllSetsSavable(sets)
    ensures ReadSets(EncodeSets(sets) + rest, |sets|) == Success(((CollapseSets(sets), Pairs(sets)), rest))
    decreases |sets|
  {
    if |sets| > 0 {
      ReadableTail(sets);
      ReadSetsOfEncoded(sets[1..], rest);
      ReadSetsStep(sets, rest);
    } else {
      ReadSetsOfNothing(sets, rest);
    }
  }

  /** Round trip: loading a saved file gives back as many sets as were saved, each with its
      blocks in order (every attribute cut down to its first interval) and the set's class
      pair, whatever follows the file. */
  lemma OneToOneRoundTrip<V>(sets: seq<seq<HyperBlock<V>>>, rest: seq<Word<V>>)
    requires AllSetsReadable(sets)
    ensures AllSetsSavable(sets)
    ensures LoadOneToOne(SaveOneToOne(sets) + rest) == Success((CollapseSets(sets), Pairs(sets)))
  {
    ReadSetsOfEncoded(sets, rest);
    HeaderOfSaved(sets, rest);
    LoadOfSets(SaveOneToOne(sets) + rest, |sets|, EncodeSets(sets) + rest, (CollapseSets(sets), Pairs(sets)), rest);
  }

  lemma HeaderOfSaved<V>(sets: seq<seq<HyperBlock<V>>>, rest: seq<Word<V>>)
    requires AllSetsSavable(sets)
    ensures ReadInt(SaveOneToOne(sets) + rest) == Success((|sets|, EncodeSets(sets) + rest))
  {
    IntThenRest(|sets|, EncodeSets(sets), rest);
  }

  lemma LoadOfSets<V>(ws: seq<Word<V>>, n: nat, body: seq<Word<V>>,
                      loaded: (seq<seq<HyperBlock<V>>>, seq<(int, int)>), rest: seq<Word<V>>)
    requires ReadInt(ws) == Success((n, body))
    requires ReadSets(body, n) == Success((loaded, rest))
    ensures LoadOneToOne(ws) == Success(loaded)
  {
  }

  /** Sets whose blocks have single-interval attributes come back unchanged, and each stored
      pair is the set's two classes in ascending order. */
  lemma OneToOneExactRoundTrip<V>(sets: seq<seq<HyperBlock<V>>>, rest: seq<Word<V>>)
    requires forall s :: 0 <= s < |sets| ==> TwoClasses(sets[s])
    requires forall s, i :: 0 <= s < |sets| && 0 <= i < |sets[s]| ==> SingleInterval(sets[s][i])
    ensures AllSetsSavable(sets)
    ensures LoadOneToOne(SaveOneToOne(sets) + rest).Success?
    ensures LoadOneToOne(SaveOneToOne(sets) + rest).value.0 == sets
    ensures forall s :: 0 <= s < |sets| ==>
              var p := LoadOneToOne(SaveOneToOne(sets) + rest).value.1[s];
              p.0 < p.1 && p.0 in ClassesOf(sets[s]) && p.1 in ClassesOf(sets[s])
  {
    SetsKept(sets);
    OneToOneRoundTrip(sets, rest);
    PairsInClasses(sets);
  }

  /** Sets of single-interval blocks are readable and collapse to themselves. */
  lemma SetsKept<V>(sets: seq<seq<HyperBlock<V>>>)
    requires forall s :: 0 <= s < |sets| ==> TwoClasses(sets[s])
    requires forall s, i :: 0 <= s < |sets| && 0 <= i < |sets[s]| ==> SingleInterval(sets[s][i])
    ensures AllSetsReadable(sets) && CollapseSets(sets) == sets
  {
    forall s, i | 0 <= s < |sets| && 0 <= i < |sets[s]|
      ensures BlockSavable(sets[s][i]) && Matched(sets[s][i])
      ensures CollapseBlock(sets[s][i]) == sets[s][i]
    {
      CollapseKeeps(sets[s][i], |sets[s][i].minimums|);
    }
    forall s | 0 <= s < |sets| ensures CollapseBlocks(sets[s]) == sets[s] {
    }
  }

  lemma PairsInClasses<V>(sets: seq<seq<HyperBlock<V>>>)
    requires AllSetsSavable(sets)
    ensures forall s :: 0 <= s < |sets| ==>
              var p := Pairs(sets)[s];
              p.0 < p.1 && p.0 in ClassesOf(sets[s]) && p.1 in ClassesOf(sets[s])
  {
    forall s | 0 <= s < |sets|
      ensures ClassPair(sets[s]).0 in ClassesOf(sets[s]) && ClassPair(sets[s]).1 in ClassesOf(sets[s])
    {
      var p := ClassPair(sets[s]);
      assert p.0 in {p.0, p.1} && p.1 in {p.0, p.1};
    }
  }

  /** The classes the blocks of a set vote for. */
  function ClassesOf<V>(bs: seq<HyperBlock<V>>): set<int> {
    set i | 0 <= i < |bs| :: bs[i].classNum
  }
}
