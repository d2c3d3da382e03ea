/** The basic binary hyperblock file: a header of two ints (number of blocks, field length),
    then for every block `fieldLength` lower bounds, `fieldLength` upper bounds and the class.
    Only the first interval of each attribute is stored. */
module BasicCodec {
  import opened Wrappers
  import opened Blocks
  import opened Words

  predicate AllSavable<V>(blocks: seq<HyperBlock<V>>, f: nat) {
    forall i :: 0 <= i < |blocks| ==> Savable(blocks[i], f)
  }

  /** Every block collapsed to what the file keeps of it. */
  function CollapseAll<V>(blocks: seq<HyperBlock<V>>, f: nat): (r: seq<HyperBlock<V>>)
    requires AllSavable(blocks, f)
    ensures |r| == |blocks|
    ensures forall i :: 0 <= i < |blocks| ==> r[i] == Collapse(blocks[i], f)
    decreases |blocks|
  {
    if |blocks| == 0 then [] else [Collapse(blocks[0], f)] + CollapseAll(blocks[1..], f)
  }

  /** One block's record. */
  function EncodeBlock<V>(b: HyperBlock<V>, f: nat): (ws: seq<Word<V>>)
    requires Savable(b, f)
    ensures |ws| == f + f + 1 && ws[f + f] == I(b.classNum)
    ensures forall m :: 0 <= m < f ==> ws[m] == F(b.minimums[m][0]) && ws[f + m] == F(b.maximums[m][0])
  {
    Floats(Firsts(b.minimums[..f])) + Floats(Firsts(b.maximums[..f])) + [I(b.classNum)]
  }

  function EncodeBlocks<V>(blocks: seq<HyperBlock<V>>, f: nat): seq<Word<V>>
    requires AllSavable(blocks, f)
    decreases |blocks|
  {
    if |blocks| == 0 then []
    else EncodeBlock(blocks[0], f) + EncodeBlocks(blocks[1..], f)
  }

  /** The whole file for `blocks` written with the given field length. */
  function SaveBasic<V>(blocks: seq<HyperBlock<V>>, fieldLength: int): (ws: seq<Word<V>>)
    requires AllSavable(blocks, LoopCount(fieldLength))
    ensures |ws| >= 2 && ws[0] == I(|blocks|) && ws[1] == I(fieldLength)
  {
    [I(|blocks|), I(fieldLength)] + EncodeBlocks(blocks, LoopCount(fieldLength))
  }

  /** Reads one record as a block of `f` single-interval attributes. */
  function ReadBlock<V>(ws: seq<Word<V>>, f: nat): (r: Read<HyperBlock<V>, V>)
    ensures r.Success? ==> WellShaped(r.value.0, f) && SingleInterval(r.value.0)
    ensures r.Success? ==> |r.value.1| == |ws| - (f + f + 1)
    ensures r.Failure? ==> r.error != NegativeLength
  {
    var (mins, afterMins) :- ReadVals(ws, f);
    var (maxs, afterMaxs) :- ReadVals(afterMins, f);
    var (classNum, rest) :- ReadInt(afterMaxs);
    Success((HyperBlock(Singletons(mins), Singletons(maxs), classNum), rest))
  }

  function ReadBlocks<V>(ws: seq<Word<V>>, f: nat, n: nat): (r: Read<seq<HyperBlock<V>>, V>)
    ensures r.Success? ==> |r.value.0| == n
    ensures r.Success? ==> forall i :: 0 <= i < n ==>
              WellShaped(r.value.0[i], f) && SingleInterval(r.value.0[i])
    ensures r.Failure? ==> r.error != NegativeLength
    decreases n
  {
    if n == 0 then Success(([], ws))
    else
      var (b, afterBlock) :- ReadBlock(ws, f);
      var (bs, rest) :- ReadBlocks(afterBlock, f, n - 1);
      Success(([b] + bs, rest))
  }

  /** The reader: a non-positive block count gives no blocks; a negative field length with
      blocks to read fails, as sizing a vector by it does; fields after the last record are
      not read. */
  function LoadBasic<V>(ws: seq<Word<V>>): (r: Result<seq<HyperBlock<V>>, CodecError>)
    ensures r.Success? ==> |ws| >= 2 && ws[0].I? && ws[1].I?
    ensures r.Success? ==> |r.value| == (if ws[0].n <= 0 then 0 else ws[0].n)
    ensures r.Success? ==> forall i :: 0 <= i < |r.value| ==>
              WellShaped(r.value[i], LoopCount(ws[1].n)) && SingleInterval(r.value[i])
    ensures r == Failure(NegativeLength) <==>
              |ws| >= 2 && ws[0].I? && ws[1].I? && ws[0].n > 0 && ws[1].n < 0
  {
    var (numBlocks, afterCount) :- ReadInt(ws);
    var (fieldLength, body) :- ReadInt(afterCount);
    if numBlocks <= 0 then Success([])
    else if fieldLength < 0 then Failure(NegativeLength)
    else
      var (blocks, _) :- ReadBlocks(body, fieldLength, numBlocks);
      Success(blocks)
  }

  lemma ReadBlockOfEncoded<V>(b: HyperBlock<V>, f: nat, rest: seq<Word<V>>)
    requires Savable(b, f)
    ensures ReadBlock(EncodeBlock(b, f) + rest, f) == Success((Collapse(b, f), rest))
  {
    var mins := Firsts(b.minimums[..f]);
    var maxs := Firsts(b.maximums[..f]);
    var ws := EncodeBlock(b, f) + rest;
    assert ws == Floats(mins) + (Floats(maxs) + ([I(b.classNum)] + rest));
    ReadValsOfFloats(mins, Floats(maxs) + ([I(b.classNum)] + rest));
    ReadValsOfFloats(maxs, [I(b.classNum)] + rest);
  }

  lemma ReadBlocksCons<V>(ws: seq<Word<V>>, mid: seq<Word<V>>, rest: seq<Word<V>>, f: nat, n: nat,
                         b: HyperBlock<V>, bs: seq<HyperBlock<V>>)
    requires n > 0
    requires ReadBlock(ws, f) == Success((b, mid))
    requires ReadBlocks(mid, f, n - 1) == Success((bs, rest))
    ensures ReadBlocks(ws, f, n) == Success(([b] + bs, rest))
  {
  }

  lemma SavableTail<V>(blocks: seq<HyperBlock<V>>, f: nat)
    requires |blocks| > 0 && AllSavable(blocks, f)
    ensures Savable(blocks[0], f) && AllSavable(blocks[1..], f)
  {
    var tail := blocks[1..];
    forall i | 0 <= i < |tail| ensures Savable(tail[i], f) {
      assert tail[i] == blocks[i + 1];
    }
  }

  lemma EncodeBlocksCons<V>(blocks: seq<HyperBlock<V>>, f: nat, rest: seq<Word<V>>)
    requires |blocks| > 0 && AllSavable(blocks, f) && AllSavable(blocks[1..], f)
    ensures EncodeBlocks(blocks, f) + rest == EncodeBlock(blocks[0], f) + (EncodeBlocks(blocks[1..], f) + rest)
  {
    AppendAssoc(EncodeBlock(blocks[0], f), EncodeBlocks(blocks[1..], f), rest);
  }

  lemma {:induction false} ReadBlocksOfEncoded<V>(blocks: seq<HyperBlock<V>>, f: nat, rest: seq<Word<V>>)
    requires AllSavable(blocks, f)
    ensures ReadBlocks(EncodeBlocks(blocks, f) + rest, f, |blocks|)
         == Success((CollapseAll(blocks, f), rest))
    decreases |blocks|
  {
    if |blocks| > 0 {
      var tail := blocks[1..];
      var ws := EncodeBlocks(blocks, f) + rest;
      var mid := EncodeBlocks(tail, f) + rest;
      var b := Collapse(blocks[0], f);
      var bs := CollapseAll(tail, f);
      SavableTail(blocks, f);
      assert ReadBlock(ws, f) == Success((b, mid)) by {
        EncodeBlocksCons(blocks, f, rest);
        ReadBlockOfEncoded(blocks[0], f, mid);
      }
      assert ReadBlocks(mid, f, |tail|) == Success((bs, rest)) by {
        ReadBlocksOfEncoded(tail, f, rest);
      }
      ReadBlocksCons(ws, mid, rest, f, |blocks|, b, bs);
    } else {
      assert EncodeBlocks(blocks, f) + rest == rest;
    }
  }

  /** Round trip: reading back a saved file gives every block collapsed to its first
      `fieldLength` attributes and first intervals, whatever follows the file. */
  lemma {:induction false} BasicRoundTrip<V>(blocks: seq<HyperBlock<V>>, fieldLength: int, rest: seq<Word<V>>)
    requires AllSavable(blocks, LoopCount(fieldLength))
    ensures LoadBasic(SaveBasic(blocks, fieldLength) + rest)
         == if |blocks| == 0 then Success([])
            else if fieldLength < 0 then Failure(NegativeLength)
            else Success(CollapseAll(blocks, fieldLength))
  {
    var body := EncodeBlocks(blocks, LoopCount(fieldLength));
    var ws := SaveBasic(blocks, fieldLength) + rest;
    var afterCount := [I(fieldLength)] + body + rest;
    HeaderSplit(|blocks|, fieldLength, body, rest);
    IntThenRest(|blocks|, [I(fieldLength)] + body, rest);
    IntThenRest(fieldLength, body, rest);
    if |blocks| == 0 {
      LoadOfNoBlocks(ws, |blocks|, fieldLength, afterCount, body + rest);
    } else if fieldLength < 0 {
      LoadOfNegativeLength(ws, |blocks|, fieldLength, afterCount, body + rest);
    } else {
      ReadBlocksOfEncoded(blocks, fieldLength, rest);
      LoadOfBlocks(ws, |blocks|, fieldLength, afterCount, body + rest, CollapseAll(blocks, fieldLength), rest);
    }
  }

  lemma HeaderSplit<V>(n: int, f: int, body: seq<Word<V>>, rest: seq<Word<V>>)
    ensures [I(n), I(f)] + body + rest == [I(n)] + ([I(f)] + body) + rest
  {
  }

  lemma LoadOfNoBlocks<V>(ws: seq<Word<V>>, n: int, f: int, afterCount: seq<Word<V>>, body: seq<Word<V>>)
    requires n <= 0
    requires ReadInt(ws) == Success((n, afterCount))
    requires ReadInt(afterCount) == Success((f, body))
    ensures LoadBasic(ws) == Success([])
  {
  }

  lemma LoadOfNegativeLength<V>(ws: seq<Word<V>>, n: int, f: int, afterCount: seq<Word<V>>, body: seq<Word<V>>)
    requires n > 0 && f < 0
    requires ReadInt(ws) == Success((n, afterCount))
    requires ReadInt(afterCount) == Success((f, body))
    ensures LoadBasic(ws) == Failure(NegativeLength)
  {
  }

  lemma LoadOfBlocks<V>(ws: seq<Word<V>>, n: nat, f: nat, afterCount: seq<Word<V>>, body: seq<Word<V>>,
                        blocks: seq<HyperBlock<V>>, rest: seq<Word<V>>)
    requires n > 0
    requires ReadInt(ws) == Success((n as int, afterCount))
    requires ReadInt(afterCount) == Success((f as int, body))
    requires ReadBlocks(body, f, n) == Success((blocks, rest))
    ensures LoadBasic(ws) == Success(blocks)
  {
  }

  /** Blocks of `f` single-interval attributes come back unchanged. */
  lemma BasicExactRoundTrip<V>(blocks: seq<HyperBlock<V>>, f: nat, rest: seq<Word<V>>)
    requires AllWellShaped(blocks, f)
    requires forall i :: 0 <= i < |blocks| ==> SingleInterval(blocks[i])
    ensures AllSavable(blocks, f)
    ensures LoadBasic(SaveBasic(blocks, f) + rest) == Success(blocks)
  {
    forall i | 0 <= i < |blocks| ensures Savable(blocks[i], f) && Collapse(blocks[i], f) == blocks[i] {
      CollapseKeeps(blocks[i], f);
    }
    BasicRoundTrip(blocks, f, rest);
    assert CollapseAll(blocks, f) == blocks;
  }
}
