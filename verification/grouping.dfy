/** Splitting a list of hyperblocks into maximal runs of blocks of the same class, as the
    one-to-some loader does after reading its file. */
module Grouping {
  import opened Blocks

  /** Every block of the group votes for the group's first class. */
  predicate SameClass<V>(g: seq<HyperBlock<V>>) {
    forall j :: 0 <= j < |g| ==> g[j].classNum == g[0].classNum
  }

  /** `groups` splits `blocks` into runs: in order, nothing lost, each run non-empty and of one
      class, and neighbouring runs of different classes (so every run is maximal). */
  ghost predicate IsRunSplit<V>(groups: seq<seq<HyperBlock<V>>>, blocks: seq<HyperBlock<V>>) {
    && Concat(groups) == blocks
    && (forall k :: 0 <= k < |groups| ==> |groups[k]| > 0 && SameClass(groups[k]))
    && (forall k :: 0 < k < |groups| ==> groups[k][0].classNum != groups[k - 1][0].classNum)
  }

  /** The loop's state part-way: the closed groups and the open one together spell out the
      blocks seen so far, the open group is of class `c`, and the last closed group is not. */
  ghost predicate Building<V>(groups: seq<seq<HyperBlock<V>>>, current: seq<HyperBlock<V>>, c: int,
                              seen: seq<HyperBlock<V>>) {
    && Concat(groups) + current == seen
    && (forall k :: 0 <= k < |groups| ==> |groups[k]| > 0 && SameClass(groups[k]))
    && (forall k :: 0 < k < |groups| ==> groups[k][0].classNum != groups[k - 1][0].classNum)
    && (forall j :: 0 <= j < |current| ==> current[j].classNum == c)
    && (|groups| > 0 ==> groups[|groups| - 1][0].classNum != c)
  }

  lemma ExtendRun<V>(groups: seq<seq<HyperBlock<V>>>, current: seq<HyperBlock<V>>, c: int,
                     seen: seq<HyperBlock<V>>, b: HyperBlock<V>)
    requires Building(groups, current, c, seen) && b.classNum == c
    ensures Building(groups, current + [b], c, seen + [b])
  {
  }

  lemma StartRun<V>(groups: seq<seq<HyperBlock<V>>>, current: seq<HyperBlock<V>>, c: int,
                    seen: seq<HyperBlock<V>>, b: HyperBlock<V>)
    requires Building(groups, current, c, seen) && |current| > 0 && b.classNum != c
    ensures Building(groups + [current], [b], b.classNum, seen + [b])
  {
    FinishRuns(groups, current, c, seen);
    assert (groups + [current])[|groups|] == current;
  }

  lemma FinishRuns<V>(groups: seq<seq<HyperBlock<V>>>, current: seq<HyperBlock<V>>, c: int,
                      seen: seq<HyperBlock<V>>)
    requires Building(groups, current, c, seen) && |current| > 0
    ensures IsRunSplit(groups + [current], seen)
  {
    ConcatAppend(groups, current);
    var g := groups + [current];
    assert SameClass(current);
    assert forall k :: 0 <= k < |groups| ==> g[k] == groups[k];
  }

  /** The loader's loop: start a new group whenever the class changes, then push the last
      group if it is non-empty. */
  method SplitIntoRuns<V>(blocks: seq<HyperBlock<V>>) returns (groups: seq<seq<HyperBlock<V>>>)
    ensures IsRunSplit(groups, blocks)
    ensures |blocks| == 0 ==> groups == []
  {
    groups := [];
    if |blocks| == 0 {
      return;
    }
    var current: seq<HyperBlock<V>> := [];
    var currentClass := blocks[0].classNum;
    for i := 0 to |blocks|
      invariant Building(groups, current, currentClass, blocks[..i])
      invariant i > 0 ==> |current| > 0
      invariant i == 0 ==> currentClass == blocks[0].classNum
    {
      TakeStep(blocks, i);
      if blocks[i].classNum != currentClass {
        StartRun(groups, current, currentClass, blocks[..i], blocks[i]);
        groups := groups + [current];
        current := [blocks[i]];
        currentClass := blocks[i].classNum;
      } else {
        ExtendRun(groups, current, currentClass, blocks[..i], blocks[i]);
        current := current + [blocks[i]];
      }
    }
    TakeAll(blocks);
    if |current| > 0 {
      FinishRuns(groups, current, currentClass, blocks);
      groups := groups + [current];
    }
  }

  /** How many blocks at the end of `blocks` vote for class `c`, counted back to the first
      that does not. */
  function TrailingRun<V>(blocks: seq<HyperBlock<V>>, c: int): (t: nat)
    ensures t <= |blocks|
    ensures forall j :: |blocks| - t <= j < |blocks| ==> blocks[j].classNum == c
    ensures t < |blocks| ==> blocks[|blocks| - t - 1].classNum != c
    decreases |blocks|
  {
    if |blocks| == 0 || blocks[|blocks| - 1].classNum != c then 0
    else 1 + TrailingRun(blocks[..|blocks| - 1], c)
  }

  lemma {:induction false} TrailingRunAppend<V>(xs: seq<HyperBlock<V>>, run: seq<HyperBlock<V>>, c: int)
    requires forall j :: 0 <= j < |run| ==> run[j].classNum == c
    ensures TrailingRun(xs + run, c) == |run| + TrailingRun(xs, c)
    decreases |run|
  {
    if |run| == 0 {
      assert xs + run == xs;
    } else {
      assert (xs + run)[..|xs + run| - 1] == xs + run[..|run| - 1];
      TrailingRunAppend(xs, run[..|run| - 1], c);
    }
  }

  /** In any run split, the last run is exactly the trailing run of the last block's class. */
  lemma {:induction false} LastRun<V>(groups: seq<seq<HyperBlock<V>>>, blocks: seq<HyperBlock<V>>)
    requires IsRunSplit(groups, blocks) && |groups| > 0
    ensures |blocks| > 0
    ensures groups[|groups| - 1][0].classNum == blocks[|blocks| - 1].classNum
    ensures groups[|groups| - 1]
         == blocks[|blocks| - TrailingRun(blocks, blocks[|blocks| - 1].classNum)..]
    ensures IsRunSplit(groups[..|groups| - 1],
                       blocks[..|blocks| - TrailingRun(blocks, blocks[|blocks| - 1].classNum)])
  {
    var n := |groups|;
    var front, last := groups[..n - 1], groups[n - 1];
    var c := last[0].classNum;
    LastSplit(groups);
    ConcatAppend(front, last);
    assert SameClass(last);
    TrailingRunAppend(Concat(front), last, c);
    FrontEndsOther(groups);
    assert blocks[|blocks| - 1] == last[|last| - 1];
    TakeOfAppend(Concat(front), last);
    FrontIsRunSplit(groups);
  }

  /** Blocks ending in a run of a class other than `c` have no trailing run of `c`. */
  lemma EndsOther<V>(xs: seq<HyperBlock<V>>, prev: seq<HyperBlock<V>>, c: int)
    requires |prev| > 0 && SameClass(prev) && prev[0].classNum != c
    ensures TrailingRun(xs + prev, c) == 0
  {
    assert (xs + prev)[|xs + prev| - 1] == prev[|prev| - 1];
  }

  /** The runs before the last end in a block of another class than the last run's. */
  lemma FrontEndsOther<V>(groups: seq<seq<HyperBlock<V>>>)
    requires IsRunSplit(groups, Concat(groups)) && |groups| > 0
    ensures TrailingRun(Concat(groups[..|groups| - 1]), groups[|groups| - 1][0].classNum) == 0
  {
    var n := |groups|;
    var front := groups[..n - 1];
    if n > 1 {
      var prev := groups[n - 2];
      assert front == front[..n - 2] + [prev];
      ConcatAppend(front[..n - 2], prev);
      EndsOther(Concat(front[..n - 2]), prev, groups[n - 1][0].classNum);
    } else {
      assert front == [];
    }
  }

  lemma FrontIsRunSplit<V>(groups: seq<seq<HyperBlock<V>>>)
    requires IsRunSplit(groups, Concat(groups)) && |groups| > 0
    ensures IsRunSplit(groups[..|groups| - 1], Concat(groups[..|groups| - 1]))
  {
  }

  /** The split into maximal runs is unique, so the loop's output is determined by the
      properties it guarantees. */
  lemma {:induction false} RunSplitUnique<V>(g1: seq<seq<HyperBlock<V>>>, g2: seq<seq<HyperBlock<V>>>,
                                             blocks: seq<HyperBlock<V>>)
    requires IsRunSplit(g1, blocks) && IsRunSplit(g2, blocks)
    ensures g1 == g2
    decreases |blocks|
  {
    if |g1| == 0 || |g2| == 0 {
      if |g1| > 0 {
        LastRun(g1, blocks);
      }
      if |g2| > 0 {
        LastRun(g2, blocks);
      }
    } else {
      LastRun(g1, blocks);
      LastRun(g2, blocks);
      var t := TrailingRun(blocks, blocks[|blocks| - 1].classNum);
      RunSplitUnique(g1[..|g1| - 1], g2[..|g2| - 1], blocks[..|blocks| - t]);
      assert g1 == g1[..|g1| - 1] + [g1[|g1| - 1]];
      assert g2 == g2[..|g2| - 1] + [g2[|g2| - 1]];
    }
  }
}
