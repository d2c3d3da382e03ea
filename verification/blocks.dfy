/** Hyperblocks and the sequence helpers every encoder of the model shares. */
module Blocks {

  /** A classification region. For attribute `m`, `minimums[m]` holds the lower bounds
      and `maximums[m]` the upper bounds of its intervals (one entry per interval; a
      disjunctive attribute has several). `classNum` is the class the block votes for. */
  datatype HyperBlock<V> = HyperBlock(minimums: seq<seq<V>>, maximums: seq<seq<V>>, classNum: int)

  /** The shape invariant of a block over `f` attributes: both bound lists have `f`
      entries, and each attribute has as many upper as lower bounds. */
  predicate WellShaped<V>(b: HyperBlock<V>, f: nat) {
    && |b.minimums| == f
    && |b.maximums| == f
    && forall m :: 0 <= m < f ==> |b.minimums[m]| == |b.maximums[m]|
  }

  /** The shape invariant for every block of a list. */
  predicate AllWellShaped<V>(blocks: seq<HyperBlock<V>>, f: nat) {
    forall i :: 0 <= i < |blocks| ==> WellShaped(blocks[i], f)
  }

  /** `maximums` has an entry for every attribute of `minimums`: the encoders walk the
      attributes of `minimums` and index `maximums` alongside. */
  predicate MaxesCoverMins<V>(b: HyperBlock<V>) {
    |b.maximums| >= |b.minimums|
  }

  predicate AllMaxesCoverMins<V>(blocks: seq<HyperBlock<V>>) {
    forall i :: 0 <= i < |blocks| ==> MaxesCoverMins(blocks[i])
  }

  lemma WellShapedCovers<V>(blocks: seq<HyperBlock<V>>, f: nat)
    requires AllWellShaped(blocks, f)
    ensures AllMaxesCoverMins(blocks)
  {
    forall i | 0 <= i < |blocks| ensures MaxesCoverMins(blocks[i]) {
      assert WellShaped(blocks[i], f);
    }
  }

  lemma WellShapedPrefix<V>(blocks: seq<HyperBlock<V>>, f: nat, n: nat)
    requires AllWellShaped(blocks, f) && n <= |blocks|
    ensures AllWellShaped(blocks[..n], f)
  {
    forall j | 0 <= j < n ensures WellShaped(blocks[..n][j], f) {
      assert blocks[..n][j] == blocks[j];
    }
  }

  /** Every attribute of the block is a single interval. */
  predicate SingleInterval<V>(b: HyperBlock<V>) {
    && |b.maximums| == |b.minimums|
    && (forall m :: 0 <= m < |b.minimums| ==> |b.minimums[m]| == 1)
    && (forall m :: 0 <= m < |b.maximums| ==> |b.maximums[m]| == 1)
  }

  /** The binary formats write only the first interval of each of the first `f` attributes,
      so those must exist. */
  predicate Savable<V>(b: HyperBlock<V>, f: nat) {
    && f <= |b.minimums|
    && f <= |b.maximums|
    && forall m :: 0 <= m < f ==> |b.minimums[m]| > 0 && |b.maximums[m]| > 0
  }

  /** The first entry of every list. */
  function Firsts<V>(xss: seq<seq<V>>): (r: seq<V>)
    requires forall i :: 0 <= i < |xss| ==> |xss[i]| > 0
    ensures |r| == |xss|
    ensures forall i :: 0 <= i < |xss| ==> r[i] == xss[i][0]
  {
    seq(|xss|, i requires 0 <= i < |xss| => xss[i][0])
  }

  /** What the binary formats keep of a block: its first `f` attributes, each cut down to its
      first interval. */
  function Collapse<V>(b: HyperBlock<V>, f: nat): (r: HyperBlock<V>)
    requires Savable(b, f)
    ensures WellShaped(r, f) && SingleInterval(r) && r.classNum == b.classNum
    ensures forall m :: 0 <= m < f ==> r.minimums[m] == [b.minimums[m][0]]
    ensures forall m :: 0 <= m < f ==> r.maximums[m] == [b.maximums[m][0]]
  {
    HyperBlock(Singletons(Firsts(b.minimums[..f])), Singletons(Firsts(b.maximums[..f])), b.classNum)
  }

  /** A block of `f` single-interval attributes loses nothing when collapsed. */
  lemma CollapseKeeps<V>(b: HyperBlock<V>, f: nat)
    requires WellShaped(b, f) && SingleInterval(b)
    ensures Savable(b, f) && Collapse(b, f) == b
  {
    var r := Collapse(b, f);
    forall m | 0 <= m < f ensures r.minimums[m] == b.minimums[m] && r.maximums[m] == b.maximums[m] {
      assert |b.minimums[m]| == 1 && |b.maximums[m]| == 1;
    }
  }

  /** Concatenation of a sequence of sequences, built by appending the last one. */
  function Concat<T>(xss: seq<seq<T>>): seq<T>
    decreases |xss|
  {
    if |xss| == 0 then [] else Concat(xss[..|xss| - 1]) + xss[|xss| - 1]
  }

  /** Sum of a sequence of counts. */
  function Sum(xs: seq<nat>): nat
    decreases |xs|
  {
    if |xs| == 0 then 0 else Sum(xs[..|xs| - 1]) + xs[|xs| - 1]
  }

  /** The lengths of the inner sequences. */
  function Lengths<T>(xss: seq<seq<T>>): (r: seq<nat>)
    ensures |r| == |xss|
    ensures forall i :: 0 <= i < |xss| ==> r[i] == |xss[i]|
  {
    seq(|xss|, i requires 0 <= i < |xss| => |xss[i]|)
  }

  /** Number of intervals a block carries, counted through its minimums (the source's
      encoders take every attribute's interval count from `minimums`). */
  function IntervalTotal<V>(b: HyperBlock<V>): nat {
    Sum(Lengths(b.minimums))
  }

  /** `n` copies of `x`. */
  function Repeat<T>(x: T, n: nat): (r: seq<T>)
    ensures |r| == n
    ensures forall i :: 0 <= i < n ==> r[i] == x
  {
    seq(n, _ => x)
  }

  /** Each value wrapped as a one-interval attribute. */
  function Singletons<V>(vs: seq<V>): (r: seq<seq<V>>)
    ensures |r| == |vs|
    ensures forall i :: 0 <= i < |vs| ==> r[i] == [vs[i]]
  {
    seq(|vs|, i requires 0 <= i < |vs| => [vs[i]])
  }

  lemma ConcatAppend<T>(xss: seq<seq<T>>, ys: seq<T>)
    ensures Concat(xss + [ys]) == Concat(xss) + ys
  {
    assert (xss + [ys])[..|xss|] == xss;
  }

  lemma {:induction false} ConcatJoin<T>(a: seq<seq<T>>, b: seq<seq<T>>)
    ensures Concat(a + b) == Concat(a) + Concat(b)
    decreases |b|
  {
    if |b| == 0 {
      assert a + b == a;
    } else {
      var b', last := b[..|b| - 1], b[|b| - 1];
      AppendLast(a, b);
      ConcatAppend(a + b', last);
      ConcatJoin(a, b');
      LastSplit(b);
      ConcatAppend(b', last);
      AppendAssoc(Concat(a), Concat(b'), last);
    }
  }

  /** Concatenation viewed from the front: the first sequence, then the rest. */
  lemma {:induction false} ConcatFront<T>(xss: seq<seq<T>>)
    requires |xss| > 0
    ensures Concat(xss) == xss[0] + Concat(xss[1..])
  {
    var head: seq<seq<T>> := [xss[0]];
    assert xss == head + xss[1..];
    ConcatJoin(head, xss[1..]);
    ConcatAppend([], xss[0]);
    assert [] + [xss[0]] == head;
  }

  lemma {:induction false} ConcatLength<T>(xss: seq<seq<T>>)
    ensures |Concat(xss)| == Sum(Lengths(xss))
    decreases |xss|
  {
    if |xss| > 0 {
      ConcatLength(xss[..|xss| - 1]);
      assert Lengths(xss[..|xss| - 1]) == Lengths(xss)[..|xss| - 1];
    }
  }

  lemma {:induction false} SumJoin(a: seq<nat>, b: seq<nat>)
    ensures Sum(a + b) == Sum(a) + Sum(b)
    decreases |b|
  {
    if |b| == 0 {
      assert a + b == a;
    } else {
      var b' := b[..|b| - 1];
      assert (a + b)[..|a + b| - 1] == a + b';
      SumJoin(a, b');
    }
  }

  lemma SliceOfAppend<T>(a: seq<T>, b: seq<T>, lo: nat, hi: nat)
    requires lo <= hi <= |a|
    ensures (a + b)[lo..hi] == a[lo..hi]
  {
  }

  lemma IndexOfPrefix<T>(xs: seq<T>, ys: seq<T>, j: nat)
    requires |ys| <= |xs| && xs[..|ys|] == ys && j < |ys|
    ensures xs[j] == ys[j]
  {
    assert xs[..|ys|][j] == xs[j];
  }

  lemma KeptSlice<T>(whole: seq<T>, a: seq<T>, b: seq<T>, lo: nat, hi: nat, x: seq<T>)
    requires whole == a + b && lo <= hi <= |a| && a[lo..hi] == x
    ensures lo <= hi <= |whole| && whole[lo..hi] == x
  {
    SliceOfAppend(a, b, lo, hi);
  }

  lemma SliceOfLast<T>(a: seq<T>, b: seq<T>)
    ensures (a + b)[|a|..|a| + |b|] == b
  {
  }

  /** The `i`-th piece sits in the concatenation right after the pieces before it. */
  lemma ConcatSlice<T>(xss: seq<seq<T>>, i: nat)
    requires i < |xss|
    ensures |Concat(xss[..i])| + |xss[i]| == |Concat(xss[..i + 1])| <= |Concat(xss)|
    ensures Concat(xss)[|Concat(xss[..i])|..|Concat(xss[..i + 1])|] == xss[i]
  {
    assert xss == xss[..i + 1] + xss[i + 1..];
    ConcatJoin(xss[..i + 1], xss[i + 1..]);
    assert xss[..i + 1] == xss[..i] + [xss[i]];
    ConcatAppend(xss[..i], xss[i]);
    SliceOfAppend(Concat(xss[..i + 1]), Concat(xss[i + 1..]), |Concat(xss[..i])|, |Concat(xss[..i + 1])|);
    SliceOfLast(Concat(xss[..i]), xss[i]);
  }

  /** A prefix one longer is the prefix and the next element. */
  lemma TakeStep<T>(xs: seq<T>, i: nat)
    requires i < |xs|
    ensures xs[..i + 1] == xs[..i] + [xs[i]]
  {
  }

  lemma TakeAll<T>(xs: seq<T>)
    ensures xs[..|xs|] == xs
  {
  }

  lemma TakeOfAppend<T>(a: seq<T>, b: seq<T>)
    ensures (a + b)[..|a|] == a
  {
  }

  /** A non-empty sequence is its front and its last element. */
  lemma LastSplit<T>(xs: seq<T>)
    requires |xs| > 0
    ensures xs == xs[..|xs| - 1] + [xs[|xs| - 1]]
  {
  }

  /** The `i`..`j` slice of `a + b` is `b` exactly when it starts where `a` ends and spans `b`. */
  lemma SliceAt<T>(a: seq<T>, b: seq<T>, lo: nat, hi: nat)
    requires lo == |a| && hi == |a| + |b|
    ensures (a + b)[lo..hi] == b
  {
  }

  lemma AppendLast<T>(a: seq<T>, b: seq<T>)
    requires |b| > 0
    ensures a + b == (a + b[..|b| - 1]) + [b[|b| - 1]]
  {
  }

  lemma AppendAssoc<T>(a: seq<T>, b: seq<T>, c: seq<T>)
    ensures a + b + c == a + (b + c)
  {
  }
}
