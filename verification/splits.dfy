/** The two in-place splits that move points of every class out of the training set: a
    validation split by shuffled positions, and a train/test split that pops the tail of
    each shuffled class. */
module Splits {
  import opened Permutations

  // ---------------------------------------------------------------- validation split

  /** One class's validation split: the points at the first `v` shuffled positions go to
      validation in shuffled order; training keeps the rest in their original order. */
  function ValidationSplit<T>(points: seq<T>, perm: seq<nat>, v: nat): (r: (seq<T>, seq<T>))
    requires IsPermutation(perm, |points|) && v <= |points|
    ensures |r.1| == v && |r.0| == |points| - v
    ensures forall i :: 0 <= i < v ==> r.1[i] == points[perm[i]]
    ensures r.0 == Keep(points, Positions(perm[..v]))
    ensures multiset(r.0) + multiset(r.1) == multiset(points)
  {
    var chosen := perm[..v];
    assert DistinctBelow(chosen, |points|);
    SelectKeepMultiset(points, chosen);
    var training, validation := Keep(points, Positions(chosen)), Select(points, chosen);
    assert |multiset(training)| + |multiset(validation)| == |multiset(points)|;
    (training, validation)
  }

  /** The positions in `drop` below `n`, largest first: what sorting the distinct chosen
      positions in descending order yields. */
  function Descending(drop: set<nat>, n: nat): (r: seq<nat>)
    ensures forall i :: 0 <= i < |r| ==> r[i] < n && r[i] in drop
    ensures forall i, j :: 0 <= i < j < |r| ==> r[i] > r[j]
    ensures forall p :: 0 <= p < n && p in drop ==> p in r
    decreases n
  {
    if n == 0 then []
    else (if n - 1 in drop then [n - 1] else []) + Descending(drop, n - 1)
  }

  /** No dropped position is at or below `m`. */
  predicate AllAbove(drop: set<nat>, m: nat) {
    forall p :: p in drop ==> p > m
  }

  /** With nothing dropped at or below `d`, erasing entry `d` of what is kept drops `d` too. */
  lemma {:induction false} EraseBelowDropped<T>(xs: seq<T>, drop: set<nat>, d: nat)
    requires d < |xs| && AllAbove(drop, d)
    ensures d < |Keep(xs, drop)|
    ensures Keep(xs, drop + {d}) == Keep(xs, drop)[..d] + Keep(xs, drop)[d + 1..]
    decreases |xs|
  {
    var n := |xs|;
    var front := xs[..n - 1];
    var tail := if n - 1 in drop then [] else [xs[n - 1]];
    if n - 1 == d {
      KeepUntouched(front, drop);
      KeepUntouched(front, drop + {d});
      EraseLast(front, xs[d]);
    } else {
      EraseBelowDropped(front, drop, d);
      assert Keep(xs, drop + {d}) == Keep(front, drop + {d}) + tail;
      EraseInFront(Keep(front, drop), tail, d);
    }
  }

  /** Erasing the last entry leaves the ones before it. */
  lemma EraseLast<T>(a: seq<T>, x: T)
    ensures (a + [x])[..|a|] + (a + [x])[|a| + 1..] == a
  {
  }

  /** Erasing an entry of the front part leaves the back part alone. */
  lemma EraseInFront<T>(a: seq<T>, t: seq<T>, d: nat)
    requires d < |a|
    ensures (a + t)[..d] + (a + t)[d + 1..] == (a[..d] + a[d + 1..]) + t
  {
  }

  /** Dropping only positions at or beyond the end keeps everything. */
  lemma {:induction false} KeepUntouched<T>(xs: seq<T>, drop: set<nat>)
    requires forall p :: p in drop ==> p >= |xs|
    ensures Keep(xs, drop) == xs
    decreases |xs|
  {
    if |xs| > 0 {
      KeepUntouched(xs[..|xs| - 1], drop);
      assert xs == xs[..|xs| - 1] + [xs[|xs| - 1]];
    }
  }

  /** Strictly decreasing positions of a sequence of length `n`. */
  predicate StrictlyDescendingBelow(order: seq<nat>, n: nat) {
    && (forall i :: 0 <= i < |order| ==> order[i] < n)
    && (forall i, j :: 0 <= i < j < |order| ==> order[i] > order[j])
  }

  /** One erasure of the descending loop. */
  lemma EraseStep<T>(points: seq<T>, order: seq<nat>, i: nat)
    requires StrictlyDescendingBelow(order, |points|) && i < |order|
    ensures order[i] < |Keep(points, Positions(order[..i]))|
    ensures Keep(points, Positions(order[..i + 1]))
         == Keep(points, Positions(order[..i]))[..order[i]] + Keep(points, Positions(order[..i]))[order[i] + 1..]
  {
    var d := order[i];
    assert AllAbove(Positions(order[..i]), d);
    EraseBelowDropped(points, Positions(order[..i]), d);
    assert Positions(order[..i + 1]) == Positions(order[..i]) + {d};
  }

  /** Listing the chosen positions in descending order covers exactly the chosen ones. */
  lemma DescendingCovers(perm: seq<nat>, n: nat, v: nat)
    requires IsPermutation(perm, n) && v <= n
    ensures StrictlyDescendingBelow(Descending(Positions(perm[..v]), n), n)
    ensures Positions(Descending(Positions(perm[..v]), n)) == Positions(perm[..v])
  {
    var drop := Positions(perm[..v]);
    var order := Descending(drop, n);
    forall p | p in drop ensures p in Positions(order) {
      var i :| 0 <= i < v && perm[..v][i] == p;
      assert p < n;
    }
  }

  /** The source's removal: sort the chosen positions in descending order, then erase them
      one by one, so no erasure shifts a position still to be erased. */
  method EraseChosen<T>(points: seq<T>, perm: seq<nat>, v: nat) returns (training: seq<T>)
    requires IsPermutation(perm, |points|) && v <= |points|
    ensures training == ValidationSplit(points, perm, v).0
  {
    var order := Descending(Positions(perm[..v]), |points|);
    DescendingCovers(perm, |points|, v);
    training := points;
    assert Positions(order[..0]) == {};
    KeepNothing(points);
    for i := 0 to |order|
      invariant training == Keep(points, Positions(order[..i]))
    {
      EraseStep(points, order, i);
      training := training[..order[i]] + training[order[i] + 1..];
    }
    assert order[..|order|] == order;
  }

  /** The whole validation split: class `c` moves `valCounts[c]` points. Validation has one
      entry per class. */
  function CreateValidationSplit<T>(data: seq<seq<T>>, perms: seq<seq<nat>>, valCounts: seq<nat>)
    : (r: (seq<seq<T>>, seq<seq<T>>))
    requires |perms| == |data| && |valCounts| == |data|
    requires forall c :: 0 <= c < |data| ==>
               IsPermutation(perms[c], |data[c]|) && valCounts[c] <= |data[c]|
    ensures |r.0| == |data| && |r.1| == |data|
    ensures forall c :: 0 <= c < |data| ==>
              && |r.1[c]| == valCounts[c]
              && |r.0[c]| + |r.1[c]| == |data[c]|
              && multiset(r.0[c]) + multiset(r.1[c]) == multiset(data[c])
              && r.0[c] == ValidationSplit(data[c], perms[c], valCounts[c]).0
              && r.1[c] == ValidationSplit(data[c], perms[c], valCounts[c]).1
  {
    var split := seq(|data|, c requires 0 <= c < |data| => ValidationSplit(data[c], perms[c], valCounts[c]));
    (seq(|data|, c requires 0 <= c < |data| => split[c].0), seq(|data|, c requires 0 <= c < |data| => split[c].1))
  }

  // ---------------------------------------------------------------- train/test split

  function Reverse<T>(xs: seq<T>): (r: seq<T>)
    ensures |r| == |xs|
    ensures forall i :: 0 <= i < |xs| ==> r[i] == xs[|xs| - 1 - i]
    decreases |xs|
  {
    if |xs| == 0 then [] else [xs[|xs| - 1]] + Reverse(xs[..|xs| - 1])
  }

  /** The target count is a 32-bit `int`. */
  predicate IsInt32(t: int) {
    -0x8000_0000 <= t < 0x8000_0000
  }

  /** The source compares an unsigned size with the signed target count, which converts the
      count to a 64-bit size modulo 2^64: a negative count becomes a huge one. */
  function AsSize(t: int): (s: nat)
    requires IsInt32(t)
    ensures t >= 0 ==> s == t
    ensures t < 0 ==> s >= 0x1_0000_0000_0000_0000 - 0x8000_0000
  {
    t % 0x1_0000_0000_0000_0000
  }

  /** How many shuffled points training keeps: the target count when it is below the class
      size and not negative, otherwise all of them. */
  function Kept(n: nat, t: int): (k: nat)
    ensures k <= n
    ensures 0 <= t < n ==> k == t
    ensures !(0 <= t < n) ==> k == n
  {
    if 0 <= t < n then t else n
  }

  /** Moving the last kept point to testing extends the reversed tail by it. */
  lemma PopStep<T>(shuffled: seq<T>, m: nat)
    requires 0 < m <= |shuffled|
    ensures Reverse(shuffled[m - 1..]) == Reverse(shuffled[m..]) + [shuffled[m - 1]]
  {
    var a, b := Reverse(shuffled[m - 1..]), Reverse(shuffled[m..]) + [shuffled[m - 1]];
    assert |a| == |b|;
    forall i | 0 <= i < |a| ensures a[i] == b[i] {
      if i < |a| - 1 {
        assert b[i] == shuffled[m..][|shuffled| - m - 1 - i];
      }
    }
  }

  /** The source's loop on one shuffled class: while training has more than the target,
      move its last point to the end of testing. */
  method PopTail<T>(shuffled: seq<T>, t: int) returns (train: seq<T>, test: seq<T>)
    requires IsInt32(t) && |shuffled| < 0x8000_0000_0000_0000
    ensures train == shuffled[..Kept(|shuffled|, t)]
    ensures test == Reverse(shuffled[Kept(|shuffled|, t)..])
    ensures multiset(train) + multiset(test) == multiset(shuffled)
  {
    var bound := AsSize(t);
    var keep := Kept(|shuffled|, t);
    assert keep < |shuffled| ==> bound == keep;
    assert bound >= keep;
    train, test := shuffled, [];
    while |train| > bound
      invariant keep <= |train| <= |shuffled|
      invariant train == shuffled[..|train|]
      invariant test == Reverse(shuffled[|train|..])
      decreases |train|
    {
      PopStep(shuffled, |train|);
      test := test + [train[|train| - 1]];
      train := train[..|train| - 1];
    }
    assert |train| == keep;
    assert shuffled == train + shuffled[|train|..];
    ReverseMultiset(shuffled[|train|..]);
  }

  lemma ReverseMultiset<T>(xs: seq<T>)
    ensures multiset(Reverse(xs)) == multiset(xs)
  {
    if |xs| > 0 {
      assert xs == xs[..|xs| - 1] + [xs[|xs| - 1]];
    }
  }

  /** One shuffled class split at the target count: training keeps the front, testing gets
      the rest from the back. */
  function TrainTestSplit<T>(shuffled: seq<T>, t: int): (r: (seq<T>, seq<T>))
    ensures |r.0| == Kept(|shuffled|, t) && |r.0| + |r.1| == |shuffled|
    ensures r.0 + Reverse(r.1) == shuffled
    ensures multiset(r.0) + multiset(r.1) == multiset(shuffled)
  {
    var k := Kept(|shuffled|, t);
    ReverseMultiset(shuffled[k..]);
    ReverseTwice(shuffled[k..]);
    assert shuffled == shuffled[..k] + shuffled[k..];
    (shuffled[..k], Reverse(shuffled[k..]))
  }

  lemma ReverseTwice<T>(xs: seq<T>)
    ensures Reverse(Reverse(xs)) == xs
  {
  }

  /** One class shuffled, then split at the target count. */
  function ShuffleThenSplit<T>(points: seq<T>, perm: seq<nat>, t: int): (r: (seq<T>, seq<T>))
    requires IsPermutation(perm, |points|)
    ensures |r.0| == Kept(|points|, t) && |r.0| + |r.1| == |points|
    ensures forall i :: 0 <= i < |perm| ==> perm[i] < |points|
    ensures r.0 + Reverse(r.1) == Select(points, perm)
    ensures multiset(r.0) + multiset(r.1) == multiset(points)
  {
    ShuffleMultiset(points, perm);
    TrainTestSplit(Select(points, perm), t)
  }

  /** The whole train/test split: class `c` is shuffled by `perms[c]` and cut at
      `counts[c]`; testing has one entry per class. */
  function SplitTrainTestByPercent<T>(data: seq<seq<T>>, perms: seq<seq<nat>>, counts: seq<int>)
    : (r: (seq<seq<T>>, seq<seq<T>>))
    requires |perms| == |data| && |counts| == |data|
    requires forall c :: 0 <= c < |data| ==> IsPermutation(perms[c], |data[c]|)
    ensures |r.0| == |data| && |r.1| == |data|
    ensures forall c :: 0 <= c < |data| ==>
              && |r.0[c]| == Kept(|data[c]|, counts[c])
              && |r.0[c]| + |r.1[c]| == |data[c]|
              && multiset(r.0[c]) + multiset(r.1[c]) == multiset(data[c])
              && (forall i :: 0 <= i < |perms[c]| ==> perms[c][i] < |data[c]|)
              && r.0[c] + Reverse(r.1[c]) == Select(data[c], perms[c])
  {
    var split := seq(|data|, c requires 0 <= c < |data| => ShuffleThenSplit(data[c], perms[c], counts[c]));
    (seq(|data|, c requires 0 <= c < |data| => split[c].0), seq(|data|, c requires 0 <= c < |data| => split[c].1))
  }
}
