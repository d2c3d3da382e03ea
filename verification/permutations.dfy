/** Shuffles as permutations of positions, and the two ways the splitters take points out of
    a class: selecting positions in a given order, and keeping the others in their order. */
module Permutations {

  /** `perm` lists every position below `n` exactly once. */
  predicate IsPermutation(perm: seq<nat>, n: nat) {
    && |perm| == n
    && DistinctBelow(perm, n)
    && (forall k :: 0 <= k < n ==> k in Positions(perm))
  }

  /** No position is listed twice, and every one is a position of a sequence of length `n`. */
  predicate DistinctBelow(idx: seq<nat>, n: nat) {
    && (forall i :: 0 <= i < |idx| ==> idx[i] < n)
    && (forall i, j :: 0 <= i < j < |idx| ==> idx[i] != idx[j])
  }

  /** The elements at the listed positions, in the listed order. */
  function Select<T>(xs: seq<T>, idx: seq<nat>): (r: seq<T>)
    requires forall i :: 0 <= i < |idx| ==> idx[i] < |xs|
    ensures |r| == |idx|
    ensures forall i :: 0 <= i < |idx| ==> r[i] == xs[idx[i]]
  {
    seq(|idx|, i requires 0 <= i < |idx| => xs[idx[i]])
  }

  /** The elements whose positions are not in `drop`, in their original order. */
  function Keep<T>(xs: seq<T>, drop: set<nat>): (r: seq<T>)
    ensures |r| <= |xs|
    decreases |xs|
  {
    if |xs| == 0 then []
    else Keep(xs[..|xs| - 1], drop) + (if |xs| - 1 in drop then [] else [xs[|xs| - 1]])
  }

  function Positions(idx: seq<nat>): set<nat> {
    set i | 0 <= i < |idx| :: idx[i]
  }

  /** Positions at or beyond the end make no difference to what is kept. */
  lemma {:induction false} KeepIgnoresBeyond<T>(xs: seq<T>, drop: set<nat>, j: nat)
    requires j >= |xs|
    ensures Keep(xs, drop + {j}) == Keep(xs, drop)
    decreases |xs|
  {
    if |xs| > 0 {
      KeepIgnoresBeyond(xs[..|xs| - 1], drop, j);
    }
  }

  /** Dropping one more position removes exactly that element. */
  lemma {:induction false} KeepRemoveOne<T>(xs: seq<T>, drop: set<nat>, j: nat)
    requires j < |xs| && j !in drop
    ensures multiset(Keep(xs, drop)) == multiset(Keep(xs, drop + {j})) + multiset{xs[j]}
    decreases |xs|
  {
    var n := |xs|;
    var front := xs[..n - 1];
    KeepLast(xs, drop);
    KeepLast(xs, drop + {j});
    if j == n - 1 {
      KeepIgnoresBeyond(front, drop, j);
      assert Keep(xs, drop) == Keep(front, drop) + [xs[j]];
      assert Keep(xs, drop + {j}) == Keep(front, drop) + [];
      MultisetsWithTail(Keep(front, drop) + [xs[j]], Keep(front, drop), [], xs[j]);
    } else {
      KeepRemoveOne(front, drop, j);
      assert front[j] == xs[j];
      assert (n - 1 in drop + {j}) == (n - 1 in drop);
      var tail := if n - 1 in drop then [] else [xs[n - 1]];
      assert Keep(xs, drop) == Keep(front, drop) + tail;
      assert Keep(xs, drop + {j}) == Keep(front, drop + {j}) + tail;
      MultisetsWithTail(Keep(front, drop), Keep(front, drop + {j}), tail, xs[j]);
    }
  }

  /** The kept elements of `xs` are those of its front, then its last unless dropped. */
  lemma KeepLast<T>(xs: seq<T>, drop: set<nat>)
    requires |xs| > 0
    ensures Keep(xs, drop) == Keep(xs[..|xs| - 1], drop) + (if |xs| - 1 in drop then [] else [xs[|xs| - 1]])
  {
  }

  lemma MultisetsWithTail<T>(a: seq<T>, b: seq<T>, t: seq<T>, x: T)
    requires multiset(a) == multiset(b) + multiset{x}
    ensures multiset(a + t) == multiset(b + t) + multiset{x}
  {
  }

  lemma {:induction false} KeepNothing<T>(xs: seq<T>)
    ensures Keep(xs, {}) == xs
    decreases |xs|
  {
    if |xs| > 0 {
      KeepNothing(xs[..|xs| - 1]);
      assert xs == xs[..|xs| - 1] + [xs[|xs| - 1]];
    }
  }

  /** Selected and kept elements together are the original elements. */
  lemma {:induction false} SelectKeepMultiset<T>(xs: seq<T>, idx: seq<nat>)
    requires DistinctBelow(idx, |xs|)
    ensures multiset(Select(xs, idx)) + multiset(Keep(xs, Positions(idx))) == multiset(xs)
    decreases |idx|
  {
    if |idx| == 0 {
      assert Positions(idx) == {};
      KeepNothing(xs);
    } else {
      var front := idx[..|idx| - 1];
      var j := idx[|idx| - 1];
      SelectKeepMultiset(xs, front);
      assert Positions(idx) == Positions(front) + {j};
      assert j !in Positions(front);
      KeepRemoveOne(xs, Positions(front), j);
      assert Select(xs, idx) == Select(xs, front) + [xs[j]];
    }
  }

  /** Every position of a permutation is listed, so nothing is kept. */
  lemma {:induction false} KeepAll<T>(xs: seq<T>, drop: set<nat>)
    requires forall i :: 0 <= i < |xs| ==> i in drop
    ensures Keep(xs, drop) == []
    decreases |xs|
  {
    if |xs| > 0 {
      KeepAll(xs[..|xs| - 1], drop);
    }
  }

  /** A shuffle rearranges the elements: same multiset, same length. */
  lemma ShuffleMultiset<T>(xs: seq<T>, perm: seq<nat>)
    requires IsPermutation(perm, |xs|)
    ensures multiset(Select(xs, perm)) == multiset(xs)
  {
    SelectKeepMultiset(xs, perm);
    KeepAll(xs, Positions(perm));
  }
}
