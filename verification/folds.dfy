/** Stratified k-fold split: each class is shuffled and its points dealt round-robin, point
    `i` of the shuffled class going to fold `i % k`. */
module Folds {
  import opened Permutations

  /** The points of `xs` whose position is `f` modulo `k`, in order. */
  function Deal<T>(xs: seq<T>, k: nat, f: nat): (r: seq<T>)
    requires k > 0
    ensures |r| <= |xs|
    decreases |xs|
  {
    if |xs| == 0 then []
    else Deal(xs[..|xs| - 1], k, f) + (if (|xs| - 1) % k == f then [xs[|xs| - 1]] else [])
  }

  /** One more point moves the quotient and remainder of the count on by one step. */
  lemma DivModStep(n: nat, k: nat)
    requires k > 0
    ensures n % k + 1 < k ==> (n + 1) / k == n / k && (n + 1) % k == n % k + 1
    ensures n % k + 1 == k ==> (n + 1) / k == n / k + 1 && (n + 1) % k == 0
  {
    var q, r := n / k, n % k;
    assert n == q * k + r;
    if r + 1 < k {
      DivModUnique(n + 1, k, q, r + 1);
    } else {
      assert n + 1 == (q + 1) * k;
      DivModUnique(n + 1, k, q + 1, 0);
    }
  }

  lemma DivModUnique(x: nat, k: nat, q: nat, r: nat)
    requires k > 0 && r < k && x == q * k + r
    ensures x / k == q && x % k == r
  {
    var q', r' := x / k, x % k;
    assert x == q' * k + r';
    if q' < q {
      MulGap(q', q, k);
    } else if q' > q {
      MulGap(q, q', k);
    }
  }

  /** A larger multiplier puts the product at least one `k` higher. */
  lemma MulGap(a: nat, b: nat, k: nat)
    requires a < b
    ensures a * k + k <= b * k
  {
    var d := b - a - 1;
    assert b == a + 1 + d;
    assert b * k == a * k + k + d * k;
  }

  /** Fold `f` of `n` points receives `n / k` points, one more if `f` is below `n % k`. */
  lemma {:induction false} DealSize<T>(xs: seq<T>, k: nat, f: nat)
    requires 0 <= f < k
    ensures |Deal(xs, k, f)| == |xs| / k + (if f < |xs| % k then 1 else 0)
    decreases |xs|
  {
    if |xs| > 0 {
      var n := |xs| - 1;
      DealSize(xs[..n], k, f);
      DivModStep(n, k);
    }
  }

  /** Two folds' shares of a class differ by at most one point. */
  lemma DealBalanced<T>(xs: seq<T>, k: nat, f: nat, g: nat)
    requires f < k && g < k
    ensures |Deal(xs, k, f)| <= |Deal(xs, k, g)| + 1
  {
    DealSize(xs, k, f);
    DealSize(xs, k, g);
  }

  /** Dealing only appends: a longer prefix extends each fold. */
  lemma {:induction false} DealPrefix<T>(xs: seq<T>, k: nat, f: nat, m: nat)
    requires k > 0 && m <= |xs|
    ensures Deal(xs[..m], k, f) <= Deal(xs, k, f)
    decreases |xs|
  {
    if m < |xs| {
      var front := xs[..|xs| - 1];
      assert xs[..m] == front[..m];
      DealPrefix(front, k, f, m);
    } else {
      assert xs[..m] == xs;
    }
  }

  /** Point `i` is the `i / k`-th point of fold `i % k`. */
  lemma DealPosition<T>(xs: seq<T>, k: nat, i: nat)
    requires k > 0 && i < |xs|
    ensures i / k < |Deal(xs, k, i % k)|
    ensures Deal(xs, k, i % k)[i / k] == xs[i]
  {
    var f := i % k;
    var upto := xs[..i + 1];
    assert upto[..i] == xs[..i];
    DealSize(xs[..i], k, f);
    assert Deal(upto, k, f) == Deal(xs[..i], k, f) + [xs[i]];
    DealPrefix(xs, k, f, i + 1);
  }

  /** All the points a list of folds holds. */
  function UnionOf<T>(folds: seq<seq<T>>): multiset<T>
    decreases |folds|
  {
    if |folds| == 0 then multiset{} else UnionOf(folds[..|folds| - 1]) + multiset(folds[|folds| - 1])
  }

  /** The `k` folds a class is dealt into. */
  function DealAll<T>(xs: seq<T>, k: nat): (r: seq<seq<T>>)
    requires k > 0
    ensures |r| == k
    ensures forall f :: 0 <= f < k ==> r[f] == Deal(xs, k, f)
  {
    seq(k, f requires 0 <= f < k => Deal(xs, k, f))
  }

  /** Appending a point adds it to fold `|xs| % k` and to no other. */
  lemma DealAppend<T>(xs: seq<T>, x: T, k: nat, f: nat)
    requires k > 0
    ensures Deal(xs + [x], k, f) == Deal(xs, k, f) + (if |xs| % k == f then [x] else [])
  {
    assert (xs + [x])[..|xs|] == xs;
  }

  lemma {:induction false} UnionAddOne<T>(a: seq<seq<T>>, b: seq<seq<T>>, x: T, m: nat)
    requires |a| == |b|
    requires forall f :: 0 <= f < |a| ==> b[f] == a[f] + (if f == m then [x] else [])
    ensures UnionOf(b) == UnionOf(a) + (if m < |a| then multiset{x} else multiset{})
    decreases |a|
  {
    if |a| > 0 {
      var n := |a| - 1;
      forall f | 0 <= f < n ensures b[..n][f] == a[..n][f] + (if f == m then [x] else []) {
        assert b[..n][f] == b[f] && a[..n][f] == a[f];
      }
      UnionAddOne(a[..n], b[..n], x, m);
      var added: multiset<T> := if n == m then multiset{x} else multiset{};
      assert multiset(b[n]) == multiset(a[n]) + added;
      var before: multiset<T> := if m < n then multiset{x} else multiset{};
      UnionAddLast(UnionOf(a[..n]), UnionOf(b[..n]), multiset(a[n]), multiset(b[n]), before, added);
      UnionOfLast(a);
      UnionOfLast(b);
      assert before + added == if m < |a| then multiset{x} else multiset{};
    }
  }

  lemma UnionOfLast<T>(folds: seq<seq<T>>)
    requires |folds| > 0
    ensures UnionOf(folds) == UnionOf(folds[..|folds| - 1]) + multiset(folds[|folds| - 1])
  {
  }

  lemma UnionAddLast<T>(ua: multiset<T>, ub: multiset<T>, la: multiset<T>, lb: multiset<T>,
                        before: multiset<T>, here: multiset<T>)
    requires ub == ua + before && lb == la + here
    ensures ub + lb == (ua + la) + (before + here)
  {
  }

  lemma {:induction false} UnionOfEmpties<T>(folds: seq<seq<T>>)
    requires forall f :: 0 <= f < |folds| ==> folds[f] == []
    ensures UnionOf(folds) == multiset{}
    decreases |folds|
  {
    if |folds| > 0 {
      UnionOfEmpties(folds[..|folds| - 1]);
    }
  }

  /** Every point lands in exactly one of the `k` folds: the folds together hold the class. */
  lemma {:induction false} DealConserves<T>(xs: seq<T>, k: nat)
    requires k > 0
    ensures UnionOf(DealAll(xs, k)) == multiset(xs)
    decreases |xs|
  {
    if |xs| > 0 {
      var front, x := xs[..|xs| - 1], xs[|xs| - 1];
      DealConserves(front, k);
      assert front + [x] == xs;
      forall f | 0 <= f < k
        ensures DealAll(xs, k)[f] == DealAll(front, k)[f] + (if f == |front| % k then [x] else [])
      {
        DealAppend(front, x, k, f);
      }
      UnionAddOne(DealAll(front, k), DealAll(xs, k), x, |front| % k);
    } else {
      UnionOfEmpties(DealAll(xs, k));
    }
  }

  /** The dealer accepts `k` folds only when it can deal every point: `k > 0`, or `k == 0`
      with every class empty (a negative `k` cannot size the fold list). */
  predicate CanDeal<T>(dataset: seq<seq<T>>, k: int) {
    k > 0 || (k == 0 && forall c :: 0 <= c < |dataset| ==> |dataset[c]| == 0)
  }

  /** Shuffled class `c` is `Select(dataset[c], perms[c])`. */
  predicate ShufflesFor<T>(dataset: seq<seq<T>>, perms: seq<seq<nat>>) {
    |perms| == |dataset| && forall c :: 0 <= c < |dataset| ==> IsPermutation(perms[c], |dataset[c]|)
  }

  /** The folds, indexed `[fold][class][point]`. */
  function SplitDataset<T>(dataset: seq<seq<T>>, perms: seq<seq<nat>>, k: int): (folds: seq<seq<seq<T>>>)
    requires ShufflesFor(dataset, perms) && CanDeal(dataset, k)
    ensures |folds| == k
    ensures forall f :: 0 <= f < k ==> |folds[f]| == |dataset|
  {
    if k == 0 then []
    else
      seq(k, f requires 0 <= f < k =>
        seq(|dataset|, c requires 0 <= c < |dataset| => Deal(Select(dataset[c], perms[c]), k, f)))
  }

  /** Point `i` of shuffled class `c` is point `i / k` of class `c` in fold `i % k`. */
  lemma SplitDatasetPosition<T>(dataset: seq<seq<T>>, perms: seq<seq<nat>>, k: int, c: nat, i: nat)
    requires ShufflesFor(dataset, perms) && CanDeal(dataset, k)
    requires c < |dataset| && i < |dataset[c]|
    ensures k > 0
    ensures i / k < |SplitDataset(dataset, perms, k)[i % k][c]|
    ensures SplitDataset(dataset, perms, k)[i % k][c][i / k] == dataset[c][perms[c][i]]
  {
    DealPosition(Select(dataset[c], perms[c]), k, i);
  }

  /** The `k` folds' shares of a class hold exactly the class's points. */
  lemma SplitDatasetConserves<T>(dataset: seq<seq<T>>, perms: seq<seq<nat>>, k: int, c: nat)
    requires ShufflesFor(dataset, perms) && CanDeal(dataset, k) && k > 0 && c < |dataset|
    ensures UnionOf(seq(k, f requires 0 <= f < k => SplitDataset(dataset, perms, k)[f][c]))
         == multiset(dataset[c])
  {
    var shuffled := Select(dataset[c], perms[c]);
    var folds := SplitDataset(dataset, perms, k);
    forall f | 0 <= f < k ensures folds[f][c] == DealAll(shuffled, k)[f] {
    }
    assert seq(k, f requires 0 <= f < k => SplitDataset(dataset, perms, k)[f][c]) == DealAll(shuffled, k);
    DealConserves(shuffled, k);
    ShuffleMultiset(dataset[c], perms[c]);
  }

  /** Each fold gets `n / k` points of a class of `n`, or one more; so any two folds' shares
      of a class differ by at most one point. */
  lemma SplitDatasetBalanced<T>(dataset: seq<seq<T>>, perms: seq<seq<nat>>, k: int, c: nat, f: nat)
    requires ShufflesFor(dataset, perms) && CanDeal(dataset, k) && k > 0 && c < |dataset| && f < k
    ensures |SplitDataset(dataset, perms, k)[f][c]|
         == |dataset[c]| / k + (if f < |dataset[c]| % k then 1 else 0)
    ensures forall g :: 0 <= g < k ==>
              |SplitDataset(dataset, perms, k)[f][c]| <= |SplitDataset(dataset, perms, k)[g][c]| + 1
  {
    var shuffled := Select(dataset[c], perms[c]);
    DealSize(shuffled, k, f);
    forall g | 0 <= g < k
      ensures |SplitDataset(dataset, perms, k)[f][c]| <= |SplitDataset(dataset, perms, k)[g][c]| + 1
    {
      DealBalanced(shuffled, k, f, g);
    }
  }
}
