/** The training set as two flat arrays: every point's attributes one after another, and the
    cumulative class borders counted in points. */
module FlattenDataset {
  import opened Wrappers
  import opened Blocks

  /** `values` holds every attribute of every point, class by class; class `c`'s points are
      numbers `classBorder[c]` to `classBorder[c + 1]`. */
  datatype FlatDataset<V> = FlatDataset(values: seq<V>, classBorder: seq<nat>)

  /** Flattens a dataset indexed `[class][point][attribute]`. */
  function Flatten<V>(data: seq<seq<seq<V>>>): (r: FlatDataset<V>)
    ensures |r.classBorder| == |data| + 1 && r.classBorder[0] == 0
    ensures forall c {:trigger data[c]} :: 0 <= c < |data| ==>
              r.classBorder[c + 1] == r.classBorder[c] + |data[c]|
    ensures forall c :: 0 <= c <= |data| ==> r.classBorder[c] == |Concat(data[..c])|
    ensures r.values == Concat(Concat(data))
    decreases |data|
  {
    if |data| == 0 then FlatDataset([], [0])
    else
      var front := data[..|data| - 1];
      var last := data[|data| - 1];
      var prev := Flatten(front);
      var r := FlatDataset(prev.values + Concat(last),
                           prev.classBorder + [prev.classBorder[|front|] + |last|]);
      FlattenStep(data, front, prev, r);
      r
  }

  lemma FlattenStep<V>(data: seq<seq<seq<V>>>, front: seq<seq<seq<V>>>, prev: FlatDataset<V>, r: FlatDataset<V>)
    requires |data| > 0 && front == data[..|data| - 1]
    requires |prev.classBorder| == |front| + 1 && prev.classBorder[0] == 0
    requires forall c :: 0 <= c <= |front| ==> prev.classBorder[c] == |Concat(front[..c])|
    requires prev.values == Concat(Concat(front))
    requires r.values == prev.values + Concat(data[|data| - 1])
    requires r.classBorder == prev.classBorder + [prev.classBorder[|front|] + |data[|data| - 1]|]
    ensures |r.classBorder| == |data| + 1 && r.classBorder[0] == 0
    ensures forall c :: 0 <= c <= |data| ==> r.classBorder[c] == |Concat(data[..c])|
    ensures forall c {:trigger data[c]} :: 0 <= c < |data| ==>
              r.classBorder[c + 1] == r.classBorder[c] + |data[c]|
    ensures r.values == Concat(Concat(data))
  {
    BordersStep(data, prev.classBorder, r.classBorder);
    forall c | 0 <= c < |data| ensures r.classBorder[c + 1] == r.classBorder[c] + |data[c]| {
      ClassBorderStep(data, r.classBorder, c);
    }
    var n := |data|;
    LastSplit(data);
    ConcatAppend(data[..n - 1], data[n - 1]);
    ConcatJoin(Concat(data[..n - 1]), data[n - 1]);
  }

  lemma BordersStep<V>(data: seq<seq<seq<V>>>, prev: seq<nat>, border: seq<nat>)
    requires |data| > 0 && |prev| == |data|
    requires forall c :: 0 <= c < |data| ==> prev[c] == |Concat(data[..|data| - 1][..c])|
    requires border == prev + [prev[|data| - 1] + |data[|data| - 1]|]
    ensures forall c :: 0 <= c <= |data| ==> border[c] == |Concat(data[..c])|
  {
    var n := |data|;
    var front := data[..n - 1];
    forall c | 0 <= c <= n ensures border[c] == |Concat(data[..c])| {
      if c < n {
        assert front[..c] == data[..c];
      } else {
        assert front[..n - 1] == front;
        TakeStep(data, n - 1);
        ConcatAppend(front, data[n - 1]);
      }
    }
  }

  lemma ClassBorderStep<V>(data: seq<seq<seq<V>>>, border: seq<nat>, c: nat)
    requires c < |data| && |border| == |data| + 1
    requires border[c] == |Concat(data[..c])| && border[c + 1] == |Concat(data[..c + 1])|
    ensures border[c + 1] == border[c] + |data[c]|
  {
    TakeStep(data, c);
    ConcatAppend(data[..c], data[c]);
  }

  /** Every point of every class has `f` attributes. */
  predicate Uniform<V>(data: seq<seq<seq<V>>>, f: nat) {
    forall c, j :: 0 <= c < |data| && 0 <= j < |data[c]| ==> |data[c][j]| == f
  }

  /** Cuts `count` points of `f` attributes off the front of a flat stream; the stream must be
      used up exactly. */
  function Chunks<V>(values: seq<V>, f: nat, count: nat): Option<seq<seq<V>>>
    decreases count
  {
    if count == 0 then (if values == [] then Some([]) else None)
    else if |values| < f then None
    else
      var rest :- Chunks(values[f..], f, count - 1);
      Some([values[..f]] + rest)
  }

  /** Class `c` is points `border[c]` to `border[c + 1]`, for the first `n` classes. */
  function DecodeClasses<V>(points: seq<seq<V>>, border: seq<nat>, n: nat): Option<seq<seq<seq<V>>>>
    requires n < |border|
    decreases n
  {
    if n == 0 then Some([])
    else
      var prev :- DecodeClasses(points, border, n - 1);
      if border[n - 1] <= border[n] <= |points| then Some(prev + [points[border[n - 1]..border[n]]])
      else None
  }

  /** The consumer's view: points of `f` attributes, grouped into classes by the borders. */
  function Unflatten<V>(r: FlatDataset<V>, f: nat): Option<seq<seq<seq<V>>>> {
    if |r.classBorder| == 0 || r.classBorder[0] != 0 then None
    else
      var points :- Chunks(r.values, f, r.classBorder[|r.classBorder| - 1]);
      DecodeClasses(points, r.classBorder, |r.classBorder| - 1)
  }

  lemma {:induction false} ChunksOfConcat<V>(points: seq<seq<V>>, f: nat)
    requires forall j :: 0 <= j < |points| ==> |points[j]| == f
    ensures Chunks(Concat(points), f, |points|) == Some(points)
    decreases |points|
  {
    if |points| == 0 {
      assert Concat(points) == [];
    } else {
      ConcatFront(points);
      var values := Concat(points);
      assert values[..f] == points[0];
      assert values[f..] == Concat(points[1..]);
      ChunksOfConcat(points[1..], f);
      assert [points[0]] + points[1..] == points;
    }
  }

  lemma {:induction false} DecodeClassesOfConcat<V>(data: seq<seq<seq<V>>>, border: seq<nat>, n: nat)
    requires n < |border| && n <= |data|
    requires forall c :: 0 <= c <= n ==> border[c] == |Concat(data[..c])|
    ensures DecodeClasses(Concat(data), border, n) == Some(data[..n])
    decreases n
  {
    if n > 0 {
      DecodeClassesOfConcat(data, border, n - 1);
      ConcatSlice(data, n - 1);
      assert data[..n] == data[..n - 1] + [data[n - 1]];
    }
  }

  /** Round trip: when every point has `f` attributes, the flat stream and the class borders
      give the dataset back. */
  lemma {:induction false} FlattenRoundTrip<V>(data: seq<seq<seq<V>>>, f: nat)
    requires Uniform(data, f)
    ensures Unflatten(Flatten(data), f) == Some(data)
  {
    var r := Flatten(data);
    var points := Concat(data);
    forall j | 0 <= j < |points| ensures |points[j]| == f {
      PointOfConcat(data, j, f);
    }
    assert data[..|data|] == data;
    ChunksOfConcat(points, f);
    DecodeClassesOfConcat(data, r.classBorder, |data|);
  }

  lemma {:induction false} PointOfConcat<V>(data: seq<seq<seq<V>>>, j: nat, f: nat)
    requires Uniform(data, f) && j < |Concat(data)|
    ensures |Concat(data)[j]| == f
    decreases |data|
  {
    var n := |data|;
    var front := data[..n - 1];
    assert Uniform(front, f) by {
      forall c, k | 0 <= c < |front| && 0 <= k < |front[c]| ensures |front[c][k]| == f {
        assert front[c] == data[c];
      }
    }
    if j < |Concat(front)| {
      PointOfConcat(front, j, f);
    } else {
      assert Concat(data)[j] == data[n - 1][j - |Concat(front)|];
    }
  }
}
