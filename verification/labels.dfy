/** Class indices for a labelled CSV: rows are the cells of each line after the header, the
    last cell is the class label, and classes are numbered in order of first appearance; and
    renumbering a testing set's classes by the training set's indices. */
module Labels {

  /** The class labels of `rows` in order of first appearance; empty rows are skipped. */
  function Labels(rows: seq<seq<string>>): (ls: seq<string>)
    ensures forall i, j :: 0 <= i < j < |ls| ==> ls[i] != ls[j]
    ensures forall l :: l in ls <==> exists r :: 0 <= r < |rows| && |rows[r]| > 0 && LabelOf(rows[r]) == l
    ensures InFirstOrder(rows, ls)
    decreases |rows|
  {
    if |rows| == 0 then []
    else
      var front := Labels(rows[..|rows| - 1]);
      var row := rows[|rows| - 1];
      LabelsStep(rows);
      var ls := if |row| == 0 || LabelOf(row) in front then front else front + [LabelOf(row)];
      OrderStep(rows, rows[..|rows| - 1], front, ls);
      ls
  }

  /** Row `r` is the first non-empty row labelled `l`. */
  predicate FirstWith(rows: seq<seq<string>>, l: string, r: int) {
    && 0 <= r < |rows| && |rows[r]| > 0 && LabelOf(rows[r]) == l
    && forall q :: 0 <= q < r && |rows[q]| > 0 ==> LabelOf(rows[q]) != l
  }

  /** An earlier label of `ls` first appears in an earlier row. */
  predicate InFirstOrder(rows: seq<seq<string>>, ls: seq<string>) {
    forall i, j, ri, rj ::
      (0 <= i < j < |ls| && 0 <= ri < |rows| && 0 <= rj < |rows| &&
       FirstWith(rows, ls[i], ri) && FirstWith(rows, ls[j], rj)) ==> ri < rj
  }

  /** A label some row before the last carries first appears before the last row. */
  lemma FirstWithFront(rows: seq<seq<string>>, l: string, r: int, r0: nat)
    requires |rows| > 0 && FirstWith(rows, l, r)
    requires r0 < |rows| - 1 && |rows[r0]| > 0 && LabelOf(rows[r0]) == l
    ensures r < |rows| - 1 && FirstWith(rows[..|rows| - 1], l, r)
  {
    assert r <= r0;
    var front := rows[..|rows| - 1];
    forall q | 0 <= q < r && |front[q]| > 0 ensures LabelOf(front[q]) != l {
      assert front[q] == rows[q];
    }
    assert front[r] == rows[r];
  }

  /** Appending the last row's label, when new, keeps the labels in first-appearance order. */
  lemma OrderStep(rows: seq<seq<string>>, prev: seq<seq<string>>, front: seq<string>, ls: seq<string>)
    requires |rows| > 0 && prev == rows[..|rows| - 1]
    requires forall l :: l in front <==> exists r :: 0 <= r < |prev| && |prev[r]| > 0 && LabelOf(prev[r]) == l
    requires forall r :: 0 <= r < |prev| ==> prev[r] == rows[r]
    requires InFirstOrder(prev, front)
    requires |rows[|rows| - 1]| == 0 || LabelOf(rows[|rows| - 1]) in front ==> ls == front
    requires |rows[|rows| - 1]| > 0 && LabelOf(rows[|rows| - 1]) !in front ==> ls == front + [LabelOf(rows[|rows| - 1])]
    ensures InFirstOrder(rows, ls)
  {
    var n := |rows|;
    forall i, j, ri, rj | 0 <= i < j < |ls| && 0 <= ri < n && 0 <= rj < n &&
                          FirstWith(rows, ls[i], ri) && FirstWith(rows, ls[j], rj)
      ensures ri < rj
    {
      assert ls[i] == front[i] && ls[i] in front;
      var r0 :| 0 <= r0 < |prev| && |prev[r0]| > 0 && LabelOf(prev[r0]) == ls[i];
      FirstWithFront(rows, ls[i], ri, r0);
      if j < |front| {
        assert ls[j] == front[j] && ls[j] in front;
        var r1 :| 0 <= r1 < |prev| && |prev[r1]| > 0 && LabelOf(prev[r1]) == ls[j];
        FirstWithFront(rows, ls[j], rj, r1);
      } else if rj < n - 1 {
        assert false;
      }
    }
  }

  lemma LabelsStep(rows: seq<seq<string>>)
    requires |rows| > 0
    ensures forall r :: 0 <= r < |rows| - 1 ==> rows[..|rows| - 1][r] == rows[r]
  {
  }

  function LabelOf(row: seq<string>): string
    requires |row| > 0
  {
    row[|row| - 1]
  }

  /** The attribute cells of a row, each read by `parse`. */
  function PointOf<V>(row: seq<string>, parse: string -> V): (p: seq<V>)
    requires |row| > 0
    ensures |p| == |row| - 1
    ensures forall j :: 0 <= j < |p| ==> p[j] == parse(row[j])
  {
    seq(|row| - 1, j requires 0 <= j < |row| - 1 => parse(row[j]))
  }

  /** The points of the rows labelled `name`, in row order: the reference for one class. */
  function PointsOf<V>(rows: seq<seq<string>>, name: string, parse: string -> V): seq<seq<V>>
    decreases |rows|
  {
    if |rows| == 0 then []
    else
      var row := rows[|rows| - 1];
      PointsOf(rows[..|rows| - 1], name, parse)
        + (if |row| > 0 && LabelOf(row) == name then [PointOf(row, parse)] else [])
  }

  datatype Setup<V> = Setup(classMap: map<string, nat>, data: seq<seq<seq<V>>>)

  /** The loader's loop: a new label gets the next index and an empty class; every non-empty
      row's point is appended to its label's class. */
  function DataSetup<V>(rows: seq<seq<string>>, parse: string -> V): (r: Setup<V>)
    ensures |r.data| == |Labels(rows)|
    ensures forall l :: l in r.classMap <==> l in Labels(rows)
    ensures forall c :: 0 <= c < |Labels(rows)| ==> Labels(rows)[c] in r.classMap && r.classMap[Labels(rows)[c]] == c
    ensures forall c :: 0 <= c < |r.data| ==> r.data[c] == PointsOf(rows, Labels(rows)[c], parse)
    decreases |rows|
  {
    if |rows| == 0 then Setup(map[], [])
    else
      var front := rows[..|rows| - 1];
      var prev := DataSetup(front, parse);
      var row := rows[|rows| - 1];
      if |row| == 0 then
        SetupSkip(rows, parse, prev);
        prev
      else
        var name := LabelOf(row);
        if name !in prev.classMap then
          var r := Setup(prev.classMap[name := |prev.data|], prev.data + [[PointOf(row, parse)]]);
          SetupNew(rows, parse, prev, r);
          r
        else
          var c := prev.classMap[name];
          var r := Setup(prev.classMap, prev.data[c := prev.data[c] + [PointOf(row, parse)]]);
          SetupOld(rows, parse, prev, r);
          r
  }

  /** What the loop guarantees about the rows before the last one. */
  ghost predicate SetupFor<V>(rows: seq<seq<string>>, parse: string -> V, r: Setup<V>) {
    && |r.data| == |Labels(rows)|
    && (forall l :: l in r.classMap <==> l in Labels(rows))
    && (forall c :: 0 <= c < |Labels(rows)| ==> Labels(rows)[c] in r.classMap && r.classMap[Labels(rows)[c]] == c)
    && (forall c :: 0 <= c < |r.data| ==> r.data[c] == PointsOf(rows, Labels(rows)[c], parse))
  }

  lemma SetupSkip<V>(rows: seq<seq<string>>, parse: string -> V, prev: Setup<V>)
    requires |rows| > 0 && |rows[|rows| - 1]| == 0
    requires SetupFor(rows[..|rows| - 1], parse, prev)
    ensures SetupFor(rows, parse, prev)
  {
    var front := rows[..|rows| - 1];
    assert Labels(rows) == Labels(front);
    forall c | 0 <= c < |prev.data| ensures prev.data[c] == PointsOf(rows, Labels(rows)[c], parse) {
      assert PointsOf(rows, Labels(rows)[c], parse) == PointsOf(front, Labels(rows)[c], parse);
    }
  }

  lemma SetupNew<V>(rows: seq<seq<string>>, parse: string -> V, prev: Setup<V>, r: Setup<V>)
    requires |rows| > 0 && |rows[|rows| - 1]| > 0
    requires SetupFor(rows[..|rows| - 1], parse, prev)
    requires LabelOf(rows[|rows| - 1]) !in prev.classMap
    requires r == Setup(prev.classMap[LabelOf(rows[|rows| - 1]) := |prev.data|],
                        prev.data + [[PointOf(rows[|rows| - 1], parse)]])
    ensures SetupFor(rows, parse, r)
  {
    var front := rows[..|rows| - 1];
    var row := rows[|rows| - 1];
    var name := LabelOf(row);
    assert Labels(rows) == Labels(front) + [name];
    forall c | 0 <= c < |r.data| ensures r.data[c] == PointsOf(rows, Labels(rows)[c], parse) {
      var l := Labels(rows)[c];
      if c < |prev.data| {
        assert l == Labels(front)[c] && l != name;
      } else {
        assert l == name;
        PointsOfAbsent(front, name, parse);
      }
    }
  }

  lemma SetupOld<V>(rows: seq<seq<string>>, parse: string -> V, prev: Setup<V>, r: Setup<V>)
    requires |rows| > 0 && |rows[|rows| - 1]| > 0
    requires SetupFor(rows[..|rows| - 1], parse, prev)
    requires LabelOf(rows[|rows| - 1]) in prev.classMap
    requires prev.classMap[LabelOf(rows[|rows| - 1])] < |prev.data|
    requires r == Setup(prev.classMap,
                        prev.data[prev.classMap[LabelOf(rows[|rows| - 1])] :=
                          prev.data[prev.classMap[LabelOf(rows[|rows| - 1])]] + [PointOf(rows[|rows| - 1], parse)]])
    ensures SetupFor(rows, parse, r)
  {
    var front := rows[..|rows| - 1];
    var name := LabelOf(rows[|rows| - 1]);
    assert Labels(rows) == Labels(front);
    forall c | 0 <= c < |r.data| ensures r.data[c] == PointsOf(rows, Labels(rows)[c], parse) {
      var l := Labels(rows)[c];
      if l == name {
        assert prev.classMap[name] == c;
      }
    }
  }

  /** A label that no row carries has no points. */
  lemma {:induction false} PointsOfAbsent<V>(rows: seq<seq<string>>, name: string, parse: string -> V)
    requires name !in Labels(rows)
    ensures PointsOf(rows, name, parse) == []
    decreases |rows|
  {
    if |rows| > 0 {
      var front := rows[..|rows| - 1];
      assert name !in Labels(front);
      PointsOfAbsent(front, name, parse);
    }
  }

  /** No two labels share an index. */
  predicate Injective(m: map<string, nat>) {
    forall a, b :: a in m && b in m && a != b ==> m[a] != m[b]
  }

  /** The indices `DataSetup` hands out are distinct and run from 0 to the class count. */
  lemma SetupIndices<V>(rows: seq<seq<string>>, parse: string -> V)
    ensures Injective(DataSetup(rows, parse).classMap)
    ensures forall l :: l in DataSetup(rows, parse).classMap ==>
              DataSetup(rows, parse).classMap[l] < |DataSetup(rows, parse).data|
  {
    var r := DataSetup(rows, parse);
    var ls := Labels(rows);
    forall l | l in r.classMap ensures exists c :: 0 <= c < |ls| && ls[c] == l && r.classMap[l] == c {
      var c :| 0 <= c < |ls| && ls[c] == l;
    }
  }

  /** The loader's second loop: every (label, index) entry becomes an (index, label) entry. */
  method ReverseClassMap(classMap: map<string, nat>) returns (reversed: map<nat, string>)
    requires Injective(classMap)
    ensures reversed.Keys == classMap.Values
    ensures forall l :: l in classMap ==> reversed[classMap[l]] == l
    ensures forall i :: i in reversed ==> reversed[i] in classMap && classMap[reversed[i]] == i
  {
    reversed := map[];
    var todo := classMap.Keys;
    while todo != {}
      invariant todo <= classMap.Keys
      invariant reversed.Keys == set l | l in classMap.Keys - todo :: classMap[l]
      invariant forall l :: l in classMap.Keys - todo ==> reversed[classMap[l]] == l
      decreases todo
    {
      var l :| l in todo;
      reversed := reversed[classMap[l] := l];
      todo := todo - {l};
    }
    assert classMap.Keys - todo == classMap.Keys;
  }

  /** Labels known to both numberings. */
  function Shared(trainMap: map<string, nat>, testMap: map<string, nat>): set<string> {
    set l | l in trainMap && l in testMap
  }

  /** Some testing class below `n` moves to training index `i`. */
  predicate Targeted(trainMap: map<string, nat>, testMap: map<string, nat>, n: nat, i: nat) {
    exists l :: l in Shared(trainMap, testMap) && testMap[l] < n && trainMap[l] == i
  }

  /** The source's first loop: for each label known to both numberings, map its testing index
      to its training index, growing the output length (starting at `n`) to hold the
      training index. */
  method IndexMapOf(trainMap: map<string, nat>, testMap: map<string, nat>, n: nat)
    returns (indexMap: map<nat, nat>, size: nat)
    requires Injective(testMap)
    ensures size >= n
    ensures forall l :: l in Shared(trainMap, testMap) ==>
              testMap[l] in indexMap && indexMap[testMap[l]] == trainMap[l] && trainMap[l] < size
    ensures forall t :: t in indexMap ==>
              exists l :: l in Shared(trainMap, testMap) && testMap[l] == t && indexMap[t] == trainMap[l]
    ensures size > n ==> exists l :: l in Shared(trainMap, testMap) && trainMap[l] + 1 == size
  {
    var shared := Shared(trainMap, testMap);
    indexMap, size := map[], n;
    var done: set<string> := {};
    var todo := trainMap.Keys;
    while todo != {}
      invariant todo <= trainMap.Keys && done == trainMap.Keys - todo
      invariant size >= n
      invariant forall l :: l in shared && l in done ==>
                  testMap[l] in indexMap && indexMap[testMap[l]] == trainMap[l] && trainMap[l] < size
      invariant forall t :: t in indexMap ==>
                  exists l :: l in shared && l in done && testMap[l] == t && indexMap[t] == trainMap[l]
      invariant size > n ==> exists l :: l in shared && l in done && trainMap[l] + 1 == size
      decreases todo
    {
      var l :| l in todo;
      if l in testMap {
        indexMap := indexMap[testMap[l] := trainMap[l]];
        if trainMap[l] >= size {
          size := trainMap[l] + 1;
        }
      }
      todo := todo - {l};
      done := done + {l};
    }
  }

  /** The testing set renumbered by the training set's indices: a testing class whose label
      the training set also knows moves to the training index; the list grows to hold the
      largest such index; every other entry is empty. */
  method ReorderTestingDataset<V>(testing: seq<seq<seq<V>>>, trainMap: map<string, nat>, testMap: map<string, nat>)
    returns (out: seq<seq<seq<V>>>)
    requires Injective(trainMap) && Injective(testMap)
    ensures |out| >= |testing|
    ensures forall l :: l in Shared(trainMap, testMap) ==> trainMap[l] < |out|
    ensures |out| > |testing| ==> exists l :: l in Shared(trainMap, testMap) && trainMap[l] + 1 == |out|
    ensures forall l :: l in Shared(trainMap, testMap) && testMap[l] < |testing| ==>
              out[trainMap[l]] == testing[testMap[l]]
    ensures forall i :: 0 <= i < |out| && !Targeted(trainMap, testMap, |testing|, i) ==> out[i] == []
  {
    var indexMap, size := IndexMapOf(trainMap, testMap, |testing|);
    IndexMapInjective(Shared(trainMap, testMap), trainMap, testMap, indexMap);
    out := seq(size, _ => []);
    for t := 0 to |testing|
      invariant |out| == size
      invariant forall u :: 0 <= u < t && u in indexMap ==> out[indexMap[u]] == testing[u]
      invariant forall i :: 0 <= i < |out| && (forall u :: 0 <= u < t && u in indexMap ==> indexMap[u] != i) ==>
                  out[i] == []
    {
      if t in indexMap {
        out := out[indexMap[t] := testing[t]];
      }
    }
    forall i | 0 <= i < |out| && !Targeted(trainMap, testMap, |testing|, i) ensures out[i] == [] {
      forall u | 0 <= u < |testing| && u in indexMap ensures indexMap[u] != i {
        var l :| l in Shared(trainMap, testMap) && testMap[l] == u && indexMap[u] == trainMap[l];
      }
    }
  }

  lemma IndexMapInjective(shared: set<string>, trainMap: map<string, nat>, testMap: map<string, nat>,
                          indexMap: map<nat, nat>)
    requires Injective(trainMap) && shared == Shared(trainMap, testMap)
    requires forall t :: t in indexMap ==>
               exists l :: l in shared && testMap[l] == t && indexMap[t] == trainMap[l]
    ensures forall t, u :: t in indexMap && u in indexMap && t != u ==> indexMap[t] != indexMap[u]
  {
  }
}
