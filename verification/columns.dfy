/** Finding the columns of a dataset indexed `[class][point][attribute]` whose value never
    changes. */
module Columns {

  /** Every point of every class has at least `n` attributes. */
  predicate Wide<V>(data: seq<seq<seq<V>>>, n: nat) {
    forall c, j :: 0 <= c < |data| && 0 <= j < |data[c]| ==> |data[c][j]| >= n
  }

  /** Column `col` holds the same value in every point. */
  predicate Uniform<V(==)>(data: seq<seq<seq<V>>>, col: nat)
    requires |data| > 0 && |data[0]| > 0 && Wide(data, col + 1)
  {
    forall c, j :: 0 <= c < |data| && 0 <= j < |data[c]| ==> data[c][j][col] == data[0][0][col]
  }

  /** The source's scan: for each column of the first point, compare every point's value with
      the first point's, stopping at the first difference. With no classes, or an empty first
      class, no column is marked. */
  method MarkUniformColumns<V(==)>(data: seq<seq<seq<V>>>) returns (removed: seq<bool>)
    requires |data| > 0 && |data[0]| > 0 ==> Wide(data, |data[0][0]|)
    ensures |data| == 0 || |data[0]| == 0 ==> removed == []
    ensures |data| > 0 && |data[0]| > 0 ==> |removed| == |data[0][0]|
    ensures |data| > 0 && |data[0]| > 0 ==>
              forall col :: 0 <= col < |removed| ==> (removed[col] <==> Uniform(data, col))
  {
    if |data| == 0 || |data[0]| == 0 {
      return [];
    }
    var numCols := |data[0][0]|;
    removed := seq(numCols, _ => false);
    for col := 0 to numCols
      invariant |removed| == numCols
      invariant forall k :: 0 <= k < col ==> (removed[k] <==> Uniform(data, k))
      invariant forall k :: col <= k < numCols ==> !removed[k]
    {
      var reference := data[0][0][col];
      var allSame := true;
      var c := 0;
      while c < |data|
        invariant 0 <= c <= |data|
        invariant allSame
        invariant forall c', j :: 0 <= c' < c && 0 <= j < |data[c']| ==> data[c'][j][col] == reference
        decreases |data| - c
      {
        var j := 0;
        while j < |data[c]|
          invariant 0 <= j <= |data[c]|
          invariant allSame
          invariant forall j' :: 0 <= j' < j ==> data[c][j'][col] == reference
          decreases |data[c]| - j
        {
          if data[c][j][col] != reference {
            allSame := false;
            break;
          }
          j := j + 1;
        }
        if !allSame {
          break;
        }
        c := c + 1;
      }
      if allSame {
        removed := removed[col := true];
      }
    }
  }
}
