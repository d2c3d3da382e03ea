/** Binary files as sequences of 4-byte fields: each field holds either an `int` or a float
    payload. Readers consume fields from the front and hand back what is left. */
module Words {
  import opened Wrappers

  datatype Word<V> = I(n: int) | F(v: V)

  /** Why a reader stopped: the file ended early, a field held the other kind of value, or a
      length field was negative where the reader sizes a vector by it. */
  datatype CodecError = Truncated | Mistyped | NegativeLength

  /** A value read together with the fields that follow it. */
  type Read<T, V> = Result<(T, seq<Word<V>>), CodecError>

  /** The float fields holding `vs`, in order. */
  function Floats<V>(vs: seq<V>): (ws: seq<Word<V>>)
    ensures |ws| == |vs|
    ensures forall i :: 0 <= i < |vs| ==> ws[i] == F(vs[i])
  {
    seq(|vs|, i requires 0 <= i < |vs| => F(vs[i]))
  }

  function ReadInt<V>(ws: seq<Word<V>>): (r: Read<int, V>)
    ensures r.Success? <==> |ws| > 0 && ws[0].I?
    ensures r.Success? ==> r.value == (ws[0].n, ws[1..])
  {
    if |ws| == 0 then Failure(Truncated)
    else if ws[0].F? then Failure(Mistyped)
    else Success((ws[0].n, ws[1..]))
  }

  /** Reads `n` float fields. */
  function ReadVals<V>(ws: seq<Word<V>>, n: nat): (r: Read<seq<V>, V>)
    ensures r.Success? <==> n <= |ws| && forall i :: 0 <= i < n ==> ws[i].F?
    ensures r.Success? ==> n <= |ws| && Floats(r.value.0) == ws[..n] && r.value.1 == ws[n..]
    ensures r.Failure? ==> r.error != NegativeLength
    decreases n
  {
    if n == 0 then Success(([], ws))
    else if |ws| == 0 then Failure(Truncated)
    else if ws[0].I? then Failure(Mistyped)
    else
      var tail := ReadVals(ws[1..], n - 1);
      FloatFieldsCons(ws, n);
      if tail.Failure? then Failure(tail.error)
      else
        var (vs, rest) := tail.value;
        FloatsCons(ws, n, vs);
        Success(([ws[0].v] + vs, rest))
  }

  lemma FloatFieldsCons<V>(ws: seq<Word<V>>, n: nat)
    requires n > 0 && |ws| > 0 && ws[0].F?
    ensures (n <= |ws| && forall i :: 0 <= i < n ==> ws[i].F?)
        <==> (n - 1 <= |ws[1..]| && forall i :: 0 <= i < n - 1 ==> ws[1..][i].F?)
  {
    if n - 1 <= |ws[1..]| && forall i :: 0 <= i < n - 1 ==> ws[1..][i].F? {
      forall i | 0 <= i < n ensures ws[i].F? {
        if i > 0 {
          assert ws[i] == ws[1..][i - 1];
        }
      }
    }
  }

  lemma FloatsCons<V>(ws: seq<Word<V>>, n: nat, vs: seq<V>)
    requires 0 < n <= |ws| && ws[0].F?
    requires Floats(vs) == ws[1..][..n - 1]
    ensures Floats([ws[0].v] + vs) == ws[..n]
  {
    assert Floats([ws[0].v] + vs) == [ws[0]] + Floats(vs);
    assert ws[..n] == [ws[0]] + ws[1..][..n - 1];
  }

  lemma {:induction false} ReadValsOfFloats<V>(vs: seq<V>, rest: seq<Word<V>>)
    ensures ReadVals(Floats(vs) + rest, |vs|) == Success((vs, rest))
    decreases |vs|
  {
    if |vs| > 0 {
      ReadValsOfFloats(vs[1..], rest);
      ReadValsStep(vs, rest);
    } else {
      assert Floats(vs) + rest == rest;
    }
  }

  lemma ReadValsStep<V>(vs: seq<V>, rest: seq<Word<V>>)
    requires |vs| > 0
    requires ReadVals(Floats(vs[1..]) + rest, |vs[1..]|) == Success((vs[1..], rest))
    ensures ReadVals(Floats(vs) + rest, |vs|) == Success((vs, rest))
  {
    var ws := Floats(vs) + rest;
    FloatsFront(vs, rest);
    ReadValsCons(ws, |vs|, vs[1..], rest);
    assert [vs[0]] + vs[1..] == vs;
  }

  lemma FloatsFront<V>(vs: seq<V>, rest: seq<Word<V>>)
    requires |vs| > 0
    ensures (Floats(vs) + rest)[0] == F(vs[0])
    ensures (Floats(vs) + rest)[1..] == Floats(vs[1..]) + rest
  {
    var ws := Floats(vs) + rest;
    assert ws[1..] == Floats(vs[1..]) + rest;
  }

  lemma ReadValsCons<V>(ws: seq<Word<V>>, n: nat, vs: seq<V>, rest: seq<Word<V>>)
    requires n > 0 && |ws| > 0 && ws[0].F?
    requires ReadVals(ws[1..], n - 1) == Success((vs, rest))
    ensures ReadVals(ws, n) == Success(([ws[0].v] + vs, rest))
  {
  }

  /** How many times a reader's `for (i = 0; i < n; ++i)` runs for a count field `n`. */
  function LoopCount(n: int): (k: nat)
    ensures n >= 0 ==> k == n
    ensures n < 0 ==> k == 0
  {
    if n < 0 then 0 else n
  }

  /** An int field followed by a body reads as the int, leaving the body. */
  lemma IntThenRest<V>(n: int, body: seq<Word<V>>, rest: seq<Word<V>>)
    ensures ReadInt([I(n)] + body + rest) == Success((n, body + rest))
  {
    assert ([I(n)] + body + rest)[1..] == body + rest;
  }
}
