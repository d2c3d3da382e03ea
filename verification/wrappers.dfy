/** Failure-compatible result types shared by the decoders of this model. */
module Wrappers {

  /** A value that may be absent; decoders return `None` on input they cannot read. */
  datatype Option<+T> = None | Some(value: T) {

    predicate IsFailure() {
      None?
    }

    function PropagateFailure<U>(): Option<U>
      requires None?
    {
      None
    }

    function Extract(): T
      requires Some?
    {
      value
    }
  }

  /** A value or the reason it could not be produced; the binary readers return this. */
  datatype Result<+R, +E> = Success(value: R) | Failure(error: E) {

    predicate IsFailure() {
      Failure?
    }

    function PropagateFailure<U>(): Result<U, E>
      requires Failure?
    {
      Failure(error)
    }

    function Extract(): R
      requires Success?
    {
      value
    }
  }

  /** Decodes items `0 .. n - 1` in order, failing at the first that does not decode. */
  function Collect<T>(decode: nat -> Option<T>, n: nat): Option<seq<T>>
    decreases n
  {
    if n == 0 then Some([])
    else
      var prev :- Collect(decode, n - 1);
      var x :- decode(n - 1);
      Some(prev + [x])
  }

  /** When every item decodes, the collection is the items themselves. */
  lemma {:induction false} CollectAll<T>(decode: nat -> Option<T>, xs: seq<T>, n: nat)
    requires n <= |xs|
    requires forall i :: 0 <= i < n ==> decode(i) == Some(xs[i])
    ensures Collect(decode, n) == Some(xs[..n])
    decreases n
  {
    if n > 0 {
      CollectAll(decode, xs, n - 1);
      assert xs[..n] == xs[..n - 1] + [xs[n - 1]];
    } else {
      assert xs[..0] == [];
    }
  }
}
