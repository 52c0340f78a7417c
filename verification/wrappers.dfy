/** Failure-compatible wrappers used across the model: a value that may be
    absent, and a computation that either succeeds or fails with a reason. */
module Wrappers {

  /** An optional value; `None` stands for Python's `None` or a missing key. */
  datatype Option<+T> = None | Some(value: T)

  /** A success value or a failure reason; usable with `:-`. */
  datatype Result<+R, +E> = Success(value: R) | Failure(error: E) {

    predicate IsFailure() {
      Failure?
    }

    function PropagateFailure<U>(): Result<U, E>
      requires Failure?
    {
      Failure(error)
    }

    function Extract(): R
      requires Success?
    {
      value
    }
  }

  /** A step that succeeded on every element of a list's tail, and on its
      head, succeeded on every element, the results read in order. */
  lemma SucceedsEachCons<A, B, E>(f: A -> Result<B, E>, xs: seq<A>, y: B, ys: seq<B>)
    requires xs != [] && f(xs[0]) == Success(y) && |ys| == |xs| - 1
    requires forall i | 0 <= i < |ys| :: f(xs[1..][i]) == Success(ys[i])
    ensures forall i | 0 <= i < |xs| :: f(xs[i]) == Success(([y] + ys)[i])
  {
    forall i | 0 <= i < |xs|
      ensures f(xs[i]) == Success(([y] + ys)[i])
    {
      if i > 0 {
        assert xs[i] == xs[1..][i - 1];
      }
    }
  }

  /** A step succeeds on every element of a non-empty list exactly when it
      succeeds on the head and on every element of the tail. */
  lemma AllSucceedCons<A, B, E>(f: A -> Result<B, E>, xs: seq<A>)
    requires xs != []
    ensures (forall i | 0 <= i < |xs| :: f(xs[i]).Success?) <==>
            f(xs[0]).Success? && forall i | 0 <= i < |xs[1..]| :: f(xs[1..][i]).Success?
  {
    if f(xs[0]).Success? && forall i | 0 <= i < |xs[1..]| :: f(xs[1..][i]).Success? {
      forall i | 0 <= i < |xs| ensures f(xs[i]).Success? {
        if i > 0 {
          assert xs[i] == xs[1..][i - 1];
        }
      }
    }
  }
}
