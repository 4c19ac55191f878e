/** Results of operations that the sources report by raising or by returning an error. */
module Outcomes {
  datatype Option<+T> = None | Some(value: T) {
    predicate IsFailure() { None? }

    function PropagateFailure<U>(): Option<U>
      requires None?
    {
      None
    }

    function Extract(): T
      requires Some?
    {
      value
    }
  }

  datatype Result<+T, +E> = Success(value: T) | Failure(error: E) {
    predicate IsFailure() { Failure? }

    function PropagateFailure<U>(): Result<U, E>
      requires Failure?
    {
      Failure(error)
    }

    function Extract(): T
      requires Success?
    {
      value
    }
  }

  /** Puts elements in front of a list that may have failed. */
  function Prepend<T>(front: seq<T>, rest: Option<seq<T>>): Option<seq<T>> {
    match rest
    case None => None
    case Some(xs) => Some(front + xs)
  }

  lemma PrependNothing<T>(xs: Option<seq<T>>)
    ensures Prepend([], xs) == xs
  {
    if xs.Some? {
      assert [] + xs.value == xs.value;
    }
  }

  lemma PrependTwice<T>(front: seq<T>, x: T, rest: Option<seq<T>>)
    ensures Prepend(front, Prepend([x], rest)) == Prepend(front + [x], rest)
  {
    if rest.Some? {
      assert front + ([x] + rest.value) == (front + [x]) + rest.value;
    }
  }
}
