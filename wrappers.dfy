/** Failure-carrying result types shared by every stage of the compiler model.
    A fatal `error_at(...)` followed by `exit(1)` in the C code becomes a
    `Failure` (or `Fail`) value carrying where the error is: a character
    position in the lexers, a token index in the parser. */
module Wrappers {

  datatype Option<+T> = None | Some(value: T)

  datatype Result<+R, +E> = Success(value: R) | Failure(error: E)

  /** A result that carries no value on success (the C functions returning void). */
  datatype Outcome<+E> = Pass | Fail(error: E)

  /** A result list with `xs` in front of it; a failure stays as it is. */
  function Prepend<T, E>(xs: seq<T>, r: Result<seq<T>, E>): Result<seq<T>, E>
  {
    match r
    case Success(rest) => Success(xs + rest)
    case Failure(e) => Failure(e)
  }

  lemma PrependNil<T, E>(r: Result<seq<T>, E>)
    ensures Prepend([], r) == r
  {
    if r.Success? {
      assert [] + r.value == r.value;
    }
  }

  lemma PrependAppend<T, E>(a: seq<T>, b: seq<T>, r: Result<seq<T>, E>)
    ensures Prepend(a, Prepend(b, r)) == Prepend(a + b, r)
  {
    if r.Success? {
      assert a + (b + r.value) == (a + b) + r.value;
    }
  }
}
