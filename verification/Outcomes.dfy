/** Success or the first error, and conditions that fail with one. */
module Outcomes {
  datatype Outcome<+T, +E> = Ok(value: T) | Err(error: E)
  {
    predicate IsFailure() { Err? }
    function PropagateFailure<U>(): Outcome<U, E>
      requires Err?
    {
      Err(error)
    }
    function Extract(): T
      requires Ok?
    {
      value
    }
  }

  datatype Check<+E> = Pass | Fail(error: E)
  {
    predicate IsFailure() { Fail? }
    function PropagateFailure<U>(): Outcome<U, E>
      requires Fail?
    {
      Err(error)
    }
  }

  function Require<E>(condition: bool, error: E): Check<E> {
    if condition then Pass else Fail(error)
  }
}
