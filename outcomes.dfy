/** Results of operations that can raise, with the Python exception classes the
    modelled code raises. */
module Outcomes {
  datatype Exception =
    | ValueError(msg: string)
    | IndexError
    | KeyError
    | TypeError
    | AttributeError
    | ZeroDivisionError(msg: string)
    | NotImplementedError(msg: string)
    | AssertionError
    | ArithmeticError(msg: string)

  datatype Result<T> = Ok(value: T) | Err(exc: Exception)

  datatype Option<T> = None | Some(value: T)

  /** A set of integers that is not empty has an element. */
  lemma Inhabited(s: set<int>)
    ensures s == {} || exists x :: x in s
  {
    if forall x :: x !in s {
      assert s == {};
    }
  }
}
