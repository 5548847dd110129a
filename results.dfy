/** Failure-compatible outcomes. Every exception the original can throw while parsing or
    printing (InvalidDataException, IndexOutOfRangeException, FormatException,
    OverflowException, ArgumentOutOfRangeException, InvalidOperationException) is the single
    value `Fail`: no partial result is ever produced. */
module Results {

  datatype Result<+T> = Ok(value: T) | Fail {

    predicate IsFailure() {
      Fail?
    }

    function PropagateFailure<U>(): Result<U>
      requires Fail?
    {
      Fail
    }

    function Extract(): T
      requires Ok?
    {
      value
    }
  }

  datatype Option<+T> = None | Some(value: T)
}
