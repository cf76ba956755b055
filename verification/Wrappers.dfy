/** Results and statuses, in the shape of the assembler's own `Result` and `Status`. */
module Wrappers {

  datatype Option<+T> = None | Some(value: T)

  /** The conditions under which an assembler or object operation reports failure. */
  datatype Condition =
    | AssemblerInvariant
    | ObjectInvariant
    | ImportError
    | InvalidAccess
    | InvalidBinding
    | MissingMethod
    | MissingVariable
    | SymbolAlreadyDefined

  datatype Result<+T> = Ok(value: T) | Err(condition: Condition) {

    predicate IsFailure() {
      Err?
    }

    function PropagateFailure<U>(): Result<U>
      requires Err?
    {
      Err(condition)
    }

    function Extract(): T
      requires Ok?
    {
      value
    }
  }

  type Status = Result<()>

  const OK: Status := Ok(())

  function FailIf(bad: bool, condition: Condition): Status {
    if bad then Err(condition) else OK
  }
}
