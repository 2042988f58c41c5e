/** The two generic outcome types used by every other module. */
module Outcomes {

  datatype Option<+T> = None | Some(value: T) {
    function UnwrapOr(default: T): T {
      if Some? then value else default
    }
  }

  /** A fallible result; usable with `:-`. */
  datatype Result<+T, +E> = Ok(value: T) | Err(error: E) {
    predicate IsFailure() {
      Err?
    }

    function PropagateFailure<U>(): Result<U, E>
      requires Err?
    {
      Err(error)
    }

    function Extract(): T
      requires Ok?
    {
      value
    }
  }

  /** The error kinds of `CryptoError`; message texts are not modelled. */
  datatype CryptoError =
    | InvalidKeySize(expected: nat, actual: nat)
    | SignatureError
    | CurveError
    | SeedError
    | Custom
}
