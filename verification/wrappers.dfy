/** Failure-compatible result types shared by every module of the model.
    The generator signals failure through Python exceptions of several
    kinds; the model keeps one `Error` value per kind that matters to a
    caller and collapses the rest. */
module Wrappers {

  datatype Option<+T> = None | Some(value: T) {
    function GetOr(default: T): T {
      match this
      case Some(v) => v
      case None => default
    }
  }

  /** Why an operation gave up. */
  datatype Error =
    | Truncated                  // a byte stream or fixed header ended early
    | BadValue(what: string)     // a value that names no enum member (ValueError)
    | Index                      // indexing past the end (IndexError)
    | Assertion(what: string)    // a failed `assert` in the generator
    | Rejected(what: string)     // the tool refuses its input and exits
    | NotSupported(name: string) // a transaction type with no code generator
    | Missing(name: string)      // a required device-tree property is absent

  datatype Result<+T> = Ok(value: T) | Fail(error: Error) {
    predicate IsFailure() {
      Fail?
    }

    function PropagateFailure<U>(): Result<U>
      requires Fail?
    {
      Fail(error)
    }

    function Extract(): T
      requires Ok?
    {
      value
    }
  }
}
