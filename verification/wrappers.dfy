/**
  Failure-compatible wrappers shared by every other module.

  The emulator never returns errors: every failure is a Rust panic
  (`unwrap`, `expect`, `assert!`, an out-of-range slice, `todo!()`).
  The model turns each panic into an explicit `Err` carrying a `Fault`
  that names which of them fired, so that contracts can talk about the
  failing inputs instead of excluding them.
*/
module Wrappers {

  datatype Option<+T> = None | Some(value: T)

  /** The panics of the modelled code, one constructor per kind. */
  datatype Fault =
    | IndexOutOfRange    // `xs[0]`, `&xs[2..]`, `rules.last().unwrap()` on too short a sequence
    | BadArrayPath       // a `get_mut(..)` along a splitting path found nothing
    | NotAnArray         // `as_array().unwrap()` of the mediation value in `split_billingmediation`
    | PathNotFound       // `json_split`: nothing at the splitting path, or the text there is not an array
    | SpliceOverflow     // `split_at_mut` past the array interior
    | MissingJsSuffix    // `split_once(".js").unwrap()` on the export rule
    | EmptyRules         // `assert!(!rules.is_empty())`
    | RecursionLimit     // "hit recursion limit"
    | NotImplemented     // `todo!()`
    | NotAnObject        // a serde conversion that needs a JSON object got something else
    | TailUnderflow      // `lines.len() - tail` below zero
    | NotIngestion       // the root module handed to ingestion is not an ingestion module
    | LineMismatch       // the anonymiser returned a different number of records

  datatype Result<+T> = Ok(value: T) | Err(fault: Fault) {

    predicate IsFailure() {
      Err?
    }

    function PropagateFailure<U>(): Result<U>
      requires Err?
    {
      Err(fault)
    }

    function Extract(): T
      requires Ok?
    {
      value
    }
  }
}
