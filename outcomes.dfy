/** Option and Result as the model uses them, and the panics of the HTTP layer.

    Every `unwrap()` and every out-of-bounds string slice in the source aborts the
    thread that runs it.  The model makes each such abort a value, `Err(p)`, whose
    `Panic` names the operation that aborted, so that the conditions under which the
    server fails can be stated and proved like any other result. */
module Outcomes {

  datatype Option<+T> = None | Some(value: T) {
    predicate IsFailure() { None? }

    function PropagateFailure<U>(): Option<U>
      requires None?
    {
      None
    }

    function Extract(): T
      requires Some?
    {
      value
    }
  }

  /** Why a request handler aborted. */
  datatype Panic =
    | NoRequestLine             // `lines().next().unwrap()` on an empty request
    | MissingMethod             // `split_whitespace().next().unwrap()`, first token
    | MissingPath               // `split_whitespace().next().unwrap()`, second token
    | PathSliceNotCharBoundary  // `&path[1..]` where byte 1 is not a char boundary
    | FileUnreadable(path: string)  // `fs::read_to_string(path).unwrap()`

  datatype Result<+T> = Ok(value: T) | Err(error: Panic) {
    predicate IsFailure() { Err? }

    function PropagateFailure<U>(): Result<U>
      requires Err?
    {
      Err(error)
    }

    function Extract(): T
      requires Ok?
    {
      value
    }
  }
}
