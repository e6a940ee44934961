/** Results of the operations of the core.

    The Rust code has two ways of failing: an operation either returns
    `Err(String)` (the satisfaction measure, the ARIMA model) or it panics
    (every precondition violation of the genetic operators and index or
    subtraction errors). Both are modelled as values here, so that every
    error path is visible in the contracts instead of being excluded by a
    precondition.
 */
module Outcomes {

  datatype Outcome<T> =
    | Ok(value: T)
    | Err(message: string)    // a Rust `Err(String)` returned to the caller
    | Panic(message: string)  // a Rust panic, which aborts the computation

  /** Rust's `Option`. */
  datatype Option<T> = None | Some(value: T)
}
