/** What every module shares: the Option and Result datatypes, and the associative law of sequences. */
module Wrappers {

  datatype Option<+T> = None | Some(value: T) {
    function GetOr(default: T): T {
      if Some? then value else default
    }
  }

  /** The outcome of code that may throw: the value, or the fact that the run was aborted. */
  datatype Result<+T> = Ok(value: T) | Err

  lemma Assoc<T>(a: seq<T>, b: seq<T>, c: seq<T>)
    ensures a + (b + c) == (a + b) + c
  {}
}
