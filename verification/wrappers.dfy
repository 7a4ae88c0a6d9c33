/** Failure-compatible wrappers shared by every module of the model, and the
    kinds of failure the modelled program can raise. */
module Wrappers {

  datatype Option<+T> = None | Some(value: T) {
    predicate IsFailure() {
      None?
    }

    function PropagateFailure<U>(): Option<U>
      requires None?
    {
      None
    }

    function Extract(): T
      requires Some?
    {
      value
    }
  }

  /** The exceptions of the modelled program that change its control flow. */
  datatype Fault =
    | IndexOutOfRange   // an index read past the end of a buffer
    | InvalidValue      // a malformed date, hex string, byte value or handle
    | MissingField      // a required measurement field converted while absent
    | TruncatedRecord   // a buffer shorter than its flags announce (corrected decoder only)
    | Transport         // a failed radio operation: connect, pairing, or a GATT subscribe, write or unsubscribe

  datatype Result<+T> = Success(value: T) | Failure(error: Fault) {
    predicate IsFailure() {
      Failure?
    }

    function PropagateFailure<U>(): Result<U>
      requires Failure?
    {
      Failure(error)
    }

    function Extract(): T
      requires Success?
    {
      value
    }
  }
}
