/** Failure values shared by the whole model.

    The Go program has two ways of stopping an operation: it returns an
    `error` value, or it panics at run time (an index out of range, a division
    by zero, a negative `make` length, a non-positive ticker interval). Both
    are modelled as a `Fail` result; panics carry `Panic(...)` so that a
    caller can tell them apart from ordinary errors. */
module Faults {

  /** The conventional optional value. */
  datatype Option<+T> = None | Some(value: T) {

    /** The value held, or `default` when there is none. */
    function GetOr(default: T): T {
      match this
      case Some(v) => v
      case None => default
    }
  }

  /** Why the Go program crashes at run time. */
  datatype PanicReason =
    | IndexOutOfRange            // a slice or string index past its length
    | NegativeMakeLength         // `make([]T, n)` with n < 0
    | IntegerDivideByZero        // `x % 0` or `x / 0` on integers
    | NonPositiveTickerInterval  // `time.NewTicker(d)` with d <= 0

  /** Every way an operation of the model can stop early. */
  datatype Fault =
    | RangeMissingBound          // "range parse error, did not find min or max"
    | RangeMinNotInteger         // "range parse error, min not an integer"
    | RangeMaxNotInteger         // "range parse error, max not an integer"
    | RangeInverted              // "invalid range": min > max in a numeric range
    | CountSyntax                // "url parse error, invalid syntax": no count after the URL
    | CountNotInteger            // "error parsing count: ..."
    | RandomArgCount(got: nat)   // a random placeholder without exactly one ';'
    | RandomLengthNotInteger     // "error parsing length: ..."
    | RandomCountZero            // "count was zero or missing"
    | CharRangeInvalid           // "invalid range": a malformed character range
    | BodyNotBase64              // the base64 decoder rejected a body
    | NoRequests                 // "no requests": the round-robin corpus is empty
    | Panic(reason: PanicReason)

  /** A value or the fault that prevented it; usable with `:-`. */
  datatype Result<+T> = Ok(value: T) | Fail(fault: Fault) {

    predicate IsFailure() {
      Fail?
    }

    function PropagateFailure<U>(): Result<U>
      requires Fail?
    {
      Fail(fault)
    }

    function Extract(): T
      requires Ok?
    {
      value
    }
  }
}
