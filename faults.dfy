/**
 * The exception as the handler sees it: the values that get_class(),
 * getFile(), getLine(), getMessage() and getTrace() return.
 */
module Faults {
  import opened Wrappers

  /**
   * One entry of the array that getTrace() returns. A key that is missing
   * from the entry, or that holds null (isset() is false for both), is None.
   * PHP sets 'type' ("->" or "::") on every entry that has a 'class', so the
   * model keeps it as a plain string.
   */
  datatype Frame = Frame(
    functionName: Option<string>,
    className: Option<string>,
    callType: string,
    file: Option<string>,
    line: Option<int>)

  /** A thrown exception: its class, where it was raised, its message and its trace. */
  datatype Fault = Fault(
    className: string,
    file: string,
    line: int,
    message: string,
    trace: seq<Frame>)
}
