/** Failure-compatible optional values, so that the decoders can thread a
    cursor with `:-` and stop at the first read that runs off the buffer. */
module Wrappers {

  datatype Option<+T> = None | Some(value: T) {

    /** True if is None */
    predicate IsFailure() {
      None?
    }

    /** Converts a None to an Option of another value type. */
    function PropagateFailure<U>(): Option<U>
      requires None?
    {
      None
    }

    /** Returns the value encapsulated in Some */
    function Extract(): T
      requires Some?
    {
      value
    }
  }
}
