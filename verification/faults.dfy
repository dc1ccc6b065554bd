/**
 * Error values of the streaming engine.  The C++ operators throw bare
 * strings; here every throw site becomes one constructor of `Fault`, and an
 * operation that can throw returns a `Result`.
 */
module Faults {

  datatype Fault =
    /** `unwrap`, `read_back` or `read_front` asked for more bytes than the message holds. */
    | Underflow(size: nat, wanted: nat)
    /** `wrap` found no room left in the message. */
    | CapacityExceeded(capacity: nat, size: nat, wanted: nat)
    /** The join received a message whose type tag is neither auction nor person. */
    | UnrecognizedMessageType(tag: int)
    /** `getSeller` was asked for a person id the window does not hold. */
    | PersonNotFound(id: int)
    /** `concatenate` was called with no message. */
    | EmptyConcatenation
    /** The join is wired to a number of collectors other than one. */
    | IncorrectCollectorCount(count: nat)
    /** A concatenated message announces a negative number of wrapper units. */
    | NegativeUnitCount(units: int)

  datatype Option<T> = None | Some(value: T)

  datatype Result<T> = Ok(value: T) | Err(fault: Fault) {

    predicate IsFailure() {
      Err?
    }

    function PropagateFailure<U>(): Result<U>
      requires Err?
    {
      Err(fault)
    }

    function Extract(): T
      requires Ok?
    {
      value
    }
  }
}
