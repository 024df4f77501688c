/** The failures of the emitted codec. Each one is a `std::runtime_error` whose
    message carries the code returned by `Code()`; none is retried. */
module Errors {

  datatype Error =
    | BufferTooShort        // a cursor move past bufferLength
    | GetIndexOutOfRange    // array element read with index >= arrayLength
    | SetIndexOutOfRange    // array element write with index >= arrayLength
    | LengthTooLarge        // array copy or char-array put longer than arrayLength
    | FlyweightTooShort     // a fixed flyweight bound where its block does not fit
    | NextGroupTooShort     // next() where the element's block does not fit
    | StringTooLong         // std::string put longer than the length field allows
    | CountOutOfRange       // group count outside the schema's [min, max]
  {
    function Code(): string
    {
      match this
      case BufferTooShort => "E100"
      case GetIndexOutOfRange => "E104"
      case SetIndexOutOfRange => "E105"
      case LengthTooLarge => "E106"
      case FlyweightTooShort => "E107"
      case NextGroupTooShort => "E108"
      case StringTooLong => "E109"
      case CountOutOfRange => "E110"
    }
  }

  /** The outcome of a codec operation: a value, or the error it throws. */
  datatype Result<+T> = Ok(value: T) | Err(error: Error)
  {
    predicate IsFailure() { Err? }

    function PropagateFailure<U>(): Result<U>
      requires Err?
    {
      Err(error)
    }

    function Extract(): T
      requires Ok?
    {
      value
    }
  }

  /** A value that may be absent. */
  datatype Option<+T> = None | Some(value: T)
}
