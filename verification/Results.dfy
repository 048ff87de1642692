/** Fallible results, as the library's functions return them. */
module Results {

  datatype Error =
    | DimensionMismatch
    | ModulusTooSmall
    | ModulusTooLargeForReducer
    | InvalidModulus
    | InvalidNttModulus
    | MissingRoot
    | InvalidAutomorphismElement
    | CrtOverflow
    | InvalidParameters
    | InvalidSlotCount
    | MissingShare
    | ThresholdNotMet
    | DuplicateParticipant
    | UnknownParticipant
    | StaleShare
    | MalformedMessage
    | InvalidVssShare

  datatype Option<+T> = None | Some(value: T)

  datatype Result<+T> = Ok(value: T) | Err(error: Error) {
    predicate IsFailure() {
      Err?
    }

    function PropagateFailure<U>(): Result<U>
      requires Err?
    {
      Err(error)
    }

    function Extract(): T
      requires Ok?
    {
      value
    }
  }
}
