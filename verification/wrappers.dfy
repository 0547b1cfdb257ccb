/** Option and Result, the two failure-compatible wrappers the parser threads its
    outcomes through.  `Err` stands for a Python exception raised inside the
    parsing pipeline; the orchestration turns every one of them into an empty
    question list. */
module Wrappers {

  datatype Option<+T> = None | Some(value: T)

  /** The exceptions the parsing pipeline can raise. */
  datatype Fault =
    | StripOfNone(key: string)      // `.strip()` called on the None a short row carries
    | FieldLimitExceeded            // csv.Error: field larger than field limit
    | NewlineInUnquotedField        // csv.Error: new-line character seen in unquoted field
    | NoFieldnames                  // TypeError: iterating `reader.fieldnames` when it is None

  datatype Result<+T> = Ok(value: T) | Err(fault: Fault) {

    predicate IsFailure() {
      Err?
    }

    function PropagateFailure<U>(): Result<U>
      requires Err?
    {
      Err(fault)
    }

    function Extract(): T
      requires Ok?
    {
      value
    }
  }
}
