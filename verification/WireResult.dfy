/** The result type of the codec's readers: a value, or one of the errors the code returns. */
module WireResult {
  import opened Words

  datatype WireError =
    | IntOverflow
    | UnexpectedEOF
    | InvalidLength
    | UnexpectedEndOfGroup
    | EndGroupForNonGroup
    | IllegalTag(fieldNum: Int32, wire: Word)
    | IllegalWireType(wireType: nat)

  datatype Result<+T> = Ok(value: T) | Err(error: WireError) {

    predicate IsFailure() {
      Err?
    }

    function PropagateFailure<U>(): Result<U>
      requires Err?
    {
      Err(error)
    }

    function Extract(): T
      requires Ok?
    {
      value
    }
  }
}
