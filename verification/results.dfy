/** Values shared by every module of the model: Java's nullable references
    and the unchecked exceptions that the container lets escape. */
module Results {

  /** A Java reference that may be null: `None` stands for null. */
  datatype Option<+T> = None | Some(value: T)

  /** The exceptions a container operation can end with. */
  datatype Fault =
    | IndexNotEstablished   // UnsupportedOperationException: a lookup names an index that was never added
    | NoAccessor            // UnsupportedOperationException: no getter can be resolved for an index identifier
    | NullPointer           // NullPointerException
    | IllegalArgument       // IllegalArgumentException, thrown by TreeMap.subMap

  /** The outcome of an operation that may throw one of the faults above. */
  datatype Result<+T> = Success(value: T) | Failure(fault: Fault) {

    predicate IsFailure() {
      Failure?
    }

    function PropagateFailure<U>(): Result<U>
      requires Failure?
    {
      Failure(fault)
    }

    function Extract(): T
      requires Success?
    {
      value
    }
  }
}
