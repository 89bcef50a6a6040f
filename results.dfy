/**
 * The failures a comparison can raise. Every one of them is an
 * IllegalArgumentException in the Java code; the constructor says which
 * check raised it.
 */
module Results {

  datatype Error =
    /** Working and base are both present but of different runtime types. */
    | TypeMismatch
    /** A required argument (a collaborator, or the working object) was null. */
    | NullArgument(name: string)

  datatype Result<+T> = Ok(value: T) | Err(error: Error) {

    predicate IsFailure() { Err? }

    function PropagateFailure<U>(): Result<U>
      requires Err?
    {
      Err(error)
    }

    function Extract(): T
      requires Ok?
    {
      value
    }
  }
}
