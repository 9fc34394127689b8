/**
 * The outcome of an operation that the source either completes or abandons by
 * throwing: the exception becomes an Err value carrying its kind.
 */
module Results {

  /** The .NET exceptions the modelled code throws on purpose. */
  datatype Error =
    | InvalidOperation    // a typed read of an element whose tag it does not accept
    | IndexOutOfRange     // Color32's indexer, a read past the end of a buffer
    | ArgumentNull        // a required delegate that is null (or became empty)
    | Argument            // a duplicate key, an already-used port, a copy range outside its array
    | Overflow            // `new byte[size]` with a negative size
    | AccessViolation     // a read through a pointer into memory that is not mapped

  datatype Result<+T> = Ok(value: T) | Err(error: Error)

  datatype Option<+T> = None | Some(value: T)

  /** A void operation that either finishes or throws. */
  datatype Outcome = Done | Threw(error: Error)
}
