/** Shared vocabulary: Java's nullable references and the exceptions the
    recipe manager throws, as values. */
module Common {

  /** A nullable Java reference: None plays the part of null. */
  datatype Option<+T> = None | Some(value: T)

  /** The exceptions the modelled code throws or lets escape. */
  datatype Error =
    | IllegalArgument(message: string)   // IllegalArgumentException
    | StoreFailure(message: string)      // RuntimeException wrapping an SQLException
    | Unsupported                        // UnsupportedOperationException (List.of lists)
    | NullPointer                        // NullPointerException

  /** A call that either returns a value or throws. */
  datatype Result<+T> = Ok(value: T) | Err(error: Error)
}
