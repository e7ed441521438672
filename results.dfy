/** Failure-aware wrappers shared by the other modules.
    Option stands for a Java reference that may be null;
    Result for a step that either yields a value or ends the process with an error. */
module Results {

  datatype Option<T> = None | Some(value: T)

  datatype Result<T, E> = Ok(value: T) | Err(error: E)
}
