/** Failure-aware wrappers shared by the model: an optional value (Python's `None`)
    and the outcome of a validator (the value itself, or the reason it was refused). */
module Results {

  datatype Option<+T> = None | Some(value: T)

  datatype Result<+T, +E> = Ok(value: T) | Err(error: E)
}
