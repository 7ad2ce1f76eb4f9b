/** Failure-carrying values used across the model: the Python code raises an
    exception where these return `Err`. */
module Results {

  datatype Option<+T> = None | Some(value: T)

  datatype Result<+T, +E> = Ok(value: T) | Err(error: E)
}
