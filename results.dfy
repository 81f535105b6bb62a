/** Optional values and error-carrying results, the model's stand-ins for Go's nil pointers
    and `(value, error)` returns. Error values are the text `err.Error()` would give. */
module Results {

  datatype Option<+T> = None | Some(value: T)

  datatype Result<+T> = Ok(value: T) | Err(msg: string)
}
