/** Optional values and error-carrying results, used for dictionary lookups
    and for the exceptions the monitor raises. */
module Maybe {

  datatype Option<+T> = None | Some(value: T)

  datatype Result<+T, +E> = Ok(value: T) | Err(error: E)
}
