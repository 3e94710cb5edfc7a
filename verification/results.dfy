/** Optional values and success-or-rejection results. A rejected operation
    carries the reason the dashboard would have shown in an alert or toast. */
module Results {

  datatype Option<+T> = None | Some(value: T)

  datatype Result<+T, +E> = Ok(value: T) | Err(error: E)
}
