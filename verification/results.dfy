/** Success/failure values, standing in for Rust's `Result<T, E>`. */
module Results {

  datatype Result<+T, +E> = Ok(value: T) | Err(error: E)

}
