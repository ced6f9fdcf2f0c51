/** The `Result` shape that the Rust code returns from every fallible call. */
module Results {

  datatype Result<+T, +E> = Ok(value: T) | Err(error: E)
}
