/** Optional values and success-or-error results, standing in for
    `std::optional` and for the exceptions the C++ code lets escape. */
module Maybe {
  datatype Option<T> = None | Some(value: T)

  datatype Result<T, E> = Ok(value: T) | Err(error: E)
}
