/** Failure-carrying values shared by every module: a missing value and the
    outcome of a step that Python would abort with an exception. */
module Results {

  datatype Option<+T> = None | Some(value: T)

  datatype Result<+T, +E> = Ok(value: T) | Err(error: E)
}
