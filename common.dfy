/** Small value wrappers shared by the other modules: a nullable value and the
    outcome of an operation that can fail. */
module Common {

  /** `None` stands both for SQL NULL and for a request field that is absent. */
  datatype Option<+T> = None | Some(value: T)

  datatype Result<+R, +E> = Success(value: R) | Failure(error: E)
}
