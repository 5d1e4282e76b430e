/** The errors the store reports back to its callers. */
module RepoErrors {
  /**
   * `NotFound`: no row has the key. `ConstraintViolation`: a guarded update or
   * insert was refused; the message is the one the store reports.
   */
  datatype RepositoryError =
    | NotFound
    | ConstraintViolation(message: string)
}
