/** Failure-carrying wrappers shared by the whole model. */
module Common {

  /** A Go pointer or optional field: None stands for nil. */
  datatype Option<+T> = None | Some(value: T)

  /** A value or the error that replaced it, for Go's (value, error) returns. */
  datatype Result<+T, +E> = Success(value: T) | Failure(error: E)

  /**
   * A Go `error` value. Only its text is kept; the wrapping done with
   * fmt.Errorf is abstracted away.
   */
  datatype Error = Error(message: string)

  /** No element occurs twice. */
  predicate Distinct<T(==)>(s: seq<T>) {
    forall i, j :: 0 <= i < j < |s| ==> s[i] != s[j]
  }
}
