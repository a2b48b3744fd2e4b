/** Small value wrappers shared by every module of the model. */
module Common {

  /** Python's `None` or a value. */
  datatype Option<+T> = None | Some(value: T)

  /** The Python exceptions that the modelled code can raise on well-typed input. */
  datatype PyError =
    | KeyError    // a dictionary lookup of a missing key, e.g. `entry["input"]`
    | IndexError  // `outputs[0]` on an empty list

  /** A value, or the exception that interrupted the computation. */
  datatype Result<+T> = Ok(value: T) | Err(error: PyError)

  /** No element occurs twice. */
  predicate NoDuplicates<T(==)>(s: seq<T>) { forall i, j :: 0 <= i < j < |s| ==> s[i] != s[j] }
}
