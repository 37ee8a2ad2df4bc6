/** Small wrapper datatypes shared by every module of the model. */
module Common {

  /** A value that may be absent: the model of an optional field or of a
      `T | null` / `T | undefined` result. */
  datatype Option<+T> = None | Some(value: T)

  /** What a call into an external service did: it returned a value, or it
      threw. The service itself is outside the model; its behaviour is an
      input to the functions that consume it. */
  datatype Outcome<+T> = Returned(value: T) | Threw
}
