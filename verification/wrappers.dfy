/** Failure-carrying datatypes shared by the storage adapter and the image collection. */
module Wrappers {

  /** A value that may be missing (an absent field, a lookup that found nothing). */
  datatype Option<+T> = None | Some(value: T)

  /** The outcome of an asynchronous call: it resolves with a value, or its promise
      rejects (the exception a caller sees when it awaits the call). */
  datatype Result<+T> = Ok(value: T) | Threw
}
