/** Success/failure values standing in for Python's return-or-raise. */
module Outcomes {

  /** A value that may be absent, as Python's `None`. */
  datatype Option<+T> = None | Some(value: T)

  /** A value returned normally, or the exception raised instead. */
  datatype Result<+T, +E> = Ok(value: T) | Err(error: E)

  /** The exceptions the modelled code raises or lets through.
      `InferenceError` stands for any exception raised by image decoding,
      the CLIP encoder, the classification head or softmax, none of which
      is modelled. */
  datatype Failure =
    | IndexError
    | RuntimeError(message: string)
    | ValueError(message: string)
    | InferenceError
}
