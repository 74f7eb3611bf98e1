/** The decoder's error type and the `Result` it returns. */
module ParserErrors {

  /** The three error kinds the decoder declares. No operation of the decoder
      ever produces one: every decoding step either succeeds or has a
      precondition that rules its failure out. In the source `Read` carries
      an `array::TryFromSliceError`; here every variant carries a message. */
  datatype ParserError =
    | Empty(message: string)
    | Retrieval(message: string)
    | Read(message: string)

  datatype Result<T> = Ok(value: T) | Err(error: ParserError)
}
