/** The outcomes of unpacking a LoxCC container. */
module Results {

  /** Why a container could not be unpacked. */
  datatype DecodeError =
    | InvalidMagic     // the first four bytes are not the LoxCC signature
    | TruncatedInput   // a header field, the payload or a token runs past the available bytes
    | InvalidDistance  // a back-reference of distance 0, or reaching before the start of the output

  /** Either a value or the reason there is none. */
  datatype Result<T> = Ok(value: T) | Err(error: DecodeError)
}
