/** Shared vocabulary of the model: bytes, optional values, results and the error kinds
    the stream-encryption package reports. */
module Common {

  /** One octet, as a Go `byte`. */
  newtype byte = b: int | 0 <= b < 0x100

  datatype Option<+T> = None | Some(value: T)

  datatype Result<+T, +E> = Ok(value: T) | Err(error: E)

  /** The errors the package can return, one constructor per distinct cause.
      Message texts and `fmt.Errorf` wrapping are not modelled. */
  datatype Error =
    | EOF                   // io.EOF: the source is exhausted
    | MalformedCiphertext   // a chunk shorter than the nonce
    | AuthenticationFailed  // the AEAD refused to open a chunk
    | WriterClosed          // Write after Close
    | SinkWriteFailed       // the underlying writer rejected a chunk
    | SeekUnsupported       // the source cannot seek
    | SeekEndUnsupported    // the source cannot report its size
    | StatFailed            // the source's Stat call failed
    | NegativePosition      // a seek target below zero
    | SkipOutOfRange        // Read would slice past the decrypted chunk (a Go panic)
    | InvalidKeyLength      // base64 key text decoded to other than 32 bytes
    | CorruptBase64         // key text is not valid base64
    | Mismatch              // a round trip gave back other bytes than went in

  function Min(a: int, b: int): (m: int)
    ensures m <= a && m <= b && (m == a || m == b)
  {
    if a <= b then a else b
  }
}
