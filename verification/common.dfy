/** Shared vocabulary: bytes, optional values, fallible results and I/O errors. */
module Common {

  /** An octet, as carried by sockets, files and header values. */
  newtype byte = x: int | 0 <= x < 256

  datatype Option<+T> = None | Some(value: T)

  datatype Result<+T, +E> = Ok(value: T) | Err(error: E)

  /** The kinds of `std::io::Error` the model distinguishes. */
  datatype ErrorKind =
    | NotFound
    | WouldBlock
    | StorageFull
    | BrokenPipe
    | ConnectionReset
    | InvalidInput
    | OtherKind

  datatype IoError = IoError(kind: ErrorKind)

  function Min(a: nat, b: nat): nat
  {
    if a <= b then a else b
  }
}
