/** Vocabulary shared by the CFDP modules: bytes, status codes and compile-time limits. */
module CfdpTypes {

  const U16: nat := 0x1_0000
  const U32: nat := 0x1_0000_0000
  const U64: nat := 0x1_0000_0000_0000_0000

  type byte = x: int | 0 <= x < 0x100
  type u32 = x: int | 0 <= x < 0x1_0000_0000

  datatype Status =
    | OK
    | InvalidArgument
    | BufferTooSmall
    | MalformedPdu
    | Unsupported
    | UnsupportedChecksum
    | InvalidTransmissionMode
    | ChecksumFailure
    | FileSizeError
    | InactivityDetected
    | NakLimitReached
    | CancelRequest
    | FilestoreRejection
    | TransactionBusy

  type Failure = s: Status | s != OK witness InvalidArgument

  datatype Result<+T> = Ok(value: T) | Err(status: Failure)

  datatype Option<+T> = None | Some(value: T)

  datatype ChecksumType = Modular | Crc32c | Ieee8023 | NullChecksum | OtherChecksum(code: nat)
}
