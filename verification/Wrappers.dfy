/** Outcomes that may fail, with the reasons the program reports. */
module Wrappers {
  datatype Error =
    | NoFactor | UnexpectedEof | UnexpectedConstructor | ImplausibleVector | NonceMismatch | ServerNonceMismatch
    | ImplausiblePQ | HashMismatch | TooShort | BadBlockLength | BadIV | BadKey | BadGenerator | BadPrimeSize
    | BadGA | NotPrime | NotSafePrime | PayloadTooLong | AboveModulus | UnknownKey | BadLength | Misaligned
    | WrongAuthKey | MsgKeyMismatch | Closed | EndOfFile | TransportFailed | FrameTooLarge | Truncated | RelayClosed
    | TextMessage | EmptyBody | ImplausibleContainer | MalformedEntry | RpcError | GzipFailed | BadRecordType
    | SessionIdMismatch | DigestMismatch | NoServerHello | NoHandoff | EmptyDomain | NotAscii | NoRandomness
    | NoReply | SaltRejected | GzipTooDeep | TimedOut

  datatype Option<+T> = None | Some(value: T)

  datatype Result<+T> = Ok(value: T) | Err(error: Error) {
    predicate IsFailure() { Err? }

    function PropagateFailure<U>(): Result<U>
      requires Err?
    {
      Err(error)
    }

    function Extract(): T
      requires Ok?
    {
      value
    }
  }
}
