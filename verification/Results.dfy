/** The exceptions of the toolkit as values: every operation that can throw returns a Result. */
module Results {

  datatype Error =
    | InvalidArgument
    | OutOfRange
    | CommandRejected(opcode: bv8)
    | TransmitTimeout
    | FifoResetTimeout
    | WriteEnableRejected
    | EraseProgramFault
    | DidNotStart
    | ReadyTimeout
    | NotMicron
    | NvcrMismatch
    | ReloadFailed
    | UnsupportedFlash
    | LatchedFault
    | BlockProtected
    | VerificationFailed(at: nat)
    | UnterminatedArgument
    | TruncatedHeader
    | BadMarker
    | BadField
    | BadPayloadLength
    | MissingPayload
    | NoCapabilityList
    | TruncatedConfiguration
    | MalformedCapabilities
    | CapabilityNotFound
    | LengthOverflow
    | InvalidFragment
    | Timeout
    | TransferFailed
    | NotReady
    | UnexpectedVacancy
    | SignalBlocked
    | SystemFailure
  {
    /** Configuration space does not lead to a readable PCI Express capability. */
    predicate FromConfiguration() {
      NoCapabilityList? || TruncatedConfiguration? || MalformedCapabilities? || CapabilityNotFound?
    }
  }

  datatype Result<+T> = Ok(value: T) | Err(error: Error) {
    predicate IsFailure() {
      Err?
    }

    function PropagateFailure<U>(): Result<U>
      requires Err?
    {
      Err(error)
    }

    function Extract(): T
      requires Ok?
    {
      value
    }
  }

  datatype Option<+T> = None | Some(value: T)
}
