/** Results of operations that may have no value, or that may end in one of the exceptions of the stack. */
module Wrappers {
  datatype Option<+T> = None | Some(value: T)

  datatype Result<+T> = Ok(value: T) | Err(error: Error)

  datatype Error =
    | InvalidEtherAddress
    | InvalidMacLength
    | InvalidIpv4Length
    | UnsupportedProtocol
    | ArpTargetMismatch
    | ArpMiss
    | InvalidIpHeader
    | LengthError
    | IpNotForUs
    | SourceRequired
    | SourceMismatch
    | UdpChecksumError
    | IcmpChecksumError
    | PcbNotFound
    | InvalidAddressText
}
