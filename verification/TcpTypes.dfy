/** The states of a TCP connection (section 3.2 of RFC 793). */
module TcpTypes {
  datatype TcpState =
    | Closed | Listen | SynSent | SynRcvd | Established | FinWait1 | FinWait2
    | CloseWait | Closing | LastAck | TimeWait
}
