/** The states of a SOCKS session, the interests of a descriptor, and the two ends of a session. */
module States {
  import opened Bytes

  /** `client_state_t`, in its numeric order. */
  datatype ClientState =
    | HELLO_READ | HELLO_WRITE | AUTH_READ | AUTH_WRITE | REQUEST_READ
    | DNS_LOOKUP | DEST_CONNECT | REQUEST_WRITE | FORWARDING | DONE | ERROR

  /** `fd_interest` as its two bits. */
  datatype Interest = Interest(read: bool, write: bool)

  const OP_NOOP := Interest(false, false)
  const OP_READ := Interest(true, false)
  const OP_WRITE := Interest(false, true)
  const OP_READ_WRITE := Interest(true, true)

  /** What a handler does: the state it returns, the interest it gives the descriptor it was called on, if any. */
  datatype Reaction = Reaction(next: ClientState, interest: Option<Interest>)
}
