/** The summary of a connection in terms of RFC 793 (libsponge/tcp_helpers/tcp_state.cc). */
module TcpStates {
  import opened Words
  import opened TcpReceivers
  import opened TcpSenders

  datatype SenderSummary = Closed | SynSent | SynAcked | FinSent | FinAcked | SenderError

  datatype ReceiverSummary = Listen | SynRecv | FinRecv | ReceiverError

  function SummarizeSender(s: Sender): SenderSummary
    requires s.Sane()
  {
    if s.stream.error then SenderError
    else if s.next == 0 then Closed
    else if s.next == s.InFlight() then SynSent
    else if !s.stream.Eof() then SynAcked
    else if s.next < |s.stream.history| + 2 then SynAcked
    else if s.InFlight() != 0 then FinSent
    else FinAcked
  }

  function SummarizeReceiver(r: Receiver): ReceiverSummary
  {
    if r.reassembler.output.error then ReceiverError
    else if r.Ackno() == None then Listen
    else if r.reassembler.output.ended then FinRecv
    else SynRecv
  }

  /** The order in which the sender's states are passed; an error ends it all. */
  function SenderRank(x: SenderSummary): nat
  {
    match x
    case Closed => 0
    case SynSent => 1
    case SynAcked => 2
    case FinSent => 3
    case FinAcked => 4
    case SenderError => 5
  }

  function ReceiverRank(x: ReceiverSummary): nat
  {
    match x
    case Listen => 0
    case SynRecv => 1
    case FinRecv => 2
    case ReceiverError => 3
  }
}
