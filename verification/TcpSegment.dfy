/** TCP segments as values (libsponge/tcp_helpers/tcp_header.hh, tcp_segment.cc). */
module TcpSegments {
  import opened Words

  datatype TcpHeader = TcpHeader(
    sport: uint16, dport: uint16, seqno: uint32, ackno: uint32, doff: byte,
    urg: bool, ack: bool, psh: bool, rst: bool, syn: bool, fin: bool,
    win: uint16, cksum: uint16, uptr: uint16)

  /** The header of a default-constructed segment. */
  const DEFAULT_HEADER: TcpHeader :=
    TcpHeader(0, 0, 0, 0, 5, false, false, false, false, false, false, 0, 0, 0)

  datatype TcpSegment = TcpSegment(header: TcpHeader, payload: seq<byte>)
  {
    /** `length_in_sequence_space`: SYN and FIN each count for one. */
    function Length(): nat
    {
      |payload| + Bit(header.syn) + Bit(header.fin)
    }
  }
}
