/** A sender and a receiver joined by a network that loses, duplicates and reorders whatever is sent
    (libsponge/tcp_helpers/lossy_fd_adapter.hh drops segments on purpose; a real network does the rest).

    Every segment ever sent stays deliverable, any number of times and in any order; loss is a delivery that
    never happens.  Acknowledgments travel as messages of their own: what `TCPConnection::_send` writes into
    the header of each outgoing segment of the other direction. */
module Transport {
  import opened Words
  import opened WrappingIntegers
  import opened ByteStreams
  import opened StreamReassemblers
  import opened ReassemblerFacts
  import opened TcpSegments
  import opened TcpReceivers
  import opened TcpSenders
  import opened SenderFacts
  import opened SenderRuns
  import opened SenderProgress

  /** A segment on the wire, with the absolute sequence number it was sent at (which the wire does not carry). */
  datatype Packet = Packet(abs: nat, seg: TcpSegment)

  /** An acknowledgment on the wire, with the absolute number it stands for (which the wire does not carry). */
  datatype Notice = Notice(position: nat, ackno: uint32, win: uint16)

  /** Both ends, and as history: everything ever sent, how many acknowledgments reach back from the last one heard, and
      how many bytes of the stream went out before the FIN (so far, if there was none). */
  datatype Net = Net(sender: Sender, receiver: Receiver, packets: seq<Packet>, acks: seq<Notice>, heard: nat, cut: nat)

  datatype Move =
    | AppWrites(data: seq<byte>)
    | AppEnds
    | SenderFills
    | SenderTicks(ms: uint64)
    | SenderProbes                // an empty segment
    | DataArrives(i: nat)         // a copy of the i-th packet ever sent
    | AppReads(len: nat)
    | ReceiverAcks
    | AckArrives(j: nat)          // a copy of the j-th acknowledgment ever sent
    | SenderFails                 // the error flag of the outgoing stream is set
    | ReceiverFails               // the error flag of the incoming stream is set

  function Tagged(segs: seq<TcpSegment>, from: nat): seq<Packet>
  {
    if segs == [] then [] else [Packet(from, segs[0])] + Tagged(segs[1..], from + segs[0].Length())
  }

  predicate Wellformed(n: Net)
  {
    n.sender.Sane() && n.receiver.Ok() && n.sender.segmentsOut == []
  }

  /** The bytes that went out before the FIN, once sender `s` has become `t`. */
  function CutAfter(s: Sender, cut: nat, t: Sender): nat
  {
    if s.finSent then cut else t.stream.read
  }

  /** The sender's queue goes out on the wire; its first segment starts at absolute number `from`. */
  function Transmit(n: Net, s: Sender, from: nat): Net
  {
    n.(sender := s.(segmentsOut := []), packets := n.packets + Tagged(s.segmentsOut, from),
       cut := CutAfter(n.sender, n.cut, s))
  }

  /** Where the oldest outstanding segment starts. */
  function Oldest(s: Sender): nat
  {
    if First(s) >= 0 then First(s) else 0
  }

  function Advance(n: Net, m: Move): (n': Net)
    requires Wellformed(n)
    ensures Wellformed(n')
  {
    var s, r := n.sender, n.receiver;
    match m
    case AppWrites(data) => n.(sender := s.(stream := s.stream.Write(data)))
    case AppEnds => n.(sender := s.(stream := s.stream.End()))
    case SenderFills => FillKeepsSane(s); Transmit(n, s.FillWindow(), s.next)
    case SenderTicks(ms) => Transmit(n, s.Tick(ms), Oldest(s))
    case SenderProbes => Transmit(n, s.SendEmpty(), s.next)
    case DataArrives(i) => if i < |n.packets| then n.(receiver := r.SegmentReceived(n.packets[i].seg)) else n
    case AppReads(len) => n.(receiver := r.Pop(len))
    case ReceiverAcks =>
      if r.isSyn then n.(acks := n.acks + [Notice(r.AckPosition(), r.Ackno().value, Min(r.WindowSize(), 0xFFFF))])
      else n
    case AckArrives(j) =>
      if j < |n.acks| then
        AckKeepsSane(s, n.acks[j].ackno, n.acks[j].win);
        Transmit(n, s.AckReceived(n.acks[j].ackno, n.acks[j].win), s.next).(heard := j + 1)
      else n
    case SenderFails => n.(sender := s.(stream := s.stream.Fail()))
    case ReceiverFails => n.(receiver := r.Fail())
  }

  function AdvanceAll(n: Net, ms: seq<Move>): (n': Net)
    requires Wellformed(n)
    ensures Wellformed(n')
    decreases |ms|
  {
    if ms == [] then n else Advance(AdvanceAll(n, ms[..|ms| - 1]), ms[|ms| - 1])
  }

  /** Both ends as constructed, nothing on the wire. */
  function Start(sendCapacity: nat, retxTimeout: uint16, isn: uint32, recvCapacity: nat): (n: Net)
    requires recvCapacity >= 1
    ensures Wellformed(n)
  {
    Net(Initial(sendCapacity, retxTimeout, isn),
        Receiver(Reassembler(Stream(recvCapacity, [], 0, false, false), map[], false), recvCapacity, false, false, 0),
        [], [], 0, 0)
  }

  // ----- hypotheses -----

  /** No byte is accepted after the FIN was sent. */
  predicate WritesBeforeFin(n: Net, m: Move)
    requires Wellformed(n)
  {
    m.AppWrites? ==> !WritesLate(n.sender, m.data)
  }

  /** Absolute numbers are 2^32 short of overflowing 64 bits. */
  predicate NumbersFit(n: Net)
  {
    n.sender.next <= 0xFFFF_FFFF_0000_0000
  }

  /** The number that the receiver takes the number of a packet for. */
  function ReadAs(p: Packet, r: Receiver): nat
  {
    Nearest((p.abs + Bit(p.seg.header.syn)) % 0x1_0000_0000, |r.Output()|)
  }

  /** The stream index at which it places the payload; the subtraction is in 64 bits. */
  function PlaceOf(p: Packet, r: Receiver): uint64
  {
    (ReadAs(p, r) - 1) % 0x1_0000_0000_0000_0000
  }

  predicate ReadRight(p: Packet, r: Receiver)
  {
    ReadAs(p, r) == p.abs + Bit(p.seg.header.syn)
  }

  /** At that place there is nothing to store: the payload is empty, beyond the window, or behind the output. */
  predicate MissesWindow(p: Packet, r: Receiver)
  {
    p.seg.payload == [] || PlaceOf(p, r) >= r.reassembler.Limit() || PlaceOf(p, r) + |p.seg.payload| <= |r.Output()|
  }

  /** The packet is not looked at, or its number is read right, or it does not matter how it is read. */
  predicate Harmless(p: Packet, r: Receiver)
  {
    (!r.isSyn && !p.seg.header.syn) || ReadRight(p, r) || MissesWindow(p, r)
  }

  /** A delivered segment is harmless, and absolute numbers fit in 64 bits. */
  predicate DataNotStale(n: Net, m: Move)
  {
    && n.sender.next < 0x1_0000_0000_0000_0000
    && (m.DataArrives? && m.i < |n.packets| ==> Harmless(n.packets[m.i], n.receiver))
  }

  /** A delivered acknowledgment is harmless. */
  predicate AckNotStale(n: Net, m: Move)
  {
    m.AckArrives? && m.j < |n.acks| ==> AckHarmless(n.acks[m.j].position, n.sender.acked, n.sender.next)
  }

  /** An acknowledgment is read right if it is less than 2^31 numbers behind.  Otherwise it is read as the last number
      with its low 32 bits, or as the next one if that is at least half-way.  That one is beyond everything sent, and
      ignored; the other is harmless if it acknowledges nothing new. */
  predicate AckHarmless(position: nat, acked: nat, next: nat)
  {
    var past := (next - position) % 0x1_0000_0000;
    next < position + 0x8000_0000 || past >= 0x8000_0000 || next - past <= acked
  }

  /** A delivered FIN can be trusted: it is read right, and brings the last byte along, or finds it already there,
      inside the window; or there was one before. */
  predicate FinInOrder(n: Net, m: Move)
  {
    m.DataArrives? && m.i < |n.packets| ==>
      var p, r := n.packets[m.i], n.receiver;
      (r.isSyn || p.seg.header.syn) && p.seg.header.fin && p.abs + Bit(p.seg.header.syn) >= 1 ==>
        if ReadRight(p, r) then EndAnnouncementOk(r.reassembler, p.seg.payload, p.abs + Bit(p.seg.header.syn) - 1)
        else r.isFin
  }

  /** Acknowledgments are not reordered: each one delivered is the last one delivered or a later one. */
  predicate AcksInOrder(n: Net, m: Move)
  {
    m.AckArrives? ==> n.heard <= m.j + 1
  }

  // ----- what a packet carries -----

  /** The bytes the sender has taken from its stream and sent at least once, up to the FIN. */
  function SentBytes(s: Sender, cut: nat): seq<byte>
  {
    if cut <= |s.stream.history| then s.stream.history[..cut] else s.stream.history
  }

  /** The packet is a piece of the stream `sent`, at the place its sequence number says, and carries a FIN only at
      the end of a finished stream. */
  ghost predicate Faithful(p: Packet, isn: uint32, sent: seq<byte>, finished: bool)
  {
    var h := p.seg.header;
    var v := p.abs + Bit(h.syn);
    && h.seqno == Wrap(p.abs, isn)
    && (h.syn ==> p.abs == 0)
    && (v == 0 ==> p.seg.payload == [] && !h.fin)
    && (p.seg.payload != [] ==>
          v - 1 + |p.seg.payload| <= |sent| && p.seg.payload == sent[v - 1..v - 1 + |p.seg.payload|])
    && (h.fin ==> finished && v - 1 + |p.seg.payload| == |sent|)
  }

  /** A packet sent behind the FIN: there is a gap at the number of the FIN, which no byte ever fills. */
  predicate Beyond(p: Packet, isn: uint32, sent: seq<byte>)
  {
    p.seg.header.seqno == Wrap(p.abs, isn) && !p.seg.header.syn && !p.seg.header.fin && p.abs >= |sent| + 2
  }

  /** Every packet ever sent is a piece of the stream, or lies beyond its FIN. */
  ghost predicate Genuine(p: Packet, isn: uint32, sent: seq<byte>, finished: bool)
  {
    Faithful(p, isn, sent, finished) || (finished && Beyond(p, isn, sent))
  }

  /** The same for a row of segments that follow one another. */
  ghost predicate Carried(segs: seq<TcpSegment>, from: nat, isn: uint32, sent: seq<byte>, finished: bool)
  {
    segs == [] ||
    (&& Genuine(Packet(from, segs[0]), isn, sent, finished)
     && Carried(segs[1..], from + segs[0].Length(), isn, sent, finished))
  }
}
