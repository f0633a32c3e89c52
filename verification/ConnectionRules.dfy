/** The rules by which a connection decides, in terms of the fields of its two halves: when it is over, which segments
    it skips, and when it gives up lingering. */
module ConnectionRules {
  import opened Words
  import opened WrappingIntegers
  import opened TcpSegments
  import opened TcpReceivers
  import opened TcpSenders
  import opened SenderFacts
  import opened SenderProgress
  import opened TcpConnections
  import opened ConnectionRuns

  /** Both streams have ended, ours was sent and acknowledged to the last number and the peer's was read to the last
      byte. */
  predicate Finished(c: Connection)
  {
    var ours, theirs := c.sender.stream, c.receiver.reassembler.output;
    && c.fin && ours.ended && ours.read == |ours.history| && c.sender.acked == c.sender.next
    && theirs.ended && theirs.read == |theirs.history|
  }

  /** A connection is active until it fails, or is finished and no longer lingers. */
  lemma ActiveIff(c: Connection)
    requires c.Ok()
    ensures c.Active() <==> !c.error && (c.linger || !Finished(c))
  {
  }

  /** An empty segment one number behind the acknowledgment, on a connection that has seen a SYN: a keep-alive. */
  predicate IsProbe(c: Connection, seg: TcpSegment)
  {
    && seg.payload == [] && !seg.header.syn && !seg.header.fin && c.receiver.isSyn
    && seg.header.seqno == Wrap(c.receiver.AckPosition() + 0xFFFF_FFFF, c.receiver.isn)
  }

  lemma OneBefore(position: nat, isn: uint32)
    ensures Before(Wrap(position, isn)) == Wrap(position + 0xFFFF_FFFF, isn)
    ensures Wrap(position, isn) != Wrap(position + 0xFFFF_FFFF, isn)
  {
    var q, w := (isn + position) / 0x1_0000_0000, Wrap(position, isn);
    if w == 0 {
      DivModUnique(isn + position + 0xFFFF_FFFF, 0x1_0000_0000, q, 0xFFFF_FFFF);
    } else {
      DivModUnique(isn + position + 0xFFFF_FFFF, 0x1_0000_0000, q + 1, w - 1);
    }
  }

  lemma KeepAliveIff(c: Connection, seg: TcpSegment)
    ensures c.IsKeepAlive(seg) <==> IsProbe(c, seg)
  {
    hide Wrap, Before, Receiver.AckPosition;
    OneBefore(c.receiver.AckPosition(), c.receiver.isn);
  }

  lemma SkipLeaves(c: Connection)
    requires c.Ok() && c.sender.segmentsOut == []
    ensures var c' := c.(sender := c.sender.SendEmpty()).Send();
            c'.receiver == c.receiver && c'.sender == c.sender && |c'.segmentsOut| == |c.segmentsOut| + 1
  {
    hide Connection.Stamp;
  }

  /** What the sender makes of a header, and what leaves of it when its queue is sent. */
  function SenderAfter(s: Sender, h: TcpHeader): Sender
    requires s.Sane()
  {
    (if h.ack then s.AckReceived(h.ackno, h.win) else s.FillWindow()).(segmentsOut := [])
  }

  lemma AcceptTells(c: Connection, seg: TcpSegment)
    requires c.Ok()
    ensures var c' := c.Accept(seg).Send();
            c'.receiver == c.receiver.SegmentReceived(seg) && c'.sender == SenderAfter(c.sender, seg.header)
  {
    hide Sender.AckReceived, Sender.FillWindow, Receiver.SegmentReceived, Connection.StampAll;
  }

  /** An active connection skips a segment that is no reset, leaving both halves as they are and answering with exactly
      one segment, if and only if it is a keep-alive; every other one goes to the receiver, and its acknowledgment (or,
      without one, a chance to send) to the sender. */
  lemma SegmentIsSkippedIff(c: Connection, seg: TcpSegment)
    requires c.Ok() && c.sender.segmentsOut == [] && c.Active() && !seg.header.rst
    ensures var c' := c.SegmentReceived(seg);
            if IsProbe(c, seg)
            then c'.receiver == c.receiver && c'.sender == c.sender && |c'.segmentsOut| == |c.segmentsOut| + 1
            else c'.receiver == c.receiver.SegmentReceived(seg) && c'.sender == SenderAfter(c.sender, seg.header)
  {
    hide Receiver.SegmentReceived, Connection.IsKeepAlive, Connection.Active, Connection.SegmentReceived,
         Connection.Send, Connection.Accept, IsProbe, SenderAfter;
    KeepAliveIff(c, seg);
    SegmentCases(c, seg);
    SkipLeaves(c.(sinceLast := 0));
    AcceptTells(c.(sinceLast := 0), seg);
  }

  /** In particular a bare acknowledgment at exactly the number the receiver asks for is heard: if it acknowledges a
      number that was sent and is within reach, that number is acknowledged afterwards. */
  lemma BareAckIsHeard(c: Connection, seg: TcpSegment, a: nat)
    requires c.Ok() && c.sender.segmentsOut == [] && c.Active() && c.receiver.isSyn
    requires seg.payload == [] && !seg.header.syn && !seg.header.fin && !seg.header.rst && seg.header.ack
    requires seg.header.seqno == Wrap(c.receiver.AckPosition(), c.receiver.isn)
    requires seg.header.ackno == Wrap(a, c.sender.isn) && c.sender.acked < a <= c.sender.next
    requires c.sender.next <= 0xFFFF_FFFF_0000_0000 && c.sender.next - a < 0x8000_0000
    ensures c.SegmentReceived(seg).sender.acked == a
  {
    hide Sender.AckReceived, Sender.FillWindow, Receiver.SegmentReceived, Connection.IsKeepAlive, Connection.Active,
         Connection.SegmentReceived, Wrap, Unwrap, Receiver.AckPosition;
    OneBefore(c.receiver.AckPosition(), c.receiver.isn);
    SegmentIsSkippedIff(c, seg);
    UnwrapWrap(a, c.sender.isn, c.sender.next);
    AckedAfter(c.sender, seg.header.ackno, seg.header.win);
  }

  lemma AckedAfter(s: Sender, ackno: uint32, win: uint16)
    requires s.Sane() && Unwrap(ackno, s.isn, s.next) <= s.next
    ensures s.AckReceived(ackno, win).acked == Max(s.acked, Unwrap(ackno, s.isn, s.next))
  {
    hide Unwrap, Sender.PopAcked, Estimate, Sender.FillWindow;
    var s1 := s.Acknowledge(Unwrap(ackno, s.isn, s.next), win);
    PopFrame(s1);
    if s.timerOn {
      FillFrame(s1.PopAcked());
    }
  }

  /** The peer's stream has ended and was read, and our own FIN had not been sent before this segment, or not all of our
      stream is out. */
  predicate PeerEndedFirst(before: Connection, after: Connection)
  {
    var ours, theirs := after.sender.stream, after.receiver.reassembler.output;
    && theirs.ended && theirs.read == |theirs.history|
    && !(before.fin && ours.ended && ours.read == |ours.history|)
  }

  /** A tick brings the time since a segment was last received to ten times the timeout. */
  predicate WaitedOut(c: Connection, ms: uint64)
  {
    (c.sinceLast + ms) % 0x1_0000_0000_0000_0000 >= 10 * c.rtTimeout
  }

  /** Lingering is given up, for good, exactly in two ways: a segment that is neither a reset nor a keep-alive finds the
      peer's stream finished before ours, or a tick finds both finished and the waiting time over. */
  lemma LingerIs(c: Connection, k: Call)
    requires c.Ok()
    ensures var c' := Apply(c, k);
            match k
            case Segment(seg) =>
              c'.linger == (c.linger && (seg.header.rst || !c.Active() || IsProbe(c, seg) || !PeerEndedFirst(c, c')))
            case Tick(ms) => c'.linger == (c.linger && !(c.Active() && Finished(c) && WaitedOut(c, ms)))
            case _ => c'.linger == c.linger
  {
    hide Sender.AckReceived, Sender.FillWindow, Receiver.SegmentReceived, Connection.IsKeepAlive, Connection.Active,
         Connection.SegmentReceived, Connection.StampAll, Connection.Tick, IsProbe;
    match k
    case Segment(seg) => KeepAliveIff(c, seg); SegmentCases(c, seg);
    case Tick(ms) => TickLinger(c, ms);
    case _ =>
  }

  lemma TickLinger(c: Connection, ms: uint64)
    requires c.Ok()
    ensures c.Tick(ms).linger ==
            (c.linger && !(c.Active() && Finished(c) && WaitedOut(c, ms)))
  {
    hide Connection.StampAll, Connection.Active, Sender.Tick, WaitedOut;
    TickFrame(c.sender, ms);
    assert c.Age(ms).AbortIfTooMany().sinceLast >= 10 * c.rtTimeout <==> WaitedOut(c, ms) by { WaitedOutIs(c, ms); }
  }

  lemma WaitedOutIs(c: Connection, ms: uint64)
    requires c.Ok()
    ensures c.Age(ms).AbortIfTooMany().sinceLast >= 10 * c.rtTimeout <==> WaitedOut(c, ms)
  {
    hide Sender.Tick;
  }
}
