/** Acknowledgments and the end of the stream: nothing is forgotten, and the stream ends where it should. */
module TransportAcks {
  import opened Words
  import opened WrappingIntegers
  import opened ByteStreams
  import opened StreamReassemblers
  import opened ReassemblerFacts
  import opened TcpSegments
  import opened TcpReceivers
  import opened TcpSenders
  import opened TcpStates
  import opened SenderFacts
  import opened SenderRuns
  import opened SenderProgress
  import opened Transport
  import opened TransportSafety

  /** The receiver and its reassembler agree on the end of the stream, and are right about it. */
  ghost predicate EndsRight(r: Receiver, sent: seq<byte>)
  {
    r.isFin == r.reassembler.eof && EndExact(r.reassembler, sent)
  }

  /** The invariant: an acknowledgment, sent or already taken, never runs ahead of what the receiver has. */
  ghost predicate Honest(n: Net)
    requires Wellformed(n)
  {
    var s, r := n.sender, n.receiver;
    && Safe(n) && Inv(s) && Numbered(s) && n.cut == s.stream.read
    && Agrees(r.reassembler, SentBytes(s, n.cut)) && EndsRight(r, SentBytes(s, n.cut))
    && s.acked <= r.AckPosition()
    && (forall a <- n.acks :: a.ackno == Wrap(a.position, s.isn) && a.position <= r.AckPosition())
  }

  /** As long as nothing was sent beyond the FIN, every packet is a piece of the stream. */
  lemma PacketIsFaithful(n: Net, i: nat)
    requires Wellformed(n) && Honest(n) && i < |n.packets|
    ensures Faithful(n.packets[i], n.sender.isn, SentBytes(n.sender, n.cut), n.sender.finSent)
  {
    hide Inv, EndsRight, Queue, Carried, Receiver.AckPosition, Wrap;
    assert n.packets[i] in n.packets;
  }

  // ----- the receiver -----

  lemma AckPositionIs(r: Receiver, sent: seq<byte>)
    requires r.Ok() && Agrees(r.reassembler, sent) && EndsRight(r, sent)
    ensures r.isFin && r.reassembler.pending == map[] <==> r.isFin && |r.Output()| == |sent|
    ensures r.reassembler.output.ended <==> r.isFin && |r.Output()| == |sent|
    ensures r.AckPosition() == Bit(r.isSyn) + |r.Output()| + Bit(r.isFin && |r.Output()| == |sent|)
  {
    NothingPendingAtEnd(r.reassembler, sent);
  }

  /** A packet that arrives keeps the invariant of the end exactly if its FIN, if any, can be trusted. */
  lemma ArrivalKeepsEnd(r: Receiver, p: Packet, isn: uint32, sent: seq<byte>, finished: bool)
    requires r.Ok() && Faithful(p, isn, sent, finished) && (r.isSyn ==> r.isn == isn)
    requires |r.Output()| <= |sent| < 0xFFFF_FFFF_0000_0000 && ReadRight(p, r)
    requires Agrees(r.reassembler, sent) && EndsRight(r, sent) && (r.isSyn || p.seg.header.syn)
    ensures EndsRight(r.SegmentReceived(p.seg), sent) <==>
            (p.seg.header.fin ==> EndAnnouncementOk(r.reassembler, p.seg.payload, IndexOf(p)))
  {
    hide Receiver.SegmentReceived, Reassembler.Push, Agrees, Faithful, ReadRight, Excerpt, EndExact,
         EndAnnouncementOk;
    ReceivedAtItsPlace(r, p, isn, sent, finished);
    ExcerptOf(p, isn, sent, finished);
    PushEndsExactly(r.reassembler, p.seg.payload, IndexOf(p), p.seg.header.fin, sent);
    EndFlags(r.reassembler, p.seg.payload, IndexOf(p), p.seg.header.fin);
  }

  /** The receiver's flags agree, and whatever piece of the stream arrives next, its stream has ended exactly when all
      of it is out. */
  ghost predicate EndsNextExactly(r: Receiver, isn: uint32, sent: seq<byte>, finished: bool)
    requires r.Ok()
  {
    && r.isFin == r.reassembler.eof
    && forall q: Packet | Faithful(q, isn, sent, finished) && Arrives(q, r) ::
         r.SegmentReceived(q.seg).reassembler.output.ended <==> |r.SegmentReceived(q.seg).Output()| == |sent|
  }

  /** A packet without a FIN whose number is read right. */
  predicate Arrives(q: Packet, r: Receiver)
  {
    !q.seg.header.fin && ReadRight(q, r)
  }

  /** A FIN that arrives leaves the receiver in such a state if and only if it can be trusted. */
  lemma FinIsExact(r: Receiver, p: Packet, isn: uint32, sent: seq<byte>, finished: bool)
    requires r.Ok() && Faithful(p, isn, sent, finished) && (r.isSyn ==> r.isn == isn) && p.seg.header.fin
    requires |r.Output()| <= |sent| < 0xFFFF_FFFF_0000_0000 && ReadRight(p, r)
    requires Agrees(r.reassembler, sent) && EndsRight(r, sent) && (r.isSyn || p.seg.header.syn)
    ensures EndsNextExactly(r.SegmentReceived(p.seg), isn, sent, finished) <==>
            EndAnnouncementOk(r.reassembler, p.seg.payload, IndexOf(p))
  {
    hide Receiver.SegmentReceived, Reassembler.Push, Agrees, Faithful, ReadRight, Excerpt, EndExact,
         EndAnnouncementOk;
    var r' := r.SegmentReceived(p.seg);
    ReceivedAtItsPlace(r, p, isn, sent, finished);
    ReceivedAgrees(r, p, isn, sent, finished);
    ExcerptOf(p, isn, sent, finished);
    ArrivalKeepsEnd(r, p, isn, sent, finished);
    if EndAnnouncementOk(r.reassembler, p.seg.payload, IndexOf(p)) {
      forall q: Packet | Faithful(q, isn, sent, finished) && Arrives(q, r')
        ensures r'.SegmentReceived(q.seg).reassembler.output.ended <==> |r'.SegmentReceived(q.seg).Output()| == |sent|
      {
        AgreesFits(r'.reassembler, sent);
        ArrivalKeepsEnd(r', q, isn, sent, finished);
        ReceivedAtItsPlace(r', q, isn, sent, finished);
        ReceivedAgrees(r', q, isn, sent, finished);
        AckPositionIs(r'.SegmentReceived(q.seg), sent);
      }
    } else if r'.isFin == r'.reassembler.eof {
      DistrustLeavesGap(r.reassembler, p.seg.payload, IndexOf(p), sent);
      var q := FinMisleads(r', isn, sent, finished);
    }
  }

  lemma AgreesFits(r: Reassembler, sent: seq<byte>)
    requires Agrees(r, sent)
    ensures |r.output.history| <= |sent|
  {
  }

  lemma FinMisleads(r: Receiver, isn: uint32, sent: seq<byte>, finished: bool) returns (q: Packet)
    requires r.Ok() && r.isSyn && r.isn == isn && sent != [] && |sent| < 0xFFFF_FFFF_0000_0000
    requires Agrees(r.reassembler, sent) && r.reassembler.eof && At(r.reassembler, |sent| - 1) == None
    ensures Faithful(q, isn, sent, finished) && Arrives(q, r)
    ensures r.SegmentReceived(q.seg).reassembler.output.ended && |r.SegmentReceived(q.seg).Output()| < |sent|
  {
    hide Receiver.SegmentReceived, Reassembler.Push, Agrees, At, Wrap, Nearest;
    var piece := EndsTooSoon(r.reassembler, sent);
    q := Packet(|r.Output()| + 1, Segment(|r.Output()| + 1, isn, false, false, piece));
    ReadRightIff(r, q);
    ReceivedAtItsPlace(r, q, isn, sent, finished);
  }

  lemma ArrivalKeepsAck(r: Receiver, p: Packet, isn: uint32, sent: seq<byte>, finished: bool)
    requires r.Ok() && Faithful(p, isn, sent, finished) && (r.isSyn ==> r.isn == isn)
    requires |r.Output()| <= |sent| < 0xFFFF_FFFF_0000_0000 && ReadRight(p, r)
    requires Agrees(r.reassembler, sent) && EndsRight(r, sent) && EndsRight(r.SegmentReceived(p.seg), sent)
    ensures r.AckPosition() <= r.SegmentReceived(p.seg).AckPosition()
    ensures |r.Output()| <= |r.SegmentReceived(p.seg).Output()| <= |sent|
  {
    hide Receiver.SegmentReceived, Reassembler.Push, Faithful, ReadRight, EndExact, Receiver.AckPosition;
    var r' := r.SegmentReceived(p.seg);
    ReceivedAtItsPlace(r, p, isn, sent, finished);
    ReceivedAgrees(r, p, isn, sent, finished);
    AckPositionIs(r, sent);
    AckPositionIs(r', sent);
  }

  /** A packet that is read wrong, but misses the window, and brings no new FIN, changes nothing. */
  lemma MissedKeepsEnd(r: Receiver, p: Packet, isn: uint32, sent: seq<byte>, finished: bool)
    requires r.Ok() && r.isSyn && r.isn == isn && Genuine(p, isn, sent, finished) && MissesWindow(p, r)
    requires |r.Output()| < 0x1_0000_0000_0000_0000 && (p.seg.header.fin ==> r.isFin)
    requires Agrees(r.reassembler, sent) && EndsRight(r, sent)
    ensures var r' := r.SegmentReceived(p.seg);
            && r'.isSyn && Agrees(r'.reassembler, sent) && EndsRight(r', sent)
            && r'.AckPosition() == r.AckPosition() && r'.WindowSize() == r.WindowSize()
  {
    hide Receiver.SegmentReceived, Reassembler.Push, Genuine, PlaceOf, EndExact;
    ReceivedAsRead(r, p, isn, sent, finished);
    PushMisses(r.reassembler, p.seg.payload, PlaceOf(p, r), p.seg.header.fin);
    PushEndsExactly(r.reassembler, [], 0, false, sent);
    EndFlags(r.reassembler, [], 0, false);
  }

  // ----- one move -----

  /** Neither the acknowledgment nor its right edge, clamped to 16 bits as it is advertised, has moved back. */
  predicate EdgesAhead(r: Receiver, r': Receiver)
    requires r.Ok() && r'.Ok()
  {
    && r.AckPosition() <= r'.AckPosition() && (r.isSyn ==> r'.isSyn)
    && r.AckPosition() + Min(r.WindowSize(), 0xFFFF) <= r'.AckPosition() + Min(r'.WindowSize(), 0xFFFF)
  }

  lemma EndGrows(r: Receiver, sent: seq<byte>, finished: bool, sent': seq<byte>, finished': bool)
    requires EndsRight(r, sent) && Grows(sent, finished, sent', finished') && (r.isFin ==> finished)
    ensures EndsRight(r, sent')
  {
  }

  /** The receiver never acknowledges more than was sent. */
  lemma AckWithinSent(n: Net)
    requires Wellformed(n) && Honest(n)
    ensures n.receiver.AckPosition() <= n.sender.next
  {
    hide Genuine, Carried, Queue, EndExact, Agrees, Receiver.AckPosition;
    AckPositionIs(n.receiver, SentBytes(n.sender, n.cut));
    SentFits(n);
  }

  lemma DataIsHonest(n: Net, i: nat)
    requires Wellformed(n) && Honest(n) && NumbersFit(n) && i < |n.packets|
    requires DataNotStale(n, DataArrives(i)) && FinInOrder(n, DataArrives(i))
    ensures Honest(Advance(n, DataArrives(i))) && EdgesAhead(n.receiver, Advance(n, DataArrives(i)).receiver)
  {
    hide Safe, Faithful, Agrees, Inv, Numbered, Receiver.SegmentReceived, ReadRight, MissesWindow, EndsRight,
         EndAnnouncementOk, Receiver.AckPosition, Receiver.WindowSize, SentBytes;
    var s, r, p := n.sender, n.receiver, n.packets[i];
    var sent := SentBytes(s, n.cut);
    MoveIsSafe(n, DataArrives(i));
    SentFits(n);
    SafeParts(n);
    PacketIsFaithful(n, i);
    FinHasIndex(p, s.isn, sent, s.finSent);
    if !r.isSyn && !p.seg.header.syn {
      ReceivedAsRead(r, p, s.isn, sent, s.finSent);
    } else if ReadRight(p, r) {
      assert |sent| < 0xFFFF_FFFF_0000_0000 by { SentShort(n); }
      ReceivedAgrees(r, p, s.isn, sent, s.finSent);
      ArrivalKeepsEnd(r, p, s.isn, sent, s.finSent);
      ArrivalKeepsAck(r, p, s.isn, sent, s.finSent);
      ArrivalKeepsEdges(r, p, s.isn, sent, s.finSent);
    } else {
      SynIsReadRight(n, i);
      MissedKeepsEnd(r, p, s.isn, sent, s.finSent);
    }
  }

  /** Before the SYN there is no output, so the number of a SYN is read right. */
  lemma SynIsReadRight(n: Net, i: nat)
    requires Wellformed(n) && Safe(n) && i < |n.packets|
    ensures n.packets[i].seg.header.syn && !n.receiver.isSyn ==> ReadRight(n.packets[i], n.receiver)
  {
    hide Genuine, SafeSender, Knows;
    assert n.packets[i] in n.packets;
    SynAtZero(n.packets[i], n.sender.isn, SentBytes(n.sender, n.cut), n.sender.finSent);
  }

  lemma SentShort(n: Net)
    requires Wellformed(n) && Safe(n) && NumbersFit(n)
    ensures |SentBytes(n.sender, n.cut)| < 0xFFFF_FFFF_0000_0000
  {
  }

  lemma ArrivalKeepsEdges(r: Receiver, p: Packet, isn: uint32, sent: seq<byte>, finished: bool)
    requires r.Ok() && Faithful(p, isn, sent, finished) && (r.isSyn ==> r.isn == isn)
    requires |r.Output()| <= |sent| < 0xFFFF_FFFF_0000_0000 && ReadRight(p, r)
    requires Agrees(r.reassembler, sent) && EndsRight(r, sent) && EndsRight(r.SegmentReceived(p.seg), sent)
    ensures EdgesAhead(r, r.SegmentReceived(p.seg))
  {
    hide Faithful, Agrees, Receiver.SegmentReceived, ReadRight, EndsRight, Receiver.AckPosition;
    ArrivalKeepsAck(r, p, isn, sent, finished);
    ReceivedAgrees(r, p, isn, sent, finished);
    ReceivedAtItsPlace(r, p, isn, sent, finished);
    AckPositionIs(r, sent);
    AckPositionIs(r.SegmentReceived(p.seg), sent);
  }

  lemma FinHasIndex(p: Packet, isn: uint32, sent: seq<byte>, finished: bool)
    requires Faithful(p, isn, sent, finished)
    ensures p.seg.header.fin ==> p.abs + Bit(p.seg.header.syn) >= 1
  {
  }

  /** The sender event a move amounts to. */
  function EventOf(n: Net, m: Move): Event
    requires m.AckArrives? ==> m.j < |n.acks|
  {
    match m
    case AppWrites(data) => Event.Write(data)
    case AppEnds => Event.EndInput
    case SenderFills => Event.Fill
    case SenderTicks(ms) => Event.Tick(ms)
    case SenderProbes => Event.SendEmpty
    case AckArrives(j) => Event.Ack(n.acks[j].ackno, n.acks[j].win)
    case SenderFails => Event.SetError
    case _ => Event.TakeOutput
  }

  lemma SenderStep(n: Net, m: Move)
    requires Wellformed(n) && (m.AckArrives? ==> m.j < |n.acks|)
    ensures Advance(n, m).sender == Step(n.sender, EventOf(n, m)).(segmentsOut := [])
    ensures n.cut == n.sender.stream.read ==>
            Advance(n, m).cut == CutAfter(n.sender, n.cut, Step(n.sender, EventOf(n, m)))
    ensures !m.DataArrives? && !m.AppReads? && !m.ReceiverFails? ==> Advance(n, m).receiver == n.receiver
    ensures !m.ReceiverAcks? ==> Advance(n, m).acks == n.acks
  {
    hide Sender.AckReceived, Sender.FillWindow, Sender.Tick, Receiver.SegmentReceived;
  }

  /** An acknowledgment is read as the number it stands for, or as one beyond everything sent, or as nothing new,
      exactly if it is harmless. */
  lemma AckIsRead(position: nat, isn: uint32, acked: nat, next: nat)
    requires position <= next <= 0xFFFF_FFFF_0000_0000
    ensures var a := Unwrap(Wrap(position, isn), isn, next);
            AckHarmless(position, acked, next) <==> a == position || a > next || a <= acked
  {
    hide Unwrap, Wrap;
    UnwrapOfEarlier(position, isn, next);
    if next < position + 0x8000_0000 {
      DivModUnique(next - position, 0x1_0000_0000, 0, next - position);
    }
  }

  /** What any other does: the sender believes numbers that this acknowledgment is 2^32 or more short of. */
  lemma StaleAckIsBelieved(s: Sender, position: nat, win: uint16)
    requires s.Sane() && position <= s.next <= 0xFFFF_FFFF_0000_0000 && !AckHarmless(position, s.acked, s.next)
    ensures var s' := s.AckReceived(Wrap(position, s.isn), win);
            && s'.acked == s.next - (s.next - position) % 0x1_0000_0000
            && s'.acked > s.acked && s'.acked >= position + 0x1_0000_0000
  {
    hide Unwrap, Wrap, Step;
    UnwrapOfEarlier(position, s.isn, s.next);
    StaleAckArithmetic(position, s.acked, s.next);
    StepAcked(s, Event.Ack(Wrap(position, s.isn), win));
    AckStep(s, Wrap(position, s.isn), win);
  }

  lemma StaleAckArithmetic(position: nat, acked: nat, next: nat)
    requires position <= next && !AckHarmless(position, acked, next)
    ensures next - (next - position) % 0x1_0000_0000 >= position + 0x1_0000_0000
  {
    var q := (next - position) / 0x1_0000_0000;
    assert next - position == q * 0x1_0000_0000 + (next - position) % 0x1_0000_0000;
  }

  lemma AckStep(s: Sender, ackno: uint32, win: uint16)
    requires s.Sane()
    ensures Step(s, Event.Ack(ackno, win)) == s.AckReceived(ackno, win)
  {
  }

  lemma StepAcked(s: Sender, e: Event)
    requires s.Sane()
    ensures var a := if e.Ack? then Unwrap(e.ackno, s.isn, s.next) else 0;
            Step(s, e).acked == if e.Ack? && a <= s.next then Max(s.acked, a) else s.acked
    ensures Step(s, e).isn == s.isn
  {
    hide Unwrap, Sender.PopAcked, Estimate, Sender.NewSegments;
    if e.Ack? && Unwrap(e.ackno, s.isn, s.next) <= s.next {
      PopFrame(s.Acknowledge(Unwrap(e.ackno, s.isn, s.next), e.win));
    }
  }

  /** What the sender has sent only grows, and not beyond a FIN. */
  lemma StepGrows(s: Sender, e: Event)
    requires s.Sane() && Numbered(s) && (e.Write? ==> !WritesLate(s, e.data))
    ensures var s' := Step(s, e);
            && Grows(SentBytes(s, s.stream.read), s.finSent, SentBytes(s', s'.stream.read), s'.finSent)
            && CutAfter(s, s.stream.read, s') == s'.stream.read
  {
    hide Sender.AckReceived, Sender.Tick, Sender.FillWindow;
    match e
    case Fill => FillProgress(s); FillFrame(s);
    case Ack(ackno, win) => AckProgress(s, ackno, win);
    case Tick(ms) => TickFrame(s, ms);
    case _ =>
  }

  lemma SenderIsHonest(n: Net, m: Move)
    requires Wellformed(n) && Honest(n) && NumbersFit(n) && WritesBeforeFin(n, m) && AckNotStale(n, m)
    requires (m.AckArrives? ==> m.j < |n.acks|) && !m.DataArrives? && !m.AppReads? && !m.ReceiverAcks? &&
             !m.ReceiverFails?
    ensures Honest(Advance(n, m))
  {
    hide Advance, Step, Unwrap, Wrap, AckHarmless, Safe, Inv, Numbered, Agrees, EndsRight, Receiver.AckPosition,
         SentBytes;
    var s, e := n.sender, EventOf(n, m);
    MoveIsSafe(n, m);
    SenderStep(n, m);
    if m.AckArrives? {
      AckWithinSent(n);
      assert n.acks[m.j] in n.acks;
      AckIsRead(n.acks[m.j].position, s.isn, s.acked, s.next);
    }
    StepKeepsInv(s, e);
    InvIgnoresQueue(Step(s, e));
    StepAcked(s, e);
    StepProgress(s, e);
    StepGrows(s, e);
    SentIgnoresQueue(Step(s, e));
    var sent, sent' := SentBytes(s, n.cut), SentBytes(Step(s, e), Step(s, e).stream.read);
    assert n.receiver.isFin ==> s.finSent by { SafeParts(n); }
    AgreesGrows(n.receiver.reassembler, sent, sent');
    EndGrows(n.receiver, sent, s.finSent, sent', Step(s, e).finSent);
  }

  lemma SafeParts(n: Net)
    requires Wellformed(n) && Safe(n)
    ensures (n.receiver.isFin ==> n.sender.finSent) && (n.receiver.isSyn ==> n.receiver.isn == n.sender.isn)
  {
  }

  lemma AgreesGrows(r: Reassembler, sent: seq<byte>, sent': seq<byte>)
    requires Agrees(r, sent) && sent <= sent'
    ensures Agrees(r, sent')
  {
  }

  lemma SentIgnoresQueue(s: Sender)
    ensures SentBytes(s.(segmentsOut := []), s.stream.read) == SentBytes(s, s.stream.read)
    ensures Numbered(s.(segmentsOut := [])) == Numbered(s)
  {
  }

  lemma MoveIsHonest(n: Net, m: Move)
    requires Wellformed(n) && Honest(n)
    requires NumbersFit(n) && WritesBeforeFin(n, m) && DataNotStale(n, m) && FinInOrder(n, m) && AckNotStale(n, m)
    ensures Honest(Advance(n, m))
  {
    hide Advance, Safe, Inv, DataNotStale, FinInOrder, AckNotStale, Receiver.AckPosition, Wrap;
    match m
    case DataArrives(i) => if i < |n.packets| { DataIsHonest(n, i); } else { NoArrival(n, m); }
    case AppReads(len) => ReadIsHonest(n, len);
    case ReceiverFails => FailIsHonest(n);
    case ReceiverAcks => AckingIsHonest(n);
    case AckArrives(j) => if j < |n.acks| { SenderIsHonest(n, m); } else { NoArrival(n, m); }
    case _ => SenderIsHonest(n, m);
  }

  lemma NoArrival(n: Net, m: Move)
    requires Wellformed(n)
    requires (m.DataArrives? && m.i >= |n.packets|) || (m.AckArrives? && m.j >= |n.acks|)
    ensures Advance(n, m) == n
  {
  }

  lemma ReadIsHonest(n: Net, len: nat)
    requires Wellformed(n) && Honest(n)
    ensures Honest(Advance(n, AppReads(len)))
  {
    hide Genuine, SafeSender, Inv, Wrap;
  }

  lemma FailIsHonest(n: Net)
    requires Wellformed(n) && Honest(n)
    ensures Honest(Advance(n, ReceiverFails))
  {
    hide Genuine, SafeSender, Inv, Wrap;
  }

  lemma AckingIsHonest(n: Net)
    requires Wellformed(n) && Honest(n)
    ensures Honest(Advance(n, ReceiverAcks))
  {
    hide Genuine, SafeSender, Inv, Wrap, EndsRight, Agrees, Receiver.AckPosition;
  }

  // ----- whole runs -----

  predicate OrderlyThroughout(n: Net, ms: seq<Move>)
    requires Wellformed(n)
    decreases |ms|
  {
    ms == [] ||
    (var before, m := AdvanceAll(n, ms[..|ms| - 1]), ms[|ms| - 1];
     && OrderlyThroughout(n, ms[..|ms| - 1])
     && NumbersFit(before) && WritesBeforeFin(before, m)
     && DataNotStale(before, m) && FinInOrder(before, m) && AckNotStale(before, m))
  }

  lemma StartIsHonest(sendCapacity: nat, retxTimeout: uint16, isn: uint32, recvCapacity: nat)
    requires recvCapacity >= 1
    ensures Honest(Start(sendCapacity, retxTimeout, isn, recvCapacity))
  {
    StartIsSafe(sendCapacity, retxTimeout, isn, recvCapacity);
    InitialInv(sendCapacity, retxTimeout, isn);
  }

  lemma {:induction false} AlwaysHonest(n: Net, ms: seq<Move>)
    requires Wellformed(n) && Honest(n) && OrderlyThroughout(n, ms)
    ensures Honest(AdvanceAll(n, ms))
    decreases |ms|
  {
    hide Advance, Honest, Wellformed, NumbersFit, WritesBeforeFin, DataNotStale, FinInOrder, AckNotStale;
    if ms != [] {
      AlwaysHonest(n, ms[..|ms| - 1]);
      MoveIsHonest(AdvanceAll(n, ms[..|ms| - 1]), ms[|ms| - 1]);
    }
  }

  // ----- no byte is forgotten -----

  /** The j-th outstanding segment holds byte `k` of the stream. */
  ghost predicate Holds(s: Sender, j: nat, k: nat, b: byte)
  {
    && j < |s.outstanding|
    && var seg := s.outstanding[j];
       var v := First(s) + TotalLength(s.outstanding[..j]) + Bit(seg.header.syn);
       v <= k + 1 < v + |seg.payload| && seg.payload[k + 1 - v] == b
  }

  lemma FoundHere(seg: TcpSegment, from: nat, isn: uint32, sent: seq<byte>, finished: bool, x: nat)
    requires Genuine(Packet(from, seg), isn, sent, finished) && from <= x < from + seg.Length() && 1 <= x <= |sent|
    ensures var v := from + Bit(seg.header.syn); v <= x < v + |seg.payload| && seg.payload[x - v] == sent[x - 1]
  {
    hide Wrap;
  }

  /** In a row of segments, the one that covers absolute number `x`. */
  lemma {:induction false} Locate(segs: seq<TcpSegment>, from: nat, isn: uint32, sent: seq<byte>, finished: bool,
                                  x: nat) returns (j: nat)
    requires Carried(segs, from, isn, sent, finished) && from <= x < from + TotalLength(segs) && 1 <= x <= |sent|
    ensures j < |segs|
    ensures var v := from + TotalLength(segs[..j]) + Bit(segs[j].header.syn);
            v <= x < v + |segs[j].payload| && segs[j].payload[x - v] == sent[x - 1]
    decreases |segs|
  {
    hide Genuine;
    if x < from + segs[0].Length() {
      j := 0;
      assert segs[..0] == [];
      FoundHere(segs[0], from, isn, sent, finished, x);
    } else {
      var j' := Locate(segs[1..], from + segs[0].Length(), isn, sent, finished, x);
      j := j' + 1;
      assert segs[..j] == [segs[0]] + segs[1..][..j'];
      assert segs[..j][1..] == segs[1..][..j'];
    }
  }

  lemma ByteIsHeld(n: Net, k: nat) returns (j: nat)
    requires Wellformed(n) && Honest(n) && |n.receiver.Output()| <= k < |SentBytes(n.sender, n.cut)|
    ensures Holds(n.sender, j, k, SentBytes(n.sender, n.cut)[k])
  {
    hide Genuine, Carried, Chain, Receiver.AckPosition, EndExact;
    var s := n.sender;
    AckPositionIs(n.receiver, SentBytes(s, n.cut));
    j := Locate(s.outstanding, First(s), s.isn, SentBytes(s, n.cut), s.finSent, k + 1);
  }

  /** No byte is forgotten.  In every run, each byte ever sent is either in the receiver's output, at its place, or
      still held by an outstanding segment, ready to be sent again. */
  lemma NothingForgotten(sendCapacity: nat, retxTimeout: uint16, isn: uint32, recvCapacity: nat, ms: seq<Move>, k: nat)
    requires recvCapacity >= 1 && OrderlyThroughout(Start(sendCapacity, retxTimeout, isn, recvCapacity), ms)
    requires k < AdvanceAll(Start(sendCapacity, retxTimeout, isn, recvCapacity), ms).sender.stream.read
    ensures var n := AdvanceAll(Start(sendCapacity, retxTimeout, isn, recvCapacity), ms);
            var b := n.sender.stream.history[k];
            (k < |n.receiver.Output()| && n.receiver.Output()[k] == b) || exists j :: Holds(n.sender, j, k, b)
  {
    hide AdvanceAll, OrderlyThroughout, Genuine, Carried, Holds, Inv;
    StartIsHonest(sendCapacity, retxTimeout, isn, recvCapacity);
    AlwaysHonest(Start(sendCapacity, retxTimeout, isn, recvCapacity), ms);
    var n := AdvanceAll(Start(sendCapacity, retxTimeout, isn, recvCapacity), ms);
    if k >= |n.receiver.Output()| {
      var j := ByteIsHeld(n, k);
    }
  }

  // ----- the end of the stream -----

  /** End of stream is exact.  In every run, the receiver's stream has ended exactly when a FIN was delivered and every
      byte sent is out; then the sender's stream has ended too, and all of it is out. */
  lemma EndOfStreamIsExact(sendCapacity: nat, retxTimeout: uint16, isn: uint32, recvCapacity: nat, ms: seq<Move>)
    requires recvCapacity >= 1 && OrderlyThroughout(Start(sendCapacity, retxTimeout, isn, recvCapacity), ms)
    ensures var n := AdvanceAll(Start(sendCapacity, retxTimeout, isn, recvCapacity), ms);
            var r := n.receiver;
            && (r.reassembler.output.ended <==> r.isFin && |r.Output()| == n.sender.stream.read)
            && (r.reassembler.output.ended ==> n.sender.stream.ended && r.Output() == n.sender.stream.history)
            && r.isFin == r.reassembler.eof
            && r.AckPosition() <= n.sender.next && n.sender.acked <= r.AckPosition()
  {
    hide AdvanceAll, OrderlyThroughout, Genuine, Carried, Inv, Receiver.AckPosition;
    StartIsHonest(sendCapacity, retxTimeout, isn, recvCapacity);
    AlwaysHonest(Start(sendCapacity, retxTimeout, isn, recvCapacity), ms);
    var n := AdvanceAll(Start(sendCapacity, retxTimeout, isn, recvCapacity), ms);
    AckPositionIs(n.receiver, SentBytes(n.sender, n.cut));
    AckWithinSent(n);
  }

  /** The receiver's state says how far its acknowledgment is.  In every run: listening while there is none, "FIN
      received" exactly if it covers every byte sent and the FIN behind them, "SYN received" in between, and an error
      above all. */
  lemma ReceiverStateIsExact(sendCapacity: nat, retxTimeout: uint16, isn: uint32, recvCapacity: nat, ms: seq<Move>)
    requires recvCapacity >= 1 && OrderlyThroughout(Start(sendCapacity, retxTimeout, isn, recvCapacity), ms)
    ensures var n := AdvanceAll(Start(sendCapacity, retxTimeout, isn, recvCapacity), ms);
            SummarizeReceiver(n.receiver) ==
              if n.receiver.reassembler.output.error then ReceiverError
              else if n.receiver.AckPosition() == 0 then Listen
              else if n.receiver.AckPosition() == n.sender.stream.read + 2 then FinRecv
              else SynRecv
  {
    hide AdvanceAll, OrderlyThroughout, Genuine, Carried, Inv, Receiver.AckPosition, Wrap;
    StartIsHonest(sendCapacity, retxTimeout, isn, recvCapacity);
    AlwaysHonest(Start(sendCapacity, retxTimeout, isn, recvCapacity), ms);
    var n := AdvanceAll(Start(sendCapacity, retxTimeout, isn, recvCapacity), ms);
    AckPositionIs(n.receiver, SentBytes(n.sender, n.cut));
    SentFits(n);
  }

  /** What was received stays received. */
  lemma MoveKeepsOutput(n: Net, m: Move)
    requires Wellformed(n)
    ensures n.receiver.Output() <= Advance(n, m).receiver.Output()
    ensures n.receiver.isFin ==> Advance(n, m).receiver.isFin
  {
    hide Sender.AckReceived, Sender.FillWindow, Sender.Tick, Unwrap, Stored, RunEnd, RunBytes, From;
  }

  /** A move lets what was sent grow, and only until the FIN. */
  lemma MoveGrows(n: Net, m: Move)
    requires Wellformed(n) && Honest(n) && WritesBeforeFin(n, m)
    ensures var n' := Advance(n, m);
            && Grows(SentBytes(n.sender, n.cut), n.sender.finSent, SentBytes(n'.sender, n'.cut), n'.sender.finSent)
  {
    hide Advance, Step, Safe, Inv, Agrees, EndsRight, Receiver.AckPosition, Numbered, WritesLate, SentBytes, Wrap;
    if m.AckArrives? && m.j >= |n.acks| {
      NoArrival(n, m);
    } else {
      SenderStep(n, m);
      StepGrows(n.sender, EventOf(n, m));
      SentIgnoresQueue(Step(n.sender, EventOf(n, m)));
    }
  }

  lemma {:induction false} RunGrows(n: Net, ms: seq<Move>)
    requires Wellformed(n) && Honest(n) && OrderlyThroughout(n, ms)
    ensures var n' := AdvanceAll(n, ms);
            && Grows(SentBytes(n.sender, n.cut), n.sender.finSent, SentBytes(n'.sender, n'.cut), n'.sender.finSent)
            && n.receiver.Output() <= n'.receiver.Output() && (n.receiver.isFin ==> n'.receiver.isFin)
    decreases |ms|
  {
    hide Advance, Honest, Wellformed, NumbersFit, WritesBeforeFin, DataNotStale, FinInOrder, AckNotStale, SentBytes,
         Receiver.Output;
    if ms != [] {
      var before, m := AdvanceAll(n, ms[..|ms| - 1]), ms[|ms| - 1];
      RunGrows(n, ms[..|ms| - 1]);
      AlwaysHonest(n, ms[..|ms| - 1]);
      MoveKeepsOutput(before, m);
      MoveGrows(before, m);
    }
  }

  /** The end is final.  Let an orderly run end the receiver's stream, and let it go on in any orderly way: the stream
      stays ended, and not one byte more comes out. */
  lemma EndIsFinal(sendCapacity: nat, retxTimeout: uint16, isn: uint32, recvCapacity: nat, ms: seq<Move>,
                   more: seq<Move>)
    requires recvCapacity >= 1 && OrderlyThroughout(Start(sendCapacity, retxTimeout, isn, recvCapacity), ms)
    requires OrderlyThroughout(AdvanceAll(Start(sendCapacity, retxTimeout, isn, recvCapacity), ms), more)
    ensures var n := AdvanceAll(Start(sendCapacity, retxTimeout, isn, recvCapacity), ms);
            var n' := AdvanceAll(n, more);
            n.receiver.reassembler.output.ended ==>
              n'.receiver.reassembler.output.ended && n'.receiver.Output() == n.receiver.Output()
  {
    hide AdvanceAll, OrderlyThroughout, Genuine, Carried, Inv, Receiver.AckPosition, EndExact, SentBytes;
    StartIsHonest(sendCapacity, retxTimeout, isn, recvCapacity);
    AlwaysHonest(Start(sendCapacity, retxTimeout, isn, recvCapacity), ms);
    var n := AdvanceAll(Start(sendCapacity, retxTimeout, isn, recvCapacity), ms);
    AlwaysHonest(n, more);
    var n' := AdvanceAll(n, more);
    RunGrows(n, more);
    AckPositionIs(n.receiver, SentBytes(n.sender, n.cut));
    AckPositionIs(n'.receiver, SentBytes(n'.sender, n'.cut));
  }

  lemma MoveKeepsEdges(n: Net, m: Move)
    requires Wellformed(n) && Honest(n)
    requires NumbersFit(n) && WritesBeforeFin(n, m) && DataNotStale(n, m) && FinInOrder(n, m) && AckNotStale(n, m)
    ensures EdgesAhead(n.receiver, Advance(n, m).receiver)
  {
    hide Sender.AckReceived, Sender.FillWindow, Sender.Tick, Receiver.SegmentReceived, Honest, NumbersFit,
         DataNotStale, FinInOrder, AckNotStale;
    if m.DataArrives? && m.i < |n.packets| {
      DataIsHonest(n, m.i);
    }
  }

  lemma {:induction false} RunKeepsEdges(n: Net, ms: seq<Move>)
    requires Wellformed(n) && Honest(n) && OrderlyThroughout(n, ms)
    ensures AdvanceAll(n, ms).receiver.Ok() && EdgesAhead(n.receiver, AdvanceAll(n, ms).receiver)
    decreases |ms|
  {
    hide Advance, Honest, WritesBeforeFin, DataNotStale, FinInOrder, AckNotStale, Receiver.AckPosition,
         Receiver.WindowSize;
    if ms != [] {
      RunKeepsEdges(n, ms[..|ms| - 1]);
      AlwaysHonest(n, ms[..|ms| - 1]);
      MoveKeepsEdges(AdvanceAll(n, ms[..|ms| - 1]), ms[|ms| - 1]);
    }
  }

  /** Between any two points of any orderly run, neither the acknowledgment nor the advertised right edge moves back. */
  lemma EdgesNeverMoveBack(sendCapacity: nat, retxTimeout: uint16, isn: uint32, recvCapacity: nat, ms: seq<Move>,
                           more: seq<Move>)
    requires recvCapacity >= 1 && OrderlyThroughout(Start(sendCapacity, retxTimeout, isn, recvCapacity), ms)
    requires OrderlyThroughout(AdvanceAll(Start(sendCapacity, retxTimeout, isn, recvCapacity), ms), more)
    ensures var n := AdvanceAll(Start(sendCapacity, retxTimeout, isn, recvCapacity), ms);
            AdvanceAll(n, more).receiver.Ok() && EdgesAhead(n.receiver, AdvanceAll(n, more).receiver)
  {
    hide AdvanceAll, OrderlyThroughout, Honest;
    StartIsHonest(sendCapacity, retxTimeout, isn, recvCapacity);
    AlwaysHonest(Start(sendCapacity, retxTimeout, isn, recvCapacity), ms);
    RunKeepsEdges(AdvanceAll(Start(sendCapacity, retxTimeout, isn, recvCapacity), ms), more);
  }

  /** Why a FIN must be in order: an empty FIN that overtakes the one byte before it makes the receiver acknowledge
      that byte (absolute number 1) and end its stream without ever having seen it. */
  lemma OvertakingFinAcksMissingByte(isn: uint32)
    ensures var r := Receiver(Reassembler(Stream(10, [], 0, false, false), map[], false), 10, true, false, isn);
            var p := Packet(2, Segment(2, isn, false, true, []));
            var r' := r.SegmentReceived(p.seg);
            && Faithful(p, isn, [7], true) && !EndAnnouncementOk(r.reassembler, [], IndexOf(p))
            && r'.AckPosition() == 2 && r'.Output() == [] && r'.reassembler.output.ended
  {
    hide Wrap;
    var r := Receiver(Reassembler(Stream(10, [], 0, false, false), map[], false), 10, true, false, isn);
    ReceivedAtItsPlace(r, Packet(2, Segment(2, isn, false, true, [])), isn, [7], true);
  }
}
