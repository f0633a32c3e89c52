/** Flow control: when acknowledgments are lost or repeated but not reordered, in an otherwise orderly run, the
    sender's 16-bit estimate never wraps around and never more is in flight than the receiver allowed. */
module TransportFlow {
  import opened Words
  import opened WrappingIntegers
  import opened StreamReassemblers
  import opened ReassemblerFacts
  import opened TcpReceivers
  import opened ReceiverFacts
  import opened TcpSenders
  import opened SenderFacts
  import opened SenderRuns
  import opened SenderProgress
  import opened Transport
  import opened TransportSafety
  import opened TransportAcks

  /** The right edge of an acknowledgment. */
  function Edge(a: Notice): nat { a.position + a.win }

  /** Later acknowledgments are at least as far along, at both edges. */
  predicate Ordered(acks: seq<Notice>)
  {
    forall i, j :: 0 <= i <= j < |acks| ==> acks[i].position <= acks[j].position && Edge(acks[i]) <= Edge(acks[j])
  }

  /** The window the sender last heard of, counted as at least 1; before any acknowledgment it is 1. */
  function Allowed(n: Net): nat
    requires n.heard <= |n.acks|
  {
    if n.heard == 0 then 1 else Max(n.acks[n.heard - 1].win, 1)
  }

  /** The invariant: the estimate and what is in flight add up to the window last heard. */
  ghost predicate Flowing(n: Net)
    requires Wellformed(n)
  {
    var s, r := n.sender, n.receiver;
    && n.heard <= |n.acks| && Ordered(n.acks)
    && (n.acks != [] ==> r.isSyn && n.acks[|n.acks| - 1].position <= r.AckPosition()
                         && Edge(n.acks[|n.acks| - 1]) <= r.AckPosition() + Min(r.WindowSize(), 0xFFFF))
    && s.acked == (if n.heard == 0 then 0 else n.acks[n.heard - 1].position)
    && s.window + s.InFlight() == Allowed(n)
  }

  /** What an acceptable acknowledgment does to estimate and flight. */
  lemma AckBalance(s: Sender, ackno: uint32, win: uint16)
    requires s.Sane() && Unwrap(ackno, s.isn, s.next) <= s.next && Queue(s)
    ensures var s', acked := s.AckReceived(ackno, win), Max(s.acked, Unwrap(ackno, s.isn, s.next));
            && s'.Sane() && s'.acked == acked
            && s'.window + s'.InFlight() == Estimate(win, s.next - acked) + (s.next - acked)
  {
    hide Unwrap, Sender.PopAcked, Estimate, Sender.FillWindow;
    AckKeepsSane(s, ackno, win);
    var s1 := s.Acknowledge(Unwrap(ackno, s.isn, s.next), win);
    PopFrame(s1);
    if s.timerOn {
      FillBalance(s1.PopAcked());
    }
  }

  lemma FillBalance(s: Sender)
    requires s.Ready()
    ensures var f := s.FillWindow(); f.acked == s.acked && f.window + f.InFlight() == s.window + s.InFlight()
  {
    hide Sender.NewSegments;
  }

  lemma StepBalance(s: Sender, e: Event)
    requires s.Sane() && !e.Ack?
    ensures Step(s, e).acked == s.acked && Step(s, e).window + Step(s, e).InFlight() == s.window + s.InFlight()
  {
    hide Sender.FillWindow, Sender.Tick;
    match e
    case Fill => FillBalance(s);
    case Tick(ms) => TickFrame(s, ms);
    case _ =>
  }

  /** The next acknowledgment in order allows for everything in flight, and is neither stale nor misread. */
  lemma NextAckFits(n: Net, j: nat)
    requires Wellformed(n) && Honest(n) && Flowing(n) && j < |n.acks| && AcksInOrder(n, AckArrives(j))
    requires NumbersFit(n)
    ensures AckNotStale(n, AckArrives(j))
    ensures n.acks[j].position <= n.sender.next && n.sender.acked <= n.acks[j].position
    ensures n.sender.next - n.acks[j].position <= Max(n.acks[j].win, 1)
    ensures Unwrap(n.acks[j].ackno, n.sender.isn, n.sender.next) == n.acks[j].position
  {
    hide Unwrap, Wrap, Safe, Inv, EndsRight, Receiver.AckPosition;
    AckWithinSent(n);
    var a := n.acks[j];
    assert a in n.acks;
    if n.heard > 0 {
      assert n.acks[n.heard - 1].position <= a.position && Edge(n.acks[n.heard - 1]) <= Edge(a);
    }
    UnwrapWrap(a.position, n.sender.isn, n.sender.next);
  }

  lemma AckFlows(n: Net, j: nat)
    requires Wellformed(n) && Honest(n) && Flowing(n) && j < |n.acks| && AcksInOrder(n, AckArrives(j))
    requires NumbersFit(n)
    ensures Flowing(Advance(n, AckArrives(j)))
  {
    hide Unwrap, Wrap, Safe, Inv, EndsRight, Receiver.AckPosition, Sender.AckReceived, Estimate, Ordered;
    var s, a := n.sender, n.acks[j];
    NextAckFits(n, j);
    assert Queue(s) by { InvQueue(s); }
    AckBalance(s, a.ackno, a.win);
    EstimateExact(a.win, s.next - a.position);
  }

  lemma InvQueue(s: Sender)
    requires Inv(s)
    ensures Queue(s)
  {
  }

  lemma AckingFlows(n: Net)
    requires Wellformed(n) && Flowing(n)
    ensures Flowing(Advance(n, ReceiverAcks))
  {
    hide Receiver.AckPosition, Receiver.WindowSize, Wrap;
    var n' := Advance(n, ReceiverAcks);
    if n.receiver.isSyn {
      assert forall i :: 0 <= i < |n.acks| ==> n'.acks[i] == n.acks[i];
    }
  }

  lemma MoveFlows(n: Net, m: Move)
    requires Wellformed(n) && Honest(n) && Flowing(n)
    requires NumbersFit(n) && WritesBeforeFin(n, m) && DataNotStale(n, m) && FinInOrder(n, m) && AcksInOrder(n, m)
    ensures AckNotStale(n, m) && Flowing(Advance(n, m))
  {
    hide Advance, Safe, EndsRight, Inv, DataNotStale, FinInOrder, Receiver.AckPosition, Receiver.WindowSize, Wrap,
         Ordered, Step;
    if m.AckArrives? {
      if m.j < |n.acks| {
        NextAckFits(n, m.j);
        AckFlows(n, m.j);
      } else {
        NoArrival(n, m);
      }
    } else if m.ReceiverAcks? {
      AckingFlows(n);
    } else {
      MoveKeepsEdges(n, m);
      SenderStep(n, m);
      HeardOnlyByAcks(n, m);
      StepBalance(n.sender, EventOf(n, m));
    }
  }

  lemma HeardOnlyByAcks(n: Net, m: Move)
    requires Wellformed(n) && !m.AckArrives?
    ensures Advance(n, m).heard == n.heard
  {
    hide Sender.FillWindow, Sender.Tick, Receiver.SegmentReceived;
  }

  // ----- whole runs -----

  predicate FifoThroughout(n: Net, ms: seq<Move>)
    requires Wellformed(n)
    decreases |ms|
  {
    ms == [] ||
    (var before, m := AdvanceAll(n, ms[..|ms| - 1]), ms[|ms| - 1];
     && FifoThroughout(n, ms[..|ms| - 1])
     && NumbersFit(before) && WritesBeforeFin(before, m)
     && DataNotStale(before, m) && FinInOrder(before, m) && AcksInOrder(before, m))
  }

  lemma {:induction false} AlwaysFlows(n: Net, ms: seq<Move>)
    requires Wellformed(n) && Honest(n) && Flowing(n) && FifoThroughout(n, ms)
    ensures OrderlyThroughout(n, ms) && Honest(AdvanceAll(n, ms)) && Flowing(AdvanceAll(n, ms))
    decreases |ms|
  {
    hide Advance, Honest, Flowing, Wellformed, WritesBeforeFin, DataNotStale, FinInOrder, AcksInOrder, AckNotStale;
    if ms != [] {
      AlwaysFlows(n, ms[..|ms| - 1]);
      MoveFlows(AdvanceAll(n, ms[..|ms| - 1]), ms[|ms| - 1]);
      MoveIsHonest(AdvanceAll(n, ms[..|ms| - 1]), ms[|ms| - 1]);
    }
  }

  lemma StartFlows(sendCapacity: nat, retxTimeout: uint16, isn: uint32, recvCapacity: nat)
    requires recvCapacity >= 1
    ensures Flowing(Start(sendCapacity, retxTimeout, isn, recvCapacity))
  {
  }

  /** Flow control composes.  In every run in which no byte is accepted after the FIN, delivered segments are not
      stale, FINs can be trusted, and acknowledgments are not reordered (but lost or repeated), the estimate never
      wraps around, no more is in flight than the window last heard of (counted as at least 1), and every
      acknowledgment that can still be delivered in order leaves room for what is in flight. */
  lemma FlowControlComposes(sendCapacity: nat, retxTimeout: uint16, isn: uint32, recvCapacity: nat, ms: seq<Move>,
                            j: nat)
    requires recvCapacity >= 1 && FifoThroughout(Start(sendCapacity, retxTimeout, isn, recvCapacity), ms)
    ensures var n := AdvanceAll(Start(sendCapacity, retxTimeout, isn, recvCapacity), ms);
            && n.heard <= |n.acks| && n.sender.window + n.sender.InFlight() == Allowed(n)
            && n.sender.InFlight() <= Allowed(n) <= 0xFFFF
            && (j < |n.acks| && AcksInOrder(n, AckArrives(j)) && n.sender.next <= 0xFFFF_FFFF_0000_0000 ==>
                  n.sender.next - n.acks[j].position <= Max(n.acks[j].win, 1))
  {
    hide AdvanceAll, FifoThroughout, Safe, EndsRight, Inv, Receiver.AckPosition, Receiver.WindowSize, Wrap, Ordered;
    var n0 := Start(sendCapacity, retxTimeout, isn, recvCapacity);
    StartIsHonest(sendCapacity, retxTimeout, isn, recvCapacity);
    StartFlows(sendCapacity, retxTimeout, isn, recvCapacity);
    AlwaysFlows(n0, ms);
    var n := AdvanceAll(n0, ms);
    if j < |n.acks| && AcksInOrder(n, AckArrives(j)) && n.sender.next <= 0xFFFF_FFFF_0000_0000 {
      NextAckFits(n, j);
    }
  }

  // ----- nothing is sent that the receiver must drop -----

  /** Nothing was sent beyond the receiver's window, but for one number when the window last heard of was closed. */
  lemma SentWithinWindow(n: Net)
    requires Wellformed(n) && Honest(n) && Flowing(n)
    ensures if n.heard == 0 then n.sender.next <= 1
            else n.receiver.isSyn && n.sender.next <=
                   n.receiver.AckPosition() + n.receiver.WindowSize() + Bit(n.acks[n.heard - 1].win == 0)
  {
    hide Safe, Inv, EndsRight, Receiver.AckPosition, Receiver.WindowSize;
    if n.heard > 0 {
      assert Edge(n.acks[n.heard - 1]) <= Edge(n.acks[|n.acks| - 1]);
    }
  }

  /** The last byte of a packet on the wire is inside the window, under the same reservation. */
  lemma PacketWithinWindow(n: Net, i: nat)
    requires Wellformed(n) && Honest(n) && Flowing(n) && i < |n.packets| && n.packets[i].seg.payload != []
    ensures n.heard > 0 && n.receiver.isSyn
    ensures 0 <= IndexOf(n.packets[i]) && IndexOf(n.packets[i]) + |n.packets[i].seg.payload| <=
              |n.receiver.Output()| + n.receiver.WindowSize() + Bit(n.acks[n.heard - 1].win == 0)
  {
    hide Safe, Inv, EndsRight, Receiver.AckPosition, Receiver.WindowSize, Flowing, Agrees, Wrap;
    var sent := SentBytes(n.sender, n.cut);
    assert n.packets[i].abs + n.packets[i].seg.Length() <= n.sender.next by { SentBefore(n, i); }
    PacketIsFaithful(n, i);
    SentWithinWindow(n);
    AckPositionIs(n.receiver, sent);
  }

  lemma SentBefore(n: Net, i: nat)
    requires Wellformed(n) && Safe(n) && i < |n.packets|
    ensures n.packets[i].abs + n.packets[i].seg.Length() <= n.sender.next
  {
    hide Genuine;
    assert n.packets[i] in n.packets;
  }

  /** A byte of a packet that is read right and falls inside the window is known after its arrival. */
  lemma ByteArrives(n: Net, i: nat, k: nat)
    requires Wellformed(n) && Honest(n) && NumbersFit(n) && i < |n.packets| && n.receiver.isSyn
    requires ReadRight(n.packets[i], n.receiver) && k < |n.packets[i].seg.payload| && IndexOf(n.packets[i]) >= 0
    requires IndexOf(n.packets[i]) + k < |n.receiver.Output()| + n.receiver.WindowSize()
    ensures var p := n.packets[i];
            At(n.receiver.SegmentReceived(p.seg).reassembler, IndexOf(p) + k) == Some(p.seg.payload[k])
  {
    hide Inv, EndsRight, Receiver.AckPosition, Receiver.WindowSize, ReadRight, Reassembler.Push, Carried, Wrap;
    var p, r, sent := n.packets[i], n.receiver, SentBytes(n.sender, n.cut);
    PacketIsFaithful(n, i);
    AgreesFits(r.reassembler, sent);
    SentFits(n);
    ReceivedAtItsPlace(r, p, n.sender.isn, sent, n.sender.finSent);
    WindowReaches(r);
    PushIsLatestWrite(r.reassembler, p.seg.payload, IndexOf(p), p.seg.header.fin, IndexOf(p) + k);
  }

  /** Flow control loses nothing.  In every such run, whatever packet ever sent arrives next, if it is read right, all
      of its bytes are in the receiver's output or stored after its arrival; only when the window last heard of was
      closed can its last byte, the one sent to probe the window, be dropped. */
  lemma NothingSentIsDropped(sendCapacity: nat, retxTimeout: uint16, isn: uint32, recvCapacity: nat, ms: seq<Move>,
                             i: nat, k: nat)
    requires recvCapacity >= 1 && FifoThroughout(Start(sendCapacity, retxTimeout, isn, recvCapacity), ms)
    requires var n := AdvanceAll(Start(sendCapacity, retxTimeout, isn, recvCapacity), ms);
             NumbersFit(n) && i < |n.packets| && k < |n.packets[i].seg.payload| && ReadRight(n.packets[i], n.receiver)
    ensures var n := AdvanceAll(Start(sendCapacity, retxTimeout, isn, recvCapacity), ms);
            var p := n.packets[i];
            && 0 < n.heard <= |n.acks| && p.abs + Bit(p.seg.header.syn) >= 1
            && (n.acks[n.heard - 1].win > 0 || k + 1 < |p.seg.payload| ==>
                  At(n.receiver.SegmentReceived(p.seg).reassembler, p.abs + Bit(p.seg.header.syn) - 1 + k)
                  == Some(p.seg.payload[k]))
  {
    hide AdvanceAll, FifoThroughout, Honest, Flowing, ReadRight, Receiver.SegmentReceived, Receiver.WindowSize;
    var n0 := Start(sendCapacity, retxTimeout, isn, recvCapacity);
    StartIsHonest(sendCapacity, retxTimeout, isn, recvCapacity);
    StartFlows(sendCapacity, retxTimeout, isn, recvCapacity);
    AlwaysFlows(n0, ms);
    var n := AdvanceAll(n0, ms);
    FlowingHeard(n);
    PacketWithinWindow(n, i);
    SmallIndex(n, i);
    if n.acks[n.heard - 1].win > 0 || k + 1 < |n.packets[i].seg.payload| {
      ByteArrives(n, i, k);
    }
  }

  lemma FlowingHeard(n: Net)
    requires Wellformed(n) && Flowing(n)
    ensures n.heard <= |n.acks|
  {
  }

  lemma SmallIndex(n: Net, i: nat)
    requires Wellformed(n) && Honest(n) && i < |n.packets| && n.packets[i].seg.payload != []
    ensures n.packets[i].abs + Bit(n.packets[i].seg.header.syn) >= 1
  {
    hide Inv, EndsRight, Receiver.AckPosition;
    PacketIsFaithful(n, i);
  }
}
