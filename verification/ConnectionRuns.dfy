/** Whole runs of a connection: every sequence of calls its owner, the peer and the clock can make. */
module ConnectionRuns {
  import opened Words
  import opened WrappingIntegers
  import opened ByteStreams
  import opened StreamReassemblers
  import opened TcpSegments
  import opened TcpReceivers
  import opened TcpSenders
  import opened SenderFacts
  import opened SenderRuns
  import opened TcpConnections

  datatype Call =
    | Segment(seg: TcpSegment)
    | Tick(ms: uint64)
    | Write(data: seq<byte>)
    | EndInput
    | Connect
    | Read(len: nat)
    | TakeOutput          // the owner dequeues the outgoing segments

  function Apply(c: Connection, k: Call): (c': Connection)
    requires c.Ok()
    ensures c'.Ok()
  {
    match k
    case Segment(seg) => c.SegmentReceived(seg)
    case Tick(ms) => c.Tick(ms)
    case Write(data) => c.Write(data)
    case EndInput => c.EndInputStream()
    case Connect => c.Connect()
    case Read(len) => c.Read(len)
    case TakeOutput => c.(segmentsOut := [])
  }

  function ApplyAll(c: Connection, ks: seq<Call>): (c': Connection)
    requires c.Ok()
    ensures c'.Ok()
    decreases |ks|
  {
    if ks == [] then c else Apply(ApplyAll(c, ks[..|ks| - 1]), ks[|ks| - 1])
  }

  /** A connection as it is constructed. */
  function Fresh(rtTimeout: uint16, recvCapacity: nat, sendCapacity: nat, isn: uint32): (c: Connection)
    requires recvCapacity >= 1
    ensures c.Ok()
  {
    Connection(rtTimeout,
               Receiver(Reassembler(Stream(recvCapacity, [], 0, false, false), map[], false),
                        recvCapacity, false, false, 0),
               Initial(sendCapacity, rtTimeout, isn),
               [], true, false, false, 0)
  }

  // ----- the sender's part of a call -----

  /** The sender events that a call amounts to, before what they queued is sent. */
  function SenderEvents(c: Connection, k: Call): seq<Event>
    requires c.Ok()
  {
    match k
    case Segment(seg) =>
      if seg.header.rst then [SenderRuns.SetError]
      else if !c.Active() then []
      else if c.IsKeepAlive(seg) then [SenderRuns.SendEmpty]
      else
        var e := if seg.header.ack then SenderRuns.Ack(seg.header.ackno, seg.header.win) else SenderRuns.Fill;
        if seg.Length() != 0 && Step(c.sender, e).segmentsOut == [] then [e, SenderRuns.SendEmpty] else [e]
    case Tick(ms) =>
      if !c.Active() then []
      else if Step(c.sender, SenderRuns.Tick(ms)).retransmissions % 0x1_0000_0000 > 8
      then [SenderRuns.Tick(ms), SenderRuns.SetError] else [SenderRuns.Tick(ms)]
    case Write(data) => if c.Active() then [SenderRuns.Write(data), SenderRuns.Fill] else []
    case EndInput => if c.Active() then [SenderRuns.EndInput, SenderRuns.Fill] else []
    case Connect => [SenderRuns.Fill]
    case Read(_) => []
    case TakeOutput => []
  }

  lemma RunShort(s: Sender, es: seq<Event>)
    requires s.Sane()
    ensures Run(s, []) == s
    ensures |es| == 1 ==> Run(s, es) == Step(s, es[0])
    ensures |es| == 2 ==> Run(s, es) == Step(Step(s, es[0]), es[1])
  {
    hide Step;
    if |es| >= 1 {
      assert es[..|es| - 1] == if |es| == 1 then [] else es[..|es| - 1];
    }
    if |es| == 2 {
      assert es[..1][..0] == [];
      assert Run(s, es[..1]) == Step(s, es[0]);
    }
  }

  /** What a call has done when it amounts to these sender events. */
  ghost predicate Amounts(c: Connection, c': Connection, s: Sender)
  {
    c'.sender == s.(segmentsOut := []) && (c'.fin <==> c.fin || exists seg <- s.segmentsOut :: seg.header.fin)
  }

  /** A call does to the sender exactly its events, and everything queued is sent before it returns; the
      connection remembers a FIN if one was among it. */
  lemma CallIsSenderRun(c: Connection, k: Call)
    requires c.Ok() && c.sender.segmentsOut == []
    ensures Amounts(c, Apply(c, k), Run(c.sender, SenderEvents(c, k)))
  {
    hide Amounts, Run, SenderEvents, Connection.SegmentReceived, Connection.Tick, Connection.Write,
         Connection.EndInputStream, Connection.FillAndSend;
    match k
    case Segment(seg) => SegmentIsSenderRun(c, seg);
    case Tick(ms) => TickIsSenderRun(c, ms);
    case _ => FillingIsSenderRun(c, k);
  }

  lemma FillingIsSenderRun(c: Connection, k: Call)
    requires c.Ok() && c.sender.segmentsOut == [] && !k.Segment? && !k.Tick?
    ensures Amounts(c, Apply(c, k), Run(c.sender, SenderEvents(c, k)))
  {
    hide Run, Sender.FillWindow, Connection.StampAll;
    RunShort(c.sender, SenderEvents(c, k));
  }

  lemma SegmentIsSenderRun(c: Connection, seg: TcpSegment)
    requires c.Ok() && c.sender.segmentsOut == []
    ensures Amounts(c, c.SegmentReceived(seg), Run(c.sender, SenderEvents(c, Call.Segment(seg))))
  {
    hide Run, Sender.AckReceived, Sender.FillWindow, Connection.IsKeepAlive, Connection.StampAll, Connection.Accept,
         Connection.Active, Connection.SegmentReceived, Connection.Send, Step;
    RunShort(c.sender, SenderEvents(c, Call.Segment(seg)));
    SimpleSteps(c.sender);
    SegmentCases(c, seg);
    var c' := c.(sinceLast := 0);
    if !seg.header.rst && c.Active() {
      if c.IsKeepAlive(seg) {
        SendAmounts(c, c'.(sender := c.sender.SendEmpty()));
      } else {
        AcceptIsSenderRun(c, c', seg);
        SendAmounts(c, c'.Accept(seg));
      }
    }
  }

  lemma SimpleSteps(s: Sender)
    requires s.Sane()
    ensures Step(s, SenderRuns.SendEmpty) == s.SendEmpty()
    ensures Step(s, SenderRuns.SetError) == s.(stream := s.stream.Fail())
  {
  }

  lemma SendAmounts(c: Connection, c': Connection)
    requires c'.Ok() && c'.fin == c.fin
    ensures Amounts(c, c'.Send(), c'.sender)
  {
    hide Connection.StampAll;
  }

  lemma TickIsSenderRun(c: Connection, ms: uint64)
    requires c.Ok() && c.sender.segmentsOut == []
    ensures Amounts(c, c.Tick(ms), Run(c.sender, SenderEvents(c, Call.Tick(ms))))
  {
    hide Run, Sender.Tick, Connection.StampAll;
    RunShort(c.sender, SenderEvents(c, Call.Tick(ms)));
  }

  lemma SegmentCases(c: Connection, seg: TcpSegment)
    requires c.Ok()
    ensures c.SegmentReceived(seg) ==
            var c' := c.(sinceLast := 0);
            if seg.header.rst then c'.Report()
            else if !c.Active() then c'
            else if c.IsKeepAlive(seg) then c'.(sender := c.sender.SendEmpty()).Send()
            else c'.Accept(seg).Send()
  {
    hide Connection.Accept, Connection.Send, Receiver.Ackno, Before;
  }

  lemma SegmentReceiver(c: Connection, seg: TcpSegment)
    requires c.Ok()
    ensures c.SegmentReceived(seg).receiver ==
            if seg.header.rst then c.receiver.Fail()
            else if !c.Active() || c.IsKeepAlive(seg) then c.receiver
            else c.receiver.SegmentReceived(seg)
  {
    hide Receiver.SegmentReceived, SenderAnswers, Connection.StampAll, Connection.IsKeepAlive,
         Connection.SegmentReceived, Connection.Active;
    SegmentCases(c, seg);
  }

  lemma TickReceiver(c: Connection, ms: uint64)
    requires c.Ok()
    ensures c.Tick(ms).receiver ==
            if SenderRuns.SetError in SenderEvents(c, Call.Tick(ms)) then c.receiver.Fail() else c.receiver
  {
    hide Sender.Tick, Connection.StampAll;
  }

  lemma AcceptIsSenderRun(c: Connection, c': Connection, seg: TcpSegment)
    requires c.Ok() && c.Active() && !seg.header.rst && !c.IsKeepAlive(seg) && c'.Ok() && c'.sender == c.sender
    ensures c'.Accept(seg).sender == Run(c.sender, SenderEvents(c, Call.Segment(seg)))
    ensures c'.Accept(seg).fin == c'.fin
  {
    hide Run, Sender.AckReceived, Sender.FillWindow, Receiver.SegmentReceived, Connection.IsKeepAlive,
         Connection.Active;
    RunShort(c.sender, SenderEvents(c, Call.Segment(seg)));
  }

  // ----- flags, queue and timer -----

  predicate AnyFin(segs: seq<TcpSegment>)
  {
    exists seg <- segs :: seg.header.fin
  }

  /** A FIN is queued or outstanding only if the sender knows it has sent one, and after the SYN. */
  predicate FinFlow(s: Sender)
  {
    (AnyFin(s.outstanding) || AnyFin(s.segmentsOut) ==> s.finSent) && (s.finSent ==> s.next > 0)
  }

  lemma FillFinFlow(s: Sender)
    requires s.Ready() && FinFlow(s)
    ensures var f := s.FillWindow();
            && FinFlow(f) && (s.finSent ==> f.finSent) && (f.finSent && !s.finSent ==> AnyFin(f.segmentsOut))
            && (AnyFin(s.segmentsOut) ==> AnyFin(f.segmentsOut))
  {
    hide Sender.FillWindow, Sender.NewSegments, Chain;
    FillWindowPartitions(s);
    FillSends(s);
    var f, segs := s.FillWindow(), s.NewSegments();
    if f.finSent && !s.finSent {
      assert segs[|segs| - 1].header.fin;
      assert segs[|segs| - 1] in f.segmentsOut;
    }
    assert forall seg | seg in f.segmentsOut :: seg in s.segmentsOut || seg in segs;
    assert forall seg | seg in f.outstanding :: seg in s.outstanding || seg in segs;
  }

  lemma FillSends(s: Sender)
    requires s.Ready()
    ensures s.finSent ==> s.FillWindow().finSent
    ensures s.FillWindow().finSent && !s.finSent ==> s.NewSegments() != [] && s.FillWindow().next > 0
    ensures s.next <= s.FillWindow().next
  {
  }

  lemma StepFinFlow(s: Sender, e: Event)
    requires s.Sane() && FinFlow(s) && !e.TakeOutput?
    ensures var s' := Step(s, e);
            && FinFlow(s') && (s.finSent ==> s'.finSent) && (s'.finSent && !s.finSent ==> AnyFin(s'.segmentsOut))
            && (AnyFin(s.segmentsOut) ==> AnyFin(s'.segmentsOut))
            && s'.retransmissions <= s.retransmissions + (if e.Tick? then 1 else 0)
  {
    hide Unwrap, Sender.PopAcked, Estimate, Sender.FillWindow;
    match e
    case Fill => FillFinFlow(s); FillRetransmissions(s);
    case Ack(ackno, win) =>
      if Unwrap(ackno, s.isn, s.next) <= s.next {
        var s1 := s.Acknowledge(Unwrap(ackno, s.isn, s.next), win);
        PopFrame(s1);
        PopRetransmissions(s1);
        if s.timerOn {
          FillFinFlow(s1.PopAcked());
          FillRetransmissions(s1.PopAcked());
        }
      }
    case Tick(ms) =>
      if s.timerOn {
        assert s.outstanding[0] in s.outstanding;
      }
    case _ =>
  }

  lemma FillRetransmissions(s: Sender)
    requires s.Ready()
    ensures s.FillWindow().retransmissions <= s.retransmissions
  {
  }

  lemma {:induction false} PopRetransmissions(s: Sender)
    ensures s.PopAcked().retransmissions <= s.retransmissions
    decreases |s.outstanding|
  {
    hide Unwrap;
    if s.PopAcked() != s {
      PopRetransmissions(s.ResetTimer().(outstanding := s.outstanding[1..]));
    }
  }

  /** What holds between any two calls: the sender's queue is drained, the connection and the sender agree on
      whether a FIN was sent, the error flags agree, the timeout follows the back-off law, and a connection
      without error has at most 8 consecutive retransmissions on the counter. */
  predicate Live(c: Connection)
  {
    && c.Ok() && c.sender.segmentsOut == [] && c.fin == c.sender.finSent && FinFlow(c.sender)
    && BackedOff(c.sender) && c.sender.initialRto == c.rtTimeout
    && c.error == c.sender.stream.error == c.receiver.reassembler.output.error
    && c.sender.retransmissions <= 9 && (!c.error ==> c.sender.retransmissions <= 8)
  }

  /** A call sets the error flags exactly on a reset and on the ninth consecutive retransmission. */
  lemma CallErrors(c: Connection, k: Call)
    requires Live(c)
    ensures var c' := Apply(c, k);
            && c'.error == (c.error || SenderRuns.SetError in SenderEvents(c, k))
            && c'.receiver.reassembler.output.error == c'.error && c'.rtTimeout == c.rtTimeout
  {
    hide Step, Sender.AckReceived, Sender.FillWindow, Connection.IsKeepAlive, Connection.StampAll,
         Connection.SegmentReceived, Connection.Tick, BackedOff, FinFlow;
    if k.Segment? {
      SegmentErrors(c, k.seg);
    } else if k.Tick? {
      TickErrors(c, k.ms);
    }
  }

  lemma SegmentErrors(c: Connection, seg: TcpSegment)
    requires Live(c)
    ensures var c' := c.SegmentReceived(seg);
            && c'.error == (c.error || seg.header.rst)
            && c'.receiver.reassembler.output.error == c'.error && c'.rtTimeout == c.rtTimeout
  {
    hide SenderAnswers, Reassembler.Push, Connection.IsKeepAlive, Connection.StampAll, BackedOff, FinFlow, Wrap, Unwrap;
  }

  lemma TickErrors(c: Connection, ms: uint64)
    requires Live(c)
    ensures var c' := c.Tick(ms);
            && c'.error == (c.error || SenderRuns.SetError in SenderEvents(c, Call.Tick(ms)))
            && c'.receiver.reassembler.output.error == c'.error && c'.rtTimeout == c.rtTimeout
  {
    hide Sender.Tick, Connection.StampAll, BackedOff, FinFlow;
  }

  /** What a short run of events, none of which empties the queue, does to the flags and the timer. */
  lemma {:induction false} RunFlags(s: Sender, es: seq<Event>)
    requires s.Sane() && FinFlow(s) && BackedOff(s) && SenderRuns.TakeOutput !in es
    ensures var s' := Run(s, es);
            && FinFlow(s') && BackedOff(s') && s'.initialRto == s.initialRto
            && (s.finSent ==> s'.finSent) && (s'.finSent && !s.finSent ==> AnyFin(s'.segmentsOut))
            && s'.stream.error == (s.stream.error || SenderRuns.SetError in es)
    decreases |es|
  {
    hide Step, FinFlow, BackedOff;
    if es != [] {
      var before, e := es[..|es| - 1], es[|es| - 1];
      assert es == before + [e];
      RunFlags(s, before);
      StepFinFlow(Run(s, before), e);
      StepBacksOff(Run(s, before), e);
      StepError(Run(s, before), e);
    }
  }

  lemma StepError(s: Sender, e: Event)
    requires s.Sane()
    ensures Step(s, e).stream.error == (s.stream.error || e == SenderRuns.SetError)
  {
    hide Unwrap, Sender.PopAcked, Estimate, Sender.NewSegments;
    if e.Ack? && Unwrap(e.ackno, s.isn, s.next) <= s.next {
      PopFrame(s.Acknowledge(Unwrap(e.ackno, s.isn, s.next), e.win));
    }
  }

  lemma CallRetransmissions(c: Connection, k: Call)
    requires Live(c)
    ensures var s, es := Run(c.sender, SenderEvents(c, k)), SenderEvents(c, k);
            s.retransmissions <= 9 && (!c.error && SenderRuns.SetError !in es ==> s.retransmissions <= 8)
  {
    hide Step, Run, FinFlow, BackedOff, Connection.IsKeepAlive;
    var es := SenderEvents(c, k);
    RunShort(c.sender, es);
    if es != [] {
      StepFinFlow(c.sender, es[0]);
      if |es| == 2 {
        StepFinFlow(Step(c.sender, es[0]), es[1]);
      }
    }
  }

  lemma CallKeepsLive(c: Connection, k: Call)
    requires Live(c)
    ensures Live(Apply(c, k))
  {
    hide Apply, Run, FinFlow, BackedOff, SenderEvents;
    assert SenderRuns.TakeOutput !in SenderEvents(c, k) by { NeverTakes(c, k); }
    var s := Run(c.sender, SenderEvents(c, k));
    CallIsSenderRun(c, k);
    CallErrors(c, k);
    RunFlags(c.sender, SenderEvents(c, k));
    CallRetransmissions(c, k);
    FlagsIgnoreQueue(s);
  }

  lemma NeverTakes(c: Connection, k: Call)
    requires c.Ok()
    ensures SenderRuns.TakeOutput !in SenderEvents(c, k)
  {
    hide Step;
  }

  lemma FlagsIgnoreQueue(s: Sender)
    requires FinFlow(s) && BackedOff(s)
    ensures FinFlow(s.(segmentsOut := [])) && BackedOff(s.(segmentsOut := []))
    ensures AnyFin(s.segmentsOut) ==> s.finSent
  {
  }
}
