/** What holds in every run of a connection. */
module ConnectionFacts {
  import opened Words
  import opened WrappingIntegers
  import opened ByteStreams
  import opened StreamReassemblers
  import opened TcpSegments
  import opened TcpReceivers
  import opened TcpSenders
  import opened SenderFacts
  import opened SenderRuns
  import opened SenderProgress
  import opened TcpConnections
  import opened TcpStates
  import opened ConnectionRuns
  import opened ConnectionRules

  lemma FreshIsLive(rtTimeout: uint16, recvCapacity: nat, sendCapacity: nat, isn: uint32)
    requires recvCapacity >= 1
    ensures Live(Fresh(rtTimeout, recvCapacity, sendCapacity, isn))
  {
  }

  lemma {:induction false} AlwaysLive(c: Connection, ks: seq<Call>)
    requires Live(c)
    ensures Live(ApplyAll(c, ks))
    decreases |ks|
  {
    hide Apply, Live;
    assert c.Ok() by { LiveOk(c); }
    if ks != [] {
      AlwaysLive(c, ks[..|ks| - 1]);
      CallKeepsLive(ApplyAll(c, ks[..|ks| - 1]), ks[|ks| - 1]);
    }
  }

  lemma LiveOk(c: Connection)
    requires Live(c)
    ensures c.Ok()
  {
  }

  // ----- the retransmission limit -----

  /** In every run: the timeout is exactly the configured one times 2^n after n consecutive retransmissions
      (no 32-bit overflow), and n is at most 8 while the connection is active. */
  lemma TimeoutLaw(rtTimeout: uint16, recvCapacity: nat, sendCapacity: nat, isn: uint32, ks: seq<Call>)
    requires recvCapacity >= 1
    ensures var c := ApplyAll(Fresh(rtTimeout, recvCapacity, sendCapacity, isn), ks);
            && c.sender.rto == rtTimeout * Pow2(c.sender.retransmissions)
            && (c.Active() ==> c.sender.retransmissions <= 8)
            && c.sender.segmentsOut == [] && c.fin == c.sender.finSent
  {
    hide ApplyAll, Pow2;
    var c0 := Fresh(rtTimeout, recvCapacity, sendCapacity, isn);
    FreshIsLive(rtTimeout, recvCapacity, sendCapacity, isn);
    AlwaysLive(c0, ks);
    RunTimeout(c0, ks);
    SmallTimeout(rtTimeout, ApplyAll(c0, ks).sender.retransmissions);
  }

  lemma {:induction false} RunTimeout(c: Connection, ks: seq<Call>)
    requires Live(c)
    ensures ApplyAll(c, ks).rtTimeout == c.rtTimeout
    decreases |ks|
  {
    hide Apply, Live;
    assert c.Ok() by { LiveOk(c); }
    if ks != [] {
      AlwaysLive(c, ks[..|ks| - 1]);
      RunTimeout(c, ks[..|ks| - 1]);
      CallErrors(ApplyAll(c, ks[..|ks| - 1]), ks[|ks| - 1]);
    }
  }

  lemma SmallTimeout(rtTimeout: uint16, n: nat)
    requires n <= 9
    ensures (rtTimeout * Pow2(n)) % 0x1_0000_0000 == rtTimeout * Pow2(n)
  {
    Pow2Mono(n, 9);
    assert Pow2(9) == 512;
    MulMono(rtTimeout, Pow2(n), 512);
  }

  lemma MulMono(a: nat, x: nat, y: nat)
    requires x <= y
    ensures 0 <= a * x <= a * y
  {
  }

  // ----- closed is final -----

  /** Filling the window of a sender that has sent its FIN and holds no bytes does nothing. */
  lemma NothingLeftToSend(s: Sender)
    requires s.Sane() && s.finSent && s.next > 0 && s.stream.Buffer() == []
    ensures s.FillWindow() == s
  {
    assert s.NewSegments() == [];
    s.SentNone();
  }

  /** A connection that is not active stays so under every call, and only `connect`, and only after an error,
      can still make it emit a segment. */
  lemma ClosedStaysClosed(c: Connection, k: Call)
    requires Live(c) && !c.Active()
    ensures !Apply(c, k).Active()
    ensures (k.Connect? && c.error) || k.TakeOutput? || Apply(c, k).segmentsOut == c.segmentsOut
  {
    hide Sender.FillWindow, Connection.Accept, Connection.IsKeepAlive, Connection.Tick, BackedOff;
    if k.Tick? {
      assert c.Tick(k.ms) == c by { InactiveTick(c, k.ms); }
    }
    if k.Connect? && !c.error {
      NothingLeftToSend(c.sender);
      SendNothing(c);
    }
  }

  lemma InactiveTick(c: Connection, ms: uint64)
    requires c.Ok() && !c.Active()
    ensures c.Tick(ms) == c
  {
    hide Connection.Send, Sender.Tick, Connection.Prereqs;
  }

  lemma {:induction false} ClosedIsFinal(c: Connection, ks: seq<Call>)
    requires Live(c) && !c.Active()
    ensures !ApplyAll(c, ks).Active()
    ensures (forall k <- ks :: !k.Connect? && !k.TakeOutput?) ==> ApplyAll(c, ks).segmentsOut == c.segmentsOut
    decreases |ks|
  {
    hide Apply, Live, Connection.Active;
    assert c.Ok() by { LiveOk(c); }
    if ks != [] {
      AlwaysLive(c, ks[..|ks| - 1]);
      ClosedIsFinal(c, ks[..|ks| - 1]);
      ClosedStaysClosed(ApplyAll(c, ks[..|ks| - 1]), ks[|ks| - 1]);
    }
  }

  // ----- lingering -----

  /** A connection that still lingers ends without an error exactly at a tick that finds both streams finished
      and brings the time since the last segment to ten times the timeout. */
  lemma LingeringIsExact(c: Connection, k: Call)
    requires Live(c) && c.Active() && c.linger
    ensures var c' := Apply(c, k);
            !c'.error ==> (!c'.Active() <==>
              k.Tick? && Finished(c) && (c.sinceLast + k.ms) % 0x1_0000_0000_0000_0000 >= 10 * c.rtTimeout)
  {
    hide Sender.FillWindow, Connection.Accept, Connection.IsKeepAlive, Connection.Tick, BackedOff;
    match k
    case Segment(seg) => SegmentLingers(c, seg);
    case Tick(ms) => TickLingers(c, ms);
    case _ =>
  }

  /** A FIN that a segment makes the sender send is in flight when the call returns. */
  lemma NewFinInFlight(s: Sender, h: TcpHeader)
    requires s.Sane() && !s.finSent
    ensures var s' := SenderHears(s, h); s'.finSent ==> s'.InFlight() >= 1
  {
    hide Unwrap, Sender.PopAcked, Estimate, Sender.NewSegments;
    if h.ack && Unwrap(h.ackno, s.isn, s.next) <= s.next {
      PopFrame(s.Acknowledge(Unwrap(h.ackno, s.isn, s.next), h.win));
    }
  }

  lemma SegmentLingers(c: Connection, seg: TcpSegment)
    requires Live(c) && c.Active() && c.linger
    ensures c.SegmentReceived(seg).error || c.SegmentReceived(seg).Active()
  {
    hide Connection.Accept, Connection.Send, Connection.IsKeepAlive, BackedOff, Connection.Prereqs;
    if seg.header.rst {
      assert c.SegmentReceived(seg).error by { ResetIsError(c, seg); }
    } else {
      SegmentCases(c, seg);
      var c' := c.(sinceLast := 0);
      SendKeepsLingering(c'.(sender := c.sender.SendEmpty()));
      AcceptLingers(c', seg);
    }
  }

  lemma ResetIsError(c: Connection, seg: TcpSegment)
    requires c.Ok() && seg.header.rst
    ensures c.SegmentReceived(seg).error
  {
    hide Connection.Accept, Connection.Send;
  }

  lemma SendKeepsLingering(c: Connection)
    requires c.Ok() && !c.error && c.linger
    ensures c.Send().Active()
  {
  }

  lemma AcceptLingers(c: Connection, seg: TcpSegment)
    requires Live(c) && !c.error && c.linger
    ensures c.Accept(seg).Send().Active()
  {
    hide SenderHears, Receiver.SegmentReceived, BackedOff, Connection.Stamp;
    if !c.fin {
      NewFinInFlight(c.sender, seg.header);
      FinFlowOfAnswer(c.sender, seg);
    }
  }

  lemma FinFlowOfAnswer(s: Sender, seg: TcpSegment)
    requires s.Sane() && FinFlow(s)
    ensures AnyFin(SenderAnswers(s, seg).segmentsOut) ==> SenderHears(s, seg.header).finSent
  {
    hide Sender.AckReceived, Sender.FillWindow, FinFlow;
    var e := if seg.header.ack then SenderRuns.Ack(seg.header.ackno, seg.header.win) else SenderRuns.Fill;
    StepFinFlow(s, e);
    StepFinFlow(Step(s, e), SenderRuns.SendEmpty);
    FinFlowMeans(Step(s, e));
    FinFlowMeans(Step(Step(s, e), SenderRuns.SendEmpty));
  }

  lemma FinFlowMeans(s: Sender)
    requires FinFlow(s)
    ensures AnyFin(s.segmentsOut) ==> s.finSent
  {
  }

  lemma TickLingers(c: Connection, ms: uint64)
    requires Live(c) && c.Active() && c.linger
    ensures var c' := c.Tick(ms);
            !c'.error ==>
              (!c'.Active() <==> Finished(c) && (c.sinceLast + ms) % 0x1_0000_0000_0000_0000 >= 10 * c.rtTimeout)
  {
    hide Connection.StampAll, BackedOff;
  }

  /** Milliseconds ticked in a run. */
  function TickedIn(ks: seq<Call>): nat
    decreases |ks|
  {
    if ks == [] then 0 else TickedIn(ks[..|ks| - 1]) + (if ks[|ks| - 1].Tick? then ks[|ks| - 1].ms else 0)
  }

  lemma AddInWord(a: nat, b: nat)
    ensures (a % 0x1_0000_0000_0000_0000 + b) % 0x1_0000_0000_0000_0000 == (a + b) % 0x1_0000_0000_0000_0000
  {
    var q, r := a / 0x1_0000_0000_0000_0000, a % 0x1_0000_0000_0000_0000;
    var q', r' := (r + b) / 0x1_0000_0000_0000_0000, (r + b) % 0x1_0000_0000_0000_0000;
    DivModUnique(a + b, 0x1_0000_0000_0000_0000, q + q', r');
  }

  lemma CallSinceLast(c: Connection, k: Call)
    requires Live(c) && c.Active() && !k.Segment?
    ensures Apply(c, k).sinceLast == (c.sinceLast + if k.Tick? then k.ms else 0) % 0x1_0000_0000_0000_0000
  {
    hide Sender.FillWindow, Sender.Tick, Connection.StampAll, BackedOff;
  }

  /** While a connection is active and no segment arrives, the clock of the lingering rule is the sum of the ticks. */
  lemma {:induction false} SinceLastIsSum(c: Connection, ks: seq<Call>)
    requires Live(c) && ApplyAll(c, ks).Active() && forall k <- ks :: !k.Segment?
    ensures ApplyAll(c, ks).sinceLast == (c.sinceLast + TickedIn(ks)) % 0x1_0000_0000_0000_0000
    decreases |ks|
  {
    hide Apply, Connection.Active, Live;
    assert c.Ok() by { LiveOk(c); }
    if ks != [] {
      var before, k := ks[..|ks| - 1], ks[|ks| - 1];
      AlwaysLive(c, before);
      if !ApplyAll(c, before).Active() {
        ClosedStaysClosed(ApplyAll(c, before), k);
      }
      SinceLastIsSum(c, before);
      CallSinceLast(ApplyAll(c, before), k);
      AddInWord(c.sinceLast + TickedIn(before), if k.Tick? then k.ms else 0);
    }
  }

  lemma StaysLingering(c: Connection, k: Call)
    requires Live(c) && c.Active() && c.linger && !k.Segment?
    ensures var c' := Apply(c, k); !c'.error && c'.Active() ==> c'.linger
  {
    hide Sender.FillWindow, Sender.Tick, Connection.StampAll, BackedOff;
  }

  /** After these calls, the next is a tick that finds both streams finished and the waiting time over. */
  predicate TimeIsUp(c: Connection, before: seq<Call>, k: Call)
    requires c.Ok()
  {
    && k.Tick? && Finished(ApplyAll(c, before))
    && (c.sinceLast + TickedIn(before) + k.ms) % 0x1_0000_0000_0000_0000 >= 10 * c.rtTimeout
  }

  /** Some call of the run was such a tick. */
  predicate TimeWasUp(c: Connection, ks: seq<Call>)
    requires c.Ok()
    decreases |ks|
  {
    ks != [] && (TimeWasUp(c, ks[..|ks| - 1]) || TimeIsUp(c, ks[..|ks| - 1], ks[|ks| - 1]))
  }

  lemma NextCallEnds(c: Connection, before: seq<Call>, k: Call)
    requires Live(c) && (forall j <- before :: !j.Segment?) && !k.Segment?
    requires var b := ApplyAll(c, before); b.Active() && b.linger && b.rtTimeout == c.rtTimeout && !Apply(b, k).error
    ensures !Apply(ApplyAll(c, before), k).Active() <==> TimeIsUp(c, before, k)
  {
    hide Apply, ApplyAll, Live, Connection.Active, Finished, TickedIn;
    assert c.Ok() by { LiveOk(c); }
    AlwaysLive(c, before);
    SinceLastIsSum(c, before);
    LingeringIsExact(ApplyAll(c, before), k);
    if k.Tick? {
      AddInWord(c.sinceLast + TickedIn(before), k.ms);
    }
  }

  /** Lingering over a run.  As long as no segment arrives, a connection that lingers has ended without an error
      exactly if there was a tick that found both streams finished and brought the ticks to 10 times the timeout. */
  lemma {:induction false} LingeringRun(c: Connection, ks: seq<Call>)
    requires Live(c) && c.Active() && c.linger && (forall k <- ks :: !k.Segment?) && !ApplyAll(c, ks).error
    ensures var c' := ApplyAll(c, ks);
            (!c'.Active() <==> TimeWasUp(c, ks)) && (c'.Active() ==> c'.linger) && c'.rtTimeout == c.rtTimeout
    decreases |ks|
  {
    hide Apply, Live, Connection.Active, TimeIsUp, SenderEvents;
    assert c.Ok() by { LiveOk(c); }
    if ks != [] {
      var before, k := ks[..|ks| - 1], ks[|ks| - 1];
      var b := ApplyAll(c, before);
      AlwaysLive(c, before);
      CallErrors(b, k);
      LingeringRun(c, before);
      if b.Active() {
        StaysLingering(b, k);
        NextCallEnds(c, before, k);
      } else {
        ClosedStaysClosed(b, k);
      }
    }
  }

  /** In particular after the last segment received: what counts are the ticks since then. */
  lemma LingeringAfterLastSegment(c: Connection, seg: TcpSegment, ks: seq<Call>)
    requires Live(c) && forall k <- ks :: !k.Segment?
    requires var c' := c.SegmentReceived(seg); c'.Active() && c'.linger && !ApplyAll(c', ks).error
    ensures var c' := c.SegmentReceived(seg); c'.sinceLast == 0 && (!ApplyAll(c', ks).Active() <==> TimeWasUp(c', ks))
  {
    hide Live, ApplyAll, Connection.Active, Connection.SegmentReceived, TimeWasUp;
    assert c.Ok() by { LiveOk(c); }
    CallKeepsLive(c, Call.Segment(seg));
    SegmentRestartsClock(c, seg);
    LingeringRun(c.SegmentReceived(seg), ks);
  }

  lemma SegmentRestartsClock(c: Connection, seg: TcpSegment)
    requires c.Ok()
    ensures c.SegmentReceived(seg).sinceLast == 0
  {
    hide Connection.SegmentReceived, Connection.Active, Connection.IsKeepAlive, Receiver.SegmentReceived, SenderAnswers,
         Connection.StampAll;
    SegmentCases(c, seg);
  }

  // ----- state progress -----

  /** The order of the states in terms of the numbers they are computed from. */
  lemma SummaryIs(s: Sender)
    requires s.Sane() && Numbered(s)
    ensures SummarizeSender(s) ==
            if s.stream.error then SenderError else if s.next == 0 then Closed else if s.acked == 0 then SynSent
            else if !s.finSent then SynAcked else if s.acked < s.next then FinSent else FinAcked
  {
  }

  /** No event moves the sender's summary back, and an error stays, as long as no byte is accepted after the FIN was
      sent. */
  lemma SenderSummaryAdvances(s: Sender, e: Event)
    requires s.Sane() && Numbered(s) && (e.Write? ==> !WritesLate(s, e.data))
    ensures SenderRank(SummarizeSender(s)) <= SenderRank(SummarizeSender(Step(s, e))) && Numbered(Step(s, e))
  {
    hide Step, SummarizeSender, Numbered;
    StepProgress(s, e);
    SummaryIs(s);
    SummaryIs(Step(s, e));
  }

  /** The one thing asked of the application: no byte is accepted after the FIN was sent. */
  predicate NoLateWrite(c: Connection, k: Call)
    requires c.Ok()
  {
    k.Write? ==> !WritesLate(c.sender, k.data)
  }

  predicate NeverWritesLate(c: Connection, ks: seq<Call>)
    requires c.Ok()
    decreases |ks|
  {
    ks == [] || (NeverWritesLate(c, ks[..|ks| - 1]) && NoLateWrite(ApplyAll(c, ks[..|ks| - 1]), ks[|ks| - 1]))
  }

  lemma CallAdvancesSender(c: Connection, k: Call)
    requires Live(c) && Numbered(c.sender) && NoLateWrite(c, k)
    ensures var c' := Apply(c, k);
            && SenderRank(SummarizeSender(c.sender)) <= SenderRank(SummarizeSender(c'.sender))
            && Numbered(c'.sender)
  {
    hide Apply, Run, Step, SummarizeSender, Numbered, BackedOff, FinFlow, Connection.IsKeepAlive, Connection.Active;
    var es := SenderEvents(c, k);
    CallIsSenderRun(c, k);
    RunShort(c.sender, es);
    if es != [] {
      SenderSummaryAdvances(c.sender, es[0]);
      if |es| == 2 {
        SenderSummaryAdvances(Step(c.sender, es[0]), es[1]);
      }
    }
    SummaryIgnoresQueue(Run(c.sender, es));
  }

  lemma SummaryIgnoresQueue(s: Sender)
    requires s.Sane()
    ensures SummarizeSender(s.(segmentsOut := [])) == SummarizeSender(s)
    ensures Numbered(s.(segmentsOut := [])) == Numbered(s)
  {
  }

  lemma SegmentAdvancesReceiver(r: Receiver, seg: TcpSegment)
    requires r.Ok()
    ensures ReceiverRank(SummarizeReceiver(r)) <= ReceiverRank(SummarizeReceiver(r.SegmentReceived(seg)))
  {
    hide Unwrap, Wrap, Stored, RunEnd, RunBytes, From;
  }

  lemma CallAdvancesReceiver(c: Connection, k: Call)
    requires c.Ok()
    ensures ReceiverRank(SummarizeReceiver(c.receiver)) <= ReceiverRank(SummarizeReceiver(Apply(c, k).receiver))
  {
    hide Connection.SegmentReceived, Connection.Tick, Sender.FillWindow, Connection.StampAll, Receiver.SegmentReceived,
         Connection.IsKeepAlive, Connection.Active, SenderEvents;
    match k
    case Segment(seg) =>
      SegmentReceiver(c, seg);
      SegmentAdvancesReceiver(c.receiver, seg);
    case Tick(ms) => TickReceiver(c, ms);
    case _ =>
  }

  /** In every run in which no byte is accepted after the FIN was sent, the summaries of both halves only move forward
      in the order of RFC 793, and an error is final. */
  lemma {:induction false} StatesOnlyAdvance(c: Connection, ks: seq<Call>)
    requires Live(c) && Numbered(c.sender) && NeverWritesLate(c, ks)
    ensures var c' := ApplyAll(c, ks);
            && SenderRank(SummarizeSender(c.sender)) <= SenderRank(SummarizeSender(c'.sender))
            && ReceiverRank(SummarizeReceiver(c.receiver)) <= ReceiverRank(SummarizeReceiver(c'.receiver))
            && Live(c') && Numbered(c'.sender)
    decreases |ks|
  {
    hide Apply, Numbered, SummarizeSender, SummarizeReceiver, Live;
    assert c.Ok() by { LiveOk(c); }
    if ks != [] {
      var before, k := ks[..|ks| - 1], ks[|ks| - 1];
      StatesOnlyAdvance(c, before);
      CallAdvancesSender(ApplyAll(c, before), k);
      CallAdvancesReceiver(ApplyAll(c, before), k);
      CallKeepsLive(ApplyAll(c, before), k);
    }
  }

  /** Why the application must not write after the FIN.  A write moves the summary back exactly when the FIN was
      sent, the SYN acknowledged, and at least one byte fits: then "FIN sent" and "FIN acknowledged" both turn
      into "stream ongoing". */
  lemma WriteMovesBackIff(s: Sender, data: seq<byte>)
    requires s.Sane() && Numbered(s)
    ensures SenderRank(SummarizeSender(Step(s, SenderRuns.Write(data)))) < SenderRank(SummarizeSender(s)) <==>
            !s.stream.error && s.finSent && s.acked > 0 && data != [] && s.stream.Remaining() > 0
  {
    SummaryIs(s);
  }

  lemma WriteAfterEndExample()
    ensures var fin := TcpSenders.Segment(1, 0, false, true, []);
            var s := Sender(0, 9, 10, [], [fin], true, 1000, 1000, 0, 0, Stream(10, [], 0, true, false), true, 1, 2);
            && s.Sane() && Numbered(s) && SummarizeSender(s) == FinSent
            && SummarizeSender(Step(s, SenderRuns.Write([7]))) == SynAcked
  {
  }

  // ----- no silent stall -----

  /** The window estimate is zero whenever something that could be sent after the SYN has not been. */
  predicate Filled(s: Sender)
    requires s.Sane()
  {
    s.next > 0 && (s.stream.read < |s.stream.history| || (s.stream.ended && !s.finSent)) ==> s.window == 0
  }

  lemma FillFills(s: Sender)
    requires s.Ready()
    ensures var f := s.FillWindow();
            f.next > 0 && (f.stream.read < |f.stream.history| || (f.stream.ended && !f.finSent)) ==> f.window == 0
  {
    hide Sender.FillWindow, Sender.NewSegments, Chain, Payloads;
    FillWindowPartitions(s);
  }

  /** The early return of `ack_received` cannot leave anything behind: with the timer off nothing was waiting. */
  lemma AckFills(s: Sender, ackno: uint32, win: uint16)
    requires Inv(s) && Filled(s)
    ensures s.AckReceived(ackno, win).Sane() && Filled(s.AckReceived(ackno, win))
  {
    hide Unwrap, Sender.PopAcked, Estimate, Sender.FillWindow, Queue;
    AckKeepsSane(s, ackno, win);
    var a := Unwrap(ackno, s.isn, s.next);
    if a <= s.next && s.timerOn {
      var s1 := s.Acknowledge(a, win);
      PopFrame(s1);
      FillFills(s1.PopAcked());
    }
  }

  /** What is asked of the run at a segment that carries an acknowledgment: absolute numbers are 2^32 short of
      overflowing. */
  predicate NumbersFitAt(c: Connection, k: Call)
  {
    k.Segment? && k.seg.header.ack ==> c.sender.next <= 0xFFFF_FFFF_0000_0000
  }

  /** Every event but a write or the end of input, and both of them followed by a fill, leaves nothing behind. */
  lemma StepFills(s: Sender, e: Event)
    requires Inv(s) && Filled(s)
    ensures !e.Write? && !e.EndInput? ==> Filled(Step(s, e))
    ensures Filled(Step(Step(s, e), SenderRuns.Fill))
  {
    hide Sender.AckReceived, Sender.FillWindow, Sender.Tick, Queue;
    FillFills(Step(s, e));
    match e
    case Fill => FillFills(s);
    case Ack(ackno, win) => AckFills(s, ackno, win);
    case Tick(ms) => TickFrame(s, ms);
    case _ =>
  }

  lemma CallKeepsFilled(c: Connection, k: Call)
    requires Live(c) && Inv(c.sender) && Filled(c.sender) && NumbersFitAt(c, k)
    ensures var c' := Apply(c, k); Inv(c'.sender) && Filled(c'.sender)
  {
    hide Apply, Run, Step, Filled, Inv, BackedOff, FinFlow, Connection.IsKeepAlive, Connection.Active;
    var es := SenderEvents(c, k);
    CallIsSenderRun(c, k);
    RunShort(c.sender, es);
    if es != [] {
      StepKeepsInv(c.sender, es[0]);
      StepFills(c.sender, es[0]);
      if |es| == 2 {
        StepKeepsInv(Step(c.sender, es[0]), es[1]);
        if !es[1].Fill? {
          StepFills(Step(c.sender, es[0]), es[1]);
        }
      }
    }
    InvIgnoresQueue(Run(c.sender, es));
    FilledIgnoresQueue(Run(c.sender, es));
  }

  lemma FilledIgnoresQueue(s: Sender)
    requires s.Sane()
    ensures Filled(s.(segmentsOut := [])) == Filled(s)
  {
  }

  predicate NumbersFitInRun(c: Connection, ks: seq<Call>)
    requires c.Ok()
    decreases |ks|
  {
    ks == [] || (NumbersFitInRun(c, ks[..|ks| - 1]) && NumbersFitAt(ApplyAll(c, ks[..|ks| - 1]), ks[|ks| - 1]))
  }

  lemma {:induction false} AlwaysFilled(c: Connection, ks: seq<Call>)
    requires Live(c) && Inv(c.sender) && Filled(c.sender) && NumbersFitInRun(c, ks)
    ensures Inv(ApplyAll(c, ks).sender) && Filled(ApplyAll(c, ks).sender)
    decreases |ks|
  {
    hide Apply, Inv, Filled, Live, NumbersFitAt;
    assert c.Ok() by { LiveOk(c); }
    if ks != [] {
      var before, k := ks[..|ks| - 1], ks[|ks| - 1];
      AlwaysLive(c, before);
      AlwaysFilled(c, before);
      CallKeepsFilled(ApplyAll(c, before), k);
    }
  }

  /** No silent stall: after every call of every run, if the SYN is out and anything is still unsent, then the window
      is used up, something is in flight, the timer runs, and a tick that reaches the timeout sends the front
      of the queue again. */
  lemma NoSilentStall(rtTimeout: uint16, recvCapacity: nat, sendCapacity: nat, isn: uint32, ks: seq<Call>, ms: uint64)
    requires recvCapacity >= 1 && NumbersFitInRun(Fresh(rtTimeout, recvCapacity, sendCapacity, isn), ks)
    ensures var s := ApplyAll(Fresh(rtTimeout, recvCapacity, sendCapacity, isn), ks).sender;
            s.next > 0 && (s.stream.read < |s.stream.history| || (s.stream.ended && !s.finSent)) ==>
              && s.window == 0 && s.InFlight() >= 1 && s.timerOn && s.outstanding != []
              && (s.rto <= s.elapsed + ms < 0x1_0000_0000_0000_0000 ==> s.Tick(ms).segmentsOut == [s.outstanding[0]])
  {
    hide ApplyAll, NumbersFitInRun, Chain, TotalLength, BackedOff, FinFlow;
    var c := Fresh(rtTimeout, recvCapacity, sendCapacity, isn);
    FreshIsLive(rtTimeout, recvCapacity, sendCapacity, isn);
    assert Inv(c.sender) by { InitialInv(sendCapacity, rtTimeout, isn); }
    AlwaysFilled(c, ks);
    AlwaysLive(c, ks);
    var s := ApplyAll(c, ks).sender;
    RetransmissionIsFront(s, ms);
  }
}
