/** What a connection puts on the wire. */
module ConnectionOutput {
  import opened Words
  import opened WrappingIntegers
  import opened TcpSegments
  import opened TcpReceivers
  import opened TcpSenders
  import opened SenderRuns
  import opened TcpConnections
  import opened ConnectionRuns
  import opened ConnectionRules

  // ----- a call's output -----

  /** What leaves during a call is what its sender events queued, stamped with the acknowledgment and window that
      the receiver has at the end of the call. */
  lemma CallEmits(c: Connection, k: Call)
    requires c.Ok() && c.sender.segmentsOut == [] && !k.TakeOutput?
    ensures Apply(c, k).segmentsOut ==
            c.segmentsOut + Apply(c, k).StampAll(Run(c.sender, SenderEvents(c, k)).segmentsOut)
  {
    hide Amounts;
    var s := Run(c.sender, SenderEvents(c, k));
    if k.Segment? {
      SegmentEmits(c, k.seg);
    } else if k.Tick? {
      TickEmits(c, k.ms);
    } else {
      FillingEmits(c, k);
    }
  }

  lemma SendEmits(c: Connection)
    requires c.Ok()
    ensures c.Send().segmentsOut == c.segmentsOut + c.Send().StampAll(c.sender.segmentsOut)
  {
    hide Connection.Stamp;
    var q := c.sender.segmentsOut;
    forall seg | seg in q
      ensures c.Send().Stamp(seg) == c.Stamp(seg)
    {
      StampDepends(c, c.Send(), seg);
    }
    assert c.StampAll(q) == c.Send().StampAll(q);
  }

  lemma EmitsNothing(c: Connection)
    requires c.Ok()
    ensures c.segmentsOut + c.StampAll([]) == c.segmentsOut
  {
  }

  lemma FillingEmits(c: Connection, k: Call)
    requires c.Ok() && c.sender.segmentsOut == [] && !k.TakeOutput? && !k.Segment? && !k.Tick?
    ensures Apply(c, k).segmentsOut ==
            c.segmentsOut + Apply(c, k).StampAll(Run(c.sender, SenderEvents(c, k)).segmentsOut)
  {
    hide Run, Sender.FillWindow, Connection.StampAll, Connection.Send;
    RunShort(c.sender, SenderEvents(c, k));
    EmitsNothing(Apply(c, k));
    match k
    case Write(data) =>
      if c.Active() {
        var c1 := c.(sender := c.sender.(stream := c.sender.stream.Write(data)));
        FillKeepsSane(c1.sender);
        SendEmits(c1.(sender := c1.sender.FillWindow()));
      }
    case EndInput =>
      if c.Active() {
        var c1 := c.(sender := c.sender.(stream := c.sender.stream.End()));
        FillKeepsSane(c1.sender);
        SendEmits(c1.(sender := c1.sender.FillWindow()));
      }
    case Connect =>
      FillKeepsSane(c.sender);
      SendEmits(c.(sender := c.sender.FillWindow()));
    case _ =>
  }

  lemma TickEmits(c: Connection, ms: uint64)
    requires c.Ok() && c.sender.segmentsOut == []
    ensures c.Tick(ms).segmentsOut ==
            c.segmentsOut + c.Tick(ms).StampAll(Run(c.sender, SenderEvents(c, Call.Tick(ms))).segmentsOut)
  {
    hide Run, Sender.Tick, Connection.StampAll, Connection.Send;
    RunShort(c.sender, SenderEvents(c, Call.Tick(ms)));
    EmitsNothing(c);
    if c.Active() {
      var c1 := c.Age(ms).AbortIfTooMany();
      SendEmits(if c1.Prereqs() && c1.sinceLast >= 10 * c.rtTimeout then c1.(linger := false) else c1);
    }
  }

  lemma SegmentEmits(c: Connection, seg: TcpSegment)
    requires c.Ok() && c.sender.segmentsOut == []
    ensures c.SegmentReceived(seg).segmentsOut ==
            c.segmentsOut +
            c.SegmentReceived(seg).StampAll(Run(c.sender, SenderEvents(c, Call.Segment(seg))).segmentsOut)
  {
    hide Run, Sender.AckReceived, Sender.FillWindow, Connection.IsKeepAlive, Connection.StampAll, Connection.Accept,
         Connection.Send;
    RunShort(c.sender, SenderEvents(c, Call.Segment(seg)));
    EmitsNothing(c.SegmentReceived(seg));
    if !seg.header.rst && c.Active() {
      SegmentCases(c, seg);
      var c1 := c.(sinceLast := 0);
      if c.IsKeepAlive(seg) {
        SendEmits(c1.(sender := c.sender.SendEmpty()));
      } else {
        AcceptIsSenderRun(c, c1, seg);
        AcceptOutput(c1, seg);
        SendEmits(c1.Accept(seg));
      }
    }
  }

  lemma AcceptOutput(c: Connection, seg: TcpSegment)
    requires c.Ok()
    ensures c.Accept(seg).segmentsOut == c.segmentsOut
  {
    hide SenderAnswers, Receiver.SegmentReceived;
  }

  /** What a stamped segment says: the data of the sender, the acknowledgment and window of the receiver (the window
      clamped to 16 bits), and whether the connection has failed. */
  lemma StampMeans(c: Connection, seg: TcpSegment)
    requires c.Ok()
    ensures var t := c.Stamp(seg);
            && t.payload == seg.payload
            && t.header == seg.header.(ack := t.header.ack, ackno := t.header.ackno, win := t.header.win,
                                       rst := t.header.rst)
            && t.header.rst == c.error && t.header.win == Min(c.receiver.WindowSize(), 0xFFFF)
            && (c.receiver.isSyn ==> t.header.ack && t.header.ackno == Wrap(c.receiver.AckPosition(), c.receiver.isn))
            && (!c.receiver.isSyn ==> t.header.ack == seg.header.ack && t.header.ackno == seg.header.ackno)
  {
    hide Wrap, Receiver.AckPosition;
  }

  /** A segment that occupies sequence numbers, and a keep-alive, is answered before the call returns: at least one
      segment leaves, and every segment that leaves carries the acknowledgment the receiver has reached by then. */
  lemma SegmentsAreAnswered(c: Connection, seg: TcpSegment)
    requires Live(c) && c.Active() && !seg.header.rst && (seg.Length() != 0 || IsProbe(c, seg))
    ensures var c' := c.SegmentReceived(seg);
            && |c.segmentsOut| < |c'.segmentsOut| && c'.segmentsOut[..|c.segmentsOut|] == c.segmentsOut
            && forall i :: |c.segmentsOut| <= i < |c'.segmentsOut| && c'.receiver.isSyn ==>
                 && c'.segmentsOut[i].header.ack
                 && c'.segmentsOut[i].header.ackno == Wrap(c'.receiver.AckPosition(), c'.receiver.isn)
                 && c'.segmentsOut[i].header.win == Min(c'.receiver.WindowSize(), 0xFFFF)
  {
    hide Run, Step, Connection.SegmentReceived, Connection.Stamp, Connection.IsKeepAlive, BackedOff, FinFlow, Wrap,
         Receiver.AckPosition, IsProbe;
    var c', q := c.SegmentReceived(seg), Run(c.sender, SenderEvents(c, Call.Segment(seg))).segmentsOut;
    CallEmits(c, Call.Segment(seg));
    SomethingQueued(c, seg);
    forall i | |c.segmentsOut| <= i < |c'.segmentsOut|
      ensures c'.segmentsOut[i] == c'.Stamp(q[i - |c.segmentsOut|])
    {
    }
    forall i | 0 <= i < |q|
      ensures c'.receiver.isSyn ==>
                && c'.Stamp(q[i]).header.ack
                && c'.Stamp(q[i]).header.ackno == Wrap(c'.receiver.AckPosition(), c'.receiver.isn)
                && c'.Stamp(q[i]).header.win == Min(c'.receiver.WindowSize(), 0xFFFF)
    {
      StampMeans(c', q[i]);
    }
  }

  lemma SomethingQueued(c: Connection, seg: TcpSegment)
    requires Live(c) && c.Active() && !seg.header.rst && (seg.Length() != 0 || IsProbe(c, seg))
    ensures Run(c.sender, SenderEvents(c, Call.Segment(seg))).segmentsOut != []
  {
    hide Run, Sender.AckReceived, Sender.FillWindow, Connection.Active, Connection.IsKeepAlive, BackedOff, FinFlow,
         IsProbe;
    KeepAliveIff(c, seg);
    RunShort(c.sender, SenderEvents(c, Call.Segment(seg)));
  }
}
