/** How far a sender has got: what its sequence numbers count, and that they only go up. */
module SenderProgress {
  import opened Words
  import opened WrappingIntegers
  import opened TcpSenders
  import opened SenderFacts
  import opened SenderRuns

  /** Sequence numbers count the SYN, the bytes sent and the FIN. */
  predicate Counted(s: Sender)
  {
    && s.next == (if s.next == 0 then 0 else 1 + s.stream.read + Bit(s.finSent))
    && (s.next == 0 ==> s.stream.read == 0)
    && (s.finSent ==> s.next > 0 && s.stream.ended)
  }

  /** They do, and the FIN came after the last byte. */
  predicate Numbered(s: Sender)
  {
    Counted(s) && (s.finSent ==> s.stream.read == |s.stream.history|)
  }

  /** A write of which at least one byte is accepted, after the FIN was sent. */
  predicate WritesLate(s: Sender, data: seq<byte>)
    requires s.stream.Ok()
  {
    s.finSent && data != [] && s.stream.Remaining() > 0
  }

  lemma FillCounts(s: Sender)
    requires s.Ready() && Counted(s)
    ensures var f := s.FillWindow();
            && Counted(f) && (s.finSent ==> f.finSent) && s.next <= f.next && s.stream.read <= f.stream.read
            && f.stream == s.stream.(read := f.stream.read)
  {
    hide Sender.NewSegments;
  }

  lemma FillProgress(s: Sender)
    requires s.Ready() && Numbered(s)
    ensures var f := s.FillWindow();
            && Numbered(f) && (s.finSent ==> f.finSent) && f.acked == s.acked && s.next <= f.next
            && f.stream == s.stream.(read := f.stream.read)
            && (s.finSent ==> f.next == s.next) && (f.finSent && !s.finSent ==> f.next > s.next)
  {
    hide Sender.NewSegments;
  }

  lemma TickFrame(s: Sender, ms: uint64)
    requires s.Sane()
    ensures var t := s.Tick(ms);
            t == s.(elapsed := t.elapsed, rto := t.rto, retransmissions := t.retransmissions,
                   segmentsOut := t.segmentsOut)
  {
  }

  lemma AckProgress(s: Sender, ackno: uint32, win: uint16)
    requires s.Sane() && Numbered(s)
    ensures var s' := s.AckReceived(ackno, win);
            && Numbered(s') && s.acked <= s'.acked <= s'.next && s.next <= s'.next && (s.finSent ==> s'.finSent)
            && (s.finSent ==> s'.next == s.next) && (s'.finSent && !s.finSent ==> s'.acked < s'.next)
            && s'.stream == s.stream.(read := s'.stream.read)
  {
    hide Unwrap, Sender.PopAcked, Estimate, Sender.FillWindow;
    var a := Unwrap(ackno, s.isn, s.next);
    if a <= s.next && s.timerOn {
      var s1 := s.Acknowledge(a, win);
      PopFrame(s1);
      FillProgress(s1.PopAcked());
    }
  }

  lemma StepProgress(s: Sender, e: Event)
    requires s.Sane() && Numbered(s) && (e.Write? ==> !WritesLate(s, e.data))
    ensures var s' := Step(s, e);
            && Numbered(s') && s.acked <= s'.acked && s.next <= s'.next && (s.finSent ==> s'.finSent)
            && (s.finSent ==> s'.next == s.next) && (s'.finSent && !s.finSent ==> s'.acked < s'.next)
            && (s.stream.error ==> s'.stream.error)
  {
    hide Sender.AckReceived, Sender.Tick, Sender.FillWindow;
    match e
    case Fill => FillProgress(s);
    case Ack(ackno, win) => AckProgress(s, ackno, win);
    case Tick(ms) => TickFrame(s, ms);
    case _ =>
  }

  /** A late write is misplaced: byte `k` of the stream belongs at absolute number `k + 1`, but a byte written after
      the FIN was sent goes out at `k + 2`, behind a number that no byte will ever take. */
  lemma LateWriteIsMisplaced(s: Sender, data: seq<byte>)
    requires s.Sane() && Numbered(s) && WritesLate(s, data) && s.window > 0
    ensures var w := Step(s, SenderRuns.Write(data));
            && w.Ready() && w.NewSegments() != []
            && var seg := w.NewSegments()[0];
               && seg.header.seqno == Wrap(s.stream.read + 2, s.isn)
               && seg.payload != [] && seg.payload[0] == data[0] == w.stream.history[s.stream.read]
  {
    hide Sender.NewSegments, Sender.FillWindow, Wrap;
    var w := Step(s, SenderRuns.Write(data));
    FillWindowPartitions(w);
    assert w.stream.Buffer()[0] == data[0];
    var segs := w.NewSegments();
    assert segs[0].payload != [] && Payloads(segs)[0] == segs[0].payload[0];
    assert Payloads(segs)[0] == (Payloads(segs) + w.FillWindow().stream.Buffer())[0];
  }

  // ----- the outbound stream -----

  /** What the writes of a run had room for, one after the other. */
  function Written(s: Sender, es: seq<Event>): seq<byte>
    requires s.Sane()
    decreases |es|
  {
    if es == [] then []
    else
      var before, e := es[..|es| - 1], es[|es| - 1];
      Written(s, before) +
      if e.Write? then
        var t := Run(s, before).stream; e.data[..Min(|e.data|, t.capacity - (|t.history| - t.read))]
      else []
  }

  lemma StepStream(s: Sender, e: Event)
    requires s.Sane()
    ensures var t, t' := s.stream, Step(s, e).stream;
            && t'.ended == (t.ended || e.EndInput?) && t'.error == (t.error || e.SetError?) && t'.capacity == t.capacity
            && t'.history == t.history +
                 if e.Write? then e.data[..Min(|e.data|, t.capacity - (|t.history| - t.read))] else []
  {
    hide Unwrap, Sender.PopAcked, Estimate, Sender.NewSegments;
    if e.Ack? && Unwrap(e.ackno, s.isn, s.next) <= s.next {
      PopFrame(s.Acknowledge(Unwrap(e.ackno, s.isn, s.next), e.win));
    }
  }

  /** In every run the outbound stream is what was written as far as there was room, it has ended if and only if its end
      was announced, and it has failed if and only if an error was set. */
  lemma {:induction false} StreamIsInput(capacity: nat, retxTimeout: uint16, isn: uint32, es: seq<Event>)
    ensures var s0 := Initial(capacity, retxTimeout, isn);
            var t := Run(s0, es).stream;
            && t.history == Written(s0, es) && t.capacity == capacity
            && (t.ended <==> SenderRuns.EndInput in es) && (t.error <==> SenderRuns.SetError in es)
    decreases |es|
  {
    hide Step;
    if es != [] {
      var before, e := es[..|es| - 1], es[|es| - 1];
      assert es == before + [e];
      StreamIsInput(capacity, retxTimeout, isn, before);
      StepStream(Run(Initial(capacity, retxTimeout, isn), before), e);
    }
  }

  // ----- the invariant of the queue -----

  lemma InitialInv(sendCapacity: nat, rtTimeout: uint16, isn: uint32)
    ensures Inv(Initial(sendCapacity, rtTimeout, isn))
  {
  }

  lemma InvIgnoresQueue(s: Sender)
    ensures Inv(s.(segmentsOut := [])) == Inv(s)
  {
  }
}
