/** End-to-end safety: whatever the network does, the receiver's output is a prefix of what was written. */
module TransportSafety {
  import opened Words
  import opened WrappingIntegers
  import opened ByteStreams
  import opened StreamReassemblers
  import opened ReassemblerFacts
  import opened TcpSegments
  import opened TcpReceivers
  import opened TcpSenders
  import opened SenderFacts
  import opened SenderRuns
  import opened SenderProgress
  import opened Transport

  /** The outstanding segments follow one another and are true pieces of what was sent. */
  ghost predicate SafeSender(s: Sender, cut: nat)
    requires s.stream.Ok()
  {
    && Counted(s) && Queue(s) && cut <= s.stream.read && (!s.finSent ==> cut == s.stream.read)
    && Carried(s.outstanding, First(s), s.isn, SentBytes(s, cut), s.finSent)
  }

  /** Everything the receiver knows is true; once the FIN was sent, everything up to the gap that it leaves. */
  ghost predicate Knows(r: Reassembler, sent: seq<byte>, finished: bool)
  {
    AgreesBelow(r, sent) && (!finished ==> Agrees(r, sent))
  }

  /** The invariant: everything outstanding and everything on the wire is a true piece of the stream or beyond its
      FIN, and everything the receiver knows agrees with it. */
  ghost predicate Safe(n: Net)
    requires Wellformed(n)
  {
    var s, r := n.sender, n.receiver;
    var sent := SentBytes(s, n.cut);
    && SafeSender(s, n.cut)
    && (forall p <- n.packets :: Genuine(p, s.isn, sent, s.finSent) && p.abs + p.seg.Length() <= s.next)
    && Knows(r.reassembler, sent, s.finSent)
    && (r.isSyn ==> r.isn == s.isn && s.next >= 1) && (r.isFin ==> s.finSent)
    && (!r.isSyn ==> !r.isFin && r.Output() == [] && r.reassembler.pending == map[])
  }

  // ----- sending -----

  /** Growth of what was sent keeps earlier packets true; once the FIN is out there is no more growth. */
  ghost predicate Grows(sent: seq<byte>, finished: bool, sent': seq<byte>, finished': bool)
  {
    sent <= sent' && (finished ==> finished' && sent' == sent)
  }

  lemma FaithfulGrows(p: Packet, isn: uint32, sent: seq<byte>, finished: bool, sent': seq<byte>, finished': bool)
    requires Faithful(p, isn, sent, finished) && Grows(sent, finished, sent', finished')
    ensures Faithful(p, isn, sent', finished')
  {
    var v := p.abs + Bit(p.seg.header.syn);
    if p.seg.payload != [] {
      assert sent[v - 1..v - 1 + |p.seg.payload|] == sent'[v - 1..v - 1 + |p.seg.payload|];
    }
  }

  lemma GenuineGrows(p: Packet, isn: uint32, sent: seq<byte>, finished: bool, sent': seq<byte>, finished': bool)
    requires Genuine(p, isn, sent, finished) && Grows(sent, finished, sent', finished')
    ensures Genuine(p, isn, sent', finished')
  {
    hide Faithful;
    if Faithful(p, isn, sent, finished) {
      FaithfulGrows(p, isn, sent, finished, sent', finished');
    }
  }

  lemma {:induction false} CarriedGrows(segs: seq<TcpSegment>, from: nat, isn: uint32,
                                        sent: seq<byte>, finished: bool, sent': seq<byte>, finished': bool)
    requires Carried(segs, from, isn, sent, finished) && Grows(sent, finished, sent', finished')
    ensures Carried(segs, from, isn, sent', finished')
  {
    hide Genuine;
    if segs != [] {
      GenuineGrows(Packet(from, segs[0]), isn, sent, finished, sent', finished');
      CarriedGrows(segs[1..], from + segs[0].Length(), isn, sent, finished, sent', finished');
    }
  }

  lemma {:induction false} CarriedAppend(a: seq<TcpSegment>, b: seq<TcpSegment>, from: nat, isn: uint32,
                                         sent: seq<byte>, finished: bool)
    requires Carried(a, from, isn, sent, finished) && Carried(b, from + TotalLength(a), isn, sent, finished)
    ensures Carried(a + b, from, isn, sent, finished)
  {
    hide Genuine;
    if a == [] {
      assert a + b == b;
    } else {
      CarriedAppend(a[1..], b, from + a[0].Length(), isn, sent, finished);
      assert (a + b)[1..] == a[1..] + b;
    }
  }

  lemma {:induction false} TaggedGenuine(segs: seq<TcpSegment>, from: nat, isn: uint32, sent: seq<byte>, finished: bool)
    requires Carried(segs, from, isn, sent, finished)
    ensures forall p <- Tagged(segs, from) :: Genuine(p, isn, sent, finished)
  {
    hide Genuine;
    if segs != [] {
      TaggedGenuine(segs[1..], from + segs[0].Length(), isn, sent, finished);
    }
  }

  /** Cutting a stretch of the stream into segments gives true pieces of it. */
  lemma {:induction false} CutCarried(data: seq<byte>, abs: nat, isn: uint32, syn: bool, fin: bool, sent: seq<byte>,
                                      finished: bool)
    requires (syn <==> abs == 0)
    requires var v := abs + Bit(syn); v - 1 + |data| <= |sent| && data == sent[v - 1..v - 1 + |data|]
    requires fin ==> finished && abs + Bit(syn) - 1 + |data| == |sent|
    ensures Carried(Cut(data, abs, isn, syn, fin), abs, isn, sent, finished)
    decreases |data|
  {
    hide Genuine;
    var segs := Cut(data, abs, isn, syn, fin);
    var v := abs + Bit(syn);
    if |data| > 1000 {
      SplitExcerpt(sent, v - 1, data, 1000);
      PieceIsGenuine(abs, isn, syn, false, data[..1000], sent, finished);
      CutCarried(data[1000..], v + 1000, isn, false, fin, sent, finished);
      assert segs[1..] == Cut(data[1000..], v + 1000, isn, false, fin);
    } else if segs != [] {
      PieceIsGenuine(abs, isn, syn, fin, data, sent, finished);
      assert segs[1..] == [];
    }
  }

  lemma PieceIsGenuine(abs: nat, isn: uint32, syn: bool, fin: bool, data: seq<byte>, sent: seq<byte>, finished: bool)
    requires (syn <==> abs == 0)
    requires var v := abs + Bit(syn); v - 1 + |data| <= |sent| && data == sent[v - 1..v - 1 + |data|]
    requires fin ==> finished && abs + Bit(syn) - 1 + |data| == |sent|
    ensures Genuine(Packet(abs, Segment(abs, isn, syn, fin, data)), isn, sent, finished)
  {
    hide Wrap;
  }

  lemma SplitExcerpt(sent: seq<byte>, at: nat, data: seq<byte>, k: nat)
    requires at + |data| <= |sent| && k <= |data| && data == sent[at..at + |data|]
    ensures data[..k] == sent[at..at + k] && data[k..] == sent[at + k..at + |data|]
  {
  }

  /** Without flags, and behind the FIN, everything cut lies beyond it. */
  lemma {:induction false} CutBeyond(data: seq<byte>, abs: nat, isn: uint32, sent: seq<byte>)
    requires abs >= |sent| + 2
    ensures Carried(Cut(data, abs, isn, false, false), abs, isn, sent, true)
    decreases |data|
  {
    hide Wrap, Faithful;
    var segs := Cut(data, abs, isn, false, false);
    if |data| > 1000 {
      CutBeyond(data[1000..], abs + 1000, isn, sent);
      assert segs[1..] == Cut(data[1000..], abs + 1000, isn, false, false);
    } else if segs != [] {
      assert segs[1..] == [];
    }
  }

  lemma NewSegmentsCarried(s: Sender, cut: nat)
    requires s.Ready() && Counted(s) && cut <= s.stream.read && (!s.finSent ==> cut == s.stream.read)
    ensures var f := s.FillWindow();
            var sent, sent' := SentBytes(s, cut), SentBytes(f, CutAfter(s, cut, f));
            && Carried(s.NewSegments(), s.next, s.isn, sent', f.finSent) && Grows(sent, s.finSent, sent', f.finSent)
  {
    hide Cut, Carried;
    var f := s.FillWindow();
    var data := s.stream.Buffer()[..s.PayloadSize()];
    if s.finSent {
      CutBeyond(data, s.next, s.isn, SentBytes(s, cut));
    } else {
      SliceOfTake(s.stream.history, s.stream.read, |data|);
      CutCarried(data, s.next, s.isn, s.HasSyn(), s.ReachFin(), SentBytes(f, f.stream.read), f.finSent);
    }
  }

  lemma SliceOfTake(h: seq<byte>, a: nat, k: nat)
    requires a + k <= |h|
    ensures h[a..][..k] == h[..a + k][a..a + k]
  {
  }

  lemma FillCarries(s: Sender, cut: nat)
    requires s.Ready() && SafeSender(s, cut)
    ensures var f := s.FillWindow();
            var cut' := CutAfter(s, cut, f);
            && SafeSender(f, cut') && Carried(s.NewSegments(), s.next, s.isn, SentBytes(f, cut'), f.finSent)
            && Grows(SentBytes(s, cut), s.finSent, SentBytes(f, cut'), f.finSent)
            && f.isn == s.isn && f.segmentsOut == s.segmentsOut + s.NewSegments()
            && s.next + TotalLength(s.NewSegments()) == f.next
  {
    hide Sender.FillWindow, Sender.NewSegments, Carried, Counted, TotalLength, Chain, SentBytes;
    var f := s.FillWindow();
    var sent, sent' := SentBytes(s, cut), SentBytes(f, CutAfter(s, cut, f));
    NewSegmentsCarried(s, cut);
    FillWindowPartitions(s);
    FillKeepsQueue(s);
    FillCounts(s);
    FillFrame(s);
    FillOutputs(s);
    CarriedGrows(s.outstanding, First(s), s.isn, sent, s.finSent, sent', f.finSent);
    CarriedAppend(s.outstanding, s.NewSegments(), First(s), s.isn, sent', f.finSent);
  }

  lemma FillOutputs(s: Sender)
    requires s.Ready()
    ensures s.FillWindow().segmentsOut == s.segmentsOut + s.NewSegments()
    ensures s.FillWindow().outstanding == s.outstanding + s.NewSegments()
  {
  }

  lemma {:induction false} PopCarries(s: Sender, cut: nat)
    requires s.stream.Ok() && SafeSender(s, cut)
    ensures var p := s.PopAcked(); p.stream == s.stream && SafeSender(p, cut)
    decreases |s.outstanding|
  {
    hide Unwrap, Genuine, Wrap, SentBytes;
    if s.PopAcked() != s {
      SentDependsOnStream(s, s.ResetTimer().(outstanding := s.outstanding[1..]), cut);
      PopCarries(s.ResetTimer().(outstanding := s.outstanding[1..]), cut);
    }
  }

  lemma SentDependsOnStream(s: Sender, t: Sender, cut: nat)
    requires s.stream.history == t.stream.history
    ensures SentBytes(s, cut) == SentBytes(t, cut)
  {
  }

  /** An acknowledgment, true or false, leaves the sender with true pieces and sends only true pieces. */
  lemma AckCarries(s: Sender, cut: nat, ackno: uint32, win: uint16)
    requires s.Sane() && SafeSender(s, cut) && s.segmentsOut == []
    ensures var f := s.AckReceived(ackno, win);
            var cut' := CutAfter(s, cut, f);
            && f.stream.Ok() && SafeSender(f, cut')
            && Carried(f.segmentsOut, s.next, s.isn, SentBytes(f, cut'), f.finSent)
            && Grows(SentBytes(s, cut), s.finSent, SentBytes(f, cut'), f.finSent)
            && f.isn == s.isn && s.next + TotalLength(f.segmentsOut) <= f.next
  {
    hide Unwrap, Sender.PopAcked, Estimate, Sender.FillWindow, Sender.NewSegments, Chain, Genuine;
    var a := Unwrap(ackno, s.isn, s.next);
    if a <= s.next {
      var s1 := s.Acknowledge(a, win);
      if s.timerOn {
        PopFrame(s1);
        PopCarries(s1, cut);
        FillCarries(s1.PopAcked(), cut);
        assert [] + s1.PopAcked().NewSegments() == s1.PopAcked().NewSegments();
      }
    }
  }

  lemma TickCarries(s: Sender, cut: nat, ms: uint64)
    requires s.Sane() && SafeSender(s, cut) && s.segmentsOut == []
    ensures var f := s.Tick(ms);
            && SafeSender(f, cut) && f.stream == s.stream && f.finSent == s.finSent && f.isn == s.isn
            && f.next == s.next
            && Carried(f.segmentsOut, First(s), s.isn, SentBytes(s, cut), s.finSent)
            && First(s) + TotalLength(f.segmentsOut) <= s.next && f.Sane()
            && CutAfter(s, cut, f) == cut && Oldest(s) == First(s)
  {
    hide Sender.Tick, Genuine, Chain;
    TickFrame(s, ms);
    RetransmissionIsFront(s, ms);
    var f := s.Tick(ms);
    if f.segmentsOut != [] {
      assert f.segmentsOut[1..] == [];
    }
  }

  lemma ProbeCarries(s: Sender, cut: nat)
    requires s.Sane() && SafeSender(s, cut) && s.segmentsOut == []
    ensures CutAfter(s, cut, s.SendEmpty()) == cut
    ensures Carried(s.SendEmpty().segmentsOut, s.next, s.isn, SentBytes(s, cut), s.finSent)
    ensures TotalLength(s.SendEmpty().segmentsOut) == 0
  {
    hide Wrap;
    var segs := s.SendEmpty().segmentsOut;
    assert segs[1..] == [];
    assert Faithful(Packet(s.next, segs[0]), s.isn, SentBytes(s, cut), s.finSent);
  }

  // ----- receiving -----

  /** The stream index of a packet's first byte; a packet at the ISN that is no SYN lands at 2^64 - 1. */
  function IndexOf(p: Packet): int
  {
    var v := p.abs + Bit(p.seg.header.syn);
    if v >= 1 then v - 1 else 0xFFFF_FFFF_FFFF_FFFF
  }

  lemma WrapPlusSyn(abs: nat, isn: uint32, b: nat)
    ensures (Wrap(abs, isn) + b) % 0x1_0000_0000 == Wrap(abs + b, isn)
    ensures Wrap(0, isn) == isn
  {
    var q, r := (isn + abs) / 0x1_0000_0000, (isn + abs) % 0x1_0000_0000;
    var q', r' := (r + b) / 0x1_0000_0000, (r + b) % 0x1_0000_0000;
    DivModUnique(isn + (abs + b), 0x1_0000_0000, q + q', r');
  }

  lemma MinusOneInWord(v: nat)
    requires v < 0x1_0000_0000_0000_0000
    ensures (v - 1) % 0x1_0000_0000_0000_0000 == if v >= 1 then v - 1 else 0xFFFF_FFFF_FFFF_FFFF
  {
  }

  /** The receiver pushes a packet at the place it reads from its number. */
  lemma ReceivedAsRead(r: Receiver, p: Packet, isn: uint32, sent: seq<byte>, finished: bool)
    requires r.Ok() && Genuine(p, isn, sent, finished) && (r.isSyn ==> r.isn == isn)
    requires |r.Output()| < 0x1_0000_0000_0000_0000
    ensures r.SegmentReceived(p.seg) ==
            if !r.isSyn && !p.seg.header.syn then r
            else r.(isSyn := true, isn := isn, isFin := r.isFin || p.seg.header.fin,
                    reassembler := r.reassembler.Push(p.seg.payload, PlaceOf(p, r), p.seg.header.fin))
  {
    hide Unwrap, Wrap, Nearest, Reassembler.Push;
    var h := p.seg.header;
    var v := p.abs + Bit(h.syn);
    SameResidue(v, Wrap(v, isn), isn);
    UnwrapArithmetic(Wrap(v, isn), isn, |r.Output()|);
    WrapPlusSyn(p.abs, isn, Bit(h.syn));
  }

  /** A number is read right exactly if it is within reach of the output. */
  lemma ReadRightIff(r: Receiver, p: Packet)
    requires |r.Output()| <= 0xFFFF_FFFF_0000_0000
    ensures ReadRight(p, r) <==> WithinReach(p.abs + Bit(p.seg.header.syn), |r.Output()|)
  {
    hide Nearest;
    NearestRecovers(p.abs + Bit(p.seg.header.syn), |r.Output()|);
  }

  /** A packet whose number is read right is put where it belongs. */
  lemma ReceivedAtItsPlace(r: Receiver, p: Packet, isn: uint32, sent: seq<byte>, finished: bool)
    requires r.Ok() && Genuine(p, isn, sent, finished) && (r.isSyn ==> r.isn == isn)
    requires |r.Output()| < 0x1_0000_0000_0000_0000 && ReadRight(p, r)
    ensures 0 <= IndexOf(p) < 0x1_0000_0000_0000_0000
    ensures r.SegmentReceived(p.seg) ==
            if !r.isSyn && !p.seg.header.syn then r
            else r.(isSyn := true, isn := isn, isFin := r.isFin || p.seg.header.fin,
                    reassembler := r.reassembler.Push(p.seg.payload, IndexOf(p), p.seg.header.fin))
  {
    hide Nearest, Genuine, Reassembler.Push, Receiver.SegmentReceived;
    ReceivedAsRead(r, p, isn, sent, finished);
    NearestFits((p.abs + Bit(p.seg.header.syn)) % 0x1_0000_0000, |r.Output()|);
    MinusOneInWord(ReadAs(p, r));
  }

  // ----- why a segment must not be stale -----

  /** A segment from 2^32 numbers ago is taken for the one due now. */
  lemma StaleIsMisread(r: Receiver, p: Packet)
    requires |r.Output()| <= 0xFFFF_FFFF_0000_0000 && WithinReach(p.abs + 0x1_0000_0000, |r.Output()|)
    requires !p.seg.header.syn && p.abs < 0xFFFF_FFFF_0000_0000
    ensures PlaceOf(p, r) == p.abs + 0xFFFF_FFFF
  {
    hide Nearest;
    var v := p.abs + 0x1_0000_0000;
    DivModUnique(v, 0x1_0000_0000, p.abs / 0x1_0000_0000 + 1, p.abs % 0x1_0000_0000);
    NearestRecovers(v, |r.Output()|);
    MinusOneInWord(v);
  }

  /** End-to-end safety fails on every delivery of a segment whose number is read so that it covers the next byte of the
      output with something else than that byte. */
  lemma StaleBreaksSafety(n: Net, i: nat)
    requires Wellformed(n) && Safe(n) && i < |n.packets| && n.receiver.isSyn
    requires |n.receiver.Output()| < 0x1_0000_0000_0000_0000
    requires var p, r, h := n.packets[i], n.receiver, n.sender.stream.history;
             var q := |r.Output()|;
             && q < r.reassembler.Limit() && PlaceOf(p, r) <= q < PlaceOf(p, r) + |p.seg.payload|
             && (q < |h| ==> p.seg.payload[q - PlaceOf(p, r)] != h[q])
    ensures !(Advance(n, DataArrives(i)).receiver.Output() <= n.sender.stream.history)
  {
    hide Genuine, Knows, SafeSender, Reassembler.Push, Receiver.SegmentReceived, PlaceOf;
    var p, r := n.packets[i], n.receiver;
    var q, place := |r.Output()|, PlaceOf(p, r);
    assert p in n.packets;
    ReceivedAsRead(r, p, n.sender.isn, SentBytes(n.sender, n.cut), n.sender.finSent);
    var r' := r.reassembler.Push(p.seg.payload, place, p.seg.header.fin);
    PushIsLatestWrite(r.reassembler, p.seg.payload, place, p.seg.header.fin, q);
    PushIsLatestWrite(r.reassembler, p.seg.payload, place, p.seg.header.fin, |r'.output.history|);
  }

  lemma ExcerptOf(p: Packet, isn: uint32, sent: seq<byte>, finished: bool)
    requires Faithful(p, isn, sent, finished)
    ensures Excerpt(p.seg.payload, IndexOf(p), sent)
    ensures p.seg.header.fin ==> finished && IndexOf(p) + |p.seg.payload| == |sent|
  {
    hide Wrap;
  }

  lemma ReceivedAgrees(r: Receiver, p: Packet, isn: uint32, sent: seq<byte>, finished: bool)
    requires r.Ok() && Faithful(p, isn, sent, finished) && (r.isSyn ==> r.isn == isn)
    requires |r.Output()| < 0x1_0000_0000_0000_0000 && ReadRight(p, r)
    requires Agrees(r.reassembler, sent)
    ensures var r' := r.SegmentReceived(p.seg);
            && Agrees(r'.reassembler, sent) && (r'.isSyn ==> r'.isn == isn) && (r.isSyn ==> r'.isSyn)
            && (r'.isFin && !r.isFin ==> finished) && (r.isFin ==> r'.isFin) && (!r'.isSyn ==> r' == r)
            && (r'.isSyn && !r.isSyn ==> p.seg.header.syn)
  {
    hide Receiver.SegmentReceived, Reassembler.Push, Agrees, Faithful, ReadRight, Excerpt;
    ReceivedAtItsPlace(r, p, isn, sent, finished);
    ExcerptOf(p, isn, sent, finished);
    if r.isSyn || p.seg.header.syn {
      PushAgrees(r.reassembler, p.seg.payload, IndexOf(p), p.seg.header.fin, sent);
    }
  }

  lemma ReceivedKnows(r: Receiver, p: Packet, isn: uint32, sent: seq<byte>, finished: bool)
    requires r.Ok() && Genuine(p, isn, sent, finished) && (r.isSyn ==> r.isn == isn)
    requires |r.Output()| < 0x1_0000_0000_0000_0000 && Harmless(p, r)
    requires Knows(r.reassembler, sent, finished)
    ensures var r' := r.SegmentReceived(p.seg);
            && Knows(r'.reassembler, sent, finished) && (r'.isSyn ==> r'.isn == isn) && (r.isSyn ==> r'.isSyn)
            && (r'.isFin && !r.isFin ==> finished) && (r.isFin ==> r'.isFin) && (!r'.isSyn ==> r' == r)
            && (r'.isSyn && !r.isSyn ==> p.seg.header.syn)
  {
    hide Receiver.SegmentReceived, Reassembler.Push, Agrees, AgreesBelow, Faithful, ReadRight, PlaceOf, Excerpt;
    ReceivedAsRead(r, p, isn, sent, finished);
    assert p.seg.header.fin ==> finished by { FinIsFinished(p, isn, sent, finished); }
    if r.isSyn || p.seg.header.syn {
      if ReadRight(p, r) {
        ReceivedAtItsPlace(r, p, isn, sent, finished);
        PlacedKnows(r.reassembler, p, isn, sent, finished);
      } else {
        PushMisses(r.reassembler, p.seg.payload, PlaceOf(p, r), p.seg.header.fin);
        KnowsDepends(r.reassembler, r.reassembler.Push(p.seg.payload, PlaceOf(p, r), p.seg.header.fin), sent, finished);
      }
    }
  }

  lemma PlacedKnows(r: Reassembler, p: Packet, isn: uint32, sent: seq<byte>, finished: bool)
    requires r.Ok() && Genuine(p, isn, sent, finished) && Knows(r, sent, finished)
    requires 0 <= IndexOf(p) < 0x1_0000_0000_0000_0000
    ensures Knows(r.Push(p.seg.payload, IndexOf(p), p.seg.header.fin), sent, finished)
  {
    hide Reassembler.Push, Agrees, AgreesBelow, Faithful, Excerpt;
    if Faithful(p, isn, sent, finished) {
      ExcerptOf(p, isn, sent, finished);
    }
    PushAgreesBelow(r, p.seg.payload, IndexOf(p), p.seg.header.fin, sent);
    if !finished {
      PushAgrees(r, p.seg.payload, IndexOf(p), p.seg.header.fin, sent);
    }
  }

  lemma FinIsFinished(p: Packet, isn: uint32, sent: seq<byte>, finished: bool)
    requires Genuine(p, isn, sent, finished)
    ensures p.seg.header.fin ==> finished
  {
  }

  lemma KnowsDepends(r: Reassembler, r': Reassembler, sent: seq<byte>, finished: bool)
    requires r'.output.history == r.output.history && r'.pending == r.pending
    ensures Knows(r', sent, finished) == Knows(r, sent, finished)
  {
  }

  // ----- one move -----

  lemma KnowsGrows(r: Reassembler, sent: seq<byte>, finished: bool, sent': seq<byte>, finished': bool)
    requires Knows(r, sent, finished) && Grows(sent, finished, sent', finished')
    ensures Knows(r, sent', finished')
  {
  }

  lemma {:induction false} TaggedBelow(segs: seq<TcpSegment>, from: nat)
    ensures forall p <- Tagged(segs, from) :: p.abs + p.seg.Length() <= from + TotalLength(segs)
  {
    if segs != [] {
      TaggedBelow(segs[1..], from + segs[0].Length());
    }
  }

  /** Whatever the sender does next, the rest of the picture stays true. */
  lemma SenderMoves(n: Net, s: Sender, from: nat)
    requires Wellformed(n) && Safe(n) && s.Sane() && s.isn == n.sender.isn && n.sender.next <= s.next
    requires var cut := CutAfter(n.sender, n.cut, s);
             && SafeSender(s, cut) && Grows(SentBytes(n.sender, n.cut), n.sender.finSent, SentBytes(s, cut), s.finSent)
             && Carried(s.segmentsOut, from, s.isn, SentBytes(s, cut), s.finSent)
    requires from + TotalLength(s.segmentsOut) <= s.next
    ensures Wellformed(Transmit(n, s, from)) && Safe(Transmit(n, s, from))
  {
    hide Genuine, Agrees, AgreesBelow, Carried, Counted, Queue, SentBytes;
    var n' := Transmit(n, s, from);
    var sent, sent' := SentBytes(n.sender, n.cut), SentBytes(s, n'.cut);
    TaggedGenuine(s.segmentsOut, from, s.isn, sent', s.finSent);
    TaggedBelow(s.segmentsOut, from);
    forall p <- n'.packets
      ensures Genuine(p, s.isn, sent', s.finSent) && p.abs + p.seg.Length() <= s.next
    {
      if p in n.packets {
        GenuineGrows(p, s.isn, sent, n.sender.finSent, sent', s.finSent);
      }
    }
    KnowsGrows(n.receiver.reassembler, sent, n.sender.finSent, sent', s.finSent);
    SafeSenderIgnoresOutput(s, n'.cut);
  }

  lemma SafeSenderIgnoresOutput(s: Sender, cut: nat)
    requires s.stream.Ok()
    ensures SafeSender(s.(segmentsOut := []), cut) == SafeSender(s, cut)
    ensures SentBytes(s.(segmentsOut := []), cut) == SentBytes(s, cut)
  {
    hide Carried, Chain, TotalLength;
  }

  lemma WriteIsSafe(n: Net, t: Stream)
    requires Wellformed(n) && Safe(n) && t.Ok() && t.read == n.sender.stream.read
             && n.sender.stream.history <= t.history
    requires n.sender.stream.ended ==> t.ended
    ensures var n' := n.(sender := n.sender.(stream := t)); Wellformed(n') && Safe(n')
  {
    hide Genuine, Agrees, AgreesBelow, Carried, Queue;
    assert SentBytes(n.sender.(stream := t), n.cut) == SentBytes(n.sender, n.cut);
    QueueIgnoresStream(n.sender, t);
  }

  lemma QueueIgnoresStream(s: Sender, t: Stream)
    ensures Queue(s.(stream := t)) == Queue(s) && First(s.(stream := t)) == First(s)
  {
  }

  lemma DataIsSafe(n: Net, i: nat)
    requires Wellformed(n) && Safe(n) && DataNotStale(n, DataArrives(i)) && i < |n.packets|
    ensures Safe(Advance(n, DataArrives(i)))
  {
    hide Genuine, Knows, SafeSender, Receiver.SegmentReceived, Harmless, SentBytes;
    var s, r, p := n.sender, n.receiver, n.packets[i];
    SentFits(n);
    ReceivedKnows(r, p, s.isn, SentBytes(s, n.cut), s.finSent);
  }

  lemma SentFits(n: Net)
    requires Wellformed(n) && Safe(n)
    ensures |n.receiver.Output()| <= |SentBytes(n.sender, n.cut)| <= n.sender.next
  {
  }

  /** One move of any kind keeps the invariant. */
  lemma MoveIsSafe(n: Net, m: Move)
    requires Wellformed(n) && Safe(n) && DataNotStale(n, m)
    ensures Safe(Advance(n, m))
  {
    hide Genuine, Knows, SafeSender, TotalLength, First, Harmless, SentBytes,
         Sender.AckReceived, Sender.FillWindow, Sender.Tick, Receiver.SegmentReceived;
    var s := n.sender;
    match m
    case AppWrites(data) => WriteIsSafe(n, s.stream.Write(data));
    case AppEnds => WriteIsSafe(n, s.stream.End());
    case SenderFills =>
      FillCarries(s, n.cut);
      FillKeepsSane(s);
      assert [] + s.NewSegments() == s.NewSegments();
      SenderMoves(n, s.FillWindow(), s.next);
    case SenderTicks(ms) =>
      TickCarries(s, n.cut, ms);
      SentDependsOnStream(s, s.Tick(ms), n.cut);
      SenderMoves(n, s.Tick(ms), Oldest(s));
    case SenderProbes =>
      ProbeCarries(s, n.cut);
      SafeSenderIgnoresOutput(s.SendEmpty(), n.cut);
      SentDependsOnStream(s, s.SendEmpty(), n.cut);
      SenderMoves(n, s.SendEmpty(), s.next);
    case DataArrives(i) => if i < |n.packets| { DataIsSafe(n, i); }
    case AppReads(len) => KnowsIgnoresRead(n.receiver.reassembler, len, SentBytes(s, n.cut), s.finSent);
    case SenderFails => WriteIsSafe(n, s.stream.Fail());
    case ReceiverFails => KnowsIgnoresRead(n.receiver.reassembler, 0, SentBytes(s, n.cut), s.finSent);
    case ReceiverAcks =>
    case AckArrives(j) =>
      if j < |n.acks| {
        AckIsSafe(n, j);
      }
  }

  lemma AckIsSafe(n: Net, j: nat)
    requires Wellformed(n) && Safe(n) && j < |n.acks|
    ensures Safe(Advance(n, AckArrives(j)))
  {
    hide Genuine, Knows, SafeSender, TotalLength, First, SentBytes, Sender.AckReceived;
    var s := n.sender;
    AckCarries(s, n.cut, n.acks[j].ackno, n.acks[j].win);
    AckKeepsSane(s, n.acks[j].ackno, n.acks[j].win);
    SenderMoves(n, s.AckReceived(n.acks[j].ackno, n.acks[j].win), s.next);
    HeardIsHistory(Transmit(n, s.AckReceived(n.acks[j].ackno, n.acks[j].win), s.next), j + 1);
  }

  lemma HeardIsHistory(n: Net, heard: nat)
    requires Wellformed(n) && Safe(n)
    ensures Wellformed(n.(heard := heard)) && Safe(n.(heard := heard))
  {
    hide Genuine, Knows, SafeSender;
  }

  lemma KnowsIgnoresRead(r: Reassembler, len: nat, sent: seq<byte>, finished: bool)
    requires r.Ok()
    ensures Knows(r.Pop(len), sent, finished) == Knows(r, sent, finished)
    ensures Knows(r.(output := r.output.Fail()), sent, finished) == Knows(r, sent, finished)
  {
  }

  // ----- whole runs -----

  predicate FreshThroughout(n: Net, ms: seq<Move>)
    requires Wellformed(n)
    decreases |ms|
  {
    ms == [] ||
    (var before, m := AdvanceAll(n, ms[..|ms| - 1]), ms[|ms| - 1];
     FreshThroughout(n, ms[..|ms| - 1]) && DataNotStale(before, m))
  }

  lemma StartIsSafe(sendCapacity: nat, retxTimeout: uint16, isn: uint32, recvCapacity: nat)
    requires recvCapacity >= 1
    ensures Safe(Start(sendCapacity, retxTimeout, isn, recvCapacity))
  {
  }

  lemma {:induction false} AlwaysSafe(n: Net, ms: seq<Move>)
    requires Wellformed(n) && Safe(n) && FreshThroughout(n, ms)
    ensures Safe(AdvanceAll(n, ms))
    decreases |ms|
  {
    hide Advance, Safe, DataNotStale, Wellformed;
    if ms != [] {
      AlwaysSafe(n, ms[..|ms| - 1]);
      MoveIsSafe(AdvanceAll(n, ms[..|ms| - 1]), ms[|ms| - 1]);
    }
  }

  /** End-to-end safety.  In every run of a sender and a receiver over a network that loses, duplicates and reorders
      segments and acknowledgments at will, everything the receiver has ever output is a prefix of everything
      the application has ever written. */
  lemma EndToEndSafety(sendCapacity: nat, retxTimeout: uint16, isn: uint32, recvCapacity: nat, ms: seq<Move>)
    requires recvCapacity >= 1 && FreshThroughout(Start(sendCapacity, retxTimeout, isn, recvCapacity), ms)
    ensures var n := AdvanceAll(Start(sendCapacity, retxTimeout, isn, recvCapacity), ms);
            n.receiver.Output() <= n.sender.stream.history[..n.sender.stream.read] <= n.sender.stream.history
  {
    hide AdvanceAll, FreshThroughout;
    var n := Start(sendCapacity, retxTimeout, isn, recvCapacity);
    StartIsSafe(sendCapacity, retxTimeout, isn, recvCapacity);
    AlwaysSafe(n, ms);
  }

  // ----- streams that fit in 2^32 numbers -----

  /** Stream and window together fit in 2^32 numbers. */
  predicate Short(n: Net)
  {
    |n.sender.stream.history| + n.receiver.reassembler.output.capacity < 0xFFFF_FFFE
  }

  lemma ShortIsNotStale(n: Net, m: Move)
    requires Wellformed(n) && Safe(n) && Short(n)
    ensures DataNotStale(n, m)
  {
    hide Genuine, Carried, Queue, Harmless;
    SentFits(n);
    NextIsBounded(n);
    if m.DataArrives? && m.i < |n.packets| {
      var p := n.packets[m.i];
      assert p in n.packets;
      SynAtZero(p, n.sender.isn, SentBytes(n.sender, n.cut), n.sender.finSent);
      LowIsHarmless(p, n.receiver);
    }
  }

  lemma LowIsHarmless(p: Packet, r: Receiver)
    requires r.Ok() && p.abs + Bit(p.seg.header.syn) < 0x1_0000_0000 && r.reassembler.Limit() < 0xFFFF_FFFF
    ensures Harmless(p, r)
  {
    hide Nearest;
    var v, h := p.abs + Bit(p.seg.header.syn), |r.Output()|;
    NearestRecovers(v, h);
    if !WithinReach(v, h) {
      NearestBounds(v, h);
      var k := StepsApart(v, Nearest(v, h));
      MinusOneInWord(Nearest(v, h));
    }
  }

  lemma SynAtZero(p: Packet, isn: uint32, sent: seq<byte>, finished: bool)
    requires Genuine(p, isn, sent, finished)
    ensures p.seg.header.syn ==> p.abs == 0
  {
  }

  lemma MoveKeepsHistory(n: Net, m: Move)
    requires Wellformed(n)
    ensures n.sender.stream.history <= Advance(n, m).sender.stream.history
  {
    hide Unwrap, Sender.PopAcked, Estimate, Sender.NewSegments, Receiver.SegmentReceived;
    if m.AckArrives? && m.j < |n.acks| {
      var s, k := n.sender, n.acks[m.j];
      if Unwrap(k.ackno, s.isn, s.next) <= s.next {
        PopFrame(s.Acknowledge(Unwrap(k.ackno, s.isn, s.next), k.win));
      }
    }
  }

  lemma MoveKeepsCapacity(n: Net, m: Move)
    requires Wellformed(n)
    ensures Advance(n, m).receiver.reassembler.output.capacity == n.receiver.reassembler.output.capacity
  {
    hide Sender.AckReceived, Sender.FillWindow, Sender.Tick, Unwrap, Stored, RunEnd, RunBytes, From;
  }

  lemma ShortBefore(n: Net, m: Move)
    requires Wellformed(n) && Short(Advance(n, m))
    ensures Short(n)
  {
    hide Advance, Wellformed;
    MoveKeepsHistory(n, m);
    MoveKeepsCapacity(n, m);
  }

  lemma {:induction false} ShortRunIsFresh(n: Net, ms: seq<Move>)
    requires Wellformed(n) && Safe(n) && Short(AdvanceAll(n, ms))
    ensures FreshThroughout(n, ms)
    decreases |ms|
  {
    hide Advance, Safe, DataNotStale, Wellformed, Short;
    if ms != [] {
      var before, m := AdvanceAll(n, ms[..|ms| - 1]), ms[|ms| - 1];
      ShortBefore(before, m);
      ShortRunIsFresh(n, ms[..|ms| - 1]);
      AlwaysSafe(n, ms[..|ms| - 1]);
      ShortIsNotStale(before, m);
    }
  }

  lemma {:induction false} RunKeepsCapacity(n: Net, ms: seq<Move>)
    requires Wellformed(n)
    ensures AdvanceAll(n, ms).receiver.reassembler.output.capacity == n.receiver.reassembler.output.capacity
    decreases |ms|
  {
    hide Advance, Wellformed;
    if ms != [] {
      RunKeepsCapacity(n, ms[..|ms| - 1]);
      MoveKeepsCapacity(AdvanceAll(n, ms[..|ms| - 1]), ms[|ms| - 1]);
    }
  }

  lemma NextIsBounded(n: Net)
    requires Wellformed(n) && Safe(n)
    ensures n.sender.next <= |n.sender.stream.history| + 2
  {
  }

  /** If stream and window fit in 2^32 - 2 bytes, nothing at all need be assumed, of the network or of anyone. */
  lemma EndToEndSafetyShort(sendCapacity: nat, retxTimeout: uint16, isn: uint32, recvCapacity: nat, ms: seq<Move>)
    requires recvCapacity >= 1
    requires |AdvanceAll(Start(sendCapacity, retxTimeout, isn, recvCapacity), ms).sender.stream.history| + recvCapacity
             < 0xFFFF_FFFE
    ensures var n := AdvanceAll(Start(sendCapacity, retxTimeout, isn, recvCapacity), ms);
            n.receiver.Output() <= n.sender.stream.history
  {
    hide AdvanceAll, FreshThroughout;
    StartIsSafe(sendCapacity, retxTimeout, isn, recvCapacity);
    RunKeepsCapacity(Start(sendCapacity, retxTimeout, isn, recvCapacity), ms);
    ShortRunIsFresh(Start(sendCapacity, retxTimeout, isn, recvCapacity), ms);
    EndToEndSafety(sendCapacity, retxTimeout, isn, recvCapacity, ms);
  }
}
