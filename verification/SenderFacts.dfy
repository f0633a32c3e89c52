/** What every run of a sender keeps: the partition done by `fill_window`, the queue of outstanding
    segments, the window estimate and the retransmission timer. */
module SenderFacts {
  import opened Words
  import opened WrappingIntegers
  import opened TcpSegments
  import opened TcpSenders

  function Payloads(segs: seq<TcpSegment>): seq<byte>
  {
    if segs == [] then [] else segs[0].payload + Payloads(segs[1..])
  }

  function TotalLength(segs: seq<TcpSegment>): nat
  {
    if segs == [] then 0 else segs[0].Length() + TotalLength(segs[1..])
  }

  /** The segments follow one another in absolute sequence space from `from` on, none of them empty
      and none larger than 1000 bytes plus SYN and FIN. */
  predicate Chain(segs: seq<TcpSegment>, isn: uint32, from: nat)
  {
    segs == [] ||
    (&& segs[0].header.seqno == Wrap(from, isn)
     && 0 < segs[0].Length() && |segs[0].payload| <= 1000
     && Chain(segs[1..], isn, from + segs[0].Length()))
  }

  // ----- fill_window -----

  lemma {:induction false} CutIsPartition(data: seq<byte>, abs: nat, isn: uint32, syn: bool, fin: bool)
    ensures var segs := Cut(data, abs, isn, syn, fin);
            && Payloads(segs) == data
            && TotalLength(segs) == |data| + Bit(syn) + Bit(fin)
            && Chain(segs, isn, abs)
            && (forall i :: 0 <= i < |segs| ==>
                 segs[i].header.syn == (syn && i == 0) && segs[i].header.fin == (fin && i == |segs| - 1))
            && (forall i :: 0 <= i < |segs| - 1 ==> |segs[i].payload| == 1000)
    decreases |data|
  {
    var segs := Cut(data, abs, isn, syn, fin);
    if |data| > 1000 {
      CutIsPartition(data[1000..], abs + Bit(syn) + 1000, isn, false, fin);
      assert segs[1..] == Cut(data[1000..], abs + Bit(syn) + 1000, isn, false, fin);
    } else if segs != [] {
      assert segs[1..] == [];
    }
  }

  /** What has not been sent yet, in sequence numbers: the SYN if there was none, the bytes not taken from the stream,
      and the FIN if the stream has ended and there was none. */
  function Owed(s: Sender): nat
    requires s.stream.Ok()
  {
    Bit(s.next == 0) + (|s.stream.history| - s.stream.read) + Bit(s.stream.ended && !s.finSent)
  }

  /** `fill_window` sends exactly as many sequence numbers as are both owed and allowed, cut into full segments from the
      front of the stream, SYN first and FIN last; the FIN goes out exactly if the window has room for everything. */
  lemma FillWindowPartitions(s: Sender)
    requires s.Ready()
    ensures var f, segs := s.FillWindow(), s.NewSegments();
            && f.outstanding == s.outstanding + segs && f.segmentsOut == s.segmentsOut + segs
            && f.stream == s.stream.(read := f.stream.read) && s.stream.read <= f.stream.read <= |s.stream.history|
            && Payloads(segs) == s.stream.history[s.stream.read..f.stream.read]
            && Chain(segs, s.isn, s.next) && f.next == s.next + TotalLength(segs)
            && TotalLength(segs) == Min(Owed(s), s.window) == s.window - f.window
            && Owed(f) == Owed(s) - TotalLength(segs)
            && (f.finSent <==>
                  s.finSent ||
                  (s.stream.ended && s.window >= Bit(s.next == 0) + (|s.stream.history| - s.stream.read) + 1))
            && (forall i :: 0 <= i < |segs| ==>
                  && segs[i].header.syn == (i == 0 && s.next == 0)
                  && segs[i].header.fin == (i == |segs| - 1 && f.finSent && !s.finSent))
            && (forall i :: 0 <= i < |segs| - 1 ==> |segs[i].payload| == 1000)
            && (f.finSent && !s.finSent ==> f.stream.read == |s.stream.history|)
  {
    hide Cut, Chain, Payloads, TotalLength, Sender.Sent;
    s.SentFields(s.NewSegments(), s.Sendable(), s.PayloadSize(), s.ReachFin());
    CutIsPartition(s.stream.Buffer()[..s.PayloadSize()], s.next, s.isn, s.HasSyn(), s.ReachFin());
  }

  // ----- the outstanding queue -----

  lemma {:induction false} ChainAppend(a: seq<TcpSegment>, b: seq<TcpSegment>, isn: uint32, from: nat)
    ensures TotalLength(a + b) == TotalLength(a) + TotalLength(b)
    ensures Chain(a, isn, from) && Chain(b, isn, from + TotalLength(a)) ==> Chain(a + b, isn, from)
  {
    hide Wrap;
    if a == [] {
      assert a + b == b;
    } else {
      ChainAppend(a[1..], b, isn, from + a[0].Length());
      assert (a + b)[1..] == a[1..] + b && (a + b)[0] == a[0];
    }
  }

  /** The absolute sequence number of the oldest outstanding segment. */
  function First(s: Sender): int
  {
    s.next - TotalLength(s.outstanding)
  }

  predicate Queue(s: Sender)
  {
    First(s) >= 0 && Chain(s.outstanding, s.isn, First(s))
  }

  /** The oldest unacknowledged number lies inside the oldest outstanding segment. */
  predicate FrontCoversAcked(s: Sender)
  {
    if s.outstanding == [] then s.acked == s.next else First(s) <= s.acked < First(s) + s.outstanding[0].Length()
  }

  /** Numbers and queue agree: outstanding segments are contiguous up to `next`, none of them is missing that is not
      acknowledged, and an exhausted window means something is in flight. */
  predicate Books(s: Sender)
    requires s.acked <= s.next
  {
    Queue(s) && First(s) <= s.acked && (s.window == 0 ==> s.InFlight() >= 1)
  }

  /** The invariant of a sender. */
  predicate Inv(s: Sender)
  {
    s.Sane() && Books(s)
  }

  /** Nothing outstanding and no timer are the same thing, and mean that nothing is in flight; if the first
      unacknowledged number is in the front segment, nothing in flight means the same. */
  lemma IdleIffTimerOff(s: Sender)
    requires Inv(s)
    ensures s.outstanding == [] ==> s.InFlight() == 0
    ensures s.outstanding == [] <==> !s.timerOn
    ensures FrontCoversAcked(s) ==> (s.InFlight() == 0 ==> s.outstanding == [])
  {
  }

  lemma FillKeepsQueue(s: Sender)
    requires s.Ready() && Queue(s)
    ensures var f := s.FillWindow();
            && Queue(f) && First(f) == First(s) && f.acked == s.acked
            && (FrontCoversAcked(s) ==> FrontCoversAcked(f))
            && (s.outstanding != [] ==> (FrontCoversAcked(f) ==> FrontCoversAcked(s)))
            && f.InFlight() + f.window == s.InFlight() + s.window
  {
    hide Cut, Sender.FillWindow, Sender.NewSegments, Chain;
    FillWindowPartitions(s);
    var segs := s.NewSegments();
    ChainAppend(s.outstanding, segs, s.isn, First(s));
    FillFrame(s);
    assert segs != [] ==> segs[0].Length() > 0 by { if segs != [] { ChainHead(segs, s.isn, s.next); } }
  }

  lemma ChainHead(segs: seq<TcpSegment>, isn: uint32, from: nat)
    requires Chain(segs, isn, from) && segs != []
    ensures segs[0].Length() > 0
  {
  }

  lemma FillFrame(s: Sender)
    requires s.Ready()
    ensures var f := s.FillWindow();
            && f.isn == s.isn && f.acked == s.acked && f.peerWindow == s.peerWindow && f.initialRto == s.initialRto
            && f.stream.history == s.stream.history && f.stream.ended == s.stream.ended
  {
  }

  /** What is left of a queue when everything that ends at or before `acked` is dropped, by absolute number. */
  function Unacked(segs: seq<TcpSegment>, from: nat, acked: nat): seq<TcpSegment>
  {
    if segs != [] && from + segs[0].Length() <= acked then Unacked(segs[1..], from + segs[0].Length(), acked) else segs
  }

  /** Popping by unwrapping 32-bit numbers is popping by absolute number. */
  lemma {:induction false} PopIsByAbsoluteNumber(s: Sender)
    requires Queue(s) && First(s) <= s.acked <= s.next <= 0xFFFF_FFFF_0000_0000 && s.next - First(s) < 0x8000_0000
    ensures var p := s.PopAcked();
            && p.outstanding == Unacked(s.outstanding, First(s), s.acked)
            && Queue(p) && FrontCoversAcked(p) && p.acked == s.acked && p.next == s.next
    decreases |s.outstanding|
  {
    hide Unwrap, Wrap;
    if s.outstanding != [] {
      UnwrapWrap(First(s), s.isn, s.next);
      if First(s) + s.outstanding[0].Length() <= s.acked {
        PopIsByAbsoluteNumber(s.ResetTimer().(outstanding := s.outstanding[1..]));
      }
    }
  }

  // ----- where 32-bit numbers fail -----

  /** Once the queue reaches back 2^31 numbers or more, popping stops at a front that should have gone. */
  lemma {:induction false} PopBeyondReach(s: Sender)
    requires Queue(s) && s.outstanding != [] && s.acked <= s.next <= 0xFFFF_FFFF_0000_0000
             && s.next - First(s) >= 0x8000_0000
    requires First(s) + s.outstanding[0].Length() <= s.acked
    ensures var p := s.PopAcked();
            && p.outstanding != [] && p.next == s.next && p.acked == s.acked
            && First(p) + p.outstanding[0].Length() <= s.acked
    decreases |s.outstanding|
  {
    hide Unwrap, Wrap;
    UnwrapBeyondReach(First(s), s.isn, s.next);
    var t := s.ResetTimer().(outstanding := s.outstanding[1..]);
    if s.PopAcked() != s {
      FrontShort(t);
      PopBeyondReach(t);
    }
  }

  lemma {:induction false} UnackedFront(segs: seq<TcpSegment>, from: nat, acked: nat)
    ensures var u := Unacked(segs, from, acked);
            u != [] ==> acked < from + TotalLength(segs) - TotalLength(u) + u[0].Length()
  {
    if segs != [] && from + segs[0].Length() <= acked {
      UnackedFront(segs[1..], from + segs[0].Length(), acked);
    }
  }

  /** Popping by 32-bit numbers is popping by absolute number if and only if the queue reaches back less than 2^31
      numbers or there is nothing to pop.  Beyond that, something acknowledged always stays in the queue. */
  lemma PopIsExact(s: Sender)
    requires Queue(s) && s.outstanding != [] && First(s) <= s.acked <= s.next <= 0xFFFF_FFFF_0000_0000
    ensures s.PopAcked().outstanding == Unacked(s.outstanding, First(s), s.acked) <==>
            s.next - First(s) < 0x8000_0000 || s.acked < First(s) + s.outstanding[0].Length()
  {
    hide Unwrap, Wrap, Chain;
    if s.next - First(s) < 0x8000_0000 {
      PopIsByAbsoluteNumber(s);
    } else if s.acked < First(s) + s.outstanding[0].Length() {
      NothingToPop(s);
    } else {
      PopBeyondReach(s);
      UnackedFront(s.outstanding, First(s), s.acked);
    }
  }

  /** The estimate and what is in flight add up to the window (counted as at least 1) exactly when no more
      is in flight than that; and nothing in flight never leaves the estimate at zero. */
  lemma EstimateExact(win: uint16, inFlight: nat)
    ensures Estimate(win, inFlight) + inFlight == Max(win, 1) <==> inFlight <= Max(win, 1)
    ensures Estimate(win, inFlight) == 0 ==> inFlight >= 1
  {
  }

  /** Beyond that point the estimate wraps around: it lets the sender go on by 2^16 numbers too many, and by as many
      again for every further 2^16 in flight. */
  lemma EstimateWrapsAround(win: uint16, inFlight: nat, turns: nat)
    requires Max(win, 1) + turns * 0x1_0000 < inFlight <= Max(win, 1) + (turns + 1) * 0x1_0000
    ensures Estimate(win, inFlight) + inFlight == Max(win, 1) + (turns + 1) * 0x1_0000
  {
    DivModUnique(Max(win, 1) - inFlight, 0x1_0000, -(turns + 1), Max(win, 1) - inFlight + (turns + 1) * 0x1_0000);
  }

  /** Popping never drops a segment that is not acknowledged, however far back the queue reaches. */
  lemma {:induction false} PopKeepsBooks(s: Sender)
    requires s.Ready() && Books(s) && s.next <= 0xFFFF_FFFF_0000_0000
    ensures s.PopAcked().Ready() && Books(s.PopAcked())
    decreases |s.outstanding|
  {
    hide Unwrap, Wrap;
    if s.PopAcked() != s {
      UnwrapNotBefore(First(s), s.isn, s.next);
      PopKeepsBooks(s.ResetTimer().(outstanding := s.outstanding[1..]));
    }
  }

  lemma AcknowledgeKeepsBooks(s: Sender, a: nat, win: uint16)
    requires Inv(s) && a <= s.next
    ensures Books(s.Acknowledge(a, win)) && First(s.Acknowledge(a, win)) == First(s)
  {
    hide Chain, TotalLength, Estimate;
    EstimateExact(win, s.Acknowledge(a, win).InFlight());
  }

  lemma FillKeepsBooks(s: Sender)
    requires s.Ready() && Books(s)
    ensures Books(s.FillWindow().StopIfIdle())
  {
    hide Chain, TotalLength, Sender.FillWindow;
    FillKeepsQueue(s);
  }

  /** The sender invariant holds after any acknowledgment, true or false, current or old. */
  lemma AckKeepsInv(s: Sender, ackno: uint32, win: uint16)
    requires Inv(s) && s.next <= 0xFFFF_FFFF_0000_0000
    ensures Inv(s.AckReceived(ackno, win))
  {
    hide Unwrap, Sender.FillWindow, Sender.PopAcked, Chain, TotalLength, Estimate;
    AckKeepsSane(s, ackno, win);
    var a := Unwrap(ackno, s.isn, s.next);
    if a <= s.next {
      AcknowledgeKeepsBooks(s, a, win);
      if s.timerOn {
        PopFrame(s.Acknowledge(a, win));
        PopKeepsBooks(s.Acknowledge(a, win));
        FillKeepsBooks(s.Acknowledge(a, win).PopAcked());
      }
    }
  }

  /** What an acknowledgment needs to be popped right (the condition of `PopIsExact`): the queue reaches back less than
      2^31 numbers, or there is nothing to pop. */
  predicate PopsRight(s: Sender, ackno: uint32)
  {
    var a := Unwrap(ackno, s.isn, s.next);
    a <= s.next && s.outstanding != [] ==>
      s.next - First(s) < 0x8000_0000 || Max(s.acked, a) < First(s) + s.outstanding[0].Length()
  }

  /** The first unacknowledged number stays in the front segment exactly under that condition. */
  lemma AckKeepsFront(s: Sender, ackno: uint32, win: uint16)
    requires Inv(s) && FrontCoversAcked(s) && s.next <= 0xFFFF_FFFF_0000_0000
    ensures FrontCoversAcked(s.AckReceived(ackno, win)) <==> PopsRight(s, ackno)
  {
    hide Unwrap, Sender.FillWindow, Sender.PopAcked, Chain, TotalLength, Estimate;
    var a := Unwrap(ackno, s.isn, s.next);
    if a <= s.next && s.timerOn {
      var s1 := s.Acknowledge(a, win);
      AcknowledgeKeepsBooks(s, a, win);
      PopFrame(s1);
      PopKeepsBooks(s1);
      FillKeepsQueue(s1.PopAcked());
      if s.next - First(s) < 0x8000_0000 {
        PopIsByAbsoluteNumber(s1);
      } else if s1.acked < First(s) + s.outstanding[0].Length() {
        NothingToPop(s1);
      } else {
        PopBeyondReach(s1);
      }
    }
  }

  lemma NothingToPop(s: Sender)
    requires Queue(s) && s.outstanding != [] && s.acked <= s.next <= 0xFFFF_FFFF_0000_0000
    requires s.acked < First(s) + s.outstanding[0].Length()
    ensures s.PopAcked() == s
  {
    hide Unwrap, Wrap;
    UnwrapNotBefore(First(s), s.isn, s.next);
  }

  lemma FrontShort(s: Sender)
    requires Queue(s) && s.outstanding != []
    ensures s.outstanding[0].Length() <= 1002
  {
  }
}
