/** The sending half of a connection (libsponge/tcp_sender.cc). */
module TcpSenders {
  import opened Words
  import opened WrappingIntegers
  import opened ByteStreams
  import opened TcpSegments

  function Segment(abs: nat, isn: uint32, syn: bool, fin: bool, payload: seq<byte>): TcpSegment
  {
    TcpSegment(DEFAULT_HEADER.(seqno := Wrap(abs, isn), syn := syn, fin := fin), payload)
  }

  /** `data` cut into segments of at most 1000 bytes from absolute sequence number `abs` on, with SYN on the
      first and FIN on the last; no segment at all if there is nothing to carry. */
  function Cut(data: seq<byte>, abs: nat, isn: uint32, syn: bool, fin: bool): seq<TcpSegment>
    decreases |data|
  {
    if |data| > 1000 then
      [Segment(abs, isn, syn, false, data[..1000])] + Cut(data[1000..], abs + Bit(syn) + 1000, isn, false, fin)
    else if data == [] && !syn && !fin then []
    else [Segment(abs, isn, syn, fin, data)]
  }

  /** The estimate of what may still be sent.  The subtraction is done in 64 bits and narrowed to 16, so it
      wraps around when more is in flight than the window allows. */
  function Estimate(win: uint16, inFlight: nat): uint16
  {
    (Max(win, 1) - inFlight) % 0x1_0000
  }

  datatype Sender = Sender(
    isn: uint32,
    window: uint16,                 // what may still be sent
    peerWindow: uint16,             // the window last advertised by the peer
    segmentsOut: seq<TcpSegment>,
    outstanding: seq<TcpSegment>,
    timerOn: bool,
    initialRto: uint16,
    rto: uint32,
    elapsed: uint64,
    retransmissions: nat,
    stream: Stream,
    finSent: bool,
    acked: nat,                     // absolute sequence numbers
    next: nat)
  {
    /** Enough to fill the window without an unsigned subtraction going below zero. */
    predicate Ready()
    {
      stream.Ok() && acked <= next && (next == 0 ==> window >= 1)
    }

    /** What holds between any two calls, whatever was acknowledged and however windows changed. */
    predicate Sane()
    {
      Ready() && (timerOn <==> outstanding != []) && (outstanding != [] ==> next > 0)
    }

    function InFlight(): nat
      requires acked <= next
    {
      next - acked
    }

    predicate HasSyn() { next == 0 }

    predicate HasFin() { stream.ended && !finSent }

    /** Everything that could be sent if the window were large enough, in sequence numbers. */
    function Unsent(): nat
      requires stream.Ok()
    {
      Bit(HasSyn()) + |stream.Buffer()| + Bit(HasFin())
    }

    predicate ReachFin()
      requires stream.Ok()
    {
      HasFin() && window >= Unsent()
    }

    function Sendable(): nat
      requires stream.Ok()
    {
      Min(Unsent(), window)
    }

    function PayloadSize(): (n: nat)
      requires Ready()
      ensures n <= |stream.Buffer()|
    {
      Sendable() - Bit(HasSyn()) - Bit(ReachFin())
    }

    function NewSegments(): seq<TcpSegment>
      requires Ready()
    {
      Cut(stream.Buffer()[..PayloadSize()], next, isn, HasSyn(), ReachFin())
    }

    function ResetTimer(): Sender
    {
      this.(rto := initialRto, elapsed := 0, retransmissions := 0)
    }

    /** After `segs` were sent, occupying `length` sequence numbers and `size` bytes of the stream.  Sending
        starts the timer if it was off. */
    function Sent(segs: seq<TcpSegment>, length: nat, size: nat, fin: bool): Sender
      requires stream.Ok() && length <= window && size <= |stream.Buffer()|
    {
      var s := this.(stream := stream.Pop(size), next := next + length, window := window - length,
                     segmentsOut := segmentsOut + segs, outstanding := outstanding + segs, finSent := finSent || fin);
      if segs != [] && !timerOn then s.ResetTimer().(timerOn := true) else s
    }

    lemma SentNone()
      requires stream.Ok()
      ensures Sent([], 0, 0, false) == this
    {
      assert segmentsOut + [] == segmentsOut && outstanding + [] == outstanding;
    }

    lemma SentFields(segs: seq<TcpSegment>, length: nat, size: nat, fin: bool)
      requires stream.Ok() && length <= window && size <= |stream.Buffer()|
      ensures var s := Sent(segs, length, size, fin);
              && s.stream == stream.Pop(size) && s.stream.Ok() && s.stream.Buffer() == stream.Buffer()[size..]
              && s.next == next + length && s.window == window - length
              && s.segmentsOut == segmentsOut + segs && s.outstanding == outstanding + segs
              && s.finSent == (finSent || fin)
    {
    }

    /** Sending in two goes is sending it all at once. */
    lemma SentTwice(segs: seq<TcpSegment>, length: nat, size: nat, fin: bool,
                    segs': seq<TcpSegment>, length': nat, size': nat, fin': bool)
      requires stream.Ok() && length + length' <= window && size + size' <= |stream.Buffer()|
      ensures var s := Sent(segs, length, size, fin);
              && length' <= s.window && s.stream.Ok() && size' <= |s.stream.Buffer()|
              && s.Sent(segs', length', size', fin') == Sent(segs + segs', length + length', size + size', fin || fin')
    {
      assert segmentsOut + segs + segs' == segmentsOut + (segs + segs');
      assert outstanding + segs + segs' == outstanding + (segs + segs');
    }

    function FillWindow(): (s: Sender)
      requires Ready()
      ensures s.Ready()
    {
      Sent(NewSegments(), Sendable(), PayloadSize(), ReachFin())
    }

    function PopAcked(): (s: Sender)
      decreases |outstanding|
    {
      if outstanding != [] && Unwrap(outstanding[0].header.seqno, isn, next) + outstanding[0].Length() <= acked
      then this.ResetTimer().(outstanding := outstanding[1..]).PopAcked()
      else this
    }

    function StopIfIdle(): Sender
    {
      if outstanding == [] then this.(timerOn := false) else this
    }

    /** Record an acceptable acknowledgment. */
    function Acknowledge(a: nat, win: uint16): Sender
      requires acked <= next && a <= next
    {
      var acked' := Max(acked, a);
      this.(acked := acked', peerWindow := win, window := Estimate(win, next - acked'))
    }

    function AckReceived(ackno: uint32, win: uint16): (s: Sender)
      requires Sane()
    {
      var a := Unwrap(ackno, isn, next);
      if a > next then StopIfIdle()
      else
        var s := Acknowledge(a, win);
        if !timerOn then s
        else
          PopFrame(s);
          s.PopAcked().FillWindow().StopIfIdle()
    }

    function Tick(ms: uint64): (s: Sender)
      requires Sane()
    {
      if !timerOn then this
      else
        var s := this.(elapsed := (elapsed + ms) % 0x1_0000_0000_0000_0000);
        if s.elapsed < rto then s
        else
          var s := s.(segmentsOut := segmentsOut + [outstanding[0]], elapsed := 0);
          if peerWindow > 0 then s.(retransmissions := retransmissions + 1, rto := (rto * 2) % 0x1_0000_0000) else s
    }

    function SendEmpty(): Sender
    {
      this.(segmentsOut := segmentsOut + [Segment(next, isn, false, false, [])])
    }
  }

  /** Popping changes the queue and the timer fields, and nothing else. */
  lemma {:induction false} PopFrame(s: Sender)
    ensures var p := s.PopAcked();
            && p == s.(outstanding := p.outstanding, rto := p.rto, elapsed := p.elapsed,
                         retransmissions := p.retransmissions)
            && |p.outstanding| <= |s.outstanding| && p.outstanding == s.outstanding[|s.outstanding| - |p.outstanding|..]
    decreases |s.outstanding|
  {
    hide Unwrap;
    var p := s.PopAcked();
    if p != s {
      PopFrame(s.ResetTimer().(outstanding := s.outstanding[1..]));
    }
  }

  lemma FillKeepsSane(s: Sender)
    requires s.Ready() && (s.outstanding != [] ==> s.next > 0) && (s.outstanding != [] ==> s.timerOn)
    ensures var f := s.FillWindow();
            && (f.outstanding != [] ==> f.next > 0) && (f.outstanding != [] ==> f.timerOn)
            && (s.Sane() ==> f.Sane()) && f.StopIfIdle().Sane()
  {
    if s.Sendable() == 0 {
      assert s.NewSegments() == [];
    }
  }

  /** An acknowledgment keeps the timer on exactly while something is outstanding, whatever it claims. */
  lemma AckKeepsSane(s: Sender, ackno: uint32, win: uint16)
    requires s.Sane()
    ensures s.AckReceived(ackno, win).Sane()
  {
    hide Unwrap, Sender.FillWindow, Sender.PopAcked;
    var a := Unwrap(ackno, s.isn, s.next);
    if a <= s.next && s.timerOn {
      PopFrame(s.Acknowledge(a, win));
      FillKeepsSane(s.Acknowledge(a, win).PopAcked());
    }
  }

  /** How many segments the source's division yields. */
  function SegmentCount(size: nat, flags: bool): nat
  {
    Max((size + 999) / 1000, Bit(flags))
  }

  /** What is left of `Cut` after `i` of the segments the source counts. */
  ghost function Uncut(data: seq<byte>, i: nat, abs: nat, isn: uint32, syn: bool, fin: bool): seq<TcpSegment>
  {
    if i < SegmentCount(|data|, syn || fin) && 1000 * i <= |data|
    then Cut(data[1000 * i..], abs, isn, syn && i == 0, fin) else []
  }

  /** The loop of `fill_window` peels exactly the next segment off. */
  lemma UncutNext(data: seq<byte>, i: nat, abs: nat, isn: uint32, syn: bool, fin: bool)
    requires i < SegmentCount(|data|, syn || fin)
    ensures 1000 * i <= |data|
    ensures var n := SegmentCount(|data|, syn || fin);
            var size := if i == n - 1 then |data| - 1000 * i else 1000;
            var seg := Segment(abs, isn, syn && i == 0, fin && i == n - 1, data[1000 * i..][..size]);
            && 0 <= size <= |data| - 1000 * i && (i == n - 1 <==> |data| - 1000 * i <= 1000)
            && seg.Length() == size + Bit(syn && i == 0) + Bit(fin && i == n - 1)
            && Uncut(data, i, abs, isn, syn, fin) == [seg] + Uncut(data, i + 1, abs + seg.Length(), isn, syn, fin)
  {
    var n := SegmentCount(|data|, syn || fin);
    var rest := data[1000 * i..];
    if i == n - 1 {
      assert rest[..|rest|] == rest;
    } else {
      assert rest[1000..] == data[1000 * (i + 1)..];
    }
  }

  lemma UncutAll(data: seq<byte>, abs: nat, isn: uint32, syn: bool, fin: bool)
    ensures Uncut(data, 0, abs, isn, syn, fin) == Cut(data, abs, isn, syn, fin)
    ensures Uncut(data, SegmentCount(|data|, syn || fin), abs, isn, syn, fin) == []
  {
    assert data[0..] == data;
  }

  /** The sequence numbers sent by the first `index` turns. */
  function TurnLength(s0: Sender, index: nat): nat
    requires s0.Ready()
  {
    var size, syn, fin := s0.PayloadSize(), s0.HasSyn(), s0.ReachFin();
    Min(1000 * index, size) + Bit(syn && index > 0) + Bit(fin && index == SegmentCount(size, syn || fin))
  }

  /** How far `fill_window` has got after `index` turns of its loop: `done` was sent, the rest is still to be cut. */
  ghost predicate Filling(s0: Sender, s: Sender, index: nat, done: seq<TcpSegment>)
    requires s0.Ready()
  {
    var size, syn, fin := s0.PayloadSize(), s0.HasSyn(), s0.ReachFin();
    var count := SegmentCount(size, syn || fin);
    var length := TurnLength(s0, index);
    && index <= count && length <= s0.window
    && done + Uncut(s0.stream.Buffer()[..size], index, s0.next + length, s0.isn, syn, fin) == s0.NewSegments()
    && s == s0.Sent(done, length, Min(1000 * index, size), fin && index == count)
  }

  lemma FillingStart(s0: Sender)
    requires s0.Ready()
    ensures Filling(s0, s0, 0, [])
  {
    hide Cut, Uncut;
    UncutAll(s0.stream.Buffer()[..s0.PayloadSize()], s0.next, s0.isn, s0.HasSyn(), s0.ReachFin());
    s0.SentNone();
  }

  lemma FillingDone(s0: Sender, s: Sender, index: nat, done: seq<TcpSegment>)
    requires s0.Ready() && Filling(s0, s, index, done)
    requires index == SegmentCount(s0.PayloadSize(), s0.HasSyn() || s0.ReachFin())
    ensures s == s0.FillWindow()
  {
    hide Cut, Uncut, Sender.Sent;
    var size, syn, fin := s0.PayloadSize(), s0.HasSyn(), s0.ReachFin();
    UncutAll(s0.stream.Buffer()[..size], s0.next + s0.Sendable(), s0.isn, syn, fin);
    assert Min(1000 * index, size) == size && done + [] == done;
  }

  lemma TurnArithmetic(size: nat, flags: bool, index: nat, len: int)
    requires index < SegmentCount(size, flags)
    requires len == if index == SegmentCount(size, flags) - 1 then size - 1000 * index else 1000
    ensures 0 <= len && 1000 * index + len <= size
    ensures Min(1000 * index, size) == 1000 * index && Min(1000 * (index + 1), size) == 1000 * index + len
  {
  }

  lemma SliceOfPrefix(b: seq<byte>, size: nat, off: nat, len: nat)
    requires off + len <= size <= |b|
    ensures b[..size][off..][..len] == b[off..][..len]
  {
  }

  lemma TurnLengthNext(s0: Sender, index: nat, len: nat)
    requires s0.Ready()
    requires var count := SegmentCount(s0.PayloadSize(), s0.HasSyn() || s0.ReachFin());
             index < count && len == if index == count - 1 then s0.PayloadSize() - 1000 * index else 1000
    ensures var size, syn, fin := s0.PayloadSize(), s0.HasSyn(), s0.ReachFin();
            var count := SegmentCount(size, syn || fin);
            && TurnLength(s0, index) == 1000 * index + Bit(syn && index > 0)
            && TurnLength(s0, index + 1) ==
               TurnLength(s0, index) + len + Bit(index == 0 && syn) + Bit(index == count - 1 && fin)
            && TurnLength(s0, index + 1) <= s0.window
  {
    TurnArithmetic(s0.PayloadSize(), s0.HasSyn() || s0.ReachFin(), index, len);
  }

  /** One more turn: the segment the source builds is the next one of the cut. */
  lemma FillingNext(s0: Sender, s: Sender, index: nat, done: seq<TcpSegment>, len: nat)
    requires s0.Ready() && Filling(s0, s, index, done)
    requires var count := SegmentCount(s0.PayloadSize(), s0.HasSyn() || s0.ReachFin());
             index < count && len == if index == count - 1 then s0.PayloadSize() - 1000 * index else 1000
    ensures s.stream.Ok() && len <= |s.stream.Buffer()|
    ensures var count := SegmentCount(s0.PayloadSize(), s0.HasSyn() || s0.ReachFin());
            var seg := Segment(s.next, s0.isn, index == 0 && s0.HasSyn(), index == count - 1 && s0.ReachFin(),
                               s.stream.Buffer()[..len]);
            && seg.Length() <= s.window
            && Filling(s0, s.Sent([seg], seg.Length(), len, seg.header.fin), index + 1, done + [seg])
  {
    hide Cut, Uncut, Sender.Sent, Wrap, SegmentCount, Stream.Pop, TurnLength, Sender.PayloadSize, Sender.ReachFin,
         Sender.NewSegments;
    var size, syn, fin := s0.PayloadSize(), s0.HasSyn(), s0.ReachFin();
    var count := SegmentCount(size, syn || fin);
    var b := s0.stream.Buffer();
    var data := b[..size];
    var length := TurnLength(s0, index);
    TurnArithmetic(size, syn || fin, index, len);
    TurnLengthNext(s0, index, len);
    UncutNext(data, index, s0.next + length, s0.isn, syn, fin);
    s0.SentFields(done, length, 1000 * index, false);
    SliceOfPrefix(b, size, 1000 * index, len);
    var seg := Segment(s.next, s0.isn, index == 0 && syn, index == count - 1 && fin, s.stream.Buffer()[..len]);
    s0.SentTwice(done, length, 1000 * index, false, [seg], seg.Length(), len, seg.header.fin);
    SeqAssoc(done, [seg], Uncut(data, index + 1, s0.next + TurnLength(s0, index + 1), s0.isn, syn, fin));
  }

  class TCPSender {
    const isn: uint32
    const initialRto: uint16
    const stream: ByteStream
    var window: uint16
    var peerWindow: uint16
    var segmentsOut: seq<TcpSegment>
    var outstanding: seq<TcpSegment>
    var timerOn: bool
    var rto: uint32
    var elapsed: uint64
    var retransmissions: nat
    var finSent: bool
    var acked: nat
    var next: nat

    ghost function State(): (s: Sender)
      requires stream.Valid()
      reads this, stream
      ensures s.stream.Ok()
    {
      Sender(isn, window, peerWindow, segmentsOut, outstanding, timerOn, initialRto, rto, elapsed, retransmissions,
             stream.State(), finSent, acked, next)
    }

    ghost predicate Valid()
      reads this, stream
    {
      stream.Valid() && State().Sane()
    }

    constructor (capacity: nat, retxTimeout: uint16, isn: uint32)
      ensures Valid() && fresh(stream)
      ensures State() == Sender(isn, 1, 1, [], [], false, retxTimeout, retxTimeout, 0, 0,
                                Stream(capacity, [], 0, false, false), false, 0, 0)
    {
      this.isn := isn;
      initialRto, rto := retxTimeout, retxTimeout;
      stream := new ByteStream(capacity);
      window, peerWindow := 1, 1;
      segmentsOut, outstanding := [], [];
      timerOn, elapsed, retransmissions := false, 0, 0;
      finSent, acked, next := false, 0, 0;
    }

    method FillWindow()
      requires stream.Valid() && State().Ready()
      modifies this, stream
      ensures stream.Valid()
      ensures State() == old(State()).FillWindow()
    {
      hide Sender.FillWindow;
      var hasSyn := next == 0;
      var hasFin := stream.inputEnded && !finSent;
      var total := Bit(hasSyn) + |stream.buffer| + Bit(hasFin);
      var reachFin := hasFin && window >= total;
      var actual := Min(total, window);
      var size := actual - Bit(hasSyn) - Bit(reachFin);
      SendSegments(size, hasSyn, reachFin);
    }

    /** The loop of `fill_window`. */
    method SendSegments(size: nat, hasSyn: bool, reachFin: bool)
      requires stream.Valid() && State().Ready()
      requires size == State().PayloadSize() && hasSyn == State().HasSyn() && reachFin == State().ReachFin()
      modifies this, stream
      ensures stream.Valid()
      ensures State() == old(State()).FillWindow()
    {
      hide Filling, Sender.FillWindow, Sender.Sent, Wrap, SegmentCount, Sender.PayloadSize, Sender.ReachFin;
      var count := SegmentCount(size, hasSyn || reachFin);
      ghost var s0 := State();
      ghost var done: seq<TcpSegment> := [];
      FillingStart(s0);
      var index := 0;
      while index < count
        invariant 0 <= index <= count && stream.Valid()
        invariant Filling(s0, State(), index, done)
      {
        var len: int := if index == count - 1 then size - 1000 * index else 1000;
        TurnArithmetic(size, hasSyn || reachFin, index, len);
        FillingNext(s0, State(), index, done, len);
        var segment := SendSegment(len, index == 0 && hasSyn, index == count - 1 && reachFin);
        done := done + [segment];
        index := index + 1;
      }
      FillingDone(s0, State(), index, done);
    }

    /** One turn of the loop of `fill_window`. */
    method SendSegment(len: nat, syn: bool, fin: bool) returns (segment: TcpSegment)
      requires stream.Valid() && len <= |stream.buffer| && len + Bit(syn) + Bit(fin) <= window
      modifies this, stream
      ensures stream.Valid()
      ensures segment == Segment(old(next), isn, syn, fin, old(stream.buffer)[..len])
      ensures segment.Length() == len + Bit(syn) + Bit(fin)
      ensures segment.header.fin == fin
      ensures State() == old(State()).Sent([segment], segment.Length(), len, fin)
    {
      hide Wrap, Stream.Ok, ByteStream.Valid, Stream.Pop;
      var payload := stream.Read(len);
      segment := Segment(next, isn, syn, fin, payload);
      Enqueue(segment);
      StartTimer();
    }

    method Enqueue(segment: TcpSegment)
      requires stream.Valid() && segment.Length() <= window
      modifies this
      ensures var s := old(State());
              State() == s.(next := s.next + segment.Length(), window := s.window - segment.Length(),
                            segmentsOut := s.segmentsOut + [segment], outstanding := s.outstanding + [segment],
                            finSent := s.finSent || segment.header.fin)
    {
      next := next + segment.Length();
      window := window - segment.Length();
      segmentsOut := segmentsOut + [segment];
      outstanding := outstanding + [segment];
      finSent := finSent || segment.header.fin;
    }

    /** Start the timer unless it runs. */
    method StartTimer()
      requires stream.Valid()
      modifies this
      ensures State() == if old(timerOn) then old(State()) else old(State()).ResetTimer().(timerOn := true)
    {
      if !timerOn {
        timerOn := true;
        rto := initialRto;
        elapsed := 0;
        retransmissions := 0;
      }
    }

    method AckReceived(ackno: uint32, win: uint16)
      requires Valid()
      modifies this, stream
      ensures Valid()
      ensures State() == old(State()).AckReceived(ackno, win)
    {
      hide Unwrap, Sender.FillWindow, Sender.PopAcked;
      ghost var s0 := State();
      AckKeepsSane(s0, ackno, win);
      var absoluteAckno := Unwrap(ackno, isn, next);
      if absoluteAckno <= next {
        acked := Max(acked, absoluteAckno);
        peerWindow := win;
        window := Estimate(win, next - acked);
        if !timerOn {
          return;
        }
        PopFrame(State());
        PopOutstanding();
        FillWindow();
      }
      if outstanding == [] {
        timerOn := false;
      }
    }

    /** The loop of `ack_received`. */
    method PopOutstanding()
      requires stream.Valid()
      modifies this
      ensures stream.Valid()
      ensures State() == old(State()).PopAcked()
    {
      hide Unwrap;
      while outstanding != []
        invariant stream.Valid() && State().PopAcked() == old(State()).PopAcked()
        decreases |outstanding|
      {
        var segment := outstanding[0];
        if Unwrap(segment.header.seqno, isn, next) + segment.Length() > acked {
          break;
        }
        rto := initialRto;
        retransmissions := 0;
        elapsed := 0;
        outstanding := outstanding[1..];
      }
    }

    method Tick(ms: uint64)
      requires Valid()
      modifies this
      ensures Valid()
      ensures State() == old(State()).Tick(ms)
    {
      if !timerOn {
        return;
      }
      elapsed := (elapsed + ms) % 0x1_0000_0000_0000_0000;
      if elapsed >= rto {
        segmentsOut := segmentsOut + [outstanding[0]];
        if peerWindow > 0 {
          retransmissions := retransmissions + 1;
          rto := (rto * 2) % 0x1_0000_0000;
        }
        elapsed := 0;
      }
    }

    method SendEmptySegment()
      requires Valid()
      modifies this
      ensures Valid()
      ensures State() == old(State()).SendEmpty()
    {
      segmentsOut := segmentsOut + [Segment(next, isn, false, false, [])];
    }
  }
}
