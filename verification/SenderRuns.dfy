/** Whole runs of a sender: every sequence of calls that the application, the peer and the clock can make. */
module SenderRuns {
  import opened Words
  import opened WrappingIntegers
  import opened ByteStreams
  import opened TcpSenders
  import opened SenderFacts

  datatype Event =
    | Write(data: seq<byte>)
    | EndInput
    | Fill
    | Ack(ackno: uint32, win: uint16)
    | Tick(ms: uint64)
    | SendEmpty
    | TakeOutput          // the owner empties the queue of segments to send
    | SetError

  function Step(s: Sender, e: Event): (s': Sender)
    requires s.Sane()
    ensures s'.Sane()
  {
    match e
    case Write(data) => s.(stream := s.stream.Write(data))
    case EndInput => s.(stream := s.stream.End())
    case Fill => FillKeepsSane(s); s.FillWindow()
    case Ack(ackno, win) => AckKeepsSane(s, ackno, win); s.AckReceived(ackno, win)
    case Tick(ms) => s.Tick(ms)
    case SendEmpty => s.SendEmpty()
    case TakeOutput => s.(segmentsOut := [])
    case SetError => s.(stream := s.stream.Fail())
  }

  function Run(s: Sender, es: seq<Event>): (s': Sender)
    requires s.Sane()
    ensures s'.Sane()
    decreases |es|
  {
    if es == [] then s else Step(Run(s, es[..|es| - 1]), es[|es| - 1])
  }

  /** A sender as it is constructed. */
  function Initial(capacity: nat, retxTimeout: uint16, isn: uint32): (s: Sender)
    ensures s.Sane()
  {
    Sender(isn, 1, 1, [], [], false, retxTimeout, retxTimeout, 0, 0, Stream(capacity, [], 0, false, false), false, 0, 0)
  }

  // ----- the queue -----

  /** At each acknowledgment of the run, absolute numbers are 2^32 short of overflowing 64 bits. */
  predicate NumbersFitThroughout(s: Sender, es: seq<Event>)
    requires s.Sane()
    decreases |es|
  {
    es == [] ||
    (var e, before := es[|es| - 1], es[..|es| - 1];
     NumbersFitThroughout(s, before) && (e.Ack? ==> Run(s, before).next <= 0xFFFF_FFFF_0000_0000))
  }

  lemma StepKeepsInv(s: Sender, e: Event)
    requires Inv(s) && (e.Ack? ==> s.next <= 0xFFFF_FFFF_0000_0000)
    ensures Inv(Step(s, e))
  {
    hide Sender.AckReceived, Sender.FillWindow, Chain, TotalLength;
    match e
    case Ack(ackno, win) => AckKeepsInv(s, ackno, win);
    case Fill => FillKeepsSane(s); FillKeepsQueue(s);
    case _ =>
  }

  /** In every run, whatever is acknowledged and however much is in flight: outstanding segments are contiguous up to
      `next` and reach back at least to the first unacknowledged number, and the timer runs exactly while there are
      any. */
  lemma {:induction false} QueueInvariant(capacity: nat, retxTimeout: uint16, isn: uint32, es: seq<Event>)
    requires NumbersFitThroughout(Initial(capacity, retxTimeout, isn), es)
    ensures var s := Run(Initial(capacity, retxTimeout, isn), es);
            && Inv(s) && Queue(s) && First(s) <= s.acked
            && (s.outstanding == [] ==> s.InFlight() == 0) && (s.outstanding == [] <==> !s.timerOn)
    decreases |es|
  {
    hide Step;
    var s0 := Initial(capacity, retxTimeout, isn);
    if es != [] {
      var before := es[..|es| - 1];
      QueueInvariant(capacity, retxTimeout, isn, before);
      StepKeepsInv(Run(s0, before), es[|es| - 1]);
    }
    IdleIffTimerOff(Run(s0, es));
  }

  /** At every point of the run, the first unacknowledged number lies in the oldest outstanding segment. */
  predicate TightThroughout(s: Sender, es: seq<Event>)
    requires s.Sane()
    decreases |es|
  {
    FrontCoversAcked(Run(s, es)) && (es == [] || TightThroughout(s, es[..|es| - 1]))
  }

  /** At every acknowledgment of the run, the queue reaches back less than 2^31 numbers or there is nothing to pop. */
  predicate PopsRightThroughout(s: Sender, es: seq<Event>)
    requires s.Sane()
    decreases |es|
  {
    es == [] ||
    (var e, before := es[|es| - 1], es[..|es| - 1];
     PopsRightThroughout(s, before) && (e.Ack? ==> PopsRight(Run(s, before), e.ackno)))
  }

  lemma StepKeepsFront(s: Sender, e: Event)
    requires Inv(s) && FrontCoversAcked(s) && (e.Ack? ==> s.next <= 0xFFFF_FFFF_0000_0000)
    ensures FrontCoversAcked(Step(s, e)) <==> (e.Ack? ==> PopsRight(s, e.ackno))
  {
    hide Sender.AckReceived, Sender.FillWindow, PopsRight, Chain, TotalLength;
    match e
    case Ack(ackno, win) => AckKeepsFront(s, ackno, win);
    case Fill => FillKeepsQueue(s);
    case _ =>
  }

  /** In every run, the first unacknowledged number lies in the oldest outstanding segment throughout if and only if
      every acknowledgment is popped right; then nothing in flight, nothing outstanding and no timer are the same
      thing. */
  lemma {:induction false} QueueIsTight(capacity: nat, retxTimeout: uint16, isn: uint32, es: seq<Event>)
    requires NumbersFitThroughout(Initial(capacity, retxTimeout, isn), es)
    ensures TightThroughout(Initial(capacity, retxTimeout, isn), es) <==>
            PopsRightThroughout(Initial(capacity, retxTimeout, isn), es)
    ensures TightThroughout(Initial(capacity, retxTimeout, isn), es) ==>
              var s := Run(Initial(capacity, retxTimeout, isn), es);
              (s.outstanding == [] <==> s.InFlight() == 0) && (s.InFlight() == 0 <==> !s.timerOn)
    decreases |es|
  {
    hide Step, PopsRight, FrontCoversAcked;
    var s0 := Initial(capacity, retxTimeout, isn);
    QueueInvariant(capacity, retxTimeout, isn, es);
    IdleIffTimerOff(Run(s0, es));
    if es == [] {
      InitialIsTight(capacity, retxTimeout, isn);
    } else {
      var before := es[..|es| - 1];
      QueueIsTight(capacity, retxTimeout, isn, before);
      QueueInvariant(capacity, retxTimeout, isn, before);
      if TightThroughout(s0, before) {
        StepKeepsFront(Run(s0, before), es[|es| - 1]);
      }
    }
  }

  lemma InitialIsTight(capacity: nat, retxTimeout: uint16, isn: uint32)
    ensures FrontCoversAcked(Initial(capacity, retxTimeout, isn))
  {
  }

  // ----- the retransmission timer -----

  /** The timeout is the initial one, doubled for every consecutive retransmission, in 32 bits. */
  predicate BackedOff(s: Sender)
  {
    s.rto == (s.initialRto * Pow2(s.retransmissions)) % 0x1_0000_0000
  }

  lemma DoubleInWord(x: nat)
    ensures ((x % 0x1_0000_0000) * 2) % 0x1_0000_0000 == (2 * x) % 0x1_0000_0000
  {
    var q, r := x / 0x1_0000_0000, x % 0x1_0000_0000;
    if r < 0x8000_0000 {
      DivModUnique(2 * x, 0x1_0000_0000, 2 * q, 2 * r);
    } else {
      DivModUnique(2 * x, 0x1_0000_0000, 2 * q + 1, 2 * r - 0x1_0000_0000);
    }
  }

  lemma Pow2Zero()
    ensures Pow2(0) == 1
  {
  }

  lemma StepBacksOff(s: Sender, e: Event)
    requires s.Sane() && BackedOff(s)
    ensures BackedOff(Step(s, e)) && Step(s, e).initialRto == s.initialRto
  {
    hide Sender.AckReceived, Sender.Tick, Sender.FillWindow, Pow2;
    match e
    case Tick(ms) => TickBacksOff(s, ms);
    case Fill => FillBacksOff(s);
    case Ack(ackno, win) => AckBacksOff(s, ackno, win);
    case _ =>
  }

  lemma FillBacksOff(s: Sender)
    requires s.Ready() && BackedOff(s)
    ensures BackedOff(s.FillWindow()) && s.FillWindow().initialRto == s.initialRto
  {
    hide Sender.NewSegments, Pow2;
    Pow2Zero();
  }

  lemma AckBacksOff(s: Sender, ackno: uint32, win: uint16)
    requires s.Sane() && BackedOff(s)
    ensures BackedOff(s.AckReceived(ackno, win)) && s.AckReceived(ackno, win).initialRto == s.initialRto
  {
    hide Unwrap, Sender.PopAcked, Estimate, Sender.FillWindow, Pow2;
    var a := Unwrap(ackno, s.isn, s.next);
    if a <= s.next {
      var s1 := s.Acknowledge(a, win);
      PopBacksOff(s1);
      PopFrame(s1);
      if s.timerOn {
        FillBacksOff(s1.PopAcked());
      }
    }
  }

  lemma TickBacksOff(s: Sender, ms: uint64)
    requires s.Sane() && BackedOff(s)
    ensures BackedOff(s.Tick(ms)) && s.Tick(ms).initialRto == s.initialRto
  {
    MulDouble(s.initialRto, Pow2(s.retransmissions));
    DoubleInWord(s.initialRto * Pow2(s.retransmissions));
  }

  lemma {:induction false} PopBacksOff(s: Sender)
    requires BackedOff(s)
    ensures BackedOff(s.PopAcked())
    decreases |s.outstanding|
  {
    hide Unwrap;
    if s.PopAcked() != s {
      PopBacksOff(s.ResetTimer().(outstanding := s.outstanding[1..]));
    }
  }

  /** Milliseconds ticked in a run. */
  function Ticked(es: seq<Event>): nat
    decreases |es|
  {
    if es == [] then 0 else Ticked(es[..|es| - 1]) + (if es[|es| - 1].Tick? then es[|es| - 1].ms else 0)
  }

  predicate Retransmits(s: Sender, ms: uint64)
  {
    s.timerOn && (s.elapsed + ms) % 0x1_0000_0000_0000_0000 >= s.rto
  }

  /** A tick that retransmits sends the oldest outstanding segment again, and nothing else. */
  lemma RetransmissionIsFront(s: Sender, ms: uint64)
    requires s.Sane()
    ensures s.Tick(ms).segmentsOut == s.segmentsOut + if Retransmits(s, ms) then [s.outstanding[0]] else []
    ensures Retransmits(s, ms) ==> s.Tick(ms).elapsed == 0
  {
  }

  lemma {:induction false} PopElapsed(s: Sender)
    ensures s.PopAcked().elapsed <= s.elapsed
    decreases |s.outstanding|
  {
    hide Unwrap;
    if s.PopAcked() != s {
      PopElapsed(s.ResetTimer().(outstanding := s.outstanding[1..]));
    }
  }

  lemma StepElapsed(s: Sender, e: Event)
    requires s.Sane()
    ensures Step(s, e).elapsed <= s.elapsed + if e.Tick? then e.ms else 0
  {
    hide Unwrap, Sender.PopAcked, Estimate, Sender.NewSegments;
    match e
    case Ack(ackno, win) =>
      if Unwrap(ackno, s.isn, s.next) <= s.next {
        PopElapsed(s.Acknowledge(Unwrap(ackno, s.isn, s.next), win));
        PopFrame(s.Acknowledge(Unwrap(ackno, s.isn, s.next), win));
      }
    case _ =>
  }

  lemma {:induction false} RunElapsed(s: Sender, es: seq<Event>)
    requires s.Sane()
    ensures Run(s, es).elapsed <= s.elapsed + Ticked(es)
    decreases |es|
  {
    hide Step;
    if es != [] {
      RunElapsed(s, es[..|es| - 1]);
      StepElapsed(Run(s, es[..|es| - 1]), es[|es| - 1]);
    }
  }

  lemma {:induction false} RunBacksOff(s: Sender, es: seq<Event>)
    requires s.Sane() && BackedOff(s)
    ensures BackedOff(Run(s, es)) && Run(s, es).initialRto == s.initialRto
    decreases |es|
  {
    hide Step, BackedOff;
    if es != [] {
      RunBacksOff(s, es[..|es| - 1]);
      StepBacksOff(Run(s, es[..|es| - 1]), es[|es| - 1]);
    }
  }

  /** The back-off law.  Take any run, let a tick retransmit, let anything at all happen, and let another tick
      retransmit with `n` consecutive retransmissions on the counter: at least the initial timeout times 2^n
      (in 32 bits) has been ticked in between. */
  lemma BackOffLaw(capacity: nat, retxTimeout: uint16, isn: uint32,
                   es: seq<Event>, first: uint64, between: seq<Event>, second: uint64)
    requires Retransmits(Run(Initial(capacity, retxTimeout, isn), es), first)
    requires Retransmits(Run(Run(Initial(capacity, retxTimeout, isn), es).Tick(first), between), second)
    ensures var s := Run(Run(Initial(capacity, retxTimeout, isn), es).Tick(first), between);
            && s.rto == (retxTimeout * Pow2(s.retransmissions)) % 0x1_0000_0000
            && Ticked(between) + second >= s.rto
  {
    hide Run, Pow2, BackedOff;
    var s0 := Initial(capacity, retxTimeout, isn);
    assert BackedOff(s0) by { InitialBackedOff(capacity, retxTimeout, isn); }
    RunBacksOff(s0, es);
    var s1 := Run(s0, es).Tick(first);
    TickBacksOff(Run(s0, es), first);
    RetransmissionIsFront(Run(s0, es), first);
    RunBacksOff(s1, between);
    RunElapsed(s1, between);
    BackedOffMeans(Run(s1, between));
  }

  lemma InitialBackedOff(capacity: nat, retxTimeout: uint16, isn: uint32)
    ensures BackedOff(Initial(capacity, retxTimeout, isn))
  {
  }

  lemma BackedOffMeans(s: Sender)
    requires BackedOff(s)
    ensures s.rto == (s.initialRto * Pow2(s.retransmissions)) % 0x1_0000_0000
  {
  }
}
