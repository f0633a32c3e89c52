/** The retransmission timer of a sender, against a clock that knows nothing of its fields. */
module SenderTimers {
  import opened Words
  import opened WrappingIntegers
  import opened TcpSenders
  import opened SenderFacts
  import opened SenderRuns

  // ----- one call -----

  /** The timer is as it is after a restart. */
  predicate AtRest(s: Sender)
  {
    s.rto == s.initialRto && s.elapsed == 0 && s.retransmissions == 0
  }

  predicate SameTimer(s: Sender, s': Sender)
  {
    s'.rto == s.rto && s'.elapsed == s.elapsed && s'.retransmissions == s.retransmissions
  }

  /** Popping restarts the timer exactly if it pops anything, that is, if the oldest outstanding number moves up. */
  lemma {:induction false} PopRestarts(s: Sender)
    requires Queue(s)
    ensures var p := s.PopAcked();
            && (if First(p) > First(s) then AtRest(p) else p == s) && First(p) >= First(s) && Queue(p)
    decreases |s.outstanding|
  {
    hide Unwrap, Wrap;
    if s.PopAcked() != s {
      PopRestarts(s.ResetTimer().(outstanding := s.outstanding[1..]));
    }
  }

  /** Filling the window starts the timer if it was off and something is sent, from the initial timeout and from zero;
      a timer that runs is left alone. */
  lemma FillStarts(s: Sender)
    requires s.Ready()
    ensures var f := s.FillWindow();
            && (if !s.timerOn && f.timerOn then AtRest(f) else SameTimer(s, f))
            && (s.timerOn ==> f.timerOn) && f.peerWindow == s.peerWindow && f.initialRto == s.initialRto
  {
    hide Sender.NewSegments;
  }

  /** An acknowledgment that removes anything from the queue restarts the timer from the initial timeout, from zero and
      with no retransmission counted; any other leaves all three alone.  The window it carries is remembered, except
      that an acknowledgment of a number beyond `next` changes nothing at all. */
  lemma AckRestarts(s: Sender, ackno: uint32, win: uint16)
    requires s.Sane() && Queue(s)
    ensures var s' := s.AckReceived(ackno, win);
            && (if First(s') > First(s) then AtRest(s') else SameTimer(s, s'))
            && (if Unwrap(ackno, s.isn, s.next) <= s.next then s'.peerWindow == win else s' == s)
            && s'.initialRto == s.initialRto && (s'.timerOn ==> s.timerOn) && Queue(s')
  {
    hide Unwrap, Sender.PopAcked, Estimate, Sender.FillWindow, TotalLength, Chain;
    var a := Unwrap(ackno, s.isn, s.next);
    if a <= s.next && s.timerOn {
      var s1 := s.Acknowledge(a, win);
      PopFrame(s1);
      PopRestarts(s1);
      FillStarts(s1.PopAcked());
      FillKeepsQueue(s1.PopAcked());
    }
  }

  // ----- whole runs -----

  /** What an observer of the events notes: the time ticked since the timer was last started, restarted or ran out, how
      often it has run out since the last start or restart while the peer's window was open, and that window. */
  datatype Timer = Timer(waited: uint64, retries: nat, peerWindow: uint16)

  /** The timeout after `n` retries, in 32 bits. */
  function Timeout(s: Sender, n: nat): nat
  {
    (s.initialRto * Pow2(n)) % 0x1_0000_0000
  }

  /** The event starts the timer, or takes something off the front of the queue. */
  predicate Restarts(s: Sender, e: Event)
    requires s.Sane()
  {
    var s' := Step(s, e);
    (!s.timerOn && s'.timerOn) || First(s') > First(s)
  }

  predicate RunsOut(s: Sender, t: Timer, ms: uint64)
  {
    s.timerOn && (t.waited + ms) % 0x1_0000_0000_0000_0000 >= Timeout(s, t.retries)
  }

  function Watch(s: Sender, t: Timer, e: Event): Timer
    requires s.Sane()
  {
    match e
    case Tick(ms) =>
      if !s.timerOn then t
      else if RunsOut(s, t, ms) then t.(waited := 0, retries := t.retries + Bit(t.peerWindow > 0))
      else t.(waited := (t.waited + ms) % 0x1_0000_0000_0000_0000)
    case Ack(ackno, win) =>
      var t := if Unwrap(ackno, s.isn, s.next) <= s.next then t.(peerWindow := win) else t;
      if Restarts(s, e) then t.(waited := 0, retries := 0) else t
    case _ => if Restarts(s, e) then t.(waited := 0, retries := 0) else t
  }

  function WatchAll(s: Sender, es: seq<Event>): Timer
    requires s.Sane()
    decreases |es|
  {
    if es == [] then Timer(0, 0, 1)
    else Watch(Run(s, es[..|es| - 1]), WatchAll(s, es[..|es| - 1]), es[|es| - 1])
  }

  predicate Keeps(s: Sender, t: Timer)
  {
    s.elapsed == t.waited && s.retransmissions == t.retries && s.peerWindow == t.peerWindow
    && s.rto == Timeout(s, t.retries)
  }

  lemma StepKeeps(s: Sender, t: Timer, e: Event)
    requires s.Sane() && Queue(s) && Keeps(s, t)
    ensures Keeps(Step(s, e), Watch(s, t, e)) && Queue(Step(s, e)) && Step(s, e).initialRto == s.initialRto
  {
    hide Sender.AckReceived, Sender.FillWindow, Sender.Tick, Pow2, Unwrap, TotalLength, Chain;
    AtRestTimeout(s);
    match e
    case Tick(ms) => TickKeeps(s, t, ms);
    case Fill => FillStarts(s); FillKeepsQueue(s);
    case Ack(ackno, win) => AckRestarts(s, ackno, win);
    case _ =>
  }

  lemma AtRestTimeout(s: Sender)
    ensures Timeout(s, 0) == s.initialRto
  {
    Pow2Zero();
  }

  lemma TimeoutDoubles(s: Sender, n: nat)
    ensures (Timeout(s, n) * 2) % 0x1_0000_0000 == Timeout(s, n + 1)
  {
    MulDouble(s.initialRto, Pow2(n));
    DoubleInWord(s.initialRto * Pow2(n));
  }

  lemma TickKeeps(s: Sender, t: Timer, ms: uint64)
    requires s.Sane() && Keeps(s, t)
    ensures Keeps(s.Tick(ms), Watch(s, t, SenderRuns.Tick(ms))) && s.Tick(ms).initialRto == s.initialRto
    ensures Queue(s.Tick(ms)) == Queue(s)
    ensures s.Tick(ms).segmentsOut == s.segmentsOut + if RunsOut(s, t, ms) then [s.outstanding[0]] else []
  {
    hide Timeout, Chain, TotalLength;
    TimeoutDoubles(s, t.retries);
    SameTimeout(s, s.Tick(ms), t.retries);
    SameTimeout(s, s.Tick(ms), t.retries + 1);
  }

  lemma SameTimeout(s: Sender, s': Sender, n: nat)
    ensures s'.initialRto == s.initialRto ==> Timeout(s', n) == Timeout(s, n)
  {
  }

  lemma {:induction false} RunKeeps(s: Sender, es: seq<Event>)
    requires s.Sane() && Queue(s) && Keeps(s, Timer(0, 0, 1))
    ensures Queue(Run(s, es)) && Keeps(Run(s, es), WatchAll(s, es)) && Run(s, es).initialRto == s.initialRto
    decreases |es|
  {
    hide Step, Keeps, Queue, Watch;
    if es != [] {
      var before, e := es[..|es| - 1], es[|es| - 1];
      RunKeeps(s, before);
      StepKeeps(Run(s, before), WatchAll(s, before), e);
    }
  }

  /** The timer is exact.  In every run, whatever the numbers: the counter is how often the timer has run out with the
      peer's window open since something was last taken off the queue or the timer was last started, the timeout is the
      configured one doubled that many times, the clock is the time ticked since the timer last started, restarted or
      ran out, and a tick sends the front of the queue again exactly if it brings that time to the timeout. */
  lemma TimerIsExact(capacity: nat, retxTimeout: uint16, isn: uint32, es: seq<Event>, ms: uint64)
    ensures var s, t := Run(Initial(capacity, retxTimeout, isn), es), WatchAll(Initial(capacity, retxTimeout, isn), es);
            && s.retransmissions == t.retries && s.elapsed == t.waited && s.peerWindow == t.peerWindow
            && s.rto == (retxTimeout * Pow2(t.retries)) % 0x1_0000_0000
            && s.Tick(ms).segmentsOut == s.segmentsOut +
                 if s.outstanding != [] && (t.waited + ms) % 0x1_0000_0000_0000_0000 >= s.rto
                 then [s.outstanding[0]] else []
  {
    hide Run, WatchAll, Sender.Tick, Pow2;
    var s0 := Initial(capacity, retxTimeout, isn);
    AtRestTimeout(s0);
    RunKeeps(s0, es);
    TickKeeps(Run(s0, es), WatchAll(s0, es), ms);
  }
}
