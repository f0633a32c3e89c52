/** A whole run of a connection as one run of its sender, and what follows for giving up on a silent peer. */
module ConnectionHistory {
  import opened Words
  import opened TcpSenders
  import opened SenderFacts
  import opened SenderRuns
  import opened SenderTimers
  import opened TcpConnections
  import opened ConnectionRuns
  import opened ConnectionFacts

  /** Everything the sender of a connection goes through in a run of calls; after each call its queue is emptied. */
  function History(c: Connection, ks: seq<Call>): seq<Event>
    requires c.Ok()
    decreases |ks|
  {
    if ks == [] then []
    else
      var before, k := ks[..|ks| - 1], ks[|ks| - 1];
      History(c, before) + SenderEvents(ApplyAll(c, before), k) + [SenderRuns.TakeOutput]
  }

  lemma {:induction false} RunInParts(s: Sender, a: seq<Event>, b: seq<Event>)
    requires s.Sane()
    ensures Run(s, a + b) == Run(Run(s, a), b)
    decreases |b|
  {
    hide Step;
    if b == [] {
      assert a + b == a;
    } else {
      RunInParts(s, a, b[..|b| - 1]);
      assert (a + b)[..|a + b| - 1] == a + b[..|b| - 1];
    }
  }

  lemma RunThenTake(s: Sender, es: seq<Event>)
    requires s.Sane()
    ensures Run(s, es + [SenderRuns.TakeOutput]) == Run(s, es).(segmentsOut := [])
  {
    assert (es + [SenderRuns.TakeOutput])[..|es|] == es;
  }

  /** The sender of a connection after any run of calls is what a sender alone becomes by the events of that run. */
  lemma {:induction false} ConnectionIsSenderRun(c: Connection, ks: seq<Call>)
    requires Live(c)
    ensures ApplyAll(c, ks).sender == Run(c.sender, History(c, ks))
    decreases |ks|
  {
    hide Apply, Step, Live, SenderEvents, Run;
    assert c.Ok() && c.sender.segmentsOut == [] by { LiveDrained(c); }
    if ks == [] {
      RunShort(c.sender, []);
    } else {
      var before, k := ks[..|ks| - 1], ks[|ks| - 1];
      var b := ApplyAll(c, before);
      ConnectionIsSenderRun(c, before);
      AlwaysLive(c, before);
      LiveDrained(b);
      CallIsSenderRun(b, k);
      RunInParts(c.sender, History(c, before), SenderEvents(b, k));
      RunThenTake(c.sender, History(c, before) + SenderEvents(b, k));
    }
  }

  lemma LiveDrained(c: Connection)
    requires Live(c)
    ensures c.Ok() && c.sender.segmentsOut == []
  {
  }

  /** A tick makes an active connection give up exactly if it makes the timer run out for the ninth time with the peer's
      window open. */
  lemma TickAborts(c: Connection, t: Timer, ms: uint64)
    requires Live(c) && c.Active() && Keeps(c.sender, t)
    ensures c.Tick(ms).error <==> RunsOut(c.sender, t, ms) && t.peerWindow > 0 && t.retries == 8
  {
    hide Sender.Tick, Connection.StampAll, Connection.Tick, BackedOff, FinFlow, Timeout;
    TickKeeps(c.sender, t, ms);
    TickErrors(c, ms);
  }

  /** Giving up is exact.  In every run from construction, a tick makes an active connection fail if and only if it
      brings the time since the timer last started, restarted or ran out to the configured timeout times 2^8, with the
      peer's window open, after the timer has run out eight times since it last started or restarted. */
  lemma AbortIsExact(rtTimeout: uint16, recvCapacity: nat, sendCapacity: nat, isn: uint32, ks: seq<Call>, ms: uint64)
    requires recvCapacity >= 1 && ApplyAll(Fresh(rtTimeout, recvCapacity, sendCapacity, isn), ks).Active()
    ensures var c0 := Fresh(rtTimeout, recvCapacity, sendCapacity, isn);
            var c, t := ApplyAll(c0, ks), WatchAll(c0.sender, History(c0, ks));
            c.Tick(ms).error <==>
              && c.sender.outstanding != [] && t.retries == 8 && t.peerWindow > 0
              && (t.waited + ms) % 0x1_0000_0000_0000_0000 >= rtTimeout * 256
  {
    hide ApplyAll, History, WatchAll, Run, Connection.Active, Connection.Tick, Queue, Pow2;
    var c0 := Fresh(rtTimeout, recvCapacity, sendCapacity, isn);
    FreshIsLive(rtTimeout, recvCapacity, sendCapacity, isn);
    AlwaysLive(c0, ks);
    ConnectionIsSenderRun(c0, ks);
    FreshKeeps(c0.sender.stream.capacity, rtTimeout, isn);
    RunKeeps(c0.sender, History(c0, ks));
    TickAborts(ApplyAll(c0, ks), WatchAll(c0.sender, History(c0, ks)), ms);
    EightDoublings(rtTimeout);
  }

  lemma FreshKeeps(capacity: nat, rtTimeout: uint16, isn: uint32)
    ensures Queue(Initial(capacity, rtTimeout, isn)) && Keeps(Initial(capacity, rtTimeout, isn), Timer(0, 0, 1))
  {
  }

  lemma EightDoublings(rtTimeout: uint16)
    ensures (rtTimeout * Pow2(8)) % 0x1_0000_0000 == rtTimeout * 256
  {
    assert Pow2(8) == 256;
  }
}
