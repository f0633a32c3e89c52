/** Two complete connections exchanging segments over a network that loses, duplicates and reorders them.

    Each direction of the exchange is a run of the one-way system of `Transport`: the sender of one connection, the
    receiver of the other, and as acknowledgments what the other writes into its segments.  The two one-way systems
    are carried along as history, and every call of every connection is shown to be a sequence of their moves. */
module Duplex {
  import opened Words
  import opened WrappingIntegers
  import opened StreamReassemblers
  import opened TcpSegments
  import opened TcpReceivers
  import opened TcpSenders
  import opened SenderFacts
  import opened SenderRuns
  import opened SenderProgress
  import opened TcpConnections
  import opened ConnectionRuns
  import opened ConnectionFacts
  import opened ConnectionOutput
  import opened Transport
  import opened TransportSafety
  import opened TransportAcks
  import opened TransportFlow

  // ----- the sender's queue does not influence the sender -----

  lemma {:induction false} PopIgnoresQueue(s: Sender, q: seq<TcpSegment>)
    ensures s.(segmentsOut := q).PopAcked() == s.PopAcked().(segmentsOut := q)
    decreases |s.outstanding|
  {
    hide Unwrap;
    if s.outstanding != [] &&
       Unwrap(s.outstanding[0].header.seqno, s.isn, s.next) + s.outstanding[0].Length() <= s.acked {
      PopIgnoresQueue(s.ResetTimer().(outstanding := s.outstanding[1..]), q);
    }
  }

  lemma FillAppends(s: Sender)
    requires s.Ready()
    ensures var f, f0 := s.FillWindow(), s.(segmentsOut := []).FillWindow();
            f.segmentsOut == s.segmentsOut + f0.segmentsOut && f.(segmentsOut := []) == f0.(segmentsOut := [])
  {
    hide Sender.NewSegments, Sender.Sendable, Sender.PayloadSize, Sender.ReachFin;
    FillIgnoresQueue(s);
    assert [] + s.NewSegments() == s.NewSegments();
  }

  lemma FillIgnoresQueue(s: Sender)
    requires s.Ready()
    ensures var t := s.(segmentsOut := []);
            && t.Sendable() == s.Sendable() && t.PayloadSize() == s.PayloadSize() && t.ReachFin() == s.ReachFin()
            && t.NewSegments() == s.NewSegments()
  {
    hide Cut;
  }

  /** An event adds to the queue what it would put into an empty one, and does the same to everything else. */
  lemma StepAppends(s: Sender, e: Event)
    requires s.Sane() && !e.TakeOutput?
    ensures var t, t0 := Step(s, e), Step(s.(segmentsOut := []), e);
            t.segmentsOut == s.segmentsOut + t0.segmentsOut && t.(segmentsOut := []) == t0.(segmentsOut := [])
  {
    hide Sender.AckReceived, Sender.FillWindow, Sender.Tick;
    match e
    case Fill => FillAppends(s);
    case Ack(ackno, win) => AckAppends(s, ackno, win);
    case Tick(ms) => TickAppends(s, ms);
    case _ =>
  }

  lemma TickAppends(s: Sender, ms: uint64)
    requires s.Sane()
    ensures var t, t0 := s.Tick(ms), s.(segmentsOut := []).Tick(ms);
            t.segmentsOut == s.segmentsOut + t0.segmentsOut && t.(segmentsOut := []) == t0.(segmentsOut := [])
  {
  }

  lemma AckAppends(s: Sender, ackno: uint32, win: uint16)
    requires s.Sane()
    ensures var t, t0 := s.AckReceived(ackno, win), s.(segmentsOut := []).AckReceived(ackno, win);
            t.segmentsOut == s.segmentsOut + t0.segmentsOut && t.(segmentsOut := []) == t0.(segmentsOut := [])
  {
    hide Unwrap, Sender.PopAcked, Estimate, Sender.FillWindow;
    var a := Unwrap(ackno, s.isn, s.next);
    if a <= s.next && s.timerOn {
      var s1 := s.Acknowledge(a, win);
      PopIgnoresQueue(s1, []);
      PopFrame(s1);
      FillAppends(s1.PopAcked());
    }
  }

  // ----- sender events as moves -----

  /** The move that a sender event is, if `j` is the index of the acknowledgment that an `Ack` event brings. */
  function MoveOf(e: Event, j: nat): Move
    requires !e.TakeOutput?
  {
    match e
    case Write(data) => AppWrites(data)
    case EndInput => AppEnds
    case Fill => SenderFills
    case Ack(_, _) => AckArrives(j)
    case Tick(ms) => SenderTicks(ms)
    case SendEmpty => SenderProbes
    case SetError => SenderFails
  }

  function MovesOf(es: seq<Event>, j: nat): seq<Move>
    requires SenderRuns.TakeOutput !in es
  {
    seq(|es|, i requires 0 <= i < |es| => MoveOf(es[i], j))
  }

  function Segments(packets: seq<Packet>): seq<TcpSegment>
  {
    seq(|packets|, i requires 0 <= i < |packets| => packets[i].seg)
  }

  lemma {:induction false} TaggedAre(segs: seq<TcpSegment>, from: nat)
    ensures Segments(Tagged(segs, from)) == segs
  {
    if segs != [] {
      TaggedAre(segs[1..], from + segs[0].Length());
      assert Segments(Tagged(segs, from)) == [segs[0]] + Segments(Tagged(segs[1..], from + segs[0].Length()));
    }
  }

  /** Every acknowledgment among the events is the one at index `j` of the wire. */
  predicate Brings(n: Net, es: seq<Event>, j: nat)
  {
    forall e <- es :: e.Ack? ==> j < |n.acks| && n.acks[j].ackno == e.ackno && n.acks[j].win == e.win
  }

  lemma MoveSends(n: Net, e: Event, j: nat)
    requires Wellformed(n) && !e.TakeOutput? && Brings(n, [e], j)
    ensures var n' := Advance(n, MoveOf(e, j));
            && n'.sender == Step(n.sender, e).(segmentsOut := [])
            && Segments(n'.packets) == Segments(n.packets) + Step(n.sender, e).segmentsOut
            && n'.receiver == n.receiver && n'.acks == n.acks
  {
    hide Sender.AckReceived, Sender.FillWindow, Sender.Tick, Tagged, Oldest;
    assert e in [e];
    var s := Step(n.sender, e);
    var from := if e.Tick? then Oldest(n.sender) else n.sender.next;
    TaggedAre(s.segmentsOut, from);
    assert Segments(n.packets + Tagged(s.segmentsOut, from)) ==
           Segments(n.packets) + Segments(Tagged(s.segmentsOut, from));
  }

  /** A run of sender events is the same run of moves, with the segments it queues on the wire. */
  lemma {:induction false} RunSends(n: Net, es: seq<Event>, j: nat)
    requires Wellformed(n) && SenderRuns.TakeOutput !in es && Brings(n, es, j)
    ensures var n' := AdvanceAll(n, MovesOf(es, j));
            && n'.sender == Run(n.sender, es).(segmentsOut := [])
            && Segments(n'.packets) == Segments(n.packets) + Run(n.sender, es).segmentsOut
            && n'.receiver == n.receiver && n'.acks == n.acks
    decreases |es|
  {
    hide Advance, Step, Wellformed, MoveOf;
    WellformedMeans(n);
    if es != [] {
      var before, e := es[..|es| - 1], es[|es| - 1];
      assert es == before + [e];
      assert MovesOf(es, j)[..|es| - 1] == MovesOf(before, j);
      RunSends(n, before, j);
      var n1, s1 := AdvanceAll(n, MovesOf(before, j)), Run(n.sender, before);
      MoveSends(n1, e, j);
      StepAppends(s1, e);
    }
  }

  lemma WellformedMeans(n: Net)
    requires Wellformed(n)
    ensures n.sender.segmentsOut == [] && n.sender.Sane() && n.receiver.Ok()
  {
  }

  // ----- what happens to the receiver, as moves -----

  /** The segments look the same to a receiver. */
  predicate SameData(x: TcpSegment, y: TcpSegment)
  {
    && x.payload == y.payload && x.header.seqno == y.header.seqno && x.header.syn == y.header.syn
    && x.header.fin == y.header.fin
  }

  /** The moves that a call makes the receiver see, if a received segment is the `i`-th of the wire. */
  function MovesIn(c: Connection, k: Call, i: nat): seq<Move>
    requires c.Ok()
  {
    match k
    case Segment(seg) =>
      if seg.header.rst then [ReceiverFails]
      else if !c.Active() || c.IsKeepAlive(seg) then []
      else [DataArrives(i)]
    case Tick(_) => if SenderRuns.SetError in SenderEvents(c, k) then [ReceiverFails] else []
    case Read(len) => [AppReads(len)]
    case _ => []
  }

  lemma AdvanceShort(n: Net, ms: seq<Move>)
    requires Wellformed(n) && |ms| <= 1
    ensures AdvanceAll(n, ms) == if ms == [] then n else Advance(n, ms[0])
  {
    hide Advance;
    if ms != [] {
      assert ms[..0] == [];
    }
  }

  lemma ReceiverSees(r: Receiver, x: TcpSegment, y: TcpSegment)
    requires r.Ok() && SameData(x, y)
    ensures r.SegmentReceived(x) == r.SegmentReceived(y)
  {
    hide Unwrap, Reassembler.Push;
  }

  /** A call does to the receiver exactly these moves. */
  lemma CallReceives(c: Connection, k: Call, n: Net, i: nat)
    requires c.Ok() && Wellformed(n) && n.receiver == c.receiver
    requires k.Segment? ==> i < |n.packets| && SameData(k.seg, n.packets[i].seg)
    ensures var n' := AdvanceAll(n, MovesIn(c, k, i));
            && n'.receiver == Apply(c, k).receiver
            && n'.sender == n.sender && n'.packets == n.packets && n'.acks == n.acks
  {
    hide Receiver.SegmentReceived, Connection.SegmentReceived, Connection.Tick, Sender.FillWindow, Connection.StampAll,
         Connection.IsKeepAlive, AdvanceAll, SenderEvents;
    AdvanceShort(n, MovesIn(c, k, i));
    match k
    case Segment(seg) =>
      ReceiverSees(c.receiver, seg, n.packets[i].seg);
      SegmentReceiver(c, seg);
    case Tick(ms) => TickReceiver(c, ms);
    case _ =>
  }

  // ----- acknowledgments, as moves -----

  function AckMoves(m: nat): seq<Move> { seq(m, _ => ReceiverAcks) }

  /** The acknowledgment that the receiver gives now. */
  function NoticeOf(r: Receiver): Notice
    requires r.Ok() && r.isSyn
  {
    Notice(r.AckPosition(), r.Ackno().value, Min(r.WindowSize(), 0xFFFF))
  }

  lemma {:induction false} AcksAppended(n: Net, m: nat)
    requires Wellformed(n)
    ensures AdvanceAll(n, AckMoves(m)) ==
            n.(acks := n.acks + if n.receiver.isSyn then seq(m, _ => NoticeOf(n.receiver)) else [])
  {
    hide Wrap, Receiver.AckPosition;
    if m > 0 {
      AcksAppended(n, m - 1);
      assert AckMoves(m)[..m - 1] == AckMoves(m - 1);
    }
  }

  lemma {:induction false} AdvanceAppend(n: Net, a: seq<Move>, b: seq<Move>)
    requires Wellformed(n)
    ensures AdvanceAll(n, a + b) == AdvanceAll(AdvanceAll(n, a), b)
    decreases |b|
  {
    hide Advance, Wellformed;
    if b == [] {
      assert a + b == a;
    } else {
      AdvanceAppend(n, a, b[..|b| - 1]);
      assert (a + b)[..|a + b| - 1] == a + b[..|b| - 1];
    }
  }

  // ----- segments of a sender carry no acknowledgment of their own -----

  predicate PlainSegments(segs: seq<TcpSegment>)
  {
    forall seg <- segs :: !seg.header.ack
  }

  predicate Plain(s: Sender)
  {
    PlainSegments(s.outstanding) && PlainSegments(s.segmentsOut)
  }

  lemma {:induction false} CutIsPlain(data: seq<byte>, abs: nat, isn: uint32, syn: bool, fin: bool)
    ensures PlainSegments(Cut(data, abs, isn, syn, fin))
    decreases |data|
  {
    hide Wrap;
    if |data| > 1000 {
      CutIsPlain(data[1000..], abs + Bit(syn) + 1000, isn, false, fin);
    }
  }

  lemma FillIsPlain(s: Sender)
    requires s.Ready() && Plain(s)
    ensures Plain(s.FillWindow())
  {
    hide Cut, Sender.FillWindow;
    FillOutputs(s);
    CutIsPlain(s.stream.Buffer()[..s.PayloadSize()], s.next, s.isn, s.HasSyn(), s.ReachFin());
  }

  lemma StepIsPlain(s: Sender, e: Event)
    requires s.Sane() && Plain(s)
    ensures Plain(Step(s, e))
  {
    hide Unwrap, Sender.PopAcked, Estimate, Sender.FillWindow, Sender.Tick;
    match e
    case Fill => FillIsPlain(s);
    case Ack(ackno, win) =>
      var a := Unwrap(ackno, s.isn, s.next);
      if a <= s.next {
        var s1 := s.Acknowledge(a, win);
        PopFrame(s1);
        if s.timerOn {
          FillIsPlain(s1.PopAcked());
        }
      }
    case Tick(ms) =>
      TickFrame(s, ms);
      RetransmissionIsFront(s, ms);
    case _ =>
  }

  lemma {:induction false} RunIsPlain(s: Sender, es: seq<Event>)
    requires s.Sane() && Plain(s)
    ensures Plain(Run(s, es))
    decreases |es|
  {
    hide Step, Plain;
    if es != [] {
      RunIsPlain(s, es[..|es| - 1]);
      StepIsPlain(Run(s, es[..|es| - 1]), es[|es| - 1]);
    }
  }

  // ----- two connections -----

  /** A segment on the wire, and the index of the acknowledgment it carries. */
  datatype Item = Item(seg: TcpSegment, notice: nat)

  datatype Pair = Pair(a: Connection, b: Connection, toB: seq<Item>, toA: seq<Item>, ab: Net, ba: Net)

  /** What happens at one end: its owner or the clock calls it, or a copy of a segment ever sent to it arrives. */
  datatype Happening = Local(call: Call) | Arrival(i: nat)

  function Swap(d: Pair): Pair
  {
    Pair(d.b, d.a, d.toA, d.toB, d.ba, d.ab)
  }

  predicate Possible(d: Pair, x: Happening)
  {
    match x
    case Local(k) => !k.Segment? && !k.TakeOutput?
    case Arrival(i) => i < |d.toA|
  }

  function CallOf(d: Pair, x: Happening): Call
    requires Possible(d, x)
  {
    match x
    case Local(k) => k
    case Arrival(i) => Call.Segment(d.toA[i].seg)
  }

  /** The moves at end `a`, in the direction it sends and in the direction it receives. */
  function SendingMoves(d: Pair, x: Happening): seq<Move>
    requires Possible(d, x) && d.a.Ok()
  {
    NeverTakes(d.a, CallOf(d, x));
    MovesOf(SenderEvents(d.a, CallOf(d, x)), if x.Arrival? then d.toA[x.i].notice else 0)
  }

  function ReceivingMoves(d: Pair, x: Happening): seq<Move>
    requires Possible(d, x) && d.a.Ok()
  {
    MovesIn(d.a, CallOf(d, x), if x.Arrival? then x.i else 0) + AckMoves(|Apply(d.a, CallOf(d, x)).segmentsOut|)
  }

  /** Something happens at end `a`: the call is made, and what it emits goes on the wire. */
  function HappensAtA(d: Pair, x: Happening): Pair
    requires Possible(d, x) && d.a.Ok() && Wellformed(d.ab) && Wellformed(d.ba)
  {
    var a := Apply(d.a, CallOf(d, x));
    Pair(a.(segmentsOut := []), d.b,
         d.toB + seq(|a.segmentsOut|, m requires 0 <= m < |a.segmentsOut| => Item(a.segmentsOut[m], |d.ba.acks| + m)),
         d.toA,
         AdvanceAll(d.ab, SendingMoves(d, x)), AdvanceAll(d.ba, ReceivingMoves(d, x)))
  }

  /** The acknowledgment in a segment is the one it points to. */
  predicate ItemOk(item: Item, acks: seq<Notice>)
  {
    item.seg.header.ack ==>
      && item.notice < |acks|
      && acks[item.notice].ackno == item.seg.header.ackno && acks[item.notice].win == item.seg.header.win
  }

  /** One end agrees with its side of both one-way systems. */
  predicate LinkedEnd(c: Connection, wire: seq<Item>, sending: Net, receiving: Net)
  {
    && Live(c) && c.segmentsOut == [] && Plain(c.sender)
    && Wellformed(sending) && sending.sender == c.sender && receiving.receiver == c.receiver
    && |wire| == |sending.packets|
    && (forall i :: 0 <= i < |wire| ==>
         SameData(wire[i].seg, sending.packets[i].seg) && ItemOk(wire[i], receiving.acks))
  }

  predicate Linked(d: Pair)
  {
    LinkedEnd(d.a, d.toB, d.ab, d.ba) && LinkedEnd(d.b, d.toA, d.ba, d.ab)
  }

  lemma EventsAreBrought(d: Pair, x: Happening)
    requires Linked(d) && Possible(d, x)
    ensures Brings(d.ab, SenderEvents(d.a, CallOf(d, x)), if x.Arrival? then d.toA[x.i].notice else 0)
  {
    hide Step, BackedOff, FinFlow, Connection.IsKeepAlive, Connection.Active, SameData;
    if x.Arrival? {
      assert ItemOk(d.toA[x.i], d.ab.acks);
    }
  }

  /** The direction in which end `a` sends follows it. */
  lemma SendingFollows(d: Pair, x: Happening)
    requires Linked(d) && Possible(d, x)
    ensures var k, n := CallOf(d, x), AdvanceAll(d.ab, SendingMoves(d, x));
            && n.sender == Apply(d.a, k).sender && n.receiver == d.ab.receiver && n.acks == d.ab.acks
            && Segments(n.packets) == Segments(d.ab.packets) + Run(d.a.sender, SenderEvents(d.a, k)).segmentsOut
  {
    hide AdvanceAll, Run, SenderEvents, Apply, Plain, SameData, ItemOk, BackedOff, FinFlow, Brings;
    var k := CallOf(d, x);
    var es, j := SenderEvents(d.a, k), if x.Arrival? then d.toA[x.i].notice else 0;
    EventsAreBrought(d, x);
    NeverTakes(d.a, k);
    RunSends(d.ab, es, j);
    CallIsSenderRun(d.a, k);
  }

  /** The direction in which end `a` receives follows it, and records one acknowledgment for each segment emitted. */
  lemma ReceivingFollows(d: Pair, x: Happening)
    requires Linked(d) && Possible(d, x)
    ensures var a, n := Apply(d.a, CallOf(d, x)), AdvanceAll(d.ba, ReceivingMoves(d, x));
            && n.receiver == a.receiver && n.sender == d.ba.sender && n.packets == d.ba.packets
            && n.acks == d.ba.acks + if a.receiver.isSyn then seq(|a.segmentsOut|, _ => NoticeOf(a.receiver)) else []
  {
    hide AdvanceAll, Apply, Plain, ItemOk, BackedOff, FinFlow, MovesIn, AckMoves, NoticeOf;
    var k, i := CallOf(d, x), if x.Arrival? then x.i else 0;
    var m := |Apply(d.a, k).segmentsOut|;
    CallReceives(d.a, k, d.ba, i);
    AdvanceAppend(d.ba, MovesIn(d.a, k, i), AckMoves(m));
    AcksAppended(AdvanceAll(d.ba, MovesIn(d.a, k, i)), m);
  }

  lemma StampKeepsData(c: Connection, seg: TcpSegment)
    requires c.Ok()
    ensures SameData(c.Stamp(seg), seg)
    ensures c.receiver.isSyn ==>
              && c.Stamp(seg).header.ackno == NoticeOf(c.receiver).ackno
              && c.Stamp(seg).header.win == NoticeOf(c.receiver).win
    ensures !c.receiver.isSyn && !seg.header.ack ==> !c.Stamp(seg).header.ack
  {
    hide Wrap;
  }

  /** The segments emitted by a call: the data of what the sender queued, with the acknowledgment recorded for it. */
  lemma EmittedItems(d: Pair, x: Happening, m: nat)
    requires Linked(d) && Possible(d, x) && m < |Apply(d.a, CallOf(d, x)).segmentsOut|
    ensures var a, q := Apply(d.a, CallOf(d, x)), Run(d.a.sender, SenderEvents(d.a, CallOf(d, x))).segmentsOut;
            && |a.segmentsOut| == |q| && SameData(a.segmentsOut[m], q[m])
            && ItemOk(Item(a.segmentsOut[m], |d.ba.acks| + m), AdvanceAll(d.ba, ReceivingMoves(d, x)).acks)
  {
    hide AdvanceAll, Apply, Run, SenderEvents, ReceivingMoves, BackedOff, FinFlow, SameData, NoticeOf, Connection.Stamp;
    var k := CallOf(d, x);
    var a, q := Apply(d.a, k), Run(d.a.sender, SenderEvents(d.a, k)).segmentsOut;
    CallEmits(d.a, k);
    assert [] + a.StampAll(q) == a.StampAll(q);
    ReceivingFollows(d, x);
    RunIsPlain(d.a.sender, SenderEvents(d.a, k));
    assert q[m] in q;
    StampKeepsData(a, q[m]);
  }

  /** Whatever happens at one end, both ends go on agreeing with the one-way systems. */
  lemma HappeningKeepsLinks(d: Pair, x: Happening)
    requires Linked(d) && Possible(d, x)
    ensures Linked(HappensAtA(d, x))
  {
    hide AdvanceAll, Apply, Run, SenderEvents, SendingMoves, ReceivingMoves, Live, Plain, SameData, ItemOk, Wellformed;
    var k := CallOf(d, x);
    assert d.a.Ok() by { LiveOk(d.a); }
    var d', a := HappensAtA(d, x), Apply(d.a, k);
    SendingFollows(d, x);
    ReceivingFollows(d, x);
    CallKeepsLive(d.a, k);
    assert Live(d'.a) by { LiveIgnoresOutput(a); }
    assert Plain(d'.a.sender) by {
      LiveDrained(d.a);
      CallIsPlain(d.a, k);
    }
    WireLength(d, x);
    forall i | 0 <= i < |d'.toB|
      ensures SameData(d'.toB[i].seg, d'.ab.packets[i].seg) && ItemOk(d'.toB[i], d'.ba.acks)
    {
      ItemAt(d, x, i);
    }
  }

  lemma LiveIgnoresOutput(c: Connection)
    requires Live(c)
    ensures Live(c.(segmentsOut := []))
  {
  }

  lemma CallIsPlain(c: Connection, k: Call)
    requires c.Ok() && c.sender.segmentsOut == [] && Plain(c.sender)
    ensures Plain(Apply(c, k).sender)
  {
    hide Apply, Run, SenderEvents;
    CallIsSenderRun(c, k);
    RunIsPlain(c.sender, SenderEvents(c, k));
  }

  lemma WireLength(d: Pair, x: Happening)
    requires Linked(d) && Possible(d, x)
    ensures |HappensAtA(d, x).toB| == |HappensAtA(d, x).ab.packets|
  {
    hide AdvanceAll, Apply, Run, SenderEvents, SendingMoves, ReceivingMoves, Live, Plain, SameData, ItemOk,
         Connection.Stamp;
    assert d.a.Ok() && d.a.sender.segmentsOut == [] by { LiveDrained(d.a); }
    var k := CallOf(d, x);
    var n := AdvanceAll(d.ab, SendingMoves(d, x));
    SendingFollows(d, x);
    CallEmits(d.a, k);
    assert |Segments(n.packets)| == |n.packets| && |Segments(d.ab.packets)| == |d.ab.packets|;
  }

  lemma LiveDrained(c: Connection)
    requires Live(c)
    ensures c.Ok() && c.sender.segmentsOut == []
  {
  }

  lemma ItemAt(d: Pair, x: Happening, i: nat)
    requires Linked(d) && Possible(d, x) && i < |HappensAtA(d, x).toB|
    ensures var d' := HappensAtA(d, x);
            i < |d'.ab.packets| && SameData(d'.toB[i].seg, d'.ab.packets[i].seg) && ItemOk(d'.toB[i], d'.ba.acks)
  {
    hide AdvanceAll, Apply, Run, SenderEvents, SendingMoves, ReceivingMoves, Live, Plain, SameData, NoticeOf;
    assert d.a.Ok() && d.a.sender.segmentsOut == [] by { LiveDrained(d.a); }
    var k := CallOf(d, x);
    var n, q := AdvanceAll(d.ab, SendingMoves(d, x)), Run(d.a.sender, SenderEvents(d.a, k)).segmentsOut;
    WireLength(d, x);
    SendingFollows(d, x);
    ReceivingFollows(d, x);
    assert Segments(n.packets)[i] == n.packets[i].seg;
    if i < |d.toB| {
      assert Segments(d.ab.packets)[i] == d.ab.packets[i].seg;
    } else {
      EmittedItems(d, x, i - |d.toB|);
    }
  }

  // ----- whole runs -----

  datatype Where = AtA | AtB

  /** Something happens at either end. */
  function Happens(d: Pair, w: Where, x: Happening): (d': Pair)
    requires Linked(d) && Possible(if w.AtA? then d else Swap(d), x)
    ensures Linked(d')
  {
    var e := if w.AtA? then d else Swap(d);
    HappeningKeepsLinks(e, x);
    if w.AtA? then HappensAtA(e, x) else Swap(HappensAtA(e, x))
  }

  predicate PossibleRun(d: Pair, xs: seq<(Where, Happening)>)
    requires Linked(d)
    decreases |xs|
  {
    xs == [] ||
    (Possible(if xs[0].0.AtA? then d else Swap(d), xs[0].1) && PossibleRun(Happens(d, xs[0].0, xs[0].1), xs[1..]))
  }

  function HappensAll(d: Pair, xs: seq<(Where, Happening)>): (d': Pair)
    requires Linked(d) && PossibleRun(d, xs)
    ensures Linked(d')
    decreases |xs|
  {
    if xs == [] then d else HappensAll(Happens(d, xs[0].0, xs[0].1), xs[1..])
  }

  /** What a connection is constructed with. */
  datatype Setup = Setup(rtTimeout: uint16, recvCapacity: nat, sendCapacity: nat, isn: uint32)

  /** Two connections as constructed, nothing on the wire. */
  function Meet(a: Setup, b: Setup): (d: Pair)
    requires a.recvCapacity >= 1 && b.recvCapacity >= 1
    ensures Linked(d)
  {
    FreshIsLive(a.rtTimeout, a.recvCapacity, a.sendCapacity, a.isn);
    FreshIsLive(b.rtTimeout, b.recvCapacity, b.sendCapacity, b.isn);
    Pair(Fresh(a.rtTimeout, a.recvCapacity, a.sendCapacity, a.isn),
         Fresh(b.rtTimeout, b.recvCapacity, b.sendCapacity, b.isn),
         [], [],
         Start(a.sendCapacity, a.rtTimeout, a.isn, b.recvCapacity),
         Start(b.sendCapacity, b.rtTimeout, b.isn, a.recvCapacity))
  }

  /** The hypotheses of end-to-end safety, for what happens at one end, in both directions. */
  predicate FreshAt(d: Pair, x: Happening)
    requires Possible(d, x) && d.a.Ok() && Wellformed(d.ab) && Wellformed(d.ba)
  {
    FreshThroughout(d.ab, SendingMoves(d, x)) && FreshThroughout(d.ba, ReceivingMoves(d, x))
  }

  predicate FreshRun(d: Pair, xs: seq<(Where, Happening)>)
    requires Linked(d) && PossibleRun(d, xs)
    decreases |xs|
  {
    xs == [] ||
    (FreshAt(if xs[0].0.AtA? then d else Swap(d), xs[0].1) && FreshRun(Happens(d, xs[0].0, xs[0].1), xs[1..]))
  }

  lemma {:induction false} BothWaysSafe(d: Pair, xs: seq<(Where, Happening)>)
    requires Linked(d) && PossibleRun(d, xs) && FreshRun(d, xs) && Safe(d.ab) && Safe(d.ba)
    ensures Safe(HappensAll(d, xs).ab) && Safe(HappensAll(d, xs).ba)
    decreases |xs|
  {
    hide Safe, FreshThroughout, SendingMoves, ReceivingMoves, AdvanceAll, LinkedEnd, Wellformed, Apply;
    if xs != [] {
      var e, x := if xs[0].0.AtA? then d else Swap(d), xs[0].1;
      assert e.a.Ok() && Wellformed(e.ab) && Wellformed(e.ba) by { LinkedMeans(e); }
      AlwaysSafe(e.ab, SendingMoves(e, x));
      AlwaysSafe(e.ba, ReceivingMoves(e, x));
      BothWaysSafe(Happens(d, xs[0].0, x), xs[1..]);
    }
  }

  lemma LinkedMeans(d: Pair)
    requires Linked(d)
    ensures d.a.Ok() && d.b.Ok() && Wellformed(d.ab) && Wellformed(d.ba)
    ensures d.ab.sender == d.a.sender && d.ab.receiver == d.b.receiver
    ensures d.ba.sender == d.b.sender && d.ba.receiver == d.a.receiver
  {
  }

  /** End-to-end safety of two connections.  Let two connections call, tick, write, read, close, reset and exchange
      segments over a network that loses, duplicates and reorders them: at any time, what each has ever handed to its
      reader is a prefix of what the application at the other end has ever written. */
  lemma DuplexSafety(a: Setup, b: Setup, xs: seq<(Where, Happening)>)
    requires a.recvCapacity >= 1 && b.recvCapacity >= 1
    requires PossibleRun(Meet(a, b), xs) && FreshRun(Meet(a, b), xs)
    ensures var d := HappensAll(Meet(a, b), xs);
            && d.b.receiver.Output() <= d.a.sender.stream.history
            && d.a.receiver.Output() <= d.b.sender.stream.history
  {
    hide HappensAll, PossibleRun, FreshRun, LinkedEnd, Genuine, Carried, Queue;
    var d := Meet(a, b);
    StartIsSafe(a.sendCapacity, a.rtTimeout, a.isn, b.recvCapacity);
    StartIsSafe(b.sendCapacity, b.rtTimeout, b.isn, a.recvCapacity);
    BothWaysSafe(d, xs);
    LinkedMeans(HappensAll(d, xs));
  }

  /** The further hypotheses, on acknowledgments and FINs, under which nothing is forgotten. */
  predicate OrderlyAt(d: Pair, x: Happening)
    requires Possible(d, x) && d.a.Ok() && Wellformed(d.ab) && Wellformed(d.ba)
  {
    OrderlyThroughout(d.ab, SendingMoves(d, x)) && OrderlyThroughout(d.ba, ReceivingMoves(d, x))
  }

  predicate OrderlyRun(d: Pair, xs: seq<(Where, Happening)>)
    requires Linked(d) && PossibleRun(d, xs)
    decreases |xs|
  {
    xs == [] ||
    (OrderlyAt(if xs[0].0.AtA? then d else Swap(d), xs[0].1) && OrderlyRun(Happens(d, xs[0].0, xs[0].1), xs[1..]))
  }

  lemma {:induction false} BothWaysHonest(d: Pair, xs: seq<(Where, Happening)>)
    requires Linked(d) && PossibleRun(d, xs) && OrderlyRun(d, xs) && Honest(d.ab) && Honest(d.ba)
    ensures Honest(HappensAll(d, xs).ab) && Honest(HappensAll(d, xs).ba)
    decreases |xs|
  {
    hide Honest, OrderlyThroughout, SendingMoves, ReceivingMoves, AdvanceAll, LinkedEnd, Wellformed, Apply;
    if xs != [] {
      var e, x := if xs[0].0.AtA? then d else Swap(d), xs[0].1;
      assert e.a.Ok() && Wellformed(e.ab) && Wellformed(e.ba) by { LinkedMeans(e); }
      AlwaysHonest(e.ab, SendingMoves(e, x));
      AlwaysHonest(e.ba, ReceivingMoves(e, x));
      BothWaysHonest(Happens(d, xs[0].0, x), xs[1..]);
    }
  }

  /** One way of the exchange: byte `k`, if it was sent, is in the output at its place or held by an outstanding
      segment; and the receiving stream has ended exactly when a FIN has arrived and everything sent is out, which is
      then everything that was written to a stream that has ended. */
  ghost predicate Delivered(s: Sender, r: Receiver, k: nat)
    requires s.stream.Ok()
  {
    && (k < s.stream.read ==>
          (k < |r.Output()| && r.Output()[k] == s.stream.history[k]) || exists j :: Holds(s, j, k, s.stream.history[k]))
    && (r.reassembler.output.ended <==> r.isFin && |r.Output()| == s.stream.read)
    && (r.reassembler.output.ended ==> s.stream.ended && r.Output() == s.stream.history)
  }

  lemma HonestDelivers(n: Net, k: nat)
    requires Wellformed(n) && Honest(n)
    ensures Delivered(n.sender, n.receiver, k)
  {
    hide Genuine, Carried, Holds, Inv;
    AckPositionIs(n.receiver, SentBytes(n.sender, n.cut));
    if |n.receiver.Output()| <= k < n.sender.stream.read {
      var j := ByteIsHeld(n, k);
    }
  }

  /** Delivery between two connections.  In every orderly run, in both directions: no byte is forgotten, and the stream
      ends exactly where it should. */
  lemma DuplexDelivery(a: Setup, b: Setup, xs: seq<(Where, Happening)>, k: nat)
    requires a.recvCapacity >= 1 && b.recvCapacity >= 1
    requires PossibleRun(Meet(a, b), xs) && OrderlyRun(Meet(a, b), xs)
    ensures var d := HappensAll(Meet(a, b), xs);
            && d.a.Ok() && d.b.Ok()
            && Delivered(d.a.sender, d.b.receiver, k) && Delivered(d.b.sender, d.a.receiver, k)
  {
    hide HappensAll, PossibleRun, OrderlyRun, LinkedEnd, Honest, Delivered;
    var d := Meet(a, b);
    StartIsHonest(a.sendCapacity, a.rtTimeout, a.isn, b.recvCapacity);
    StartIsHonest(b.sendCapacity, b.rtTimeout, b.isn, a.recvCapacity);
    BothWaysHonest(d, xs);
    var d' := HappensAll(d, xs);
    LinkedMeans(d');
    HonestDelivers(d'.ab, k);
    HonestDelivers(d'.ba, k);
  }

  // ----- flow control -----

  /** The hypotheses of flow control: as for delivery, but all that is asked of acknowledgments is their order. */
  predicate FifoAt(d: Pair, x: Happening)
    requires Possible(d, x) && d.a.Ok() && Wellformed(d.ab) && Wellformed(d.ba)
  {
    FifoThroughout(d.ab, SendingMoves(d, x)) && FifoThroughout(d.ba, ReceivingMoves(d, x))
  }

  predicate FifoRun(d: Pair, xs: seq<(Where, Happening)>)
    requires Linked(d) && PossibleRun(d, xs)
    decreases |xs|
  {
    xs == [] ||
    (FifoAt(if xs[0].0.AtA? then d else Swap(d), xs[0].1) && FifoRun(Happens(d, xs[0].0, xs[0].1), xs[1..]))
  }

  /** A one-way system in which nothing is forgotten and flow control is exact. */
  ghost predicate HonestFlow(n: Net)
    requires Wellformed(n)
  {
    Honest(n) && Flowing(n)
  }

  lemma {:induction false} BothWaysFlow(d: Pair, xs: seq<(Where, Happening)>)
    requires Linked(d) && PossibleRun(d, xs) && FifoRun(d, xs) && HonestFlow(d.ab) && HonestFlow(d.ba)
    ensures OrderlyRun(d, xs) && HonestFlow(HappensAll(d, xs).ab) && HonestFlow(HappensAll(d, xs).ba)
    decreases |xs|
  {
    hide Honest, Flowing, FifoThroughout, OrderlyThroughout, SendingMoves, ReceivingMoves, AdvanceAll, LinkedEnd,
         Wellformed, Apply;
    if xs != [] {
      var e, x := if xs[0].0.AtA? then d else Swap(d), xs[0].1;
      assert e.a.Ok() && Wellformed(e.ab) && Wellformed(e.ba) by { LinkedMeans(e); }
      AlwaysFlows(e.ab, SendingMoves(e, x));
      AlwaysFlows(e.ba, ReceivingMoves(e, x));
      BothWaysFlow(Happens(d, xs[0].0, x), xs[1..]);
    }
  }

  /** Flow control between two connections.  In every run in which no byte is accepted after a FIN, delivered segments
      are not stale, FINs can be trusted, and neither direction reorders acknowledgments, the run is orderly (so
      everything that is proved of orderly runs holds), and at both ends the estimate and what is in flight add up to
      the window last heard of, counted as at least 1: it never wraps around and is never exceeded. */
  lemma DuplexFlowControl(a: Setup, b: Setup, xs: seq<(Where, Happening)>)
    requires a.recvCapacity >= 1 && b.recvCapacity >= 1
    requires PossibleRun(Meet(a, b), xs) && FifoRun(Meet(a, b), xs)
    ensures OrderlyRun(Meet(a, b), xs)
    ensures var d := HappensAll(Meet(a, b), xs);
            && d.a.Ok() && d.b.Ok() && d.ab.heard <= |d.ab.acks| && d.ba.heard <= |d.ba.acks|
            && d.a.sender.window + d.a.sender.InFlight() == Allowed(d.ab) <= 0xFFFF
            && d.b.sender.window + d.b.sender.InFlight() == Allowed(d.ba) <= 0xFFFF
  {
    hide HappensAll, PossibleRun, FifoRun, OrderlyRun, LinkedEnd, Honest, Ordered, Receiver.AckPosition,
         Receiver.WindowSize;
    var d := Meet(a, b);
    StartIsHonest(a.sendCapacity, a.rtTimeout, a.isn, b.recvCapacity);
    StartIsHonest(b.sendCapacity, b.rtTimeout, b.isn, a.recvCapacity);
    StartFlows(a.sendCapacity, a.rtTimeout, a.isn, b.recvCapacity);
    StartFlows(b.sendCapacity, b.rtTimeout, b.isn, a.recvCapacity);
    BothWaysFlow(d, xs);
    LinkedMeans(HappensAll(d, xs));
  }

  // ----- streams that fit in 2^32 numbers -----

  lemma {:induction false} ShortRunStart(n: Net, ms: seq<Move>)
    requires Wellformed(n) && Short(AdvanceAll(n, ms))
    ensures Short(n)
    decreases |ms|
  {
    hide Advance, Wellformed, Short;
    if ms != [] {
      ShortBefore(AdvanceAll(n, ms[..|ms| - 1]), ms[|ms| - 1]);
      ShortRunStart(n, ms[..|ms| - 1]);
    }
  }

  predicate BothShort(d: Pair)
  {
    Short(d.ab) && Short(d.ba)
  }

  lemma ShortStep(d: Pair, x: Happening)
    requires Linked(d) && Possible(d, x)
    ensures BothShort(HappensAtA(d, x)) ==> BothShort(d)
  {
    hide AdvanceAll, Apply, SenderEvents, SendingMoves, ReceivingMoves, Live, Plain, SameData, ItemOk, Short;
    assert d.a.Ok() by { LiveOk(d.a); }
    if BothShort(HappensAtA(d, x)) {
      ShortRunStart(d.ab, SendingMoves(d, x));
      ShortRunStart(d.ba, ReceivingMoves(d, x));
    }
  }

  lemma {:induction false} ShortStart(d: Pair, xs: seq<(Where, Happening)>)
    requires Linked(d) && PossibleRun(d, xs) && BothShort(HappensAll(d, xs))
    ensures BothShort(d)
    decreases |xs|
  {
    hide LinkedEnd, HappensAtA, BothShort, Possible;
    if xs != [] {
      var e := if xs[0].0.AtA? then d else Swap(d);
      assert e.a.Ok() && Wellformed(e.ab) && Wellformed(e.ba) by { LinkedMeans(e); }
      ShortStart(Happens(d, xs[0].0, xs[0].1), xs[1..]);
      ShortStep(e, xs[0].1);
      ShortSwap(d);
      ShortSwap(HappensAtA(e, xs[0].1));
    }
  }

  lemma ShortSwap(d: Pair)
    ensures BothShort(Swap(d)) == BothShort(d)
  {
  }

  lemma {:induction false} ShortRunsAreFresh(d: Pair, xs: seq<(Where, Happening)>)
    requires Linked(d) && PossibleRun(d, xs) && Safe(d.ab) && Safe(d.ba) && BothShort(HappensAll(d, xs))
    ensures FreshRun(d, xs)
    decreases |xs|
  {
    hide LinkedEnd, Safe, SendingMoves, ReceivingMoves, AdvanceAll, FreshThroughout, Wellformed, Apply, BothShort;
    if xs != [] {
      var e, x := if xs[0].0.AtA? then d else Swap(d), xs[0].1;
      var d1 := Happens(d, xs[0].0, x);
      assert e.a.Ok() && Wellformed(e.ab) && Wellformed(e.ba) by { LinkedMeans(e); }
      ShortStart(d1, xs[1..]);
      ShortSwap(HappensAtA(e, x));
      assert FreshAt(e, x) by { ShortHappening(e, x); }
      AlwaysSafe(e.ab, SendingMoves(e, x));
      AlwaysSafe(e.ba, ReceivingMoves(e, x));
      ShortRunsAreFresh(d1, xs[1..]);
    }
  }

  lemma ShortHappening(d: Pair, x: Happening)
    requires Linked(d) && Possible(d, x) && Safe(d.ab) && Safe(d.ba) && BothShort(HappensAtA(d, x))
    ensures FreshAt(d, x)
  {
    hide Safe, SendingMoves, ReceivingMoves, AdvanceAll, FreshThroughout, Apply, Live, Plain, SameData, ItemOk;
    assert d.a.Ok() by { LiveOk(d.a); }
    ShortRunIsFresh(d.ab, SendingMoves(d, x));
    ShortRunIsFresh(d.ba, ReceivingMoves(d, x));
  }

  /** The capacity of a receiver never changes. */
  lemma {:induction false} CapacitiesStay(d: Pair, xs: seq<(Where, Happening)>)
    requires Linked(d) && PossibleRun(d, xs)
    ensures Capacities(HappensAll(d, xs)) == Capacities(d)
    decreases |xs|
  {
    hide LinkedEnd, SendingMoves, ReceivingMoves, AdvanceAll, Wellformed, Apply;
    if xs != [] {
      var e, x := if xs[0].0.AtA? then d else Swap(d), xs[0].1;
      assert e.a.Ok() && Wellformed(e.ab) && Wellformed(e.ba) by { LinkedMeans(e); }
      RunKeepsCapacity(e.ab, SendingMoves(e, x));
      RunKeepsCapacity(e.ba, ReceivingMoves(e, x));
      CapacitiesStay(Happens(d, xs[0].0, x), xs[1..]);
    }
  }

  function Capacities(d: Pair): (nat, nat)
  {
    (d.ab.receiver.reassembler.output.capacity, d.ba.receiver.reassembler.output.capacity)
  }

  /** If each stream and the window it is sent into fit in 2^32 - 2 bytes, nothing at all is assumed: however the
      network loses, duplicates, delays and reorders segments, and whatever the applications do, each side's output is
      a prefix of what the other side's application wrote. */
  lemma DuplexSafetyShort(a: Setup, b: Setup, xs: seq<(Where, Happening)>)
    requires a.recvCapacity >= 1 && b.recvCapacity >= 1
    requires PossibleRun(Meet(a, b), xs)
    requires var d := HappensAll(Meet(a, b), xs);
             && |d.a.sender.stream.history| + b.recvCapacity < 0xFFFF_FFFE
             && |d.b.sender.stream.history| + a.recvCapacity < 0xFFFF_FFFE
    ensures var d := HappensAll(Meet(a, b), xs);
            && d.b.receiver.Output() <= d.a.sender.stream.history
            && d.a.receiver.Output() <= d.b.sender.stream.history
  {
    hide HappensAll, PossibleRun, FreshRun, LinkedEnd, Safe;
    var d := Meet(a, b);
    StartIsSafe(a.sendCapacity, a.rtTimeout, a.isn, b.recvCapacity);
    StartIsSafe(b.sendCapacity, b.rtTimeout, b.isn, a.recvCapacity);
    LinkedMeans(HappensAll(d, xs));
    CapacitiesStay(d, xs);
    ShortRunsAreFresh(d, xs);
    DuplexSafety(a, b, xs);
  }
}
