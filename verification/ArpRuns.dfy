/** Whole runs of a network interface, against a log of everything submitted, sent, learned and asked for. */
module ArpRuns {
  import opened Words
  import opened Ipv4Datagrams
  import opened NetworkInterfaces

  datatype Action =
    | Send(datagram: Datagram, hop: uint32)
    | Receive(frame: Frame)
    | Tick(ms: nat)
    | TakeFrames          // the owner dequeues the outgoing frames

  /** A frame that went out and when; for a datagram, the next hop it was submitted for. */
  datatype Logged = Data(time: nat, hop: uint32, frame: Frame) | Arp(time: nat, frame: Frame)

  datatype Learned = Learned(mac: Mac, time: nat)

  datatype World = World(
    iface: Interface,
    clock: nat,                         // milliseconds ticked so far
    submitted: seq<Waiting>,            // every datagram ever given to the interface, with its next hop
    log: seq<Logged>,                   // every frame ever sent
    learned: map<uint32, Learned>,      // the last mapping learned for each address, and when
    asked: map<uint32, nat>)            // when each address was last asked for

  function Act(i: Interface, a: Action): Interface
  {
    match a
    case Send(d, hop) => i.SendDatagram(d, hop)
    case Receive(f) => i.RecvFrame(f)
    case Tick(ms) => i.Tick(ms)
    case TakeFrames => i.(framesOut := [])
  }

  function LogData(frames: seq<Frame>, hop: uint32, time: nat): seq<Logged>
  {
    seq(|frames|, k requires 0 <= k < |frames| => Data(time, hop, frames[k]))
  }

  function LogArp(frames: seq<Frame>, time: nat): seq<Logged>
  {
    seq(|frames|, k requires 0 <= k < |frames| => Arp(time, frames[k]))
  }

  /** What an action adds to the log; a tick's frames go out at the end of the tick. */
  function Emits(i: Interface, a: Action, clock: nat): seq<Logged>
  {
    match a
    case Send(d, hop) =>
      if hop in i.table then [Data(clock, hop, i.DatagramFrame(hop, d))]
      else if Asked(i.pending, hop) then [] else [Arp(clock, i.ArpFrame(hop, Request))]
    case Receive(f) =>
      if !i.Hears(f) then []
      else
        var m := f.payload.message;
        var i' := i.(table := i.table[m.senderIp := Entry(m.senderMac, ARP_TTL)]);
        (if m.opcode == Request then [Arp(clock, i'.ArpFrame(m.senderIp, Reply))] else [])
        + LogData(i'.Flushed(i.waiting, m.senderIp), m.senderIp, clock)
    case Tick(ms) => LogArp(i.Repeated(i.pending, ms), clock + ms)
    case TakeFrames => []
  }

  function Frames(log: seq<Logged>): seq<Frame>
  {
    seq(|log|, k requires 0 <= k < |log| => log[k].frame)
  }

  /** The log is what leaves through the queue. */
  lemma EmitsAreFrames(i: Interface, a: Action, clock: nat)
    requires !a.TakeFrames?
    ensures Act(i, a).framesOut == i.framesOut + Frames(Emits(i, a, clock))
  {
    if a.Receive? && i.Hears(a.frame) {
      var m := a.frame.payload.message;
      var i' := i.(table := i.table[m.senderIp := Entry(m.senderMac, ARP_TTL)]);
      var reply := if m.opcode == Request then [i'.ArpFrame(m.senderIp, Reply)] else [];
      assert Frames(Emits(i, a, clock)) == reply + i'.Flushed(i.waiting, m.senderIp);
    }
  }

  // ----- frames in terms of their fields -----

  /** The frame is addressed to this interface or to all, is not typed as IPv4, and holds an ARP message about this
      interface's address. */
  predicate Concerns(i: Interface, f: Frame)
  {
    && (f.dst == i.mac || f.dst == [0xff, 0xff, 0xff, 0xff, 0xff, 0xff])
    && f.etherType != 0x800 && f.payload.IsArp? && f.payload.message.targetIp == i.ip
  }

  /** A datagram is taken from exactly the frames addressed to this interface or to all, typed as IPv4, that hold it. */
  lemma ReceivedIff(i: Interface, f: Frame, d: Datagram)
    ensures i.Received(f) == Some(d) <==>
            && (f.dst == i.mac || f.dst == [0xff, 0xff, 0xff, 0xff, 0xff, 0xff])
            && f.etherType == 0x800 && f.payload == IsDatagram(d)
  {
  }

  /** A message is learned from exactly the frames that concern this interface: afterwards its sender is in the table
      for 30 seconds, nothing is pending or waiting for it, and everything else is as it was.  Any other frame changes
      nothing. */
  lemma LearnsIff(i: Interface, f: Frame)
    ensures var i' := i.RecvFrame(f);
            if Concerns(i, f) then
              var m := f.payload.message;
              && i'.table == i.table[m.senderIp := Entry(m.senderMac, 30000)] && i'.mac == i.mac && i'.ip == i.ip
              && (forall p :: p in i'.pending <==> p in i.pending && p.ip != m.senderIp)
              && (forall w :: w in i'.waiting <==> w in i.waiting && w.ip != m.senderIp)
            else i' == i
  {
    hide Interface.Flushed, Interface.ArpFrame, Forgotten, Others;
    if Concerns(i, f) {
      ForgottenIs(i.pending, f.payload.message.senderIp);
      OthersAre(i.waiting, f.payload.message.senderIp);
    }
  }

  /** The frame that asks for `ip`: to all, unless its address happens to be known. */
  function Question(i: Interface, ip: uint32): Frame
  {
    if ip in i.table then
      Frame(i.table[ip].mac, i.mac, 0x806, IsArp(ArpMessage(Request, i.mac, i.ip, i.table[ip].mac, ip)))
    else
      Frame([0xff, 0xff, 0xff, 0xff, 0xff, 0xff], i.mac, 0x806,
            IsArp(ArpMessage(Request, i.mac, i.ip, [0, 0, 0, 0, 0, 0], ip)))
  }

  /** The frames of the datagrams that waited for `ip`, now that it is known to be at `to`. */
  function Released(ws: seq<Waiting>, ip: uint32, to: Mac, from: Mac): seq<Frame>
  {
    if ws == [] then []
    else (if ws[0].ip == ip then [Frame(to, from, 0x800, IsDatagram(ws[0].datagram))] else [])
         + Released(ws[1..], ip, to, from)
  }

  /** The questions asked again by a tick. */
  function Again(i: Interface, ps: seq<Pending>, ms: nat): seq<Frame>
  {
    if ps == [] then [] else (if ps[0].left <= ms then [Question(i, ps[0].ip)] else []) + Again(i, ps[1..], ms)
  }

  /** What an action puts on the wire. */
  function Wire(i: Interface, a: Action): seq<Frame>
  {
    match a
    case Send(d, hop) =>
      if hop in i.table then [Frame(i.table[hop].mac, i.mac, 0x800, IsDatagram(d))]
      else if exists p <- i.pending :: p.ip == hop then [] else [Question(i, hop)]
    case Receive(f) =>
      if !Concerns(i, f) then []
      else
        var m := f.payload.message;
        (if m.opcode == Request
         then [Frame(m.senderMac, i.mac, 0x806, IsArp(ArpMessage(Reply, i.mac, i.ip, m.senderMac, m.senderIp)))]
         else [])
        + Released(i.waiting, m.senderIp, m.senderMac, i.mac)
    case Tick(ms) => Again(i, i.pending, ms)
    case TakeFrames => []
  }

  lemma {:induction false} FlushedIs(i: Interface, ws: seq<Waiting>, ip: uint32)
    requires ip in i.table
    ensures i.Flushed(ws, ip) == Released(ws, ip, i.table[ip].mac, i.mac)
    decreases |ws|
  {
    if ws != [] {
      FlushedIs(i, ws[1..], ip);
    }
  }

  lemma {:induction false} RepeatedIs(i: Interface, ps: seq<Pending>, ms: nat)
    ensures i.Repeated(ps, ms) == Again(i, ps, ms)
    decreases |ps|
  {
    if ps != [] {
      RepeatedIs(i, ps[1..], ms);
    }
  }

  /** Every frame that leaves, field by field: a datagram in an IPv4 frame to the address in the table, a question to
      all, an answer and the released datagrams to the sender of the message, and nothing else. */
  lemma ActionsOnTheWire(i: Interface, a: Action)
    requires !a.TakeFrames?
    ensures Act(i, a).framesOut == i.framesOut + Wire(i, a)
  {
    match a
    case Send(d, hop) =>
    case Receive(f) =>
      if Concerns(i, f) {
        LearnOnTheWire(i, f.payload.message);
      }
    case Tick(ms) => RepeatedIs(i, i.pending, ms);
  }

  lemma LearnOnTheWire(i: Interface, m: ArpMessage)
    ensures i.Learn(m).framesOut == i.framesOut +
              ((if m.opcode == Request
                then [Frame(m.senderMac, i.mac, 0x806, IsArp(ArpMessage(Reply, i.mac, i.ip, m.senderMac, m.senderIp)))]
                else [])
               + Released(i.waiting, m.senderIp, m.senderMac, i.mac))
  {
    hide Interface.Flushed, Released, Forgotten, Others;
    FlushedIs(i.(table := i.table[m.senderIp := Entry(m.senderMac, 30000)]), i.waiting, m.senderIp);
  }

  // ----- runs -----

  function Observe(w: World, a: Action): World
  {
    var clock := w.clock + if a.Tick? then a.ms else 0;
    var emits := Emits(w.iface, a, w.clock);
    World(Act(w.iface, a), clock,
          w.submitted + if a.Send? then [Waiting(a.hop, a.datagram)] else [],
          w.log + emits,
          if a.Receive? && Concerns(w.iface, a.frame)
          then w.learned[a.frame.payload.message.senderIp := Learned(a.frame.payload.message.senderMac, clock)]
          else w.learned,
          w.asked + map ip | ip in RequestIps(emits) :: clock)
  }

  function ObserveAll(w: World, actions: seq<Action>): World
    decreases |actions|
  {
    if actions == [] then w else Observe(ObserveAll(w, actions[..|actions| - 1]), actions[|actions| - 1])
  }

  function Begin(mac: Mac, ip: uint32): World
  {
    World(Interface(mac, ip, [], map[], [], []), 0, [], [], map[], map[])
  }

  /** Is this log entry an ARP request? */
  predicate IsRequest(l: Logged)
  {
    l.Arp? && l.frame.payload.IsArp? && l.frame.payload.message.opcode == Request
  }

  function RequestIps(log: seq<Logged>): set<uint32>
  {
    set l | l in log && IsRequest(l) :: l.frame.payload.message.targetIp
  }

  // ----- the interface between two calls -----

  predicate HasWaiting(ws: seq<Waiting>, ip: uint32)
  {
    exists w <- ws :: w.ip == ip
  }

  predicate Distinct(ps: seq<Pending>)
  {
    forall j, k :: 0 <= j < k < |ps| ==> ps[j].ip != ps[k].ip
  }

  predicate Positive(ps: seq<Pending>)
  {
    forall p <- ps :: 0 < p.left <= ARP_TIMEOUT
  }

  /** Addresses asked for are listed once each, are exactly those that datagrams wait for, and are not in the
      table; every counter is positive. */
  ghost predicate Tidy(i: Interface)
  {
    && Distinct(i.pending) && Positive(i.pending)
    && (forall ip: uint32 :: Asked(i.pending, ip) <==> HasWaiting(i.waiting, ip))
    && (forall p <- i.pending :: p.ip !in i.table)
    && (forall ip <- i.table :: 0 < i.table[ip].ttl <= ARP_TTL)
  }

  lemma {:induction false} ForgottenIs(ps: seq<Pending>, ip: uint32)
    ensures forall p :: p in Forgotten(ps, ip) <==> p in ps && p.ip != ip
    ensures Distinct(ps) ==> Distinct(Forgotten(ps, ip))
  {
    if ps != [] {
      ForgottenIs(ps[1..], ip);
      assert ps == [ps[0]] + ps[1..];
      if Distinct(ps) {
        assert forall p | p in ps[1..] :: p.ip != ps[0].ip;
        var f := Forgotten(ps[1..], ip);
        assert forall k | 0 <= k < |f| :: f[k] in f;
      }
    }
  }

  lemma {:induction false} OthersAre(ws: seq<Waiting>, ip: uint32)
    ensures forall w :: w in Others(ws, ip) <==> w in ws && w.ip != ip
  {
    if ws != [] {
      OthersAre(ws[1..], ip);
      assert ws == [ws[0]] + ws[1..];
    }
  }

  lemma {:induction false} OlderIs(ps: seq<Pending>, ms: nat)
    ensures |Older(ps, ms)| == |ps|
    ensures forall k :: 0 <= k < |ps| ==> Older(ps, ms)[k].ip == ps[k].ip
    ensures forall k :: 0 <= k < |ps| ==>
            Older(ps, ms)[k].left == (if ps[k].left <= ms then ARP_TIMEOUT else ps[k].left - ms)
  {
    if ps != [] {
      OlderIs(ps[1..], ms);
    }
  }

  lemma AskedByIndex(ps: seq<Pending>, ip: uint32)
    ensures Asked(ps, ip) <==> exists k :: 0 <= k < |ps| && ps[k].ip == ip
  {
  }

  lemma OlderElements(ps: seq<Pending>, ms: nat)
    requires Distinct(ps) && Positive(ps)
    ensures Distinct(Older(ps, ms)) && Positive(Older(ps, ms))
    ensures forall p <- Older(ps, ms) :: Asked(ps, p.ip)
  {
    hide Older;
    OlderIs(ps, ms);
    forall p <- Older(ps, ms)
      ensures Asked(ps, p.ip) && 0 < p.left <= ARP_TIMEOUT
    {
      var k :| 0 <= k < |ps| && Older(ps, ms)[k] == p;
      assert ps[k] in ps;
    }
  }

  lemma OlderAsked(ps: seq<Pending>, ms: nat, ip: uint32)
    ensures Asked(Older(ps, ms), ip) <==> Asked(ps, ip)
  {
    hide Older, Asked;
    OlderIs(ps, ms);
    AskedByIndex(Older(ps, ms), ip);
    AskedByIndex(ps, ip);
  }

  lemma TickIsTidy(i: Interface, ms: nat)
    requires Tidy(i)
    ensures Tidy(i.Tick(ms))
  {
    hide Older, Asked, HasWaiting, Aged, Distinct, Positive;
    OlderElements(i.pending, ms);
    forall ip: uint32
      ensures Asked(Older(i.pending, ms), ip) <==> Asked(i.pending, ip)
    {
      OlderAsked(i.pending, ms, ip);
    }
    AgedIs(i.table, ms);
    forall p <- Older(i.pending, ms)
      ensures p.ip !in i.table
    {
      AskedUnknown(i, p.ip);
    }
  }

  lemma AskedUnknown(i: Interface, ip: uint32)
    requires Tidy(i) && Asked(i.pending, ip)
    ensures ip !in i.table
  {
  }

  lemma AgedIs(table: map<uint32, Entry>, ms: nat)
    ensures forall ip :: ip in Aged(table, ms) <==> ip in table && table[ip].ttl > ms
    ensures forall ip <- Aged(table, ms) :: Aged(table, ms)[ip] == Entry(table[ip].mac, table[ip].ttl - ms)
  {
  }

  lemma ForgottenAsked(ps: seq<Pending>, ip: uint32, x: uint32)
    ensures Asked(Forgotten(ps, ip), x) <==> Asked(ps, x) && x != ip
  {
    ForgottenIs(ps, ip);
  }

  lemma OthersWaiting(ws: seq<Waiting>, ip: uint32, x: uint32)
    ensures HasWaiting(Others(ws, ip), x) <==> HasWaiting(ws, x) && x != ip
  {
    OthersAre(ws, ip);
  }

  lemma LearnIsTidy(i: Interface, m: ArpMessage)
    requires Tidy(i)
    ensures Tidy(i.Learn(m))
  {
    hide Forgotten, Others, Asked, HasWaiting;
    ForgottenIs(i.pending, m.senderIp);
    forall x: uint32
      ensures Asked(Forgotten(i.pending, m.senderIp), x) <==> HasWaiting(Others(i.waiting, m.senderIp), x)
    {
      ForgottenAsked(i.pending, m.senderIp, x);
      OthersWaiting(i.waiting, m.senderIp, x);
    }
  }

  lemma AppendAsked(ps: seq<Pending>, p: Pending, ws: seq<Waiting>, w: Waiting, x: uint32)
    ensures Asked(ps + [p], x) <==> Asked(ps, x) || p.ip == x
    ensures HasWaiting(ws + [w], x) <==> HasWaiting(ws, x) || w.ip == x
  {
    assert p in ps + [p] && w in ws + [w];
    assert forall q | q in ps :: q in ps + [p];
    assert forall v | v in ws :: v in ws + [w];
  }

  lemma SendIsTidy(i: Interface, d: Datagram, hop: uint32)
    requires Tidy(i)
    ensures Tidy(i.SendDatagram(d, hop))
  {
    hide Asked, HasWaiting;
    forall x: uint32
      ensures Asked(i.pending + [Pending(hop, ARP_TIMEOUT)], x) <==> Asked(i.pending, x) || x == hop
      ensures HasWaiting(i.waiting + [Waiting(hop, d)], x) <==> HasWaiting(i.waiting, x) || x == hop
    {
      AppendAsked(i.pending, Pending(hop, ARP_TIMEOUT), i.waiting, Waiting(hop, d), x);
    }
    if !Asked(i.pending, hop) {
      NotAsked(i.pending, hop);
    }
  }

  lemma NotAsked(ps: seq<Pending>, ip: uint32)
    requires !Asked(ps, ip)
    ensures forall k :: 0 <= k < |ps| ==> ps[k].ip != ip
  {
  }

  lemma ActIsTidy(i: Interface, a: Action)
    requires Tidy(i)
    ensures Tidy(Act(i, a))
  {
    hide Interface.SendDatagram, Interface.Learn, Interface.Tick, Interface.Hears;
    match a
    case Send(d, hop) => SendIsTidy(i, d, hop);
    case Receive(f) => HearsArp(i, f); if i.Hears(f) { LearnIsTidy(i, f.payload.message); }
    case Tick(ms) => TickIsTidy(i, ms);
    case TakeFrames =>
  }

  lemma HearsArp(i: Interface, f: Frame)
    ensures i.Hears(f) ==> f.payload.IsArp?
  {
  }

  // ----- conservation -----

  /** The datagrams of a list that are bound for `hop`, in order. */
  function For(ws: seq<Waiting>, hop: uint32): seq<Datagram>
  {
    if ws == [] then [] else BoundFor(ws[0], hop) + For(ws[1..], hop)
  }

  function BoundFor(w: Waiting, hop: uint32): seq<Datagram>
  {
    if w.ip == hop then [w.datagram] else []
  }

  /** The datagrams framed for `hop`, in order. */
  function FramedFor(log: seq<Logged>, hop: uint32): seq<Datagram>
  {
    if log == [] then [] else FramedBy(log[0], hop) + FramedFor(log[1..], hop)
  }

  function FramedBy(l: Logged, hop: uint32): seq<Datagram>
  {
    if l.Data? && l.hop == hop && l.frame.payload.IsDatagram? then [l.frame.payload.datagram] else []
  }

  lemma {:induction false} ForAppend(a: seq<Waiting>, b: seq<Waiting>, hop: uint32)
    ensures For(a + b, hop) == For(a, hop) + For(b, hop)
  {
    hide BoundFor;
    if a == [] {
      assert a + b == b;
    } else {
      ForAppend(a[1..], b, hop);
      assert (a + b)[1..] == a[1..] + b && (a + b)[0] == a[0];
      var x, y, z := BoundFor(a[0], hop), For(a[1..], hop), For(b, hop);
      assert x + (y + z) == (x + y) + z;
    }
  }

  lemma {:induction false} FramedAppend(a: seq<Logged>, b: seq<Logged>, hop: uint32)
    ensures FramedFor(a + b, hop) == FramedFor(a, hop) + FramedFor(b, hop)
  {
    hide FramedBy;
    if a == [] {
      assert a + b == b;
    } else {
      FramedAppend(a[1..], b, hop);
      assert (a + b)[1..] == a[1..] + b && (a + b)[0] == a[0];
      var x, y, z := FramedBy(a[0], hop), FramedFor(a[1..], hop), FramedFor(b, hop);
      assert x + (y + z) == (x + y) + z;
    }
  }

  lemma {:induction false} NoneFor(ws: seq<Waiting>, hop: uint32)
    requires !HasWaiting(ws, hop)
    ensures For(ws, hop) == []
  {
    if ws != [] {
      assert ws[0] in ws;
      assert forall w | w in ws[1..] :: w in ws;
      NoneFor(ws[1..], hop);
    }
  }

  lemma {:induction false} OthersFor(ws: seq<Waiting>, ip: uint32, hop: uint32)
    ensures For(Others(ws, ip), hop) == if hop == ip then [] else For(ws, hop)
  {
    if ws != [] {
      OthersFor(ws[1..], ip, hop);
      ForAppend(if ws[0].ip == ip then [] else [ws[0]], Others(ws[1..], ip), hop);
      assert [ws[0]][1..] == [];
    }
  }

  lemma LogDataAppend(a: seq<Frame>, b: seq<Frame>, hop: uint32, time: nat)
    ensures LogData(a + b, hop, time) == LogData(a, hop, time) + LogData(b, hop, time)
  {
  }

  lemma OneFramed(f: Frame, ip: uint32, time: nat, hop: uint32)
    requires f.payload.IsDatagram?
    ensures FramedFor(LogData([f], ip, time), hop) == if hop == ip then [f.payload.datagram] else []
  {
    assert LogData([f], ip, time)[1..] == [];
  }

  lemma NoneFramed(ip: uint32, time: nat, hop: uint32)
    ensures FramedFor(LogData([], ip, time), hop) == []
  {
  }

  lemma {:induction false} FlushedFor(i: Interface, ws: seq<Waiting>, ip: uint32, time: nat, hop: uint32)
    ensures FramedFor(LogData(i.Flushed(ws, ip), ip, time), hop) == if hop == ip then For(ws, hop) else []
    decreases |ws|
  {
    hide FramedFor, LogData;
    NoneFramed(ip, time, hop);
    if ws != [] {
      FlushedFor(i, ws[1..], ip, time, hop);
      var frame := i.DatagramFrame(ip, ws[0].datagram);
      var first := if ws[0].ip == ip then [frame] else [];
      var rest := i.Flushed(ws[1..], ip);
      LogDataAppend(first, rest, ip, time);
      FramedAppend(LogData(first, ip, time), LogData(rest, ip, time), hop);
      OneFramed(frame, ip, time, hop);
    }
  }

  lemma {:induction false} ArpFramesNothing(log: seq<Logged>, hop: uint32)
    requires forall l <- log :: l.Arp?
    ensures FramedFor(log, hop) == []
  {
    if log != [] {
      assert log[0] in log;
      assert forall l | l in log[1..] :: l in log;
      ArpFramesNothing(log[1..], hop);
    }
  }

  /** For this next hop: everything submitted has been framed or is waiting, in order, once each. */
  predicate Conserved(w: World, hop: uint32)
  {
    For(w.submitted, hop) == FramedFor(w.log, hop) + For(w.iface.waiting, hop)
  }

  lemma OneFor(w: Waiting, l: Logged, hop: uint32)
    ensures For([w], hop) == if w.ip == hop then [w.datagram] else []
    ensures FramedFor([l], hop) == FramedBy(l, hop)
  {
    assert [w][1..] == [] && [l][1..] == [];
  }

  lemma SendConserves(w: World, d: Datagram, h: uint32, hop: uint32)
    requires Tidy(w.iface) && Conserved(w, hop)
    ensures Conserved(Observe(w, Send(d, h)), hop)
  {
    hide HasWaiting, Asked, For, FramedFor, Tidy;
    var i, one := w.iface, Waiting(h, d);
    var emits := Emits(i, Send(d, h), w.clock);
    ForAppend(w.submitted, [one], hop);
    FramedAppend(w.log, emits, hop);
    OneFor(one, Data(w.clock, h, i.DatagramFrame(h, d)), hop);
    if h in i.table {
      if h == hop {
        KnownNotWaiting(i, h);
        NoneFor(i.waiting, h);
      }
    } else {
      ForAppend(i.waiting, [one], hop);
      ArpFramesNothing(emits, hop);
    }
  }

  lemma KnownNotWaiting(i: Interface, ip: uint32)
    requires Tidy(i) && ip in i.table
    ensures !HasWaiting(i.waiting, ip)
  {
    if Asked(i.pending, ip) {
      AskedUnknown(i, ip);
    }
  }

  lemma ReceiveConserves(w: World, f: Frame, hop: uint32)
    requires Conserved(w, hop)
    ensures Conserved(Observe(w, Receive(f)), hop)
  {
    hide Others, For, FramedFor, LogData, Interface.Flushed;
    var i := w.iface;
    assert w.submitted + [] == w.submitted;
    if i.Hears(f) {
      var m := f.payload.message;
      var i' := i.(table := i.table[m.senderIp := Entry(m.senderMac, ARP_TTL)]);
      var reply := if m.opcode == Request then [Arp(w.clock, i'.ArpFrame(m.senderIp, Reply))] else [];
      var flushed := LogData(i'.Flushed(i.waiting, m.senderIp), m.senderIp, w.clock);
      FramedAppend(w.log, reply + flushed, hop);
      FramedAppend(reply, flushed, hop);
      ArpFramesNothing(reply, hop);
      FlushedFor(i', i.waiting, m.senderIp, w.clock, hop);
      OthersFor(i.waiting, m.senderIp, hop);
    } else {
      assert w.log + [] == w.log;
    }
  }

  lemma TickConserves(w: World, ms: nat, hop: uint32)
    requires Conserved(w, hop)
    ensures Conserved(Observe(w, Tick(ms)), hop)
  {
    hide For, FramedFor, RequestIps, Interface.Repeated, Older, Aged;
    var emits := Emits(w.iface, Tick(ms), w.clock);
    assert w.submitted + [] == w.submitted;
    FramedAppend(w.log, emits, hop);
    ArpFramesNothing(emits, hop);
    assert FramedFor(w.log, hop) + [] == FramedFor(w.log, hop);
  }

  lemma {:induction false} Conservation(w: World, actions: seq<Action>, hop: uint32)
    requires Tidy(w.iface) && Conserved(w, hop)
    ensures Tidy(ObserveAll(w, actions).iface) && Conserved(ObserveAll(w, actions), hop)
    decreases |actions|
  {
    hide Tidy, Conserved, Act, Emits;
    if actions != [] {
      var before, a := ObserveAll(w, actions[..|actions| - 1]), actions[|actions| - 1];
      Conservation(w, actions[..|actions| - 1], hop);
      ActIsTidy(before.iface, a);
      match a
      case Send(d, h) => SendConserves(before, d, h, hop);
      case Receive(f) => ReceiveConserves(before, f, hop);
      case Tick(ms) => TickConserves(before, ms, hop);
      case TakeFrames => TakeConserves(before, hop);
    }
  }

  lemma TakeConserves(w: World, hop: uint32)
    requires Conserved(w, hop)
    ensures Conserved(Observe(w, TakeFrames), hop)
  {
    assert w.submitted + [] == w.submitted && w.log + [] == w.log;
  }

  /** ARP conservation.  In every run, for every next hop, the datagrams submitted for it are, in order, those already
      framed followed by those still waiting; addresses asked for are listed once, are exactly those that
      something waits for, and are not in the table. */
  lemma ArpConservation(mac: Mac, ip: uint32, actions: seq<Action>, hop: uint32)
    ensures var w := ObserveAll(Begin(mac, ip), actions);
            && For(w.submitted, hop) == FramedFor(w.log, hop) + For(w.iface.waiting, hop)
            && Distinct(w.iface.pending)
            && (Asked(w.iface.pending, hop) <==> HasWaiting(w.iface.waiting, hop))
            && (Asked(w.iface.pending, hop) ==> hop !in w.iface.table)
  {
    hide ObserveAll, For, FramedFor;
    var w := Begin(mac, ip);
    assert Conserved(w, hop) by { BeginConserved(mac, ip, hop); }
    Conservation(w, actions, hop);
    var i := ObserveAll(w, actions).iface;
    if Asked(i.pending, hop) {
      AskedUnknown(i, hop);
    }
  }

  lemma BeginConserved(mac: Mac, ip: uint32, hop: uint32)
    ensures Conserved(Begin(mac, ip), hop)
  {
  }

  // ----- answers -----

  /** A request for this interface's address is answered at once, to the asker, with the interface's own addresses. */
  lemma RequestsAreAnswered(i: Interface, f: Frame, clock: nat)
    requires Concerns(i, f) && f.payload.message.opcode == Request
    ensures var m := f.payload.message;
            Arp(clock, Frame(m.senderMac, i.mac, TYPE_ARP,
                             IsArp(ArpMessage(Reply, i.mac, i.ip, m.senderMac, m.senderIp))))
              in Emits(i, Receive(f), clock)
  {
  }
}
