/** A connection: a sender, a receiver and the rules that tie them together (libsponge/tcp_connection.cc). */
module TcpConnections {
  import opened Words
  import opened WrappingIntegers
  import opened ByteStreams
  import opened StreamReassemblers
  import opened TcpSegments
  import opened TcpReceivers
  import opened TcpSenders

  const MAX_RETX_ATTEMPTS := 8

  /** The sequence number one step before `n`. */
  function Before(n: uint32): uint32
  {
    (n as int - 1) % 0x1_0000_0000
  }

  /** The sender's part in receiving an ordinary segment. */
  function SenderHears(s: Sender, h: TcpHeader): (s': Sender)
    requires s.Sane()
    ensures s'.Sane()
  {
    if h.ack then AckKeepsSane(s, h.ackno, h.win); s.AckReceived(h.ackno, h.win)
    else FillKeepsSane(s); s.FillWindow()
  }

  /** The same, with an empty segment added if the peer expects an answer and none is queued. */
  function SenderAnswers(s: Sender, seg: TcpSegment): (s': Sender)
    requires s.Sane()
    ensures s'.Sane()
  {
    var s' := SenderHears(s, seg.header);
    if seg.Length() != 0 && s'.segmentsOut == [] then s'.SendEmpty() else s'
  }

  datatype Connection = Connection(
    rtTimeout: uint16,
    receiver: Receiver,
    sender: Sender,
    segmentsOut: seq<TcpSegment>,
    linger: bool,
    error: bool,
    fin: bool,
    sinceLast: uint64)              // milliseconds since a segment was last received
  {
    predicate Ok()
    {
      receiver.Ok() && sender.Sane()
    }

    /** Both streams have finished and the peer has acknowledged ours. */
    predicate Prereqs()
      requires Ok()
    {
      fin && sender.stream.Eof() && sender.InFlight() == 0 && receiver.reassembler.output.Eof()
    }

    predicate Active()
      requires Ok()
    {
      !error && (!Prereqs() || linger)
    }

    function Report(): (c: Connection)
      requires Ok()
      ensures c.Ok()
    {
      this.(error := true, sender := sender.(stream := sender.stream.Fail()), receiver := receiver.Fail())
    }

    /** A segment of the sender with the receiver's acknowledgment, window and the reset flag filled in. */
    function Stamp(seg: TcpSegment): TcpSegment
      requires Ok()
    {
      var h := if receiver.Ackno().Some? then seg.header.(ack := true, ackno := receiver.Ackno().value) else seg.header;
      seg.(header := h.(win := Min(receiver.WindowSize(), 0xFFFF), rst := error))
    }

    function StampAll(segs: seq<TcpSegment>): seq<TcpSegment>
      requires Ok()
    {
      seq(|segs|, i requires 0 <= i < |segs| => Stamp(segs[i]))
    }

    /** Everything the sender has queued leaves, stamped; a FIN among it is remembered. */
    function Send(): (c: Connection)
      requires Ok()
      ensures c.Ok()
    {
      this.(segmentsOut := segmentsOut + StampAll(sender.segmentsOut),
            fin := fin || (exists seg <- sender.segmentsOut :: seg.header.fin),
            sender := sender.(segmentsOut := []))
    }

    predicate IsKeepAlive(seg: TcpSegment)
    {
      && seg.Length() == 0 && receiver.Ackno().Some?
      && seg.header.seqno == Before(receiver.Ackno().value)
    }

    /** An ordinary segment, before anything is sent in response. */
    function Accept(seg: TcpSegment): (c: Connection)
      requires Ok()
      ensures c.Ok()
    {
      var s := SenderAnswers(sender, seg);
      var r := receiver.SegmentReceived(seg);
      this.(receiver := r, sender := s,
            linger := linger && !(r.reassembler.output.Eof() && !(s.stream.Eof() && fin)))
    }

    function SegmentReceived(seg: TcpSegment): (c: Connection)
      requires Ok()
      ensures c.Ok()
    {
      var c := this.(sinceLast := 0);
      var c := if seg.header.rst then c.Report() else c;
      if !c.Active() then c
      else if c.IsKeepAlive(seg) then c.(sender := c.sender.SendEmpty()).Send()
      else c.Accept(seg).Send()
    }

    /** The sender fills its window and everything it queued leaves. */
    function FillAndSend(): (c: Connection)
      requires Ok()
      ensures c.Ok()
    {
      FillKeepsSane(sender);
      this.(sender := sender.FillWindow()).Send()
    }

    function Write(data: seq<byte>): (c: Connection)
      requires Ok()
      ensures c.Ok()
    {
      if Active() then this.(sender := sender.(stream := sender.stream.Write(data))).FillAndSend() else this
    }

    function EndInputStream(): (c: Connection)
      requires Ok()
      ensures c.Ok()
    {
      if Active() then this.(sender := sender.(stream := sender.stream.End())).FillAndSend() else this
    }

    function Connect(): (c: Connection)
      requires Ok()
      ensures c.Ok()
    {
      FillAndSend()
    }

    function Age(ms: uint64): (c: Connection)
      requires Ok()
      ensures c.Ok()
    {
      this.(sinceLast := (sinceLast + ms) % 0x1_0000_0000_0000_0000, sender := sender.Tick(ms))
    }

    function AbortIfTooMany(): (c: Connection)
      requires Ok()
      ensures c.Ok()
    {
      if sender.retransmissions % 0x1_0000_0000 > MAX_RETX_ATTEMPTS then Report() else this
    }

    function Tick(ms: uint64): (c: Connection)
      requires Ok()
      ensures c.Ok()
    {
      if !Active() then this
      else
        var c := Age(ms).AbortIfTooMany();
        var c := if c.Prereqs() && c.sinceLast >= 10 * rtTimeout then c.(linger := false) else c;
        c.Send()
    }

    /** The application reads from the inbound stream. */
    function Read(len: nat): (c: Connection)
      requires Ok()
      ensures c.Ok()
    {
      this.(receiver := receiver.Pop(len))
    }
  }

  /** One turn of the loop of `_send`. */
  lemma SendFirst(c: Connection)
    requires c.Ok() && c.sender.segmentsOut != []
    ensures var q := c.sender.segmentsOut;
            var c' := c.(segmentsOut := c.segmentsOut + [c.Stamp(q[0])], fin := c.fin || q[0].header.fin,
                         sender := c.sender.(segmentsOut := q[1..]));
            c'.Ok() && c'.Send() == c.Send()
  {
    hide Connection.Stamp;
    var q := c.sender.segmentsOut;
    var c' := c.(segmentsOut := c.segmentsOut + [c.Stamp(q[0])], fin := c.fin || q[0].header.fin,
                 sender := c.sender.(segmentsOut := q[1..]));
    forall seg | seg in q
      ensures c'.Stamp(seg) == c.Stamp(seg)
    {
      StampDepends(c, c', seg);
    }
    assert c.StampAll(q) == [c.Stamp(q[0])] + c'.StampAll(q[1..]);
    assert c.segmentsOut + c.StampAll(q) == c'.segmentsOut + c'.StampAll(q[1..]);
    assert q == [q[0]] + q[1..];
  }

  lemma StampDepends(c: Connection, c': Connection, seg: TcpSegment)
    requires c.Ok() && c'.Ok() && c.receiver == c'.receiver && c.error == c'.error
    ensures c.Stamp(seg) == c'.Stamp(seg)
  {
  }

  lemma SendNothing(c: Connection)
    requires c.Ok() && c.sender.segmentsOut == []
    ensures c.Send() == c
  {
    assert c.segmentsOut + c.StampAll([]) == c.segmentsOut;
  }

  class TCPConnection {
    const rtTimeout: uint16
    const receiver: TCPReceiver
    const sender: TCPSender
    var segmentsOut: seq<TcpSegment>
    var linger: bool
    var error: bool
    var fin: bool
    var sinceLast: uint64

    ghost const Repr: set<object> :=
      {this, receiver, receiver.reassembler, receiver.reassembler.output, sender, sender.stream}

    ghost predicate Valid()
      reads Repr
    {
      receiver.Valid() && sender.Valid() && sender.stream != receiver.reassembler.output
    }

    ghost function State(): (c: Connection)
      requires Valid()
      reads Repr
      ensures c.Ok()
    {
      Connection(rtTimeout, receiver.State(), sender.State(), segmentsOut, linger, error, fin, sinceLast)
    }

    constructor (rtTimeout: uint16, recvCapacity: nat, sendCapacity: nat, isn: uint32)
      ensures Valid()
      ensures State() == Connection(rtTimeout,
                                    Receiver(Reassembler(Stream(recvCapacity, [], 0, false, false), map[], false),
                                             recvCapacity, false, false, 0),
                                    Sender(isn, 1, 1, [], [], false, rtTimeout, rtTimeout, 0, 0,
                                           Stream(sendCapacity, [], 0, false, false), false, 0, 0),
                                    [], true, false, false, 0)
    {
      this.rtTimeout := rtTimeout;
      receiver := new TCPReceiver(recvCapacity);
      sender := new TCPSender(sendCapacity, rtTimeout, isn);
      segmentsOut, linger, error, fin, sinceLast := [], true, false, false, 0;
    }

    function CheckPrereqs(): (b: bool)
      requires Valid()
      reads Repr
      ensures b == State().Prereqs()
    {
      && fin && |sender.stream.buffer| == 0 && sender.stream.inputEnded && sender.next - sender.acked == 0
      && |receiver.reassembler.output.buffer| == 0 && receiver.reassembler.output.inputEnded
    }

    function Active(): (b: bool)
      requires Valid()
      reads Repr
      ensures b == State().Active()
    {
      if error then false else !CheckPrereqs() || linger
    }

    method Report()
      requires Valid()
      modifies Repr
      ensures Valid() && unchanged(receiver)
      ensures receiver.reassembler.output.bytesRead == old(receiver.reassembler.output.bytesRead)
      ensures State() == old(State()).Report()
    {
      error := true;
      sender.stream.SetError();
      receiver.reassembler.output.SetError();
    }

    method Send()
      requires Valid()
      modifies this, sender
      ensures Valid()
      ensures State() == old(State()).Send()
    {
      hide Connection.Send;
      ghost var c0 := State();
      while sender.segmentsOut != []
        invariant Valid() && State().Send() == c0.Send()
        decreases |sender.segmentsOut|
      {
        SendFirst(State());
        SendTurn();
      }
      SendNothing(State());
    }

    method SendTurn()
      requires Valid() && sender.segmentsOut != []
      modifies this, sender
      ensures Valid()
      ensures var c, q := old(State()), old(sender.segmentsOut);
              State() == c.(segmentsOut := c.segmentsOut + [c.Stamp(q[0])], fin := c.fin || q[0].header.fin,
                            sender := c.sender.(segmentsOut := q[1..]))
    {
      hide Connection.Stamp;
      var segment := sender.segmentsOut[0];
      var stamped := StampSegment(segment);
      sender.segmentsOut := sender.segmentsOut[1..];
      if segment.header.fin {
        fin := true;
      }
      segmentsOut := segmentsOut + [stamped];
    }

    method StampSegment(segment: TcpSegment) returns (stamped: TcpSegment)
      requires Valid()
      ensures stamped == State().Stamp(segment)
    {
      hide Wrap;
      var header := segment.header;
      var ackno := receiver.Ackno();
      if ackno.Some? {
        header := header.(ack := true, ackno := ackno.value);
      }
      var size := receiver.WindowSize();
      header := header.(win := Min(size, 0xFFFF), rst := error);
      stamped := segment.(header := header);
    }

    method SegmentReceived(seg: TcpSegment)
      requires Valid() && receiver.capacity >= 1
      requires receiver.reassembler.output.bytesRead + receiver.capacity < 0x1_0000_0000_0000_0000
      modifies Repr
      ensures Valid()
      ensures State() == old(State()).SegmentReceived(seg)
    {
      hide Connection.Send, Connection.Accept, Connection.IsKeepAlive, Connection.Report, Connection.Active,
           Sender.Sane, Receiver.Ok;
      NoteArrival(seg.header.rst);
      if !Active() {
        return;
      }
      Respond(seg);
    }

    method NoteArrival(rst: bool)
      requires Valid()
      modifies Repr
      ensures Valid() && unchanged(receiver)
      ensures receiver.reassembler.output.bytesRead == old(receiver.reassembler.output.bytesRead)
      ensures State() == if rst then old(State()).(sinceLast := 0).Report() else old(State()).(sinceLast := 0)
    {
      hide Connection.Report;
      sinceLast := 0;
      if rst {
        Report();
      }
    }

    /** What an active connection does with a segment that is no reset. */
    method Respond(seg: TcpSegment)
      requires Valid() && receiver.capacity >= 1
      requires receiver.reassembler.output.bytesRead + receiver.capacity < 0x1_0000_0000_0000_0000
      modifies Repr
      ensures Valid()
      ensures var c := old(State());
              State() == if c.IsKeepAlive(seg) then c.(sender := c.sender.SendEmpty()).Send() else c.Accept(seg).Send()
    {
      hide Connection.Send, Connection.Accept, Connection.IsKeepAlive;
      var keepAlive := IsKeepAlive(seg);
      if keepAlive {
        sender.SendEmptySegment();
      } else {
        Accept(seg);
      }
      Send();
    }

    method IsKeepAlive(seg: TcpSegment) returns (b: bool)
      requires Valid()
      ensures b == State().IsKeepAlive(seg)
    {
      var ackno := receiver.Ackno();
      b := seg.Length() == 0 && ackno.Some? && seg.header.seqno == Before(ackno.value);
    }

    method Accept(seg: TcpSegment)
      requires Valid() && receiver.capacity >= 1
      requires receiver.reassembler.output.bytesRead + receiver.capacity < 0x1_0000_0000_0000_0000
      modifies Repr
      ensures Valid()
      ensures State() == old(State()).Accept(seg)
    {
      hide SenderAnswers, Receiver.SegmentReceived;
      receiver.SegmentReceived(seg);
      TellSender(seg);
      CheckLinger();
    }

    /** If the peer's stream ended first, there is no need to linger. */
    method CheckLinger()
      requires Valid()
      modifies this`linger
      ensures Valid()
      ensures var c := old(State());
              State() == c.(linger := c.linger &&
                              !(c.receiver.reassembler.output.Eof() && !(c.sender.stream.Eof() && c.fin)))
    {
      var senderDone := |sender.stream.buffer| == 0 && sender.stream.inputEnded && fin;
      if |receiver.reassembler.output.buffer| == 0 && receiver.reassembler.output.inputEnded && !senderDone {
        linger := false;
      }
    }

    method TellSender(seg: TcpSegment)
      requires Valid()
      modifies sender, sender.stream
      ensures Valid()
      ensures sender.State() == SenderAnswers(old(sender.State()), seg)
    {
      hide Sender.AckReceived, Sender.FillWindow;
      if seg.header.ack {
        sender.AckReceived(seg.header.ackno, seg.header.win);
      } else {
        FillKeepsSane(sender.State());
        sender.FillWindow();
      }
      if seg.Length() != 0 && sender.segmentsOut == [] {
        sender.SendEmptySegment();
      }
    }

    method Write(data: seq<byte>) returns (size: nat)
      requires Valid()
      modifies Repr
      ensures Valid()
      ensures State() == old(State()).Write(data)
      ensures size == |State().sender.stream.history| - |old(State()).sender.stream.history|
    {
      hide Connection.Send, Sender.FillWindow;
      if !Active() {
        return 0;
      }
      size := sender.stream.Write(data);
      FillKeepsSane(sender.State());
      FillHistory(sender.State());
      sender.FillWindow();
      Send();
      SendHistory(State());
    }

    method EndInputStream()
      requires Valid()
      modifies Repr
      ensures Valid()
      ensures State() == old(State()).EndInputStream()
    {
      hide Connection.Send, Sender.FillWindow;
      if !Active() {
        return;
      }
      sender.stream.EndInput();
      FillKeepsSane(sender.State());
      sender.FillWindow();
      Send();
    }

    method Connect()
      requires Valid()
      modifies Repr
      ensures Valid()
      ensures State() == old(State()).Connect()
    {
      hide Connection.Send, Sender.FillWindow;
      FillKeepsSane(sender.State());
      sender.FillWindow();
      Send();
    }

    method Age(ms: uint64)
      requires Valid()
      modifies this, sender
      ensures Valid()
      ensures State() == old(State()).Age(ms)
    {
      hide Sender.Tick;
      sinceLast := (sinceLast + ms) % 0x1_0000_0000_0000_0000;
      sender.Tick(ms);
    }

    method AbortIfTooMany()
      requires Valid()
      modifies Repr
      ensures Valid()
      ensures State() == old(State()).AbortIfTooMany()
    {
      if sender.retransmissions % 0x1_0000_0000 > MAX_RETX_ATTEMPTS {
        Report();
      }
    }

    method Tick(ms: uint64)
      requires Valid()
      modifies Repr
      ensures Valid()
      ensures State() == old(State()).Tick(ms)
    {
      hide Connection.Send, Connection.Age, Connection.AbortIfTooMany;
      if !Active() {
        return;
      }
      Age(ms);
      AbortIfTooMany();
      if CheckPrereqs() && sinceLast >= 10 * rtTimeout {
        linger := false;
      }
      Send();
    }
  }

  lemma FillHistory(s: Sender)
    requires s.Ready()
    ensures s.FillWindow().stream.history == s.stream.history
  {
  }

  lemma SendHistory(c: Connection)
    requires c.Ok()
    ensures c.Send().sender.stream == c.sender.stream
  {
  }
}
