/** The interface between IP and Ethernet, with its ARP table (libsponge/network_interface.cc).

    A frame's payload is modelled by what it parses as: a datagram, an ARP message, or neither. */
module NetworkInterfaces {
  import opened Words
  import opened Ipv4Datagrams

  type Mac = s: seq<byte> | |s| == 6 witness [0, 0, 0, 0, 0, 0]

  const BROADCAST: Mac := [0xff, 0xff, 0xff, 0xff, 0xff, 0xff]
  const ZERO_MAC: Mac := [0, 0, 0, 0, 0, 0]
  const TYPE_IPV4: uint16 := 0x800
  const TYPE_ARP: uint16 := 0x806
  const ARP_TTL: nat := 30000
  const ARP_TIMEOUT: nat := 5000

  datatype Opcode = Request | Reply

  datatype ArpMessage = ArpMessage(opcode: Opcode, senderMac: Mac, senderIp: uint32, targetMac: Mac, targetIp: uint32)

  datatype Payload = IsDatagram(datagram: Datagram) | IsArp(message: ArpMessage) | IsOther

  datatype Frame = Frame(dst: Mac, src: Mac, etherType: uint16, payload: Payload)

  datatype Entry = Entry(mac: Mac, ttl: nat)

  /** An address that has been asked for, and the time left until it is asked for again. */
  datatype Pending = Pending(ip: uint32, left: nat)

  /** A datagram waiting for its next hop's address. */
  datatype Waiting = Waiting(ip: uint32, datagram: Datagram)

  datatype Interface = Interface(
    mac: Mac, ip: uint32,
    framesOut: seq<Frame>,
    table: map<uint32, Entry>,
    pending: seq<Pending>,
    waiting: seq<Waiting>)
  {
    function DstMac(hop: uint32): Mac
    {
      if hop in table then table[hop].mac else BROADCAST
    }

    function DatagramFrame(hop: uint32, d: Datagram): Frame
    {
      Frame(DstMac(hop), mac, TYPE_IPV4, IsDatagram(d))
    }

    function ArpFrame(target: uint32, opcode: Opcode): Frame
    {
      Frame(DstMac(target), mac, TYPE_ARP,
            IsArp(ArpMessage(opcode, mac, ip, if target in table then table[target].mac else ZERO_MAC, target)))
    }

    function Emit(frames: seq<Frame>): Interface
    {
      this.(framesOut := framesOut + frames)
    }

    function SendDatagram(d: Datagram, hop: uint32): Interface
    {
      if hop in table then Emit([DatagramFrame(hop, d)])
      else
        var i := this.(waiting := waiting + [Waiting(hop, d)]);
        if Asked(pending, hop) then i
        else i.(pending := pending + [Pending(hop, ARP_TIMEOUT)]).Emit([ArpFrame(hop, Request)])
    }

    /** Learn from an ARP message: record the mapping, answer a request, and send what was waiting for it. */
    function Learn(m: ArpMessage): Interface
    {
      var i := this.(table := table[m.senderIp := Entry(m.senderMac, ARP_TTL)]);
      var reply := if m.opcode == Request then [i.ArpFrame(m.senderIp, Reply)] else [];
      i.Emit(reply).(pending := Forgotten(pending, m.senderIp), waiting := Others(waiting, m.senderIp))
       .Emit(i.Flushed(waiting, m.senderIp))
    }

    function Flushed(ws: seq<Waiting>, hop: uint32): seq<Frame>
    {
      if ws == [] then []
      else (if ws[0].ip == hop then [DatagramFrame(hop, ws[0].datagram)] else []) + Flushed(ws[1..], hop)
    }

    predicate ForUs(f: Frame)
    {
      f.dst == mac || f.dst == BROADCAST
    }

    /** The ARP message in a frame that this interface takes notice of. */
    predicate Hears(f: Frame)
    {
      ForUs(f) && f.etherType != TYPE_IPV4 && f.payload.IsArp? && f.payload.message.targetIp == ip
    }

    function RecvFrame(f: Frame): Interface
    {
      if Hears(f) then Learn(f.payload.message) else this
    }

    function Received(f: Frame): Option<Datagram>
    {
      if ForUs(f) && f.etherType == TYPE_IPV4 && f.payload.IsDatagram? then Some(f.payload.datagram) else None
    }

    function Tick(ms: nat): Interface
    {
      Emit(Repeated(pending, ms)).(pending := Older(pending, ms), table := Aged(table, ms))
    }

    function Repeated(ps: seq<Pending>, ms: nat): seq<Frame>
    {
      if ps == [] then []
      else (if ps[0].left <= ms then [ArpFrame(ps[0].ip, Request)] else []) + Repeated(ps[1..], ms)
    }
  }

  predicate Asked(ps: seq<Pending>, ip: uint32)
  {
    exists p <- ps :: p.ip == ip
  }

  function Forgotten(ps: seq<Pending>, ip: uint32): seq<Pending>
  {
    if ps == [] then [] else (if ps[0].ip == ip then [] else [ps[0]]) + Forgotten(ps[1..], ip)
  }

  function Others(ws: seq<Waiting>, ip: uint32): seq<Waiting>
  {
    if ws == [] then [] else (if ws[0].ip == ip then [] else [ws[0]]) + Others(ws[1..], ip)
  }

  function Older(ps: seq<Pending>, ms: nat): seq<Pending>
  {
    if ps == [] then []
    else [Pending(ps[0].ip, if ps[0].left <= ms then ARP_TIMEOUT else ps[0].left - ms)] + Older(ps[1..], ms)
  }

  function Aged(table: map<uint32, Entry>, ms: nat): map<uint32, Entry>
  {
    map ip | ip in table && table[ip].ttl > ms :: Entry(table[ip].mac, table[ip].ttl - ms)
  }

  lemma PeelPending(i: Interface, ps: seq<Pending>, k: nat, ms: nat)
    requires k < |ps|
    ensures Older(ps[k..], ms) ==
            [Pending(ps[k].ip, if ps[k].left <= ms then ARP_TIMEOUT else ps[k].left - ms)] + Older(ps[k + 1..], ms)
    ensures i.Repeated(ps[k..], ms) ==
            (if ps[k].left <= ms then [i.ArpFrame(ps[k].ip, Request)] else []) + i.Repeated(ps[k + 1..], ms)
  {
    assert ps[k..][1..] == ps[k + 1..];
  }

  lemma PeelForgotten(ps: seq<Pending>, k: nat, ip: uint32)
    requires k < |ps|
    ensures Forgotten(ps[k..], ip) == (if ps[k].ip == ip then [] else [ps[k]]) + Forgotten(ps[k + 1..], ip)
  {
    assert ps[k..][1..] == ps[k + 1..];
  }

  lemma ForgetNone(ip: uint32)
    ensures Forgotten([], ip) == []
  {
  }

  lemma PeelWaiting(i: Interface, ws: seq<Waiting>, k: nat, hop: uint32)
    requires k < |ws|
    ensures Others(ws[k..], hop) == (if ws[k].ip == hop then [] else [ws[k]]) + Others(ws[k + 1..], hop)
    ensures i.Flushed(ws[k..], hop) ==
            (if ws[k].ip == hop then [i.DatagramFrame(hop, ws[k].datagram)] else []) + i.Flushed(ws[k + 1..], hop)
  {
    assert ws[k..][1..] == ws[k + 1..];
  }

  /** One turn of the flushing loop, at element `k` of what is left, which is element `n` of what there was. */
  lemma FlushStep(i: Interface, w: seq<Waiting>, k: nat, frames: seq<Frame>, ws: seq<Waiting>, n: nat, hop: uint32)
    requires k < |w| && n < |ws| && w[k..] == ws[n..]
    ensures w[k] == ws[n]
    ensures var rest := ws[n + 1..];
            if w[k].ip == hop then
              && (w[..k] + w[k + 1..])[..k] == w[..k] && (w[..k] + w[k + 1..])[k..] == rest
              && Others(ws[n..], hop) == Others(rest, hop)
              && frames + i.Flushed(ws[n..], hop) ==
                 (frames + [i.DatagramFrame(hop, w[k].datagram)]) + i.Flushed(rest, hop)
            else
              && w[k + 1..] == rest && w[..k] + Others(ws[n..], hop) == w[..k + 1] + Others(rest, hop)
              && i.Flushed(ws[n..], hop) == i.Flushed(rest, hop)
  {
    hide Others, Interface.Flushed, Interface.DatagramFrame;
    PeelWaiting(i, ws, n, hop);
    RemoveAt(w, k);
    RemoveAt(ws, n);
    if w[k].ip == hop {
      SeqAssoc(frames, [i.DatagramFrame(hop, w[k].datagram)], i.Flushed(ws[n + 1..], hop));
    } else {
      SeqAssoc(w[..k], [w[k]], Others(ws[n + 1..], hop));
    }
  }

  lemma FlushNone(i: Interface, hop: uint32)
    ensures Others([], hop) == [] && i.Flushed([], hop) == []
  {
  }

  lemma RepeatNone(i: Interface, ms: nat)
    ensures Older([], ms) == [] && i.Repeated([], ms) == []
  {
  }

  /** Frames depend on the table only. */
  lemma FrameIgnoresQueue(i: Interface, i': Interface, ip: uint32)
    requires i.mac == i'.mac && i.ip == i'.ip && i.table == i'.table
    ensures i.ArpFrame(ip, Request) == i'.ArpFrame(ip, Request)
    ensures forall d :: i.DatagramFrame(ip, d) == i'.DatagramFrame(ip, d)
  {
  }

  class NetworkInterface {
    const mac: Mac
    const ip: uint32
    var framesOut: seq<Frame>
    var table: map<uint32, Entry>
    var pending: seq<Pending>
    var waiting: seq<Waiting>

    ghost function State(): Interface
      reads this
    {
      Interface(mac, ip, framesOut, table, pending, waiting)
    }

    constructor (mac: Mac, ip: uint32)
      ensures State() == Interface(mac, ip, [], map[], [], [])
    {
      this.mac, this.ip := mac, ip;
      framesOut, table, pending, waiting := [], map[], [], [];
    }

    function BuildHeader(dst: uint32): Mac
      reads this
    {
      if dst in table then table[dst].mac else BROADCAST
    }

    function GenerateArpFrame(target: uint32, opcode: Opcode): (f: Frame)
      reads this
      ensures f == State().ArpFrame(target, opcode)
    {
      var message := ArpMessage(opcode, mac, ip, if target in table then table[target].mac else ZERO_MAC, target);
      Frame(BuildHeader(target), mac, TYPE_ARP, IsArp(message))
    }

    function GenerateFrame(hop: uint32, d: Datagram): (f: Frame)
      reads this
      ensures f == State().DatagramFrame(hop, d)
    {
      Frame(BuildHeader(hop), mac, TYPE_IPV4, IsDatagram(d))
    }

    method SendDatagram(d: Datagram, nextHop: uint32)
      modifies this
      ensures State() == old(State()).SendDatagram(d, nextHop)
    {
      if nextHop in table {
        framesOut := framesOut + [GenerateFrame(nextHop, d)];
      } else {
        waiting := waiting + [Waiting(nextHop, d)];
        var flag := false;
        for k := 0 to |pending|
          invariant flag <==> Asked(pending[..k], nextHop)
        {
          if pending[k].ip == nextHop {
            flag := true;
          }
          assert pending[..k + 1] == pending[..k] + [pending[k]];
        }
        assert pending[..|pending|] == pending;
        if !flag {
          pending := pending + [Pending(nextHop, ARP_TIMEOUT)];
          framesOut := framesOut + [GenerateArpFrame(nextHop, Request)];
        }
      }
    }

    method RecvFrame(frame: Frame) returns (r: Option<Datagram>)
      modifies this
      ensures State() == old(State()).RecvFrame(frame)
      ensures r == old(State()).Received(frame)
    {
      hide Interface.Learn;
      if frame.dst != mac && frame.dst != BROADCAST {
        return None;
      }
      if frame.etherType == TYPE_IPV4 {
        if !frame.payload.IsDatagram? {
          return None;
        }
        return Some(frame.payload.datagram);
      }
      if !frame.payload.IsArp? || frame.payload.message.targetIp != ip {
        return None;
      }
      LearnFrom(frame.payload.message);
      return None;
    }

    method LearnFrom(message: ArpMessage)
      modifies this
      ensures State() == old(State()).Learn(message)
    {
      hide Forgotten, Others, Interface.Flushed, Interface.ArpFrame;
      table := table[message.senderIp := Entry(message.senderMac, ARP_TTL)];
      ghost var i := State();
      if message.opcode == Request {
        framesOut := framesOut + [GenerateArpFrame(message.senderIp, Reply)];
      }
      DropPending(message.senderIp);
      FlushWaiting(message.senderIp, i);
    }

    method DropPending(hop: uint32)
      modifies this`pending
      ensures pending == Forgotten(old(pending), hop)
    {
      hide Forgotten;
      ghost var ps, n := pending, 0;
      var k := 0;
      while k < |pending|
        invariant k <= |pending| && n <= |ps| && pending[k..] == ps[n..]
        invariant pending[..k] + Forgotten(ps[n..], hop) == Forgotten(ps, hop)
        decreases |pending| - k
      {
        PeelForgotten(ps, n, hop);
        assert pending[k] == pending[k..][0] == ps[n];
        if pending[k].ip == hop {
          pending := pending[..k] + pending[k + 1..];
        } else {
          assert pending[..k + 1] == pending[..k] + [pending[k]];
          k := k + 1;
        }
        n := n + 1;
      }
      ForgetNone(hop);
    }

    method FlushWaiting(hop: uint32, ghost i: Interface)
      requires i.mac == mac && i.ip == ip && i.table == table
      modifies this`waiting, this`framesOut
      ensures waiting == Others(old(waiting), hop)
      ensures framesOut == old(framesOut) + i.Flushed(old(waiting), hop)
    {
      hide Others, Interface.Flushed, Interface.DatagramFrame;
      ghost var ws, n := waiting, 0;
      var k := 0;
      while k < |waiting|
        invariant k <= |waiting| && n <= |ws| && waiting[k..] == ws[n..]
        invariant waiting[..k] + Others(ws[n..], hop) == Others(ws, hop)
        invariant framesOut + i.Flushed(ws[n..], hop) == old(framesOut) + i.Flushed(ws, hop)
        decreases |waiting| - k
      {
        FlushStep(i, waiting, k, framesOut, ws, n, hop);
        if waiting[k].ip == hop {
          FrameIgnoresQueue(i, State(), hop);
          framesOut := framesOut + [GenerateFrame(hop, waiting[k].datagram)];
          waiting := waiting[..k] + waiting[k + 1..];
        } else {
          k := k + 1;
        }
        n := n + 1;
      }
      FlushNone(i, hop);
    }

    method Tick(ms: nat)
      modifies this
      ensures State() == old(State()).Tick(ms)
    {
      RepeatRequests(ms);
      AgeTable(ms);
    }

    method RepeatRequests(ms: nat)
      modifies this`pending, this`framesOut
      ensures pending == Older(old(pending), ms)
      ensures framesOut == old(framesOut) + old(State()).Repeated(old(pending), ms)
    {
      hide Older, Interface.Repeated, Interface.ArpFrame;
      ghost var i, ps := State(), pending;
      var k := 0;
      while k < |pending|
        invariant k <= |pending| == |ps| && pending[k..] == ps[k..]
        invariant pending[..k] + Older(ps[k..], ms) == Older(ps, ms)
        invariant framesOut + i.Repeated(ps[k..], ms) == i.framesOut + i.Repeated(ps, ms)
      {
        PeelPending(i, ps, k, ms);
        RemoveAt(pending, k);
        RemoveAt(ps, k);
        var p := pending[k];
        var left := ARP_TIMEOUT;
        if p.left <= ms {
          FrameIgnoresQueue(i, State(), p.ip);
          var frame := GenerateArpFrame(p.ip, Request);
          SeqAssoc(framesOut, [frame], i.Repeated(ps[k + 1..], ms));
          framesOut := framesOut + [frame];
        } else {
          left := p.left - ms;
        }
        UpdateAt(pending, k, Pending(p.ip, left));
        SeqAssoc(pending[..k], [Pending(p.ip, left)], Older(ps[k + 1..], ms));
        pending := pending[k := Pending(p.ip, left)];
        k := k + 1;
      }
      RepeatNone(i, ms);
    }

    method AgeTable(ms: nat)
      modifies this`table
      ensures table == Aged(old(table), ms)
    {
      ghost var t := table;
      var keys := table.Keys;
      while keys != {}
        invariant keys <= table.Keys <= t.Keys
        invariant forall a <- keys :: table[a] == t[a]
        invariant forall a | a in t && a !in keys :: a in table <==> a in Aged(t, ms)
        invariant forall a | a in table && a !in keys :: table[a] == Aged(t, ms)[a]
        decreases |keys|
      {
        var a :| a in keys;
        if table[a].ttl <= ms {
          table := table - {a};
        } else {
          table := table[a := Entry(table[a].mac, table[a].ttl - ms)];
        }
        keys := keys - {a};
      }
    }
  }
}
