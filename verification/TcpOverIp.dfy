/** Carrying TCP segments in IPv4 datagrams (libsponge/tcp_helpers/tcp_over_ip.cc). */
module TcpOverIp {
  import opened Words
  import opened Ipv4Datagrams
  import opened TcpSegments
  import opened NetParsers
  import opened TcpWire
  import opened Ipv4Wire

  const PROTO_TCP: byte := 6

  /** The header of a default-constructed datagram. */
  const DEFAULT_IP_HEADER: Ipv4Header := Ipv4Header(4, 5, 0, 0, 0, true, false, 0, 128, PROTO_TCP, 0, 0, 0)

  datatype Endpoint = Endpoint(ip: uint32, port: uint16)

  datatype Adapter = Adapter(source: Endpoint, destination: Endpoint, listening: bool)
  {
    /** The segment with its ports set. */
    function Ported(seg: TcpSegment): TcpSegment
    {
      seg.(header := seg.header.(sport := source.port, dport := destination.port))
    }

    /** The IP header for a segment; the length is narrowed to 16 bits. */
    function IpHeaderFor(seg: TcpSegment): Ipv4Header
    {
      DEFAULT_IP_HEADER.(src := source.ip, dst := destination.ip,
                         len := (20 + 4 * seg.header.doff + |seg.payload|) % 0x1_0000)
    }

    function WrapTcp(seg: TcpSegment): Option<Datagram>
    {
      var h := IpHeaderFor(seg);
      match SerializeSegment(Ported(seg), PseudoChecksum(h))
      case None => None
      case Some(bytes) => Some(Datagram(h, bytes))
    }

    /** Does the datagram come from where this adapter expects it? */
    predicate Addressed(h: Ipv4Header)
    {
      (listening || (h.dst == source.ip && h.src == destination.ip)) && h.proto == PROTO_TCP
    }

    /** The adapter after a SYN has ended its listening. */
    function Connected(h: Ipv4Header, sport: uint16): Adapter
    {
      Adapter(Endpoint(h.dst, source.port), Endpoint(h.src, sport), false)
    }

    function UnwrapTcp(d: Datagram): (Option<TcpSegment>, Adapter)
    {
      if !Addressed(d.header) then (None, this)
      else
        var sp := ParseSegment(TcpSegment(DEFAULT_HEADER, []), d.payload, PseudoChecksum(d.header));
        var h := sp.segment.header;
        if sp.result != NoError || h.dport != source.port then (None, this)
        else if listening && (!h.syn || h.rst) then (None, this)
        else
          var a := if listening then Connected(d.header, h.sport) else this;
          if h.sport != a.destination.port then (None, a) else (Some(sp.segment), a)
    }
  }

  /** The checksum that the segment carries on the wire. */
  function WireChecksum(a: Adapter, seg: TcpSegment): uint16
    requires seg.header.doff >= 5
  {
    SegmentChecksum(a.Ported(seg), PseudoChecksum(a.IpHeaderFor(seg)))
  }

  /** What arrives: the segment with ports and checksum filled in. */
  function Arrived(a: Adapter, seg: TcpSegment): TcpSegment
    requires seg.header.doff >= 5
  {
    var s := a.Ported(seg);
    s.(header := s.header.(cksum := WireChecksum(a, seg)))
  }

  lemma IpHeaderFits(a: Adapter, seg: TcpSegment)
    requires 5 <= seg.header.doff <= 15 && 20 + 4 * seg.header.doff + |seg.payload| <= 0xFFFF
    ensures a.IpHeaderFor(seg) == Ipv4Header(4, 5, 0, 20 + (4 * seg.header.doff + |seg.payload|), 0, true, false, 0,
                                             128, 6, 0, a.source.ip, a.destination.ip)
  {
  }

  lemma WrapIsWellFormed(a: Adapter, seg: TcpSegment)
    requires 5 <= seg.header.doff <= 15 && 20 + 4 * seg.header.doff + |seg.payload| <= 0xFFFF
    ensures a.WrapTcp(seg).Some?
    ensures var d := a.WrapTcp(seg).value;
            && |d.payload| == 4 * seg.header.doff + |seg.payload|
            && d.header == Ipv4Header(4, 5, 0, 20 + |d.payload|, 0, true, false, 0, 128, 6, 0,
                                      a.source.ip, a.destination.ip)
            && ParseSegment(TcpSegment(DEFAULT_HEADER, []), d.payload, PseudoChecksum(d.header))
               == SegmentParse(Arrived(a, seg), NoError)
  {
    hide ParseSegment, SegmentChecksum, HeaderThen, PseudoChecksum, PayloadLength, SerializeSegment, Fits,
         Adapter.IpHeaderFor;
    IpHeaderFits(a, seg);
    var s, h := a.Ported(seg), a.IpHeaderFor(seg);
    SegmentReadsBack(s, PseudoChecksum(h), TcpSegment(DEFAULT_HEADER, []));
    SegmentVerifies(s, PseudoChecksum(h));
    HeaderAppend(s.header.(cksum := SegmentChecksum(s, PseudoChecksum(h))), s.payload);
  }

  /** A datagram is accepted exactly if it is TCP, its segment is sound and for this adapter's port, and it comes from
      the peer to this adapter's address, or is a SYN (and no reset) while the adapter listens; then the adapter is tied
      to where it came from.  Any other leaves the adapter as it was. */
  lemma UnwrapIsExact(b: Adapter, d: Datagram)
    ensures var (r, b') := b.UnwrapTcp(d);
            var sp := ParseSegment(TcpSegment(DEFAULT_HEADER, []), d.payload, PseudoChecksum(d.header));
            var h := sp.segment.header;
            && r.Some? == (&& d.header.proto == 6 && sp.result == NoError && h.dport == b.source.port
                           && if b.listening then h.syn && !h.rst
                              else d.header.dst == b.source.ip && Endpoint(d.header.src, h.sport) == b.destination)
            && (if r.Some? then r.value == sp.segment && b' == Adapter(Endpoint(d.header.dst, b.source.port),
                                                                       Endpoint(d.header.src, h.sport), false)
                else b' == b)
  {
    hide ParseSegment, PseudoChecksum;
  }

  /** The adapter after any number of datagrams, whatever they hold. */
  function UnwrapAll(b: Adapter, ds: seq<Datagram>): Adapter
    decreases |ds|
  {
    if ds == [] then b else UnwrapAll(b, ds[..|ds| - 1]).UnwrapTcp(ds[|ds| - 1]).1
  }

  /** An adapter that does not listen keeps its peer for good: whatever has arrived, every segment it still accepts is
      TCP between the same two addresses and ports. */
  lemma {:induction false} PeerIsFixed(b: Adapter, ds: seq<Datagram>, d: Datagram)
    requires !b.listening
    ensures UnwrapAll(b, ds) == b
    ensures var r := UnwrapAll(b, ds).UnwrapTcp(d).0;
            r.Some? ==>
              && d.header.proto == 6 && d.header.src == b.destination.ip && d.header.dst == b.source.ip
              && r.value.header.sport == b.destination.port && r.value.header.dport == b.source.port
    decreases |ds|
  {
    hide ParseSegment, PseudoChecksum, Adapter.UnwrapTcp;
    if ds != [] {
      PeerIsFixed(b, ds[..|ds| - 1], ds[|ds| - 1]);
      UnwrapIsExact(b, ds[|ds| - 1]);
    }
    UnwrapIsExact(b, d);
  }

  /** The wire round trip.  A segment wrapped by one adapter, serialized, parsed back and unwrapped by an adapter with
      mirrored addresses, or by a listening one on the right port if it is a SYN, is the same segment with its
      ports set and its checksum filled in; a listening adapter is then tied to the sender. */
  lemma WireRoundTrip(a: Adapter, b: Adapter, seg: TcpSegment, into: Datagram)
    requires 5 <= seg.header.doff <= 15 && 20 + 4 * seg.header.doff + |seg.payload| <= 0xFFFF
    requires b.source.port == a.destination.port
    requires if b.listening then seg.header.syn && !seg.header.rst
             else b.source == a.destination && b.destination == a.source
    ensures a.WrapTcp(seg).Some? && SerializeDatagram(a.WrapTcp(seg).value).Some?
    ensures var dp := ParseDatagram(into, SerializeDatagram(a.WrapTcp(seg).value).value);
            && dp.result == NoError
            && b.UnwrapTcp(dp.datagram) == (Some(Arrived(a, seg)), Adapter(a.destination, a.source, false))
            && Arrived(a, seg).payload == seg.payload
            && Arrived(a, seg).header == seg.header.(sport := a.source.port, dport := a.destination.port,
                                                     cksum := Arrived(a, seg).header.cksum)
  {
    hide ParseSegment, SerializeDatagram, ParseDatagram, SegmentChecksum, Adapter.WrapTcp, IpChecksum, PseudoChecksum,
         Adapter.UnwrapTcp, HeaderThen;
    WrapIsWellFormed(a, seg);
    var d := a.WrapTcp(seg).value;
    DatagramReadsBack(d, into);
    var d' := d.(header := d.header.(cksum := IpChecksum(d.header)));
    PseudoIgnoresChecksum(d.header, IpChecksum(d.header));
    UnwrapIsExact(b, d');
  }

  lemma PseudoIgnoresChecksum(h: Ipv4Header, c: uint16)
    ensures PseudoChecksum(h.(cksum := c)) == PseudoChecksum(h)
  {
    hide PseudoChecksum;
  }

  class TCPOverIPv4Adapter {
    var source: Endpoint
    var destination: Endpoint
    var listening: bool

    ghost function State(): Adapter
      reads this
    {
      Adapter(source, destination, listening)
    }

    constructor (source: Endpoint, destination: Endpoint, listening: bool)
      ensures State() == Adapter(source, destination, listening)
    {
      this.source, this.destination, this.listening := source, destination, listening;
    }

    method WrapTcpInIp(seg: TcpSegment) returns (d: Option<Datagram>, seg': TcpSegment)
      ensures d == State().WrapTcp(seg) && seg' == State().Ported(seg)
    {
      hide SerializeSegment;
      seg' := seg.(header := seg.header.(sport := source.port, dport := destination.port));
      var h := DEFAULT_IP_HEADER.(src := source.ip, dst := destination.ip);
      h := h.(len := (h.hlen * 4 + seg.header.doff * 4 + |seg.payload|) % 0x1_0000);
      var bytes := WriteSegment(seg', PseudoChecksum(h));
      d := if bytes.Some? then Some(Datagram(h, bytes.value)) else None;
    }

    method UnwrapTcpInIp(d: Datagram) returns (r: Option<TcpSegment>)
      modifies this
      ensures (r, State()) == old(State()).UnwrapTcp(d)
    {
      hide ParseSegment;
      if !listening && d.header.dst != source.ip {
        return None;
      }
      if !listening && d.header.src != destination.ip {
        return None;
      }
      if d.header.proto != PROTO_TCP {
        return None;
      }
      var sp := ReadSegment(TcpSegment(DEFAULT_HEADER, []), d.payload, PseudoChecksum(d.header));
      if sp.result != NoError {
        return None;
      }
      var seg := sp.segment;
      if seg.header.dport != source.port {
        return None;
      }
      if listening {
        if seg.header.syn && !seg.header.rst {
          source := Endpoint(d.header.dst, source.port);
          destination := Endpoint(d.header.src, seg.header.sport);
          listening := false;
        } else {
          return None;
        }
      }
      if seg.header.sport != destination.port {
        return None;
      }
      return Some(seg);
    }
  }
}
