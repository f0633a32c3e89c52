/** IPv4 headers and datagrams on the wire (libsponge/tcp_helpers/ipv4_header.cc, ipv4_datagram.cc). */
module Ipv4Wire {
  import opened Words
  import opened Ipv4Datagrams
  import opened InternetChecksums
  import opened NetParsers
  import opened TcpWire

  // ----- packed fields -----

  /** Version and header length in one byte. */
  function FirstByte(h: Ipv4Header): nat
  {
    BitOr(Shl(h.ver, 4, 8), BitAnd(h.hlen, 0xF))
  }

  /** Don't-fragment, more-fragments and the fragment offset in one word. */
  function FragmentWord(h: Ipv4Header): nat
  {
    BitOr(BitOr(if h.df then 0x4000 else 0, if h.mf then 0x2000 else 0), BitAnd(h.offset, 0x1FFF))
  }

  lemma FirstByteValue(h: Ipv4Header)
    requires h.ver <= 15 && h.hlen <= 15
    ensures FirstByte(h) == h.ver * 16 + h.hlen
    ensures Shr(FirstByte(h), 4) == h.ver && BitAnd(FirstByte(h), 0xF) == h.hlen
  {
    hide BitOr, BitAnd, Shr, Shl, Pow2;
    Pow2Values();
    ShlNibble(h.ver);
    AndLowMask(h.hlen, 4);
    OrFlag(h.ver * 16, h.ver, h.hlen, 4, 16);
    OffsetBound(h.ver * 16 + h.hlen);
    AndLowMask(h.ver * 16 + h.hlen, 4);
  }

  lemma FragmentWordValue(h: Ipv4Header)
    requires h.offset <= 0x1FFF
    ensures FragmentWord(h) == 0x4000 * Bit(h.df) + 0x2000 * Bit(h.mf) + h.offset
    ensures (BitAnd(FragmentWord(h), 0x4000) != 0) == h.df && (BitAnd(FragmentWord(h), 0x2000) != 0) == h.mf
    ensures BitAnd(FragmentWord(h), 0x1FFF) == h.offset
  {
    hide BitOr, BitAnd, Pow2;
    FragmentPowers();
    var d, m := Bit(h.df), Bit(h.mf);
    AndLowMask(h.offset, 13);
    OrFlag(0x4000 * d, d, 0x2000 * m, 14, 0x4000);
    OrFlag(0x4000 * d + 0x2000 * m, 2 * d + m, h.offset, 13, 0x2000);
    var w := 0x4000 * d + 0x2000 * m + h.offset;
    BitAt(w, 14, 0x4000, 0, d, 0x2000 * m + h.offset);
    BitAt(w, 13, 0x2000, d, m, h.offset);
    AndLowMask(w, 13);
  }

  lemma FragmentPowers()
    ensures Pow2(13) == 0x2000 && Pow2(14) == 0x4000
  {
    Pow2Values();
  }

  // ----- headers -----

  /** The bytes of a header, expanded to `hlen` words, followed by `rest`. */
  function IpThen(h: Ipv4Header, rest: seq<byte>): seq<byte>
    requires h.hlen >= 5
  {
    ToBytes(FirstByte(h), 1) + (ToBytes(h.tos, 1) + (ToBytes(h.len, 2) + (ToBytes(h.id, 2) +
    (ToBytes(FragmentWord(h), 2) +
      (ToBytes(h.ttl, 1) + (ToBytes(h.proto, 1) + (ToBytes(h.cksum, 2) + (ToBytes(h.src, 4) + (ToBytes(h.dst, 4) +
      (Zeros(4 * h.hlen - 20) + rest))))))))))
  }

  /** `IPv4Header::serialize`, which refuses other versions and short headers. */
  function SerializeIp(h: Ipv4Header): Option<seq<byte>>
  {
    if h.ver != 4 || 4 * h.hlen < 20 then None else Some(IpThen(h, []))
  }

  function PayloadLength(h: Ipv4Header): uint16
  {
    (h.len - 4 * h.hlen) % 0x1_0000
  }

  datatype IpParse = IpParse(header: Ipv4Header, parser: Parser, result: ParseResult)

  /** The fields read from the parser, in order. */
  function ReadFields(p: Parser): (Ipv4Header, Parser)
  {
    var p1 := p.Skip(1);
    var p2 := p1.Skip(1);
    var p3 := p2.Skip(2);
    var p4 := p3.Skip(2);
    var p5 := p4.Skip(2);
    var p6 := p5.Skip(1);
    var p7 := p6.Skip(1);
    var p8 := p7.Skip(2);
    var p9 := p8.Skip(4);
    var p10 := p9.Skip(4);
    var first, fo := p.U8(), p4.U16();
    FieldBounds(first, fo);
    (Ipv4Header(Shr(first, 4), BitAnd(first, 0xF), p1.U8(), p2.U16(), p3.U16(),
                BitAnd(fo, 0x4000) != 0, BitAnd(fo, 0x2000) != 0, BitAnd(fo, 0x1FFF),
                p5.U8(), p6.U8(), p7.U16(), p8.U32(), p9.U32()),
     p10)
  }

  lemma FieldBounds(first: byte, fo: uint16)
    ensures Shr(first, 4) == first / 16 && BitAnd(first, 0xF) == first % 16 && BitAnd(fo, 0x1FFF) == fo % 0x2000
  {
    Pow2Values();
    OffsetBound(first);
    AndLowMask(first, 4);
    AndLowMask(fo, 13);
  }

  /** `IPv4Header::parse`, into an existing header. */
  function ParseIp(h0: Ipv4Header, p: Parser): IpParse
  {
    var size := |p.buffer|;
    if size < 20 then IpParse(h0, p, PacketTooShort)
    else
      var (h, q) := ReadFields(p);
      if size < 4 * h.hlen then IpParse(h, q, PacketTooShort)
      else if h.ver != 4 then IpParse(h, q, WrongIpVersion)
      else if h.hlen < 5 then IpParse(h, q, HeaderTooShort)
      else if size != h.len then IpParse(h, q, TruncatedPacket)
      else
        var q := q.Skip(4 * h.hlen - 20);
        if q.error != NoError then IpParse(h, q, q.error)
        else if Value(Add(Checksum(0, false), p.buffer[..4 * h.hlen]).sum) != 0 then IpParse(h, q, BadChecksum)
        else IpParse(h, q, NoError)
  }

  /** A header whose fields fit their places on the wire. */
  predicate Fits(h: Ipv4Header)
  {
    h.ver == 4 && 5 <= h.hlen <= 15 && h.offset <= 0x1FFF
  }

  lemma FieldsReadBack(h: Ipv4Header, rest: seq<byte>)
    requires Fits(h)
    ensures ReadFields(Parser(IpThen(h, rest), NoError)) == (h, Parser(Zeros(4 * h.hlen - 20) + rest, NoError))
  {
    hide ToBytes, FirstByte, FragmentWord, BitAnd, Shr, Zeros, FromBytes, Parser.Skip, Parser.Int;
    Pow2Values();
    FirstByteValue(h);
    FragmentWordValue(h);
    var b10 := Zeros(4 * h.hlen - 20) + rest;
    var b9 := ToBytes(h.dst, 4) + b10;
    var b8 := ToBytes(h.src, 4) + b9;
    var b7 := ToBytes(h.cksum, 2) + b8;
    var b6 := ToBytes(h.proto, 1) + b7;
    var b5 := ToBytes(h.ttl, 1) + b6;
    var b4 := ToBytes(FragmentWord(h), 2) + b5;
    var b3 := ToBytes(h.id, 2) + b4;
    var b2 := ToBytes(h.len, 2) + b3;
    var b1 := ToBytes(h.tos, 1) + b2;
    ReadsBack(FirstByte(h), 1, b1);
    ReadsBack(h.tos, 1, b2);
    ReadsBack(h.len, 2, b3);
    ReadsBack(h.id, 2, b4);
    ReadsBack(FragmentWord(h), 2, b5);
    ReadsBack(h.ttl, 1, b6);
    ReadsBack(h.proto, 1, b7);
    ReadsBack(h.cksum, 2, b8);
    ReadsBack(h.src, 4, b9);
    ReadsBack(h.dst, 4, b10);
  }

  // ----- the checksum field -----

  function IpFront(h: Ipv4Header): seq<byte>
  {
    ToBytes(FirstByte(h), 1) + (ToBytes(h.tos, 1) + (ToBytes(h.len, 2) + (ToBytes(h.id, 2) +
    (ToBytes(FragmentWord(h), 2) +
      (ToBytes(h.ttl, 1) + ToBytes(h.proto, 1))))))
  }

  function IpBack(h: Ipv4Header, rest: seq<byte>): seq<byte>
    requires h.hlen >= 5
  {
    ToBytes(h.src, 4) + (ToBytes(h.dst, 4) + (Zeros(4 * h.hlen - 20) + rest))
  }

  lemma IpParts(h: Ipv4Header, rest: seq<byte>)
    requires h.hlen >= 5
    ensures IpThen(h, rest) == IpFront(h) + (ToBytes(h.cksum, 2) + IpBack(h, rest)) && |IpFront(h)| == 10
  {
    hide ToBytes, FirstByte, FragmentWord, Zeros;
    var t := ToBytes(h.cksum, 2) + IpBack(h, rest);
    var a, b, c, d, e, f, g := ToBytes(FirstByte(h), 1), ToBytes(h.tos, 1), ToBytes(h.len, 2), ToBytes(h.id, 2),
        ToBytes(FragmentWord(h), 2), ToBytes(h.ttl, 1), ToBytes(h.proto, 1);
    assert f + (g + t) == (f + g) + t;
    assert e + ((f + g) + t) == (e + (f + g)) + t;
    assert d + ((e + (f + g)) + t) == (d + (e + (f + g))) + t;
    assert c + ((d + (e + (f + g))) + t) == (c + (d + (e + (f + g)))) + t;
    assert b + ((c + (d + (e + (f + g)))) + t) == (b + (c + (d + (e + (f + g))))) + t;
    assert a + ((b + (c + (d + (e + (f + g))))) + t) == (a + (b + (c + (d + (e + (f + g)))))) + t;
  }

  lemma IpAppend(h: Ipv4Header, rest: seq<byte>)
    requires h.hlen >= 5
    ensures IpThen(h, []) + rest == IpThen(h, rest) && |IpThen(h, rest)| == 4 * h.hlen + |rest|
    ensures IpThen(h, rest)[..4 * h.hlen] == IpThen(h, [])
  {
    hide IpThen, IpFront, ToBytes;
    IpParts(h, []);
    IpParts(h, rest);
    assert IpBack(h, []) + rest == IpBack(h, rest);
    assert IpFront(h) + (ToBytes(h.cksum, 2) + IpBack(h, [])) + rest ==
           IpFront(h) + (ToBytes(h.cksum, 2) + IpBack(h, rest));
  }

  lemma IpChecksumAdds(h: Ipv4Header, c: uint16)
    requires h.hlen >= 5
    ensures WordSum(IpThen(h.(cksum := c), []), false) == WordSum(IpThen(h.(cksum := 0), []), false) + c
  {
    hide IpThen, IpFront, IpBack, ToBytes, WordSum;
    var h0, h1 := h.(cksum := 0), h.(cksum := c);
    IpParts(h0, []);
    IpParts(h1, []);
    assert IpFront(h1) == IpFront(h0) && IpBack(h1, []) == IpBack(h0, []) by { IpFieldElsewhere(h0, c); }
    WordSumAppend(IpFront(h0), ToBytes(0, 2) + IpBack(h0, []), false);
    WordSumAppend(IpFront(h0), ToBytes(c, 2) + IpBack(h0, []), false);
    WordSumAppend(ToBytes(0, 2), IpBack(h0, []), false);
    WordSumAppend(ToBytes(c, 2), IpBack(h0, []), false);
    WordOf(0);
    WordOf(c);
  }

  lemma IpFieldElsewhere(h: Ipv4Header, c: uint16)
    requires h.hlen >= 5
    ensures IpFront(h.(cksum := c)) == IpFront(h) && IpBack(h.(cksum := c), []) == IpBack(h, [])
  {
    hide ToBytes, BitOr, BitAnd, Shl;
  }

  // ----- datagrams -----

  function IpChecksum(h: Ipv4Header): uint16
    requires h.hlen >= 5
  {
    Value(Add(Checksum(0, false), IpThen(h.(cksum := 0), [])).sum)
  }

  /** `IPv4Datagram::serialize`, which refuses a payload of the wrong size. */
  function SerializeDatagram(d: Datagram): Option<seq<byte>>
  {
    var h := d.header.(cksum := 0);
    if |d.payload| != PayloadLength(h) then None
    else match SerializeIp(h)
      case None => None
      case Some(bytes) => Some(IpThen(h.(cksum := Value(Add(Checksum(0, false), bytes).sum)), []) + d.payload)
  }

  datatype DatagramParse = DatagramParse(datagram: Datagram, result: ParseResult)

  /** `IPv4Datagram::parse`, into an existing datagram; the result of parsing the header is not looked at. */
  function ParseDatagram(d: Datagram, buffer: seq<byte>): DatagramParse
  {
    var hp := ParseIp(d.header, Parser(buffer, NoError));
    var parsed := Datagram(hp.header, hp.parser.buffer);
    if |parsed.payload| != PayloadLength(parsed.header) then DatagramParse(parsed, PacketTooShort)
    else DatagramParse(parsed, hp.parser.error)
  }

  /** The inserted header checksum makes the header sum to zero. */
  lemma IpVerifies(h: Ipv4Header)
    requires 5 <= h.hlen <= 15
    ensures Value(Add(Checksum(0, false), IpThen(h.(cksum := IpChecksum(h)), [])).sum) == 0
  {
    hide IpThen, Add, Value, WordSum;
    var c := IpChecksum(h);
    var b0, b1 := IpThen(h.(cksum := 0), []), IpThen(h.(cksum := c), []);
    IpAppend(h.(cksum := 0), []);
    IpChecksumAdds(h, c);
    AddIsWordSum(Checksum(0, false), b0);
    AddIsWordSum(Checksum(0, false), b1);
    ChecksumCompletes(WordSum(b0, false));
  }

  /** The header parser accepts a header that was serialized with its checksum filled in. */
  lemma IpReadsBack(h: Ipv4Header, payload: seq<byte>, into: Ipv4Header)
    requires Fits(h) && h.len == 4 * h.hlen + |payload|
    ensures var h1 := h.(cksum := IpChecksum(h));
            ParseIp(into, Parser(IpThen(h1, payload), NoError)) == IpParse(h1, Parser(payload, NoError), NoError)
  {
    hide IpThen, Add, Value, ReadFields, Zeros, Parser.Skip;
    var h1 := h.(cksum := IpChecksum(h));
    FieldsReadBack(h1, payload);
    IpAppend(h1, payload);
    IpVerifies(h);
    ZerosSkipped(4 * h.hlen - 20, payload);
  }

  /** Parsing a serialized datagram gives it back with the header checksum filled in. */
  lemma DatagramReadsBack(d: Datagram, into: Datagram)
    requires Fits(d.header) && d.header.len == 4 * d.header.hlen + |d.payload|
    ensures SerializeDatagram(d).Some?
    ensures ParseDatagram(into, SerializeDatagram(d).value)
         == DatagramParse(d.(header := d.header.(cksum := IpChecksum(d.header))), NoError)
  {
    hide IpThen, Add, Value, ParseIp;
    IpAppend(d.header.(cksum := IpChecksum(d.header)), d.payload);
    IpReadsBack(d.header, d.payload, into.header);
  }

  // ----- the pseudo-header -----

  /** The contribution of addresses, protocol and length to the TCP checksum. */
  function PseudoChecksum(h: Ipv4Header): (sum: uint32)
    ensures sum == h.src / 0x1_0000 + h.src % 0x1_0000 + h.dst / 0x1_0000 + h.dst % 0x1_0000 + h.proto
                   + PayloadLength(h)
  {
    FoldOnce(h.src);
    FoldOnce(h.dst);
    (Shr(h.src, 16) + BitAnd(h.src, 0xFFFF)) + (Shr(h.dst, 16) + BitAnd(h.dst, 0xFFFF)) + h.proto + PayloadLength(h)
  }

  // ----- the source's methods against these -----

  method ReadFieldsFrom(p: NetParser) returns (h: Ipv4Header)
    modifies p
    ensures (h, p.State()) == ReadFields(old(p.State()))
  {
    hide BitAnd, Shr, FromBytes, Parser.Skip, Parser.Int;
    var first := p.U8();
    var tos := p.U8();
    var len := p.U16();
    var id := p.U16();
    var fo := p.U16();
    FieldBounds(first, fo);
    var ttl := p.U8();
    var proto := p.U8();
    var cksum := p.U16();
    var src := p.U32();
    var dst := p.U32();
    h := Ipv4Header(Shr(first, 4), BitAnd(first, 0xF), tos, len, id, BitAnd(fo, 0x4000) != 0, BitAnd(fo, 0x2000) != 0,
                    BitAnd(fo, 0x1FFF), ttl, proto, cksum, src, dst);
  }

  method ReadIp(h0: Ipv4Header, p: NetParser) returns (h: Ipv4Header, result: ParseResult)
    modifies p
    ensures IpParse(h, p.State(), result) == ParseIp(h0, old(p.State()))
  {
    hide ReadFields, Add, Value;
    var original := p.buffer;
    var size := |p.buffer|;
    if size < 20 {
      return h0, PacketTooShort;
    }
    h := ReadFieldsFrom(p);
    if size < 4 * h.hlen {
      return h, PacketTooShort;
    }
    if h.ver != 4 {
      return h, WrongIpVersion;
    }
    if h.hlen < 5 {
      return h, HeaderTooShort;
    }
    if size != h.len {
      return h, TruncatedPacket;
    }
    p.RemovePrefix(4 * h.hlen - 20);
    if p.error != NoError {
      return h, p.error;
    }
    var check := new InternetChecksum(0);
    check.Append(original[..4 * h.hlen]);
    var v := check.Result();
    if v != 0 {
      return h, BadChecksum;
    }
    return h, NoError;
  }

  method WriteIp(h: Ipv4Header) returns (r: Option<seq<byte>>)
    ensures r == SerializeIp(h)
  {
    hide ToBytes, FirstByte, FragmentWord;
    if h.ver != 4 || 4 * h.hlen < 20 {
      return None;
    }
    var ret := UnparseInt([], FirstByte(h), 1);
    ret := UnparseInt(ret, h.tos, 1);
    ret := UnparseInt(ret, h.len, 2);
    ret := UnparseInt(ret, h.id, 2);
    ret := UnparseInt(ret, FragmentWord(h), 2);
    ret := UnparseInt(ret, h.ttl, 1);
    ret := UnparseInt(ret, h.proto, 1);
    assert ret == IpFront(h);
    ret := UnparseInt(ret, h.cksum, 2);
    ret := UnparseInt(ret, h.src, 4);
    ret := UnparseInt(ret, h.dst, 4);
    ret := ret + Zeros(4 * h.hlen - 20);
    IpParts(h, []);
    assert ret == IpFront(h) + (ToBytes(h.cksum, 2) + IpBack(h, []));
    return Some(ret);
  }

  method ReadDatagram(d: Datagram, buffer: seq<byte>) returns (r: DatagramParse)
    ensures r == ParseDatagram(d, buffer)
  {
    hide ParseIp;
    var p := new NetParser(buffer);
    var header, _ := ReadIp(d.header, p);
    var parsed := Datagram(header, p.buffer);
    if |parsed.payload| != PayloadLength(parsed.header) {
      return DatagramParse(parsed, PacketTooShort);
    }
    return DatagramParse(parsed, p.error);
  }

  method WriteDatagram(d: Datagram) returns (r: Option<seq<byte>>)
    ensures r == SerializeDatagram(d)
  {
    hide IpThen, Add, Value;
    if |d.payload| != PayloadLength(d.header) {
      return None;
    }
    var header := d.header.(cksum := 0);
    var zero := WriteIp(header);
    if zero == None {
      return None;
    }
    var check := new InternetChecksum(0);
    check.Append(zero.value);
    var c := check.Result();
    header := header.(cksum := c);
    var bytes := WriteIp(header);
    return Some(bytes.value + d.payload);
  }
}
