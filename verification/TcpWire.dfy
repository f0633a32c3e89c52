/** TCP headers and segments on the wire (libsponge/tcp_helpers/tcp_header.cc, tcp_segment.cc). */
module TcpWire {
  import opened Words
  import opened TcpSegments
  import opened InternetChecksums
  import opened NetParsers

  // ----- flags -----

  function FlagIf(b: bool, value: byte): byte { if b then value else 0 }

  /** The byte of flags, or-ed together as the source does. */
  function FlagsByte(h: TcpHeader): (b: byte)
    ensures b == FlagIf(h.urg, 32) + FlagIf(h.ack, 16) + FlagIf(h.psh, 8) + FlagIf(h.rst, 4) + FlagIf(h.syn, 2)
                 + FlagIf(h.fin, 1)
  {
    FlagsSum(h);
    BitOr(BitOr(BitOr(BitOr(BitOr(FlagIf(h.urg, 32), FlagIf(h.ack, 16)), FlagIf(h.psh, 8)), FlagIf(h.rst, 4)),
                FlagIf(h.syn, 2)), FlagIf(h.fin, 1))
  }

  lemma SmallPowers()
    ensures Pow2(0) == 1 && Pow2(1) == 2 && Pow2(2) == 4 && Pow2(3) == 8 && Pow2(4) == 16 && Pow2(5) == 32
  {
  }

  lemma OrFlag(x: nat, h: nat, l: nat, k: nat, p: nat)
    requires p == Pow2(k) && x == h * p && l < p
    ensures BitOr(x, l) == x + l
  {
    OrOfDisjointIsSum(x, h, l, k);
  }

  lemma FlagsSum(h: TcpHeader)
    ensures BitOr(BitOr(BitOr(BitOr(BitOr(FlagIf(h.urg, 32), FlagIf(h.ack, 16)), FlagIf(h.psh, 8)), FlagIf(h.rst, 4)),
                        FlagIf(h.syn, 2)), FlagIf(h.fin, 1))
         == FlagIf(h.urg, 32) + FlagIf(h.ack, 16) + FlagIf(h.psh, 8) + FlagIf(h.rst, 4) + FlagIf(h.syn, 2)
            + FlagIf(h.fin, 1)
  {
    hide BitOr, Pow2;
    var u, a, p, r, s := Bit(h.urg), Bit(h.ack), Bit(h.psh), Bit(h.rst), Bit(h.syn);
    SmallPowers();
    OrFlag(32 * u, u, 16 * a, 5, 32);
    OrFlag(32 * u + 16 * a, 2 * u + a, 8 * p, 4, 16);
    OrFlag(32 * u + 16 * a + 8 * p, 4 * u + 2 * a + p, 4 * r, 3, 8);
    OrFlag(32 * u + 16 * a + 8 * p + 4 * r, 8 * u + 4 * a + 2 * p + r, 2 * s, 2, 4);
    OrFlag(32 * u + 16 * a + 8 * p + 4 * r + 2 * s, 16 * u + 8 * a + 4 * p + 2 * r + s, Bit(h.fin), 1, 2);
  }

  /** Bit `k` of a number split into what is above it, itself, and what is below it. */
  lemma BitAt(x: nat, k: nat, p: nat, high: nat, bit: nat, low: nat)
    requires p == Pow2(k) && bit <= 1 && low < p && x == (2 * high + bit) * p + low
    ensures BitAnd(x, p) != 0 <==> bit == 1
  {
    hide BitAnd, Pow2;
    AndSingleBit(x, k);
    DivModUnique(x, p, 2 * high + bit, low);
  }

  lemma FlagsReadBack(h: TcpHeader)
    ensures var b := FlagsByte(h);
            && (BitAnd(b, 32) != 0) == h.urg && (BitAnd(b, 16) != 0) == h.ack && (BitAnd(b, 8) != 0) == h.psh
            && (BitAnd(b, 4) != 0) == h.rst && (BitAnd(b, 2) != 0) == h.syn && (BitAnd(b, 1) != 0) == h.fin
  {
    hide BitAnd, Pow2, FlagsByte;
    var b := FlagsByte(h);
    var u, a, p, r, s, f := Bit(h.urg), Bit(h.ack), Bit(h.psh), Bit(h.rst), Bit(h.syn), Bit(h.fin);
    SmallPowers();
    BitAt(b, 5, 32, 0, u, 16 * a + 8 * p + 4 * r + 2 * s + f);
    BitAt(b, 4, 16, u, a, 8 * p + 4 * r + 2 * s + f);
    BitAt(b, 3, 8, 2 * u + a, p, 4 * r + 2 * s + f);
    BitAt(b, 2, 4, 4 * u + 2 * a + p, r, 2 * s + f);
    BitAt(b, 1, 2, 8 * u + 4 * a + 2 * p + r, s, f);
    BitAt(b, 0, 1, 16 * u + 8 * a + 4 * p + 2 * r + s, f, 0);
  }

  // ----- headers -----

  function Zeros(n: nat): seq<byte> { seq(n, _ => 0) }

  /** The bytes of a header, expanded to `doff` words, followed by `rest`. */
  function HeaderThen(h: TcpHeader, rest: seq<byte>): seq<byte>
    requires h.doff >= 5
  {
    ToBytes(h.sport, 2) + (ToBytes(h.dport, 2) + (ToBytes(h.seqno, 4) + (ToBytes(h.ackno, 4) +
      (ToBytes(Shl(h.doff, 4, 8), 1) + (ToBytes(FlagsByte(h), 1) + (ToBytes(h.win, 2) +
      (ToBytes(h.cksum, 2) + (ToBytes(h.uptr, 2) + (Zeros(4 * h.doff - 20) + rest)))))))))
  }

  /** `TCPHeader::serialize`, which refuses a data offset below 5. */
  function SerializeHeader(h: TcpHeader): Option<seq<byte>>
  {
    if h.doff < 5 then None else Some(HeaderThen(h, []))
  }

  datatype HeaderParse = HeaderParse(header: TcpHeader, parser: Parser, result: ParseResult)

  /** `TCPHeader::parse` */
  function ParseHeader(p: Parser): HeaderParse
  {
    var p1 := p.Skip(2);
    var p2 := p1.Skip(2);
    var p3 := p2.Skip(4);
    var p4 := p3.Skip(4);
    var p5 := p4.Skip(1);
    var p6 := p5.Skip(1);
    var p7 := p6.Skip(2);
    var p8 := p7.Skip(2);
    var p9 := p8.Skip(2);
    var doff, fl := Shr(p4.U8(), 4), p5.U8();
    OffsetBound(p4.U8());
    var h := TcpHeader(p.U16(), p1.U16(), p2.U32(), p3.U32(), doff,
                       BitAnd(fl, 32) != 0, BitAnd(fl, 16) != 0, BitAnd(fl, 8) != 0,
                       BitAnd(fl, 4) != 0, BitAnd(fl, 2) != 0, BitAnd(fl, 1) != 0,
                       p6.U16(), p7.U16(), p8.U16());
    if doff < 5 then HeaderParse(h, p9, HeaderTooShort)
    else
      var p10 := p9.Skip(4 * doff - 20);
      HeaderParse(h, p10, p10.error)
  }

  lemma OffsetBound(b: byte)
    ensures Shr(b, 4) == b / 16
  {
    hide Shr, Pow2;
    Pow2Values();
    ShrIsDivision(b, 4);
  }

  lemma OffsetReadsBack(doff: byte)
    requires doff <= 15
    ensures Shl(doff, 4, 8) == doff * 16 && Shr(Shl(doff, 4, 8), 4) == doff
  {
    hide Shl, Shr;
    ShlNibble(doff);
    OffsetBound(doff * 16);
  }

  lemma ZerosSkipped(n: nat, rest: seq<byte>)
    ensures Parser(Zeros(n) + rest, NoError).Skip(n) == Parser(rest, NoError)
  {
    assert (Zeros(n) + rest)[n..] == rest;
  }

  /** Parsing a serialized header gives it back and leaves exactly what followed it. */
  lemma HeaderReadsBack(h: TcpHeader, rest: seq<byte>)
    requires 5 <= h.doff <= 15
    ensures ParseHeader(Parser(HeaderThen(h, rest), NoError)) == HeaderParse(h, Parser(rest, NoError), NoError)
  {
    hide ToBytes, FlagsByte, BitAnd, Shr, Shl, Zeros, FromBytes, Parser.Skip, Parser.Int;
    Pow2Values();
    OffsetReadsBack(h.doff);
    FlagsReadBack(h);
    var b10 := Zeros(4 * h.doff - 20) + rest;
    var b9 := ToBytes(h.uptr, 2) + b10;
    var b8 := ToBytes(h.cksum, 2) + b9;
    var b7 := ToBytes(h.win, 2) + b8;
    var b6 := ToBytes(FlagsByte(h), 1) + b7;
    var b5 := ToBytes(Shl(h.doff, 4, 8), 1) + b6;
    var b4 := ToBytes(h.ackno, 4) + b5;
    var b3 := ToBytes(h.seqno, 4) + b4;
    var b2 := ToBytes(h.dport, 2) + b3;
    ReadsBack(h.sport, 2, b2);
    ReadsBack(h.dport, 2, b3);
    ReadsBack(h.seqno, 4, b4);
    ReadsBack(h.ackno, 4, b5);
    ReadsBack(Shl(h.doff, 4, 8), 1, b6);
    ReadsBack(FlagsByte(h), 1, b7);
    ReadsBack(h.win, 2, b8);
    ReadsBack(h.cksum, 2, b9);
    ReadsBack(h.uptr, 2, b10);
    ZerosSkipped(4 * h.doff - 20, rest);
  }

  // ----- the checksum field -----

  /** The sixteen bytes before the checksum, and what comes after it. */
  function Front(h: TcpHeader): seq<byte>
  {
    ToBytes(h.sport, 2) + (ToBytes(h.dport, 2) + (ToBytes(h.seqno, 4) + (ToBytes(h.ackno, 4) +
      (ToBytes(Shl(h.doff, 4, 8), 1) + (ToBytes(FlagsByte(h), 1) + ToBytes(h.win, 2))))))
  }

  function Back(h: TcpHeader, rest: seq<byte>): seq<byte>
    requires h.doff >= 5
  {
    ToBytes(h.uptr, 2) + (Zeros(4 * h.doff - 20) + rest)
  }

  lemma HeaderParts(h: TcpHeader, rest: seq<byte>)
    requires h.doff >= 5
    ensures HeaderThen(h, rest) == Front(h) + (ToBytes(h.cksum, 2) + Back(h, rest)) && |Front(h)| == 16
  {
    hide ToBytes, FlagsByte, Shl, Zeros;
    var t := ToBytes(h.cksum, 2) + Back(h, rest);
    var a, b, c, d, e, f, g := ToBytes(h.sport, 2), ToBytes(h.dport, 2), ToBytes(h.seqno, 4), ToBytes(h.ackno, 4),
        ToBytes(Shl(h.doff, 4, 8), 1), ToBytes(FlagsByte(h), 1), ToBytes(h.win, 2);
    assert f + (g + t) == (f + g) + t;
    assert e + ((f + g) + t) == (e + (f + g)) + t;
    assert d + ((e + (f + g)) + t) == (d + (e + (f + g))) + t;
    assert c + ((d + (e + (f + g))) + t) == (c + (d + (e + (f + g)))) + t;
    assert b + ((c + (d + (e + (f + g)))) + t) == (b + (c + (d + (e + (f + g))))) + t;
    assert a + ((b + (c + (d + (e + (f + g))))) + t) == (a + (b + (c + (d + (e + (f + g)))))) + t;
  }

  lemma HeaderAppend(h: TcpHeader, rest: seq<byte>)
    requires h.doff >= 5
    ensures HeaderThen(h, []) + rest == HeaderThen(h, rest) && |HeaderThen(h, rest)| == 4 * h.doff + |rest|
  {
    hide HeaderThen, Front, ToBytes;
    HeaderParts(h, []);
    HeaderParts(h, rest);
    var z := Zeros(4 * h.doff - 20);
    assert Back(h, []) + rest == Back(h, rest);
    assert Front(h) + (ToBytes(h.cksum, 2) + Back(h, [])) + rest == Front(h) + (ToBytes(h.cksum, 2) + Back(h, rest));
  }

  /** A checksum field at an even offset adds its own value to the sum. */
  lemma WordOf(c: uint16)
    ensures WordSum(ToBytes(c, 2), false) == c
  {
    var hi, lo := (c / 256) % 256, c % 256;
    assert ToBytes(c / 256, 1) == [hi];
    assert ToBytes(c, 2) == [hi, lo];
    assert [hi, lo][1..] == [lo] && [lo][1..] == [];
    assert WordSum([lo], true) == lo;
    assert WordSum([hi, lo], false) == hi * 256 + lo;
  }

  lemma ChecksumFieldAdds(h: TcpHeader, c: uint16, rest: seq<byte>)
    requires h.doff >= 5
    ensures WordSum(HeaderThen(h.(cksum := c), rest), false) == WordSum(HeaderThen(h.(cksum := 0), rest), false) + c
  {
    hide HeaderThen, Front, Back, ToBytes, WordSum;
    var h0, h1 := h.(cksum := 0), h.(cksum := c);
    HeaderParts(h0, rest);
    HeaderParts(h1, rest);
    assert Front(h1) == Front(h0) && Back(h1, rest) == Back(h0, rest) by { FieldElsewhere(h0, c, rest); }
    WordSumAppend(Front(h0), ToBytes(0, 2) + Back(h0, rest), false);
    WordSumAppend(Front(h0), ToBytes(c, 2) + Back(h0, rest), false);
    WordSumAppend(ToBytes(0, 2), Back(h0, rest), false);
    WordSumAppend(ToBytes(c, 2), Back(h0, rest), false);
    WordOf(0);
    WordOf(c);
  }

  lemma FieldElsewhere(h: TcpHeader, c: uint16, rest: seq<byte>)
    requires h.doff >= 5
    ensures Front(h.(cksum := c)) == Front(h) && Back(h.(cksum := c), rest) == Back(h, rest)
  {
    hide ToBytes, Shl;
    FlagsElsewhere(h, c);
  }

  lemma FlagsElsewhere(h: TcpHeader, c: uint16)
    ensures FlagsByte(h.(cksum := c)) == FlagsByte(h)
  {
    hide BitOr;
  }

  // ----- segments -----

  /** `TCPSegment::serialize`: the checksum is computed with its own field zero, then filled in. */
  function SerializeSegment(seg: TcpSegment, pseudo: uint32): Option<seq<byte>>
  {
    var h := seg.header.(cksum := 0);
    match SerializeHeader(h)
    case None => None
    case Some(bytes) =>
      var c := Value(Add(Add(Checksum(pseudo, false), bytes), seg.payload).sum);
      Some(HeaderThen(h.(cksum := c), []) + seg.payload)
  }

  datatype SegmentParse = SegmentParse(segment: TcpSegment, result: ParseResult)

  /** `TCPSegment::parse`, into an existing segment; the result of parsing the header is not looked at. */
  function ParseSegment(seg: TcpSegment, buffer: seq<byte>, pseudo: uint32): SegmentParse
  {
    if Value(Add(Checksum(pseudo, false), buffer).sum) != 0 then SegmentParse(seg, BadChecksum)
    else
      var hp := ParseHeader(Parser(buffer, NoError));
      SegmentParse(TcpSegment(hp.header, hp.parser.buffer), hp.parser.error)
  }

  /** The checksum that `serialize` inserts. */
  function SegmentChecksum(seg: TcpSegment, pseudo: uint32): uint16
    requires seg.header.doff >= 5
  {
    Value(Add(Checksum(pseudo, false), HeaderThen(seg.header.(cksum := 0), seg.payload)).sum)
  }

  /** The inserted checksum makes the whole segment sum to zero, whatever its length: a receiver accepts it. */
  lemma SegmentVerifies(seg: TcpSegment, pseudo: uint32)
    requires seg.header.doff >= 5
    ensures var c := SegmentChecksum(seg, pseudo);
            && SerializeSegment(seg, pseudo) == Some(HeaderThen(seg.header.(cksum := c), seg.payload))
            && Value(Add(Checksum(pseudo, false), HeaderThen(seg.header.(cksum := c), seg.payload)).sum) == 0
  {
    hide HeaderThen, Add, Value, WordSum;
    var h0, c := seg.header.(cksum := 0), SegmentChecksum(seg, pseudo);
    var h1 := seg.header.(cksum := c);
    var b0, b1 := HeaderThen(h0, seg.payload), HeaderThen(h1, seg.payload);
    HeaderAppend(h0, seg.payload);
    HeaderAppend(h1, seg.payload);
    AddInPieces(Checksum(pseudo, false), HeaderThen(h0, []), seg.payload);
    ChecksumFieldAdds(seg.header, c, seg.payload);
    AddIsWordSum(Checksum(pseudo, false), b0);
    AddIsWordSum(Checksum(pseudo, false), b1);
    ChecksumCompletes(pseudo + WordSum(b0, false));
  }

  /** Parsing a serialized segment gives back its header, with the checksum filled in, and its payload. */
  lemma SegmentReadsBack(seg: TcpSegment, pseudo: uint32, into: TcpSegment)
    requires 5 <= seg.header.doff <= 15
    ensures var c := SegmentChecksum(seg, pseudo);
            && SerializeSegment(seg, pseudo).Some?
            && ParseSegment(into, SerializeSegment(seg, pseudo).value, pseudo)
               == SegmentParse(TcpSegment(seg.header.(cksum := c), seg.payload), NoError)
  {
    hide HeaderThen, Add, Value, ParseHeader;
    SegmentVerifies(seg, pseudo);
    HeaderReadsBack(seg.header.(cksum := SegmentChecksum(seg, pseudo)), seg.payload);
  }

  // ----- the source's methods against these -----

  method ReadHeader(p: NetParser) returns (h: TcpHeader, result: ParseResult)
    modifies p
    ensures HeaderParse(h, p.State(), result) == ParseHeader(old(p.State()))
  {
    hide BitAnd, Shr, FromBytes, Parser.Skip, Parser.Int;
    var sport := p.U16();
    var dport := p.U16();
    var seqno := p.U32();
    var ackno := p.U32();
    var offset := p.U8();
    OffsetBound(offset);
    var doff := Shr(offset, 4);
    var fl := p.U8();
    var win := p.U16();
    var cksum := p.U16();
    var uptr := p.U16();
    h := TcpHeader(sport, dport, seqno, ackno, doff,
                   BitAnd(fl, 32) != 0, BitAnd(fl, 16) != 0, BitAnd(fl, 8) != 0,
                   BitAnd(fl, 4) != 0, BitAnd(fl, 2) != 0, BitAnd(fl, 1) != 0, win, cksum, uptr);
    if doff < 5 {
      return h, HeaderTooShort;
    }
    p.RemovePrefix(4 * doff - 20);
    return h, p.error;
  }

  method WriteHeader(h: TcpHeader) returns (r: Option<seq<byte>>)
    ensures r == SerializeHeader(h)
  {
    hide ToBytes, FlagsByte, Shl;
    if h.doff < 5 {
      return None;
    }
    var ret := UnparseInt([], h.sport, 2);
    ret := UnparseInt(ret, h.dport, 2);
    ret := UnparseInt(ret, h.seqno, 4);
    ret := UnparseInt(ret, h.ackno, 4);
    ret := UnparseInt(ret, Shl(h.doff, 4, 8), 1);
    ret := UnparseInt(ret, FlagsByte(h), 1);
    ret := UnparseInt(ret, h.win, 2);
    assert ret == Front(h);
    ret := UnparseInt(ret, h.cksum, 2);
    ret := UnparseInt(ret, h.uptr, 2);
    ret := ret + Zeros(4 * h.doff - 20);
    HeaderParts(h, []);
    assert ret == Front(h) + (ToBytes(h.cksum, 2) + Back(h, []));
    return Some(ret);
  }

  method WriteSegment(seg: TcpSegment, pseudo: uint32) returns (r: Option<seq<byte>>)
    ensures r == SerializeSegment(seg, pseudo)
  {
    hide HeaderThen, Add, Value;
    var header := seg.header.(cksum := 0);
    var check := new InternetChecksum(pseudo);
    var bytes := WriteHeader(header);
    if bytes == None {
      return None;
    }
    check.Append(bytes.value);
    check.Append(seg.payload);
    var c := check.Result();
    header := header.(cksum := c);
    bytes := WriteHeader(header);
    return Some(bytes.value + seg.payload);
  }

  method ReadSegment(seg: TcpSegment, buffer: seq<byte>, pseudo: uint32) returns (r: SegmentParse)
    ensures r == ParseSegment(seg, buffer, pseudo)
  {
    hide ParseHeader, Add, Value;
    var check := new InternetChecksum(pseudo);
    check.Append(buffer);
    var v := check.Result();
    if v != 0 {
      return SegmentParse(seg, BadChecksum);
    }
    var p := new NetParser(buffer);
    var header, _ := ReadHeader(p);
    return SegmentParse(TcpSegment(header, p.buffer), p.error);
  }
}
