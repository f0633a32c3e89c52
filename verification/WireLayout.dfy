/** Which packets the parsers accept, and where in them each field lies: the header formats of RFC 793 (section 3.1) and
    RFC 791 (section 3.1) byte by byte, for every byte string and not only for those this code writes. */
module WireLayout {
  import opened Words
  import opened Ipv4Datagrams
  import opened TcpSegments
  import opened InternetChecksums
  import opened NetParsers
  import opened TcpWire
  import opened Ipv4Wire

  /** The 16-bit and the 32-bit number at an offset, most significant byte first. */
  function Word(b: seq<byte>, k: nat): uint16
    requires k + 2 <= |b|
  {
    var high: nat := b[k];
    high * 0x100 + b[k + 1]
  }

  function Long(b: seq<byte>, k: nat): uint32
    requires k + 4 <= |b|
  {
    var high: nat := Word(b, k);
    high * 0x1_0000 + Word(b, k + 2)
  }

  lemma BytesInOrder(x: seq<byte>)
    ensures |x| == 1 ==> FromBytes(x) == x[0]
    ensures |x| == 2 ==> FromBytes(x) == Word(x, 0)
    ensures |x| == 4 ==> FromBytes(x) == Long(x, 0)
  {
    if |x| == 1 {
      assert x[..0] == [];
    } else if |x| == 2 {
      assert x[..1][..0] == [];
      assert FromBytes(x[..1]) == x[0];
    } else if |x| == 4 {
      assert x[..3][..2] == x[..2] && x[..2][..1] == x[..1] && x[..1][..0] == [];
      assert FromBytes(x[..1]) == x[0];
      assert FromBytes(x[..2]) == Word(x, 0);
      assert FromBytes(x[..3]) == FromBytes(x[..2]) * 256 + x[2];
    }
  }

  /** Reading from offset `k` on. */
  lemma Cursor(b: seq<byte>, k: nat, n: nat)
    requires k + n <= |b|
    ensures Parser(b[k..], NoError).Skip(n) == Parser(b[k + n..], NoError)
    ensures n == 1 ==> Parser(b[k..], NoError).Int(n) == b[k]
    ensures n == 2 ==> Parser(b[k..], NoError).Int(n) == Word(b, k)
    ensures n == 4 ==> Parser(b[k..], NoError).Int(n) == Long(b, k)
  {
    hide FromBytes;
    assert b[k..][n..] == b[k + n..];
    BytesInOrder(b[k..][..n]);
  }

  lemma FlagAt(x: byte, p: nat, k: nat)
    requires p == Pow2(k)
    ensures (BitAnd(x, p) != 0) == ((x / p) % 2 == 1)
  {
    AndSingleBit(x, k);
  }

  lemma SixFlags(x: byte)
    ensures (BitAnd(x, 32) != 0) == ((x / 32) % 2 == 1) && (BitAnd(x, 16) != 0) == ((x / 16) % 2 == 1)
    ensures (BitAnd(x, 8) != 0) == ((x / 8) % 2 == 1) && (BitAnd(x, 4) != 0) == ((x / 4) % 2 == 1)
    ensures (BitAnd(x, 2) != 0) == ((x / 2) % 2 == 1) && (BitAnd(x, 1) != 0) == (x % 2 == 1)
  {
    hide BitAnd, Pow2;
    SmallPowers();
    FlagAt(x, 32, 5);
    FlagAt(x, 16, 4);
    FlagAt(x, 8, 3);
    FlagAt(x, 4, 2);
    FlagAt(x, 2, 1);
    FlagAt(x, 1, 0);
  }

  // ----- TCP -----

  /** The header that twenty bytes stand for. */
  function TcpHeaderOf(b: seq<byte>): TcpHeader
    requires |b| >= 20
  {
    TcpHeader(Word(b, 0), Word(b, 2), Long(b, 4), Long(b, 8), b[12] / 16,
              (b[13] / 32) % 2 == 1, (b[13] / 16) % 2 == 1, (b[13] / 8) % 2 == 1,
              (b[13] / 4) % 2 == 1, (b[13] / 2) % 2 == 1, b[13] % 2 == 1,
              Word(b, 14), Word(b, 16), Word(b, 18))
  }

  /** Every header of at least twenty bytes is read field by field where it should be.  The data offset decides: below 5
      it is an error, beyond the buffer it is an error, and otherwise the options are skipped. */
  lemma TcpHeaderLayout(b: seq<byte>)
    requires |b| >= 20
    ensures var hp, doff := ParseHeader(Parser(b, NoError)), b[12] / 16;
            && hp.header == TcpHeaderOf(b)
            && (if doff < 5 then hp.result == HeaderTooShort && hp.parser == Parser(b[20..], NoError)
                else if 4 * doff > |b| then hp.result == hp.parser.error == PacketTooShort
                else hp.result == NoError && hp.parser == Parser(b[4 * doff..], NoError))
  {
    hide FromBytes, BitAnd, Shr, Parser.Skip, Parser.Int, Word, Long;
    assert b == b[0..];
    Cursor(b, 0, 2);
    Cursor(b, 2, 2);
    Cursor(b, 4, 4);
    Cursor(b, 8, 4);
    Cursor(b, 12, 1);
    Cursor(b, 13, 1);
    Cursor(b, 14, 2);
    Cursor(b, 16, 2);
    Cursor(b, 18, 2);
    OffsetBound(b[12]);
    SixFlags(b[13]);
    var doff := b[12] / 16;
    if doff >= 5 {
      SkipFrom(b, 20, 4 * doff - 20);
    }
  }

  lemma SkipFrom(b: seq<byte>, k: nat, n: nat)
    requires k <= |b|
    ensures var p := Parser(b[k..], NoError).Skip(n);
            if k + n <= |b| then p == Parser(b[k + n..], NoError) else p.error == PacketTooShort
  {
    if k + n <= |b| {
      assert b[k..][n..] == b[k + n..];
    }
  }

  lemma Sticky(p: Parser, n: nat)
    ensures p.error != NoError || n > |p.buffer| ==> p.Skip(n).error != NoError
    ensures p.Skip(n).error == NoError ==> |p.Skip(n).buffer| + n == |p.buffer|
  {
  }

  /** A shorter one never parses. */
  lemma ShortTcpHeader(b: seq<byte>)
    requires |b| < 20
    ensures ParseHeader(Parser(b, NoError)).parser.error != NoError
  {
    hide FromBytes, BitAnd, Shr, Parser.Skip, Parser.Int;
    var p0 := Parser(b, NoError);
    var p1 := p0.Skip(2);
    var p2 := p1.Skip(2);
    var p3 := p2.Skip(4);
    var p4 := p3.Skip(4);
    var p5 := p4.Skip(1);
    var p6 := p5.Skip(1);
    var p7 := p6.Skip(2);
    var p8 := p7.Skip(2);
    var p9 := p8.Skip(2);
    Sticky(p0, 2);
    Sticky(p1, 2);
    Sticky(p2, 4);
    Sticky(p3, 4);
    Sticky(p4, 1);
    Sticky(p5, 1);
    Sticky(p6, 2);
    Sticky(p7, 2);
    Sticky(p8, 2);
    assert p9.error != NoError;
    var doff := Shr(p4.U8(), 4);
    if doff >= 5 {
      Sticky(p9, 4 * doff - 20);
    }
  }

  /** The sum over the pseudo-header and the bytes, in 32 bits, is a positive multiple of 2^16 - 1. */
  predicate SumsUp(initial: uint32, b: seq<byte>)
  {
    var sum := (initial + WordSum(b, false)) % 0x1_0000_0000;
    sum > 0 && sum % 0xFFFF == 0
  }

  lemma ChecksumIsZeroIff(initial: uint32, b: seq<byte>)
    ensures Value(Add(Checksum(initial, false), b).sum) == 0 <==> SumsUp(initial, b)
  {
    hide Value, Add, WordSum;
    AddIsWordSum(Checksum(initial, false), b);
    ValueMeaning(Add(Checksum(initial, false), b).sum);
  }

  lemma {:induction false} WordSumBound(b: seq<byte>)
    ensures WordSum(b, false) <= (|b| + 1) / 2 * 0xFFFF
    decreases |b|
  {
    if |b| == 1 {
      assert WordSum(b[1..], true) == 0;
    } else if |b| >= 2 {
      WordSumBound(b[2..]);
      assert b[1..][1..] == b[2..];
      assert WordSum(b[1..], true) == b[1] + WordSum(b[2..], false);
    }
  }

  lemma WordSumAround(b: seq<byte>, k: nat)
    requires k % 2 == 0 && k + 2 <= |b|
    ensures WordSum(b, false) == WordSum(b[..k], false) + Word(b, k) + WordSum(b[k + 2..], false)
  {
    assert b == b[..k] + ([b[k], b[k + 1]] + b[k + 2..]);
    WordSumAppend(b[..k], [b[k], b[k + 1]] + b[k + 2..], false);
    WordSumAppend([b[k], b[k + 1]], b[k + 2..], false);
    assert [b[k], b[k + 1]][1..] == [b[k + 1]] && [b[k + 1]][1..] == [];
    assert WordSum([b[k + 1]], true) == b[k + 1];
  }

  /** What the checksum is for: of two packets of at most 65535 bytes that differ in a single 16-bit word, at most one
      sums up, unless that word is 0 in one and 0xFFFF in the other. */
  lemma OneWordErrorIsDetected(initial: uint32, a: seq<byte>, b: seq<byte>, k: nat)
    requires |a| == |b| <= 0xFFFF && initial < 0x8000_0000 && k % 2 == 0 && k + 2 <= |a|
    requires a[..k] == b[..k] && a[k + 2..] == b[k + 2..] && SumsUp(initial, a) && SumsUp(initial, b)
    ensures Word(a, k) == Word(b, k) || {Word(a, k), Word(b, k)} == {0, 0xFFFF}
  {
    hide WordSum, Word;
    WordSumAround(a, k);
    WordSumAround(b, k);
    WordSumBound(a);
    WordSumBound(b);
    var s, t := initial + WordSum(a, false), initial + WordSum(b, false);
    if s >= t {
      ResidueDifference(s, t);
    } else {
      ResidueDifference(t, s);
    }
  }

  /** A segment is accepted exactly if it sums up, is at least twenty bytes long, and its data offset does not point
      beyond its end.  Since the result of the header parser is not looked at, an offset below 5 does no harm: the
      payload then starts right behind the twenty bytes.  A segment that does not sum up leaves the old one in place. */
  lemma SegmentAcceptedIff(into: TcpSegment, b: seq<byte>, pseudo: uint32)
    ensures var sp := ParseSegment(into, b, pseudo);
            && (sp.result == NoError <==> SumsUp(pseudo, b) && |b| >= 20 && 4 * (b[12] / 16) <= |b|)
            && (sp.result == NoError ==> sp.segment == TcpSegment(TcpHeaderOf(b), b[Max(20, 4 * (b[12] / 16))..]))
            && (!SumsUp(pseudo, b) ==> sp == SegmentParse(into, BadChecksum))
  {
    hide ParseHeader, Value, Add, SumsUp;
    ChecksumIsZeroIff(pseudo, b);
    if |b| >= 20 {
      TcpHeaderLayout(b);
    } else {
      ShortTcpHeader(b);
    }
  }

  // ----- IPv4 -----

  function IpHeaderOf(b: seq<byte>): Ipv4Header
    requires |b| >= 20
  {
    Ipv4Header(b[0] / 16, b[0] % 16, b[1], Word(b, 2), Word(b, 4),
               (Word(b, 6) / 0x4000) % 2 == 1, (Word(b, 6) / 0x2000) % 2 == 1, Word(b, 6) % 0x2000,
               b[8], b[9], Word(b, 10), Long(b, 12), Long(b, 16))
  }

  lemma IpFieldsLayout(b: seq<byte>)
    requires |b| >= 20
    ensures ReadFields(Parser(b, NoError)) == (IpHeaderOf(b), Parser(b[20..], NoError))
  {
    hide FromBytes, BitAnd, Shr, Parser.Skip, Parser.Int, Word, Long;
    assert b == b[0..];
    Cursor(b, 0, 1);
    Cursor(b, 1, 1);
    Cursor(b, 2, 2);
    Cursor(b, 4, 2);
    Cursor(b, 6, 2);
    Cursor(b, 8, 1);
    Cursor(b, 9, 1);
    Cursor(b, 10, 2);
    Cursor(b, 12, 4);
    Cursor(b, 16, 4);
    FieldBounds(b[0], Word(b, 6));
    FragmentFlags(Word(b, 6));
  }

  lemma FragmentFlags(x: nat)
    ensures (BitAnd(x, 0x4000) != 0) == ((x / 0x4000) % 2 == 1)
    ensures (BitAnd(x, 0x2000) != 0) == ((x / 0x2000) % 2 == 1)
  {
    hide BitAnd, Pow2;
    FragmentPowers();
    AndSingleBit(x, 14);
    AndSingleBit(x, 13);
  }

  /** The bytes start with a version 4 header, all there, that gives the right total length. */
  predicate LooksLikeIp(b: seq<byte>)
  {
    |b| >= 20 && b[0] / 16 == 4 && 5 <= b[0] % 16 && 4 * (b[0] % 16) <= |b| && Word(b, 2) == |b|
  }

  /** A header is accepted exactly if it looks right and its own bytes sum up. */
  lemma IpHeaderAcceptedIff(into: Ipv4Header, b: seq<byte>)
    ensures var ip := ParseIp(into, Parser(b, NoError));
            && (ip.result == NoError <==> LooksLikeIp(b) && SumsUp(0, b[..4 * (b[0] % 16)]))
            && (LooksLikeIp(b) ==> ip.header == IpHeaderOf(b) && ip.parser == Parser(b[4 * (b[0] % 16)..], NoError))
            && (!LooksLikeIp(b) ==> ip.parser == Parser(if |b| < 20 then b else b[20..], NoError)
                                    && ip.header == if |b| < 20 then into else IpHeaderOf(b))
  {
    hide ReadFields, Value, Add, SumsUp, Parser.Skip;
    if |b| >= 20 {
      IpFieldsLayout(b);
      var hlen := b[0] % 16;
      if 5 <= hlen && 4 * hlen <= |b| {
        SkipFrom(b, 20, 4 * hlen - 20);
        ChecksumIsZeroIff(0, b[..4 * hlen]);
      }
    }
  }

  /** A datagram is accepted whatever its header checksum: one that looks right always is, with its header as it is and
      its payload behind it, since the result of the header parser is not looked at.  One that does not look right is
      accepted exactly if what follows the first twenty bytes (or, below twenty, everything, by the header that was
      there before) happens to be as long as the header says. */
  lemma DatagramAcceptedIff(into: Datagram, b: seq<byte>)
    ensures var dp := ParseDatagram(into, b);
            if LooksLikeIp(b) then
              dp == DatagramParse(Datagram(IpHeaderOf(b), b[4 * (b[0] % 16)..]), NoError)
            else if |b| >= 20 then
              dp.result == NoError <==> |b| - 20 == (Word(b, 2) - 4 * (b[0] % 16)) % 0x1_0000
            else
              dp.result == NoError <==> |b| == (into.header.len - 4 * into.header.hlen) % 0x1_0000
  {
    hide ParseIp, SumsUp;
    IpHeaderAcceptedIff(into.header, b);
  }

  // ----- what can be written -----

  /** A segment can be written exactly if its data offset is at least 5, and a datagram exactly if it is of version 4,
      its header has at least five words, and its payload is as long as the header says. */
  lemma WrittenIff(seg: TcpSegment, pseudo: uint32, d: Datagram)
    ensures SerializeSegment(seg, pseudo).Some? <==> seg.header.doff >= 5
    ensures SerializeDatagram(d).Some? <==>
            d.header.ver == 4 && d.header.hlen >= 5 && |d.payload| == (d.header.len - 4 * d.header.hlen) % 0x1_0000
  {
    hide HeaderThen, IpThen, Value, Add;
  }
}
