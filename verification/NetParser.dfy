/** Reading and writing integers in network byte order (libsponge/util/parser.cc). */
module NetParsers {
  import opened Words

  datatype ParseResult = NoError | BadChecksum | PacketTooShort | WrongIpVersion | HeaderTooShort | TruncatedPacket

  /** The number that bytes stand for, most significant first. */
  function FromBytes(bs: seq<byte>): nat
    decreases |bs|
  {
    if bs == [] then 0 else FromBytes(bs[..|bs| - 1]) * 256 + bs[|bs| - 1]
  }

  /** The `len` bytes of `v`, most significant first. */
  function ToBytes(v: nat, len: nat): (bs: seq<byte>)
    ensures |bs| == len
  {
    if len == 0 then [] else ToBytes(v / 256, len - 1) + [v % 256]
  }

  lemma {:induction false} FromToBytes(v: nat, len: nat)
    requires v < Pow2(8 * len)
    ensures FromBytes(ToBytes(v, len)) == v
  {
    if len > 0 {
      Pow2Add(8, 8 * (len - 1));
      assert Pow2(8) == 256;
      FromToBytes(v / 256, len - 1);
      assert ToBytes(v, len)[..len - 1] == ToBytes(v / 256, len - 1);
    }
  }

  lemma {:induction false} FromBytesBound(bs: seq<byte>)
    ensures FromBytes(bs) < Pow2(8 * |bs|)
    decreases |bs|
  {
    if bs != [] {
      FromBytesBound(bs[..|bs| - 1]);
      Pow2Add(8, 8 * (|bs| - 1));
      assert Pow2(8) == 256;
    }
  }

  /** The state of a parser: what is left to read, and the error met last, which nothing clears. */
  datatype Parser = Parser(buffer: seq<byte>, error: ParseResult)
  {
    function CheckSize(n: nat): Parser
    {
      if n > |buffer| then this.(error := PacketTooShort) else this
    }

    /** The integer read from the next `n` bytes; zero once there has been an error. */
    function Int(n: nat): nat
    {
      if CheckSize(n).error != NoError then 0 else FromBytes(buffer[..n])
    }

    /** The parser after reading or skipping `n` bytes; nothing is consumed once there has been an error. */
    function Skip(n: nat): Parser
    {
      if CheckSize(n).error != NoError then CheckSize(n) else this.(buffer := buffer[n..])
    }

    function U8(): (v: byte) { IntBound(1); Int(1) }

    function U16(): (v: uint16) { IntBound(2); Int(2) }

    function U32(): (v: uint32) { IntBound(4); Int(4) }

    lemma IntBound(n: nat)
      requires n == 1 || n == 2 || n == 4
      ensures Int(n) < (if n == 1 then 0x100 else if n == 2 then 0x1_0000 else 0x1_0000_0000)
    {
      Pow2Values();
      if CheckSize(n).error == NoError {
        FromBytesBound(buffer[..n]);
      }
    }
  }

  /** Reading back what was written, with anything after it left for the next read. */
  lemma ReadsBack(v: nat, n: nat, rest: seq<byte>)
    requires v < Pow2(8 * n)
    ensures Parser(ToBytes(v, n) + rest, NoError).Int(n) == v
    ensures Parser(ToBytes(v, n) + rest, NoError).Skip(n) == Parser(rest, NoError)
  {
    FromToBytes(v, n);
    assert (ToBytes(v, n) + rest)[..n] == ToBytes(v, n) && (ToBytes(v, n) + rest)[n..] == rest;
  }

  class NetParser {
    var buffer: seq<byte>
    var error: ParseResult

    ghost function State(): Parser
      reads this
    {
      Parser(buffer, error)
    }

    constructor (buffer: seq<byte>)
      ensures State() == Parser(buffer, NoError)
    {
      this.buffer, error := buffer, NoError;
    }

    method CheckSize(size: nat)
      modifies this`error
      ensures State() == old(State()).CheckSize(size)
    {
      if size > |buffer| {
        error := PacketTooShort;
      }
    }

    method ParseInt(len: nat) returns (ret: nat)
      modifies this
      ensures ret == old(State()).Int(len)
      ensures State() == old(State()).Skip(len)
    {
      CheckSize(len);
      if error != NoError {
        return 0;
      }
      ret := 0;
      for i := 0 to len
        invariant ret == FromBytes(buffer[..i])
      {
        assert buffer[..i + 1][..i] == buffer[..i];
        ret := ret * 256;
        ret := ret + buffer[i];
      }
      buffer := buffer[len..];
    }

    method RemovePrefix(n: nat)
      modifies this
      ensures State() == old(State()).Skip(n)
    {
      CheckSize(n);
      if error != NoError {
        return;
      }
      buffer := buffer[n..];
    }

    method U8() returns (v: byte)
      modifies this
      ensures v == old(State()).U8() && State() == old(State()).Skip(1)
    {
      State().IntBound(1);
      v := ParseInt(1);
    }

    method U16() returns (v: uint16)
      modifies this
      ensures v == old(State()).U16() && State() == old(State()).Skip(2)
    {
      State().IntBound(2);
      v := ParseInt(2);
    }

    method U32() returns (v: uint32)
      modifies this
      ensures v == old(State()).U32() && State() == old(State()).Skip(4)
    {
      State().IntBound(4);
      v := ParseInt(4);
    }
  }

  /** Byte `i` of the source's loop: `(val >> ((len - i - 1) * 8)) & 0xff`. */
  lemma {:induction false} ByteOf(v: nat, len: nat, i: nat)
    requires i < len
    ensures ToBytes(v, len)[i] == BitAnd(Shr(v, (len - i - 1) * 8), 0xFF)
    decreases len
  {
    if i == len - 1 {
      Pow2Values();
      AndLowMask(v, 8);
    } else {
      ByteOf(v / 256, len - 1, i);
      ShrByBytes(v, len - i - 2);
    }
  }

  lemma ShrByBytes(v: nat, k: nat)
    ensures Shr(v, (k + 1) * 8) == Shr(v / 256, k * 8)
  {
    Pow2Values();
    ShrIsDivision(v, 8);
    ShrTwice(v, 8, k * 8);
  }

  lemma {:induction false} ShrTwice(v: nat, a: nat, b: nat)
    ensures Shr(v, a + b) == Shr(Shr(v, a), b)
  {
    if a > 0 {
      ShrTwice(v / 2, a - 1, b);
    }
  }

  /** `NetUnparser::_unparse_int`: append an integer byte by byte. */
  method UnparseInt(s: seq<byte>, val: nat, len: nat) returns (r: seq<byte>)
    ensures r == s + ToBytes(val, len)
  {
    hide Shr, BitAnd, ToBytes;
    r := s;
    for i := 0 to len
      invariant r == s + ToBytes(val, len)[..i]
    {
      ByteOf(val, len, i);
      r := r + [BitAnd(Shr(val, (len - i - 1) * 8), 0xFF)];
    }
    assert ToBytes(val, len)[..len] == ToBytes(val, len);
  }
}
