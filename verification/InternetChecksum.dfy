/** The Internet checksum (InternetChecksum in libsponge/util/util.cc). */
module InternetChecksums {
  import opened Words

  /** The accumulator: a 32-bit sum and whether the next byte is the low half of a word. */
  datatype Checksum = Checksum(sum: uint32, parity: bool)

  function AddByte(c: Checksum, b: byte): Checksum
  {
    Checksum((c.sum + (if c.parity then b else b * 256)) % 0x1_0000_0000, !c.parity)
  }

  function Add(c: Checksum, data: seq<byte>): Checksum
    decreases |data|
  {
    if data == [] then c else Add(AddByte(c, data[0]), data[1..])
  }

  /** How data is cut into pieces does not matter. */
  lemma {:induction false} AddInPieces(c: Checksum, a: seq<byte>, b: seq<byte>)
    ensures Add(Add(c, a), b) == Add(c, a + b)
    decreases |a|
  {
    hide AddByte;
    if a == [] {
      assert a + b == b;
    } else {
      AddInPieces(AddByte(c, a[0]), a[1..], b);
      assert (a + b)[1..] == a[1..] + b;
    }
  }

  /** The folding loop of `value`: add the high half to the low half until 16 bits are left. */
  function Fold(s: nat): nat
    decreases s
  {
    if s > 0xFFFF then FoldOnce(s); Fold(Shr(s, 16) + BitAnd(s, 0xFFFF)) else s
  }

  lemma FoldOnce(s: nat)
    ensures Shr(s, 16) + BitAnd(s, 0xFFFF) == s / 0x1_0000 + s % 0x1_0000
    ensures s > 0xFFFF ==> s / 0x1_0000 + s % 0x1_0000 < s
  {
    Pow2Values();
    ShrIsDivision(s, 16);
    AndLowMask(s, 16);
  }

  /** `value` as a function of the sum: the complement of the folded sum, in 16 bits. */
  function Value(sum: uint32): uint16
  {
    (0xFFFF_FFFF - Fold(sum)) % 0x1_0000
  }

  /** Folding keeps the residue modulo 2^16 - 1, and yields zero only for zero. */
  lemma {:induction false} FoldMeaning(s: nat)
    ensures Fold(s) <= 0xFFFF && Fold(s) <= s
    ensures Fold(s) % 0xFFFF == s % 0xFFFF
    ensures Fold(s) == 0 <==> s == 0
    decreases s
  {
    if s > 0xFFFF {
      var h, l := s / 0x1_0000, s % 0x1_0000;
      FoldOnce(s);
      FoldMeaning(h + l);
      ResidueOfHalves(h, l);
    }
  }

  lemma ResidueOfHalves(h: nat, l: nat)
    ensures (h * 0x1_0000 + l) % 0xFFFF == (h + l) % 0xFFFF
  {
    var q, r := (h + l) / 0xFFFF, (h + l) % 0xFFFF;
    DivModUnique(h * 0x1_0000 + l, 0xFFFF, h + q, r);
  }

  lemma ValueMeaning(sum: uint32)
    ensures Value(sum) == 0xFFFF - Fold(sum)
    ensures Value(sum) == 0 <==> sum > 0 && sum % 0xFFFF == 0
  {
    FoldMeaning(sum);
  }

  /** Adding the checksum of a sum to that sum never overflows 32 bits, and gives a sum whose checksum is zero. */
  lemma ChecksumCancels(sum: uint32)
    ensures sum + Value(sum) < 0x1_0000_0000 && Value(sum + Value(sum)) == 0
  {
    hide Fold, Value;
    FoldMeaning(sum);
    ValueMeaning(sum);
    var f := Fold(sum);
    assert (sum - f) % 0xFFFF == 0 by { ResidueDifference(sum, f); }
    var q := (sum - f) / 0xFFFF;
    assert sum + Value(sum) == (q + 1) * 0xFFFF;
    DivModUnique((q + 1) * 0xFFFF, 0xFFFF, q + 1, 0);
    ValueMeaning(sum + Value(sum));
  }

  /** The same for the sum of a byte string of any length, which is kept in 32 bits. */
  lemma ChecksumCompletes(total: nat)
    ensures Value((total + Value(total % 0x1_0000_0000)) % 0x1_0000_0000) == 0
  {
    hide Value;
    ChecksumCancels(total % 0x1_0000_0000);
    AddInWord(total, Value(total % 0x1_0000_0000));
  }

  lemma AddInWord(a: nat, b: nat)
    ensures ((a % 0x1_0000_0000) + b) % 0x1_0000_0000 == (a + b) % 0x1_0000_0000
  {
    var q, r := a / 0x1_0000_0000, a % 0x1_0000_0000;
    var q', r' := (r + b) / 0x1_0000_0000, (r + b) % 0x1_0000_0000;
    DivModUnique(a + b, 0x1_0000_0000, q + q', r');
  }

  lemma ResidueDifference(a: nat, b: nat)
    requires a >= b && a % 0xFFFF == b % 0xFFFF
    ensures (a - b) % 0xFFFF == 0
  {
    DivModUnique(a - b, 0xFFFF, a / 0xFFFF - b / 0xFFFF, 0);
  }

  // ----- the sum of a byte string -----

  /** The sum of the 16-bit big-endian words of `data`, without wrap-around. */
  function WordSum(data: seq<byte>, parity: bool): nat
    decreases |data|
  {
    if data == [] then 0 else (if parity then data[0] else data[0] * 256) + WordSum(data[1..], !parity)
  }

  lemma {:induction false} WordSumAppend(a: seq<byte>, b: seq<byte>, parity: bool)
    ensures WordSum(a + b, parity) == WordSum(a, parity) + WordSum(b, if |a| % 2 == 0 then parity else !parity)
    decreases |a|
  {
    if a == [] {
      assert a + b == b;
    } else {
      WordSumAppend(a[1..], b, !parity);
      assert (a + b)[1..] == a[1..] + b;
    }
  }

  /** The accumulator holds the sum, in 32 bits. */
  lemma {:induction false} AddIsWordSum(c: Checksum, data: seq<byte>)
    ensures Add(c, data).sum == (c.sum + WordSum(data, c.parity)) % 0x1_0000_0000
    decreases |data|
  {
    if data != [] {
      var b: nat := data[0];
      var word := if c.parity then b else b * 256;
      AddIsWordSum(AddByte(c, data[0]), data[1..]);
      AddInWord(c.sum + word, WordSum(data[1..], !c.parity));
    }
  }

  class InternetChecksum {
    var sum: uint32
    var parity: bool

    constructor (initialSum: uint32)
      ensures sum == initialSum && !parity
    {
      sum, parity := initialSum, false;
    }

    ghost function State(): Checksum
      reads this
    {
      Checksum(sum, parity)
    }

    method Append(data: seq<byte>)
      modifies this
      ensures State() == Add(old(State()), data)
    {
      var i := 0;
      while i < |data|
        invariant 0 <= i <= |data|
        invariant Add(State(), data[i..]) == Add(old(State()), data)
      {
        var val: int := data[i];
        var word: uint16 := if !parity then val * 256 else val;
        assert data[i..][1..] == data[i + 1..];
        sum := (sum + word) % 0x1_0000_0000;
        parity := !parity;
        i := i + 1;
      }
    }

    method Result() returns (v: uint16)
      ensures v == Value(sum)
    {
      var ret: nat := sum;
      while ret > 0xFFFF
        invariant ret < 0x1_0000_0000 && Fold(ret) == Fold(sum)
      {
        FoldOnce(ret);
        ret := Shr(ret, 16) + BitAnd(ret, 0xFFFF);
      }
      v := (0xFFFF_FFFF - ret) % 0x1_0000;
    }
  }
}
