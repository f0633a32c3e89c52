/** Fixed-width machine words, and the bitwise operators of the source on them.

    The source works on unsigned 8-, 16-, 32- and 64-bit integers.  A word is an
    integer in the right range, and wherever the source can wrap around or
    truncate, the model writes the `%` out.  `&`, `|` and `<<` are defined bit by
    bit, so that the lemmas below are what ties a shift-and-mask expression to
    ordinary arithmetic.
 */
module Words {

  type byte = x: int | 0 <= x < 0x100
  type uint16 = x: int | 0 <= x < 0x1_0000
  type uint32 = x: int | 0 <= x < 0x1_0000_0000
  type uint64 = x: int | 0 <= x < 0x1_0000_0000_0000_0000

  datatype Option<+T> = None | Some(value: T)

  function Min(a: int, b: int): int { if a <= b then a else b }

  function Max(a: int, b: int): int { if a >= b then a else b }

  /** One if the flag is set, as a C++ `bool` is when it takes part in a sum. */
  function Bit(b: bool): (r: nat)
    ensures r <= 1
  {
    if b then 1 else 0
  }

  function Pow2(k: nat): (r: nat)
    ensures r >= 1
  {
    if k == 0 then 1 else 2 * Pow2(k - 1)
  }

  function BitAnd(a: nat, b: nat): nat
    decreases a
  {
    if a == 0 || b == 0 then 0 else (a % 2) * (b % 2) + 2 * BitAnd(a / 2, b / 2)
  }

  function BitOr(a: nat, b: nat): nat
    decreases a
  {
    if a == 0 then b else if b == 0 then a else Max(a % 2, b % 2) + 2 * BitOr(a / 2, b / 2)
  }

  /** `a << k` on a word of `width` bits. */
  function Shl(a: nat, k: nat, width: nat): nat
  {
    ModBounds(a * Pow2(k), Pow2(width));
    (a * Pow2(k)) % Pow2(width)
  }

  lemma ModBounds(x: int, d: int)
    requires d > 0
    ensures 0 <= x % d < d
  {
  }

  /** `a >> k` */
  function Shr(a: nat, k: nat): nat
  {
    if k == 0 then a else Shr(a / 2, k - 1)
  }

  lemma Pow2Small()
    ensures Pow2(4) == 16 && Pow2(5) == 32
  {
    assert Pow2(2) == 4;
  }

  lemma Pow2Values()
    ensures Pow2(4) == 0x10 && Pow2(8) == 0x100 && Pow2(13) == 0x2000 && Pow2(16) == 0x1_0000
    ensures Pow2(24) == 0x100_0000 && Pow2(32) == 0x1_0000_0000
    ensures Pow2(64) == 0x1_0000_0000_0000_0000
  {
    hide Pow2;
    Pow2Small();
    Pow2Add(4, 4);
    Pow2Add(8, 5);
    Pow2Add(8, 8);
    Pow2Add(16, 8);
    Pow2Add(16, 16);
    Pow2Add(32, 32);
  }

  lemma {:induction false} Pow2Add(a: nat, b: nat)
    ensures Pow2(a + b) == Pow2(a) * Pow2(b)
  {
    if a != 0 {
      Pow2Add(a - 1, b);
      assert Pow2(a + b) == 2 * Pow2(a - 1 + b);
      DoubleProduct(Pow2(a - 1), Pow2(b));
    }
  }

  lemma DoubleProduct(x: int, y: int)
    ensures 2 * (x * y) == (2 * x) * y
  {
  }

  /** Or-ing a low part into a value whose low bits are clear is addition. */
  lemma {:induction false} OrOfDisjointIsSum(x: nat, h: nat, l: nat, k: nat)
    requires l < Pow2(k) && x == h * Pow2(k)
    ensures BitOr(x, l) == x + l
  {
    if k != 0 {
      var x' := h * Pow2(k - 1);
      MulDouble(h, Pow2(k - 1));
      OrOfDisjointIsSum(x', h, l / 2, k - 1);
      OrEven(x', l);
    }
  }

  lemma MulDouble(h: int, p: int)
    ensures h * (2 * p) == 2 * (h * p)
  {
  }

  lemma OrEven(x: nat, l: nat)
    ensures BitOr(2 * x, l) == l % 2 + 2 * BitOr(x, l / 2)
  {
    assert (2 * x) / 2 == x && (2 * x) % 2 == 0;
  }

  /** The two halves of a 64-bit word: `(h << 32) | l`, where `h` may have overflowed to 2^32. */
  lemma JoinHalves(h: nat, l: uint32)
    requires h <= 0x1_0000_0000
    ensures BitOr(Shl(h, 32, 64), l) == if h == 0x1_0000_0000 then l else h * 0x1_0000_0000 + l
  {
    ShlHalf(h);
    if h < 0x1_0000_0000 {
      OrHalves(h * 0x1_0000_0000, h, l);
    }
  }

  lemma ShlHalf(h: nat)
    requires h <= 0x1_0000_0000
    ensures Shl(h, 32, 64) == if h == 0x1_0000_0000 then 0 else h * 0x1_0000_0000
  {
    hide Pow2;
    Pow2Values();
  }

  lemma ShlNibble(v: nat)
    requires v <= 15
    ensures Shl(v, 4, 8) == v * 16
  {
    hide Pow2;
    Pow2Values();
  }

  lemma OrHalves(x: nat, h: nat, l: uint32)
    requires x == h * 0x1_0000_0000
    ensures BitOr(x, l) == x + l
  {
    Pow2Values();
    OrOfDisjointIsSum(x, h, l, 32);
  }

  lemma {:induction false} ShrIsDivision(x: nat, k: nat)
    ensures Shr(x, k) == x / Pow2(k)
  {
    if k != 0 {
      ShrIsDivision(x / 2, k - 1);
      DivDouble(x, Pow2(k - 1));
    }
  }

  lemma ShrHalf(x: nat)
    ensures Shr(x, 32) == x / 0x1_0000_0000
  {
    hide Pow2;
    Pow2Values();
    ShrIsDivision(x, 32);
  }

  lemma AndOdd(x: nat, m: nat)
    ensures BitAnd(x, 2 * m + 1) == x % 2 + 2 * BitAnd(x / 2, m)
  {
    assert (2 * m + 1) / 2 == m && (2 * m + 1) % 2 == 1;
  }

  lemma AndEven(x: nat, m: nat)
    ensures BitAnd(x, 2 * m) == 2 * BitAnd(x / 2, m)
  {
    assert (2 * m) / 2 == m && (2 * m) % 2 == 0;
  }

  lemma AndZero(x: nat)
    ensures BitAnd(x, 0) == 0
  {
  }

  /** And-ing with the `k` low bits set is the remainder. */
  lemma {:induction false} AndLowMask(x: nat, k: nat)
    ensures BitAnd(x, Pow2(k) - 1) == x % Pow2(k)
  {
    hide BitAnd;
    if k == 0 {
      AndZero(x);
      DivModUnique(x, 1, x, 0);
    } else {
      var p := Pow2(k - 1);
      AndLowMask(x / 2, k - 1);
      AndOdd(x, p - 1);
      ModDouble(x, p);
    }
  }

  lemma ModDouble(x: nat, p: nat)
    requires p >= 1
    ensures x % (2 * p) == x % 2 + 2 * ((x / 2) % p)
  {
    var q, r := (x / 2) / p, (x / 2) % p;
    assert x == 2 * (q * p + r) + x % 2;
    assert x == q * (2 * p) + (2 * r + x % 2);
    DivModUnique(x, 2 * p, q, 2 * r + x % 2);
  }

  lemma DivModUnique(x: int, d: int, q: int, r: int)
    requires d > 0 && 0 <= r < d && x == q * d + r
    ensures x / d == q && x % d == r
  {
    var q', r' := x / d, x % d;
    assert x == q' * d + r';
    assert (q - q') * d == r' - r;
    if q > q' {
      assert (q - q') * d >= d by { MulGe(q - q', d); }
    } else if q < q' {
      assert (q' - q) * d == -((q - q') * d);
      MulGe(q' - q, d);
    }
  }

  lemma MulGe(a: int, d: int)
    requires a >= 1 && d >= 0
    ensures a * d >= d
  {
  }

  lemma AndHighStep(x: nat, q: nat, p: nat)
    requires 1 <= p <= q && BitAnd(x / 2, q - p) == x / 2 - (x / 2) % p
    ensures BitAnd(x, 2 * q - 2 * p) == x - x % (2 * p)
  {
    hide BitAnd;
    AndEven(x, q - p);
    ModDouble(x, p);
  }

  /** And-ing an `n`-bit word with its high bits set from `k` up clears the `k` low bits. */
  lemma {:induction false} AndHighMask(x: nat, n: nat, k: nat)
    requires k <= n && x < Pow2(n)
    ensures Pow2(k) <= Pow2(n)
    ensures BitAnd(x, Pow2(n) - Pow2(k)) == x - x % Pow2(k)
    decreases k
  {
    hide BitAnd;
    Pow2Mono(k, n);
    if k == 0 {
      AndLowMask(x, n);
      DivModUnique(x, Pow2(n), 0, x);
    } else {
      AndHighMask(x / 2, n - 1, k - 1);
      AndHighStep(x, Pow2(n - 1), Pow2(k - 1));
    }
  }

  lemma {:induction false} Pow2Mono(k: nat, n: nat)
    requires k <= n
    ensures Pow2(k) <= Pow2(n)
    decreases n
  {
    if k < n {
      Pow2Mono(k, n - 1);
    }
  }

  /** Testing a single bit. */
  lemma {:induction false} AndSingleBit(x: nat, k: nat)
    ensures BitAnd(x, Pow2(k)) != 0 <==> (x / Pow2(k)) % 2 == 1
  {
    hide BitAnd;
    if k == 0 {
      AndOdd(x, 0);
      AndZero(x / 2);
      DivModUnique(x, 1, x, 0);
    } else {
      var p := Pow2(k - 1);
      AndSingleBit(x / 2, k - 1);
      AndEven(x, p);
      DivDouble(x, p);
    }
  }

  lemma DivDouble(x: nat, p: nat)
    requires p >= 1
    ensures x / (2 * p) == (x / 2) / p
  {
    var q, r := (x / 2) / p, (x / 2) % p;
    assert x == 2 * (q * p + r) + x % 2;
    assert x == q * (2 * p) + (2 * r + x % 2);
    DivModUnique(x, 2 * p, q, 2 * r + x % 2);
  }

  lemma SeqAssoc<T>(a: seq<T>, b: seq<T>, c: seq<T>)
    ensures a + (b + c) == (a + b) + c
  {
  }

  /** What is before and behind an element that is replaced. */
  lemma UpdateAt<T>(w: seq<T>, k: nat, x: T)
    requires k < |w|
    ensures w[k := x][..k + 1] == w[..k] + [x] && w[k := x][k + 1..] == w[k + 1..]
  {
  }

  /** What is before and behind an element that is removed. */
  lemma RemoveAt<T>(w: seq<T>, k: nat)
    requires k < |w|
    ensures (w[..k] + w[k + 1..])[..k] == w[..k] && (w[..k] + w[k + 1..])[k..] == w[k + 1..]
    ensures w[k..][0] == w[k] && w[k..][1..] == w[k + 1..] && w[..k + 1] == w[..k] + [w[k]]
  {
  }
}
