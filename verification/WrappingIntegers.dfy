/** 32-bit wrapping sequence numbers (libsponge/wrapping_integers.cc). */
module WrappingIntegers {
  import opened Words

  /** The sequence number that stands for absolute position `n` of a stream with this ISN. */
  function Wrap(n: nat, isn: uint32): (r: uint32)
  {
    (isn + n) % 0x1_0000_0000
  }

  /** `unwrap`, with the source's shifts, ors and modular subtractions.  The checkpoint is a
      64-bit number in the source; every subtraction and shift is reduced modulo 2^64. */
  function Unwrap(n: uint32, isn: uint32, checkpoint: nat): (r: nat)
  {
    var lower := (n - isn) % 0x1_0000_0000;
    var upper := Shr((checkpoint - lower) % 0x1_0000_0000_0000_0000, 32);
    if checkpoint <= lower then
      lower
    else
      Nearer(BitOr(Shl(upper, 32, 64), lower), BitOr(Shl(upper + 1, 32, 64), lower), checkpoint)
  }

  /** The second of two candidates if the checkpoint is at least as far from the first, in 64-bit arithmetic. */
  function Nearer(low: nat, high: nat, checkpoint: nat): nat
  {
    if (checkpoint - low) % 0x1_0000_0000_0000_0000 >= (high - checkpoint) % 0x1_0000_0000_0000_0000
    then high else low
  }

  function Distance(a: int, b: int): nat { if a <= b then b - a else a - b }

  /** `v` wraps to `n`, nothing that does is nearer to `c`, and of two equally near `v` is the larger. */
  ghost predicate IsClosest(v: nat, n: uint32, isn: uint32, c: nat)
  {
    && Wrap(v, isn) == n
    && forall w: nat | Wrap(w, isn) == n ::
         Distance(v, c) <= Distance(w, c) && (Distance(v, c) == Distance(w, c) ==> w <= v)
  }

  /** The positions `v` that `Unwrap` recovers when the checkpoint is `c`. */
  predicate WithinReach(v: nat, c: nat)
  {
    (-0x8000_0000 < v - c <= 0x8000_0000) || c <= v < 0x1_0000_0000
  }

  /** `unwrap` in plain arithmetic: step back from the checkpoint to the last number with these
      low 32 bits, and on to the next one if that is at least half-way, unless it overflows 64 bits. */
  function Nearest(lower: uint32, c: nat): nat
  {
    var past := (c - lower) % 0x1_0000_0000;
    if c <= lower then lower
    else if past < 0x8000_0000 then c - past
    else if c - past < 0xFFFF_FFFF_0000_0000 then c - past + 0x1_0000_0000
    else lower
  }

  /** The shift-and-or form computes this, up to and including the 64-bit overflow. */
  lemma UnwrapArithmetic(n: uint32, isn: uint32, c: nat)
    requires c < 0x1_0000_0000_0000_0000
    ensures Unwrap(n, isn, c) == Nearest((n - isn) % 0x1_0000_0000, c)
  {
    hide BitOr, Shl, Shr, Pow2;
    var lower := (n - isn) % 0x1_0000_0000;
    if lower < c {
      var past := (c - lower) % 0x1_0000_0000;
      var upper := (c - lower) / 0x1_0000_0000;
      assert upper == Shr((c - lower) % 0x1_0000_0000_0000_0000, 32) by { ShrHalf(c - lower); }
      assert BitOr(Shl(upper, 32, 64), lower) == c - past by { JoinHalves(upper, lower); }
      assert BitOr(Shl(upper + 1, 32, 64), lower) ==
             if upper + 1 == 0x1_0000_0000 then lower else c - past + 0x1_0000_0000
      by { JoinHalves(upper + 1, lower); }
      NearerOfNeighbours(c, lower, upper, past);
    }
  }

  lemma NearerOfNeighbours(c: nat, lower: nat, upper: nat, past: nat)
    requires c < 0x1_0000_0000_0000_0000 && lower < 0x1_0000_0000 && past < 0x1_0000_0000
    requires c == upper * 0x1_0000_0000 + lower + past
    ensures upper < 0x1_0000_0000
    ensures Nearer(c - past, if upper + 1 == 0x1_0000_0000 then lower else c - past + 0x1_0000_0000, c) ==
            if past < 0x8000_0000 then c - past
            else if c - past < 0xFFFF_FFFF_0000_0000 then c - past + 0x1_0000_0000
            else lower
  {
  }

  lemma SameResidue(v: nat, n: uint32, isn: uint32)
    ensures Wrap(v, isn) == n <==> v % 0x1_0000_0000 == (n - isn) % 0x1_0000_0000
  {
  }

  lemma NearestBounds(lower: uint32, c: nat)
    requires c - lower < 0x1_0000_0000_0000_0000 - 0x8000_0000
    ensures var v := Nearest(lower, c);
            v % 0x1_0000_0000 == lower && ((v == lower && c <= v) || -0x8000_0000 < v - c <= 0x8000_0000)
  {
  }

  lemma StepsApart(v: nat, w: nat) returns (k: int)
    requires v % 0x1_0000_0000 == w % 0x1_0000_0000
    ensures w == v + k * 0x1_0000_0000
  {
    k := w / 0x1_0000_0000 - v / 0x1_0000_0000;
  }

  lemma NearestIsNearest(lower: uint32, c: nat, w: nat)
    requires c - lower < 0x1_0000_0000_0000_0000 - 0x8000_0000
    requires w % 0x1_0000_0000 == lower
    ensures var v := Nearest(lower, c);
            && v % 0x1_0000_0000 == lower && Distance(v, c) <= Distance(w, c)
            && (Distance(v, c) == Distance(w, c) ==> w <= v)
  {
    hide Nearest;
    NearestBounds(lower, c);
    var k := StepsApart(Nearest(lower, c), w);
  }

  lemma NearestFits(lower: uint32, c: nat)
    requires c < 0x1_0000_0000_0000_0000
    ensures Nearest(lower, c) < 0x1_0000_0000_0000_0000
  {
  }

  lemma NearestOverflows(lower: uint32, c: nat) returns (low: nat)
    requires c < 0x1_0000_0000_0000_0000
    requires c - lower >= 0x1_0000_0000_0000_0000 - 0x8000_0000
    ensures low % 0x1_0000_0000 == lower && Distance(low, c) < Distance(Nearest(lower, c), c)
  {
    low := c - (c - lower) % 0x1_0000_0000;
  }

  /** `unwrap` returns the nearest number exactly when the checkpoint is less than 2^64 - 2^31
      past the offset of `n` from the ISN; beyond that the nearest number does not fit in 64 bits. */
  lemma UnwrapIsClosest(n: uint32, isn: uint32, c: nat)
    requires c < 0x1_0000_0000_0000_0000
    ensures IsClosest(Unwrap(n, isn, c), n, isn, c)
       <==> c - (n - isn) % 0x1_0000_0000 < 0x1_0000_0000_0000_0000 - 0x8000_0000
  {
    hide Unwrap, Nearest;
    var lower := (n - isn) % 0x1_0000_0000;
    UnwrapArithmetic(n, isn, c);
    var v := Nearest(lower, c);
    if c - lower < 0x1_0000_0000_0000_0000 - 0x8000_0000 {
      forall w: nat | Wrap(w, isn) == n
        ensures Distance(v, c) <= Distance(w, c) && (Distance(v, c) == Distance(w, c) ==> w <= v)
      {
        SameResidue(w, n, isn);
        NearestIsNearest(lower, c, w);
      }
      NearestIsNearest(lower, c, lower);
      SameResidue(v, n, isn);
    } else {
      var low := NearestOverflows(lower, c);
      SameResidue(low, n, isn);
    }
  }

  lemma OverflowIsLower(lower: uint32, c: nat)
    requires c < 0x1_0000_0000_0000_0000 && c - lower >= 0x1_0000_0000_0000_0000 - 0x8000_0000
    ensures Nearest(lower, c) == lower
  {
    DivModUnique(c - lower, 0x1_0000_0000, 0xFFFF_FFFF, c - lower - 0xFFFF_FFFF_0000_0000);
  }

  lemma NearestRecovers(v: nat, c: nat)
    requires c < 0x1_0000_0000_0000_0000
    ensures Nearest(v % 0x1_0000_0000, c) == v <==>
            if c - v % 0x1_0000_0000 < 0x1_0000_0000_0000_0000 - 0x8000_0000 then WithinReach(v, c)
            else v < 0x1_0000_0000
  {
    hide Nearest;
    var lower := v % 0x1_0000_0000;
    if c - lower < 0x1_0000_0000_0000_0000 - 0x8000_0000 {
      NearestBounds(lower, c);
      var k := StepsApart(Nearest(lower, c), v);
    } else {
      OverflowIsLower(lower, c);
    }
  }

  /** `unwrap` undoes `wrap` exactly on the positions within reach of the checkpoint; where the nearest number
      overflows, exactly on those below 2^32. */
  lemma UnwrapUndoesWrap(v: nat, isn: uint32, c: nat)
    requires c < 0x1_0000_0000_0000_0000
    ensures Unwrap(Wrap(v, isn), isn, c) == v <==>
            if c - v % 0x1_0000_0000 < 0x1_0000_0000_0000_0000 - 0x8000_0000 then WithinReach(v, c)
            else v < 0x1_0000_0000
  {
    hide Unwrap, Nearest;
    SameResidue(v, Wrap(v, isn), isn);
    UnwrapArithmetic(Wrap(v, isn), isn, c);
    NearestRecovers(v, c);
  }

  /** The same for a checkpoint 2^32 short of overflowing. */
  lemma UnwrapWrap(v: nat, isn: uint32, c: nat)
    requires c <= 0xFFFF_FFFF_0000_0000
    ensures Unwrap(Wrap(v, isn), isn, c) == v <==> WithinReach(v, c)
  {
    hide Unwrap;
    UnwrapUndoesWrap(v, isn, c);
  }

  /** A position 2^31 or more behind the checkpoint is read as a later one. */
  lemma UnwrapBeyondReach(v: nat, isn: uint32, c: nat)
    requires c <= 0xFFFF_FFFF_0000_0000 && v + 0x8000_0000 <= c
    ensures Unwrap(Wrap(v, isn), isn, c) >= v + 0x1_0000_0000
  {
    hide Unwrap, Nearest, Wrap;
    SameResidue(v, Wrap(v, isn), isn);
    UnwrapArithmetic(Wrap(v, isn), isn, c);
    NearestBounds(v % 0x1_0000_0000, c);
    var k := StepsApart(v, Nearest(v % 0x1_0000_0000, c));
  }

  /** A position at or behind the checkpoint is read as the last number with its low 32 bits, or as the next one if that
      is at least half-way. */
  lemma UnwrapOfEarlier(v: nat, isn: uint32, c: nat)
    requires v <= c <= 0xFFFF_FFFF_0000_0000
    ensures var past := (c - v) % 0x1_0000_0000;
            Unwrap(Wrap(v, isn), isn, c) == if past < 0x8000_0000 then c - past else c - past + 0x1_0000_0000
  {
    hide Unwrap, Nearest, Wrap;
    SameResidue(v, Wrap(v, isn), isn);
    UnwrapArithmetic(Wrap(v, isn), isn, c);
    NearestBounds(v % 0x1_0000_0000, c);
    var k := StepsApart(v, Nearest(v % 0x1_0000_0000, c));
    EarlierSteps(v, c, k, Nearest(v % 0x1_0000_0000, c));
  }

  lemma EarlierSteps(v: nat, c: nat, k: int, u: nat)
    requires v <= c && u == v + k * 0x1_0000_0000
    requires (u < 0x1_0000_0000 && c <= u) || -0x8000_0000 < u - c <= 0x8000_0000
    ensures var past := (c - v) % 0x1_0000_0000; u == if past < 0x8000_0000 then c - past else c - past + 0x1_0000_0000
  {
    if u <= c {
      DivModUnique(c - v, 0x1_0000_0000, k, c - u);
    } else {
      DivModUnique(c - v, 0x1_0000_0000, k - 1, c - u + 0x1_0000_0000);
    }
  }

  /** It is never read as an earlier one. */
  lemma UnwrapNotBefore(v: nat, isn: uint32, c: nat)
    requires v <= c <= 0xFFFF_FFFF_0000_0000
    ensures Unwrap(Wrap(v, isn), isn, c) >= v
  {
    hide Unwrap, Wrap;
    if v + 0x8000_0000 <= c {
      UnwrapBeyondReach(v, isn, c);
    } else {
      UnwrapWrap(v, isn, c);
    }
  }
}
