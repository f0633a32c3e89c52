/** Reassembly of out-of-order substrings (libsponge/stream_reassembler.cc). */
module StreamReassemblers {
  import opened Words
  import opened ByteStreams

  /** What a reassembler means: the output stream, a partial map from stream index to byte for
      what has arrived beyond it, and whether the end of the stream has been announced. */
  datatype Reassembler = Reassembler(output: Stream, pending: map<nat, byte>, eof: bool)
  {
    /** Between two calls everything pending lies strictly beyond the output (its next byte is
        missing) and inside the window of indices the reassembler accepts. */
    predicate Ok()
    {
      output.Ok() && forall p <- pending :: |output.history| < p < Limit()
    }

    /** The first index past the window: what has been read plus the capacity. */
    function Limit(): nat
    {
      output.read + output.capacity
    }

    /** A push: latest write wins inside the window, the longest contiguous run moves to the
        output, and the input ends once the end was announced and nothing is pending. */
    function Push(data: seq<byte>, index: uint64, last: bool): (r: Reassembler)
      requires Ok()
      ensures r.Ok()
      ensures r.output.read == output.read && r.output.capacity == output.capacity && r.output.error == output.error
      ensures output.history <= r.output.history
    {
      PushBounds(pending, data, index, |output.history|, Limit());
      var m := Stored(pending, data, index, |output.history|, Limit());
      var e := RunEnd(m, |output.history|, Limit());
      var eof' := eof || (last && (index + |data|) % 0x1_0000_0000_0000_0000 <= Limit());
      var rest := From(m, e);
      Reassembler(output.(history := output.history + RunBytes(m, |output.history|, e),
                          ended := output.ended || (eof' && rest == map[])),
                  rest, eof')
    }

    /** Reading from the output stream. */
    function Pop(len: nat): (r: Reassembler)
      requires Ok()
      ensures r.Ok()
    {
      this.(output := output.Pop(len))
    }
  }

  /** Does `data`, placed at `index`, hold a byte for position `p`? */
  predicate Covers(data: seq<byte>, index: nat, p: nat) { index <= p < index + |data| }

  /** `m` overwritten by the bytes of `data`, placed at `index`, that fall into `[lo, hi)`. */
  function Stored(m: map<nat, byte>, data: seq<byte>, index: nat, lo: nat, hi: nat): map<nat, byte>
  {
    m + map p: nat | lo <= p < hi && Covers(data, index, p) :: data[p - index]
  }

  /** The first index from `i` on, below `hi`, that `m` does not hold. */
  function RunEnd(m: map<nat, byte>, i: nat, hi: nat): (e: nat)
    requires i <= hi
    ensures i <= e <= hi && (e < hi ==> e !in m)
    ensures forall p :: i <= p < e ==> p in m
    decreases hi - i
  {
    if i < hi && i in m then RunEnd(m, i + 1, hi) else i
  }

  function RunBytes(m: map<nat, byte>, i: nat, e: nat): seq<byte>
    requires i <= e && forall p :: i <= p < e ==> p in m
  {
    seq(e - i, k requires 0 <= k < e - i => m[i + k])
  }

  function From(m: map<nat, byte>, e: nat): map<nat, byte>
  {
    map p | p in m && e <= p :: m[p]
  }

  lemma PushBounds(m: map<nat, byte>, data: seq<byte>, index: nat, lo: nat, hi: nat)
    requires lo <= hi && forall p <- m :: lo < p < hi
    ensures var m' := Stored(m, data, index, lo, hi);
            var e := RunEnd(m', lo, hi);
            |RunBytes(m', lo, e)| == e - lo && forall p <- From(m', e) :: e < p < hi
  {
    hide RunEnd;
    var m' := Stored(m, data, index, lo, hi);
    assert forall p <- m' :: lo <= p < hi;
  }

  predicate Filled(state: seq<bool>, base: nat, p: nat)
  {
    base <= p < base + |state| && state[p - base]
  }

  /** The map that the two deques stand for when slot 0 is stream index `base`. */
  ghost function Slots(state: seq<bool>, buffer: seq<byte>, base: nat): map<nat, byte>
    requires |state| == |buffer|
  {
    map p: nat | base <= p < base + |state| && Filled(state, base, p) :: buffer[p - base]
  }

  lemma SetSlot(state: seq<bool>, buffer: seq<byte>, base: nat, k: nat, b: byte)
    requires |state| == |buffer| && k < |state|
    ensures Slots(state[k := true], buffer[k := b], base) == Slots(state, buffer, base)[base + k := b]
    ensures |Slots(state[k := true], buffer[k := b], base)| ==
            |Slots(state, buffer, base)| + (if state[k] then 0 else 1)
  {
    assert Filled(state, base, base + k) <==> state[k];
    UpdateSize(Slots(state, buffer, base), base + k, b);
  }

  lemma UpdateSize(m: map<nat, byte>, p: nat, b: byte)
    ensures |m[p := b]| == |m| + (if p in m then 0 else 1)
  {
    assert m[p := b].Keys == m.Keys + {p};
  }

  lemma FrontSlot(state: seq<bool>, buffer: seq<byte>, base: nat)
    requires |state| == |buffer| >= 1
    ensures base in Slots(state, buffer, base) <==> state[0]
    ensures state[0] ==> Slots(state, buffer, base)[base] == buffer[0]
    ensures From(Slots(state, buffer, base), base) == Slots(state, buffer, base)
  {
    assert Filled(state, base, base) <==> state[0];
  }

  lemma ShiftSlots(state: seq<bool>, buffer: seq<byte>, base: nat)
    requires |state| == |buffer| >= 1 && state[0]
    ensures Slots(state[1..] + [false], buffer[1..] + [32], base + 1) == From(Slots(state, buffer, base), base + 1)
    ensures |Slots(state[1..] + [false], buffer[1..] + [32], base + 1)| == |Slots(state, buffer, base)| - 1
  {
    var m, m' := Slots(state, buffer, base), Slots(state[1..] + [false], buffer[1..] + [32], base + 1);
    assert m' == From(m, base + 1);
    assert m'.Keys == m.Keys - {base};
  }

  lemma {:induction false} RunEndIs(m: map<nat, byte>, i: nat, hi: nat, e: nat)
    requires i <= e <= hi && (e < hi ==> e !in m)
    requires forall p :: i <= p < e ==> p in m
    ensures RunEnd(m, i, hi) == e
    decreases hi - i
  {
    if i < e {
      RunEndIs(m, i + 1, hi, e);
    }
  }

  lemma StoredBounds(m: map<nat, byte>, data: seq<byte>, index: nat, lo: nat, hi: nat)
    requires forall p <- m :: p < hi
    ensures forall p <- Stored(m, data, index, lo, hi) :: p < hi
    ensures Stored(m, [], index, lo, hi) == m
  {
  }

  lemma StoredNext(m: map<nat, byte>, data: seq<byte>, i: nat, index: nat, lo: nat, hi: nat)
    requires i < |data| && lo <= hi
    ensures Stored(m, data[..i + 1], index, lo, hi) ==
            if lo <= index + i < hi then Stored(m, data[..i], index, lo, hi)[index + i := data[i]]
            else Stored(m, data[..i], index, lo, hi)
  {
  }

  lemma StoredPastLimit(m: map<nat, byte>, data: seq<byte>, i: nat, index: nat, lo: nat, hi: nat)
    requires i <= |data| && hi <= index + i
    ensures Stored(m, data[..i], index, lo, hi) == Stored(m, data, index, lo, hi)
  {
  }

  /** What taking one more byte off the front does to the run taken so far and to the rest. */
  lemma TakeNext(m: map<nat, byte>, lo: nat, e: nat)
    requires lo <= e && forall p :: lo <= p < e ==> p in m
    ensures RunBytes(m, lo, lo) == []
    ensures e in From(m, e) <==> e in m
    ensures e in m ==> From(m, e)[e] == m[e]
    ensures e in m ==> RunBytes(m, lo, e + 1) == RunBytes(m, lo, e) + [m[e]]
    ensures From(From(m, e), e + 1) == From(m, e + 1)
    ensures forall p <- From(m, e) :: p in m
  {
  }

  class StreamReassembler {
    const output: ByteStream
    const capacity: nat
    var unassembledBytes: nat
    var eof: bool
    var buffer: seq<byte>
    var state: seq<bool>

    /** The slots agree with the counter and lie in the window. */
    ghost predicate SlotsValid()
      reads this, output
    {
      && output.Valid() && output.capacity == capacity
      && |buffer| == |state| == capacity
      && (forall p <- Slots(state, buffer, output.bytesWritten) :: p < output.bytesWritten + output.RemainingCapacity())
      && unassembledBytes == |Slots(state, buffer, output.bytesWritten)|
    }

    /** Between two calls the first slot is clear as well. */
    ghost predicate Valid()
      reads this, output
    {
      SlotsValid() && (capacity >= 1 ==> !state[0])
    }

    ghost function State(): (r: Reassembler)
      requires Valid()
      reads this, output
      ensures r.Ok()
    {
      Reassembler(output.State(), Slots(state, buffer, output.bytesWritten), eof)
    }

    constructor (capacity: nat)
      ensures Valid() && this.capacity == capacity && fresh(output)
      ensures State() == Reassembler(Stream(capacity, [], 0, false, false), map[], false)
    {
      output := new ByteStream(capacity);
      this.capacity := capacity;
      unassembledBytes, eof := 0, false;
      buffer, state := seq(capacity, _ => 32), seq(capacity, _ => false);
      new;
      assert Slots(state, buffer, 0) == map[];
    }

    /** The source looks at the first slot, so there must be one. */
    method PushSubstring(data: seq<byte>, index: uint64, last: bool)
      requires Valid() && capacity >= 1
      requires output.bytesRead + capacity < 0x1_0000_0000_0000_0000
      modifies this, output
      ensures Valid()
      ensures State() == old(State()).Push(data, index, last)
    {
      hide Stored, Slots, RunBytes, RunEnd, From, Stream.Ok;
      if (index + |data|) % 0x1_0000_0000_0000_0000 <= output.bytesRead + capacity && last {
        eof := true;
      }
      StoreBytes(data, index);
      var ret := TakeRun();
      Deliver(ret);
    }

    /** The rest of `push_substring`: write the run out, and end the stream if nothing is left. */
    method Deliver(ret: seq<byte>)
      requires output.Valid() && output.capacity == capacity == |buffer| == |state| && capacity >= 1 && !state[0]
      requires |ret| <= output.RemainingCapacity()
      requires var rest := Slots(state, buffer, output.bytesWritten + |ret|);
               (forall p <- rest :: p < output.bytesRead + capacity) && unassembledBytes == |rest| + |ret|
      modifies this`unassembledBytes, output
      ensures Valid() && unchanged(this`buffer, this`state)
      ensures var s, rest := old(output.State()), old(Slots(state, buffer, output.bytesWritten + |ret|));
              State() == Reassembler(s.(history := s.history + ret, ended := s.ended || (eof && rest == map[])),
                                     rest, eof)
    {
      hide Slots;
      assert ret[..|ret|] == ret;
      var _ := output.Write(ret);
      unassembledBytes := unassembledBytes - |ret|;
      if eof && unassembledBytes == 0 {
        output.EndInput();
      }
    }

    /** The first loop of `push_substring`: overwrite the slots inside the window. */
    method StoreBytes(data: seq<byte>, index: uint64)
      requires SlotsValid()
      requires output.bytesRead + capacity < 0x1_0000_0000_0000_0000
      modifies this`unassembledBytes, this`buffer, this`state
      ensures SlotsValid()
      ensures Slots(state, buffer, output.bytesWritten) ==
              Stored(old(Slots(state, buffer, output.bytesWritten)), data, index, output.bytesWritten,
                     output.bytesRead + capacity)
    {
      hide Stored, Slots;
      var lo, room := output.bytesWritten, output.RemainingCapacity();
      ghost var hi := lo + room;
      ghost var m0 := Slots(state, buffer, lo);
      StoredBounds(m0, data, index, lo, hi);
      var i := 0;
      while i < |data|
        invariant 0 <= i <= |data| && (i > 0 ==> index + i <= hi)
        invariant |buffer| == |state| == capacity
        invariant Slots(state, buffer, lo) == Stored(m0, data[..i], index, lo, hi)
        invariant unassembledBytes == |Slots(state, buffer, lo)|
      {
        var position := (i + index) % 0x1_0000_0000_0000_0000;
        StoredNext(m0, data, i, index, lo, hi);
        if position >= lo {
          var k := position - lo;
          if k >= room {
            StoredPastLimit(m0, data, i, index, lo, hi);
            return;
          }
          SetSlot(state, buffer, lo, k, data[i]);
          assert state[k] ==> state[k := true] == state;
          if !state[k] {
            state := state[k := true];
            unassembledBytes := unassembledBytes + 1;
          }
          buffer := buffer[k := data[i]];
        }
        i := i + 1;
      }
      assert data[..|data|] == data;
    }

    /** The second loop: pop the run of filled slots at the front. */
    method TakeRun() returns (ret: seq<byte>)
      requires SlotsValid() && capacity >= 1
      modifies this`buffer, this`state
      ensures |buffer| == |state| == capacity && !state[0]
      ensures var m := old(Slots(state, buffer, output.bytesWritten));
              var e := RunEnd(m, output.bytesWritten, output.bytesRead + capacity);
              && ret == RunBytes(m, output.bytesWritten, e) && output.bytesWritten + |ret| == e
              && (forall p <- Slots(state, buffer, e) :: p < output.bytesRead + capacity)
              && Slots(state, buffer, e) == From(m, e)
              && |Slots(state, buffer, e)| + |ret| == |m|
    {
      hide Slots, RunBytes, RunEnd, From;
      var room := output.RemainingCapacity();
      ghost var lo, hi := output.bytesWritten, output.bytesRead + capacity;
      ghost var m := Slots(state, buffer, lo);
      ret := [];
      FrontSlot(state, buffer, lo);
      TakeNext(m, lo, lo);
      while state[0] && |ret| < room
        invariant |buffer| == |state| == capacity && |ret| <= room
        invariant forall p :: lo <= p < lo + |ret| ==> p in m
        invariant ret == RunBytes(m, lo, lo + |ret|)
        invariant Slots(state, buffer, lo + |ret|) == From(m, lo + |ret|)
        invariant |Slots(state, buffer, lo + |ret|)| + |ret| == |m|
      {
        FrontSlot(state, buffer, lo + |ret|);
        ShiftSlots(state, buffer, lo + |ret|);
        TakeNext(m, lo, lo + |ret|);
        ret := ret + [buffer[0]];
        buffer := buffer[1..] + [32];
        state := state[1..] + [false];
      }
      FrontSlot(state, buffer, lo + |ret|);
      TakeNext(m, lo, lo + |ret|);
      RunEndIs(m, lo, hi, lo + |ret|);
    }
  }
}
