/** Runs of a byte stream: any interleaving of writes and reads. */
module StreamRuns {
  import opened Words
  import opened ByteStreams

  datatype Op = Put(data: seq<byte>) | Get(len: nat)

  function Apply(s: Stream, op: Op): (s': Stream)
    requires s.Ok()
    ensures s'.Ok()
  {
    match op
    case Put(data) => s.Write(data)
    case Get(len) => s.Pop(len)
  }

  function ApplyAll(s: Stream, ops: seq<Op>): (s': Stream)
    requires s.Ok()
    ensures s'.Ok()
    decreases |ops|
  {
    if ops == [] then s else Apply(ApplyAll(s, ops[..|ops| - 1]), ops[|ops| - 1])
  }

  /** Of everything offered, what fitted when it was offered: the capacity less what was written and not yet read. */
  function Accepted(s: Stream, ops: seq<Op>): seq<byte>
    requires s.Ok()
    decreases |ops|
  {
    if ops == [] then [] else
      var before, op := ops[..|ops| - 1], ops[|ops| - 1];
      Accepted(s, before) + match op
        case Put(data) => var t := ApplyAll(s, before); data[..Min(|data|, t.capacity - (|t.history| - t.read))]
        case Get(_) => []
  }

  /** What the reads returned, one after the other: each the front of the buffer at its time. */
  function Returned(s: Stream, ops: seq<Op>): seq<byte>
    requires s.Ok()
    decreases |ops|
  {
    if ops == [] then [] else
      var before, op := ops[..|ops| - 1], ops[|ops| - 1];
      Returned(s, before) + match op
        case Put(_) => []
        case Get(len) => var b := ApplyAll(s, before).Buffer(); b[..Min(len, |b|)]
  }

  lemma PutAppends(t: Stream, data: seq<byte>, returned: seq<byte>)
    requires t.Ok()
    ensures returned + t.Write(data).Buffer() == (returned + t.Buffer()) +
                                                         data[..Min(|data|, t.capacity - (|t.history| - t.read))]
  {
    var got := data[..Min(|data|, t.capacity - (|t.history| - t.read))];
    assert t.Write(data).Buffer() == t.Buffer() + got;
  }

  lemma GetMoves(t: Stream, len: nat, returned: seq<byte>)
    requires t.Ok()
    ensures var b := t.Buffer(); (returned + b[..Min(len, |b|)]) + t.Pop(len).Buffer() == returned + b
  {
    var b := t.Buffer();
    assert t.Pop(len).Buffer() == b[Min(len, |b|)..];
  }

  /** Nothing is lost, duplicated or reordered: over any interleaving of writes and reads, what the reads returned
      followed by what is still buffered is what was buffered followed by what the writes accepted. */
  lemma {:induction false} ReadsFollowWrites(s: Stream, ops: seq<Op>)
    requires s.Ok()
    ensures Returned(s, ops) + ApplyAll(s, ops).Buffer() == s.Buffer() + Accepted(s, ops)
    decreases |ops|
  {
    hide Stream.Write, Stream.Pop, Stream.Buffer;
    if ops != [] {
      var before, op := ops[..|ops| - 1], ops[|ops| - 1];
      ReadsFollowWrites(s, before);
      match op
      case Put(data) =>
        PutAppends(ApplyAll(s, before), data, Returned(s, before));
        assert Returned(s, ops) == Returned(s, before);
        var t := ApplyAll(s, before);
        var got := data[..Min(|data|, t.capacity - (|t.history| - t.read))];
        assert (s.Buffer() + Accepted(s, before)) + got == s.Buffer() + (Accepted(s, before) + got);
      case Get(len) => GetMoves(ApplyAll(s, before), len, Returned(s, before));
    }
  }
}
