/** What the window that a receiver advertises means for the stream. */
module ReceiverFacts {
  import opened Words
  import opened StreamReassemblers
  import opened ReassemblerFacts
  import opened TcpSegments
  import opened TcpReceivers

  /** The window reaches from the end of the output to the capacity beyond what was read. */
  lemma WindowReaches(r: Receiver)
    requires r.Ok()
    ensures |r.Output()| + r.WindowSize() == r.reassembler.output.read + r.reassembler.output.capacity
  {
  }

  /** The window is exact: of a push at or beyond the end of the output, the byte for index `p` is stored if and only if
      `p` is inside the window; beyond it no byte is ever known. */
  lemma StoredIffInWindow(r: Receiver, data: seq<byte>, index: uint64, last: bool, p: nat)
    requires r.Ok() && |r.Output()| <= p && index <= p < index + |data|
    ensures At(r.reassembler.Push(data, index, last), p) ==
            if p < |r.Output()| + r.WindowSize() then Some(data[p - index]) else None
  {
    hide Reassembler.Push;
    WindowReaches(r);
    PushIsLatestWrite(r.reassembler, data, index, last, p);
  }

  /** Reading makes room for as many bytes as were read, and changes nothing else. */
  lemma ReadingOpensWindow(r: Receiver, len: nat)
    requires r.Ok()
    ensures var r' := r.Pop(len);
            && r'.WindowSize() == Min(r.WindowSize() + len, r.capacity)
            && r' == r.(reassembler := r.reassembler.(output := r'.reassembler.output))
            && r'.Output() == r.Output() && r'.reassembler.output.ended == r.reassembler.output.ended
  {
  }

  // ----- runs of a receiver -----

  /** Whatever a receiver goes through: any segment may arrive, and the application may read. */
  datatype Input = Arrives(seg: TcpSegment) | Reads(len: nat)

  function Take(r: Receiver, x: Input): (r': Receiver)
    requires r.Ok()
    ensures r'.Ok()
  {
    match x
    case Arrives(seg) => r.SegmentReceived(seg)
    case Reads(len) => r.Pop(len)
  }

  function TakeAll(r: Receiver, xs: seq<Input>): (r': Receiver)
    requires r.Ok()
    ensures r'.Ok()
    decreases |xs|
  {
    if xs == [] then r else Take(TakeAll(r, xs[..|xs| - 1]), xs[|xs| - 1])
  }

  /** The header of the first SYN that arrived. */
  function FirstSyn(xs: seq<Input>): Option<TcpHeader>
    decreases |xs|
  {
    if xs == [] then None
    else
      var earlier, x := FirstSyn(xs[..|xs| - 1]), xs[|xs| - 1];
      if earlier.None? && x.Arrives? && x.seg.header.syn then Some(x.seg.header) else earlier
  }

  /** A FIN arrived with or after the first SYN. */
  predicate FinCame(xs: seq<Input>)
    decreases |xs|
  {
    xs != [] &&
    var x := xs[|xs| - 1];
    FinCame(xs[..|xs| - 1]) || (FirstSyn(xs).Some? && x.Arrives? && x.seg.header.fin)
  }

  lemma TakeFlags(r: Receiver, x: Input)
    requires r.Ok()
    ensures var r' := Take(r, x);
            && r'.isSyn == (r.isSyn || (x.Arrives? && x.seg.header.syn))
            && r'.isFin == (r.isFin || (r'.isSyn && x.Arrives? && x.seg.header.fin))
            && r'.isn == (if !r.isSyn && x.Arrives? && x.seg.header.syn then x.seg.header.seqno else r.isn)
            && (!r'.isSyn && r.Output() == [] && r.reassembler.output.read == 0 ==> r' == r)
  {
    hide Reassembler.Push, Receiver.StreamIndex;
  }

  /** The first SYN counts.  Whatever arrives, in whatever order: the connection is open if and only if a SYN arrived,
      the initial sequence number is that of the first SYN and never changes, a FIN is noted if and only if one came
      with or after it, and before it nothing changes at all. */
  lemma {:induction false} FirstSynCounts(r: Receiver, xs: seq<Input>)
    requires r.Ok() && !r.isSyn && !r.isFin && r.Output() == [] && r.reassembler.output.read == 0
    ensures var r', syn := TakeAll(r, xs), FirstSyn(xs);
            && r'.isSyn == syn.Some? && r'.isFin == FinCame(xs)
            && (if syn.Some? then r'.isn == syn.value.seqno else r' == r)
    decreases |xs|
  {
    hide Take;
    if xs != [] {
      FirstSynCounts(r, xs[..|xs| - 1]);
      TakeFlags(TakeAll(r, xs[..|xs| - 1]), xs[|xs| - 1]);
    }
  }
}
