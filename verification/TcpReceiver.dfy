/** The receiving half of a connection (libsponge/tcp_receiver.cc). */
module TcpReceivers {
  import opened Words
  import opened WrappingIntegers
  import opened ByteStreams
  import opened StreamReassemblers
  import opened TcpSegments

  datatype Receiver = Receiver(reassembler: Reassembler, capacity: nat, isSyn: bool, isFin: bool, isn: uint32)
  {
    predicate Ok()
    {
      reassembler.Ok() && reassembler.output.capacity == capacity
    }

    /** Everything that has ever been delivered to the reader's stream. */
    function Output(): seq<byte>
    {
      reassembler.output.history
    }

    function SegmentReceived(seg: TcpSegment): (r: Receiver)
      requires Ok()
      ensures r.Ok()
    {
      var h := seg.header;
      var r := if !isSyn && h.syn then this.(isSyn := true, isn := h.seqno) else this;
      if !r.isSyn then r
      else r.(isFin := isFin || h.fin, reassembler := reassembler.Push(seg.payload, r.StreamIndex(h), h.fin))
    }

    /** Where the payload belongs: the first byte after the SYN has index 0.  The subtraction is
        in 64 bits, so a segment at the ISN itself that is no SYN lands at 2^64 - 1. */
    function StreamIndex(h: TcpHeader): uint64
    {
      (Unwrap((h.seqno + Bit(h.syn)) % 0x1_0000_0000, isn, |Output()|) - 1) % 0x1_0000_0000_0000_0000
    }

    /** The absolute sequence number the receiver asks for next, counting SYN and FIN. */
    function AckPosition(): nat
    {
      Bit(isSyn) + |Output()| + Bit(isFin && reassembler.pending == map[])
    }

    function Ackno(): Option<uint32>
    {
      if isSyn then Some(Wrap(AckPosition(), isn)) else None
    }

    function WindowSize(): nat
      requires Ok()
    {
      reassembler.output.Remaining()
    }

    /** The reader takes bytes from the output stream. */
    function Pop(len: nat): (r: Receiver)
      requires Ok()
      ensures r.Ok()
    {
      this.(reassembler := reassembler.Pop(len))
    }

    function Fail(): (r: Receiver)
      requires Ok()
      ensures r.Ok()
    {
      this.(reassembler := reassembler.(output := reassembler.output.Fail()))
    }
  }

  class TCPReceiver {
    const reassembler: StreamReassembler
    const capacity: nat
    var isSyn: bool
    var isFin: bool
    var isn: uint32

    ghost predicate Valid()
      reads this, reassembler, reassembler.output
    {
      reassembler.Valid() && reassembler.capacity == capacity
    }

    ghost function State(): (r: Receiver)
      requires Valid()
      reads this, reassembler, reassembler.output
      ensures r.Ok()
    {
      Receiver(reassembler.State(), capacity, isSyn, isFin, isn)
    }

    constructor (capacity: nat)
      ensures Valid() && fresh(reassembler) && fresh(reassembler.output)
      ensures State() == Receiver(Reassembler(Stream(capacity, [], 0, false, false), map[], false),
                                  capacity, false, false, 0)
    {
      reassembler := new StreamReassembler(capacity);
      this.capacity := capacity;
      isSyn, isFin, isn := false, false, 0;
    }

    method SegmentReceived(seg: TcpSegment)
      requires Valid() && capacity >= 1
      requires reassembler.output.bytesRead + capacity < 0x1_0000_0000_0000_0000
      modifies this, reassembler, reassembler.output
      ensures Valid()
      ensures State() == old(State()).SegmentReceived(seg)
    {
      hide Unwrap, Reassembler.Push, Reassembler.Ok, Slots;
      var syn, fin, seqno := seg.header.syn, seg.header.fin, seg.header.seqno;
      if !isSyn && syn {
        isSyn := true;
        isn := seqno;
      }
      if !isSyn {
        return;
      }
      if fin {
        isFin := true;
      }
      var streamIndex := (Unwrap((seqno + Bit(syn)) % 0x1_0000_0000, isn, reassembler.output.bytesWritten) - 1)
        % 0x1_0000_0000_0000_0000;
      reassembler.PushSubstring(seg.payload, streamIndex, fin);
    }

    method Ackno() returns (ackno: Option<uint32>)
      requires Valid()
      ensures ackno == State().Ackno()
    {
      if !isSyn {
        return None;
      }
      var absSeqno := Bit(isSyn) + reassembler.output.bytesWritten + Bit(isFin && reassembler.unassembledBytes == 0);
      return Some(Wrap(absSeqno, isn));
    }

    method WindowSize() returns (size: nat)
      requires Valid()
      ensures size == State().WindowSize()
      ensures |State().Output()| + size == reassembler.output.bytesRead + capacity
    {
      size := capacity - |reassembler.output.buffer|;
    }
  }
}
