/** The bounded in-memory byte stream (libsponge/byte_stream.cc). */
module ByteStreams {
  import opened Words

  /** What a stream means: everything ever written to it, and how much of that has been read.
      The buffer and both counters of the source are functions of these two. */
  datatype Stream = Stream(capacity: nat, history: seq<byte>, read: nat, ended: bool, error: bool)
  {
    predicate Ok()
    {
      read <= |history| && |history| - read <= capacity
    }

    function Buffer(): seq<byte>
      requires Ok()
    {
      history[read..]
    }

    function Remaining(): nat
      requires Ok()
    {
      capacity - (|history| - read)
    }

    predicate Eof()
      requires Ok()
    {
      Buffer() == [] && ended
    }

    function Write(data: seq<byte>): (r: Stream)
      requires Ok()
      ensures r.Ok()
    {
      this.(history := history + data[..Min(|data|, Remaining())])
    }

    function Pop(len: nat): (r: Stream)
      requires Ok()
      ensures r.Ok()
    {
      this.(read := read + Min(len, |history| - read))
    }

    function End(): Stream { this.(ended := true) }

    function Fail(): Stream { this.(error := true) }
  }

  class ByteStream {
    const capacity: nat
    var bytesWritten: nat
    var bytesRead: nat
    var inputEnded: bool
    var buffer: seq<byte>
    var error: bool
    ghost var history: seq<byte>

    ghost predicate Valid()
      reads this
    {
      && |history| == bytesWritten
      && bytesRead <= bytesWritten
      && buffer == history[bytesRead..]
      && |buffer| <= capacity
    }

    ghost function State(): (s: Stream)
      requires Valid()
      reads this
      ensures s.Ok() && s.Buffer() == buffer && s.Remaining() == RemainingCapacity()
    {
      Stream(capacity, history, bytesRead, inputEnded, error)
    }

    constructor (capacity: nat)
      ensures Valid() && this.capacity == capacity
      ensures State() == Stream(capacity, [], 0, false, false)
    {
      this.capacity := capacity;
      bytesWritten, bytesRead, inputEnded, buffer, error := 0, 0, false, [], false;
      history := [];
    }

    function RemainingCapacity(): nat
      requires Valid()
      reads this
    {
      capacity - |buffer|
    }

    method Write(data: seq<byte>) returns (size: nat)
      requires Valid()
      modifies this
      ensures Valid()
      ensures State() == old(State()).Write(data)
      ensures size == bytesWritten - old(bytesWritten)
    {
      size := if |data| > RemainingCapacity() then RemainingCapacity() else |data|;
      buffer := buffer + data[..size];
      bytesWritten := bytesWritten + size;
      history := history + data[..size];
    }

    method PeekOutput(len: nat) returns (data: seq<byte>)
      requires Valid()
      ensures data == State().Buffer()[..Min(len, |State().Buffer()|)]
    {
      data := buffer[..if len > |buffer| then |buffer| else len];
    }

    method PopOutput(len: nat)
      requires Valid()
      modifies this
      ensures Valid()
      ensures State() == old(State()).Pop(len)
    {
      var size := if len > |buffer| then |buffer| else len;
      buffer := buffer[size..];
      bytesRead := bytesRead + size;
    }

    method Read(len: nat) returns (data: seq<byte>)
      requires Valid()
      modifies this
      ensures Valid()
      ensures State() == old(State()).Pop(len)
      ensures data == old(buffer)[..Min(len, |old(buffer)|)] == history[old(bytesRead)..bytesRead]
    {
      data := PeekOutput(len);
      PopOutput(len);
    }

    method EndInput()
      requires Valid()
      modifies this
      ensures Valid()
      ensures State() == old(State()).End()
    {
      inputEnded := true;
    }

    method SetError()
      requires Valid()
      modifies this
      ensures Valid()
      ensures State() == old(State()).Fail()
    {
      error := true;
    }
  }
}
