# A verified model of libsponge

libsponge is a user-space TCP/IP stack. This project models its four layers and proves what they promise:

- **Reliable byte transport**: `TCPSender`, `TCPReceiver`, `StreamReassembler`, `ByteStream`, and the 32-bit
  sequence numbers between them.
- **The connection**: `TCPConnection`, its lingering and abort rules, and the state summaries of `TCPState`.
- **The network**: `NetworkInterface` with its ARP tables and timers, and `Router`.
- **The wire**: the Internet checksum, `NetParser`, and TCP segments inside IPv4 datagrams.

## How it is organised

Each stateful component appears twice. A `datatype` with pure operations says what it does (`Stream`, `Reassembler`,
`Receiver`, `Sender`, `Connection`, `Interface`, `RouterState`, `Adapter`, `Parser`, `Checksum`). A `class` with the
source's fields, loops and queues is proved to do exactly that: its methods ensure
`State() == old(State()).Operation(...)`. What an operation means is stated beside it in terms of fields and of
independent definitions. Whole-run theorems are lemmas about the value level, over arbitrary sequences of
operations.

| files | content |
|---|---|
| `Words`, `WrappingIntegers` | machine words, bit operations as arithmetic, `wrap` and `unwrap` |
| `ByteStream`, `StreamRuns`, `StreamReassembler`, `ReassemblerFacts` | bounded stream and its runs; deques against a partial map; exact end of stream |
| `TcpSegment`, `TcpReceiver`, `ReceiverFacts`, `TcpSender`, `SenderFacts`, `SenderRuns`, `SenderTimers`, `SenderProgress` | the two halves of a connection; runs of a sender and of its timer |
| `TcpConnection`, `TcpState`, `ConnectionRuns`, `ConnectionRules`, `ConnectionFacts`, `ConnectionHistory`, `ConnectionOutput` | the connection and its rules; runs of calls |
| `Transport`, `TransportSafety`, `TransportAcks`, `TransportFlow` | one direction over an unreliable network |
| `Duplex` | two full connections over an unreliable network |
| `Ipv4Datagram`, `NetworkInterface`, `ArpRuns`, `ArpTimers`, `Router` | the network layer; runs of an interface |
| `InternetChecksum`, `NetParser`, `TcpWire`, `Ipv4Wire`, `WireLayout`, `TcpOverIp` | the wire formats: round trips, layouts, and what is accepted |

In `Transport`, the network remembers every segment and every acknowledgment ever sent; a move may deliver any of them, any
number of times, in any order, or never. `Duplex` puts two `Connection`s on such a wire, where every segment carries data one
way and an acknowledgment the other, and shows that together they are two such one-way systems.

## Where code and documentation differ

The hypotheses of the run theorems exclude inputs on which the code does not do what it documents. A lemma shows each failure.

- **Stale numbers.** `unwrap` is documented to return the closest number. It does, unless that number does not fit in 64 bits
  (`UnwrapIsClosest`, `UnwrapUndoesWrap`). A delivered segment is *not stale* if its number is read right, or if where it is read
  to be there is nothing to store: beyond the window or behind the output. A segment from 2^32 numbers ago is taken for the one
  due now, and then the output is no longer what was written (`StaleIsMisread`, `StaleBreaksSafety`). A delivered acknowledgment
  is *not stale* if it is read right, or as a number beyond everything sent (and ignored), or as nothing new (`AckIsRead`).
  Any other makes the sender believe more than it says, by 2^32 or more (`StaleAckIsBelieved`). Absolute numbers are also kept 2^32 short
  of overflowing 64 bits where something is unwrapped near the top, which is a margin.
- **Numbers in flight.** Outstanding segments are popped by their 32-bit numbers. This never drops what is not acknowledged
  (`PopKeepsBooks`). It drops all that is acknowledged if and only if the queue reaches back less than 2^31 numbers or there is
  nothing to pop (`PopIsExact`, `QueueIsTight`); beyond that something acknowledged always stays (`PopBeyondReach`). No other
  result needs a bound on what is in flight.
- **FINs.** The end of the stream is a flag without a position. A FIN *can be trusted* if it is read right, ends inside
  the window, and brings the last byte along, or finds everything before it already out, or finds the byte before it pending. This is exactly when the
  stream ends where it should in everything that can follow (`AnnouncementIsExact`, `FinIsExact`). Otherwise it can end early, and
  acknowledge a byte that never came (`EmptyFinEndsStreamEarly`, `OvertakingFinAcksMissingByte`).
- **Late writes.** `ByteStream::write` accepts bytes after `end_input`. Until the FIN is sent this does no harm, and is allowed
  throughout. Bytes accepted after the FIN was sent go out one number beyond their place (`LateWriteIsMisplaced`), and the state
  summary goes back (`WriteMovesBackIff`).
- **The window estimate** is meant to be clamped at zero, but the subtraction is unsigned and narrowed to 16 bits
  (`EstimateExact`, `EstimateWrapsAround`). Nothing but flow control itself needs it to be right, and with acknowledgments in order
  it always is (`FlowControlComposes`, `DuplexFlowControl`).
- **Prefixes.** The routing table compares an unmasked prefix. This is the documented prefix match if and only if the prefix has
  no bits below its length (`PrefixMustBeClean`, `LongestPrefixMatch`).
- **Malformed packets.** `IPv4Datagram::parse` and `TCPSegment::parse` discard the result of the header parser. So a datagram is
  accepted whatever its header checksum (`DatagramAcceptedIff`), although the header parser itself rejects exactly what it should
  (`IpHeaderAcceptedIff`), and a segment is accepted with a data offset below 5 (`SegmentAcceptedIff`).

A run is *orderly* if no byte is accepted after the FIN was sent, nothing stale is delivered, and delivered FINs can be
trusted, while absolute numbers are 2^32 short of overflowing. End-to-end safety needs only that no stale segment is delivered, and nothing if stream and window fit in 2^32 - 2 bytes.

## Model

| member | source | states |
|---|---|---|
| `WrappingIntegers.UnwrapArithmetic` | libsponge/wrapping_integers.cc:28-48 | The shifts, ors and modular subtractions of `unwrap` compute, for every 64-bit checkpoint, "step back to the last number with these low 32 bits, and forward again if that is at least half-way", including the case that overflows 64 bits. |
| `WrappingIntegers.UnwrapIsClosest` | libsponge/wrapping_integers.cc:28-48 | `unwrap` returns the number closest to the checkpoint (ties upward) among all that wrap to `n` if and only if the checkpoint is less than 2^64 - 2^31 past the offset of `n` from the ISN. |
| `WrappingIntegers.UnwrapUndoesWrap` | libsponge/wrapping_integers.cc:16-48 | For every position and every 64-bit checkpoint, exactly when `unwrap(wrap(v))` is `v`: -2^31 < v - c <= 2^31, or c <= v < 2^32; and where the nearest number overflows, exactly v < 2^32. |
| `WrappingIntegers.UnwrapWrap` | libsponge/wrapping_integers.cc:16-48 | For checkpoints up to 2^64 - 2^32 the round trip holds if and only if `v` is within reach of the checkpoint. |
| `WrappingIntegers.UnwrapBeyondReach` | libsponge/wrapping_integers.cc:28-48 | A position 2^31 or more behind the checkpoint is read as one at least 2^32 later. |
| `WrappingIntegers.UnwrapOfEarlier` | libsponge/wrapping_integers.cc:28-48 | Exactly what any position at or behind the checkpoint is read as. |
| `StreamRuns.ReadsFollowWrites` | libsponge/byte_stream.cc:29-50 | Over any interleaving of writes and reads: what the reads returned, followed by what is still buffered, is what was buffered, followed by what each write had room for. |
| `ByteStreams.ByteStream.Write` | libsponge/byte_stream.cc:29-34 | The class buffer implements the bounded history: accepts a prefix as long as the remaining capacity, even after the input has ended. |
| `ByteStreams.ByteStream.PeekOutput` | libsponge/byte_stream.cc:37-37 | Returns the next bytes of the history without consuming them. |
| `ByteStreams.ByteStream.PopOutput` | libsponge/byte_stream.cc:40-40 | Consumes at most what is buffered and counts it as read. |
| `ByteStreams.ByteStream.Read` | libsponge/byte_stream.cc:45-50 | Returns and consumes the next bytes of the history. |
| `StreamReassemblers.StreamReassembler.PushSubstring` | libsponge/stream_reassembler.cc:26-71 | The shifting deques, their flags and the counter implement `Reassembler.Push` on a partial map; the counter equals the number of set slots; the final write never truncates; reading in between keeps the invariant. |
| `StreamReassemblers.StreamReassembler.StoreBytes` | libsponge/stream_reassembler.cc:34-50 | The first loop (with its `continue` and `break`) overwrites exactly the slots that lie inside the window, and counts the newly set ones. |
| `StreamReassemblers.StreamReassembler.TakeRun` | libsponge/stream_reassembler.cc:52-62 | The second loop removes exactly the maximal run of set slots at the front, shifting both deques, and returns its bytes in order. |
| `StreamReassemblers.StreamReassembler.constructor` | libsponge/stream_reassembler.cc:15-21 | An empty reassembler of any capacity. |
| `StreamReassemblers.StreamReassembler.Deliver` | libsponge/stream_reassembler.cc:64-70 | Writes the run out without truncation, takes it off the counter, and ends the output exactly if the end was announced and nothing is left. |
| `ReassemblerFacts.PushIsLatestWrite` | libsponge/stream_reassembler.cc:26-71 | For every index: after a push it holds the new byte if the push covers it inside [bytes_written, bytes_read + capacity), and otherwise what it held before; the first index past the output is always clear, so the output is as long as it can be. |
| `ReassemblerFacts.PushAgrees` | libsponge/stream_reassembler.cc:34-66 | If everything held agrees with a stream and so does the pushed piece, everything held afterwards agrees with it. |
| `ReassemblerFacts.PushMisses` | libsponge/stream_reassembler.cc:34-50 | A push that is empty, beyond the window or behind the output changes nothing that is held. |
| `ReassemblerFacts.PushEndsExactly` | libsponge/stream_reassembler.cc:30-32 | The invariant of the end (ended if and only if announced and all of it is out; once announced, the last byte is known) is kept by a push if and only if its announcement, if there is one, can be trusted: it ends inside the window and carries a byte, or starts no later than bytes_written, or finds the byte before it pending. |
| `ReassemblerFacts.AnnouncementIsExact` | libsponge/stream_reassembler.cc:26-71 | An end announcement takes effect, and after every further sequence of true pieces and reads the stream has ended exactly when all of it is out, if and only if the announcement can be trusted. |
| `ReassemblerFacts.EndsTooSoon` | libsponge/stream_reassembler.cc:68-70 | If the end was announced and the last byte is not known, some true piece of the stream ends it before it is complete. |
| `ReassemblerFacts.EmptyFinEndsStreamEarly` | libsponge/stream_reassembler.cc:68-70 | The input for which that condition fails: an empty end announcement that overtakes five bytes ends the stream with nothing written. |
| `TcpReceivers.TCPReceiver.SegmentReceived` | libsponge/tcp_receiver.cc:13-42 | The object follows the value-level receiver: SYN sets the ISN once, nothing is accepted before it, FIN is remembered, and the payload is pushed at the unwrapped index (minus one, in 64 bits). |
| `ReceiverFacts.FirstSynCounts` | libsponge/tcp_receiver.cc:13-42 | For every sequence of arriving segments and reads: open if and only if a SYN arrived, with the number of the first one for good; a FIN is noted if and only if one came with or after it; before it nothing changes. |
| `TcpReceivers.TCPReceiver.Ackno` | libsponge/tcp_receiver.cc:44-56 | None before a SYN; afterwards the wrapped count of SYN, assembled bytes, and FIN once nothing is pending. |
| `TcpReceivers.TCPReceiver.WindowSize` | libsponge/tcp_receiver.cc:58-58 | The capacity that the unread output leaves: the end of the output plus the window is what was read plus the capacity. |
| `ReceiverFacts.StoredIffInWindow` | libsponge/tcp_receiver.cc:58-58 | The advertised window is exact: of a push, the byte for an index at or beyond the output is stored if and only if the index is inside the window. |
| `ReceiverFacts.WindowReaches` | libsponge/tcp_receiver.cc:58-58 | The end of the output plus the window is the number of bytes read plus the capacity. |
| `ReceiverFacts.ReadingOpensWindow` | libsponge/byte_stream.cc:40-50 | Reading widens the window by as much as was read, up to the capacity, and changes neither the output nor its end. |
| `TransportSafety.ReceivedAsRead` | libsponge/tcp_receiver.cc:33-41 | Every true segment is pushed at the index that its 32-bit number and the length of the output determine, whether that is where it belongs or not. |
| `TransportSafety.ReadRightIff` | libsponge/tcp_receiver.cc:33-41 | Its number is read right exactly if it is within reach of the output. |
| `TransportSafety.ReceivedAtItsPlace` | libsponge/tcp_receiver.cc:33-41 | Then it is pushed where it belongs. |
| `TransportSafety.StaleIsMisread` | libsponge/tcp_receiver.cc:33-41 | A segment from 2^32 numbers ago is placed where the one due now belongs. |
| `TransportSafety.StaleBreaksSafety` | libsponge/tcp_receiver.cc:33-41 | Whenever a delivered segment is read so that it covers the next byte of the output with another one, the output is no longer a prefix of what was written. |
| `TransportAcks.AckPositionIs` | libsponge/tcp_receiver.cc:44-56 | With the end of stream right, the acknowledgment counts the SYN, the bytes output, and the FIN exactly when the whole stream is out. |
| `SenderFacts.CutIsPartition` | libsponge/tcp_sender.cc:48-66 | Cutting `n` bytes with flags gives pieces of 1000 bytes, the last one of at most that, that concatenate to the input, with contiguous sequence numbers, SYN only on the first and FIN only on the last. |
| `SenderFacts.FillWindowPartitions` | libsponge/tcp_sender.cc:28-84 | For every state, in terms of its fields: `fill_window` sends exactly min(owed, window) sequence numbers, where owed is the SYN if `next` is 0, the bytes written and not yet taken, and the FIN if the stream has ended without one; the payloads are the next bytes of the stream in full segments, contiguous from `next`; the FIN goes out if and only if the window has room for everything, last; the SYN first. |
| `TcpSenders.TCPSender.FillWindow` | libsponge/tcp_sender.cc:28-84 | The source's numbers (flags, total, room, payload size) and the loop compute the value-level fill, which `FillWindowPartitions` and `FillStarts` state in fields; no unsigned subtraction goes below zero. |
| `TcpSenders.TCPSender.SendSegments` | libsponge/tcp_sender.cc:51-83 | The loop, with its division into segments and per-segment sizes, sends exactly the segments of the cut, one per turn. |
| `TcpSenders.TCPSender.SendSegment` | libsponge/tcp_sender.cc:54-83 | One turn of the loop: builds the segment, advances number and window, queues it twice, and starts the timer if it was off. |
| `TcpSenders.TCPSender.AckReceived` | libsponge/tcp_sender.cc:88-132 | The object follows the value-level acknowledgment, with both early exits (number beyond `next`, timer off); `AckRestarts`, `AckKeepsInv` and `PopIsExact` say what that is in fields. |
| `TcpSenders.TCPSender.PopOutstanding` | libsponge/tcp_sender.cc:109-123 | The pop loop by unwrapped 32-bit numbers, resetting the timer for each popped segment; `PopIsExact` and `PopRestarts` say what it leaves. |
| `TcpSenders.TCPSender.Tick` | libsponge/tcp_sender.cc:135-156 | Retransmits the front segment when the timer reaches the timeout, doubling (in 32 bits) only if the peer has a window. |
| `TcpSenders.TCPSender.SendEmptySegment` | libsponge/tcp_sender.cc:160-164 | Queues an empty segment at the next number, and nothing else. |
| `TcpSenders.PopFrame` | libsponge/tcp_sender.cc:109-123 | Popping removes a prefix of the outstanding queue and touches only the timer fields besides. |
| `TcpSenders.AckKeepsSane` | libsponge/tcp_sender.cc:88-132 | Whatever number and window an acknowledgment claims, afterwards the timer is on if and only if something is outstanding. |
| `SenderFacts.PopIsByAbsoluteNumber` | libsponge/tcp_sender.cc:109-123 | If the queue reaches back less than 2^31 numbers, popping by unwrapping 32-bit numbers drops exactly the segments that end at or before the acknowledged absolute number. |
| `SenderFacts.PopIsExact` | libsponge/tcp_sender.cc:109-123 | It does so if and only if the queue reaches back less than 2^31 numbers or there is nothing to pop. |
| `SenderFacts.PopBeyondReach` | libsponge/tcp_sender.cc:109-123 | Beyond that, popping always stops at a segment that was acknowledged, even if everything was. |
| `SenderFacts.AckKeepsInv` | libsponge/tcp_sender.cc:88-132 | The sender invariant (contiguous queue ending at `next` and reaching back at least to the first unacknowledged number, timer, window) survives every acknowledgment, true or false, current or old, however much is in flight. |
| `SenderFacts.PopKeepsBooks` | libsponge/tcp_sender.cc:109-123 | Popping never drops a segment that is not acknowledged, however far back the queue reaches. |
| `SenderFacts.AckKeepsFront` | libsponge/tcp_sender.cc:88-132 | The first unacknowledged number stays in the front segment over an acknowledgment if and only if it is popped right (the condition of `PopIsExact`). |
| `SenderFacts.EstimateExact` | libsponge/tcp_sender.cc:98-103 | The 16-bit window estimate plus bytes in flight equals max(window, 1) if and only if no more than that is in flight; a zero estimate means something is in flight. |
| `SenderFacts.EstimateWrapsAround` | libsponge/tcp_sender.cc:98-103 | Otherwise it wraps around and allows 2^16 numbers too many, and as many again for every further 2^16 in flight: the outer maximum with zero does not clamp. |
| `SenderFacts.IdleIffTimerOff` | libsponge/tcp_sender.cc:75-82 | Queue empty and timer off are equivalent and imply nothing in flight; if the first unacknowledged number is in the front segment, nothing in flight implies them. |
| `SenderRuns.QueueInvariant` | libsponge/tcp_sender.cc:28-156 | In every run of a sender over arbitrary events, however much is in flight: the queue is contiguous, ends at `next` and reaches back at least to the first unacknowledged number; it is empty exactly if the timer is off, and then nothing is in flight. |
| `SenderRuns.QueueIsTight` | libsponge/tcp_sender.cc:105-131 | In every run: the first unacknowledged number is in the front segment throughout if and only if at every acknowledgment the queue reaches back less than 2^31 numbers or there is nothing to pop; then queue empty, nothing in flight and timer off coincide. |
| `SenderRuns.StepBacksOff` | libsponge/tcp_sender.cc:77-81 | Every event keeps: timeout = initial timeout times 2^(consecutive retransmissions), modulo 2^32. |
| `SenderRuns.BackOffLaw` | libsponge/tcp_sender.cc:135-156 | Over every run, two retransmissions with anything in between are at least initial timeout times 2^n (in 32 bits) ticked milliseconds apart, where n is the consecutive count before the second. |
| `SenderTimers.PopRestarts` | libsponge/tcp_sender.cc:109-123 | Popping sets timeout, clock and counter back if and only if it pops anything, that is, if the oldest outstanding number moves up. |
| `SenderTimers.FillStarts` | libsponge/tcp_sender.cc:75-82 | A fill that turns the timer on starts it at the initial timeout, at zero and with nothing counted; a running timer is left alone. |
| `SenderTimers.AckRestarts` | libsponge/tcp_sender.cc:88-132 | An acknowledgment that shortens the queue sets all three back, any other leaves them alone; the window it carries is remembered unless its number is beyond `next`, and then nothing at all changes. |
| `SenderTimers.TimerIsExact` | libsponge/tcp_sender.cc:75-156 | In every run, against an observer that sees only events: the counter is the number of times the timer ran out with the peer's window open since it last started or something was popped, the timeout is the initial one doubled that often, the clock is the time since it started, restarted or ran out, and a tick retransmits the front exactly if it brings that time to the timeout. |
| `TcpConnections.TCPConnection.SegmentReceived` | libsponge/tcp_connection.cc:27-67 | The object follows the value-level connection on a reset, an inactive connection, a keep-alive, and an ordinary segment; `SegmentIsSkippedIff`, `LingerIs` and `CallErrors` say in fields which is which and what follows. |
| `TcpConnections.TCPConnection.Accept` | libsponge/tcp_connection.cc:46-63 | The ordinary-segment branch: receiver, then sender, an empty answer if nothing is queued, then the lingering rule. |
| `TcpConnections.TCPConnection.Active` | libsponge/tcp_connection.cc:69-80 | Inactive exactly on an error, or when both streams are finished and lingering is off. |
| `TcpConnections.TCPConnection.Write` | libsponge/tcp_connection.cc:82-93 | Ignored when inactive; otherwise writes, fills the window and sends; returns how many bytes were accepted. |
| `TcpConnections.TCPConnection.Tick` | libsponge/tcp_connection.cc:96-115 | The object follows the value-level tick: clock, sender tick, abort, end of lingering, send. |
| `TcpConnections.TCPConnection.EndInputStream` | libsponge/tcp_connection.cc:117-125 | Ignored when inactive; otherwise ends the stream, fills and sends. |
| `TcpConnections.TCPConnection.Connect` | libsponge/tcp_connection.cc:127-130 | Fills and sends, even when inactive. |
| `TcpConnections.TCPConnection.Report` | libsponge/tcp_connection.cc:148-153 | Sets the error in the connection and both streams. |
| `TcpConnections.TCPConnection.Send` | libsponge/tcp_connection.cc:155-181 | The loop drains the sender queue in order, stamps each segment, and remembers a FIN. |
| `ConnectionRules.ActiveIff` | libsponge/tcp_connection.cc:69-80 | In fields: active unless failed, or finished (our FIN sent, our stream ended and all of it acknowledged, the peer's ended and read to the last byte) and no longer lingering. |
| `ConnectionRules.SegmentIsSkippedIff` | libsponge/tcp_connection.cc:41-55 | An active connection skips a segment that is no reset, with both halves unchanged and one segment in answer, if and only if it is empty, a SYN was received, and its number is the one before the acknowledgment modulo 2^32; any other reaches the receiver, and its acknowledgment (or a fill) the sender. |
| `ConnectionRules.BareAckIsHeard` | libsponge/tcp_connection.cc:43-52 | A bare acknowledgment at exactly the number asked for, of a new number that was sent, less than 2^31 behind `next`, leaves that number acknowledged (absolute numbers 2^32 short of overflowing); what an older one is read as is `UnwrapOfEarlier`. |
| `ConnectionRules.LingerIs` | libsponge/tcp_connection.cc:60-62 | For every call: lingering is given up, and never taken up again, exactly by a segment that is neither reset nor keep-alive and finds the peer's stream ended and read while our FIN had not been sent before or our stream is not all out, or by a tick that finds both finished and ten timeouts passed. |
| `ConnectionRuns.CallIsSenderRun` | libsponge/tcp_connection.cc:27-130 | Every public call does to its sender exactly a named list of sender events, leaves the sender queue empty, and remembers a FIN if and only if the sender sent one. |
| `ConnectionRuns.CallErrors` | libsponge/tcp_connection.cc:96-115 | A call sets the error flags exactly on a reset and on the ninth consecutive retransmission, in the connection and both streams together. |
| `ConnectionFacts.AlwaysLive` | libsponge/tcp_connection.cc:27-181 | The connection invariant (drained queue, matching FIN and error flags, back-off with at most 8 retransmissions while alive, a FIN implies an ended stream) holds after every sequence of calls. |
| `ConnectionFacts.TimeoutLaw` | libsponge/tcp_connection.cc:106-108 | In every run from construction: timeout = configured timeout times 2^n with no 32-bit overflow, n is at most 8 while the connection is active, the sender queue is drained and both FIN flags agree. |
| `ConnectionHistory.ConnectionIsSenderRun` | libsponge/tcp_connection.cc:27-181 | After every run of calls the sender is what a sender alone becomes by the events of that run. |
| `ConnectionHistory.AbortIsExact` | libsponge/tcp_connection.cc:106-108 | In every run from construction: a tick makes an active connection fail if and only if the timer has run out exactly eight times since it last started or restarted, the peer's window is open, and the tick brings the time to the configured timeout times 256. |
| `ConnectionFacts.ClosedStaysClosed` | libsponge/tcp_connection.cc:69-80 | An inactive connection stays inactive under every call and emits nothing, except `connect` after an error. |
| `ConnectionFacts.ClosedIsFinal` | libsponge/tcp_connection.cc:69-80 | The same over every sequence of calls. |
| `ConnectionFacts.LingeringIsExact` | libsponge/tcp_connection.cc:110-112 | An active, still lingering connection ends without an error if and only if the call is a tick that finds both streams finished and brings the time since the last segment to 10 times the configured timeout. |
| `ConnectionFacts.SinceLastIsSum` | libsponge/tcp_connection.cc:101-103 | While active and without a segment received, the lingering clock is the sum of all ticks. |
| `ConnectionFacts.LingeringRun` | libsponge/tcp_connection.cc:96-115 | Over every run of calls without a segment received and without an error, a lingering connection has ended if and only if some tick found both streams finished and brought the ticks to 10 times the configured timeout. |
| `ConnectionFacts.LingeringAfterLastSegment` | libsponge/tcp_connection.cc:27-29 | After the last segment received, what counts are the ticks since then. |
| `ConnectionFacts.NoSilentStall` | libsponge/tcp_sender.cc:98-127 | After every call of every run, however much is in flight: if the SYN is out and a byte was written and not sent, or the stream has ended and the FIN was not sent, then the window is used up, something is in flight, the timer is on, and a tick that reaches the timeout retransmits the front segment. |
| `ConnectionFacts.AckFills` | libsponge/tcp_sender.cc:105-127 | The early return with the timer off never leaves anything unsent behind. |
| `ConnectionFacts.SummaryIs` | libsponge/tcp_helpers/tcp_state.cc:94-110 | The sender summary in terms of the numbers: closed before the SYN, SYN_SENT until it is acknowledged, SYN_ACKED until the FIN is sent, FIN_SENT until everything is acknowledged, then FIN_ACKED. |
| `TransportAcks.ReceiverStateIsExact` | libsponge/tcp_helpers/tcp_state.cc:82-92 | In every orderly run the receiver summary says how far the acknowledgment is: LISTEN at 0, FIN_RECV exactly if it covers every byte sent and the FIN, SYN_RECV in between, ERROR above all. |
| `ConnectionFacts.SenderSummaryAdvances` | libsponge/tcp_helpers/tcp_state.cc:94-110 | No sender event moves the sender summary back, unless it writes bytes that are accepted after the FIN was sent. |
| `ConnectionFacts.StatesOnlyAdvance` | libsponge/tcp_helpers/tcp_state.cc:82-110 | Over every run of calls in which no byte is accepted after the FIN was sent, both summaries only move forward (CLOSED, SYN_SENT, SYN_ACKED, FIN_SENT, FIN_ACKED; LISTEN, SYN_RECV, FIN_RECV) and ERROR is final. |
| `ConnectionFacts.WriteMovesBackIff` | libsponge/tcp_helpers/tcp_state.cc:94-110 | A write moves the sender summary back if and only if there is no error, the FIN was sent, the SYN is acknowledged, the data is not empty and fits in part. |
| `ConnectionFacts.WriteAfterEndExample` | libsponge/byte_stream.cc:29-34 | A concrete sender for which it does: FIN_SENT becomes SYN_ACKED. |
| `SenderProgress.LateWriteIsMisplaced` | libsponge/tcp_sender.cc:54-74 | The bytes of a write after the FIN was sent go out one number beyond their place in the stream. |
| `SenderProgress.StreamIsInput` | libsponge/byte_stream.cc:29-52 | In every run of a sender the outbound stream is what each write had room for, one after the other; it has ended if and only if its end was announced and failed if and only if an error was set. |
| `ConnectionOutput.CallEmits` | libsponge/tcp_connection.cc:155-181 | What leaves during any call is what its sender events queued, in order, stamped with the acknowledgment and window the receiver has at the end of the call. |
| `ConnectionOutput.StampMeans` | libsponge/tcp_connection.cc:163-176 | An outgoing segment is the sender's with the acknowledgment position wrapped (if a SYN was received), the window clamped to 16 bits, and the reset flag if the connection failed; nothing else is touched. |
| `ConnectionOutput.SegmentsAreAnswered` | libsponge/tcp_connection.cc:41-66 | A segment that occupies sequence numbers, and a keep-alive, is answered before the call returns, by a current acknowledgment and window. |
| `TransportSafety.MoveIsSafe` | libsponge/tcp_sender.cc:54-74 | Every move of sender, receiver, applications or network keeps: every segment ever sent is a true piece of the stream or lies beyond the gap its FIN left, and all the receiver knows up to that gap is true. |
| `TransportSafety.EndToEndSafety` | libsponge/tcp_receiver.cc:13-42 | In every run over a network that loses, duplicates and reorders segments and acknowledgments, and whatever the applications do, everything the receiver ever output is a prefix of the bytes sent, and so of those written. |
| `TransportSafety.EndToEndSafetyShort` | libsponge/stream_reassembler.cc:26-71 | If stream and receiving capacity together are under 2^32 - 2 bytes, the same with no assumption at all. |
| `TransportAcks.ArrivalKeepsEnd` | libsponge/tcp_receiver.cc:30-41 | The arrival of a true segment keeps the receiver's invariant of the end if and only if its FIN, if any, can be trusted (the condition of `PushEndsExactly`). |
| `TransportAcks.FinIsExact` | libsponge/tcp_receiver.cc:30-41 | After the arrival of a FIN the flags of receiver and reassembler agree, and whatever true segment arrives next the stream has ended exactly when all of it is out, if and only if the FIN can be trusted. |
| `TransportAcks.ArrivalKeepsAck` | libsponge/tcp_receiver.cc:44-56 | Then neither the acknowledgment nor the output moves back. |
| `TransportAcks.AckIsRead` | libsponge/tcp_sender.cc:88-95 | An acknowledgment is read as the number it stands for, or as one beyond `next` (and ignored), or as nothing new, if and only if it is not stale. |
| `TransportAcks.StaleAckIsBelieved` | libsponge/tcp_sender.cc:88-95 | Any other makes the sender take numbers for acknowledged that are 2^32 or more beyond it. |
| `TransportAcks.NothingForgotten` | libsponge/tcp_sender.cc:109-123 | In every orderly run each byte ever sent is in the receiver's output at its place, or inside a segment that is still outstanding, at its place. |
| `TransportAcks.EndOfStreamIsExact` | libsponge/tcp_receiver.cc:30-56 | In every orderly run the receiver's stream has ended if and only if a FIN was delivered and every byte sent is out; it is then the whole stream written; the FIN flags of receiver and reassembler agree; the sender never believes more acknowledged than the receiver has. |
| `TransportAcks.EndIsFinal` | libsponge/stream_reassembler.cc:68-70 | Once an orderly run has ended the receiver's stream, it stays ended and not one byte more comes out, however the run goes on. |
| `TransportAcks.EdgesNeverMoveBack` | libsponge/tcp_connection.cc:169-175 | Between any two points of any orderly run, neither the acknowledgment nor acknowledgment plus clamped window moves back. |
| `TransportAcks.OvertakingFinAcksMissingByte` | libsponge/tcp_receiver.cc:49-52 | The input that shows the FIN condition is needed: an empty FIN that overtakes one byte makes the receiver acknowledge that byte and end without it. |
| `TransportFlow.NextAckFits` | libsponge/tcp_sender.cc:93-103 | If acknowledgments are not reordered, the next one to arrive is not stale, is read right, and max(window, 1) covers all that is in flight beyond it. |
| `TransportFlow.FlowControlComposes` | libsponge/tcp_sender.cc:95-103 | In every run that is orderly but for its acknowledgments, if these are in order (losses and repeats allowed), estimate plus in flight is exactly max(last window heard, 1), so the 16-bit estimate never wraps and bytes in flight never exceed it. |
| `TransportFlow.NothingSentIsDropped` | libsponge/tcp_receiver.cc:58-58 | In every such run, whichever packet ever sent arrives next, if it is read right, every byte of it is in the output or stored afterwards; only the byte that probes a closed window can be dropped. |
| `Duplex.HappeningKeepsLinks` | libsponge/tcp_connection.cc:27-181 | Two connections on a common wire simulate two one-way transports: whatever happens at one end, both ends go on agreeing with both. |
| `Duplex.DuplexSafety` | libsponge/tcp_connection.cc:27-181 | Two full connections that call, tick, write, read, close, reset and exchange segments over an unreliable network: each one's output is always a prefix of what was written at the other. |
| `Duplex.DuplexSafetyShort` | libsponge/tcp_helpers/lossy_fd_adapter.hh:42-57 | The same with nothing assumed, of network or applications, when each stream and the capacity it is received into are together under 2^32 - 2 bytes. |
| `Duplex.DuplexDelivery` | libsponge/tcp_connection.cc:27-181 | In both directions of every orderly run: no byte is forgotten, and each stream ends exactly where the other side ended it. |
| `Duplex.DuplexFlowControl` | libsponge/tcp_sender.cc:95-103 | If a run is orderly but for its acknowledgments and neither direction reorders these, it is orderly, and at both ends estimate plus in flight is exactly max(last window heard, 1). |
| `NetworkInterfaces.NetworkInterface.SendDatagram` | libsponge/network_interface.cc:32-57 | The object follows the value-level interface: frame at once if the hop is known, otherwise queue and ask once. |
| `NetworkInterfaces.NetworkInterface.RecvFrame` | libsponge/network_interface.cc:60-118 | The object follows the value-level interface: address filter, datagram delivery, ARP; `ReceivedIff`, `LearnsIff` and `ActionsOnTheWire` state it in the fields of the frame. |
| `NetworkInterfaces.NetworkInterface.LearnFrom` | libsponge/network_interface.cc:89-114 | Records the mapping, answers a request, forgets the pending request and flushes what waited for it, in this order. |
| `NetworkInterfaces.NetworkInterface.DropPending` | libsponge/network_interface.cc:99-105 | The erase-while-iterating loop removes exactly the entries for one address and keeps the order of the rest. |
| `NetworkInterfaces.NetworkInterface.FlushWaiting` | libsponge/network_interface.cc:107-114 | The erase-while-iterating loop frames exactly the datagrams for one address, in order, and keeps the rest. |
| `NetworkInterfaces.NetworkInterface.Tick` | libsponge/network_interface.cc:121-144 | The object follows the value-level tick over both tables. |
| `NetworkInterfaces.NetworkInterface.RepeatRequests` | libsponge/network_interface.cc:122-132 | Repeats the requests whose time is up and counts the others down. |
| `NetworkInterfaces.NetworkInterface.AgeTable` | libsponge/network_interface.cc:134-143 | Erases the entries whose time is up and counts the others down. |
| `ArpRuns.EmitsAreFrames` | libsponge/network_interface.cc:32-144 | What an action logs is, frame for frame, what it appends to the output queue. |
| `ArpRuns.ActionsOnTheWire` | libsponge/network_interface.cc:32-184 | Every frame that leaves, field by field: destination, source, type and contents of datagram frames, requests, repeated requests, replies and released datagrams, in order, and no other frame. |
| `ArpRuns.ReceivedIff` | libsponge/network_interface.cc:63-76 | A datagram is delivered exactly from a frame to the own address or to all, of type IPv4, that holds it. |
| `ArpRuns.LearnsIff` | libsponge/network_interface.cc:63-114 | A message is learned exactly from a frame to the own address or to all, not of type IPv4, holding an ARP message about the own IP address: then the sender is in the table for 30000 ms and nothing is pending or waiting for it, with all else unchanged; any other frame changes nothing. |
| `ArpRuns.ArpConservation` | libsponge/network_interface.cc:32-132 | In every run and for every next hop: the datagrams submitted are, in order, those framed followed by those waiting; no address is pending twice; an address is pending if and only if datagrams wait for it, and then it is not in the table. |
| `ArpRuns.RequestsAreAnswered` | libsponge/network_interface.cc:95-97 | A request for this interface's address is answered in the same call with its own addresses, to the asker. |
| `ArpTimers.TimersImplementTimestamps` | libsponge/network_interface.cc:121-144 | In every run the table is exactly the mappings learned less than 30000 ticked ms ago, with exactly the time left; pending counters stay in (0, 5000]; any two requests for one address are at least 5000 ticked ms apart. |
| `ArpTimers.RequestGap` | libsponge/network_interface.cc:50-55 | An address is asked for again only 5000 ticked ms or more after the last time. |
| `ArpTimers.FramedToLearnedMac` | libsponge/network_interface.cc:163-177 | Every datagram framed goes to the MAC most recently learned for its hop, less than 30000 ticked ms before. |
| `Routers.MaskTest` | libsponge/router.cc:32-54 | The masked address is the address with its low bits cleared; for a clean prefix the test is equality of the top `prefix_length` bits. |
| `Routers.PrefixMustBeClean` | libsponge/router.cc:32-54 | The test agrees with the documented prefix match on every destination if and only if the prefix has no bits below its length. |
| `Routers.ChooseIsBest` | libsponge/router.cc:50-60 | The scan finds the first among the matching routes of greatest length, and nothing exactly if none matches. |
| `Routers.DecideIsExact` | libsponge/router.cc:41-72 | A datagram is forwarded if and only if its TTL exceeds 1 and a route matches; then on the best route's interface, to its next hop or the destination, with the TTL reduced by one and nothing else changed. |
| `Routers.LongestPrefixMatch` | libsponge/router.cc:41-72 | Over a table of clean prefixes as `add_route` stores them: forwarded if and only if the TTL exceeds 1 and some route shares its high bits with the destination, and then by the first among the longest of these. |
| `Routers.AddedRoutesDecide` | libsponge/router.cc:25-72 | For the table built by any sequence of `add_route` calls with clean prefixes: a datagram is forwarded if and only if its TTL exceeds 1 and some call gave a prefix it shares, and then to the interface and next hop of the first such call with the longest prefix. |
| `Routers.EachSentOnce` | libsponge/router.cc:74-83 | Over any queue: exactly the forwardable datagrams are sent, once each, in order. |
| `Routers.RouteHandsOver` | libsponge/router.cc:74-83 | Routing hands each interface exactly the datagrams decided for it, in the order received, each with its next hop; every input queue is empty afterwards. |
| `Routers.Router.FindRoute` | libsponge/router.cc:50-60 | The iterator scan, which never reads through `end()`, returns the choice. |
| `Routers.Router.RouteOneDatagram` | libsponge/router.cc:41-72 | Hands the datagram to the chosen interface, or drops it, and leaves every other interface alone. |
| `Routers.Router.Route` | libsponge/router.cc:74-83 | Terminates with all received queues empty, having sent exactly the decisions for all of them, port by port. |
| `Routers.Router.AddRoute` | libsponge/router.cc:25-38 | Appends a route with the computed mask; every route of a router has the mask of its length and an existing interface. |
| `Routers.Router.AddInterface` | libsponge/router.hh:68-71 | Appends an interface and returns its index. |
| `Routers.AsyncNetworkInterface.RecvFrame` | libsponge/router.hh:30-35 | Queues a received datagram behind those received before. |
| `InternetChecksums.InternetChecksum.Append` | libsponge/util/util.cc:89-98 | The loop over bytes computes `Add` on sum (32 bits) and parity. |
| `InternetChecksums.InternetChecksum.Result` | libsponge/util/util.cc:100-108 | The folding loop computes `Value`. |
| `InternetChecksums.AddInPieces` | libsponge/util/util.cc:89-98 | Adding data in pieces of any length, odd ones included, equals adding it all at once. |
| `InternetChecksums.AddIsWordSum` | libsponge/util/util.cc:89-98 | For data of any length the accumulator is the sum of the big-endian 16-bit words, modulo 2^32. |
| `InternetChecksums.FoldMeaning` | libsponge/util/util.cc:100-106 | Folding keeps the residue modulo 2^16 - 1 and gives zero only for zero. |
| `InternetChecksums.ValueMeaning` | libsponge/util/util.cc:100-108 | The checksum is zero if and only if the sum is positive and a multiple of 2^16 - 1. |
| `InternetChecksums.ChecksumCancels` | libsponge/util/util.cc:100-108 | For every 32-bit sum: adding its own checksum does not overflow and gives a sum with checksum zero. |
| `InternetChecksums.ChecksumCompletes` | libsponge/util/util.cc:89-108 | The same for the sum of data of any length, kept modulo 2^32. |
| `NetParsers.NetParser.ParseInt` | libsponge/util/parser.cc:26-43 | The big-endian read loop, with the size check and the sticky error. |
| `NetParsers.NetParser.RemovePrefix` | libsponge/util/parser.cc:45-51 | Skips bytes, or sets the error and skips none. |
| `NetParsers.UnparseInt` | libsponge/util/parser.cc:53-60 | The shift-and-mask loop appends the big-endian bytes. |
| `NetParsers.ReadsBack` | libsponge/util/parser.cc:26-60 | Reading what was written gives the value back and leaves exactly what followed. |
| `NetParsers.ByteOf` | libsponge/util/parser.cc:56-59 | Each byte computed by shift and mask is the corresponding base-256 digit. |
| `TcpWire.FlagsReadBack` | libsponge/tcp_helpers/tcp_header.cc:24-30 | Masking each flag out of the or-ed byte gives back all six flags. |
| `TcpWire.HeaderReadsBack` | libsponge/tcp_helpers/tcp_header.cc:17-78 | For every header with data offset 5 to 15, parsing the serialized header gives it back and leaves exactly what followed. |
| `TcpWire.ReadHeader` | libsponge/tcp_helpers/tcp_header.cc:17-48 | The field-by-field parser computes `ParseHeader`. |
| `TcpWire.WriteHeader` | libsponge/tcp_helpers/tcp_header.cc:51-78 | The field-by-field writer computes the serialized header, or fails for a data offset under 5. |
| `TcpWire.SegmentVerifies` | libsponge/tcp_helpers/tcp_segment.cc:30-45 | For every segment with a data offset of at least 5, of any length, and every pseudo-header sum: the checksum inserted by `serialize` makes the whole sum to checksum zero. |
| `TcpWire.SegmentReadsBack` | libsponge/tcp_helpers/tcp_segment.cc:12-45 | For every segment with data offset 5 to 15, of any length: parsing the serialized segment gives back its header, with the checksum filled in, and its payload. |
| `TcpWire.WriteSegment` | libsponge/tcp_helpers/tcp_segment.cc:30-45 | The two-pass writer computes the serialized segment, or fails as the header writer does. |
| `TcpWire.ReadSegment` | libsponge/tcp_helpers/tcp_segment.cc:12-23 | The parser checks the sum first and keeps the old segment on a bad one. |
| `WireLayout.TcpHeaderLayout` | libsponge/tcp_helpers/tcp_header.cc:17-48 | For every byte string of at least 20 bytes: each field is read from its place in RFC 793 (section 3.1), a data offset below 5 or beyond the end is an error, and otherwise the options are skipped. |
| `WireLayout.SegmentAcceptedIff` | libsponge/tcp_helpers/tcp_segment.cc:12-23 | A byte string is accepted if and only if its word sum with the pseudo-header is a positive multiple of 2^16 - 1, it has at least 20 bytes, and its data offset does not point beyond its end; then header and payload are the documented ones (an offset below 5 counts as 5). |
| `WireLayout.OneWordErrorIsDetected` | libsponge/util/util.cc:89-108 | Of two packets of equal length, at most 65535 bytes, with an initial sum below 2^31, that differ in a single 16-bit word, at most one has the right checksum, unless the word is 0 in one and 0xFFFF in the other. |
| `Ipv4Wire.FieldsReadBack` | libsponge/tcp_helpers/ipv4_header.cc:23-110 | The packed fields (version and length, flags and offset) and the plain ones read back as written. |
| `Ipv4Wire.IpVerifies` | libsponge/tcp_helpers/ipv4_datagram.cc:28-35 | The inserted header checksum makes the header sum to checksum zero. |
| `Ipv4Wire.IpReadsBack` | libsponge/tcp_helpers/ipv4_header.cc:23-75 | The header parser accepts a header serialized with its checksum and gives it back. |
| `Ipv4Wire.DatagramReadsBack` | libsponge/tcp_helpers/ipv4_datagram.cc:11-41 | Parsing a serialized datagram gives it back with the header checksum filled in, whatever the target held before. |
| `Ipv4Wire.ReadIp` | libsponge/tcp_helpers/ipv4_header.cc:23-75 | The imperative header parser computes `ParseIp`, error for error. |
| `Ipv4Wire.WriteIp` | libsponge/tcp_helpers/ipv4_header.cc:78-110 | The imperative writer computes the serialized header, or fails for a wrong version or length. |
| `Ipv4Wire.ReadDatagram` | libsponge/tcp_helpers/ipv4_datagram.cc:11-21 | The parser ignores the header's result, checks the payload length, and returns the parser's error. |
| `Ipv4Wire.WriteDatagram` | libsponge/tcp_helpers/ipv4_datagram.cc:23-41 | The writer computes the serialized datagram, or fails on a payload of the wrong size. |
| `WireLayout.IpFieldsLayout` | libsponge/tcp_helpers/ipv4_header.cc:31-47 | For every byte string of at least 20 bytes: each field is read from its place in RFC 791 (section 3.1). |
| `WireLayout.IpHeaderAcceptedIff` | libsponge/tcp_helpers/ipv4_header.cc:23-75 | The header parser accepts exactly version 4 headers of at least five words, all there, whose length is that of the packet and whose bytes sum up. |
| `WireLayout.DatagramAcceptedIff` | libsponge/tcp_helpers/ipv4_datagram.cc:11-21 | The datagram parser accepts every packet that looks right whatever its header checksum, and of the others exactly those whose remaining length happens to fit. |
| `WireLayout.WrittenIff` | libsponge/tcp_helpers/ipv4_datagram.cc:23-41 | A segment is written if and only if its data offset is at least 5; a datagram if and only if it is of version 4 with at least five header words and a payload as long as its header says. |
| `TcpOverIp.WrapIsWellFormed` | libsponge/tcp_helpers/tcp_over_ip.cc:75-90 | Every segment that fits a datagram is wrapped into one with exactly the documented header and a payload that parses back to the segment with ports and checksum set. |
| `TcpOverIp.WireRoundTrip` | libsponge/tcp_helpers/tcp_over_ip.cc:26-90 | For every segment with data offset 5 to 15 that fits: wrap, serialize, parse and unwrap at an adapter with mirrored addresses, or at a listening one for a SYN, gives the same payload and the same header but for ports and checksum, and an adapter bound to the sender. |
| `TcpOverIp.UnwrapIsExact` | libsponge/tcp_helpers/tcp_over_ip.cc:26-71 | A datagram is accepted if and only if it is TCP, its segment parses and is for the own port, and it is from the peer to the own address, or a SYN and no reset while listening; then the adapter is bound to both ends. Any other leaves the adapter alone. |
| `TcpOverIp.PeerIsFixed` | libsponge/tcp_helpers/tcp_over_ip.cc:26-71 | An adapter that does not listen never changes, and whatever arrived before, every segment it accepts is between the same two addresses and ports. |
| `TcpOverIp.TCPOverIPv4Adapter.WrapTcpInIp` | libsponge/tcp_helpers/tcp_over_ip.cc:75-90 | The object computes `WrapTcp`. |
| `TcpOverIp.TCPOverIPv4Adapter.UnwrapTcpInIp` | libsponge/tcp_helpers/tcp_over_ip.cc:26-71 | The object follows `UnwrapTcp`, updating addresses and the listening flag; `UnwrapIsExact` says which datagrams that accepts. |

## Left out

- Sockets, file descriptors, TUN/TAP devices, the event loop, `TCPSpongeSocket` and its threads, and name resolution. An
  address is a 32-bit number and a port.
- `Buffer`, `BufferList` and `BufferViewList`: payloads are sequences of bytes, without sharing.
- Corrective acknowledgments and resets in reply to unacceptable segments: the code does not send them.
- The random choice of the ISN, which is an arbitrary parameter here, and the loss rates, which are arbitrary losses.
- The byte layouts of Ethernet frames and ARP messages: both are datatypes, and a frame's payload is a datagram, an ARP
  message, or something that does not parse.
- The exception `IPv4Datagram::serialize` throws for a payload of the wrong size when `NetworkInterface` frames a datagram. The
  writer itself models it (`WriteDatagram`).
- The destructor and move operations of `TCPConnection`, the table of official state names in `TCPState`, string
  formatting, and the accessors that only read a field.
- Applications, documentation tests and scripts.
- 64-bit overflow of byte counts and absolute sequence numbers: they are unbounded in the model, and what unwraps them is exact
  only below 2^64.
- Liveness: that a fair network eventually delivers. `NoSilentStall` and `NothingForgotten` are its safety parts.
- Iteration order of the ARP table, which is a `map` here; aging treats each entry alone, so the order does not show.
- StreamReassemblers.StreamReassembler.PushSubstring: requires a capacity of at least 1, because the source reads the front of an empty deque otherwise, and bytes_read + capacity below 2^64, the sum the source computes in 64 bits; so do the receiver and the connection above it, and runs start with a receiving capacity of at least 1.
- Routers.Router.AddRoute: requires a prefix length of at most 32 and a valid interface, because the source shifts by a negative amount or indexes past a vector otherwise.
- Routers.Router.AddInterface: requires an interface that is not shared with one already added, as the source's move guarantees.
- TransportSafety.EndToEndSafety: assumes no stale segment is delivered; so does `DuplexSafety`. `EndToEndSafetyShort` and `DuplexSafetyShort` do not.
- TransportAcks.NothingForgotten: assumes an orderly run; so do `EndOfStreamIsExact`, `ReceiverStateIsExact`, `EndIsFinal`, `EdgesNeverMoveBack` and `DuplexDelivery`.
- TransportFlow.FlowControlComposes: assumes a run that is orderly but for its acknowledgments, and these in order; so do `NothingSentIsDropped` and `DuplexFlowControl`.
- ConnectionFacts.NoSilentStall: assumes absolute numbers 2^32 short of overflowing 64 bits at each acknowledgment, as do `QueueInvariant` and `QueueIsTight`.
