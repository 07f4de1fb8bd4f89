# A verified model of the Sponge TCP/IP stack

This project models the deterministic core of the Sponge user-space TCP/IP stack in Dafny and proves what
its parts and their composition keep over every run. `dafny verify dfyconfig.toml` checks all of it.

Each component has up to three layers:

* a **state datatype and step functions** (`Push`, `FillWindow`, `AckReceived`, `SendDatagram`, ...) that take the
  same branches as the C++ code, including 32-bit and 64-bit wrap-around where the code relies on it;
* a **class** with the code's fields, loops and in-place updates, each method proved to compute the step
  function on the abstract state;
* **lemmas** about the step functions: invariants, refinements of simpler reference machines, whole runs.

| files | models |
|---|---|
| `WrappingIntegers.dfy` | 32-bit sequence numbers |
| `ByteStream.dfy` | the ring buffer and the log it stands for |
| `StreamReassembler.dfy`, `ReassemblyProofs.dfy`, `ReassemblyRuns.dfy`, `StreamIntegrity.dfy`, `EmptySlice.dfy` | out-of-order reassembly |
| `TcpSegments.dfy`, `TcpSender.dfy`, `SenderProofs.dfy`, `SenderRuns.dfy`, `SendWindow.dfy`, `SegmentCuts.dfy`, `SegmentShape.dfy` | the sender |
| `TcpReceiver.dfy` | the receiver |
| `EndToEnd.dfy`, `Opening.dfy`, `BareFin.dfy`, `ClosedWindow.dfy` | sender, receiver and a network that loses, duplicates and reorders |
| `TcpConnection.dfy`, `ConnectionProofs.dfy`, `ConnectionEffects.dfy`, `Closing.dfy` | a full endpoint |
| `Duplex.dfy` | two endpoints that talk to each other |
| `NetworkInterface.dfy`, `ArpExchange.dfy`, `Router.dfy` | ARP and longest-prefix forwarding |
| `Checksum.dfy`, `NetParser.dfy`, `WireFormat.dfy`, `TcpCodec.dfy`, `Ipv4Codec.dfy`, `WireLayout.dfy`, `TcpOverIp.dfy` | checksums and wire formats |

## Main results

1. **End to end** (`EndToEndSafety`): in every run of the system, what the receiver has written is a prefix of what the
   writer wrote, the input ends only with the whole stream, and the sender never treats an unassembled byte as acknowledged.
   The sender never cuts anew what it has sent (`RunCuts`), so its empty segments never fall inside a pending substring
   (`NeverDisturbs`).
2. **Reassembly** (`RunRefines`, `RunDeliversStream`): the interval set with overlap merging agrees with a machine that
   only remembers the set of indices received in the window; slices of one stream yield exactly that stream.
3. **Sender** (`RunKeeps`, `AckKeeps`, `FillWindowExact`): the outstanding segments always tile the end of the
   sequence space sent so far, and every decision on 32-bit numbers is the absolute one. Over every run the per-segment
   timestamps are the single timer of section 5 of RFC 6298 (`RunTimer`). How much is sent is known exactly (`FillSends`),
   and in which segments (`FillMaximal`, `RunPristine`); over a run nothing goes beyond the furthest edge the peer allowed if and only if every filling of the window fits
   (`RunWithinWindow`), which the code does not ensure (below).
4. **Connection** (`CleanClose`, `LingerWaited`, `CleanCloseAtBothEnds`): when a connection fails, closes and lingers are
   equivalences (`FailsExact`, `ActiveExact`, `LingersExact`), and so is when it answers (`AnswersExact`). The inbound stream of an inactive connection that
   did not fail has ended, and SYN, every byte and FIN it sent are acknowledged; one that closed while lingering had waited
   ten timeouts. Of two connections that talk to each other, once one is inactive without failure each has received
   exactly what was written at the other, and knows that this is all. Neither fails unless a reset comes from outside or
   one retransmits more than eight times (`NeitherFails`).
5. **ARP and routing** (`ExchangeWorks`, `RunConserves`, `RunAccounts`, `FrameUsesLatest`, `RequestsSpaced`, `DecideIsLongestPrefix`,
   `RouteFromExact`): with exceptions included, what is sent, what waits and what stays queued over every run.
6. **Wire formats** (`SegmentRoundTrip`, `DatagramRoundTrip`, `StackRoundTrip`, `CorruptSegmentRejected`): writers and parsers
   put every field where RFC 793 and RFC 791 put it (`TcpSegmentWritten`, `TcpHeaderRead`, `DatagramWritten`,
   `Ipv4HeaderRead`), and which buffers are accepted is an equivalence (`TcpSegmentRejected`, `DatagramRead`).

## Where the code does not keep its promise

Five properties turn out false of the code as written. The model keeps the code; each has a concrete failing run and
the exact condition under which the property holds.

* **An empty substring strictly inside a pending one** is stored as an empty node and hides its neighbour from the next
  merge; a byte is then delivered twice (`EmptySliceCorrupts`). The cache invariant survives a push if and only if the
  push is not of this kind (`PushKeepsInvariant`); after every push of this kind, the byte at its index is counted
  as pending a second time (`DisturbedCountsTwice`). The sender of this repository never causes it (`NeverDisturbs`).
* **An empty substring carrying the end mark ahead of the last byte** ends the input early. `PrematureTruncates` gives, for
  every such push, a following push of true bytes after which the input has ended too soon; `BareFinTruncates` is a run
  of the whole system in which a FIN without payload overtakes a byte. The condition is exact: `SliceKeepsFaithful` for
  the reassembler, `DeliverExact` for the system.
* **A window closed before SYN is sent** (by an ACK of the initial sequence number) makes `fill_window` send the first
  byte, or FIN, in the place of SYN (`SkippedSyn`, and the run `EarlyZeroWindow`). Filling the window keeps the sender's
  invariant if and only if it is not in that state with something to send (`FillWindowExact`, `StepExact`); the same for
  the events of a connection (`ConnectionProofs.StepExact`). The acknowledgment alone does no harm.
* **The send window** does not hold. `ack_received` clips the count of used space to each new window, so the count can
  fall behind what is in flight. Each answer to a probe of a closed window then draws one more new byte, without end
  (`ClosedWindowFlood`, for every such state), also with the receiver of this repository and without loss or reordering
  (`ProbesGoBeyond`). A window announced smaller and then as before has the same effect (`ShrunkWindowOversends`).
  Filling the window stays within the edge if and only if no more is to be sent than fits between what is in flight and
  the window (`FillWithinEdge`, `StepWithinEdge`, and `RunWithinWindow` for runs). It does while the count is exact
  (`ExactFits`), and an acknowledgment keeps it exact if and only if its window covers everything sent (`AckExact`).
* **A datagram that cannot be serialized** can be received, because `IPv4Datagram::parse` ignores the verdict of the header
  parser (`ParsedNotSerialized`, `WrongVersionIsStuck`). In the queue for a next hop it makes every flush throw: datagrams
  before it are sent again with each ARP message and later ones overtake it (`StuckQueue`). That no datagram waits for a
  known address survives an ARP message if and only if everything queued for its sender serializes (`StepKeeps`, `RunExact`).
  `route` ends with empty inboxes if and only if every datagram that is sent at once serializes (`RouteFinishes`).

The header of `tcp_receiver.hh` calls the window the distance to the first sequence number that is not accepted; the code
meets that until the input ends (`WindowIsExact`).

## Conventions

* Counters of bytes, sequence positions and milliseconds are unbounded. Lemmas that translate to 64-bit numbers ask
  for counters below 2^63. `index + size` in `push_substring` does wrap at 2^64, because a repeated SYN gives index 2^64 - 1.
* Sequence distances below 2^31 are assumed of the range in flight and of arriving segments (`Roomy`, `Timely`,
  `TimelyAck`); TCP relies on this too, through the maximum segment lifetime.
* Routing asks that every route name an existing interface, and reading a byte stream that its capacity is not zero: the
  code indexes, respectively divides, without a test.
* In `Duplex` an inactive connection is only read from, as the event loop of `tcp_sponge_socket.cc` does it; resets may
  come from anywhere at any time.
* The ordered set of substrings is a sorted sequence with `lower_bound`, `insert` and `erase` as functions on it.
* A codec call that throws returns `None`; `send_datagram`, `recv_frame` and `route` report a throw together with the state
  the exception leaves, and runs go on from that state. The clock, the initial sequence number and the peer are inputs.
* Where a lemma bounds a checksum by `0xff00` per byte it says that the 32-bit sum does not overflow; any length that fits
  the 16-bit length fields meets it (`PseudoChecksumRoom`).

## Model

| member | source | states |
|---|---|---|
| WrappingIntegers.UnwrapNearest | libsponge/wrapping_integers.cc:36-48 | for all numbers, ISNs and 64-bit checkpoints the result names the same position as `n` and no other 64-bit position naming it is nearer to the checkpoint |
| WrappingIntegers.UnwrapWrap | libsponge/wrapping_integers.cc:20-48 | exactly when unwrap(wrap(x)) = x: within 2^31 of the checkpoint, at distance 2^31 in the same block, or near either end of the 64-bit range |
| WrappingIntegers.UnwrapStable | libsponge/wrapping_integers.cc:36-48 | a position within 2^31 of the checkpoint is recovered from any number that names it |
| WrappingIntegers.WrapAdd | libsponge/wrapping_integers.hh:58-59 | advancing a position by k advances its wrapped number by k modulo 2^32 |
| ByteStreams.RunConserves | libsponge/byte_stream.cc:19-62 | over every run of writes, reads and end the log grows by exactly what was accepted, reads return consecutive stretches of it, and nothing is accepted after the end |
| ByteStreams.WriteFills | libsponge/byte_stream.cc:19-32 | before the end a write accepts everything or leaves the buffer full with a proper prefix; after the end, nothing; nothing else changes |
| ByteStreams.ReadTakes | libsponge/byte_stream.cc:35-60 | a read takes what is asked for or empties the buffer, from where the last read stopped |
| ByteStreams.RunEnds | libsponge/byte_stream.cc:62 | after any run the input has ended if and only if it had before or some operation ended it |
| ByteStreams.RunRefuses | libsponge/byte_stream.cc:19-32 | after any run without an end, a write is accepted whole or the buffer is full after it |
| ByteStreams.ByteStream.constructor | libsponge/byte_stream.cc:17 | an empty open stream of the given capacity |
| ByteStreams.ByteStream.WriteBytes | libsponge/byte_stream.cc:19-32 | the ring loop appends to the log as many bytes as fit, none after the end, and returns how many; `WriteFills` says what that amounts to |
| ByteStreams.ByteStream.PeekOutput | libsponge/byte_stream.cc:35-43 | returns the next unread bytes of the log |
| ByteStreams.ByteStream.PopOutput | libsponge/byte_stream.cc:46-51 | advances the read position by at most what is buffered; front and rear stay the counts modulo the capacity |
| ByteStreams.ByteStream.Read | libsponge/byte_stream.cc:56-60 | returns and consumes the next unread bytes |
| ByteStreams.ByteStream.End | libsponge/byte_stream.cc:62 | closes the input |
| ByteStreams.ByteStream.RemainingCapacity | libsponge/byte_stream.cc:76 | capacity minus unread bytes |
| StreamReassemblers.StreamReassembler.MergeNodes | libsponge/stream_reassembler.hh:25-38 | the three cases of `merge` on one pair of nodes |
| StreamReassemblers.StreamReassembler.AssembleString | libsponge/stream_reassembler.hh:40-59 | the write-out loop computes `Assemble` |
| StreamReassemblers.StreamReassembler.AbsorbFollowers | libsponge/stream_reassembler.cc:38-54 | the merge loop over later nodes computes `Absorb` |
| StreamReassemblers.StreamReassembler.JoinPredecessor | libsponge/stream_reassembler.cc:56-72 | the merge with the earlier node computes `Join` |
| StreamReassemblers.StreamReassembler.PushSubstring | libsponge/stream_reassembler.cc:23-78 | one push computes `Push` on the abstract state, over the ring buffer |
| ReassemblyProofs.MergeHolds | libsponge/stream_reassembler.hh:25-38 | overlapping nodes merge to the union of their ranges, the first node's bytes winning, and the overlap is counted exactly |
| ReassemblyProofs.AbsorbShape | libsponge/stream_reassembler.cc:38-54 | which nodes the merge loop erases, the extended node and the byte counter |
| ReassemblyProofs.StoreReplaces | libsponge/stream_reassembler.cc:36-72 | both merges together replace one stretch of the cache by one node that fits between its neighbours, and the counter stays the sum of the lengths |
| ReassemblyProofs.StoreHolds | libsponge/stream_reassembler.cc:36-72 | the cache stays disjoint, sorted and within bounds, and holds exactly the old indices and the new ones |
| ReassemblyProofs.StoreJoinsOverlaps | libsponge/stream_reassembler.cc:36-72 | the two merges join only substrings that share a byte |
| ReassemblyProofs.AbsorbNeverUnderflows | libsponge/stream_reassembler.cc:43-51 | no subtraction from the byte counter in the merge loop goes below zero |
| ReassemblyProofs.WriteFirstKeeps | libsponge/stream_reassembler.hh:46-57 | the write inside `assemble_string` is never short while the input is open, and its subtraction from the counter does not underflow |
| ReassemblyProofs.AssembleHolds | libsponge/stream_reassembler.hh:40-59 | writing out moves bytes from cache to output, loses none while open, and leaves everything pending strictly above the head |
| ReassemblyProofs.PushHolds | libsponge/stream_reassembler.cc:23-78 | for any contents and overlap: invariant kept, accepted indices grow by exactly the in-window part, stored bytes were stored or pushed, the exact end condition, a frozen output after the end |
| ReassemblyProofs.PushKeepsInvariant | libsponge/stream_reassembler.cc:34-74 | the invariant survives a push if and only if it is not an empty substring strictly inside a pending one |
| ReassemblyProofs.DisturbedCountsTwice | libsponge/stream_reassembler.cc:36-72 | after every push of the other kind, pushing the byte at its index, which was already pending, raises the count of pending bytes by one |
| ReassemblyProofs.PushJoinsOverlaps | libsponge/stream_reassembler.cc:34-74 | substrings that only touch are never joined: an index strictly inside a pending one was so before or is strictly inside what was pushed |
| ReassemblyRuns.RunRefines | libsponge/stream_reassembler.cc:23-82 | every run agrees with the reference machine: head is the least index never received, the same end flag, and the pending count is the number of distinct indices above the head |
| ReassemblyRuns.DistinctPending | libsponge/stream_reassembler.hh:83-87 | the pending count equals the number of distinct pending indices |
| StreamIntegrity.SliceKeepsFaithful | libsponge/stream_reassembler.cc:23-78 | pushing slices of one stream keeps only that stream's bytes and a correct end mark, if and only if the push is neither of the two excluded kinds |
| StreamIntegrity.FaithfulOutput | libsponge/stream_reassembler.hh:62-79 | the output is a prefix of the stream, all of it once ended |
| StreamIntegrity.RunDeliversStream | libsponge/stream_reassembler.cc:23-78 | in every run of slices and reads the output is a prefix of the stream and ends only when complete |
| StreamIntegrity.PrematureTruncates | libsponge/stream_reassembler.cc:24-33 | after an end mark ahead of the last byte, pushing the true bytes up to the last pending one ends the input too early |
| EmptySlice.EmptySliceCorrupts | libsponge/stream_reassembler.cc:55-72 | a concrete run of four true slices that delivers a byte twice |
| TcpSenders.TcpSender.constructor | libsponge/tcp_sender.cc:29-34 | initial window one, nothing sent, latest acknowledgment the ISN |
| TcpSenders.TcpSender.Fill | libsponge/tcp_sender.cc:42-94 | the loop terminates and computes `FillWindow` |
| TcpSenders.TcpSender.FillOnce | libsponge/tcp_sender.cc:63-92 | one turn of the loop |
| TcpSenders.TcpSender.SendProbe | libsponge/tcp_sender.cc:43-62 | the zero-window branch |
| TcpSenders.TcpSender.DropAcked | libsponge/tcp_sender.hh:61-75 | the loop of `remove_acked_seg` computes `RemoveAcked` |
| TcpSenders.TcpSender.Ack | libsponge/tcp_sender.cc:98-118 | `ack_received` computes `AckReceived` |
| TcpSenders.TcpSender.Elapse | libsponge/tcp_sender.cc:121-138 | `tick` computes `Tick` |
| TcpSenders.TcpSender.SendEmptySegment | libsponge/tcp_sender.cc:142-146 | queues an empty segment numbered with the next position, without remembering it |
| SenderProofs.CutReady | libsponge/tcp_sender.cc:63-92 | the next segment carries exactly the symbols after what was sent, at most 1000 bytes, within the unused window (one more for SYN); if it is empty, everything buffered is sent and FIN is sent or not due |
| SenderProofs.TransmitKeeps | libsponge/tcp_sender.cc:78-92 | sending keeps tiling, acknowledgment order and window count, and the new segment is numbered by its position |
| SenderProofs.FillLoopKeeps | libsponge/tcp_sender.cc:63-93 | the loop keeps the invariant, stops only when the window is full or nothing is left, and stays within the window |
| SenderProofs.FillWindowKeeps | libsponge/tcp_sender.cc:42-94 | the same for the whole function outside the branch that skips SYN, with at most one unit sent into a closed window; the right edge is respected when the count of used space equals the range in flight |
| SenderProofs.FillWindowExact | libsponge/tcp_sender.cc:42-94 | filling the window keeps the invariant if and only if it is not the closed-window branch before SYN with something to send |
| SenderProofs.SkippedSyn | libsponge/tcp_sender.cc:43-62 | in that branch, for every state, the first byte or FIN is sent with the number of SYN and SYN stays unsent |
| SenderProofs.FullyAckedExact | libsponge/tcp_sender.hh:64-73 | the 32-bit test for a fully acknowledged segment is the absolute one |
| SenderProofs.RemoveAckedKeeps | libsponge/tcp_sender.hh:61-75 | exactly the fully acknowledged segments are dropped and the rest still tile |
| SenderProofs.WindowUpdateExact | libsponge/tcp_sender.cc:103-108 | the used window computed on 32-bit numbers is the absolute remainder, clipped to the new window |
| SenderProofs.AckKeeps | libsponge/tcp_sender.cc:98-118 | for every number and window the invariant survives; stale and impossible numbers change nothing, others become the latest acknowledgment with the stated effect |
| SenderRuns.FillTimer | libsponge/tcp_sender.cc:91-92 | sending starts the timer if it is off (rule 5.1 of RFC 6298) |
| SenderRuns.AckTimer | libsponge/tcp_sender.cc:109-117 | new data acknowledged stops or restarts the timer and resets the backoff (rules 5.2 and 5.3); other numbers leave it alone |
| SenderRuns.TickKeeps | libsponge/tcp_sender.cc:121-138 | on expiry exactly the oldest segment is resent, the timer restarts and the timeout doubles unless the window is closed (rules 5.4 to 5.6); otherwise only time passes |
| SenderRuns.RunTimer | libsponge/tcp_sender.cc:91-138 | over every run the timestamps kept with the segments are the single timer of section 5 of RFC 6298, stepped by what it observes |
| SenderRuns.TimeoutExact | libsponge/tcp_sender.cc:130-136 | up to 16 backoffs the 32-bit timeout is the initial one times 2^count |
| SenderRuns.FillAfterFin | libsponge/tcp_sender.cc:48-51 | after FIN nothing new is ever sent |
| SenderRuns.EarlyZeroWindow | libsponge/tcp_sender.cc:43-62 | a zero window before SYN makes the sender send its first byte without SYN |
| SenderRuns.StepKeeps | libsponge/tcp_sender.cc:42-146 | every enabled step keeps the invariant and queues only genuine segments; acknowledgment and contents never go back |
| SenderRuns.StepExact | libsponge/tcp_sender.cc:42-146 | given room, a step keeps the invariant if and only if it does not skip SYN |
| SenderRuns.RunKeeps | libsponge/tcp_sender.cc:42-146 | the same over every run |
| SendWindows.FillSends | libsponge/tcp_sender.cc:42-94 | after SYN exactly as much is sent as is there and the code believes to fit: the unused part of the window, or one unit into a closed window counted as unused |
| SendWindows.FillWithinEdge | libsponge/tcp_sender.cc:42-94 | filling the window stays within the advertised edge, a closed window counting as one, if and only if no more is to be sent than fits between what is in flight and the window |
| SendWindows.StepWithinEdge | libsponge/tcp_sender.cc:42-146 | the same for every event: nothing else goes beyond the edge |
| SendWindows.RunWithinWindow | libsponge/tcp_sender.cc:42-146 | over every run nothing is sent beyond the furthest edge up to then if and only if every filling fits below it |
| SendWindows.ExactFits | libsponge/tcp_sender.cc:43-66 | while the count of used space is the range in flight, filling fits |
| SendWindows.AckExact | libsponge/tcp_sender.cc:103-108 | an acknowledgment keeps the count exact if and only if its window covers everything sent |
| SendWindows.CoveringFits | libsponge/tcp_sender.cc:43-108 | over every run with such acknowledgments the count stays exact and every filling fits |
| SendWindows.ClosedWindowFlood | libsponge/tcp_sender.cc:43-108 | from every state with something in flight into a closed window, n repeated acknowledgments with window zero draw n new bytes while the edge stays |
| SendWindows.ShrunkWindowOversends | libsponge/tcp_sender.cc:63-108 | from every state with a full window and more to send, a smaller window followed by the former one makes the sender go beyond it |
| SegmentCuts.StepCuts | libsponge/tcp_sender.cc:42-146 | every queued or outstanding segment lies between neighbouring cuts, retransmissions and empty segments included, and new cuts are made only at the end |
| SegmentCuts.RunCuts | libsponge/tcp_sender.cc:42-146 | the same over every run |
| SegmentShapes.StepPristine | libsponge/tcp_sender.cc:42-146 | every event, in every state, leaves whatever is queued or outstanding without RST, URG, PSH, ACK and options, all other fields zero |
| SegmentShapes.RunPristine | libsponge/tcp_sender.cc:42-146 | the same over every run |
| SegmentShapes.FillMaximal | libsponge/tcp_sender.cc:42-94 | whatever filling the window adds is in segments as large as possible: all but the last carry 1000 bytes, none more, and FIN travels with the last byte |
| SegmentShapes.EmptySegmentIs | libsponge/tcp_sender.cc:142-146 | exactly one more segment is queued, with the next number, of length zero and with no other field set |
| TcpReceivers.TcpReceiver.Receive | libsponge/tcp_receiver.cc:20-38 | `segment_received` computes `SegmentReceived` |
| TcpReceivers.TcpReceiver.Acknowledgment | libsponge/tcp_receiver.cc:40-47 | none before SYN, else the wrapped count of SYN, bytes and end |
| TcpReceivers.TcpReceiver.Window | libsponge/tcp_receiver.cc:49 | capacity minus what is assembled and unread |
| TcpReceivers.PushGrows | libsponge/stream_reassembler.cc:23-78 | any push in any state only adds to the output |
| TcpReceivers.RightEdgeMonotone | libsponge/tcp_receiver.cc:40-49 | for every segment and read in every state, acknowledgment and right edge, also after the 16-bit clamp, never move left |
| TcpReceivers.RunRightEdgeMonotone | libsponge/tcp_receiver.cc:40-49 | the same from any state of any run to any later one |
| TcpReceivers.AcknowledgesFirstMissing | libsponge/tcp_receiver.cc:40-47 | every byte before the acknowledged position was received and the one at it was not; SYN counts one and the end of the input another |
| TcpReceivers.WindowIsExact | libsponge/tcp_receiver.hh:44-54 | until the input ends a byte is accepted if and only if it lies below head plus window |
| EndToEnd.SegmentIsSlice | libsponge/tcp_sender.cc:78-92 | every segment after SYN is a slice of the bytes sent, with FIN only at their end |
| EndToEnd.IndexExact | libsponge/tcp_receiver.cc:34-37 | the receiver recovers the true position of a timely segment |
| EndToEnd.TopIndexIgnored | libsponge/tcp_receiver.cc:28-37 | a repeated SYN maps to index 2^64 - 1 and changes nothing |
| EndToEnd.NeverDisturbs | libsponge/tcp_sender.cc:129-146 | no segment on the wire is empty and strictly inside a pending substring of the receiver |
| EndToEnd.ArrivalUncut | libsponge/stream_reassembler.cc:34-74 | an arriving segment leaves every pending substring between neighbouring cuts of the sender |
| EndToEnd.DeliverExact | libsponge/tcp_receiver.cc:20-38 | delivering a timely copy keeps the system invariant if and only if it is not a bare FIN ahead of the last byte |
| EndToEnd.ActKeeps | libsponge/tcp_sender.cc:42-146 | every action of sender, network, receiver and applications keeps the invariant |
| EndToEnd.EndToEndSafety | libsponge/tcp_receiver.cc:20-47 | in every run the receiver's bytes are a prefix of the writer's, complete once ended, and latest ack <= assembled <= next sequence number |
| BareFin.BareFinTruncates | libsponge/stream_reassembler.cc:24-33 | a run from the initial state, every action allowed, after which delivering the bare FIN ends the input with nothing although one byte was written |
| ClosedWindow.ProbesGoBeyond | libsponge/tcp_sender.cc:43-108 | a run from the initial state, every action allowed and everything delivered at once and in order, after which the sender has gone beyond every window announced |
| TcpConnections.TcpConnection.SegmentArrives | libsponge/tcp_connection.cc:27-79 | `segment_received` computes `Receive` |
| TcpConnections.TcpConnection.WriteBytes | libsponge/tcp_connection.cc:83-88 | writes, fills the window, hands over, and returns how much was accepted |
| TcpConnections.TcpConnection.Elapse | libsponge/tcp_connection.cc:91-111 | `tick` computes `TickConnection`, including the reset after too many retransmissions |
| TcpConnections.TcpConnection.CloseInput | libsponge/tcp_connection.cc:113-118 | ends the outbound stream and fills the window |
| TcpConnections.TcpConnection.Open | libsponge/tcp_connection.cc:120-124 | sends SYN |
| TcpConnections.TcpConnection.Reset | libsponge/tcp_connection.cc:149-154 | inactive, not lingering, both streams in error |
| TcpConnections.TcpConnection.SendWithAcknoAndWin | libsponge/tcp_connection.cc:156-167 | hands over every queued segment in order with acknowledgment and clamped window |
| TcpConnections.TcpConnection.IsFinished | libsponge/tcp_helpers/tcp_state.cc:82-110 | the flag test equals receiver FIN_RECV and sender FIN_ACKED |
| ConnectionProofs.FinishedIsClean | libsponge/tcp_helpers/tcp_state.cc:82-110 | those two summaries hold if and only if no stream failed, the inbound stream ended, and SYN, every byte and FIN are acknowledged |
| ConnectionProofs.ReceiveKeeps | libsponge/tcp_connection.cc:27-79 | a segment keeps the invariant, and a connection it closes without failure did not need to linger |
| ConnectionProofs.TickKeeps | libsponge/tcp_connection.cc:91-111 | a tick keeps the invariant, and a connection it closes without failure waited ten timeouts |
| ConnectionProofs.StepKeeps | libsponge/tcp_connection.cc:27-124 | every event keeps the invariant; `active` never comes back |
| ConnectionProofs.StepExact | libsponge/tcp_connection.cc:27-124 | given room, an event keeps the invariant if and only if it does not fill a closed window before SYN with something to send |
| ConnectionProofs.LingerWaited | libsponge/tcp_connection.cc:105-110 | a run that ends inactive, not failed and lingering contains the step that closed it, ten timeouts after the last segment |
| ConnectionProofs.CleanClose | libsponge/tcp_connection.cc:45-52 | over every run: at most eight retransmissions and an exact timeout while active; inactive without failure means both streams finished and acknowledged |
| ConnectionEffects.SenderIs | libsponge/tcp_connection.cc:27-167 | what any event of a connection does to its sender is the stated sequence of acknowledgment, writing, filling, ticking and empty segments, then the queue handed over |
| Closings.FailureIsTotal | libsponge/tcp_connection.cc:149-154 | receiving a reset, or more than eight retransmissions, leaves both streams in error and the connection inactive and not lingering |
| Closings.FailsExact | libsponge/tcp_connection.cc:27-124 | an event fails a connection if and only if it is a reset or the tick of a ninth retransmission |
| Closings.GivingUpResets | libsponge/tcp_connection.cc:93-104 | giving up hands over exactly one segment, and every connection that receives it fails and answers nothing |
| Closings.ReceiveCloses | libsponge/tcp_connection.cc:45-52 | after a segment a connection is active if and only if it was, did not fail, and is not both finished at both sides and free of lingering |
| Closings.TickCloses | libsponge/tcp_connection.cc:105-110 | after a tick if and only if it was, did not fail, and has not been finished and silent for ten timeouts |
| Closings.ActiveExact | libsponge/tcp_connection.cc:27-124 | the same equivalence for all events: writing, ending, opening and reading never change it |
| Closings.StepLingers | libsponge/tcp_connection.cc:45-47 | lingering is given up in a step if and only if a segment leaves the inbound stream ended and the outbound one not at its end |
| Closings.LingersExact | libsponge/tcp_connection.cc:45-47 | over every run without failure a connection does not linger if and only if it did not before or such a segment arrived |
| Closings.StepClock | libsponge/tcp_connection.cc:27-92 | only ticks move the clock and only segments the time of the last one |
| Closings.LingeredInSilence | libsponge/tcp_connection.cc:105-110 | a connection that closed lingering did so at a step before which, by the events alone, no segment had come for ten timeouts |
| Closings.AnswersExact | libsponge/tcp_connection.cc:53-78 | what an active connection hands over for a segment carries its acknowledgment and clamped window; there is something if the segment occupies numbers or probes with the number before the expected one, else only new data, and nothing before SYN |
| Closings.FillsWhatFits | libsponge/tcp_connection.cc:83-124 | writing, ending and opening do to the stream just that, and then leave nothing unsent that the window is believed to allow |
| Closings.OpensWithSyn | libsponge/tcp_connection.cc:120-124 | the first segment of a new connection is SYN with the initial number, the clamped window and no acknowledgment |
| Duplex.PacketsAreSegments | libsponge/tcp_connection.cc:156-167 | every segment an endpoint hands over is on its wire with the acknowledgment and window of its receiver |
| Duplex.OutKeeps | libsponge/tcp_connection.cc:27-124 | an event of an endpoint keeps the one-way invariant of the direction it sends in |
| Duplex.InKeeps | libsponge/tcp_connection.cc:27-124 | and of the direction it receives in, which its segments acknowledge |
| Duplex.MoveKeeps | libsponge/tcp_connection.cc:27-124 | both directions and the connection stay sound together; SYN is never skipped between two such connections |
| Duplex.CleanCloseAtBothEnds | libsponge/tcp_connection.cc:45-52 | in every run of two connections each has received a prefix of what was written at the other, and once one is inactive without failure both streams are complete and ended at both ends |
| Duplex.NeitherFails | libsponge/tcp_connection.cc:27-111 | in every run of two connections without a reset from outside and without a ninth retransmission neither fails: what they send each other never resets |
| NetworkInterfaces.NetworkInterface.Send | libsponge/network_interface.cc:37-68 | `send_datagram` computes `SendDatagram`: the frame with the serialized bytes, the request and the queue, or the throw and an unchanged state |
| NetworkInterfaces.NetworkInterface.Receive | libsponge/network_interface.cc:71-112 | `recv_frame` computes `RecvFrame`, with the datagram parsed or the queue flushed, and the state a throw leaves |
| NetworkInterfaces.NetworkInterface.Flush | libsponge/network_interface.cc:83-90 | the loop pushes the queued datagrams, serialized, up to the first that does not serialize, and throws exactly if there is one |
| NetworkInterfaces.StepKeeps | libsponge/network_interface.cc:37-116 | that no datagram waits for a hop whose address is fresh survives an event if and only if it is not an ARP message from a hop with a queued datagram that does not serialize |
| NetworkInterfaces.StepThrows | libsponge/network_interface.cc:47-88 | a call throws if and only if it flushes such a queue, or is given such a datagram for a fresh hop |
| NetworkInterfaces.RunConserves | libsponge/network_interface.cc:37-92 | per next hop over every run without such a flush, the payloads in frames are the accepted datagrams serialized, once each and in order, and the rest wait |
| NetworkInterfaces.RunExact | libsponge/network_interface.cc:83-92 | the invariant holds after every event of a run if and only if no flush of the run gets stuck |
| NetworkInterfaces.SoundSubmissions | libsponge/network_interface.cc:83-92 | no flush gets stuck when only datagrams that serialize are submitted |
| NetworkInterfaces.RunAccounts | libsponge/network_interface.cc:37-92 | over every run, exceptions included, each accepted datagram still waits or is in a frame, and each frame carries one of them |
| NetworkInterfaces.FrameUsesLatest | libsponge/network_interface.cc:41-50 | over every run, exceptions included, each datagram frame uses the address last heard from the hop, less than 30 seconds old |
| NetworkInterfaces.FrameDelivers | libsponge/network_interface.cc:41-77 | a well-formed datagram sent to a known address is handed up unchanged, checksum filled in, by the interface with that address |
| NetworkInterfaces.RequestsSpaced | libsponge/network_interface.cc:51-66 | two ARP requests for one address are at least 5 seconds apart |
| NetworkInterfaces.StuckQueue | libsponge/network_interface.cc:81-92 | for any datagram that does not serialize, a run that sends an earlier one twice and lets a later one overtake |
| NetworkInterfaces.WrongVersionIsStuck | libsponge/network_interface.cc:72-77 | every packet of version 5 whose length adds up is handed up and cannot be sent |
| ArpExchange.SendsAtOnce | libsponge/network_interface.cc:41-50 | a datagram for an address heard less than 30 seconds ago goes out at once to it, as the only frame, or throws; nothing else changes |
| ArpExchange.Waits | libsponge/network_interface.cc:67 | otherwise it joins the end of the queue for that hop; other queues and all addresses stay |
| ArpExchange.RequestsExactly | libsponge/network_interface.cc:51-66 | a submission asks for the address if and only if it is not known and was not asked for in the last 5 seconds; the one frame is broadcast and names the asker |
| ArpExchange.WaitingWasAsked | libsponge/network_interface.cc:51-67 | over every run, whenever a datagram waits for a hop a request for it has been sent |
| ArpExchange.RepliesExactly | libsponge/network_interface.cc:93-108 | a reply is sent if and only if the message is a request for one's own address and the flush does not throw; it is the last frame, goes to who asked and carries both pairs of addresses |
| ArpExchange.HandsUpExactly | libsponge/network_interface.cc:72-77 | a datagram is handed up if and only if the frame is addressed to this interface and parses; nothing changes |
| ArpExchange.ExchangeWorks | libsponge/network_interface.cc:37-112 | for any two interfaces, request, reply and flush in turn: each learns the other's address and everything that waited is sent to it in order |
| Routers.MatchLength | libsponge/router.cc:59-65 | the inner loop's result is at least L if and only if the L high-order bits agree |
| Routers.FindRoute | libsponge/router.cc:51-72 | the scan computes `Best` |
| Routers.Best | libsponge/router.cc:51-72 | a matching route of maximal length, the latest of equals, or none if none matches |
| Routers.DecideIsLongestPrefix | libsponge/router.cc:43-83 | dropped exactly when the time to live runs out or nothing matches; else sent on the best route's interface with TTL lowered by one and nothing else changed |
| Routers.RouteOneExact | libsponge/router.cc:43-83 | one datagram throws if and only if it is to be sent at once and does not serialize; then no interface changes, else exactly the chosen one sends it |
| Routers.RouteFromExact | libsponge/router.cc:85-94 | up to the first datagram that throws, each interface is given what is decided for it, in order; that datagram stays in front of the rest with its time to live lowered |
| Routers.RouteFinishes | libsponge/router.cc:85-94 | routing ends with empty inboxes if and only if no queued datagram throws |
| Routers.Router.AddRoute | libsponge/router.cc:29-40 | appends the route with any interface number, a missing next hop stored as zero |
| Routers.Router.RouteOneDatagram | libsponge/router.cc:43-83 | computes `RouteOne`, lowers the time to live in place and reports a throw |
| Routers.Router.DrainInbox | libsponge/router.cc:89-92 | the inner loop computes `RouteInbox`; after a throw the datagram stays at the front |
| Routers.Router.RouteAll | libsponge/router.cc:85-94 | the outer loop: every queued datagram up to the first that throws is handled exactly once, in order, and what stays queued |
| Checksums.AddSplit | libsponge/util/util.cc:89-98 | splitting data over calls, at odd positions too, makes no difference |
| Checksums.AddIsTotal | libsponge/util/util.cc:89-98 | below 2^32 the wrapping sum is the true sum |
| Checksums.FoldKeeps | libsponge/util/util.cc:100-108 | folding keeps the sum modulo 65535 and reaches zero only from zero |
| Checksums.ValueZero | libsponge/util/util.cc:77-79 | data checks out if and only if its sum is a positive multiple of 65535 |
| Checksums.ValueCompletes | libsponge/util/util.cc:81-83 | filling in the computed value makes the sum check out |
| Checksums.SingleByteDetected | libsponge/util/util.cc:74-79 | changing any one byte of data that checks out is detected |
| Checksums.ChecksumExact | libsponge/util/util.cc:89-108 | the result is the ones' complement of the sum of the 16-bit words of RFC 1071 on top of the initial sum |
| Checksums.InternetChecksum.AddBytes | libsponge/util/util.cc:89-98 | the loop computes `Add` |
| Checksums.InternetChecksum.Checksum | libsponge/util/util.cc:100-108 | the folding loop computes `Value` |
| NetParsers.ParseUnparse | libsponge/util/parser.cc:26-60 | parsing a written integer returns it and leaves the rest |
| NetParsers.FailureSticks | libsponge/util/parser.cc:26-51 | an integer is read if and only if nothing failed before and enough is left; a failure consumes nothing, reads zero and stays |
| NetParsers.NetParser.ReadInt | libsponge/util/parser.cc:26-43 | the loop computes `ParseInt`, with the sticky error |
| NetParsers.NetParser.Skip | libsponge/util/parser.cc:45-51 | drops a prefix or sets the error |
| NetParsers.AppendInt | libsponge/util/parser.cc:53-60 | appends the big-endian bytes |
| TcpCodec.HeaderRoundTrip | libsponge/tcp_helpers/tcp_header.cc:17-78 | parsing a serialized header returns the same fields and leaves what follows |
| TcpCodec.HeaderAccepts | libsponge/tcp_helpers/tcp_header.cc:17-48 | the header parser accepts exactly inputs with a whole header of at least 20 bytes and leaves what follows it; what is left when only the announced length is too small |
| TcpCodec.SegmentRoundTrip | libsponge/tcp_helpers/tcp_segment.cc:12-45 | parsing a serialized segment succeeds with the same fields and payload, checksum filled in |
| TcpCodec.CorruptSegmentRejected | libsponge/tcp_helpers/tcp_segment.cc:12-17 | a serialized segment with any one byte changed is rejected |
| TcpCodec.WriteHeader | libsponge/tcp_helpers/tcp_header.cc:51-78 | the step-by-step serializer computes `SerializeHeader`, whose bytes `TcpHeaderWritten` gives |
| TcpCodec.ReadHeader | libsponge/tcp_helpers/tcp_header.cc:17-48 | the step-by-step parser computes `ParseHeader`, whose fields `TcpHeaderRead` gives |
| TcpCodec.WriteSegment | libsponge/tcp_helpers/tcp_segment.cc:30-45 | computes `SerializeSegment` |
| TcpCodec.ReadSegment | libsponge/tcp_helpers/tcp_segment.cc:12-23 | computes `ParseSegment` |
| Ipv4Codec.HeaderRoundTrip | libsponge/tcp_helpers/ipv4_header.cc:23-110 | the header parser accepts a serialized header and returns the same fields |
| Ipv4Codec.DatagramRoundTrip | libsponge/tcp_helpers/ipv4_datagram.cc:11-41 | parsing a serialized datagram succeeds with the same fields and payload, checksum filled in |
| Ipv4Codec.ParsedNotSerialized | libsponge/tcp_helpers/ipv4_datagram.cc:11-41 | every packet with a wrong version or a short header length whose length adds up parses without error to a datagram that cannot be serialized |
| Ipv4Codec.CorruptHeaderRejected | libsponge/tcp_helpers/ipv4_header.cc:68-72 | an accepted header with any one byte after the first changed is refused by the header parser |
| Ipv4Codec.PseudoChecksumRoom | libsponge/tcp_helpers/ipv4_header.cc:112-131 | the pseudo-header sum does not wrap and leaves room for any segment the datagram can carry |
| Ipv4Codec.WriteHeader | libsponge/tcp_helpers/ipv4_header.cc:78-110 | the step-by-step serializer computes `SerializeHeader`, whose bytes `Ipv4HeaderWritten` gives |
| Ipv4Codec.ReadHeader | libsponge/tcp_helpers/ipv4_header.cc:23-75 | the step-by-step parser computes `ParseHeader`, whose fields and verdict `Ipv4HeaderRead` gives |
| Ipv4Codec.WriteDatagram | libsponge/tcp_helpers/ipv4_datagram.cc:23-41 | computes `SerializeDatagram` |
| Ipv4Codec.ReadDatagram | libsponge/tcp_helpers/ipv4_datagram.cc:11-21 | computes `ParseDatagram` |
| WireLayouts.TcpHeaderRead | libsponge/tcp_helpers/tcp_header.cc:17-48 | every buffer of 20 bytes or more is read by the layout of RFC 793, section 3.1, stated on byte indices |
| WireLayouts.TcpHeaderWritten | libsponge/tcp_helpers/tcp_header.cc:51-78 | every header that serializes has that layout, reserved bits zero, padded with zeros to the announced size |
| WireLayouts.TcpSegmentWritten | libsponge/tcp_helpers/tcp_segment.cc:30-45 | a serialized segment is that header followed by the payload, and its words with the pseudo-header sum to a positive multiple of 65535 |
| WireLayouts.TcpSegmentRejected | libsponge/tcp_helpers/tcp_segment.cc:12-17 | a buffer is rejected if and only if that sum is not a positive multiple of 65535 |
| WireLayouts.TcpSegmentRead | libsponge/tcp_helpers/tcp_segment.cc:18-23 | what every other buffer parses to: fields, payload, and the error if and only if the header does not fit |
| WireLayouts.Ipv4HeaderRead | libsponge/tcp_helpers/ipv4_header.cc:23-75 | every buffer of 20 bytes or more is read by the layout of RFC 791, section 3.1, and accepted if and only if version, both lengths and the word sum are right |
| WireLayouts.Ipv4HeaderWritten | libsponge/tcp_helpers/ipv4_header.cc:78-110 | every header that serializes has that layout, the reserved flag zero, padded with zeros |
| WireLayouts.DatagramWritten | libsponge/tcp_helpers/ipv4_datagram.cc:23-41 | a serialized datagram is that header, with a word sum that is a positive multiple of 65535, followed by the payload |
| WireLayouts.DatagramRead | libsponge/tcp_helpers/ipv4_datagram.cc:11-21 | a buffer parses to a datagram if and only if what is left after the header is as long as the header says; fields and payload by index |
| TcpOverIp.StackRoundTrip | libsponge/tcp_helpers/tcp_segment.cc:12-45 | a segment carried in a datagram arrives unchanged through both formats and checksums |

## Left out

- Sockets, file descriptors, the event loop, TUN/TAP devices, address resolution and threads: foreign state and system calls.
- Ethernet and ARP byte formats: an ARP frame carries the message its payload parses to, and one that does not parse is `OtherFrame`.
- Shared buffers (`Buffer`, `BufferList`): payloads are byte sequences.
- Pretty printing, random choice of the initial sequence number, debug output, and the RST sent by the destructor.
- `AsyncNetworkInterface::recv_frame`: it only appends a received datagram to the inbox that `RouteAll` drains.
- Liveness under fair loss, and silence after a reset: the code does not test `_active` when segments or ticks arrive.
- Counters reaching 2^63: bytes, sequence positions and times are unbounded in the model.
- Which of two different bytes pushed for the same index is kept by a whole push: `MergeHolds` states it for one merge, and all promises about contents are for slices of one stream.
