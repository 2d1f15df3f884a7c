# A verified model of the TCP/IP stack

The repository is a small user-space TCP/IP stack. This project models its three connected cores in Dafny and
proves what they promise:

* **TCP transport.** The bounded byte stream over a flat array, the packed bitmap, the ring-window reassembler, 32-bit
  wrapping sequence numbers, the receiver, the sender with its two queues, counters, flags and retransmission timer,
  and finally a whole connection over a network that loses, repeats and reorders segments and acknowledgements.
* **Address resolution.** The network interface, whose table points into two queues sorted by time.
* **Codec and routing.** Chunked big-endian parsing and serializing, the Internet checksum, the IPv4 header codec, and
  longest-prefix-match forwarding.

## How it is built

Each fast structure appears twice. A class with the fields of the original (`Bitmap`, `Reassembler`, `FlatBuffer`,
`ByteStream`, `TCPReceiver`, `TCPSender`, `RetransmissionTimer`, `NetworkInterface`, `Router`, `BufferList`, `Parser`,
`Serializer`, `InternetChecksum`) has methods with the loops and branches of the source. A simple value says what it
means: a set of indices, a partial map from stream index to byte, a byte sequence, one contiguous queue of segments, a
timed map. Every method's `ensures` equates the new value with a function of the old one, and the theorems are proved
about those functions, over all inputs and over whole runs.

| layer | modules |
|---|---|
| words, bits, wrapping numbers | `Words`, `BitBlocks`, `Wrap32` |
| bitmap and ring window | `Bitmaps`, `Ring`, `SlidingWindow` |
| byte stream | `ByteStreams` |
| reassembly: meaning, code, runs | `Reassembly`, `Reassemblers`, `ReassemblyRuns` |
| receiver | `TcpMessages`, `TcpReceivers` |
| sender: steps, queue, invariant, exact effects, runs, limits, code | `SenderModel`, `SenderQueues`, `SenderInvariant`, `SenderExact`, `SenderRuns`, `SenderLimits`, `TcpSenders` |
| end to end: safety, where the stream was cut, payload sizes, never stuck | `Connection`, `Boundaries`, `PayloadSizes`, `Recovery` |
| end to end: when FIN arrives usable, and what happens otherwise | `WindowEdges`, `PrematureClose`, `LossExample` |
| end to end: the objects themselves | `Endpoints` |
| address resolution: meaning and runs, code | `ArpModel`, `NetworkInterfaces` |
| codec | `Wire`, `Checksums`, `IPv4Headers` |
| routing | `Routing` |

## What the contracts rely on

* **Reassembler** (`Reassemblers.Manageable`). Sizes and indices stay below 2^63, the reassembler is the only writer of
  its stream, and no arriving range has the one shape that the bitmap's batch operation leaves uncleared, unless nothing
  held lies in it. Every theorem about runs of the reassembler or the receiver carries this at each arrival (`AllHandled`).
  Data at least 31 bytes shorter than the capacity never has that shape (`ReassemblyRuns.ShortRunsAreHandled`); and in a
  connection no segment ever covers a held byte, so there the condition holds by itself for every capacity below 2^61
  (`Boundaries.ArrivalsAreHandled`).
* **Sender** (`SenderRuns.InOrder`, `SenderInvariant.Ready`). SYN leaves before data is there to push; no retransmission
  or FIN is still queued at a `push` and no retransmission at an acknowledgement; the timer does not expire again before
  the oldest segment has been sent again; fewer than 2^32 - 1 consecutive retransmissions. No counter wraps while fewer
  than 2^31 - 2^16 zero-window messages and fewer than 2^63 bytes have been seen.
* **Connection.** Fewer than 2^31 sequence numbers in all. For "nothing is lost", "never stuck" and the close, the first
  FIN segment arrives usable: non-empty and ending inside the window, or with nothing missing before it, or with its last byte already held. That is exact
  (`PrematureClose.UnusableFinClosesEarly`), and it holds by itself when the sender hears no stale acknowledgement and no zero window and
  no bare FIN overtakes data (`WindowEdges.OrderlyRunsLoseNothing`).
* **Parser.** Its input buffers are not empty: looking at the front byte of an empty buffer is undefined in the source.
* **Routing.** Prefix lengths are at most 32 and routes name interfaces that exist.

## Where the code differs from its own documentation

The model follows the code; each point below has a lemma or contract in the table.

* The batch operation (util/bitmap.hpp:97-128) counts and clears nothing when the range wraps and ends in the block it
  started in. A byte held in such a range is read again one turn later as the byte a full capacity further on.
* `insert` closes the stream too early when the end is announced by a substring that is cut by the capacity, or is empty
  and ahead of a gap (src/reassembler.cc:18-22).
* `unwrap` is not the closest number for checkpoints from which the forward step leaves the 64-bit range.
* Carrying SYN on a data segment breaks the sender's counters (the author's own note, src/tcp_sender.cc:123-125); `push` with
  a FIN still queued erases it; FIN can land on a retransmission; a second expiry reads the front of an empty queue.
* `IPv4Header::parse` does not only set the error flag: for a version other than 4, and for an empty input, it throws,
  because verifying the checksum serializes. The checksum is taken over the first twenty bytes only, also when there are
  options.
* `add_route` shrinks the table when interface numbers decrease (src/router.cc:23). `route` takes at most one datagram
  from each interface per call, where src/router.hh:94-99 says every one.
* The router counts the time to live down (src/router.cc:70) and leaves the header checksum as it was, so no forwarded
  header is accepted by `parse`.
* The branch of `Buffer::push` that grows the array (src/byte_stream.hh:61-63) can never be taken.

## Model

| member | source | states |
|---|---|---|
| Wrap32.UnwrapClosest | src/wrapping_integers.cc:13-30 | Unwrapping gives the number with that image which is closest to the checkpoint, the lower one on ties, if and only if the forward step stays below 2^64; every checkpoint below 2^64 - 2^32 qualifies. |
| Wrap32.StepIsNearest | src/wrapping_integers.cc:18-29 | Every other 64-bit number with the same 32-bit image is farther from the checkpoint, or as far and higher. |
| Wrap32.RoundTrip | src/wrapping_integers.cc:7-30 | A number within 2^31 of the checkpoint survives wrapping and unwrapping (RFC 9293 section 3.4). |
| BitBlocks.MaskBits | util/bitmap.hpp:104-105 | The start mask has exactly the bits from its index up, the end mask exactly those up to its index. |
| BitBlocks.CountOnesIsCardinality | util/bitmap.hpp:145-173 | The population count of a block is the number of its set positions. |
| Bitmaps.Bitmap.Resize | util/bitmap.hpp:41-46 | Elements of the blocks that remain are kept, and nothing else is recorded. |
| Bitmaps.Bitmap.Set | util/bitmap.hpp:53-59 | The recorded set gains exactly that element. |
| Bitmaps.Bitmap.Unset | util/bitmap.hpp:67-73 | The recorded set loses exactly that element. |
| Bitmaps.Bitmap.Get | util/bitmap.hpp:84-90 | The answer is membership in the recorded set. |
| Bitmaps.Bitmap.PopCountAndUnsetBatch | util/bitmap.hpp:97-128 | Removes exactly the elements of the circular range from the recorded set and returns how many of them were there, for every start and end except a range that wraps inside one block, where it returns 0 and changes nothing. |
| Bitmaps.Bitmap.UnsetAcrossBlocks | util/bitmap.hpp:116-127 | The circular loop over whole blocks terminates and clears and counts exactly the circular range. |
| Bitmaps.ClearingBlock | util/bitmap.hpp:110-112 | Masking one packed block removes exactly the elements the mask stands for, and the masked population count is how many there were. |
| Ring.SlotsAreCircular | src/reassembler.cc:46-46 | The slots of a stretch of stream indices, at most one turn long, are exactly the circular range between the two arguments of the batch call. |
| Ring.OneAtATimeClears | src/reassembler.cc:34-43 | The bit-by-bit loop counts and removes exactly the slots of the stretch. |
| Ring.BatchMatchesLoop | src/reassembler.cc:34-46 | The batch operation does what the bit-by-bit loop did if and only if the range does not wrap inside one block or holds no set bit. |
| Ring.ShortRangesAreSafe | util/bitmap.hpp:108-114 | Ranges at least 31 short of a full turn never have the excluded shape; one of exactly 30 short can have it. |
| SlidingWindow.BitMeansHeld | src/reassembler.cc:54-54 | Within one turn, a set bit stands for exactly one stream index: testing it answers whether that very index is held. |
| SlidingWindow.NextTurnIsEmpty | src/reassembler.cc:54-61 | One full turn on there is no set bit, so the drain loop cannot run past the window. |
| SlidingWindow.SlotSetSize | src/reassembler.cc:46-70 | There are as many set bits as held indices. |
| SlidingWindow.SlotSetWithoutStretch | src/reassembler.cc:46-46 | Clearing the slots of a stretch forgets exactly the held indices of that stretch, and as many bits as indices. |
| SlidingWindow.HoldsAfterStoring | src/reassembler.cc:66-71 | Setting the bit and writing the byte adds exactly that index to what the ring holds and disturbs no other. |
| ByteStreams.FirstInFirstOut | src/byte_stream.cc:11-71 | Over every sequence of pushes, pops and closes, the bytes popped followed by the bytes buffered are the bytes buffered at first followed by the bytes accepted, and the capacity is respected. |
| ByteStreams.FlatBuffer.Compact | src/byte_stream.hh:65-74 | Both ways of moving the content to the head of the array preserve the view, also when source and target overlap. |
| ByteStreams.FlatBuffer.Push | src/byte_stream.hh:49-77 | The view grows by exactly the accepted bytes; the array is never replaced, as the growing branch is unreachable. |
| ByteStreams.FlatBuffer.Pop | src/byte_stream.hh:79-81 | The view loses exactly its first bytes. |
| ByteStreams.ByteStream.Push | src/byte_stream.cc:11-16 | The stream accepts the longest prefix of the data that fits and keeps everything accepted before. |
| ByteStreams.ByteStream.Pop | src/byte_stream.cc:65-71 | The stream releases at most what is buffered, from the front. |
| ByteStreams.ByteStream.Peek | src/byte_stream.cc:48-51 | The reader sees exactly the accepted and not yet popped bytes. |
| ByteStreams.ByteStream.IsFinished | src/byte_stream.cc:53-57 | Finished means closed with everything accepted also popped. |
| Reassemblers.Reassembler.Insert | src/reassembler.cc:5-74 | Ring, bitmap, loops and close guard together compute the merge of the offered bytes with the held ones, the write-out of the contiguous run, and the close check, with the byte counter equal to the number of held indices. |
| Reassemblers.Reassembler.Assemble | src/reassembler.cc:31-62 | In-order data: the covered bits are cleared, the run behind the data is drained, and exactly that run is written. |
| Reassemblers.Reassembler.Drain | src/reassembler.cc:51-61 | The drain loop terminates inside the window and appends exactly the held bytes up to the first index that is not held. |
| Reassemblers.Reassembler.Store | src/reassembler.cc:63-72 | The buffering loop adds the bytes of indices not held yet and leaves held bytes as they are. |
| Reassemblers.PushedRun | src/reassembler.cc:57-62 | The writer's own truncation cuts the data exactly at the window and never cuts a drained byte; nothing is appended to data the capacity truncated. |
| Reassemblers.AfterBatch | src/reassembler.cc:46-46 | After the batch call the ring holds exactly the indices outside the stretch, and the returned count is the difference, if and only if the range is not of the excluded shape or nothing in it was held. |
| Reassemblers.StaleBitShowsNextTurn | util/bitmap.hpp:108-114 | In the excluded shape a covered byte's bit stays set, and one turn later its slot reads as the index a full capacity further on, with the old byte. |
| Reassemblers.ShortDataIsManageable | util/tcp_config.hh:13-14 | Data at least 31 bytes shorter than the capacity meets the reassembler's precondition in every state. |
| ReassemblyRuns.Take | src/reassembler.cc:5-74 | On the objects, an arriving substring of the source or a read takes exactly the step of the run. |
| ReassemblyRuns.ReassemblesPrefix | src/reassembler.cc:24-73 | Over every run of reads and of insertions that may be handed in, the written stream is the source up to the least index not delivered inside the window, and the held bytes are exactly the delivered ones beyond it. |
| ReassemblyRuns.Replay | src/reassembler.cc:5-74 | Ring, bitmap and stream, driven through any such run, end in the value of the run. |
| ReassemblyRuns.Reassembled | src/reassembler.cc:5-80 | So the stream object holds the source up to the first unassembled index, which is the least one not delivered, and the pending counter is the number of delivered indices beyond it. |
| ReassemblyRuns.ShortRunsAreHandled | util/tcp_config.hh:13-14 | Substrings at least 31 bytes shorter than the capacity may be handed in at any time, over every run. |
| ReassemblyRuns.ArrivingBytesWin | src/reassembler.cc:31-62 | When substrings contradict one another: one that reaches the first unassembled index wins, and every byte of it inside the window is written as it arrived. |
| ReassemblyRuns.HeldBytesStay | src/reassembler.cc:63-72 | One ahead of a gap only fills gaps: held bytes stay as they are and nothing is written. |
| ReassemblyRuns.EndSecuredIff | src/reassembler.cc:7-22 | The first substring flagged last makes sure the end cannot be missed if and only if nothing is missing before it, its last byte is already held, or it is non-empty and ends inside the window. |
| ReassemblyRuns.RunClosesExactly | src/reassembler.cc:7-73 | Over every run in which that holds and every substring may be handed in, the stream is closed exactly when the end has been announced and every byte of the source is written, never earlier. |
| ReassemblyRuns.UnsecuredEndClosesEarly | src/reassembler.cc:18-22 | If the end is announced and not secured, further genuine substrings, each of which may be handed in when it arrives, close the stream with bytes missing, so the condition cannot be weakened. |
| ReassemblyRuns.EarlyCloseAheadOfGap | src/reassembler.cc:18-22 | Concretely: an empty last substring behind a missing byte closes the stream. |
| ReassemblyRuns.EarlyCloseOnTruncation | src/reassembler.cc:18-24 | Concretely: two last bytes where one fits close the stream after one. |
| TcpReceivers.TCPReceiver.Receive | src/tcp_receiver.cc:7-27 | The receiver object takes the step of the value it stands for: initial number, stream index by unwrapping, insertion, and the finished flag only once the stream is closed. |
| TcpReceivers.IndexFollows | src/tcp_receiver.cc:19-20 | However long the stream already is, a segment numbered within 2^31 of the first unassembled index is placed at its absolute number less one. |
| TcpReceivers.SynIndexIsZero | src/tcp_receiver.cc:9-13 | A segment with SYN gives the initial number and starts at index 0. |
| TcpReceivers.InOrderIsWritten | src/tcp_receiver.cc:7-27 | At every first unassembled index, the segment numbered right behind what has been assembled has its whole payload written, if it fits the window. |
| TcpReceivers.ReceivedTracks | src/tcp_receiver.cc:7-27 | At every length of the stream, a genuine segment near it keeps the relation between written stream, held bytes and delivered indices. |
| TcpReceivers.SynSetsTheNumber | src/tcp_receiver.cc:9-17 | Before any SYN nothing happens, every SYN sets the initial number, and no other segment changes it. |
| TcpReceivers.FinishedExactly | src/tcp_receiver.cc:18-26 | Over every run from the start, the receiver asks for one number more exactly when its stream is closed. |
| TcpReceivers.TCPReceiver.Send | src/tcp_receiver.cc:29-41 | The message carries the acknowledgement of the value the object stands for. |
| TcpReceivers.RightEdgeIs | src/tcp_receiver.cc:29-41 | Acknowledgement number plus window is 1, plus 1 once finished, plus the smaller of bytes popped plus capacity and first unassembled index plus 65535. |
| TcpReceivers.AcknowledgementsAdvance | src/tcp_receiver.cc:9-41 | Over every run of segments that may be handed in, the acknowledgement is the wrapped 1 + bytes written + 1 once finished, it never decreases, and the right edge of the window never moves left (RFC 9293 section 3.8.6). |
| TcpReceivers.Replay | src/tcp_receiver.cc:7-41 | The objects, driven through such a run, send exactly that acknowledgement: 1 + bytes pushed + 1 once finished, no lower than before, with a right edge no further left. |
| SenderQueues.OutstandingTotal | src/tcp_sender.hh:79-88 | Retransmissions reversed, then unacknowledged, then new segments: the one logical queue has the total length of both queues. |
| SenderInvariant.SameOutstanding | src/tcp_sender.cc:67-88 | Sending the first queued segment, new or again, leaves the logical queue as it is. |
| SenderInvariant.MaybeSendKeeps | src/tcp_sender.cc:29-93 | `maybe_send` keeps the whole invariant: contiguous tiling, true counters, SYN only at 0, FIN only at the end, window bound, timer relation. |
| SenderInvariant.PushKeeps | src/tcp_sender.cc:95-151 | `push` keeps the invariant, takes bytes off the stream without losing any, and with a non-zero window never raises what is in flight above the larger of window and previous value; with a zero window it adds at most one. |
| SenderExact.PushTakesWhatFits | src/tcp_sender.cc:95-135 | A push takes from the stream exactly the smaller of what there is and what the window leaves over, nothing when the window is full, one byte into an unprobed zero window, and cuts it into segments of 1000 bytes with the remainder in the last. |
| SenderExact.FinRidesWhenItFits | src/tcp_sender.cc:136-151 | A push queues FIN exactly when it is due, the stream is closed and used up, a segment is there to carry it and it fits the window; it rides on the last segment only. |
| SenderExact.FlagsGoWhenDue | src/tcp_sender.cc:32-65 | With nothing queued, a bare segment goes out exactly when SYN or FIN is due and the window has room or is zero and unprobed, and it carries just what is due. |
| SenderExact.FirstGoesOut | src/tcp_sender.cc:66-92 | With segments queued, the first goes out as it is, behind the unacknowledged ones or, sent again, in front of them, and a timer that is off starts with its full timeout. |
| SenderExact.EmptyMessageTakesNothing | src/tcp_sender.cc:153-159 | The empty message takes no sequence number, carries no flag and is numbered with the next one. |
| SenderInvariant.ReceiveKeeps | src/tcp_sender.cc:161-206 | Any acknowledgement, however old or impossible, keeps the invariant. |
| SenderInvariant.TickKeeps | src/tcp_sender.cc:208-230 | An expiry moves the oldest segment between the queues and keeps the invariant: the timer runs exactly while something sent is unacknowledged, and its timeout is the initial one doubled once per consecutive retransmission (RFC 6298 section 5). |
| SenderInvariant.StoredSeqnoIsTrue | src/tcp_sender.cc:178-179 | A stored 32-bit sequence number unwraps to the absolute number it was made from. |
| SenderInvariant.AckedExactly | src/tcp_sender.cc:175-189 | Stopping at the first unacknowledged segment finds exactly the segments that end at or below the acknowledgement number. |
| SenderInvariant.CumulativeAck | src/tcp_sender.cc:169-190 | An acknowledgement beyond the next sequence number changes nothing but the window; any other removes exactly the segments that end at or below it (RFC 9293 section 3.10.7.4). |
| SenderInvariant.OldestAfterReceive | src/tcp_sender.cc:169-190 | The oldest outstanding number moves only forward and never past the acknowledgement. |
| SenderRuns.StepKeeps | src/tcp_sender.cc:29-230 | Every call made in order keeps the invariant. |
| SenderRuns.ReachableStates | src/tcp_sender.cc:17-21 | In every reachable state both queues form consecutive segments holding what the stream says, at most 1000 bytes each, SYN only at 0 and FIN only last, and the number reported in flight is the true one, at most 65535 plus the zero-window messages received. |
| SenderRuns.RetransmitsWhenDue | src/tcp_sender.cc:208-230 | Over every run, whatever is written, pushed, sent or heard between the waits: while nothing restarts the timer, its timeout is the one at the start less the time waited, it expires with the wait that completes it and with none before, and then the oldest segment is queued again and the timer restarted, doubled unless the window is zero. |
| SenderRuns.RestartIsFull | src/tcp_sender.cc:192-227 | An expiry and an acknowledgement of something new give the timer its full timeout. |
| SenderLimits.SynOnDataMiscounts | src/tcp_sender.cc:70-76 | Putting SYN on a segment already counted always breaks the unsent counter. |
| SenderLimits.PushBeforeSynQueuesData | src/tcp_sender.cc:119-126 | Pushing data while SYN is unsent queues exactly such a segment. |
| SenderLimits.SynOnDataExample | src/tcp_sender.cc:70-76 | Concretely: one byte pushed first leaves 2^32 - 1 unsent numbers on record. |
| SenderLimits.QueuedFinIsErased | src/tcp_sender.cc:140-149 | Pushing again while a FIN is queued erases it for good and the counter is off. |
| SenderLimits.FinOnRetransmission | src/tcp_sender.cc:142-149 | With only retransmissions queued, FIN lands on the oldest segment and the queue is no longer a tiling. |
| SenderLimits.SecondExpiryFindsNothing | src/tcp_sender.cc:213-227 | After an expiry with one unacknowledged segment the next expiry finds the queue empty. |
| TcpSenders.TCPSender.MaybeSend | src/tcp_sender.cc:29-93 | The object sends what its value sends and becomes that step's value; with the lemmas above this ties the code to the invariant. |
| TcpSenders.TCPSender.Push | src/tcp_sender.cc:95-151 | The segmentation loop over a view taken once, with its index, takes the same steps as cutting from the live stream until data or window is used up. |
| TcpSenders.TCPSender.Receive | src/tcp_sender.cc:161-206 | The popping loop removes the acknowledged front, keeps the counter and restarts or stops the timer as the value does. |
| TcpSenders.TCPSender.Tick | src/tcp_sender.cc:208-230 | The object's tick is the value's tick; the front of the queue is read only when it is there. |
| Connection.PlacedRight | src/tcp_receiver.cc:9-20 | In every state of the connection, whatever copy of whatever segment arrives, the receiver places its payload at the index the sender took it from. |
| Connection.OldAckIsHarmless | src/tcp_sender.cc:169-190 | However old the acknowledgement that arrives, the sender lets go only of what the receiver has asked beyond. |
| Boundaries.StepKeepsCuts | src/tcp_sender.cc:102-149 | Two segments ever sent carry the same stretch of the stream or disjoint ones, and the receiver has the bytes of each stretch from the front, over every step. |
| Boundaries.CoversNothingHeld | src/reassembler.cc:46-46 | A segment that reaches the first unassembled index covers no held byte. |
| Boundaries.ArrivalsAreHandled | src/tcp_receiver.cc:19-20 | Over every run and for every receive capacity below 2^61, whatever segment can arrive next meets the reassembler's precondition. |
| Connection.StepKeeps | src/tcp_sender.cc:29-230 | Every step of sender, receiver or network keeps the connection's invariant. |
| Connection.DeliversPrefix | src/reassembler.cc:24-73 | End-to-end safety: over every run with loss, repetition and reordering in both directions, what the receiver has written is a prefix of what the sender has taken from its stream. |
| Connection.NothingLost | src/tcp_sender.cc:66-93 | Over every run with usable FIN segments, each byte taken from the stream is either written by the receiver or still carried, unchanged, by a segment in a sender queue. |
| Connection.ClosedMeansComplete | src/reassembler.cc:17-22 | Over the same runs, a closed inbound stream holds the whole outbound stream, which is closed too. |
| Connection.AllAckedMeansComplete | src/tcp_receiver.cc:22-26 | Over the same runs, once FIN has been sent and nothing is outstanding, the receiver is finished and has written everything. |
| Connection.BareFinAheadOfGap | src/reassembler.cc:18-30 | A bare FIN ahead of a gap, with nothing held, closes the inbound stream and the next acknowledgement covers a byte never received. |
| LossExample.ByteIsLost | src/reassembler.cc:18-30 | A run from the start in which this happens: a state is reached in which a byte taken from the stream is neither written nor carried by any outstanding segment. |
| PrematureClose.UnusableFinClosesEarly | src/reassembler.cc:18-22 | The condition on FIN is exact: after any run of usable FIN segments, a FIN that arrives and is not usable can be followed by steps that close the inbound stream with bytes missing. |
| PrematureClose.StepInHand | src/tcp_sender.cc:84-93 | Everything sent and not acknowledged stays deliverable: the very segments are among those sent. |
| WindowEdges.StepKeepsEdge | src/tcp_sender.cc:107-149 | While no stale acknowledgement and no zero window is heard, the sender never sends beyond the right edge of the receiver's window. |
| WindowEdges.FinArrivesUsable | src/tcp_sender.cc:139-149 | Then every FIN segment with a payload ends inside the window when it arrives. |
| WindowEdges.OrderlyRunsLoseNothing | src/tcp_sender.cc:29-230 | Over such runs, in which no bare FIN overtakes data, nothing is lost and a closed inbound stream is complete, with no condition on FIN assumed. |
| Endpoints.Endpoints.Take | src/tcp_receiver.cc:7-41 | On the objects, each step of the connection is what the called method does. |
| Endpoints.Endpoints.Replay | src/tcp_sender.cc:29-230 | Sender, receiver, reassembler and both streams, driven through any run, end in the state of the run, and every call on the way meets its precondition. |
| Endpoints.Run | src/reassembler.cc:5-74 | End-to-end safety of the code: what the objects have written to the inbound stream is a prefix of what has been popped from the outbound one. |
| PayloadSizes.StepStaysSized | src/tcp_sender.cc:107-121 | No outstanding payload and no announced window exceeds the receiver's capacity, over every step. |
| Recovery.OldestIsTaken | src/tcp_receiver.cc:7-27 | Delivered to a receiver whose reader keeps up, the oldest outstanding segment never lies ahead of a gap, is always usable even when it carries FIN, and makes the receiver ask for what follows it. |
| Recovery.AckLetsGo | src/tcp_sender.cc:161-206 | An acknowledgement of at least the oldest segment removes it and ends the back-off. |
| Recovery.CanProgress | src/tcp_sender.cc:208-230 | From every reachable state with something outstanding, sent or still queued, there is a way on that moves the oldest outstanding number forward. |
| Recovery.OneRound | src/tcp_sender.cc:208-230 | With an empty unsent queue, an expiry, a retransmission, its delivery and the answer do that. |
| Recovery.CanDrain | src/tcp_sender.cc:29-230 | From every reachable state there is a way on in which everything outstanding is delivered and acknowledged. |
| Recovery.CanSendMore | src/tcp_sender.cc:95-151 | With nothing outstanding, an open window and a closed stream, the sender can always send more, until FIN has been sent. |
| Recovery.CanAlwaysComplete | src/tcp_sender.cc:29-230 | Never stuck: after any run with usable FIN segments, however much was lost, there is a way on in which the receiver writes everything ever written to the sender's stream and finishes, for every positive receive capacity. |
| ArpModel.AsksOnce | src/network_interface.cc:32-41 | An event queues a request frame for an address exactly when a datagram is submitted for it, its mapping is unknown and no request is outstanding, and then exactly one. |
| ArpModel.RequestsAreSpaced | src/network_interface.cc:32-41 | Over every run, any two request frames queued for one address are at least 5000 ms apart. |
| ArpModel.RunKeepsValid | src/network_interface.cc:69-127 | In every reachable state nothing expired is remembered and nothing waits for a known address. |
| ArpModel.FramedOrPending | src/network_interface.cc:23-85 | Over every run and for every address, the datagrams framed followed by those waiting are those waiting at first followed by those kept, in order; the others were dropped because a request was outstanding. |
| ArpModel.FramesAdded | src/network_interface.cc:41-91 | Each frame carries its datagram from this interface's Ethernet address to the one of the mapping in force, in order of submission, with at most an ARP message behind. |
| ArpModel.HandsUpExactly | src/network_interface.cc:51-60 | A datagram is handed up exactly when a frame for this interface carries it, and an unknown type is an exception exactly on such a frame; the interface stays as it was. |
| ArpModel.TakesInExactly | src/network_interface.cc:61-91 | An ARP message is taken in exactly when its target address is this interface's: its sender is known from then on, what waited for it is framed to it, and a request, and nothing else, is answered to the asker. |
| ArpModel.AsksWithFrame | src/network_interface.cc:32-41 | The request frame goes from this interface to all, asking for the next hop, and the datagram waits. |
| ArpModel.MappingLasts | src/network_interface.cc:73-113 | Over every run, whatever is heard meanwhile, a mapping stays as learned for 30000 ms and then has gone unless learned anew. |
| ArpModel.ClockIsWaiting | src/network_interface.cc:99-101 | The interface's clock is the sum of the waits. |
| ArpModel.TransmitsInOrder | src/network_interface.cc:129-139 | Over every run, the frames transmitted followed by those waiting are those waiting at first followed by those queued, and nothing is transmitted only when nothing waits. |
| ArpModel.RequestAndReplyResolve | src/network_interface.cc:32-91 | A request that reaches the owner of the address is answered to the asker, and the answer, whenever it comes, teaches the owner's Ethernet address and frames everything that waited to it, in order; the owner learns the asker too. |
| ArpModel.DatagramArrives | src/network_interface.cc:23-139 | From submission to delivery: once resolved and transmitted, the datagram's frame is handed up by the owner of the address. |
| NetworkInterfaces.FrontScanFilters | src/network_interface.cc:102-126 | Stopping at the first node that has not expired filters the whole map. |
| NetworkInterfaces.Appending | src/network_interface.cc:77-78 | A node appended behind a time-sorted queue keeps every pointer leading to its own node. |
| NetworkInterfaces.Popping | src/network_interface.cc:109-112 | A node leaving at the front takes exactly its own address's pointer with it. |
| NetworkInterfaces.NetworkInterface.EntryMeans | src/network_interface.cc:26-43 | An address has a mapping pointer exactly when the timed map knows it, the pointer leads to its node, and likewise for requests. |
| NetworkInterfaces.NetworkInterface.SendDatagram | src/network_interface.cc:23-46 | Table, queues and frames after the call stand for the timed map after the call. |
| NetworkInterfaces.NetworkInterface.ReceiveFrame | src/network_interface.cc:49-96 | The same for an incoming frame, with the datagram handed up or the exception for an unknown type. |
| NetworkInterfaces.NetworkInterface.Tick | src/network_interface.cc:99-127 | Scanning both queues from the front leaves the timed map filtered by age. |
| NetworkInterfaces.NetworkInterface.MaybeSend | src/network_interface.cc:129-139 | Frames leave in order, one at a time. |
| Wire.ReadBack | util/parser.hh:146-151 | A value that fits the width reads back from its big-endian bytes. |
| Wire.WriteBack | util/parser.hh:187-195 | Bytes are what their big-endian value writes. |
| Wire.MostSignificantFirst | util/parser.hh:187-195 | Byte `i` of an integer is its value divided by 256^(width - 1 - i), modulo 256. |
| Wire.FourByteOrder | util/parser.hh:187-195 | A four-byte integer starts with its value divided by 2^24, and so on down. |
| Wire.BufferList.RemovePrefix | util/parser.hh:52-65 | Whatever the chunks, what is left is the concatenation without the removed prefix, and the first chunk is never left used up. |
| Wire.Parser.Integer | util/parser.hh:132-153 | An integer read over any chunks is the big-endian value of the next bytes of the concatenation; too short an input sets the error, and once there is an error nothing is read. |
| Wire.Parser.String | util/parser.hh:156-169 | A string read chunk by chunk is the next bytes of the concatenation, with the same error behaviour. |
| Wire.Serializer.Integer | util/parser.hh:187-195 | The output grows by the big-endian bytes of the value. |
| Wire.Serializer.Buffer | util/parser.hh:198-202 | A raw buffer goes behind everything written so far. |
| Wire.Serializer.Output | util/parser.hh:220-224 | The chunks returned concatenate to everything written. |
| Checksums.InternetChecksum.AddAll | util/checksum.hh:41-46 | However the data is cut into chunks, sum and parity are those of adding it in one piece. |
| Checksums.InternetChecksum.Value | util/checksum.hh:30-39 | The fold loop terminates, and the result is the 16-bit complement of the folded sum. |
| Checksums.FoldIsResidue | util/checksum.hh:34-36 | Folding takes away a multiple of 2^16 - 1, and only zero folds to zero: one's complement addition (RFC 1071). |
| Checksums.CompletedSum | util/checksum.hh:30-39 | Adding the complement of a positive sum to it folds to 0xFFFF. |
| IPv4Headers.SerializedSpells | util/ipv4_header.cc:53-76 | Serialized headers carry every field at its place of RFC 791 section 3.1, whatever follows. |
| IPv4Headers.ExampleInBytes | util/ipv4_header.cc:53-76 | One header, byte by byte as it stands on the wire. |
| IPv4Headers.ExampleIsRight | util/ipv4_header.cc:103-113 | Its checksum is 0xb861. |
| IPv4Headers.Serialize | util/ipv4_header.cc:53-76 | Throws exactly for versions other than 4, and otherwise writes the twenty header bytes. |
| IPv4Headers.CompletedHeaderSums | util/ipv4_header.cc:103-113 | A header with its computed checksum sums to 0xFFFF. |
| IPv4Headers.CountedDownIsRejected | src/router.cc:70-70 | A header with a correct checksum and its time to live counted down no longer carries its checksum, and no input beginning with it is accepted. |
| IPv4Headers.ComputeChecksum | util/ipv4_header.cc:103-113 | Changes nothing but the checksum field, which gets the checksum of the header with a zero field, or throws exactly for versions other than 4. |
| IPv4Headers.Parse | util/ipv4_header.cc:12-50 | Parsing succeeds exactly on inputs of version 4 that are long enough, claim at least five words and carry the right checksum; it throws exactly for other versions, empty inputs and parsers in error; options are skipped. |
| IPv4Headers.RoundTrip | util/ipv4_header.cc:12-76 | A serialized header followed by anything decodes to itself, and is accepted exactly when it claims at least five words and carries the right checksum. |
| IPv4Headers.SerializesBack | util/ipv4_header.cc:22-26 | The first twenty bytes of an input are the bytes of its decoded header if and only if the reserved flag bit is clear. |
| IPv4Headers.ThereAndBack | util/parser.hh:227-243 | Serializing a version 4 header into buffers and parsing them returns the same header without error, exactly under that condition. |
| Routing.PrefixMatchedIff | src/router.cc:84-92 | The mask test holds exactly when address and prefix are the same number after division by 2^(32 - length), that is, when their top bits agree. |
| Routing.Lookup | src/router.cc:44-62 | The nested scan returns interface and next hop of a matching route of maximal prefix length, the last in scan order among equals, and none exactly when no route matches. |
| Routing.BestIsUnique | src/router.cc:55-60 | There is only one such route. |
| Routing.AddRouteKeepsIff | src/router.cc:16-24 | Adding a route keeps every other in its place if and only if none belongs to a higher interface number; the new route is always there. |
| Routing.VerdictIsUnique | src/router.cc:64-80 | What happens to a datagram is determined: sent on with TTL one less exactly when a route matches and its TTL exceeds one, otherwise dropped (RFC 1812 sections 5.2.4.3 and 5.3.1). |
| Routing.VerdictByNumbers | src/router.cc:42-80 | A datagram is sent on exactly when its TTL exceeds one and some route leads to its destination address, out of the interface of the longest such route, the last among equals, to that route's next hop or straight to the destination address, with TTL one less and otherwise as it came. |
| Routing.SameDestinationSameWay | src/router.cc:42-80 | Two datagrams to one destination address that are both sent on take the same interface and next hop. |
| Routing.ForwardedIsRejected | src/router.cc:64-80 | No datagram the router forwards is accepted by the next `parse`, if its header was right before. |
| Routing.Router.TakeTurn | src/router.cc:34-80 | One interface's turn takes one waiting datagram and carries out that verdict, touching nothing else. |
| Routing.Router.RouteAll | src/router.cc:30-82 | A call gives every interface one turn, in order. |
| Routing.RoutedMovesOneEach | src/router.cc:30-82 | Over a whole call every interface gives up its first waiting datagram and keeps the others, and what is sent on is put behind what each interface had, in order. |

## Left out

- Sockets, file descriptors, addresses, random numbers, DNS and the applications: operating system calls. An IP address is a 32-bit number, the initial sequence number a parameter.
- Sharing of payloads through shared pointers and `release()` (util/buffer.hh): payloads are immutable byte sequences, and the network copies them.
- Pointers into deques: a node is identified by its position counted from the first node ever appended; addresses and iterator validity are not modelled.
- The scope guard of `insert` is an explicit close check at its end.
- Deques, vectors and the hash table are fields of sequence or map type that methods reassign; only the byte array of the stream buffer is an array updated in place.
- Bitmap block sizes other than 32, and batch calls with indices beyond the capacity.
- `send_empty_message` is modelled (`TcpSenders.TCPSender.SendEmptyMessage`) but is not a step of the connection.
- Connection: that delivery eventually happens depends on a fair network and on the caller's clock; stated instead is that it stays possible from every reachable state (`Recovery.CanAlwaysComplete`).
- Interfaces of a router: each is its inbox of received datagrams and the log of its `send_datagram` calls; `NetworkInterfaces` models what such a call does.
- Ethernet and ARP byte layouts, and malformed ARP or IPv4 payloads in `recv_frame`: messages arrive well formed, and every opcode but a request counts as a reply.
- The overflow of the millisecond timestamp of the network interface, a 64-bit number.
- `payload_length` and `pseudo_checksum` of the IPv4 header, `dump_all` and `all_remaining` of the parser, the `read` helper of the byte stream: nothing in the theorems depends on them.
- Printing, debugging output, assertions and build scripts.
