# libquic in Dafny

A model of the parts of libquic that are its own algorithms rather than calls into ngtcp2: split
datagrams at both ends, the stream send buffer, the request streams on top of it, the path of a
packet from an endpoint's batch to the socket, and three smaller pieces (NAT64 addresses, the
connection lookup, the unencrypted handshake). `dafny verify dfyconfig.toml` checks all of it.

State that the library updates in place is a class here, whose methods are proved against pure
functions on a value (`State()`); what the library promises is then proved about those functions,
over single calls, over whole runs, or about both ends together. What the library does not control
is left arbitrary: the socket's answers, what a packet takes of the data offered to it, which
datagrams and chunks arrive and where a stream is cut, and the order of events on the loop.

| files | what they model |
|---|---|
| `Reassembly`, `ReassemblyRuns`, `RotatingBuffer` | reassembly of split datagrams from 14-bit IDs |
| `DatagramQueue`, `DatagramSender` | the datagram send queue, with lookahead and early data |
| `DatagramEndToEnd` | sender and receiver of datagrams joined together |
| `StreamSending`, `Stream` | the stream send buffer |
| `Framing`, `FrameGrammar`, `FrameReader`, `FrameStream` | `N:DATA` frames, the grammar of what is accepted, their parser, and frames over a stream |
| `Requests`, `RequestLives`, `RequestTable` | requests awaiting an answer, their expiries and their callbacks; the life of a single one |
| `RequestStream` | requests, frames and stream together: what a timeout withdraws and what the peer gets |
| `PacketFates`, `SocketAnswers`, `SendBatch` | sending a batch of packets, what becomes of each, and how the socket's answers decide that |
| `StallProtocol`, `EndpointStall` | what all connections of an endpoint do while its socket is full |
| `Segmentation` | segmentation offload on sending, and splitting of merged packets on receipt |
| `Nat64` | IPv4 addresses embedded in IPv6 ones |
| `ConnectionLookup`, `ConnectionTable` | finding the connection of a packet |
| `Handshake` | the framed messages of the unencrypted handshake |
| `Common`, `Arithmetic` | shared types, sequence facts and division facts |

Main results, by name: `RunRefines`, `DeliversExactly`, `AsIfAlone`, `UsedOnce`, `DeliversInOrder`,
`DeliversEverything`, `InOrderUnderLoss`, `RejectionReplays`, `CountsExactly`, `Conservation`,
`NoTornFrames`, `RoundTrip`, `RefusesExactly`, `ExactlyOnce`, `RunLives`, `TimeoutsAreReal`,
`PeerGetsWhatIsNotWithdrawn`, `WithdrawnExactly`, `SendBatch.SendPackets`, `AnswersDecide`,
`StallProtocol.RunInv`, `StepSends`, `RefusedIsWoken`, `Endpoint.FlushPackets`, `SentIsExact`,
`Nat64.RoundTrip`, `EmbedWords`, `LookupAgrees` and `EachLevelHandedFirst`.

Several properties that one might expect hold only under a condition. For those there is an input
that breaks them and a statement of exactly when they hold:

- Halves of different datagrams can be joined after a burst of losses (`WrapJoinsStrangers`,
  `LateThenJoinsStrangers`). Over any run whatever, a piece is joined to one held exactly if that has
  the same counter and is the other half (`DeliversExactly`).
- Lowering the lookahead during early data leaves a datagram half sent after a Retry
  (`LoweredLookaheadLosesPart`, `RetryUnsendsAll`).
- Unsent sizes are computed in 16 bits, so dropping or taking back a datagram of 64 KiB or more makes
  the byte count too high for good (`LargeDropLeavesBytes`, `LargeRetryAddsBytes`, `CountsExactly`).
- A fetched piece may be larger than there is room for (`ShrunkRoomDoesNotFit`, `FetchFits`).
- Reverting a stream does not take back its end (`RevertStrands`, `RevertIsOfferedAgain`).
- A zero-length frame discards the rest of its chunk (`ZeroLengthLosesFrame`, `ChunkAgrees`).
- An ID that a connection records although it leads to another is lost to both (`CollisionLosesId`,
  `DeleteKeepsOthers`).
- A handshake message that was refused is handed on again if reading goes on (`RefusedIsHandedAgain`,
  `EachLevelHandedFirst`).
- The NAT64 prefix of the zero address is not found again (`Nat64.RoundTrip`).

Where the code and its comments disagree the model follows the code: a length prefix may have ten
digits before its colon although the comment on the constant counts the colon among the ten, and a
bare colon is read as a zero length, which only an assertion in debug builds excludes.

Every lemma has automatic induction switched off, so each induction is the one written in its body.

## Model

| member | source | states |
|---|---|---|
| Reassembly.MakeConfig | src/datagram.cpp:141-146 | For every permitted buffer size and reorder limit, the limit is rounded up to whole blocks, the blocks divide the counter space evenly, and at most half of them count as late. |
| Reassembly.Classify | src/datagram.cpp:148-176 | Inside the arrival window, distance modulo the number of blocks tells held, late and newer blocks apart, although block numbers have wrapped. |
| Reassembly.AdvanceCases | src/datagram.cpp:155-176 | What advancing does in terms of true, unwrapped blocks: late is refused, held changes nothing, the next block clears one half, a jump clears both. |
| Reassembly.WindowIsExact | src/datagram.cpp:155-176 | Within a lap of the counters either way, an arrival is classed late, held or newer as it truly is if and only if it is in the window. |
| Reassembly.AdvanceRefines | src/datagram.cpp:155-191 | Moving to a newer block forgets exactly what an unbounded reassembler would forget, and keeps the slot table in step with it. |
| Reassembly.ArriveRefines | src/datagram.cpp:227-273 | Inside the window one arrival has the same effect and delivers the same datagram as in an unbounded reassembler. |
| Reassembly.JoinsExactly | src/datagram.cpp:227-273 | For any arriving piece, in the window or not and with whatever is held, a datagram is delivered if and only if a piece held has the same counter and is the other half; what is delivered is the join of those two. |
| Reassembly.ArriveLabelled | src/datagram.cpp:155-273 | Whatever arrives, from however far off, each piece held stays in the slot of its own datagram and seems to be in the newest block or the one before it. |
| ReassemblyRuns.RunRefines | src/datagram.cpp:155-273 | Through every run of arrivals in the window, over any number of counter wraps, the 14-bit buffer follows the unbounded one and delivers the same. |
| ReassemblyRuns.NewestIsLargest | src/datagram.cpp:155-176 | The block that the window follows is the largest of any arrival so far. |
| ReassemblyRuns.StoredArrived | src/datagram.cpp:227-273 | Whatever is stored did arrive, and belongs to the newest block or the one before it. |
| ReassemblyRuns.DeliversWholeDatagram | src/datagram.cpp:243-273 | Every delivery joins the two halves of one and the same datagram, its first half first. |
| ReassemblyRuns.LateChangesNothing | include/oxen/quic/opt.hpp:327-329 | A late piece is dropped and nothing else changes. |
| ReassemblyRuns.RetainedForHalfBuffer | include/oxen/quic/opt.hpp:284-288 | Two halves are always reassembled if both come before any datagram numbered more than bufsize/2 above them, whatever else arrives in between. |
| ReassemblyRuns.AsIfAlone | include/oxen/quic/opt.hpp:284-288 | Until a datagram numbered more than bufsize/2 above it comes, a datagram is reassembled as if it were alone: whatever else arrives, and however its pieces are repeated, each is joined with the first unused one of the other half, and with no other. |
| ReassemblyRuns.ForgottenAfterBuffer | include/oxen/quic/datagram.hpp:27-33 | Once a datagram numbered bufsize or more above has come, nothing of the older one is held, and its other half delivers nothing. |
| ReassemblyRuns.WrapJoinsStrangers | include/oxen/quic/opt.hpp:331-334 | A run that loses exactly a counter space of datagrams and joins halves of two different ones. |
| ReassemblyRuns.LateThenJoinsStrangers | include/oxen/quic/opt.hpp:331-334 | A run whose burst is shorter: what comes first after it passes for late and moves nothing on, and then halves of two different datagrams are joined. |
| ReassemblyRuns.DeliversExactly | include/oxen/quic/opt.hpp:331-334 | After any run whatever, a piece is joined exactly with a piece that arrived, is still held, has the same counter and is the other half; two that are not of one datagram are a whole counter space apart or more. |
| ReassemblyRuns.UsedOnce | src/datagram.cpp:227-273 | Over any run whatever no piece is used twice: what a delivery is joined from has come since the last delivery with its counter. |
| RotatingBuffers.StoreNew | src/datagram.cpp:193-203 | Storing in a new pool entry keeps slots and free list a partition of the pool, with no entry shared and never more entries than slots. |
| RotatingBuffers.StoreReused | src/datagram.cpp:193-203 | Storing in the entry at the head of the free list keeps the partition and the chain, and changes one slot's contents only. |
| RotatingBuffers.StoreTaken | src/datagram.cpp:193-203 | Whichever entry is used next, new or free, storing in it keeps the partition and puts exactly that half in the slot. |
| RotatingBuffers.Release | src/datagram.cpp:205-211 | Releasing an entry puts it at the head of the free list, keeps the partition and an acyclic chain, and removes exactly one piece. |
| RotatingBuffers.RotatingBuffer.constructor | src/datagram.cpp:141-146 | A new buffer is valid and empty. |
| RotatingBuffers.RotatingBuffer.ClearHalf | src/datagram.cpp:178-191 | Removes exactly the pieces of one half, and its count with them. |
| RotatingBuffers.RotatingBuffer.AdvanceTo | src/datagram.cpp:155-176 | Advances as the modular machine does, and says whether the counter was late. |
| RotatingBuffers.RotatingBuffer.Observe | src/datagram.cpp:213-216 | A datagram received whole only moves the blocks on. |
| RotatingBuffers.RotatingBuffer.Completes | src/datagram.cpp:218-225 | True if and only if receiving a piece with this ID, whatever it contains, would return a datagram. |
| RotatingBuffers.RotatingBuffer.Receive | src/datagram.cpp:227-273 | State and result are those of the modular machine; slots, pool, free list and counts stay consistent. |
| RotatingBuffers.RotatingBuffer.DatagramsStored | include/oxen/quic/datagram.hpp:49 | The two counts together are the number of datagrams of which half is held. |
| DatagramQueues.FirstSmallIs | src/datagram.cpp:372-401 | The search finds the first entry within reach that has a small part to send, and nothing if there is none. |
| DatagramQueues.ChosenIs | src/datagram.cpp:366-449 | The piece chosen has not been sent, is of the head or, if a second part, within the lookahead, and only of a datagram that is split. |
| DatagramQueues.ChosenFirst | src/datagram.cpp:366-449 | Which piece is chosen: with small pieces preferred, the second part of the first datagram in reach that has one to send; else of the head all of it, the part missing, or the first part first. |
| DatagramQueues.FetchedPiece | src/datagram.cpp:366-449 | What the piece holds, and its ID: all of its datagram, or one side of the place where that is split, which is after as much as there is room for unless the other side has been sent. |
| DatagramQueues.DropInv | src/datagram.cpp:351-364 | Dropping removes a prefix, every datagram of which was too large to send and none of which was sent early data; the front left is sendable and the invariant kept. |
| DatagramQueues.UnsendableExactly | include/oxen/quic/datagram.hpp:168-188 | A datagram cannot be sent if and only if one of the pieces in which it would still be sent has no room. |
| DatagramQueues.DropsExactly | src/datagram.cpp:351-364 | Dropping stops at the first datagram all of whose pieces left have room, and drops exactly those before it. |
| DatagramQueues.FetchInv | src/datagram.cpp:347-449 | Fetching keeps the queue's invariant, and what it returns may be confirmed. |
| DatagramQueues.FetchReturns | src/datagram.cpp:347-449 | A piece is returned if and only if, after dropping what cannot be sent, a datagram not fully sent is left. |
| DatagramQueues.FetchFits | src/datagram.cpp:347-449 | A fetched piece fits the room if and only if its datagram is not too large to send, or it is the first part of one split just now; a piece of the front always fits. |
| DatagramQueues.ShrunkRoomDoesNotFit | src/datagram.cpp:347-449 | A piece larger than the room: of a datagram behind sent early data, once the room has shrunk. |
| DatagramQueues.ConfirmInv | src/datagram.cpp:451-471 | Confirming keeps the invariant and takes exactly the piece off the byte count; only the head can be completed by it. |
| DatagramQueues.HeadFirst | src/datagram.cpp:404-471 | With no small pieces ahead of it, a datagram that can be sent is through after two accepted sends at most. |
| DatagramQueues.Drained | src/datagram.cpp:347-471 | From every queue, accepted sends of whatever sizes and choices, two for each datagram queued at most, leave nothing unsent; outside early data the queue is empty. |
| DatagramQueues.RetryInv | src/datagram.cpp:281-297 | A Retry keeps the invariant, the datagrams and their order, and starts again from the front. |
| DatagramQueues.RetryUnsendsAll | src/datagram.cpp:281-297 | After a Retry every datagram is wholly unsent if and only if no part had been sent beyond the present lookahead. |
| DatagramQueues.AcceptInv | src/datagram.cpp:299-319 | Acceptance removes exactly the fully sent datagrams and leaves the part-sent ones as they are. |
| DatagramQueues.RejectInv | src/datagram.cpp:299-319 | Rejection leaves the same datagrams, wholly unsent under the same condition as for a Retry. |
| DatagramQueues.StepInv | src/datagram.cpp:275-471 | Every operation keeps the invariant, with datagrams of any size. |
| DatagramQueues.RunInv | include/oxen/quic/datagram.hpp:194-315 | In every reachable state entries before the head are sent, the head is not, later ones have at most their second part sent, and the byte count is at least what is left to send. |
| DatagramQueues.StepExcess | src/datagram.cpp:275-471 | Every operation makes the byte count too high by exactly what is cut off the sizes it computes. |
| DatagramQueues.CountsExactly | include/oxen/quic/datagram.hpp:149-163 | After any run, with datagrams of any size, the byte count is what is left to send if and only if every size computed on the way, by a drop, a Retry or a rejection, was below 64 KiB; otherwise it is too high. |
| DatagramQueues.SmallRunCountsWhole | include/oxen/quic/datagram.hpp:149-163 | Which is so over every run of datagrams below 64 KiB. |
| DatagramQueues.RejectionReplays | src/datagram.cpp:275-319 | After any early-data run that never lowers the lookahead, rejection leaves the datagrams queued, in order and to be sent from scratch, less a prefix of ones each dropped when too large to send; all of them if the front was always sendable; and counts them exactly if and only if every size computed was below 64 KiB. |
| DatagramQueues.LoweredLookaheadLosesPart | src/datagram.cpp:281-297 | A run that lowers the lookahead and leaves a half-sent datagram behind a Retry. |
| DatagramQueues.DropCountsWhole | include/oxen/quic/datagram.hpp:149-163 | Dropping makes the byte count no worse if and only if every datagram dropped had less than 64 KiB left to send. |
| DatagramQueues.RetryCountsWhole | src/datagram.cpp:281-319 | So does a Retry or a rejection, for the datagrams it takes back. |
| DatagramQueues.LargeDropLeavesBytes | include/oxen/quic/datagram.hpp:149-163 | A queue that a datagram of 64 KiB or more leaves empty, yet with bytes counted as unsent. |
| DatagramQueues.LargeRetryAddsBytes | src/datagram.cpp:281-297 | A queue of one datagram of 64 KiB or more, counted right, that a Retry makes count too much. |
| DatagramSenders.DatagramSender.constructor | src/datagram.cpp:13-22 | A new sender is valid and empty, with the default lookahead. |
| DatagramSenders.DatagramSender.SendDatagram | src/datagram.cpp:69-102 | Queues a datagram of any size under the next counter modulo 16384 and counts all of it, or counts a drop if more than the limit is queued. |
| DatagramSenders.DatagramSender.SetSplitLookahead | src/datagram.cpp:57-63 | A negative lookahead restores the default. |
| DatagramSenders.DatagramSender.DropLeading | src/datagram.cpp:351-364 | The loop drops the leading unsendable datagrams and no others. |
| DatagramSenders.DatagramSender.FindSmall | src/datagram.cpp:372-401 | The loop finds the first small piece within the lookahead. |
| DatagramSenders.DatagramSender.Fetch | src/datagram.cpp:347-449 | Returns the chosen piece and remembers it for confirmation; returns one if and only if a datagram not fully sent is left. |
| DatagramSenders.DatagramSender.ConfirmSent | src/datagram.cpp:451-471 | Marks the fetched piece sent, without underflow of the byte count. |
| DatagramSenders.DatagramSender.EarlyDataBegin | src/datagram.cpp:275-279 | Starts keeping sent datagrams, none of which is sent yet. |
| DatagramSenders.DatagramSender.EarlyDataRetry | src/datagram.cpp:281-297 | The loop unsends what it reaches and restores the byte count. |
| DatagramSenders.DatagramSender.EarlyDataEnd | src/datagram.cpp:299-319 | Ends early data, accepted or not. |
| DatagramEndToEnd.CarryInv | src/connection.cpp:1818-1840 | A piece carried from the queue to the receiver keeps the two in step: whatever half the receiver holds of a queued datagram is the one that was sent, it holds all of those if none was lost, and it delivers what is completed here unless its other half was lost. |
| DatagramEndToEnd.LoseInv | src/connection.cpp:1818-1840 | A piece that is sent and lost on the way keeps them in step too. |
| DatagramEndToEnd.DeliversWhatIsCompleted | src/connection.cpp:1818-1840 | Over every run, drops and losses included, in which the numbers that arrive do not jump too many blocks ahead, what is delivered is a subsequence of what was completed, and all of it if nothing was lost. |
| DatagramEndToEnd.InOrderUnderLoss | include/oxen/quic/connection.hpp:252-257 | Over every such run the datagrams delivered are some of those queued, in the order they were queued, whichever pieces are lost. |
| DatagramEndToEnd.InOrderBetweenBursts | include/oxen/quic/opt.hpp:331-334 | So it is whenever fewer datagrams in a row than the counter space less the reorder limit are dropped or lost, whatever else is. |
| DatagramEndToEnd.WindowFollows | include/oxen/quic/connection.hpp:252-257 | Without drops, and with a lookahead of at most half the buffer, the numbers sent stay in the window by themselves. |
| DatagramEndToEnd.DeliversInOrder | include/oxen/quic/connection.hpp:252-257 | Over every run without drops and losses, with any choice of small pieces and any changes of piece size and lookahead, the datagrams queued are those delivered followed by those still queued. |
| DatagramEndToEnd.DeliversEverything | include/oxen/quic/connection.hpp:252-257 | If such a run goes on with accepted sends, two for each datagram still queued at most, everything ever queued has been delivered, in order. |
| StreamSending.WithdrawIs | src/stream.cpp:385-407 | Succeeds if and only if a buffer with that keep-alive lies wholly beyond what is written; takes exactly its bytes out of the unsent data. |
| StreamSending.AppendBytes | src/stream.cpp:457-478 | Data given to a stream that has not ended comes last of the unsent data; what is acknowledged and on its way stays. |
| StreamSending.FlushBytes | src/connection.cpp:1318-1366 | Of the bytes offered exactly the first that were taken are then on their way; the end goes with them if and only if it was announced, nothing was left to offer, and all of it was taken. |
| StreamSending.AckBytes | src/stream.cpp:323-359 | What is acknowledged are the first of the bytes on their way; the unsent ones stay. |
| StreamSending.RevertBytes | src/stream.cpp:409-420 | All bytes on their way are unsent again, ahead of those unsent before; none is lost or repeated. |
| StreamSending.WithdrawBytes | src/stream.cpp:385-407 | The bytes of one buffer are gone from within the unsent ones, or nothing has changed. |
| StreamSending.Conservation | src/stream.cpp:306-420 | In every state of every run, acknowledged, unacknowledged and unsent bytes add up to those taken in less those withdrawn. |
| StreamSending.WireGrows | src/stream.cpp:361-407 | Until a revert, what has been written only grows at its end. |
| StreamSending.FinStaysLast | src/connection.cpp:1318-1366 | The end of the stream is written only once all data is, and nothing but a revert undoes that. |
| StreamSending.RevertIsOfferedAgain | src/stream.cpp:409-420 | The unsent data is then all that was not acknowledged; it is offered again if and only if the end had not been written or all is acknowledged. |
| StreamSending.RevertStrands | src/stream.cpp:409-420 | A stream sent to its end in early data is stranded when that is rejected. |
| Streams.Stream.constructor | include/oxen/quic/stream.hpp:305-317 | A new stream holds nothing. |
| Streams.Stream.Buffered | src/stream.cpp:323-383 | The buffered bytes are the unacknowledged then the unsent ones, and the sizes before the send point with its offset are the unacknowledged size. |
| Streams.Stream.Send | src/stream.cpp:457-478 | Appends to the unsent data, byte for byte, unless that is empty, the stream is ended or closing, or its connection is closing, draining or gone. |
| Streams.Stream.Wrote | src/stream.cpp:361-383 | Moves the send point over exactly the bytes written: the first unsent ones are then on their way. |
| Streams.Stream.Acknowledge | src/stream.cpp:323-359 | The first bytes on their way are acknowledged, releasing and trimming buffers; the send point stays where it was in the data. |
| Streams.Stream.ReleaseAcked | src/stream.cpp:332-343 | Releases whole buffers; what remains is less than the front one. |
| Streams.Stream.TrimAcked | src/stream.cpp:345-356 | Trims the front buffer without moving the send point in the data. |
| Streams.Stream.Withdraw | src/stream.cpp:385-407 | The search from the send point withdraws the first such buffer wholly beyond what is written. |
| Streams.Stream.RevertStream | src/stream.cpp:409-420 | Everything not acknowledged is unsent again: the bytes on their way, followed by those that were unsent. |
| Streams.Stream.Pending | src/stream.cpp:422-455 | Yields a prefix of the unsent data, at least as much as asked for if there is that much, and says correctly whether there is more. |
| Streams.Stream.SendFin | src/stream.cpp:205-212 | Ends the stream. |
| Streams.Stream.FlushInto | src/connection.cpp:1318-1366 | Offers pending data with the end behind it; what a packet took of both is recorded, and nothing if it refused the write. |
| Streams.Stream.RetainedBytes | include/oxen/quic/stream.hpp:292 | The sum of the counters is the original size of all buffers still held. |
| Framing.FeedConcat | src/btstream.cpp:360-396 | Where the input is cut does not matter to the byte-by-byte parser. |
| Framing.ChunkAgrees | src/btstream.cpp:360-396 | A chunk is parsed as byte by byte if and only if what follows its first zero-length frame is nothing but such frames. |
| Framing.ZeroLengthLosesFrame | src/btstream.cpp:371-375 | A zero-length frame makes the stream lose a whole frame behind it in its chunk. |
| Framing.DecimalIs | include/oxen/quic/btstream.hpp:425-440 | The length prefix denotes the length, without leading zeros. |
| Framing.FeedFrame | src/btstream.cpp:315-396 | One encoded frame within the limit comes out as itself and leaves nothing behind. |
| Framing.ChunksAgree | src/btstream.cpp:360-396 | Input without zero-length frames is parsed the same however it is cut into chunks. |
| Framing.RoundTrip | src/btstream.cpp:315-396 | Any non-empty frames within the limit, encoded, joined and cut anywhere, are delivered as exactly those frames. |
| Framing.SenderFitsReceiver | include/oxen/quic/btstream.hpp:425-440 | A frame that the sender's size check lets through is accepted by a receiver with the same limit. |
| Framing.SenderTakes | include/oxen/quic/btstream.hpp:425-440 | The size check passes if and only if the frame, its colon and the digits of its length fit the limit. |
| FrameGrammar.ReadIsSpelt | src/btstream.cpp:315-396 | Whatever the parser does not refuse is a row of frames with right lengths, zero-length ones among them, and the start of one more; the frames delivered are those. |
| FrameGrammar.SpeltIsRead | src/btstream.cpp:315-396 | Whatever is such a row is not refused, and its frames are delivered. |
| FrameGrammar.RefusesExactly | src/btstream.cpp:321-377 | Input is refused if and only if it cannot be spelt so: only for a byte in a length that is neither digit nor colon, a length too long, too large, or with a leading zero. |
| FrameReaders.FrameReader.constructor | src/btstream.cpp:106-110 | A new reader expects a frame. |
| FrameReaders.FrameReader.PrefixAccumulator | src/btstream.cpp:315-346 | Accumulates the prefix as the parser does byte by byte, up to its colon, the end of the chunk, or an error. |
| FrameReaders.FrameReader.DataAccumulator | src/btstream.cpp:348-358 | Takes what the frame still needs and leaves the rest. |
| FrameReaders.FrameReader.ProcessIncoming | src/btstream.cpp:360-396 | Frames handed on, validity and state left are those of the parser on this chunk. |
| FrameReaders.BulkData | src/btstream.cpp:348-358 | Data copied in bulk is data taken byte by byte. |
| FrameStream.FeedPrefix | src/btstream.cpp:315-396 | From any prefix of encoded frames the parser delivers exactly those whole in it, and refuses nothing. |
| FrameStream.NoTornFrames | include/oxen/quic/btstream.hpp:339-357 | Whatever is written, acknowledged and withdrawn in between, the wire holds a prefix of the frames not withdrawn, and the peer gets exactly those of them that are whole on it, in order. |
| Requests.InsertIs | src/btstream.cpp:421-447 | Insertion keeps the expiries in order of time and distinct. |
| Requests.InsertPlace | src/btstream.cpp:421-447 | A new expiry goes behind all that are not later and before all that are, and these stay as they were. |
| Requests.TakeUpInv | src/btstream.cpp:421-447 | Taking up any waiting command, in whatever order, keeps the invariant, closing or not. |
| Requests.ReplyInv | src/btstream.cpp:228-274 | A reply keeps the invariant. |
| Requests.ReplyIs | src/btstream.cpp:228-274 | A reply answers an outstanding request, and an unknown or repeated one changes nothing. |
| Requests.ExpireIs | src/btstream.cpp:119-145 | Timing out answers the entries in order of expiry, each once, and keeps the rest in agreement. |
| Requests.FireInv | src/btstream.cpp:119-183 | When the timer fires exactly the expired requests are answered, in order, and it is armed for the earliest left. |
| Requests.ClosedInv | src/btstream.cpp:203-213 | Closing fails everything outstanding, in order. |
| Requests.StepInv | src/btstream.cpp:119-274 | Every event keeps the invariant. |
| Requests.RunInv | src/btstream.cpp:119-274 | In every reachable state table and expiries list the same requests once each, every command issued is in one place, and the timer is armed for the earliest expiry. |
| Requests.TimerInTime | src/btstream.cpp:147-183 | Over every run, while the stream is open the timer is armed if and only if a request is outstanding, for no later than the expiry of any and for that of one. |
| Requests.StepAnswers | src/btstream.cpp:73-99 | Answers given stand, and a reply is given only to a request outstanding when it came. |
| Requests.RepliesAreReal | src/btstream.cpp:228-274 | Over every run, an answer is a reply only if that reply came for it while it was outstanding. |
| Requests.ExactlyOnce | include/oxen/quic/btstream.hpp:197-211 | After any run, however the stream ends, every command issued has been answered exactly once. |
| RequestLives.TakeUpLives | src/btstream.cpp:421-447 | A command taken up is outstanding with the expiry it was issued with, and nothing is answered; only while closing has it failed. |
| RequestLives.StepLives | src/btstream.cpp:119-274 | Every event does to every request what it does to that request alone. |
| RequestLives.RunLives | include/oxen/quic/btstream.hpp:197-211 | At every point of every run a request is unissued, waiting or outstanding with its expiry, or answered in one way, if and only if its own events so far say so. |
| RequestLives.TimeoutsAreReal | src/btstream.cpp:119-145 | Over every run, a request is answered as timed out only if the timer fired at or after the expiry it was issued with, or the stream was closing or closed. |
| RequestLives.ClosingSince | src/btstream.cpp:203-213 | The stream is closing if and only if it has been closed. |
| RequestTables.RequestTable.constructor | include/oxen/quic/btstream.hpp:272-294 | A new table is valid and empty. |
| RequestTables.RequestTable.Command | include/oxen/quic/btstream.hpp:339-357 | Issues a command under the next ID. |
| RequestTables.RequestTable.InsertExpiry | src/btstream.cpp:421-447 | The loop inserts after all entries that are not later. |
| RequestTables.RequestTable.AddSentRequest | src/btstream.cpp:421-447 | Adds any waiting request to both tables, answers nobody, and arms the timer if it is now the earliest; if the stream is closing the request fails and the tables stay. |
| RequestTables.RequestTable.HandleReply | src/btstream.cpp:228-274 | Removes the request from both tables, rearms the timer if it was the earliest, and answers it. |
| RequestTables.RequestTable.FindEntry | src/btstream.cpp:257-266 | The search among equal expiries finds the request's own entry. |
| RequestTables.RequestTable.TakeDue | src/btstream.cpp:119-145 | The loop takes out exactly what is due. |
| RequestTables.RequestTable.CheckTimeouts | src/btstream.cpp:119-145 | Answers what is due, in order. |
| RequestTables.RequestTable.OnTimer | src/btstream.cpp:147-183 | Answers what is due and arms the timer again. |
| RequestTables.RequestTable.OnClosed | src/btstream.cpp:203-213 | Fails everything outstanding and leaves nothing. |
| RequestTables.RequestTable.Destroy | src/btstream.cpp:58-71 | Fails the commands not taken up and whatever is outstanding, each once, in some order. |
| RequestStream.WithdrawAllIs | src/btstream.cpp:137-144 | Withdrawing the expired requests leaves whole frames only, each in the buffer of its own request, and takes off only expired ones that are to be withdrawn. |
| RequestStream.TakeUpInv | include/oxen/quic/btstream.hpp:339-357 | A request taken up is then on the stream in one buffer of its own, or refused because the stream is closing or has ended. |
| RequestStream.RefusedExactly | include/oxen/quic/btstream.hpp:339-357 | A request taken up is refused if and only if the stream is closing or has been ended; else its frame is the last on the stream, in its own buffer. |
| RequestStream.FireInv | src/btstream.cpp:119-145 | What a timeout takes off the stream was to be withdrawn and has been answered as timed out. |
| RequestStream.WithdrawnExactly | src/btstream.cpp:137-144 | When the timer fires, the requests withdrawn are exactly the outstanding ones whose time has come, that are to be withdrawn, and of which nothing has been written. |
| RequestStream.RunInv | src/btstream.cpp:119-145 | At every point of every run each request issued is in exactly one place: waiting, refused, withdrawn, or in one buffer of the stream, which holds its frame. |
| RequestStream.PeerGetsWhatIsNotWithdrawn | include/oxen/quic/btstream.hpp:58-63 | Once all is written, the peer has received from its own buffer the frame of a request taken up and not refused if and only if that was not withdrawn; one to be sent after its timeout always is, and one withdrawn was answered as timed out and has no buffer on the wire. |
| PacketFates.MarkSentSends | src/endpoint.cpp:1304-1316 | Sending the first of the kept packets extends what was sent in the batch's own order. |
| PacketFates.MarkTooBigIs | src/endpoint.cpp:1176-1200 | Dropping by size keeps the smaller packets in order and does not touch those sent. |
| PacketFates.MarkTooBigSmallest | src/endpoint.cpp:1327-1344 | The size reported stays the smallest dropped; every packet kept is smaller than all dropped, and every packet sent from behind one is smaller than it. |
| PacketFates.SelectInOrder | src/endpoint.cpp:1304-1316 | Those sent followed by those kept are in the order of the batch. |
| SocketAnswers.ExplainedIsAnswered | src/endpoint.cpp:1254-1379 | A send told call by call is one whose fates the answers call for: as many are sent as taken, and none is dropped, kept or too big without an answer that says so. |
| SocketAnswers.AnswersDecide | src/endpoint.cpp:1254-1379 | The answers of the socket leave no choice: two sends of one batch that both follow them have the same calls, the same fate of every packet, and the same result. |
| SendBatches.Move | src/endpoint.cpp:1312-1314 | Moving elements down within an array is right although source and target overlap. |
| SendBatches.SendBatch.Shift | src/endpoint.cpp:1306-1316 | The packets from an index on are at the front of all three arrays, byte for byte. |
| SendBatches.SendBatch.DropFrom | src/endpoint.cpp:1176-1200 | In place, leaves exactly the packets below the size, in order, with their bytes, sizes and marks. |
| SendBatches.SendBatch.SendPackets | src/endpoint.cpp:1254-1379 | For every sequence of socket answers the loop ends after at most two calls per packet; each packet is sent, dropped or kept; those sent went out in order and are as many as the socket took, those kept are in the batch byte for byte; packets are kept exactly if the result is blocked, and only on a blocked answer or two short ones, and dropped only on a failure; the size reported is the smallest found too big, and nothing as large is kept or sent from behind it. Call by call the fates follow the answers: packets are taken from the front, a too-big answer drops the packet at which the socket stopped and exactly those as big, a failure drops all, and the sending ends when nothing is left, the socket is full, or it stopped short twice. |
| StallProtocol.SendIsPossible | src/endpoint.cpp:1254-1379 | What a send accounts for is what the protocol allows: packets are kept exactly if it ended blocked, and none sent is behind one kept. |
| StallProtocol.FatesPartition | src/endpoint.cpp:1254-1379 | Every packet of a batch has exactly one fate. |
| StallProtocol.StallInv | src/endpoint.cpp:1381-1392 | A flush that stalls with packets left keeps the invariant, and its connection is then due to be woken. |
| StallProtocol.WaitInv | src/endpoint.cpp:1394-1405 | A refused connection is registered once, behind those already waiting, never the owner, and is then due to be woken. |
| StallProtocol.HaltInv | src/endpoint.cpp:1407-1418 | A halted connection is neither owner nor waiter any more; everyone else stays due, and those waiting keep their order. |
| StallProtocol.AbandonInv | src/connection.cpp:1436-1468 | A batch given up because the connection is ending or failed to write leaves nothing behind, and no connection is stalled by it. |
| StallProtocol.AbandonIs | src/connection.cpp:1436-1468 | All of the batch is lost for that reason, its connection is marked if the failure was fatal, and nothing else changes. |
| StallProtocol.FlushInv | src/connection.cpp:1209-1239 | A flush of any number of batches, sent or given up, leaves the batch empty or stalled in its own name, and wakes nobody. |
| StallProtocol.FlushMarks | src/connection.cpp:1436-1468 | A flush marks its own connection as failed if and only if writing failed for good, and nobody else. |
| StallProtocol.FlushSends | src/connection.cpp:1209-1239 | A flush builds its batches in order, up to the first that does not go through; what the socket took of them is on the wire, and what is left of the last is in the batch. |
| StallProtocol.ResumeInv | src/endpoint.cpp:1420-1476 | Resuming either stays stalled and registered, or wakes all waiters in the order they came and the owner last. |
| StallProtocol.StepInv | src/endpoint.cpp:1381-1476 | Every event keeps the invariant. |
| StallProtocol.StepDead | src/connection.cpp:1436-1468 | Over every event, a connection has failed if and only if it was failed or its own flush ended so. |
| StallProtocol.StepSends | src/endpoint.cpp:1381-1476 | Over every event, what is built, on the wire and left: only a flush outside a stall builds anything, only it and the owner of a stall send, and what an owner that has gone left is lost. |
| StallProtocol.StepKnown | src/connection.cpp:770-780 | Over every event, who is known and who can still flush. |
| StallProtocol.RunInv | src/internal.hpp:32-54 | Over all runs: stalled means packets left and one callback registered, not stalled means no packets, owner or waiters; flags match the waiters; packets go only on their builder's path, are discarded unsent on a writable socket only if it has gone; each packet built is exactly once in the batch, away or lost; and those away and those left in the batch are in the order they were built. |
| StallProtocol.DueIsWoken | src/endpoint.cpp:1464-1475 | No run loses a wake-up: who is due stays due until woken or halted. |
| StallProtocol.RefusedIsWoken | src/connection.cpp:1214-1222 | A flush during a stall does nothing but register, and from then on the connection has been woken or is still due to be by a registered callback, unless halted. |
| EndpointStalls.Endpoint.constructor | src/internal.hpp:36-54 | A new endpoint is not stalled, with an empty batch. |
| EndpointStalls.Endpoint.StallSend | src/endpoint.cpp:1381-1392 | With packets left in the batch, the invariant of the protocol is kept, one callback is registered and its connection is due to be woken. |
| EndpointStalls.Endpoint.WaitForSendStall | src/endpoint.cpp:1394-1405 | The connection is due to be woken, everyone who was still is, and the order of the others stands. |
| EndpointStalls.Endpoint.ForgetSendStall | src/endpoint.cpp:1407-1418 | The connection is no longer owner or waiter, and the protocol steps accordingly. |
| EndpointStalls.Endpoint.HaltEvents | src/connection.cpp:770-780 | A halted connection is not due any more, and the invariant is kept. |
| EndpointStalls.Endpoint.SendOn | src/endpoint.cpp:1254-1379 | Sending the batch of real packets through the socket is a send of the protocol whose outcome the socket's answers decide, call by call: as many packets are sent as it took, those too big are the one it stopped at and all as big, and none is dropped or kept without an answer that says so; who built each packet stays known. |
| EndpointStalls.Endpoint.ResumeStalledSend | src/endpoint.cpp:1420-1476 | If the owner can still send, what is in the batch arrays is sent with the outcome that the socket's answers call for, else discarded without calling it; either is a possible writable event of the protocol. |
| EndpointStalls.Endpoint.WakeWaiters | src/endpoint.cpp:1466-1473 | The loop wakes the waiters in order and clears their flags. |
| EndpointStalls.Endpoint.Build | src/connection.cpp:1502-1505 | The packets are laid one behind the other in the batch arrays, each known to be built by this connection. |
| EndpointStalls.Endpoint.SendRound | src/connection.cpp:1161-1203 | Builds one batch and sends it with the outcome that the socket's answers call for, or gives it up without calling it; the invariant holds again after it. |
| EndpointStalls.Endpoint.FlushPackets | src/connection.cpp:1209-1239 | Builds batches into the arrays and sends them, each with the outcome that the socket's answers to its own calls call for; stops only after the last one planned or the first that does not go through; a possible flush of the protocol, and refused during a stall. |
| Segmentation.CutIs | src/udp.cpp:882-914 | Cutting undoes the joining of packets of one size, the last perhaps shorter. |
| Segmentation.FormedSegments | src/udp.cpp:1124-1183 | The kernel's segments of a message are the packets it was made of. |
| Segmentation.GroupedSegments | src/udp.cpp:1124-1183 | The segments of all messages are the packets of the batch, with their bytes and marks, in order. |
| Segmentation.Group | src/udp.cpp:1124-1183 | Groups are contiguous, of one mark and one size with at most a shorter last packet that is never second, and as long as they can be; their segments are the batch. |
| Segmentation.JoinsExactly | src/udp.cpp:1134-1141 | A packet can go in the message with those before it if and only if they make one message with it. |
| Segmentation.GroupsAreLongest | src/udp.cpp:1134-1141 | No message of a batch could have taken the next packet as well. |
| Segmentation.CountSent | src/udp.cpp:1206-1231 | The loop adds up what went out of each message. |
| Segmentation.SentIsExact | src/udp.cpp:1206-1231 | If the kernel took bytes from the front in whole packets, they are the bytes of exactly as many leading packets as counted. |
| Segmentation.CutSplits | src/udp.cpp:882-914 | The pieces make up the data, and are all of the one size but for the last; with no size given there is one piece. |
| Segmentation.SplitMerged | src/udp.cpp:882-914 | Packets merged on receipt come apart into what they were; any data comes apart into pieces of the size, the last perhaps shorter, that make it up. |
| Nat64.BaseBytes | include/oxen/quic/ip.hpp:187-201 | For any mask the base of an address keeps the bytes before it, clears those behind it, and of a byte that it cuts keeps the first bits. |
| Nat64.PrefixBytes | include/oxen/quic/ip.hpp:187-201 | For the lengths of NAT64 prefixes these are whole bytes. |
| Nat64.BytePositions | include/oxen/quic/ip.hpp:419-432 | The four bytes after the prefix, passing over byte 8, for the six lengths and no other. |
| Nat64.NatEmbed | include/oxen/quic/ip.hpp:436-448 | Embeds, or refuses a length that is not allowed; the two words are those of the prefix with the address shifted in behind it, eight bits later beyond bit 64. |
| Nat64.EmbedBytes | include/oxen/quic/ip.hpp:436-448 | Every byte of the result is as section 2.2 of RFC 6052 lays it out. |
| Nat64.EmbedWords | include/oxen/quic/ip.hpp:436-448 | For any prefix, the words that the bytes make up are the prefix with the address shifted into place, bit for bit, passing over bits 64 to 71. |
| Nat64.EmbedInjective | include/oxen/quic/ip.hpp:436-448 | Different addresses are embedded differently. |
| Nat64.FindPrefix | include/oxen/quic/ip.hpp:452-458 | Finds the longest length that fits. |
| Nat64.FoundEmbeds | include/oxen/quic/ip.hpp:452-458 | A prefix found embeds the address back; none is found only if no prefix does. |
| Nat64.LongerFits | include/oxen/quic/ip.hpp:452-458 | A length longer than that of the prefix fits if and only if the address is zero. |
| Nat64.RoundTrip | include/oxen/quic/ip.hpp:452-458 | The prefix is found again, although longer ones are tried first, if and only if the address is not zero or the length is 96. |
| ConnectionLookup.StepInv | src/endpoint.cpp:777-831 | Every event keeps the cache right and every ID recorded by the connection it leads to. |
| ConnectionLookup.AssociateUndone | src/endpoint.cpp:777-804 | Taking on a new ID and giving it up again leaves nothing behind but a forgotten cache. |
| ConnectionLookup.FailUndone | src/endpoint.cpp:248-278 | A connection that could not be made leaves both maps, all records and where every ID leads as they were. |
| ConnectionLookup.OpenedIsFound | src/endpoint.cpp:248-278 | A new connection is found by its ID, and all others as before. |
| ConnectionLookup.LookupAgrees | src/endpoint.cpp:813-831 | At the end of every run the cached lookup gives what the two maps give, for every ID. |
| ConnectionLookup.StaysExclusive | src/endpoint.cpp:777-786 | If connections only take new IDs, nothing recorded leads elsewhere. |
| ConnectionLookup.DeletedIsForgotten | src/endpoint.cpp:670-704 | No ID leads to a deleted connection. |
| ConnectionLookup.DeleteKeepsOthers | src/endpoint.cpp:670-704 | Deleting leaves the IDs of others alone if and only if none of them was recorded here. |
| ConnectionLookup.FreshRunKeepsOthers | src/endpoint.cpp:670-704 | Which is so after every run in which connections only take new IDs. |
| ConnectionLookup.CollisionLosesId | src/endpoint.cpp:783-785 | An ID taken over from another connection is lost to it when the taker is deleted. |
| ConnectionTables.ConnectionTable.constructor | include/oxen/quic/endpoint.hpp:500-509 | New maps are empty. |
| ConnectionTables.ConnectionTable.PickCid | src/endpoint.cpp:248-278 | The loop picks the first of the random IDs that is not taken. |
| ConnectionTables.ConnectionTable.AddConnection | src/endpoint.cpp:248-278 | Adds a connection under the first random ID not taken, and records that ID, which leads to it; every other ID leads where it did. If the connection cannot be made, all three maps are as they were. |
| ConnectionTables.ConnectionTable.AssociateCid | src/endpoint.cpp:777-786 | Every ID leads where it did; a new one leads to this connection; it is recorded if and only if it was already, is new, or is not claimed weakly; the invariant is kept. |
| ConnectionTables.ConnectionTable.DissociateCid | src/endpoint.cpp:795-804 | The ID leads nowhere, cached or not, every other ID leads where it did, and the invariant is kept. |
| ConnectionTables.ConnectionTable.FetchAssociatedConn | src/endpoint.cpp:813-831 | Returns what the two maps give, and remembers it if there is any. |
| ConnectionTables.ConnectionTable.DeleteConnection | src/endpoint.cpp:670-704 | The loop removes all IDs recorded, in whatever order, and then this connection and no other. |
| Handshake.ParseConcat | src/unencrypted.cpp:210-243 | Reading a stream is reading a part of it and then what is left of that with the rest, failures included. |
| Handshake.CutsDoNotMatter | src/unencrypted.cpp:210-243 | What is handed on after any chunks at a level is what its whole stream holds, wherever it was cut. |
| Handshake.BuildMessage | src/unencrypted.cpp:99-123 | Builds magic, length, high byte first, and payload. |
| Handshake.MessagesRecovered | src/unencrypted.cpp:91-123 | Messages sent one after another come out as they were, however the stream is cut. |
| Handshake.SplitIs | src/unencrypted.cpp:210-243 | Every stream is a row of whole messages, which are those handed on, followed by one that is not complete; it is refused if and only if that is no message at all. |
| Handshake.EachLevelRead | src/unencrypted.cpp:210-243 | However arrivals at the two levels are cut and interleaved, the messages handed on of each level are those of its own stream, and the rest of it is kept. |
| Handshake.EachLevelHandedFirst | src/unencrypted.cpp:210-243 | Whatever arrives and whatever is refused, up to the first failure each level has been handed the first messages of its own stream, in order and nothing else. |
| Handshake.OneRttMakesNoDifference | src/unencrypted.cpp:210-218 | A run of arrivals has the outcome that it has without encrypted data. |
| Handshake.EarlyDataFails | src/unencrypted.cpp:210-218 | A run that contains early data fails, and nothing of that is read. |
| Handshake.RefusedIsHandedAgain | src/unencrypted.cpp:235-239 | A message that was refused stays in its buffer, and is handed on again by the next chunk. |
| Handshake.BadMagicStays | src/unencrypted.cpp:225-229 | A level that failed for its magic fails again on any further data, and hands on nothing. |
| Handshake.HandshakeReader.constructor | include/oxen/quic/connection.hpp:471-472 | A new reader holds nothing at either level. |
| Handshake.HandshakeReader.RecvCryptoData | src/unencrypted.cpp:210-243 | One chunk at any level is read as the parser reads it, after a failure too: encrypted data is ignored and early data refused. |

## Left out

- ngtcp2, GnuTLS, libevent and raw socket calls: only what they answer is modelled, and arbitrarily.
- The channel selection of a flush: which stream or datagram goes into which packet is left to the caller here.
- TLS credentials, session tickets, reset tokens and address text parsing.
- Close hooks, draining, the job queue's threads, and the queueing of streams by ID.
- The bencoded contents of a frame: a frame is opaque bytes.
- Callbacks (watermarks, data, close, response) are events that follow, not nested calls that re-enter.
- Logging, debug hooks, drop counters and the retry of a send without segmentation offload.
- DatagramEndToEnd.DeliversInOrder: leaves out early data, whose replay is stated of the queue alone in `DatagramQueues.RejectionReplays`.
- DatagramQueues.FetchFits: takes it that there is room for less than 64 KiB, as in any UDP packet, or that all datagrams are smaller.
- DatagramQueues.FetchedPiece: takes it that there is room for less than 64 KiB, as in any UDP packet.
- SendBatches.SendBatch.SendPackets: models the socket path; manual routing and a missing socket return earlier and leave the count alone.
- RequestStream.PeerGetsWhatIsNotWithdrawn: leaves out early data, whose rejection reverts the stream.
- Segmentation.Group: takes packets of 1 to 65535 bytes, as every packet of a batch is.
- Segmentation.SentIsExact: takes it that the kernel accepts whole packets from the front, as the code asserts.
- Streams.Stream.RevertStream: a stream's end is not taken back, as in the code (`StreamSending.RevertIsOfferedAgain`).
- ConnectionTables.ConnectionTable.AddConnection: that some random ID is free is assumed, and a connection that cannot be made has recorded no ID yet.
