# minimalhttp, modelled and proved

minimalhttp is a multi-protocol TCP server and client. This project models its four linked cores and the
argument parser bundled with it, and proves what they promise:

- **Ordered multiplexing.** A client queues requests with callbacks; a server reserves a reply slot per
  request, any number of event threads fill the slots in any order, and a writer lets only a ready head out.
  Under every interleaving of sends, receives, handlers and writers, callback `k` is called once, with the
  answer to request `k` (`Slots`, `Endpoints`, `Multiplex`).
- **Resumable framing.** Readers and writers suspend on a non-blocking socket. The socket is a byte sequence
  plus an arbitrary list of answers (would block, broken, so many bytes). What a reader passes on and what it
  holds back are a function of the bytes received, not of their chunking; what a writer sent and still owes is
  the framing of the messages taken from its queue; decoding undoes encoding, and no reader loses or invents a
  byte (`Framing`, `Connection`, `Map32`, `MapChunks`, `TextFraming`, `BlankLengths`, `HttpStreams`, `TextChunks`,
  `TextReader`, `Http`).
- **The iSCSI target.** Sequence numbers over every run, READ(10) split into Data-In PDUs, WRITE(10) put
  together from Data-Out PDUs in any order among other traffic, and PDUs that their reader cuts apart again
  (`IscsiPdu`, `IscsiTarget`, `IscsiReplies`, `IscsiReads`, `IscsiWire`, `IscsiTransfers`, `IscsiStatuses`,
  `IscsiAnswers`).
- **Connection lifecycle.** Three pump threads and the event threads share fault flags and a count of pending
  events and decide when a connection may be erased (`Lifecycle`, `PassEffects`, `Pumps`). `Links`
  and `WriterLinks` tie the state machines to the readers and the writer.
- **The clipp traversers.** An explicit stack that refines a recursion, and a scoped traverser whose searches
  end although undo points move it backwards; what a search visits and what a
  match leaves are told from the tree (`Clipp`, `ClippScoped`, `ClippTours`, `ClippMatches`, `ClippAlternatives`,
  `ClippLost`, `ClippJoined`, `ClippArgs`).

Objects of the source are classes whose methods are proved equal to functions on values; the theorems are
about those functions and about the state machines built from them. `Bytes` and `Options` hold the integer
encodings and the option type.

Where the code does less than its comments or tests suggest, the model follows the code, shows an input on
which it fails and states the exact condition:

- `std::stoi` skips the blank line behind a length left blank and reads a number from the body, so that the outcome
  depends on how much of the body has arrived. With a renewed scan bound a stream is decoded under every chunking
  exactly when no head in it leaves its length blank for later bytes to fill in (`BlankLengths.NoBlank`).
  `content-length:`, a blank line and `3xy`, cut after the `3`, is an input that is not, with either bound.
- The scan bound of `Http::Read` and `FTP::Read` is not renewed after a message is cut off the front. The pass
  decodes a received buffer exactly when `TextFraming.Good` holds of it. As the reader is, a stream is decoded under
  every chunking exactly when, besides, nothing follows its first message, or nothing but a head whose blank length
  runs out. Printed messages never leave a length blank: one by one they are always decoded, back to back never
  under every chunking.
- Four zero bytes in the map protocol are a ping or a header. What is delivered is independent of the chunking exactly
  when nothing follows a size of zero.
- The R2T count parses as `(a + b) ? 1 : 0`. One R2T goes out, and it asks for all missing data exactly when
  less than 1 MiB is missing.
- Write transfers clash when 128 further ones *begin*, not when 128 are open: over every run a later start takes
  the slot exactly then, so two open transfers can clash, and data that arrive afterwards are written elsewhere.
- A final status goes out when the count of whole blocks is complete. Data-Outs with exactly the missing bytes get
  one if and only if each carries whole blocks; then all data are in if and only if they lie within the write and do
  not overlap.
- The Buffer Offset of a split READ(10) advances by the negotiated maximum. The offsets are right exactly when
  the block size divides it. A READ(10) whose size wraps in 32 bits to one within the maximum gets one
  header that announces less than the block that follows it; wrapped to more than the maximum it is split rightly.
- Reply headers written without padding frame themselves exactly when the data length is a multiple of four.
- Reporting a clipp match empties the position it looks at exactly when the match does not block, some group around
  it does, and no context stands at the innermost such group. A concrete run reaches this under a root that does
  not block, because undoing a scope puts its contexts on top of ones that have moved on.
- A blocking match puts the other alternatives of the exclusive groups around it out of reach, except where a position
  saved before it comes back: when the match ends a scope that was entered around them, or lies above the position.
  In `(a b) | c`, c can be matched after a and b.

## Model

| member | source | states |
|---|---|---|
| Framing.FeedAppend | mhttp/protocols.hpp:711-764 | fragmentation independence: decoding two chunks is decoding their concatenation |
| Framing.FeedChunk | mhttp/protocols.hpp:711-764 | a receive of no more than the reader asks for completes at most one header or message, and how |
| Framing.FeedOversized | mhttp/protocols.hpp:749-755 | an oversized announcement stops the reader for good |
| Framing.FeedSpells | mhttp/protocols.hpp:711-764 | nothing is lost: from any state, what the reader holds and delivered spells the same bytes as before and the new ones, until it refuses a size |
| Framing.StreamSpelled | mhttp/protocols.hpp:711-764 | messages, their prefixes and the bytes held are exactly the bytes received, whether or not a writer framed them |
| Framing.RoundTrip | mhttp/protocols.hpp:45-84 | decoding the frames of any messages of at most 8 MiB gives back those messages, in order |
| Framing.PrefixRoundTrip | mhttp/protocols.hpp:711-764 | whatever part of a framed stream has arrived, the messages out are a prefix of those sent, and all of them once all has arrived |
| Framing.StreamAccepted | mhttp/protocols.hpp:711-764 | a stream of sendable messages is never refused |
| Map32.BlocksAppend | mhttp/protocols.hpp:860-906 | the fixed-size header reader: headers found and bytes held after one more chunk |
| Map32.ClientsAgree | mhttp/tcp.hpp:277-284 | `Transact32` and the bias-32 client writer put identical bytes on the wire |
| Map32.HeaderRecovered | mhttp/protocols.hpp:850-858 | a request with payload is split exactly in front of it, and size and id are recovered |
| Map32.ChunkInStep | mhttp/protocols.hpp:860-906 | one more chunk keeps the headers passed on, the pings and the held part together exactly the bytes received, and, without zero sizes, the headers those of the stream |
| Map32.NextDelivery | mhttp/protocols.hpp:850-906 | in a stream of requests with payloads, what is delivered next after `i` of them is the header of request `i`, with its size and id, and the stream stands at its payload |
| Map32.ServesNext | mhttp/protocols.hpp:850-906 | the same for the bytes consumed since the last payload |
| Map32.ZeroSizeDependsOnChunking | mhttp/protocols.hpp:878-887 | an instance: five zero bytes, cut after the fourth or not at all |
| MapChunks.ChunkingMattersIff | mhttp/protocols.hpp:860-906 | over all ways in which a stream can arrive, deliveries and held bytes are the same if and only if nothing follows a header with size zero |
| Connection.Connection.Write | mhttp/tcp.hpp:120-137 | the blocking write sends everything in order, or reports a lost connection, if and only if it is, after a prefix |
| Connection.Connection.ReadIf | mhttp/tcp.hpp:186-207 | nothing, everything, or an error; what was consumed is what is returned |
| Connection.Connection.Read | mhttp/tcp.hpp:167-184 | the blocking read returns all bytes asked for, in order, or reports a lost connection |
| Connection.Connection.MessageRead | mhttp/protocols.hpp:711-764 | resumable reader: what it delivered and holds is the decoder's state after the bytes consumed, and spells exactly these bytes; at most one request per call unless multiplexed; it moves when the socket does, and goes on until the socket blocks; it fails if and only if the connection is gone or a size is refused, and a call that finds nothing changes nothing |
| Connection.Connection.IscsiRead | mhttp/protocols.hpp:775-838 | the same for iSCSI PDUs with padded lengths |
| Connection.Connection.MapRead | mhttp/protocols.hpp:860-906 | whatever the chunking, headers and pings passed on and the part held are the bytes consumed since the last payload; without zero sizes they are the 36-byte headers; it never reads past the current one |
| Connection.Connection.MapRequest | mhttp/protocols.hpp:860-906 | in front of request `i` of a connection a call delivers nothing or exactly its header, and then the socket stands at its payload |
| Connection.Connection.MapHandler | mhttp/test.hpp:669-680 | the handler reads exactly this payload and gets the size and id that the client sent, and leaves the reader in front of the next request |
| Connection.Connection.WriteMessage | mhttp/protocols.hpp:45-84 | at every suspension the bytes sent plus the bytes owed frame the messages taken; no message is taken before the ones in front of it are sent; callbacks saw 0, 1, 2, ...; byte counts add up; it stops only on an unready head or an unfinished send, and fails if and only if the connection is gone |
| Connection.Connection.WriteRaw | mhttp/protocols.hpp:86-119 | the same without size prefixes |
| Slots.ApplyExtends | mhttp/connection.hpp:57-137 | one queue operation keeps the order and contents of all places |
| Slots.RunExtends | mhttp/connection.hpp:57-137 | over any run nothing leaves out of reservation order, twice, skipped or changed |
| Slots.ActivationIsWhatLeaves | mhttp/connection.hpp:73-89 | what ticket `k` was activated with is the `k`-th thing to leave |
| Slots.HandleOutlivesRun | mhttp/connection.hpp:57-89 | a handle still denotes its live, empty slot whenever it is first activated |
| Slots.SlotQueue.QueueWrite | mhttp/connection.hpp:82-89 | reserves a fresh unready place at the back and returns its handle |
| Slots.SlotQueue.ActivateWrite | mhttp/connection.hpp:73-80 | fills the place of the handle and no other |
| Slots.SlotQueue.AsyncWrite | mhttp/connection.hpp:91-96 | appends a ready place |
| Slots.SlotQueue.TryWrite | mhttp/connection.hpp:57-71 | takes the head exactly if it is ready, otherwise changes nothing |
| Endpoints.MultiplexServer.RawMessage | mhttp/tcpserver.hpp:185-206 | makes exactly the dispatch step of the state machine; an empty request closes |
| Endpoints.MultiplexServer.Take | mhttp/async.hpp:118-132 | a thread takes the oldest event |
| Endpoints.MultiplexServer.RawEvent | mhttp/tcpserver.hpp:208-220 | the handler's slot pointer is live and unfilled, and its answer makes exactly the activation step |
| Endpoints.MultiplexServer.TryWrite | mhttp/connection.hpp:57-71 | the writer never invalidates a pointer that is still to be used |
| Endpoints.EventClient.AsyncWriteCallback | mhttp/client.hpp:215-222 | request and callback enter at the same position |
| Endpoints.EventClient.OnMessage | mhttp/client.hpp:150-169 | makes exactly the callback step: oldest callback, this reply; pings ignored; a reply nobody waits for is flagged as undefined |
| Multiplex.NextKeeps | mhttp/tcpserver.hpp:185-220 | every step of client, streams, slots, threads and writers keeps the global invariant |
| Multiplex.RunKeeps | mhttp/tcpserver.hpp:185-220 | so does every run |
| Multiplex.CallbackGetsItsReply | mhttp/client.hpp:147-174 | under every interleaving the callbacks called are 0, 1, 2, ..., each once, each with the handler's answer to the request of that number, and nothing undefined happens |
| Multiplex.StuckMeansServed | mhttp/client.hpp:147-174 | when nothing can move, every callback has been called |
| Multiplex.EveryCallbackIsCalled | mhttp/client.hpp:147-174 | without new requests no schedule runs for ever, and where it cannot go on every callback has been called |
| Multiplex.TicketRetired | mhttp/tcpserver.hpp:208-220 | answering one event retires its slot handle and no other |
| Multiplex.TicketsPassed | mhttp/connection.hpp:57-71 | taking a ready head leaves every outstanding handle valid |
| Multiplex.RequestPrefix | mhttp/protocols.hpp:711-764 | what the server dispatched is a prefix of what the client's writer took |
| Multiplex.ReplyPrefix | mhttp/protocols.hpp:711-764 | what the client was told is a prefix of what the slots released |
| Lifecycle.SurvivorsMembers | mhttp/reader.hpp:97-123 | erasing keeps exactly the unfaulted entries, without repetition |
| Lifecycle.EraseFaulted | mhttp/reader.hpp:97-123 | the early-exit erase loop driven by a counter removes exactly the faulted entries and keeps the order of the rest |
| Lifecycle.NextKeeps | mhttp/connections.hpp:24-71 | every pass, join, event and sweep keeps lists, flags and counts consistent |
| Lifecycle.RunKeeps | mhttp/connections.hpp:24-71 | so does every run |
| Lifecycle.SweepKeeps | mhttp/connections.hpp:33-53 | the sweep erases no connection that an event points to |
| Lifecycle.NothingDangles | mhttp/connections.hpp:24-59 | in every reachable state each list entry and event refers to a stored connection that is not about to be erased, no list holds its own faults, and `pending` counts the events in flight |
| Lifecycle.NoPointerBlocks | mhttp/tcpserver.hpp:208-220 | in every reachable state each pass and each event end follows only good pointers |
| Lifecycle.OneAtATime | mhttp/reader.hpp:57-58 | without multiplexing at most one request per connection is queued or running, nothing is read meanwhile, and requests finish in arrival order |
| Lifecycle.StepSpreads | mhttp/reader.hpp:50-69 | what one step does to a connection's faults, lists and count |
| Lifecycle.FaultSpreads | mhttp/writer.hpp:50-54 | after a fault on one side, a pass of the other side's pump leaves both flags set and the connection off both lists, for good |
| Lifecycle.FaultedDrains | mhttp/connections.hpp:33-53 | then pending only decreases, and a sweep at zero erases |
| Lifecycle.Gone | mhttp/connections.hpp:61-71 | an erased connection never comes back |
| PassEffects.ReaderPassMeans | mhttp/reader.hpp:44-95 | a pass of the reader marks and unlists a connection if and only if its writer gave it up or it was readable and the read failed; what a read delivered is counted and queued, numbered on; locked and unlisted connections are left alone |
| PassEffects.WriterPassMeans | mhttp/writer.hpp:45-90 | a pass of the writer marks and unlists a connection if and only if its reader gave it up or the send failed |
| PassEffects.NewcomerMeans | mhttp/connections.hpp:61-71 | a created connection is of the kind asked for, without faults and idle, and handed to both pumps it is on both lists |
| PassEffects.GoneIsSwept | mhttp/reader.hpp:65-69 | an idle connection whose read fails is unlisted by the reader's pass, marked by the writer's, and erased by the next sweep |
| Links.DoRead | mhttp/reader.hpp:50-69 | a call of any of the three readers passes on at most one request unless multiplexed, and fails if and only if the connection is gone or a size is refused: its outcome is one that the lifecycle allows, by the reader's own contract |
| Links.ReceiveBytes | mhttp/protocols.hpp:711-764 | any number of bytes in flight is received by a run of the protocol |
| Links.ServerReads | mhttp/protocols.hpp:711-764 | a call of the message reader on the server is a run of receive steps of the multiplexing protocol, one slot per delivered request |
| Links.ClientReads | mhttp/client.hpp:147-174 | the same on the client, one callback called per delivered reply |
| WriterLinks.ServerWrites | mhttp/protocols.hpp:45-84 | a call of the writer on the server, however the socket takes the bytes, is a run of taking and sending steps of the protocol; it has released the same slots and put the same bytes on their way |
| WriterLinks.ClientWrites | mhttp/protocols.hpp:45-84 | the same on the client, for the requests it has queued |
| Pumps.Server.Create | mhttp/connections.hpp:61-71 | is the create step |
| Pumps.Server.ManageWriter | mhttp/writer.hpp:98-103 | is the step that hands a connection to the writer |
| Pumps.Server.ManageReader | mhttp/reader.hpp:132-137 | is the step that hands a connection to the reader |
| Pumps.Server.VisitReaders | mhttp/reader.hpp:44-95 | the visiting loop computes the new flags and events of all listed connections and counts exactly the faults |
| Pumps.Server.ReaderPass | mhttp/reader.hpp:41-124 | is the reader step |
| Pumps.Server.VisitWriters | mhttp/writer.hpp:45-61 | the visiting loop of the writer, with its fault count |
| Pumps.Server.WriterPass | mhttp/writer.hpp:40-90 | is the writer step |
| Pumps.Server.TakeEvent | mhttp/async.hpp:118-132 | is the take step |
| Pumps.Server.FinishEvent | mhttp/tcpserver.hpp:212-217 | is always possible for a running event, and is the finish step |
| Pumps.Server.EraseDead | mhttp/connections.hpp:33-53 | erases exactly the connections with both faults and nothing pending |
| Pumps.Server.SweepPass | mhttp/connections.hpp:31-54 | is the sweep step |
| IscsiPdu.DecodeEncode | mhttp/iscsi.hpp:167-240 | the header layout loses no field, and the 24-bit length is recovered |
| IscsiPdu.SelfDelimiting | mhttp/iscsi.hpp:417-440 | each reply announces exactly its own length, with less than four bytes of padding |
| IscsiPdu.BareReplyIff | mhttp/iscsi.hpp:659-667 | a header followed by an unpadded block announces its length exactly when the block is a multiple of four bytes |
| IscsiPdu.FeedPdu | mhttp/protocols.hpp:805-834 | the reader cuts one complete PDU out of a stream |
| IscsiPdu.WritesArePdus | mhttp/iscsi.hpp:417-440 | separate writes of headers and blocks add up to the PDUs |
| IscsiPdu.Reframed | mhttp/protocols.hpp:805-834 | any sequence of replies is split back into exactly those PDUs |
| IscsiTarget.ISCSIConnection.SendScsiReply | mhttp/iscsi.hpp:524-555 | numbering, residual accounting and truncation of one reply |
| IscsiTarget.ISCSIConnection.Write10 | mhttp/iscsi.hpp:602-638 | is the write step on values, R2T loop and the block count told to the disk included |
| IscsiTarget.ISCSIConnection.DataOut | mhttp/iscsi.hpp:576-592 | is the Data-Out step; a bad transfer tag changes nothing |
| IscsiTarget.ISCSIConnection.Read10 | mhttp/iscsi.hpp:639-683 | the splitting loop ends and is the read step, when a block fits the negotiated maximum |
| IscsiTarget.ISCSIConnection.SendLoginReply | mhttp/iscsi.hpp:871-955 | login, text and logout numbering; login may keep the command number |
| IscsiTarget.ISCSIConnection.Command | mhttp/iscsi.hpp:516-985 | dispatch to the above; an unknown command changes nothing |
| IscsiReplies.ExecuteInSequence | mhttp/iscsi.hpp:548-550 | every command continues the sequence of header numbers |
| IscsiReplies.ExecuteValid | mhttp/iscsi.hpp:516-985 | every well-formed command keeps the state well-formed |
| IscsiReplies.RunInSequence | mhttp/iscsi.hpp:882-890 | so does every run |
| IscsiReplies.StatusNumbers | mhttp/iscsi.hpp:930-951 | over every run from a new connection StatSN is 0, 1, 2, ... modulo 2^32, ExpCmdSN advances by at most one, MaxCmdSN stays 64 ahead |
| IscsiReads.PlanFacts | mhttp/iscsi.hpp:643-669 | all pieces but the last are full, none is empty or too large, and they add up |
| IscsiReads.ReadEndsIff | mhttp/iscsi.hpp:643-669 | the splitting loop gets to the end exactly when there is nothing to send or a block fits the negotiated maximum |
| IscsiReads.ReadShape | mhttp/iscsi.hpp:639-683 | one header and one block per piece, DataSN 0, 1, 2, ..., only the last final and carrying status, each block from where the previous ended; for every size that the 32-bit product leaves on the right branch |
| IscsiReads.TruncatedRead | mhttp/iscsi.hpp:641-683 | for every other size one header goes out that announces less than the block behind it |
| IscsiReads.PlanSound | mhttp/iscsi.hpp:643-654 | no PDU exceeds the negotiated maximum, and all blocks are sent |
| IscsiReads.PayloadIsRange | mhttp/iscsi.hpp:662-669 | the blocks together are the range asked for |
| IscsiReads.OffsetsRightIff | mhttp/iscsi.hpp:657-658 | Buffer Offsets are the sums of earlier lengths, in 32 bits, exactly when the block size divides the maximum |
| IscsiWire.PairsAreUnits | mhttp/iscsi.hpp:659-667 | bare headers and blocks on the wire are the writes of their PDUs |
| IscsiWire.DataIsPayload | mhttp/iscsi.hpp:662-667 | the data segments put together are the payload of the plan |
| IscsiWire.ReadReachesInitiator | mhttp/iscsi.hpp:639-683 | end to end: the bytes of one READ(10) reply are cut back into one PDU per piece, and their data are the blocks asked for |
| IscsiWire.CommandSpells | mhttp/iscsi.hpp:516-985 | what any command adds to the output is a sequence of complete PDUs |
| IscsiWire.RunReachesInitiator | mhttp/iscsi.hpp:516-985 | end to end for whole runs: all bytes from a new connection on are cut back into PDUs, nothing is left over, and their headers are numbered without gap |
| IscsiAnswers.InquiryIsAnswered | mhttp/iscsi.hpp:524-555 | what the initiator decodes after an inquiry: underflow alone if its buffer is longer, overflow alone if shorter, with the difference as residual; the smaller length and exactly that much of the data; command, tag, final and status bits; the connection's numbers |
| IscsiAnswers.CommandIsAnswered | mhttp/iscsi.hpp:602-955 | what it decodes after a login, text or logout command or a write: command, tag, flags, text, numbers, and for a write that lacks data the slot and offset asked for |
| IscsiAnswers.OthersAreSilent | mhttp/iscsi.hpp:576-985 | a resumed login, an unknown command, a bad transfer tag and a piece that leaves its transfer incomplete are not answered |
| IscsiAnswers.CommandNumbers | mhttp/iscsi.hpp:548-955 | over every run each reply moves the command number on with the status number, except those to logins that are not final |
| IscsiAnswers.CommandNumbersFromNew | mhttp/iscsi.hpp:548-955 | from a new connection on it is one ahead, less those |
| IscsiTransfers.Effect | mhttp/iscsi.hpp:516-985 | what any command adds to the disk log, does to the transfer table, and which task it answers |
| IscsiTransfers.AsksForTheRest | mhttp/iscsi.hpp:608-627 | one R2T, naming slot and offset; it asks for all missing data exactly when less than 1 MiB is missing |
| IscsiTransfers.MebibyteNotAskedFor | mhttp/iscsi.hpp:608-627 | with 1 MiB missing it asks for nothing |
| IscsiTransfers.PieceArrives | mhttp/iscsi.hpp:576-592 | a Data-Out that brings new blocks: count, disk and status go on as they should, status exactly on the completing one |
| IscsiTransfers.OtherCommand | mhttp/iscsi.hpp:516-985 | a command of another task leaves the transfer alone unless it takes its slot |
| IscsiTransfers.SlotRetakenIff | mhttp/iscsi.hpp:611-612 | across wrap of the counter, a start takes a transfer's slot again exactly at multiples of 128 later starts |
| IscsiTransfers.SlotTakenInRunIff | mhttp/iscsi.hpp:608-627 | over any run of well-formed commands some start takes the transfer's slot if and only if at least 128 have begun since the transfer did |
| IscsiTransfers.TakenSlotGoesAstray | mhttp/iscsi.hpp:576-592 | once it is taken by a write to other blocks, every later piece is written to that write's blocks, not to its own |
| IscsiTransfers.ClashInRun | mhttp/iscsi.hpp:576-627 | so in every run with that many starts, none to the same block, there is one after which a piece of the transfer goes astray |
| IscsiTransfers.RunProgresses | mhttp/iscsi.hpp:576-638 | any interleaving with fewer than 128 further starts keeps the transfer's progress |
| IscsiTransfers.JobBegins | mhttp/iscsi.hpp:611-629 | the command itself: table entry, immediate blocks on disk, no status yet |
| IscsiTransfers.TransferCompletes | mhttp/iscsi.hpp:576-592 | from any point of a transfer on, in any order and among other traffic with fewer than 128 further starts, the final status goes out once, not before all data are in; then the disk is as one whole write after the others' writes would leave it |
| IscsiTransfers.SegmentedWrite | mhttp/iscsi.hpp:576-638 | the same from the command on: the final status goes out once, not before all data are in; then the disk is as one whole write after the others' writes would leave it |
| IscsiTransfers.BlocksTold | mhttp/iscsi.hpp:576-638 | the block count told to the disk is the data's for a piece of whole blocks, and the whole command's, more than the data at hand, for a solicited write |
| IscsiTransfers.ImmediateWrite | mhttp/iscsi.hpp:632-636 | a write with all its data is one disk write and one status |
| IscsiTransfers.ReadReturnsWrite | mhttp/iscsi.hpp:639-683 | READ(10) of those blocks then sends what was written |
| IscsiTransfers.TwoOpenTransfersClash | mhttp/iscsi.hpp:611-616 | one transfer open and 127 completed since, nothing else open: the next start takes its slot, and each later piece of its data is written to the other transfer's blocks |
| IscsiTransfers.FirstWrite | mhttp/iscsi.hpp:611-616 | the clash starts from a new connection |
| IscsiStatuses.StatusPerCompletion | mhttp/iscsi.hpp:576-592 | for Data-Outs of any sizes and offsets among commands of other tasks with fewer than 128 starts, one status goes out each time the count of whole blocks is found complete |
| IscsiStatuses.StatusIff | mhttp/iscsi.hpp:576-592 | in such traffic, when they have exactly the missing bytes, there is a status if and only if each carries whole blocks, and exactly one if and only if, besides, the last is not empty |
| IscsiStatuses.LandsThere | mhttp/iscsi.hpp:587-589 | the place where `AllInIff` says a piece lands is where the disk write goes |
| IscsiStatuses.AllInIff | mhttp/iscsi.hpp:576-592 | with whole blocks and exactly the missing bytes the status goes out, and all data are in if and only if the pieces lie within the write and fall neither on each other nor on what was there |
| TextFraming.ScanFinds | mhttp/protocols.hpp:323-329 | the scan stops at the first terminator |
| TextFraming.LiveAppend | mhttp/protocols.hpp:319-370 | after a part that leaves the decoder waiting, decoding goes on from what was held as if the parts were one |
| BlankLengths.LiveStops | mhttp/protocols.hpp:319-370 | after a part on which the decoder ends badly more bytes change nothing, unless a blank length is filled in |
| BlankLengths.BlankIff | mhttp/protocols.hpp:331-341 | a length that cannot be read from its head alone is one left blank: white space only, through the blank line |
| BlankLengths.WaitsThroughoutIff | mhttp/protocols.hpp:319-370 | the decoder waits after every prefix of a stream if and only if it waits after the stream and no head leaves its length blank to be filled in |
| BlankLengths.LengthDecides | mhttp/protocols.hpp:331-345 | what the announced length of a first head leads to: refused if negative or above 8 MiB, an exception if no number, otherwise a message of that size |
| TextFraming.LiveConserves | mhttp/protocols.hpp:263-289 | messages and leftover together are the bytes received |
| TextFraming.FtpLines | mhttp/protocols.hpp:672-692 | FTP messages are lines, cut at every CR LF and nowhere else; the leftover holds none |
| TextFraming.StaleAgreesIff | mhttp/protocols.hpp:316-370 | the pass with the bound of the receive decodes a buffer exactly when it is good |
| TextFraming.OneMessageHarmless | mhttp/protocols.hpp:316-370 | on a stream with one message at most, at its end, the bound makes no difference under any chunking |
| TextFraming.FtpHarmlessIff | mhttp/protocols.hpp:669-692 | for FTP that condition is also necessary |
| HttpStreams.HttpHarmlessIff | mhttp/protocols.hpp:316-370 | and for HTTP streams that leave the decoder waiting too |
| Http.RoundTrip | mhttp/http.hpp:30-38 | a printed message comes back once, with exactly its contents; no shorter prefix gives anything or fails |
| Http.ResponseRoundTrip | mhttp/http.hpp:30-33 | for `FormatHttpResponse` |
| Http.RequestRoundTrip | mhttp/http.hpp:35-38 | for `FormatHttpRequest` |
| Http.RequestLine | mhttp/http.hpp:35-38 | a printed request says command, path and protocol in that order, then its headers |
| Http.StatusLine | mhttp/http.hpp:30-33 | a printed response says the protocol, then its status, then its headers |
| Http.SizeLimit | mhttp/protocols.hpp:337-340 | the 8 MiB limit on the contents is exact |
| Http.PrintedIsHarmless | mhttp/protocols.hpp:316-370 | the stale bound makes no difference to one printed message |
| Http.PipelineRoundTrip | mhttp/protocols.hpp:319-370 | with a renewed bound any number of printed messages back to back, received in one piece, come out one by one |
| TextReader.Find | mhttp/protocols.hpp:319-329 | the scan loop is the scan function |
| TextReader.Reset | mhttp/protocols.hpp:263-289 | cuts off a message and keeps exactly the rest |
| TextReader.Drain | mhttp/protocols.hpp:319-370 | one pass over a received buffer, with either bound |
| TextReader.Read | mhttp/protocols.hpp:614-700 | a call of either reader, with either bound and on any stream, passes on and holds back what the passes over the chunks it received do, stops only where one of them fails or nothing more is to be had, and reports a closed connection if and only if it is gone |
| TextChunks.PassesDecode | mhttp/protocols.hpp:316-370 | passes over any chunks are the decoder on their concatenation, with the renewed bound or where it makes no difference, as long as the passes wait or no blank length is filled in |
| TextReader.ReadDecodes | mhttp/protocols.hpp:614-700 | so a call then passes on what the decoder does, and fails nowhere in a stream that leaves the decoder waiting and no length blank |
| TextChunks.Misreads | mhttp/protocols.hpp:316-370 | a stream with more than one message, or bytes behind one, has a first chunk on which the reader differs from the decoder |
| TextChunks.LiveTameIff | mhttp/protocols.hpp:316-370 | for every stream: with the renewed bound it is decoded under every chunking if and only if no head leaves its length blank to be filled in |
| TextChunks.StaleTameIff | mhttp/protocols.hpp:316-370 | for every stream: the reader as it is decodes it under every chunking if and only if that holds and nothing follows a first message but a head whose blank length runs out |
| TextChunks.AloneIff | mhttp/protocols.hpp:316-370 | for a stream that leaves the decoder waiting the latter means at most one message, ended by its last byte |
| TextChunks.PipelineTameIff | mhttp/protocols.hpp:316-370 | printed messages back to back are decoded under every chunking with the renewed bound, and with the bound as it is if and only if there is at most one |
| TextChunks.BlankLengthMisread | mhttp/protocols.hpp:331-341 | one message with a blank length, cut inside the number in its body: nothing is handed out, with either bound |
| TextReader.ReadPrinted | mhttp/protocols.hpp:259-375 | the HTTP reader as it is: nothing until the last byte of a printed message, then the message, over any pieces and calls |
| Clipp.SiblingSkipsSubtree | clipp.h:2981-2994 | `next_sibling` lands on the first node after the subtree |
| Clipp.NextVisitsOne | clipp.h:2967-2978 | `++` visits the current node, at its level, and nothing else |
| Clipp.StartVisitsAll | clipp.h:2820-2823 | a new traverser has the recursive preorder before it |
| Clipp.DepthFirstTraverser.NextSibling | clipp.h:2981-2994 | the popping loop is the recursion on the stack |
| Clipp.DepthFirstTraverser.Increment | clipp.h:2967-2978 | is the successor |
| Clipp.DepthFirstTraverser.NextAfterSiblings | clipp.h:2997-3003 | goes on after the parent's subtree |
| Clipp.DepthFirstTraverser.BackToAncestor | clipp.h:3008-3017 | stops at the group asked for, or empties the stack; without a group nothing happens |
| Clipp.DepthFirstTraverser.GoBack | clipp.h:3083-3092 | restores a saved position |
| Clipp.DepthFirstTraverser.Walk | clipp.h:2967-2978 | repeated `++` sees the recursive preorder with levels, and ends |
| Clipp.SkippedIffOptional | clipp.h:5032-5033 | the test that skips a group says that it is not required |
| Clipp.ForEachPotentialMiss | clipp.h:5024-5048 | the loop collects exactly the recursively defined list |
| Clipp.ReachedIsReported | clipp.h:5024-5048 | every required parameter reached by a path past no optional blocking one, through required groups, is reported |
| Clipp.ReportedIsReached | clipp.h:5024-5048 | and nothing else is |
| ClippScoped.AheadMoves | clipp.h:4135-4163 | each way forward leaves less to visit |
| ClippScoped.AdvancedIsSmaller | clipp.h:4127-4165 | every `++` lowers (scopes, visits left) lexicographically and keeps the state well-formed, undo included |
| ClippScoped.SearchEnds | clipp.h:4402-4413 | from any well-formed state `while(pos) ++pos` ends |
| ClippTours.AheadTour | clipp.h:4127-4165 | one `++`, told from the tree, with any scopes and any last match: it visits the current node, and leads to the rest of the tour, in which a blocking parameter hides its later siblings unless they are alternatives, and a fully explored blocking group without a match hides what follows it |
| ClippTours.SearchFollowsTour | clipp.h:4127-4165 | a search in the outermost scope visits exactly that tour, node by node, and ends with it |
| ClippTours.NewSearchFollowsTour | clipp.h:4127-4165 | from a new traverser it is the recursively defined tour of the whole tree |
| ClippTours.AlternativesAllTried | clipp.h:4149-4155 | of alternatives that are parameters, every one is in the tour |
| ClippTours.SequenceStops | clipp.h:4149-4155 | of a sequence of parameters, those up to the first blocking one are |
| ClippTours.ExploredGroupHides | clipp.h:4143-4147 | a fully explored group hides its later siblings if and only if it blocks |
| ClippTours.FirstInTour | clipp.h:4397-4415 | a full match is the first parameter of the tour that accepts, and no match means that none does |
| ClippAlternatives.StepInScopes | clipp.h:4279-4294 | `++` within scopes: which scopes are left, and which context comes back |
| ClippAlternatives.StepOut | clipp.h:4297-4314 | the outermost scope is restored, or the search is over, exactly at the end of the path or where a blocking node leads out of the tree |
| ClippScoped.ScopedTraverser.CheckIfLeftScope | clipp.h:4279-4294 | both unwinding loops and the repeat-group flag |
| ClippScoped.ScopedTraverser.ReturnToOutermostScope | clipp.h:4297-4314 | unwinds everything, or ends the search, with the flag |
| ClippScoped.ScopedTraverser.ReturnToLevel | clipp.h:4317-4324 | unwinds down to a level |
| ClippScoped.ScopedTraverser.Increment | clipp.h:4127-4165 | all branches of `++` |
| ClippScoped.ScopedTraverser.NextAfterMatch | clipp.h:4168-4233 | moving on after a match, the flags for repeat groups, and when it is undefined |
| ClippScoped.AfterMatchOk | clipp.h:4168-4233 | reporting any match keeps the state well-formed |
| ClippMatches.ReportMeans | clipp.h:4168-4233 | where a report leads, told from the tree: behind the match or at it, with the alternatives to it left out; into a new scope that saves the position left; back to the scope that ends; or up to the level of the match |
| ClippMatches.AnchorMeans | clipp.h:4177-4179 | a match that does not block counts at the innermost blocking group around it, if there is one |
| ClippAlternatives.AlternativesGoneIff | clipp.h:4189-4227 | after a blocking match another alternative of an exclusive group on its path lies ahead if and only if a saved position brings it back |
| ClippAlternatives.GoneOutsideScopes | clipp.h:4189-4227 | outside all scopes, for a match no higher than the position, none does |
| ClippAlternatives.AlternativeComesBack | clipp.h:4195-4200 | in the grammar `(a b)` or `c` it does after a and b |
| ClippAlternatives.PushedScopeRestores | clipp.h:4212-4214 | a pushed scope restores the position that was left |
| ClippAlternatives.UnwindToMeans | clipp.h:4317-4324 | going up to a level gives up scopes from the top, only while the position is deeper |
| ClippAlternatives.RoundsBegin | clipp.h:4243-4276 | when a match begins a new round of a repeat group, and how long the round goes on |
| ClippAlternatives.UndefinedIff | clipp.h:4168-4276 | all cases in which a report is undefined |
| ClippScoped.LostIff | clipp.h:4177-4179 | for every well-formed position: the match is lost exactly when it does not block, some group around it does, and no context stands at the innermost such group |
| ClippLost.LostWithoutBlockingRoot | clipp.h:4168-4233 | matching p3, p8, p9, p4 of a concrete grammar whose root does not block gets there: the fourth report is undefined |
| ClippScoped.FullMatch | clipp.h:4397-4415 | ends with the first accepted position of the search, or with none |
| ClippScoped.LongestPrefixMatch | clipp.h:4425-4452 | ends with the first of the longest matches, or at a match of the whole argument, the empty one included |
| ClippScoped.IgnoringBlocksSeesAll | clipp.h:4137-4138 | with blocking ignored the search goes through the recursive preorder of what is left |
| ClippJoined.CoversIsText | clipp.h:4774-4794 | the pieces put together are the argument |
| ClippJoined.MatchJoinedSequence | clipp.h:4753-4798 | the loop ends and accepts exactly what the recursive definition accepts, with its pieces |
| ClippJoined.AcceptedCovers | clipp.h:4753-4798 | what is accepted are non-empty pieces, each what its blocking parameter of one group matches there, that cover the argument |
| ClippJoined.AcceptsIsOverNodes | clipp.h:4753-4798 | an argument is accepted if and only if the siblings from the first parameter on take it as a whole, by recursion on their list |
| ClippArgs.CutIsNumber | clipp.h:5186-5199 | what moves to the next argument is an optional sign and digits, and no more could move |
| ClippArgs.FractionRejoined | clipp.h:5180-5204 | a fraction gets back the number in front of it, with its sign; the other arguments stay |
| ClippArgs.SanitizedAt | clipp.h:5172-5207 | every argument after the clean-up, by recursion from its left neighbour |
| ClippArgs.SanitizedKeepsText | clipp.h:5172-5207 | the clean-up keeps the number of arguments and their joined text |
| ClippArgs.SanitizeArgs | clipp.h:5172-5207 | the in-place loop is that clean-up |

## Left out

- Lifecycle.OneAtATime: speaks of readers that stop after one request (Message, ISCSI, Map32, for which `Links.DoRead` shows it); the HTTP, FTP and WebSocket readers go on receiving within one call.
- Lifecycle.NothingDangles: one locked pass is one step, and so is the tail of `RawEvent`; the source uses different locks for the lists and the sweep, so finer interleavings are not covered.
- ClippScoped.IgnoringBlocksSeesAll: for a traverser without open scopes; with open ones the look-ahead returns to saved positions and sees nodes again, and only `SearchEnds` speaks of it.
- Connection.Connection.MapRead: once a header announces size zero it says only that nothing is lost, because four zero bytes double as a ping and what is delivered depends on the chunking.
- Connection.Connection.MapRequest: for connections without multiplexing, where the reader waits until the handler has read the payload.
- IscsiTransfers.SegmentedWrite: pieces are whole blocks, not empty, and do not overlap; `IscsiStatuses.StatusIff` and `IscsiStatuses.AllInIff` say what the target makes of the others.
- IscsiTransfers.TransferCompletes: the same.
- ClippTours.SearchFollowsTour: for the outermost scope; within scopes `ClippTours.AheadTour`, `ClippAlternatives.StepInScopes` and `ClippAlternatives.StepOut` say what each `++` does.
- ClippAlternatives.AlternativesGoneIff: for a match whose path is linked and whose tree has distinct addresses; `ClippMatches.ReportMeans` speaks of every position.
- ClippJoined.AcceptsIsOverNodes: for a traverser without open scopes.
- ClippJoined.MatchJoinedSequence: matchers that report an empty prefix are not covered; with a repeatable parameter they would keep the loop from ending. Reporting the pieces to the traverser afterwards is `NextAfterMatch`.
- IscsiTarget.ISCSIConnection.Write10: the disk handler is taken to copy the data it is given; the block count told to it is recorded beside them.
- IscsiTarget.ISCSIConnection.Read10: needs room for one block within the negotiated maximum; otherwise the source divides to zero and does not get on, as `IscsiReads.ReadEndsIff` says. Nothing is claimed of a run behind such a read.
- IscsiTarget.ISCSIConnection.Command: the choice of the disk, the disk size and the key/value texts of login and text commands enter as parameters.
- IscsiReplies.StatusNumbers: with the same parameters.
- IscsiWire.ReadReachesInitiator: for block sizes that are multiples of four and a maximum within the reader's 8 MiB; without the first a reply does not frame itself (`IscsiPdu.BareReplyIff`), beyond the second the reader refuses it.
- IscsiWire.RunReachesInitiator: under the same conditions, and for other replies whose data are within the reader's limit.
- IscsiTransfers.ClashInRun: starts to the transfer's own block are excluded, because then the data do not go elsewhere.
- TextFraming.LiveAppend: for a first part that leaves the decoder waiting; `BlankLengths.LiveStops` is the other case. What `std::stoi` finds behind the bytes held is taken to be unknown, so a pass that would look there ends badly.
- Sockets, TLS, UDP, sleeps, timeouts and shutdown: the socket is an oracle, and threads are an arbitrary schedule.
- The WebSocket reader: it sizes its buffer with four mask bytes for every header form, so its frames do not line up.
- `Map32::Write` and the `Map` versions of the slot queue: the same code over spans instead of vectors.
- The writers' idle flag, `read_bytes`, logging, and `AsyncWriteWait`, which queues like `AsyncWriteCallback`.
- Login replies' stage, version and session fields, which are copied from the request.
- Additional header segments, `Reject` (which builds a reply and does not send it), and the contents of inquiry, sense and capacity replies.
- Exceptions from handlers and mixing `AsyncWrite` with reserved slots on one connection.
- clipp's `try_match_joined`, conflict and miss bookkeeping, man pages and filters.
- FTP commands, directory listings and HTTP header access.
