# Yardstick: a verified model

Yardstick is a small profiler. A program's threads hand their events to a lock-free queue; a sink encodes
them, announces the strings they refer to and sends them over a WebSocket; a web page reads them back and
shows frames and counters. This project models the parts of it that have to be right and proves that they
are.

| area | modules | what is modelled |
|---|---|---|
| the queue | `QueueMachine`, `QueueSafety`, `QueueFifo`, `QueueWrap`, `QueueStalls`, `ConcurrentQueueObject` | the bounded queue for many producers and many consumers: every atomic access is a step, any number of threads interleave; first with unbounded tickets, then with the 32-bit words of the code, then as the object with its retry loops |
| the byte ring | `RingMachine`, `RingSafety`, `CircularBufferObject` | one writer and one reader that interleave at every index access and every byte copied |
| the wire | `Protocol`, `Doubles`, `EventReader`, `Sockets`, `WebSocket`, `SessionSpec`, `SessionObject`, `StringTable`, `Pipeline`, `ProgramView` | encoder, session buffer and string table, fragmented frames, sockets with partial sends, the client's reader, what it shows of the program's values |
| the client | `Counters`, `Frames`, `ClientState`, `Resolution`, `Timeline` | counters, frames and strings of the page, their order and their binary searches |
| the web server | `Sha1`, `KnownDigests`, `Base64`, `Handshake`, `UrlDecode`, `ChunkedCoding`, `WriterSpec`, `BufferedWriter`, `BodyReader`, `FrameService` | the algorithms of webby against FIPS 180-4, RFC 4648, RFC 6455, RFC 7230 and a left-to-right reading of percent encoding; how a connection reads bodies and serves frames |
| the pointer hash | `PointerHash`, `BitXors` | both mixers, inverted step by step |

`Words`, `Bytes` and `Options` hold machine words, byte sequences and optional values.

## How to read it

**Machines and objects.** The two concurrent structures exist twice. A step machine (`QueueMachine.Next`,
`RingMachine.Next`) carries the proofs over all interleavings. The classes `ConcurrentQueue` and
`ConcurrentCircularBuffer` have the fields and loops of the source; what the other threads do between two
accesses is a parameter, and `Valid` says that the present state is the one the machine reaches by the
recorded steps. A change of an index, a mask, an order or a stored value in a method breaks that equation.

**Histories.** The queue's ghost history names who claimed each ticket on each side, with what value, and
what was delivered for it; `effects` lists the winning compare-exchanges in order. `QueueFifo.RefinesFifo`
reads that list as operations on a FIFO.

**The environment.** A socket is a byte sequence: each send takes some of the bytes or fails, each receive
yields some of what the peer still sends or fails, as a list of outcomes says that is a parameter of the
object; once the peer has closed, a receive yields nothing. A loop that need not end is seen for a given
number of turns, which is a parameter too.
Clocks, pointers, the characters behind a pointer and the meaning of the bits of a double are parameters.
Integers in memory are little-endian.

**The session.** `Session.Events()` is everything a session has put out, sent or still buffered. `Valid`
ties it to the bytes: the messages on the socket, each of whole events, followed by the buffer. The
specification `SessionSpec.Emit` says what one event should add, and `StringTable` and `Resolution` draw the
conclusions for the client.

**Known values.** Where both sides of a law use the same definition, results that name none fix it: digests, an
accept key, frames, headers, chunks, encodings and hashes in full (`KnownDigests`, `Handshake.SampleAcceptKey`,
`FrameService.HelloArrives` and the members whose names begin with `Known`).

## What turned out not to hold as written

Each line names the result that says exactly when the code does what it should, and the one with an input on
which it does not.

- A queue of one cell passes the static_assert of src/ConcurrentQueue.h:36 but is not a queue
  (`QueueFifo.SoundIffTwoCells`, `QueueFifo.OneCellUnsound`).
- The 32-bit counters need a bound on how long a thread may stall (`QueueWrap.StepAgreesIff`,
  `QueueWrap.WrapSimulatesIff`; `QueueStalls.StallGivesUpOnEmpty` at 2^31 and `QueueStalls.StallOverwrites`
  at 2^32).
- The bit of a string-table slot is `index & 5`, not `index & 7`, so handles whose low 15 bits differ in bit 1
  alone share a slot and only the first string of the two is sent (`SessionSpec.SameSlotIff`,
  `Resolution.NamesResolveIff`; `Resolution.SlotsCollide`, `Resolution.SecondNameLost`). Beyond 16384 handles
  that is certain (`StringTable.TooManyHandles`).
- 64-bit times arrive rounded to doubles (`EventReader.GetUint64ExactIff`; `EventReader.LongTimeRounded`).
- A string longer than 65535 characters is sent with its length modulo 65536 (`SessionSpec.Names.Text`;
  `SessionSpec.LongStringLost`).
- Base64 puts a line break behind the 19th group only (`Base64.BrokenIffOneLine`;
  `Base64.SecondBreakMissing`).
- An empty chunked write ends the response for the receiver (`ChunkedCoding.DechunksIffNoneEmpty`;
  `ChunkedCoding.EmptyWriteEnds`).
- WebbyWrite can return 0 for a broken chunk (`WriterSpec.SuccessMeansWholeIff`; `WriterSpec.SizeLineLost`).
- A counter's first point is never displaced by an earlier one (`Counters.SortedIffNonePrecedesFirst`;
  `Counters.EarlierPointStaysBehind`).
- A read from a peer that closes too early never ends (`BodyReader.Reader.ReadEndsIff`;
  `BodyReader.ClosedPeerHangs`).
- The length of an incoming frame is cut to 32 bits and read as signed (`WebSocket.LengthArrivesIff`;
  `WebSocket.LengthTurnsNegative` at 2^31 and `WebSocket.LengthVanishes` at 2^32).
- What arrives together with a frame is dropped when the frame has been served (`FrameService.InStepIff`;
  `FrameService.FramesTogether`).
- The sink's handler reads 1024 bytes of every frame, although webby's documentation asks handlers to read no
  more than the frame holds (src/webby/README.md:36); it waits for ever on a short frame that nothing follows
  (`FrameService.SinkFrame` has the exact condition for both).
- The answer to a ping is not a pong and breaks the stream of the client (`FrameService.ArrivesIffNoPing`;
  `FrameService.PongIsNoPong`).
- The SHA-1 bit count loses what a size of 2^29 bytes or more has beyond 32 bits (`Sha1.CountExactIff`;
  `Sha1.CountLost`).
- On 64-bit systems different pointers can share a string id (`PointerHash.PointersOfHandle`;
  `PointerHash.HandlesCollide64`).

## Model

| member | source | states |
|---|---|---|
| `QueueSafety.NextInv` | src/ConcurrentQueue.h:62-111 | Any atomic step of any thread, spurious compare-exchange failures included, keeps the global invariant: deque <= enque <= deque + S, every cell of the current window has sequence t, t+1 or t-S+1 for its ticket t and the claimed value once published, and what each thread holds in its registers is still true (the stability of the window between the sequence load and the compare-exchange). |
| `QueueSafety.RunInv` | src/ConcurrentQueue.h:53-111 | The invariant holds after every schedule of any number of threads from the constructor's state, for every size of at least two. |
| `QueueSafety.EnqueSees` | src/ConcurrentQueue.h:65-67 | What an enqueuer learns from the sequence word of a ticket not beyond the counter: it is below the ticket exactly when the ticket is still the next one and its cell is taken; above it only if the counter has moved on. |
| `QueueSafety.DequeSees` | src/ConcurrentQueue.h:94-96 | The same for a dequeuer: below target + 1 exactly when the ticket is still the next one and nothing is published for it. |
| `QueueSafety.ClaimedCellIsFree` | src/ConcurrentQueue.h:69-80 | The winner of the enqueue compare-exchange finds the queue not full and no reader of the previous lap in its cell. |
| `QueueSafety.ClaimedCellIsFull` | src/ConcurrentQueue.h:98-109 | The winner of the dequeue compare-exchange finds its ticket published with the value of the thread that claimed it for writing. |
| `QueueSafety.HoldersApart` | src/ConcurrentQueue.h:78-108 | Two threads between a winning compare-exchange and their sequence store are never in the same cell. |
| `QueueFifo.RefinesFifo` | src/ConcurrentQueue.h:62-111 | In every interleaving the winning compare-exchanges, in their order, are a run of a FIFO of capacity S, whose contents are the values of the tickets between the two counters. |
| `QueueFifo.ReturnsItsTicket` | src/ConcurrentQueue.h:98-109 | TryDeque hands back exactly the value brought by the thread that claimed the same ticket for writing; the ticket was claimed by this reader alone and not delivered before. |
| `QueueFifo.NothingLostAtRest` | src/ConcurrentQueue.h:62-111 | When all calls have returned, every ticket below the dequeue counter was delivered once with its own value, every other claimed ticket lies published in its cell, and every other cell is free for its next ticket. |
| `QueueFifo.CellsAreExclusive` | src/ConcurrentQueue.h:78-108 | The exclusive use of cells, for every run. |
| `QueueFifo.SequenceGrows` | src/ConcurrentQueue.h:80-108 | In unbounded tickets no step lowers a sequence number; the 32-bit words do go back to 0, which is the subject of QueueWrap. |
| `QueueFifo.EnqueFailsOnlyWhenTaken` | src/ConcurrentQueue.h:65-72 | The test that makes TryEnque return false holds if and only if, when the sequence was loaded, the target was still the enqueue counter and ticket target - S not yet released. |
| `QueueFifo.DequeFailsOnlyWhenUnpublished` | src/ConcurrentQueue.h:94-101 | The test that makes TryDeque return false holds if and only if, when the sequence was loaded, the target was still the dequeue counter and the ticket unclaimed or unpublished. |
| `QueueFifo.RetryMeansProgress` | src/ConcurrentQueue.h:69-77 | Going round either loop without a spurious failure means that another thread has advanced the counter since this one read it. |
| `QueueFifo.RetriesPaidByOthers` | src/ConcurrentQueue.h:62-111 | Lock freedom over whole runs: on either side, a thread goes round its loop, spurious failures apart, at most as often as other threads have won a ticket on that side since the constructor. |
| `QueueFifo.EnqueAlone` | src/ConcurrentQueue.h:62-82 | A TryEnque that is left alone returns within five steps, and succeeds if and only if the next cell is not taken. |
| `QueueFifo.DequeAlone` | src/ConcurrentQueue.h:91-111 | A TryDeque that is left alone returns within five steps: the oldest value, or nothing exactly when nothing is published. |
| `QueueFifo.SoundIffTwoCells` | src/ConcurrentQueue.h:32-36 | The effects of every run are those of a FIFO of capacity S if and only if there are at least two cells; the static_assert also admits a single cell. |
| `QueueFifo.OneCellUnsound` | src/ConcurrentQueue.h:65-80 | The schedule that shows it: with one cell two enqueues in a row both succeed and the second overwrites the first. |
| `QueueWrap.DeltaWraps` | src/ConcurrentQueue.h:67 | The 32-bit difference read as signed is the true difference of the tickets whenever that fits 32 bits. |
| `QueueWrap.StepCommutes` | src/ConcurrentQueue.h:65-109 | One step of the 32-bit machine on the image of a state is the image of the unbounded step, if fewer than 2^31 - S tickets went by since the thread loaded its counter. |
| `QueueWrap.WrapSimulates` | src/ConcurrentQueue.h:53-111 | Every run from the constructor under that stall bound: the 32-bit queue is step for step the image of the unbounded one, with the same branches, cells and returned values, across wraparound. |
| `QueueWrap.StepAgreesIff` | src/ConcurrentQueue.h:65-109 | The exact condition, for every action of every thread in every state of a run, spurious failures included: the 32-bit step is the image of the unbounded one if and only if the thread is not at a test, or the sequence word lies behind what is wanted, or it lies ahead by a non-zero remainder modulo 2^32 that is below 2^31, or it differs by a multiple of 2^32 and the compare-exchange either is due or fails anyway. |
| `QueueWrap.WrapSimulatesIff` | src/ConcurrentQueue.h:53-111 | The 32-bit queue is the image of the unbounded one throughout a run from the constructor if and only if every step of the run meets that condition. |
| `QueueStalls.StallGivesUpOnEmpty` | src/ConcurrentQueue.h:65-72 | Where the bound of 2^31 comes from: a run from the constructor in which a thread stalls for 2^31 tickets between its two loads and then returns false on an empty queue, because the difference reads as negative. |
| `QueueStalls.StallOverwrites` | src/ConcurrentQueue.h:65-79 | The other failure, at 2^32: a run from the constructor in which a thread stalls before its test, the compare-exchange succeeds on a full queue, and the thread is about to overwrite the next value to be read. |
| `ConcurrentQueueObject.ConcurrentQueue.constructor` | src/ConcurrentQueue.h:53-60 | Both counters at zero, cell i free for ticket i, for any power of two up to 2^31. |
| `ConcurrentQueueObject.ConcurrentQueue.Index` | src/ConcurrentQueue.h:66 | `target & kBufferMask` is the remainder modulo the size. |
| `ConcurrentQueueObject.ConcurrentQueue.EnqueTest` | src/ConcurrentQueue.h:69-72 | Test and compare-exchange on the fields in place are one step of the 32-bit machine, with the branch taken. |
| `ConcurrentQueueObject.ConcurrentQueue.DequeTest` | src/ConcurrentQueue.h:98-101 | The same for the dequeue side. |
| `ConcurrentQueueObject.ConcurrentQueue.EnquePublish` | src/ConcurrentQueue.h:80 | The sequence store is the publishing step of the machine. |
| `ConcurrentQueueObject.ConcurrentQueue.DequeRelease` | src/ConcurrentQueue.h:108 | The sequence store `target + kBufferMask + 1` is the releasing step of the machine. |
| `ConcurrentQueueObject.ConcurrentQueue.Execute` | src/ConcurrentQueue.h:62-111 | Any access of any thread, resumed from its registers, is one recorded step; only that thread's registers change. |
| `ConcurrentQueueObject.ConcurrentQueue.TryEnque` | src/ConcurrentQueue.h:62-82 | The retry loop with other threads running between any two of its accesses: the steps recorded are exactly the call, the trips made, with what the others do in each, and the two stores if the last trip has won; every trip but the last went round, and the call still tries only when all trips it was given went round. State and result are those of the 32-bit machine after these steps. |
| `ConcurrentQueueObject.ConcurrentQueue.TryDeque` | src/ConcurrentQueue.h:91-111 | The same for TryDeque, with the value handed out. |
| `ConcurrentQueueObject.ConcurrentQueue.EnqueUndisturbed` | src/ConcurrentQueue.h:62-82 | A call in one trip that nobody disturbs, on the fields themselves: it returns true, with value, sequence word and counter stored, exactly if the sequence word of the cell is the counter; false exactly if it lies behind; otherwise it goes round; in both latter cases nothing changes. |
| `ConcurrentQueueObject.ConcurrentQueue.DequeUndisturbed` | src/ConcurrentQueue.h:91-111 | The same for TryDeque: the value of the cell, exactly if its sequence word is one ahead of the counter. |
| `ConcurrentQueueObject.ConcurrentQueue.MirrorsUnboundedQueue` | src/ConcurrentQueue.h:53-111 | An object whose recorded history keeps the stall bound is the image of the unbounded queue after the same steps, so all of the above applies to it. |
| `RingSafety.CopyCellIsPosition` | src/ConcurrentCircularBuffer.h:67-76 | The two memcpy calls touch, byte for byte, the cells of consecutive positions, across the wrap. |
| `RingSafety.DistanceFromIndices` | src/ConcurrentCircularBuffer.h:55 | The masked difference of two indices is the true distance of the positions behind them. |
| `RingSafety.NextInv` | src/ConcurrentCircularBuffer.h:51-125 | Every byte copied and every index loaded or stored by either thread keeps the invariant, however stale the view each has of the other. |
| `RingSafety.ReadsArePrefixOfWrites` | src/ConcurrentCircularBuffer.h:51-125 | In every byte-wise interleaving the bytes read are a prefix of the bytes of the accepted writes, at most S - 1 bytes are in flight, and they lie in the buffer in order. |
| `RingSafety.CopiesNeverOverlap` | src/ConcurrentCircularBuffer.h:67-114 | The cells the writer fills and those the reader empties are disjoint at all times, including across the wrap. |
| `RingSafety.WriteAcceptedIffRoom` | src/ConcurrentCircularBuffer.h:53-59 | A write is accepted if and only if it fits behind what was unread when the reader's index was loaded, leaving one cell free. |
| `RingSafety.ReadTakesWhatWasPublished` | src/ConcurrentCircularBuffer.h:92-101 | A read takes the smaller of what it wants and what was published when the writer's index was loaded. |
| `CircularBufferObject.ConcurrentCircularBuffer.TryWrite` | src/ConcurrentCircularBuffer.h:50-87 | With the reader running in between: on success exactly the data is appended to what was written, otherwise nothing is; it succeeds if and only if there was room, one cell left free, behind what had been read when the reader's index was loaded. |
| `CircularBufferObject.ConcurrentCircularBuffer.Read` | src/ConcurrentCircularBuffer.h:89-125 | With the writer running in between: what is returned is exactly what is appended to the bytes taken, and its length is the smaller of max and what was unread when the writer's index was loaded. |
| `CircularBufferObject.ConcurrentCircularBuffer.DeliversInOrder` | src/ConcurrentCircularBuffer.h:29-48 | Whatever was done with the buffer, it delivers what was written, in order. |
| `Protocol.Write` | src/Protocol.cpp:43-53 | A field is written if and only if it fits the space, behind what is already there, and nothing else changes. |
| `Protocol.EncodeEvent` | src/Protocol.cpp:67-115 | InvalidParameter exactly without a buffer; Success exactly when the space holds the encoding, which then stands at the position given; NoMemory otherwise, with as many whole fields as fit one behind the other; all other bytes are unchanged. |
| `Protocol.KnownTimes` | src/Protocol.cpp:67-115 | A header and a tick, byte by byte. |
| `Protocol.KnownRegion` | src/Protocol.cpp:67-115 | A region, byte by byte. |
| `Protocol.KnownCounters` | src/Protocol.cpp:67-115 | A counter set and one added to, byte by byte, with the double 1.0. |
| `Protocol.KnownString` | src/Protocol.cpp:67-115 | A string, byte by byte. |
| `Protocol.EncodeSizeIsLength` | src/Protocol.cpp:117-138 | EncodeSize is the length of the encoding, before and after the names are hashed. |
| `EventReader.GetUint64Rounds` | tools/web/js/ysProtocol.js:25-35 | What arrives for a 64-bit field is its rounding to a double, ties to even. |
| `EventReader.GetUint64IsNearest` | tools/web/js/ysProtocol.js:25-35 | That is a double, and no double is nearer to the field. |
| `Doubles.ToDoubleIsClose` | tools/web/js/ysProtocol.js:25-35 | Rounding moves a time by at most half the spacing of doubles around it. |
| `Doubles.ToDoubleMonotone` | tools/web/js/ysProtocol.js:25-35 | The rounding keeps the order of times. |
| `EventReader.LongTimeRounded` | tools/web/js/ysProtocol.js:25-35 | The first time that changes on the way: 2^53 + 1 arrives as 2^53. |
| `EventReader.GetUint64ExactIff` | tools/web/js/ysProtocol.js:25-35 | It arrives unchanged if and only if it is a multiple of the spacing of doubles around it; always below 2^53. |
| `EventReader.ReadsOne` | tools/web/js/ysProtocol.js:51-120 | An encoded event of any type is read back wherever it lies, and the position moves behind it. |
| `EventReader.ReadsStream` | tools/web/js/ysProtocol.js:46-121 | Any list of encoded events is read back in order, whatever stands before and after it. |
| `EventReader.ReadsBack` | tools/web/js/ysProtocol.js:46-121 | The reader inverts the encoder over whole messages: every event in order, then a clean end. |
| `EventReader.CutMessageThrows` | tools/web/js/ysProtocol.js:51-120 | A message cut inside an event yields the events before the cut and then throws; it is never taken for complete. |
| `EventReader.YsEventReader.Read` | tools/web/js/ysProtocol.js:51-120 | One read in the source's form, with the string loop: the value, the new position and the recorded error are those of the specification. |
| `EventReader.OnMessage` | tools/web/js/ysProtocol.js:167-177 | The handler of a message emits the events of the specification in order and reports an error exactly for an unknown type byte. |
| `Sockets.Socket.SendFully` | src/webby/webby.c:738-752 | Partial sends add up: success means that the whole buffer went out in order; failure that a proper prefix did. |
| `WebSocket.MakeWebsocketHeader` | src/webby/webby.c:1544-1571 | The bytes written are the frame header of section 5.2 of RFC 6455 with the shortest length form. |
| `WebSocket.ScanInvertsHeader` | src/webby/webby.c:969-1031 | What scanning makes of a header with any opcode and any length below 2^64, masked or not, whatever follows: the low four bits of the opcode, and of the length its low 32 bits read as signed; FIN, key and size come back. |
| `WebSocket.RoundTripIffFits` | src/webby/webby.c:969-1031 | So the frame scanned is the one announced if and only if the opcode is below 16 and the length below 2^31. |
| `WebSocket.LengthArrivesIff` | src/webby/webby.c:1005-1015 | For every length a header can announce: the length scanned is that length if and only if it is below 2^31. |
| `WebSocket.LengthTurnsNegative` | src/webby/webby.c:1005-1015 | A masked frame of 2^31 bytes scans with the length -2^31. |
| `WebSocket.LengthVanishes` | src/webby/webby.c:1005-1015 | One of 2^32 bytes scans as empty. |
| `WebSocket.ScanNeedsWholeHeader` | src/webby/webby.c:969-1031 | Every strict prefix of a header scans as incomplete, and bytes behind the header never change the result. |
| `WebSocket.HeaderIsShortest` | src/webby/webby.c:1548-1570 | No header that scans to the same length is shorter than the printed one. |
| `WebSocket.MessageFragments` | src/webby/webby.c:1544-1598 | The bytes between Begin and End parse, by the receiver's own rules, into one fragment for each write and an empty last one. |
| `WebSocket.FragmentsShape` | src/webby/webby.c:1573-1598 | Those fragments are well-formed by section 5.4 of RFC 6455: the opcode on the first only, FIN on the last only, and payloads that concatenate to the data written. |
| `WebSocket.MessageArrives` | src/webby/webby.c:1573-1711 | Any list of writes arrives as one message with its opcode and all its bytes, and the stream goes on behind it. |
| `WebSocket.KnownHeaders` | src/webby/webby.c:1544-1571 | The headers of the examples in section 5.7 of RFC 6455. |
| `WebSocket.Connection.Write` | src/webby/webby.c:1674-1698 | One frame for each write; the opcode is spent on the first. It succeeds if and only if the coming sends take the header and then the data; what is on the socket is in every case what they took, and a failed send clears the alive flag. |
| `WebSocket.Connection.EndSocketFrame` | src/webby/webby.c:1584-1598 | The empty final frame, as far as the coming sends take it; the connection stays alive exactly if they take all of it. |
| `SessionObject.Session.constructor` | src/WebsocketSink.cpp:119-149 | A new session has an empty buffer and an empty table. |
| `SessionObject.Session.FlushSession` | src/WebsocketSink.cpp:248-259 | The buffered bytes go out as one binary message, none if there are none; the events of the session, sent and buffered, stay the same, and a connection on which no send fails stays alive. |
| `SessionObject.Session.WriteSessionString` | src/WebsocketSink.cpp:172-214 | A string event is added exactly if no string of its table slot was sent before; the bit of that slot is then set and no other; sent messages and buffer together stay the encodings of all events in order, with every message whole. |
| `SessionObject.Session.EmitString` | src/WebsocketSink.cpp:184-208 | Both branches add the same event: the buffered one, after a flush if need be, and the four writes of a string that no buffer can hold. |
| `SessionObject.Session.WriteSessionEvent` | src/WebsocketSink.cpp:216-246 | The strings an event refers to, each if new, then the event: the session's events grow by exactly that, the buffer position stays within 4096, and bytes sent and buffered remain the encodings of all events in order. |
| `SessionObject.SendString` | src/WebsocketSink.cpp:202-207 | The branch for oversized strings puts out one message whose bytes are the encoder's; if no send fails the connection stays alive. |
| `SessionSpec.SameSlotIff` | src/WebsocketSink.cpp:174-181 | Two handles share a table slot if and only if their low 15 bits agree everywhere but in bit 1, which `index & 5` ignores. |
| `SessionSpec.Names.Text` | src/WebsocketSink.cpp:184-187 | The text that travels is the string itself if and only if its length fits 16 bits. |
| `SessionSpec.LongStringLost` | src/WebsocketSink.cpp:184-187 | A string of 65536 characters arrives empty. |
| `StringTable.OneStringAheadOfUse` | src/WebsocketSink.cpp:172-236 | Each slot of the table yields at most one string per session, ahead of the first event that refers to a handle of the slot. |
| `StringTable.ResolvedIffDistinctSlots` | src/WebsocketSink.cpp:172-181 | Every name and file is defined before the event that uses it if and only if the handles of the run fall into different slots (byte `index >> 3`, bit `index & 5`). |
| `StringTable.TooManyHandles` | src/WebsocketSink.cpp:172-181 | A run that uses more than 4 * 4096 handles loses a name, whatever the hashes are: the two masks leave no more slots. |
| `Pipeline.OneMessageReads` | tools/web/js/ysProtocol.js:167-177 | A message that carries whole events makes the client emit just these events. |
| `Pipeline.ClientSeesEverything` | src/WebsocketSink.cpp:172-259 | Encoder, buffer, framing, receiver and reader compose to the identity: what a live and flushed session has put on the socket since it began reads as exactly its events, in order, every message ending cleanly. |
| `Pipeline.RunSession` | src/WebsocketSink.cpp:216-259 | From the first event to a flush, for any run of events: if the connection is alive and no send fails, it is alive at the end, and whenever it is, the client sees the events of the run, each preceded by its new strings. |
| `ProgramView.EventsOfProgram` | tools/web/js/ysState.js:230-256 | What the client sees, strings apart, is one event for each of the program's, in order, and field by field with its values: frequency, line, begin, end, value and amount as given, times as their doubles, pointers as their hashes. |
| `ProgramView.CounterOfProgram` | tools/web/js/ysState.js:240-255 | The client's counter under the hash of a name is the one that results from what the program did to that name, unless another counter shares the hash; points and pending amount together are what the program gave. |
| `Resolution.NamesResolveIff` | tools/web/js/ysState.js:222-252 | The client's string map holds the right text for every name and file of every event at the place where the event is emitted if and only if the handles of the run fall into different slots and different texts have different hashes. |
| `Resolution.SlotsCollide` | src/PointerHash.h:38-47 | Two 32-bit pointers whose handles differ and share a slot. |
| `Resolution.SecondNameLost` | src/WebsocketSink.cpp:172-181 | A run of two events that uses pointers with these handles: the second name is not in the client's map when its event is handled. |
| `Resolution.NarrowPointersTell` | src/PointerHash.h:38-47 | With 32-bit pointers the hashes always tell the texts apart. |
| `Resolution.DefinedIsShown` | tools/web/js/ysState.js:222-252 | A handle whose strings all say the same shows that text once one of them was handled. |
| `Counters.YsCounter.SetValue` | tools/web/js/ysState.js:33-38 | The loop and the splice insert the point where the specification puts it. |
| `Counters.YsCounter.ApplyAt` | tools/web/js/ysState.js:44-49 | A pending amount becomes a point and is cleared; a pending amount of zero leaves no point. |
| `Counters.YsCounter.FindIndexByTime` | tools/web/js/ysState.js:51-68 | On the points of any counter, whatever its history: everything from index 1 on is earlier than the time exactly before the result, and for the results 0 and 1 the first point is on the right side too. |
| `Counters.LowerBound` | tools/web/js/ysState.js:51-68 | On fully sorted points that is the true lower bound. |
| `Counters.PointsInOrder` | tools/web/js/ysState.js:33-38 | Over any history of insertions the points from index 1 on are sorted, the first stays where it is, and none is lost or invented. |
| `Counters.SortedIffNonePrecedesFirst` | tools/web/js/ysState.js:33-38 | All points are sorted if and only if none was inserted that precedes the first. |
| `Counters.EarlierPointStaysBehind` | tools/web/js/ysState.js:33-38 | Two insertions that show it: an earlier point that comes second stays second. |
| `Counters.SameTimeKeepsArrival` | tools/web/js/ysState.js:33-38 | Points of the same time stay in their order of arrival. |
| `Counters.AmountsConserved` | tools/web/js/ysState.js:33-49 | Over any run of operations the values shown plus the pending amount are what was set and added. |
| `Counters.RunInserts` | tools/web/js/ysState.js:33-49 | The whole life of a counter: its points are those put by the operations, each by its own and in their order, a value set with its time or what was added since the last tick with the time of the tick that ends it, unless that is zero; what was added since then is pending. |
| `Counters.KnownCounter` | tools/web/js/ysState.js:33-49 | Two amounts, a tick, an earlier value and another amount, in full. |
| `Counters.YsStateCounters.ApplyToAll` | tools/web/js/ysState.js:99-102 | A tick applies to every counter once and to nothing else. |
| `Counters.YsStateCounters.AddCounter` | tools/web/js/ysState.js:94-97 | The amount goes to the counter of this id, made if need be; all others are unchanged. |
| `Frames.YsFrameSet.StartFrame` | tools/web/js/ysState.js:131-136 | Ends the open frame at the time and begins the next one there, with its number. |
| `Frames.YsFrameSet.EndFrame` | tools/web/js/ysState.js:138-143 | Ends the open frame, if there is one. |
| `Frames.YsFrameSet.FindIndexByTime` | tools/web/js/ysState.js:145-162 | The frame before the result ends before the time and the one at it does not; on sorted ends it is the lower bound. |
| `Frames.FramesOfRun` | tools/web/js/ysState.js:131-143 | There is one frame for each start, from its time to that of the operation that follows it. |
| `Frames.FramesContiguous` | tools/web/js/ysState.js:120-143 | As long as time does not run backwards the ends are sorted, no frame has a negative length or reaches into the next, and there is no gap unless a stop came between. |
| `Frames.KnownFrames` | tools/web/js/ysState.js:131-143 | Two frames and a stop, in full. |
| `ClientState.YsState.HandleEvent` | tools/web/js/ysState.js:230-256 | Strings, counters, frames and ticks change as the specification says for each kind of event. |
| `ClientState.YsState.Disconnected` | tools/web/js/ysState.js:183 | A lost connection ends the open frame at the last tick. |
| `ClientState.CounterOfStream` | tools/web/js/ysState.js:240-255 | Whatever else arrives in between, a counter sees just the operations on its name and the ticks. |
| `ClientState.FramesWithoutGaps` | tools/web/js/ysState.js:232-246 | A stream with its ticks in order gives one frame for each header and tick, without gaps or overlaps, with sorted ends. |
| `ClientState.CounterKeepsAmounts` | tools/web/js/ysState.js:240-255 | The conservation law and the order of the points, for a counter of any stream. |
| `ClientState.AddedCounterSorted` | tools/web/js/ysState.js:240-255 | A counter that is only added to, with the ticks in order, has all its points in order. |
| `ClientState.TicksOfStream` | tools/web/js/ysState.js:232-246 | The last tick is the time at which the last frame began, and a tick shows the time since the frame before it began. |
| `ClientState.LastHeaderCounts` | tools/web/js/ysState.js:232-239 | Frequency and start are those of the last header, whatever follows it. |
| `ClientState.DisconnectClosesLastFrame` | tools/web/js/ysState.js:183 | A lost connection leaves no frame open, and the last one ends where it began. |
| `Timeline.TicksArriveInOrder` | tools/web/js/ysState.js:230-246 | If the times of a program's header and ticks do not run backwards, neither do those its client sees, rounding included. |
| `Timeline.FramesOfProgram` | tools/web/js/ysState.js:131-143 | Such a program is shown as one frame for its header and each tick, starting at the rounded time, without gaps or overlaps. |
| `Timeline.CountersOfProgram` | tools/web/js/ysState.js:33-49 | In such a program a counter that is only added to has all its points in order. |
| `Sha1.HashBlock` | src/webby/webby.c:298-335 | The four loops over the schedule compute the block function of section 6.1.2 of FIPS 180-4. |
| `Sha1.RolRotates` | src/webby/webby.c:286-289 | `sha1_rol` is the rotation of section 3.2. |
| `Sha1.Context.constructor` | src/webby/webby.c:337-347 | The initial hash value, nothing absorbed, a count of zero. |
| `Sha1.Context.Update` | src/webby/webby.c:349-379 | Any bytes are absorbed behind the earlier ones, whole blocks hashed and the rest kept; the two words count the bits modulo 2^64, with the size first cut to 32 bits. |
| `Sha1.Context.AddToCount` | src/webby/webby.c:372-378 | The carry between the two words is right for every increment of one word. |
| `Sha1.CountExactIff` | src/webby/webby.c:373 | The count is the true one if and only if size / 2^29 is a multiple of 2^32; always for less than 2^29 bytes. |
| `Sha1.CountLost` | src/webby/webby.c:373 | 2^29 bytes in one call leave the count as it was. |
| `Sha1.Context.FillUp` | src/webby/webby.c:399-400 | The padding loop ends, with the measure (56 - buf_used) mod 64, after the number of zeros that section 5.1.1 asks for. |
| `Sha1.Context.Final` | src/webby/webby.c:381-415 | Padding, count and digest: what is written is the hash of everything absorbed with its padding, and the buffer is empty at the assert. |
| `Sha1.DigestOfParts` | src/webby/webby.c:337-415 | Every way of splitting a message into updates gives the one-shot digest of FIPS 180-4. |
| `KnownDigests.AbcDigest` | src/webby/webby.c:298-415 | The digest of "abc" is a9993e36 4706816a ba3e2571 7850c26c 9cd0d89d: eighty rounds, checked word by word. |
| `KnownDigests.KeyDigest` | src/webby/webby.c:298-415 | The digest of a message of two blocks, the sample key of section 1.3 of RFC 6455 with the GUID, worked out in the same way. |
| `Base64.RoundTrip` | src/webby/webby.c:243-284 | The strict decoder of RFC 4648 section 4 inverts the encoding for every length. |
| `Base64.TextDecodes` | src/webby/webby.c:276-279 | With its line break removed the text decodes to the input; there is only one break, behind the 19th group, because the counter is never reset. |
| `Base64.BrokenIffOneLine` | src/webby/webby.c:276-279 | The text has a break behind every 19th group if and only if the input has at most 111 bytes. |
| `Base64.SecondBreakMissing` | src/webby/webby.c:276-279 | Every input of 112 bytes misses its second break. |
| `Base64.BufSizeSuffices` | src/webby/webby.c:234-241 | The text and its NUL never exceed base64_bufsize, and fall short of it exactly from 38 groups on. |
| `Base64.Alphabet` | src/webby/webby.c:245 | The table of characters is the alphabet of RFC 4648 section 4. |
| `Base64.Base64Encode` | src/webby/webby.c:243-284 | 1 and no change exactly if the output is smaller than base64_bufsize; otherwise the text and a NUL at its start, the rest unchanged. |
| `Base64.WriteQuad` | src/webby/webby.c:257-274 | Shifting one 32-bit word gives the four characters of the group, padded as it should be. |
| `Handshake.ComputeAcceptKey` | src/webby/webby.c:943-955 | The accept key of section 4.2.2 of RFC 6455, which always fits the buffer of 64 characters and has no line break. |
| `Handshake.SampleAcceptKey` | src/webby/webby.c:943-955 | The sample key of section 1.3 of RFC 6455 is answered with s3pPLMBiTxaQ9kYGzzhZRbK+xOo=. |
| `UrlDecode.UrlDecode` | src/webby/webby.c:161-187 | Also in place, the result is the left-to-right decoding of the original text, cut to the room and ended by a NUL, and nothing outside changes; the two characters of lookahead never lie beyond the byte behind the source. |
| `UrlDecode.DecodeUri` | src/webby/webby.c:800-804 | The use on a request line: the whole decoding, in place. |
| `UrlDecode.DecodesEncoded` | src/webby/webby.c:167-180 | Decoding inverts every percent encoding of any bytes, whatever is escaped and in whatever case. |
| `UrlDecode.UnchangedIff` | src/webby/webby.c:167-180 | A text decodes to itself if and only if no percent sign in it has two hexadecimal digits behind it and, in form data, there is no plus sign. |
| `UrlDecode.KnownText` | src/webby/webby.c:167-180 | Two texts in full, with digits in either case and a plus sign. |
| `BufferedWriter.Writer.Flush` | src/webby/webby.c:1383-1392 | Success sends all that was buffered; after a failure the buffer is kept. |
| `BufferedWriter.Writer.Push` | src/webby/webby.c:1394-1433 | Bytes are conserved: after success sent and buffered bytes have grown by exactly the data and the buffer is not full, also on the direct path; nothing is written outside the serve state; after a failure what went out is still a prefix of what should have. |
| `BufferedWriter.Writer.Write` | src/webby/webby.c:1699-1710 | A chunk if chunked, the bytes alone if not, when all pushes succeed. In every case the result, the socket and the buffer are those that the specification computes from the coming send results, and a result of 0 means a whole chunk whenever the chunk leaves room in the buffer. |
| `WriterSpec.PushContract` | src/webby/webby.c:1394-1433 | For every sequence of send results: success conserves bytes and leaves room in the buffer, what has gone out is always a beginning of what should, and without failing sends a push succeeds. |
| `WriterSpec.SuccessMeansWholeIff` | src/webby/webby.c:1699-1706 | A result of 0 guarantees a whole chunk, however the sends go, if and only if the chunk is not empty and its size line and data leave room in the buffer; WebbyWrite returns the result of its last push only. |
| `WriterSpec.BrokenChunk` | src/webby/webby.c:1699-1706 | For every other chunk, buffer and content: send results on which the output is broken and the result is 0. |
| `WriterSpec.SizeLineLost` | src/webby/webby.c:1699-1706 | One such call in full: the buffer is full, the first send fails, the others succeed, the size line is lost and the result is 0. |
| `BufferedWriter.Writer.EndResponse` | src/webby/webby.c:1713-1727 | The final chunk and a flush: nothing is left in the buffer. |
| `BufferedWriter.Writer.Respond` | src/webby/webby.c:1674-1727 | A whole response over a socket that does not fail: everything is on the wire and nothing in the buffer, and if it is chunked it decodes to the writes if and only if none of them is empty. |
| `ChunkedCoding.DechunksUpToEmpty` | src/webby/webby.c:1699-1721 | What a decoder of section 4.1 of RFC 7230 makes of any list of writes: everything before the first empty one, which it takes for the end. |
| `ChunkedCoding.DechunksIffNoneEmpty` | src/webby/webby.c:1699-1721 | It recovers exactly the writes, and takes exactly the response, if and only if none is empty. |
| `ChunkedCoding.EmptyWriteEnds` | src/webby/webby.c:1699-1706 | Two writes, the first empty: the decoder stops with nothing and the other chunk stays behind. |
| `ChunkedCoding.KnownChunks` | src/webby/webby.c:1699-1721 | The chunks of 5 and of 26 bytes and the final one, byte by byte. |
| `BodyReader.ReadBufferedData` | src/webby/webby.c:1600-1620 | As much as there is and fits, from the unread end of a buffer. |
| `BodyReader.Reader.ReadEndsIff` | src/webby/webby.c:1641-1655 | A read ends if and only if a receive fails or all the bytes it asks for are in the buffers or sent before the peer closes; otherwise recv yields 0 for ever and the loop goes on. Without failures an end is a success. |
| `BodyReader.ClosedPeerHangs` | src/webby/webby.c:1641-1655 | Two bytes wanted of a peer that sends one and closes: the loop is still going after any number of receives. |
| `BodyReader.Reader.Read` | src/webby/webby.c:1622-1672 | Seen for any number of receives: it goes on, succeeds or fails just as the loop over the coming receives says; after success the bytes are the beginning of what remained in the two buffers and the socket, each combined bit by bit with the byte of the key at its position in the payload modulo 4, and exactly these are consumed; while it goes on none is lost. |
| `BodyReader.UnmaskCombines` | src/webby/webby.c:1664-1668 | Unmasking is the exclusive disjunction with the repeating key, bit by bit (section 5.3 of RFC 6455), |
| `BodyReader.CombinedIsUnmask` | src/webby/webby.c:1664-1668 | and the only function that is. |
| `BodyReader.ReadParts` | src/webby/webby.c:1622-1672 | For every partition into reads and every way the bytes lie in buffers and arrive in receives, the results concatenate to the payload combined with the repeating key from its position; without failing receives all of them succeed exactly when the peer sends enough. |
| `BodyReader.UnmaskTwice` | src/webby/webby.c:1664-1668 | Masking and unmasking are inverse (section 5.3 of RFC 6455). |
| `BodyReader.MaskedFrameArrives` | src/webby/webby.c:969-1031 | A masked frame from a client scans to its key and length, and its payload unmasks to what the client sent. |
| `FrameService.DiscardIncomingData` | src/webby/webby.c:418-430 | Exactly so many bytes of the stream are gone after success. |
| `FrameService.ServeFrame` | src/webby/webby.c:1212-1288 | One turn of the WebSocket state: nothing until the header is there; then the handler gets the unmasked payload from buffer and socket, the rest of the payload is discarded, and the next turn starts from the socket alone, because the buffer is emptied; opcode 9 is answered with 80 0a 00 and discarded, opcode 8 ends the connection; what the handler gets is also stated bit by bit. If nothing fails, it is served exactly when the peer sends enough. |
| `FrameService.HelloArrives` | src/webby/webby.c:1212-1288 | The masked frame of the example in section 5.7 of RFC 6455 reaches the handler as "Hello". |
| `FrameService.InStepIff` | src/webby/webby.c:1235-1285 | The next turn starts right behind the frame if and only if the handler did not read beyond the payload and the buffer held nothing of the next frame. |
| `FrameService.ReceiveFrame` | src/webby/webby.c:1224-1285 | Header, masking, split reads and reset in composition: a masked frame that begins in the buffer and ends there or in the socket reaches the handler as its payload, however it is read, and the stream goes on behind it exactly under that condition. |
| `FrameService.FramesTogether` | src/webby/webby.c:1284 | Two masked frames that arrive together: the second is gone. |
| `FrameService.SinkFrame` | src/WebsocketSink.cpp:105-117 | The handler of the sink asks for 1024 bytes of every frame: it is served exactly if payload and further stream have as many, waits for ever otherwise, and stays in step only on frames of at least 1024 bytes. |
| `FrameService.PongIsNoPong` | src/webby/webby.c:33 | The answer to a ping scans as a final continuation of ten bytes, and no receiver finds a message behind it; the two bytes of a pong would be received. |
| `FrameService.ArrivesIffNoPing` | src/webby/webby.c:1249-1257 | For every list of messages and answers: a receiver gets what was meant if and only if no ping was answered. |
| `BitXors.BitXorBits` | src/PointerHash.h:41-45 | The exclusive disjunction, bit by bit, at any width. |
| `BitXors.BitAndBits` | src/WebsocketSink.cpp:174-181 | The conjunction, bit by bit. |
| `BitXors.DownDivides` | src/PointerHash.h:41-45 | A shift to the right divides by the power of two. |
| `BitXors.UnfoldFold` | src/PointerHash.h:41-45 | The step `x ^ (x >> n)` on a word of any width can be undone. |
| `BitXors.FoldUnfold` | src/PointerHash.h:41-45 | And every word is the result of such a step. |
| `PointerHash.Mix32IsPermutation` | src/PointerHash.h:38-47 | The 32-bit mixer is a permutation with an explicit inverse of all six steps: no two pointers share a string id. |
| `PointerHash.UnmixMix64` | src/PointerHash.h:53-62 | The 64-bit mixer before the cut can be undone, |
| `PointerHash.MixUnmix64` | src/PointerHash.h:53-62 | and reaches every word. |
| `PointerHash.PointersOfHandle` | src/PointerHash.h:53-62 | After the cut a string id belongs to exactly one pointer for each high word. |
| `PointerHash.HandlesCollide64` | src/PointerHash.h:61 | So on 64-bit systems every id is shared by different pointers. |
| `PointerHash.KnownHashes` | src/PointerHash.h:38-62 | Both mixers on the pointer 1, step by step. |

## Left out

- ConcurrentQueueObject.ConcurrentQueue.TryEnque: the loop is observed for any given number of rounds (`StillTrying` beyond them), because how long it goes on depends on the other threads; `QueueFifo.RetriesPaidByOthers` bounds its rounds by their successes and `QueueFifo.EnqueAlone` says how it ends when they pause.
- ConcurrentQueueObject.ConcurrentQueue.TryDeque: the same.
- `Enque` (src/ConcurrentQueue.h:84-89) repeats TryEnque until it succeeds and adds nothing to it.
- The memory orders of the atomic accesses: steps are sequentially consistent.
- Protocol.EncodeEvent: for a string the caller must have room for its text, because the source copies it without a test (src/Protocol.cpp:105); the API never encodes a string without that.
- SessionObject.Session.WriteSessionEvent: String and None events are excluded; the API never passes them to the sink. After a failed send nothing is said about the bytes on the socket, only that the connection is no longer alive.
- WebSocket.Connection.Write: lengths are below 2^31, the range of the int they are cast to. The switches between blocking and non-blocking mode succeed.
- Pipeline.RunSession: one session; the sink's list of sessions and its back links (src/WebsocketSink.cpp:119-170) are not part of this model.
- BufferedWriter.Writer.Write: lengths are below 2^31, the range of the int they are cast to.
- UrlDecode.UrlDecode: the byte behind the source is not a hexadecimal digit; all texts the server decodes end before a NUL or a `&`. The destination has room for the NUL, as every caller sees to; a length of zero would wrap around.
- Handshake.ComputeAcceptKey: a key below 2^29 characters, the range in which the SHA-1 count is right; the request buffer is far smaller.
- BodyReader.Reader.Read: the loop is seen for any given number of receives (`StillReading` beyond them), because it need not end; `BodyReader.Reader.ReadEndsIff` says exactly when it does. A peer that keeps the connection open and sends nothing blocks the receive itself.
- FrameService.ServeFrame: the handler gives up when one of its reads fails (the sink's ignores that, but the connection is marked dead either way); the switches between blocking and non-blocking mode succeed; the buffer is filled before.
- Sha1.DigestOfParts: messages below 2^64 bits in parts below 2^29 bytes; `Sha1.CountExactIff` and `Sha1.Context.Final` cover the rest.
- Counters.YsCounter.SetValue: times and values are integers, so that sums are exact; rounding, NaN and infinities of doubles are not modelled.
- ClientState.YsState.HandleEvent: the reciprocal of the frequency and the callbacks are not modelled.
- EventReader.OnMessage: the statistics are not modelled.
- The order in which a JavaScript map lists the counters: `ApplyToAll` takes them in any order.
- WebbyFindQueryVar, the HTTP tokeniser and header parsing, WebbyPrintf, WebbyServerUpdate, wb_update_client and connection compaction (src/webby/webby.c:190-227, src/webby/webby.c:691-834, src/webby/webby.c:1033-1211, src/webby/webby.c:1290-1381).
- Chunk extensions and trailers, which the server never sends.
- Registration of threads, clocks, signals, spin locks, platform sockets, the page's charts and controls, demo and build files.
