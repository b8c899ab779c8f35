# Verification of the byte-stream reframer and the server protocol

A TCP server reads whatever chunks the transport hands it. This project models how it turns them back into
messages, and how it keeps its lists of connections while its service is stopped and started, and proves that

- the 16-bit circular byte buffer is a FIFO queue through every wrap, split, empty and full case;
- what a delimiter delivers is a function of the byte stream alone: any two chunkings of a stream give the same
  messages, and messages that a sender prefixed with their size come back as they were sent;
- the ring of a given size never refuses a legal input, *if and only if* it has room for the longest residue and
  one more chunk;
- any number of connections, joining at any time and served in any interleaving, are each served as if they were
  alone; the dispatch loop as it is written achieves this *if and only if* all connections are always ready;
- in every run of the server, flags agree with component pointers, and the service's list agrees with the
  database's *if and only if* every completed start of the service has exactly one thread entry, before any
  connection that is added during it, or has none and began with an empty database.

## How it is built

| file | what it holds |
|---|---|
| `Arithmetic.dfy`, `Bytes.dfy` | products and quotients; machine integers, block copy, concatenation |
| `ByteCircularBuffer.dfy` | the ring, as a class over an array with `uint16` indices (every `+=` is proved not to wrap) |
| `Reframing.dfy` | the step a delimiter takes per chunk, as functions; all the ways in which a call can end |
| `MsgDelimiter.dfy` | the delimiter classes with their loops, proved to compute those functions |
| `ChunkInvariance.dfy`, `RoundTrip.dfy`, `Capacity.dfy` | the theorems about whole runs of a delimiter |
| `SplitReads.dfy` | exactly when the delimiters are right with the split read as it is written |
| `Dispatch.dfy`, `ClientService.dfy` | the dispatch loop: as functions, and as a class over objects that share nothing |
| `StaleData.dfy` | exactly when the dispatch loop is right as it is written |
| `ClientDb.dfy`, `Registry.dfy`, `TcpServer.dfy` | the database, the protocol as interleaved steps, and the server class that takes them |

The classes have the fields of the source and change them in place. Their contracts equate the new state with a
function of the old one; the theorems are about those functions.

Several files carry unresolved merge conflicts; the 7aae719 side is the one modelled.

## Where the code does not do what it is for

The code is kept as it is. Where a line defeats the purpose, the model has the line as written and the line as
meant side by side, as a parameter, and a theorem says exactly when the written one does its job.

- *Split reads* (ByteCircularBuffer.cpp:94). The second half of a read that runs past the end of the array is
  copied over the first; the write at line 56 does offset it. `SplitRead` chooses. With the read as written, fixed
  framing is right on all inputs if and only if the slice size divides the ring size, or no slice fits (27, which
  connection_manager.cpp:214 has in mind, does not divide 10240), and size-prefixed framing if and only if no
  message that is read straddles the end of the array. A header that straddles it leaves a local byte unset; that outcome is
  called `Indeterminate`.
- *Stale data* (client_service.cpp:226-240). The loop body hands data on for every connection, ready or not, so a
  connection that is not ready is handed the bytes of the last ready one before it. `Rule` chooses. As written,
  what is delivered is what each connection sent if and only if every connection is ready in every round.
- *Purge* (client_db.cpp:73-78). `*(it++)` reads the iterator before it is advanced: the first connection is
  aborted twice and the last one not at all. Each is aborted once if and only if there is at most one.
- *State word* (tcp_server.cpp:61-71). `state` is not set before the first bit is. The flags are right if and only
  if that memory happens to hold neither NOT_ACCEPTING nor NOT_LISTENING.
- *Late entry* (client_service.cpp:209-211, 267). The copy of the database into a new service relies on a sleep.
  If the thread enters after NOT_LISTENING is cleared, the service loses every connection it had.
- *Adds during a start* (tcp_server.cpp:92-95). Nothing stops the accepting thread, so it can add a connection during
  that sleep; the service gets a new thread, and if that enters before NOT_LISTENING is cleared, its copy puts
  connections in the list twice. The service's list is free of duplicates if and only if this never happens.
- *Bare headers* (msg_delimiter_var.cpp:22). `<=` makes a message of two bytes wait for one more byte.
- *Headers of 0 and above 1024*, slices above 1024. A header of 0 is a turn of the loop that takes nothing and
  leaves the loop where it was, so that no number of turns ends it: `Spins`. The others overrun the scratch buffer.
  These are outcomes of the functions, which are total; the methods that run the whole loop require that they do
  not occur.
- *Empty chunks*. BCBWrite reports 0 for an empty write, so the assertion at msg_delimiter.cpp:38 fails when a
  receive returns nothing. That assertion is modelled as executed; `Process` reports whether it held.

## Model

| member | source | states |
|---|---|---|
| `ByteCircularBuffers.ByteCircularBuffer.constructor` | ByteCircularBuffer.cpp:6-16 | a new ring of any 16-bit size, 0 included, is valid and empty |
| `ByteCircularBuffers.ByteCircularBuffer.AvailableSize` | ByteCircularBuffer.cpp:25-29 | the free space is the size less the number of waiting bytes |
| `ByteCircularBuffers.ByteCircularBuffer.IsFull` | ByteCircularBuffer.cpp:102-106 | full exactly when as many bytes wait as there are cells |
| `ByteCircularBuffers.ByteCircularBuffer.AppendBlock` | ByteCircularBuffer.cpp:37-53 | a write between `front` and the end of the array appends its data to the queue |
| `ByteCircularBuffers.ByteCircularBuffer.AppendHalves` | ByteCircularBuffer.cpp:55-58 | so does a write in two halves |
| `ByteCircularBuffers.ByteCircularBuffer.Write` | ByteCircularBuffer.cpp:31-60 | all or nothing: the data is appended exactly when it fits, otherwise nothing changes; waiting bytes stay where they are |
| `ByteCircularBuffers.ByteCircularBuffer.Read` | ByteCircularBuffer.cpp:62-100 | fails without effect when fewer bytes wait; otherwise the destination gets the oldest bytes (exactly, or as the written copy garbles them), a peek leaves the queue alone and a consuming read removes just those bytes |
| `ByteCircularBuffers.ByteCircularBuffer.Reset` | ByteCircularBuffer.cpp:108-114 | the queue is empty |
| `ByteCircularBuffers.RingSliceAt` | ByteCircularBuffer.h:7-16 | waiting byte `i` is the cell `(rear + i) mod size` |
| `ByteCircularBuffers.ExtendInOneBlock` | ByteCircularBuffer.cpp:37-53 | cells laid behind the waiting ones are appended to them, whether or not the waiting ones wrap |
| `ByteCircularBuffers.ExtendInTwoBlocks` | ByteCircularBuffer.cpp:55-58 | the same across the end of the array |
| `ByteCircularBuffers.HalvesOut` | ByteCircularBuffer.cpp:93-94 | what the two copies of a split read leave in the destination, in terms of the queue |
| `ByteCircularBuffers.CopyOutAt` | ByteCircularBuffer.cpp:70-94 | byte by byte, what a read leaves in the destination, with the offset and as written |
| `MsgDelimiters.MsgDelimiter.constructor` | msg_delimiter.cpp:9-17 | a new delimiter is in the state from which all runs start |
| `MsgDelimiters.MsgDelimiter.FixedIsFlushable` | msg_delimiter_fixed.cpp:17-23 | flushable exactly when a whole slice waits |
| `MsgDelimiters.MsgDelimiter.PeekHeader` | msg_delimiter_var.cpp:24 | the little-endian size prefix, also when it straddles the end of the array; as written such a peek gives the second byte in the place of the first, and an arbitrary second one |
| `MsgDelimiters.MsgDelimiter.VarIsFlushable` | msg_delimiter_var.cpp:18-29 | flushable exactly when more than a header waits, and as much as it announces, unless the header is garbled |
| `MsgDelimiters.MsgDelimiter.Consume` | msg_delimiter_var.cpp:39-42 | a consuming read of any size, 0 included, into the scratch buffer, followed by the callback, is one `Deliver`; a read of more than there is changes nothing |
| `MsgDelimiters.MsgDelimiter.FixedProcessMsg` | msg_delimiter_fixed.cpp:27-37 | the loop ends, and ring, scratch buffer and delivered messages are those of `Drain` |
| `MsgDelimiters.MsgDelimiter.VarTurn` | msg_delimiter_var.cpp:37-43 | one turn of the loop, on any header that fits the scratch buffer, 0 included, is one `Deliver` of the announced size, and the assertion at line 39 holds |
| `MsgDelimiters.MsgDelimiter.VarProcessMsg` | msg_delimiter_var.cpp:33-44 | the loop ends, and ring, scratch buffer and delivered messages are those of `Drain` |
| `MsgDelimiters.MsgDelimiter.Process` | msg_delimiter.cpp:36-43 | the assertion holds exactly when the chunk is not empty and fits; then the new state is the `Process` of Reframing, otherwise nothing has changed |
| `ChunkInvariance.HeadStable` | msg_delimiter_var.cpp:18-29 | a complete message at the head stays the same message whatever arrives later |
| `ChunkInvariance.ParseAppend` | msg_delimiter.cpp:36-43 | parsing can stop anywhere and go on from the tail |
| `ChunkInvariance.ParseConserves` | msg_delimiter_var.cpp:37-43 | the messages and the tail are the stream |
| `ChunkInvariance.MessagesWellFormed` | msg_delimiter_var.cpp:37-43 | every message has the slice size, or begins with its own length; there are no more of them than bytes |
| `ChunkInvariance.ParseIsMaximal` | msg_delimiter.cpp:40-42 | on a legal stream nothing flushable is left, and less than one message |
| `ChunkInvariance.DrainIsParse` | msg_delimiter_var.cpp:33-44 | a drain delivers the parse of the waiting bytes and keeps its tail |
| `ChunkInvariance.DrainOutcome` | msg_delimiter_var.cpp:33-44 | for every input: overruns iff a parsed message is longer than the scratch buffer, spins iff the tail is still flushable, otherwise delivers the parse |
| `ChunkInvariance.ZeroTurn` | msg_delimiter_var.cpp:37-43 | a turn of the loop takes nothing iff the header is 0; then all that changes is that the callback gets an empty message |
| `ChunkInvariance.ZeroTurns` | msg_delimiter_var.cpp:37-43 | any number of such turns deliver that many empty messages, and the loop goes on from the same ring |
| `ChunkInvariance.LoopEnds` | msg_delimiter_var.cpp:37-43 | a drain that does not spin ends as `Drain` says, in no more turns than there are bytes |
| `ChunkInvariance.SpinsIffForever` | msg_delimiter_var.cpp:37-43 | a drain spins iff no number of turns of the loop ends it |
| `ChunkInvariance.StuckOnZeroHeader` | msg_delimiter_var.cpp:37-43 | the tail is still flushable iff its header is 0 |
| `ChunkInvariance.DeliverConserves` | msg_delimiter_fixed.cpp:32-36 | each turn of a drain loop conserves the bytes, for any stream |
| `ChunkInvariance.RunConserves` | msg_delimiter.cpp:36-43 | over any run, delivered bytes and then waiting bytes are the accepted bytes |
| `ChunkInvariance.RunIsParse` | msg_delimiter.cpp:36-43 | given room, a run over a legal stream never fails, delivers the parse of the whole stream and keeps its tail |
| `ChunkInvariance.ServedRunIsParse` | msg_delimiter.h:5 | the same for the ring, the scratch buffer and the receive buffer of the server |
| `ChunkInvariance.ChunkingIsIrrelevant` | msg_delimiter.cpp:36-43 | two chunkings of one stream: same messages, same waiting bytes, no failure |
| `RoundTrip.Encode` | tcpcli.cpp:17-23 | the sender's message announces its own length, low byte first, and its payload follows the header |
| `RoundTrip.ParseFrames` | msg_delimiter_var.cpp:18-44 | messages in front of any stream come out in order, then that stream is parsed |
| `RoundTrip.ParseWithheld` | msg_delimiter_var.cpp:22 | a final bare header is all that is withheld |
| `RoundTrip.ParseSent` | msg_delimiter_var.cpp:18-44 | what is parsed from a list of messages, and what then waits |
| `RoundTrip.VariableRoundTrip` | msg_delimiter_var.cpp:33-44 | any list of messages of 2 to 1024 bytes, in any chunking, is delivered as sent, but for a final bare header |
| `RoundTrip.BareHeaderReleased` | msg_delimiter_var.cpp:22 | any next byte releases it |
| `RoundTrip.PayloadsRoundTrip` | tcpcli.cpp:93-108 | the payloads of the encoded messages come back |
| `RoundTrip.FixedClosedForm` | msg_delimiter_fixed.cpp:17-37 | `n div k` consecutive slices, and the last `n mod k` bytes |
| `RoundTrip.FixedReassembles` | msg_delimiter_fixed.cpp:27-37 | the same for every run, however it is chunked (the two sends of tcpclistr.cpp:70-93 into slices of 27 among them) |
| `RoundTrip.FramingsAgree` | msg_delimiter_fixed.cpp:17-37 | on a stream of equal messages both delimiters deliver and keep the same after every chunk |
| `Capacity.ServerRingBound` | msg_delimiter.h:5 | at most 1023 bytes wait between calls, 2047 during one; the next chunk is accepted |
| `Capacity.TrickleRefused` | msg_delimiter.cpp:38 | bytes that hold no message pile up until a chunk is refused |
| `Capacity.CapacityExact` | msg_delimiter.cpp:36-43 | a ring never fails a legal input iff it has room for the longest residue and one chunk |
| `SplitReads.ReadExactlyIff` | ByteCircularBuffer.cpp:93-94 | as written, a read is right for all contents iff it does not run past the end |
| `SplitReads.StraddledHeader` | ByteCircularBuffer.cpp:93-94 | what a straddling peek decodes, and when that happens to be the size |
| `SplitReads.RunUnsplit` | ByteCircularBuffer.cpp:62-100 | while no message runs past the end, the code as written behaves as the code with the offset, failures included |
| `SplitReads.FixedUnharmedIff` | ByteCircularBuffer.cpp:94 | as written, fixed framing is right on all inputs iff the slice size divides the ring, or no slice fits it or the scratch buffer |
| `SplitReads.TwentySevenIsHarmed` | connection_manager.cpp:214 | slices of 27 in the ring of 10240 are not |
| `SplitReads.StraddleSpoils` | ByteCircularBuffer.cpp:94 | messages of which one that is read straddles the end, and which do not arrive as sent |
| `SplitReads.BehindBareHeader` | msg_delimiter_var.cpp:22 | a message behind a bare header that waits releases it, and arrives as in an empty ring |
| `SplitReads.VariableUnharmedIff` | ByteCircularBuffer.cpp:94 | as written, all messages of given lengths from 2 to 1024 arrive as sent, in all chunkings, iff none that is read straddles the end |
| `Dispatch.FeedFirstAt` | client_service.cpp:222-241 | a round hands each connection its chunk once, and nothing else |
| `Dispatch.ReadyFedOwn` | client_service.cpp:226-240 | handed on when ready, each connection is handed what it sent |
| `Dispatch.StaleDataHandedOn` | client_service.cpp:226-240 | as written, an unready connection is handed the bytes of the last ready one before it |
| `Dispatch.EarlierDataHandedOn` | client_service.cpp:226-240 | as written, with none ready up to it in the round, it is handed what the buffer and the last length hold |
| `Dispatch.ZerosHandedOn` | client_service.cpp:226-242 | and after any run, that is as many zeros as the last receive of the round before had bytes |
| `Dispatch.ServeByAppend` | client_service.cpp:218-243 | a run can be stopped anywhere and taken up again from its connections and its buffer |
| `Dispatch.Isolation` | client_service.cpp:218-243 | each connection, from when it joins, ends as if served alone; the loop survives iff each of them alone would |
| `Dispatch.ServeByReady` | client_service.cpp:218-243 | the shared buffer makes no difference when data is handed on only when ready |
| `Dispatch.EveryClientReframed` | client_service.cpp:218-243 | handing on when ready, for any number of connections, joining at any time, in any interleaving, each gets the parse of its own bytes and the server survives |
| `Dispatch.RawGetsOwn` | client_service.cpp:238-240 | in the same runs, the callback gets exactly the chunks that a connection without a delimiter sent, in order; without a callback nobody does |
| `StaleData.FeedWeight` | client_service.cpp:236-240 | whatever a connection survives to be handed strictly adds to what it has been given, if it is heard |
| `StaleData.AlwaysWeight` | client_service.cpp:218-243 | as written, each connection has been given at least what it sent, and more for each round in which it was not ready |
| `StaleData.AsWrittenServesIff` | client_service.cpp:218-243 | on every run that the connections survive, the loop as written ends as the one that hands on when ready, even in the number of bytes given, iff every connection that is heard is always ready |
| `StaleData.AsWrittenReframesIff` | client_service.cpp:218-243 | as written, what is delivered and what waits are the parse of what each connection sent iff every connection is always ready |
| `ClientServices.ClientService.AddClient` | client_service.cpp:278-280 | the connection is appended, and separate ones stay separate |
| `ClientServices.ClientService.Listen` | client_service.cpp:286-300 | the connection is appended, separate ones stay separate, and a new thread has yet to enter |
| `ClientServices.ClientService.ServeClient` | client_service.cpp:224-240 | the shared buffer and this connection change as specified, no other connection does |
| `ClientServices.HandOn` | client_service.cpp:236-240 | through the delimiter if there is one, otherwise the bytes go straight to the callback, if one is registered |
| `ClientServices.ClientService.DispatchRound` | client_service.cpp:222-241 | one round over objects, under either rule, is the round of the specification; the buffer then holds what the last ready connection sent, or is as it was |
| `ClientServices.ClientService.DispatchLoop` | client_service.cpp:218-243 | and so are any number of rounds between two joins |
| `ClientDbs.ClientDB.Update` | client_db.cpp:38-42 | appends the connection |
| `ClientDbs.ClientDB.Copy` | client_db.cpp:56-66 | appends all connections to the given list in order |
| `ClientDbs.ClientDB.Purge` | client_db.cpp:68-81 | as many aborts as connections: the first, then each up to the last but one; and what is left in the list |
| `ClientDbs.PurgeCounts` | client_db.cpp:73-78 | of two or more connections the first is aborted twice, the last never, and every other once |
| `ClientDbs.PurgeOnceIff` | client_db.cpp:73-78 | every connection is aborted exactly once iff there is at most one |
| `Registry.SetMask` | tcp_server.cpp:153 | setting one flag leaves the others alone |
| `Registry.ClearMask` | tcp_server.cpp:155 | so does clearing one |
| `Registry.ConstructedConsistentIff` | tcp_server.cpp:61-71 | flags and pointers agree at first iff the unset memory holds neither flag |
| `Registry.RunKeepsConsistent` | tcp_server.cpp:159-194 | and then they agree in every run |
| `Registry.StopSatisfiesDestructorIff` | tcp_server.cpp:203-234 | from any state, Stop satisfies the destructor's assertions iff no live component has its flag set |
| `Registry.AcceptingRestarts` | tcp_server.cpp:159-175 | accepting can be stopped and started again, with its flag and pointer, and nothing else changes |
| `Registry.ServiceRestarts` | tcp_server.cpp:177-194 | so can the service, which then has all connections of the database |
| `Registry.StopClears` | tcp_server.cpp:203-227 | Stop clears RUNNING, drops the database and leaves the other flags |
| `Registry.ServerAmountsTo` | tcp_server.cpp:73-194 | after any run, the last call about it says whether the server accepts and has a service; the database has the added connections in order; it is running iff it was started or the memory said so |
| `Registry.LifecycleSafe` | tcp_server.cpp:153-234 | from any memory without the two flags, after any run the flags agree with the pointers, and Stop satisfies the destructor's assertions |
| `Registry.RegistryAgreesIff` | tcp_server.cpp:188-200 | the two lists agree throughout a run, adds during a start included, iff every completed start has exactly one thread entry, before any add, or none and nothing to copy |
| `Registry.LateEntryDoubles` | client_service.cpp:208-211 | an entry after an add of the same start puts a connection in the list twice |
| `Registry.LateCopy` | client_db.cpp:56-66 | the list after it: what was added before, and then the whole database |
| `Registry.ListsSoundIff` | client_service.cpp:208-211 | under every schedule the database has no duplicates; the service has none iff there is no such entry, and then it can only lack the oldest connections |
| `Registry.LateEntryLosesClients` | client_service.cpp:261-267 | a restart whose thread enters late loses every connection |
| `Registry.AddDuringStartDoubles` | tcp_server.cpp:92-95 | a run from construction that ends settled with both of its connections in the list twice |
| `TcpServers.TcpServer.constructor` | tcp_server.cpp:61-71 | the initial state of the protocol, from whatever the memory holds, with INITIALIZED set and empty lists |
| `TcpServers.TcpServer.SetBit` | tcp_server.cpp:153 | the flag is set, the others are as before |
| `TcpServers.TcpServer.UnSetBit` | tcp_server.cpp:155 | the flag is clear, the others are as before |
| `TcpServers.TcpServer.Start` | tcp_server.cpp:73-87 | RUNNING is set and the acceptor's thread started; nothing else of the protocol's state changes |
| `TcpServers.TcpServer.AddClient` | tcp_server.cpp:92-95 | the connection comes last in both lists, and the service has a new thread that has yet to enter |
| `TcpServers.TcpServer.StopConnectionAcceptance` | tcp_server.cpp:159-167 | the flag is set afterwards; unless it was set before, the manager is gone |
| `TcpServers.TcpServer.StartConnectionAcceptance` | tcp_server.cpp:169-175 | the flag is clear afterwards; if it was set before, there is a new manager whose thread is started |
| `TcpServers.TcpServer.StopClientService` | tcp_server.cpp:177-185 | the flag is set afterwards; unless it was set before, the service is gone |
| `TcpServers.TcpServer.EnterServiceThread` | client_service.cpp:209-211 | the service's list is followed by the database's if the flag is set |
| `TcpServers.TcpServer.StartClientService` | tcp_server.cpp:188-194 | begins, lets the other threads enter and add in any order during the sleep, and finishes; or does nothing |
| `TcpServers.TcpServer.Interleave` | client_service.cpp:261-267 | the calls of the other threads during the sleep are the steps of that schedule |
| `TcpServers.TcpServer.StopAcceptor` | tcp_server.cpp:206-209 | the guarded first half of Stop |
| `TcpServers.TcpServer.StopListener` | tcp_server.cpp:211-214 | the guarded second half of Stop |
| `TcpServers.TcpServer.Stop` | tcp_server.cpp:203-228 | takes the step of stopping, meets the destructor's assertions iff no live component has its flag set, and aborts in the order of Purge |

## Left out

- Sockets, select, receive errors (a negative length), multicast, printing: reception is an arbitrary sequence of rounds of chunks of at most 1024 bytes.
- pthreads, cancellation and locks: server calls are atomic steps, except StartClientService, in which the service's thread and the accepting thread can take steps.
- AddClient while no service is live: the source then dereferences a null pointer; `Enabled` and the precondition of `AddClient` exclude it.
- ConnectionManager: reduced to a pointer; its Stop does not stop its thread, which is why adds are possible at any time.
- Object lifetime (Destroy, Abort, `delete this`): modelled as pointers becoming null; Purge logs the calls of Abort and does not model what the second one of a connection does to freed memory.
- ClientService::Stop empties its own list with the loop of Purge just before it deletes itself; the list is dropped with the object.
- A fixed size of 0 divides by zero in the source; `SliceSize` starts at 1.
- `data_len` before the first receive of a thread is taken to be some length from 0 to 1024.
- ClientServices.ClientService.DispatchLoop: requires that no delimiter spins, overruns or reads an unset header byte, because such a run does not return or is undefined; EveryClientReframed shows that legal streams meet it.
- ClientServices.ClientService.DispatchRound: requires the same of one round.
- ClientServices.ClientService.ServeClient: requires the same of one chunk.
- MsgDelimiters.MsgDelimiter.Process: requires the same of one call; DrainOutcome says exactly which inputs those are.
- MsgDelimiters.MsgDelimiter.VarProcessMsg: requires that the loop ends; `VarTurn` and SpinsIffForever say what it does when it does not.
- MsgDelimiters.TcpClient: a connection with a delimiter needs a registered callback, because the delimiters call it without asking.
- TcpServers.TcpServer.SetBit: promises nothing about the bits above the five flags of tcp_server.h:18-22, because nothing reads them.
- TcpServers.TcpServer.UnSetBit: promises nothing about those bits either.
- The TcpServer class shares `ClientService` with the dispatch loop, but its methods do not carry the separation of the connections along.
- The maximum file descriptor and the descriptor sets (client_service.cpp:174-197), EthnmCore, msg_handler and network_utils: nothing to prove beyond their bodies.
