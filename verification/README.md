# Verification of the getrafty tasks

Dafny models of five parts of the repository, each proved against an independent description of what it is for. Objects
whose methods change fields are classes, with the source's fields and loops; what they do is stated by functions on
values, and what the source promises is proved of those functions, over all inputs, runs and interleavings.

1. **The framed byte stream** (`tasks/transport`). `byte_buffer.dfy` is `ByteBuf` with its two cursors; `framing.dfy` says
   what a stream of length-prefixed frames is, parses one in a single pass, and gives the Chunker's state between
   fragments; `stages.dfy` is a pipeline on values; `flushing.dfy` is how much the read and write loops move and what
   keeps waiting bytes watched; `transports.dfy` has the Chunker, the Conveyor and the event-loop
   transport as objects; `delivery.dfy` is the transition system of two endpoints and a network, and `link.dfy` runs two
   such objects in step with it. A glue stage at the head hands outbound buffers to `write`, and a stage at the tail
   records what arrives.
2. **The event watcher** (`tasks/transport/event_watcher` and `tasks/event_watcher`). `registry.dfy` is what is registered
   and which `epoll_ctl` calls are legal; `watch_table.dfy` and `watchers.dfy` have the two-level table, the watcher built
   on it and the older flat watcher as objects; `dispatch.dfy` is one batch of events while callbacks edit the table;
   `wakeup.dfy` is the eventfd and task queue shared with other threads.
3. **The socket** (`tasks/socket/socket.cpp`). `socket_spec.dfy` is the state machine; `socket_runs.dfy` counts callback
   calls over whole runs, `socket_history.dfy` tells what its logs hold from the ticks alone, `socket_answers.dfy`,
   `socket_tells.dfy` and `socket_setup.dfy` say which answer goes to which request; `socket.dfy` is the object.
4. **The file system** (`tasks/myfs`). `fs_spec.dfy` gives the requests on values; `fs_tree.dfy`, `fs_paths.dfy` and
   `fs_contents.dfy` give shape, paths and contents, `fs_replies.dfy` what each request is answered; `fs_server.dfy` is the server, a table of shared nodes.
5. **The connections of the socket's TCP transport** (`tasks/socket/tcp_transport.cpp`). `net_spec.dfy` gives its calls on
   values, `net_runs.dfy` what they keep and mean, `net_transport.dfy` the object.

`socket_failures.dfy`, `fs_failures.dfy` and `net_failures.dfy` hold concrete runs in which promises fail.

What the kernel, other threads and callbacks do is a parameter: how many bytes a call moves, which error it returns, which
fds and peers come, what each callback watches and unwatches, how the steps of threads interleave.

`dafny verify dfyconfig.toml` checks the project.

## Where the code falls short of a promise

Each promise is met under an exact condition, proved for all inputs; a lemma beside it runs into the failing side.

- The flush callback means that the write buffer is empty exactly when at most 256 bytes were buffered, because
  `onWritable` stops after 256 writes (`Flushing.FlushMeansEmptyIff`; one byte at a time, `Flushing.DrainDribble`).
- Waiting bytes are watched for writability except exactly since a writable event that ended in completion or an error
  with bytes left, until the next write or flush; without errors that takes more than 256 bytes
  (`Flushing.UnwatchedIffStalled`, `Flushing.NeverStallsIff`).
- `unwatchAll` leaves the table's entries set and takes the eventfd, too, out of the kernel. The table of a
  constructed watcher does not agree with the kernel then (`Watchers.EventWatcher.UnwatchAll`, `Watchers.UnwatchNew`); a later `watch` reaches
  the kernel exactly for fds that had no entry (`Registries.WatchAfterUnwatchAll`); and the loop can still run every
  accepted task exactly if there was no `unwatchAll`, or a wakeup is being handled, or none is left
  (`Wakeups.LoopFinishesIff`, `Wakeups.TaskAfterUnwatchAllIsLost`).
- The flat watcher's `unwatch` is refused by the kernel exactly when the fd had no registration
  (`Registries.UnwatchSynced`, `Registries.FlatUnwatchIsRefused`).
- Each write is answered at most once exactly when no write-ready reply with an outcome meets a write left over by a close
  (`SocketHistory.WritesAtMostOnceIff`, `SocketFailures.StrayReplyAnswersTwice`).
- A closed socket has answered every request exactly when no queued read has met an end of file while connected, and it
  was closed by a close or has nothing left in its queues (`SocketHistory.ClosedAnswersAllIff`,
  `SocketFailures.EofLosesRead`, `SocketFailures.FailedBindLosesRead`). After a failed bind or connect the queued reads and
  writes are answered exactly by what the transport still brings, and by no close (`SocketAnswers.FailureStrands`).
- A write is answered by a ready reply with an outcome for it exactly unless the socket is connected and the write names a
  peer; such a write has no call exactly as long as the socket is connected (`SocketAnswers.ReadyAnswersIff`,
  `SocketAnswers.StuckWrite`, `SocketFailures.NamedWriteIsStuck`).
- A failed read is reported as such exactly when its count, a `size_t`, is zero: the `-1` of a failing transport is taken
  for success (`SocketAnswers.ReadStatusReported`, `SocketFailures.FailedReadIsOk`).
- A request keeps the directory tree a tree exactly when it does not `unlink` a directory that has entries
  (`FsTree.StepKeepsTreeIff`, `FsFailures.UnlinkedDirectoryOrphans`).
- A read that would block leaves every connection armed exactly when no peer was hot or all others were armed
  (`NetRuns.BlockedReadArmsAllIff`, `NetFailures.BlockedReadLeavesOneUnarmed`).
- `close` closes every fd exactly when no connect is under way and none was at an earlier close
  (`NetRuns.CloseReleasesAllIff`, `NetRuns.LeakedIff`, `NetFailures.PendingConnectLeaks`).
- Accepting a peer keeps the indexes inverse exactly when it has no connection yet; otherwise the release of the earlier
  connection hides the new one (`NetFailures.AcceptValidIff`, `NetFailures.ReconnectedPeerIsLost`).

## Model

| member | source | states |
|---|---|---|
| Bytes.DecodeEncodeU32 | tasks/transport/byte_buffer.hpp:162-185 | Reading the four little-endian bytes of any 32-bit value gives the value back. |
| Bytes.EncodeDecodeU32 | tasks/transport/byte_buffer.hpp:162-185 | Conversely every four bytes are the header of the value they decode to, so a header is determined by its value. |
| ByteBuffers.ByteBuf.Reserve | tasks/transport/byte_buffer.hpp:133-145 | Reserving keeps the queued bytes and offers at least the bytes of room asked for, the old room first. |
| ByteBuffers.ByteBuf.Advance | tasks/transport/byte_buffer.hpp:147-154 | Drops the first bytes, at most those there, from the queue; an emptied buffer starts again at 0. |
| ByteBuffers.ByteBuf.Commit | tasks/transport/byte_buffer.hpp:156-160 | Queues the first bytes of the room, at most those there. |
| ByteBuffers.ByteBuf.Write | tasks/transport/byte_buffer.hpp:109-120 | Appends the bytes to the queue and changes none before them. |
| ByteBuffers.ByteBuf.Peek | tasks/transport/byte_buffer.hpp:100-107 | Copies the first bytes and changes nothing. |
| ByteBuffers.ByteBuf.Read | tasks/transport/byte_buffer.hpp:84-98 | Moves bytes from the front of one queue to the end of another, losing and duplicating none; nothing for a buffer and itself. |
| ByteBuffers.ByteBuf.Transfer | tasks/transport/byte_buffer.hpp:122-131 | The same for the moving write; with itself as source a buffer is rotated. |
| ByteBuffers.ByteBuf.ReadU32 | tasks/transport/byte_buffer.hpp:162-175 | Takes a header off the front if four bytes are there, else leaves the queue as it was. |
| ByteBuffers.ByteBuf.WriteU32 | tasks/transport/byte_buffer.hpp:177-185 | Appends the header of a value. |
| ByteBuffers.HeaderRoundTrip | tasks/transport/byte_buffer.hpp:162-185 | At any cursor position, a value written behind other bytes is the value read once these are dropped. |
| ByteBuffers.ReadVector | tasks/transport/README.md:99-106 | The documented reserve, tailroom, `readv`, commit sequence appends exactly the bytes that arrived. |
| Framing.ParseStream | tasks/transport/chunker.cpp:47-66 | Parsing undoes framing: the frames of any payloads of up to 1 MB, followed by anything, parse to those payloads first. |
| Framing.ParseSound | tasks/transport/chunker.cpp:16-45 | What is parsed is there: the stream is the frames found and a rest, which is incomplete or starts with an oversized header. |
| Framing.ParseCharacterised | tasks/transport/chunker.cpp:16-45 | And nothing else is: this split of the stream is the only one with such a rest. |
| Framing.ParseAppend | tasks/transport/chunker.cpp:12-45 | Parsing more bytes is parsing the unparsed rest and the new bytes, up to an oversized header. |
| Framing.UnparsedDeterminesState | tasks/transport/chunker.hpp:8-19 | Between fragments `pending_` and `in_` represent exactly the unparsed rest, in one way only. |
| Framing.FragmentationIndependence | tasks/transport/chunker.cpp:12-45 | However a byte stream is cut into fragments, the frames emitted are those of a one-shot parse, and the state is the rest of that parse; if a header is oversized, the frames before it come first and a failure is raised. |
| Framing.HeaderDecides | tasks/transport/chunker.cpp:22-29 | A header is oversized exactly above 1 MB, whatever follows it. |
| Framing.ResyncAfterFailure | tasks/transport/chunker.cpp:22-29 | A fragment that fails gives the frames before the header and one failure; the fragments after it are received as by a new Chunker. |
| Framing.ParsePrefix | tasks/transport/chunker.cpp:12-45 | Cutting a stream of frames anywhere gives exactly the frames that are whole, and no failure. |
| Framing.CompleteIsLargest | tasks/transport/chunker.cpp:12-45 | The count of whole frames in so many bytes is the largest that fits. |
| Stages.InboundAllAppend | tasks/transport/conveyor.hpp:114-119 | A pipeline fed two runs of fragments ends as if fed one after the other from where the first left it. |
| Stages.LevelByLevel | tasks/transport/chunker.cpp:12-45 | Although a Chunker fires each frame as it finds it, the stages behind it end as if it had first received everything. |
| Stages.OutboundIgnoresState | tasks/transport/chunker.cpp:47-66 | What leaves a pipeline depends on its stages' kinds only, never on what they have received. |
| Stages.OutboundThroughStack | tasks/transport/conveyor.hpp:104-126 | Through k Chunkers a payload leaves wrapped k times if every header fits the limit, and raises one failure otherwise. |
| Stages.WrapInside | tasks/transport/conveyor.hpp:104-126 | Framing innermost or outermost gives the same wrapped bytes. |
| Stages.ArrivedIsLargest | tasks/transport/chunker.cpp:12-45 | The number of messages taken to have arrived is the largest whose wrapped bytes fit. |
| Stages.StackDelivers | tasks/transport/conveyor.hpp:94-126 | Stacked inverse: a stack of k Chunkers fed any first part of what an equal stack sent, cut anywhere, raises no failure and passes on exactly the messages that are whole there. |
| Delivery.InvStep | tasks/transport/abstract_transport.cpp:25-110 | One send, partial write or partial read keeps the invariant: polled, in flight and buffered bytes are the wire form of the accepted messages. |
| Delivery.EndToEnd | tasks/transport/abstract_transport.cpp:25-110 | End-to-end delivery for every number of Chunkers and every interleaving: delivered messages are a first part of the accepted ones, namely all whose bytes have arrived, all of them once buffer and channel are empty; oversized ones fail at the sender, none at the receiver. |
| Delivery.FlushAndPollDeliverAll | tasks/transport/abstract_transport.cpp:25-93 | Whatever has happened, one flush and one poll that go all the way deliver every accepted message. |
| Transports.FireInboundFrom | tasks/transport/conveyor.hpp:114-119 | The objects of a pipeline change as the pipeline on values does. |
| Transports.FireOutboundFrom | tasks/transport/conveyor.hpp:121-126 | What an outbound event appends to the transport's buffer, or fails with, is what the pipeline on values says. |
| Transports.FireNext | tasks/transport/conveyor.hpp:136-145 | Firing at the next stage adds one event to what the later stages have taken. |
| Transports.Chunker.ReadHeader | tasks/transport/chunker.cpp:17-30 | A header moves from the buffer to `pending_` without changing the unparsed bytes it stands for. |
| Transports.Chunker.ReadPayload | tasks/transport/chunker.cpp:36-40 | The next `pending_` bytes, and no others, leave the buffer as the payload. |
| Transports.Chunker.Next | tasks/transport/chunker.cpp:16-45 | One pass of the loop: it stops with nothing lost, takes off exactly one frame, or resets on an oversized header; the buffer shrinks with each frame. |
| Transports.Chunker.Round | tasks/transport/chunker.cpp:16-45 | A pass that fires leaves the later stages one frame further on. |
| Transports.Chunker.Loop | tasks/transport/chunker.cpp:16-45 | The loop ends, having fired what the one-shot parse finds. |
| Transports.Chunker.OnInbound | tasks/transport/chunker.cpp:12-45 | A fragment changes the Chunker and all later stages as the model on values says. |
| Transports.Chunker.OnOutbound | tasks/transport/chunker.cpp:47-66 | A payload is passed on behind its length, or fails if longer than 1 MB. |
| Transports.Transport.Write | tasks/transport/abstract_transport.cpp:95-110 | The buffer's bytes move behind those waiting, and writability is watched, unless there were none. |
| Transports.Transport.Flush | tasks/transport/abstract_transport.cpp:112-116 | Watches for writability exactly if bytes wait. |
| Transports.Transport.ReadSome | tasks/transport/tcp/tcp_transport.cpp:12-28 | The bytes received leave the kernel's queue and join the buffer, in order. |
| Transports.Transport.WriteSome | tasks/transport/tcp/tcp_transport.cpp:30-63 | The bytes the kernel took leave the buffer, and no others. |
| Transports.Transport.WriteAll | tasks/transport/abstract_transport.cpp:63-86 | The bounded write loop moves a first part of the buffer to the kernel, in order; how much and how it ends is what the kernel's answers say. |
| Transports.Transport.OnWritable | tasks/transport/abstract_transport.cpp:63-93 | After the loop writability stays watched only if the kernel refused; completion and errors are reported once. |
| Flushing.DrainMeans | tasks/transport/abstract_transport.cpp:63-93 | The write loop moves what the answers take in the rounds there are, before the first refusal, or all; it completes if all has moved or no round is left, else ends as that refusal says. |
| Transports.Transport.OnReadable | tasks/transport/abstract_transport.cpp:25-39 | All bytes read arrive at the pipeline as one event; none, no event. |
| Flushing.TakenMeans | tasks/transport/abstract_transport.cpp:29-33 | The read loop takes what is offered, 4096 bytes at a time, up to the first answer that brings nothing, or all there is. |
| Flushing.FullReadsTakeAll | tasks/transport/abstract_transport.cpp:29-33 | With enough full answers everything that waits is taken. |
| Transports.Conveyor.AddLast | tasks/transport/conveyor.hpp:187-224 | The new stage joins at the tail. |
| Transports.Conveyor.FireInbound | tasks/transport/conveyor.hpp:94-102 | Inbound events start at the first stage. |
| Transports.Conveyor.FireOutbound | tasks/transport/conveyor.hpp:104-112 | Outbound events start at the last stage. |
| Flushing.FlushMeansEmptyIff | tasks/transport/abstract_transport.cpp:63-93 | A completed flush means an empty buffer, whatever a progressing kernel answers, exactly when at most 256 bytes were buffered. |
| Flushing.DrainDribble | tasks/transport/abstract_transport.cpp:63-93 | A kernel that takes one byte at a time leaves all but 256 bytes behind a completed flush. |
| Flushing.UnwatchedIffStalled | tasks/transport/abstract_transport.cpp:63-116 | Over any run of writes, flushes and writable events, waiting bytes are unwatched exactly since an event that ended in completion or an error with bytes left, until the next write or flush. |
| Flushing.NeverStallsIff | tasks/transport/abstract_transport.cpp:63-93 | No answers of a progressing kernel without errors can do that exactly when at most 256 bytes wait. |
| Links.Link.Send | tasks/transport/conveyor.hpp:104-126 | Firing a payload at the sending object is the send step of the transition system. |
| Links.Link.OnWritable | tasks/transport/abstract_transport.cpp:63-93 | A call on the sending object is its flush step. |
| Links.Link.OnReadable | tasks/transport/abstract_transport.cpp:25-39 | A call on the receiving object is its poll step. |
| Links.Link.constructor | tasks/transport/abstract_transport.cpp:10-16 | Two new transports with k Chunkers each start in the initial state, so end-to-end delivery holds of the objects. |
| Registries.LatestWins | tasks/transport/event_watcher/event_watcher.cpp:139-214 | After any run of calls the callback of an fd and flag is that of the last call on it; calls on negative fds change nothing. |
| Registries.WatchSynced | tasks/transport/event_watcher/event_watcher.cpp:127-163 | A watch issues legal `epoll_ctl` calls only and keeps kernel interest equal to what is registered, in both watchers. |
| Registries.UnwatchSynced | tasks/event_watcher/event_watcher.cpp:142-171 | So does an unwatch, except that the flat watcher's call is refused, harmlessly, exactly when the fd had no registration. |
| Registries.CallsWhenChanged | tasks/transport/event_watcher/event_watcher.cpp:139-203 | The table watcher asks the kernel exactly when a registration begins or ends, once and legally. |
| Registries.FlatUnwatchIsRefused | tasks/event_watcher/event_watcher.cpp:142-171 | From agreement, a flat unwatch of an fd that is not watched is refused. |
| Registries.SyncedEmpty | tasks/transport/event_watcher/event_watcher.cpp:216-226 | A kernel that watches nothing agrees with the empty registry only. |
| Registries.WatchAfterUnwatchAll | tasks/transport/event_watcher/event_watcher.cpp:216-226 | After `unwatchAll` a watch reaches the kernel exactly for fds without a left-over entry. |
| WatchTables.FdWatchMap.TryEmplace | tasks/transport/event_watcher/event_watcher.cpp:34-47 | By block and offset the table is one map from fds; an entry with an empty mask is renewed, every other fd's is untouched. |
| WatchTables.FdWatchMap.ForEach | tasks/transport/event_watcher/event_watcher.cpp:49-58 | Visits each fd with a non-empty mask exactly once, and no other. |
| Dispatching.DispatchCurrent | tasks/transport/event_watcher/event_watcher.cpp:259-287 | Whatever callbacks do to the table, every invocation is of the callback registered at that moment. |
| Dispatching.NeverAfterUnwatch | tasks/transport/event_watcher/event_watcher.cpp:259-287 | An fd and flag unwatched in a batch and not watched again is not invoked later in the batch. |
| Dispatching.DispatchComplete | tasks/transport/event_watcher/event_watcher.cpp:259-287 | A ready fd and flag that stays registered is invoked. |
| Dispatching.OnlyReadyInvoked | tasks/transport/event_watcher/event_watcher.cpp:259-287 | Every invocation is of an fd and flag that some event of the batch reports ready or broken. |
| Dispatching.InvokesFollowEvents | tasks/transport/event_watcher/event_watcher.cpp:259-287 | What is invoked follows the batch event by event: each registered key at most once for its event, the reader first, only if ready or broken. |
| Dispatching.DispatchPlays | tasks/transport/event_watcher/event_watcher.cpp:259-287 | Each callback invoked makes its own calls, in order, before the next is invoked. |
| Watchers.EventWatcher.constructor | tasks/transport/event_watcher/event_watcher.cpp:107-120 | A new watcher watches its eventfd, in agreement with the kernel. |
| Watchers.EventWatcher.HandleWatch | tasks/transport/event_watcher/event_watcher.cpp:139-163 | Mask bits stay set exactly where callbacks are, the new callback is registered, and the kernel is called only for a slot that was empty. |
| Watchers.EventWatcher.HandleUnwatch | tasks/transport/event_watcher/event_watcher.cpp:179-203 | The same for unwatching; the kernel is called only for a slot that was engaged. |
| Watchers.EventWatcher.Perform | tasks/transport/event_watcher/event_watcher.cpp:165-214 | A call on a negative fd does nothing; any other takes effect at once on the loop's thread. |
| Watchers.EventWatcher.Loop | tasks/transport/event_watcher/event_watcher.cpp:259-287 | The loop over a batch, with callbacks editing the table, does what the dispatch on values says, whose invocations are the ready ones, current and in order, and keeps table and kernel in agreement. |
| Watchers.EventWatcher.UnwatchAll | tasks/transport/event_watcher/event_watcher.cpp:216-226 | Every call is accepted and the kernel watches nothing; table and kernel agree only if nothing was registered, so not in a watcher whose eventfd is, which leaves the kernel as well. |
| Watchers.UnwatchNew | tasks/transport/event_watcher/event_watcher.cpp:107-120 | A new watcher that unwatches all has its eventfd registered and out of the kernel. |
| Watchers.FlatWatcher.Watch | tasks/event_watcher/event_watcher.cpp:104-140 | The flat watcher registers the callback and keeps the kernel in agreement. |
| Watchers.FlatWatcher.Unwatch | tasks/event_watcher/event_watcher.cpp:142-171 | The same for unwatching. |
| Watchers.SameCallbacksSameInterest | tasks/event_watcher/event_watcher.cpp:104-171 | Watchers that register the same callbacks on user fds have the same kernel interest there. |
| Watchers.RunBoth | tasks/transport/event_watcher/event_watcher.cpp:139-203 | Refinement: after any sequence of calls on user fds both watchers register the same callbacks and leave the same interest, though their kernel calls differ. |
| Wakeups.NoLostWakeup | tasks/transport/event_watcher/event_watcher.cpp:107-120 | While the eventfd is watched: for any threads and any interleaving no task is left waiting with the loop parked and no signal coming; exactly because the eventfd is cleared first. |
| Wakeups.LostIffUnwatched | tasks/transport/event_watcher/event_watcher.cpp:216-226 | Tasks that wait with the loop parked and every submitter done are lost exactly after an `unwatchAll`. |
| Wakeups.ExecutedThenQueued | tasks/transport/event_watcher/event_watcher.cpp:292-304 | Executed tasks followed by queued ones are the accepted pushes, in order. |
| Wakeups.AcceptedArePushes | tasks/transport/event_watcher/event_watcher.cpp:292-304 | The accepted pushes are those that found room among 1024, no other refused and none made up. |
| Wakeups.LoopFinishesIff | tasks/transport/event_watcher/event_watcher.cpp:107-120 | Once every submitter has signalled, some continuation runs every accepted task exactly if there was no `unwatchAll`, or the loop is handling a wakeup, or nothing is left. |
| Wakeups.NothingRuns | tasks/transport/event_watcher/event_watcher.cpp:216-226 | With the eventfd unwatched and the loop parked no task runs again, whatever happens. |
| Wakeups.TaskAfterUnwatchAllIsLost | tasks/transport/event_watcher/event_watcher.cpp:216-226 | A task pushed and signalled after an `unwatchAll` never runs. |
| SocketRuns.InvTick | tasks/socket/socket.cpp:33-356 | Every tick keeps the number of calls due to each request, the read order, the pending writes and the phases in step. |
| SocketRuns.InvRun | tasks/socket/socket.cpp:33-356 | So after any run every request has had exactly the calls due to it. |
| SocketRuns.RecordsAccepted | tasks/socket/socket.cpp:117-136 | The reads recorded as taken in are those found with the socket open and room in the queue, in order. |
| SocketHistory.ShutIffCloses | tasks/socket/socket.cpp:176-221 | A close was carried out exactly when a live socket was asked to, or a queued read met the end of file of a connected one. |
| SocketHistory.ClosedIff | tasks/socket/socket.cpp:33-221 | The socket is closed exactly when a close was carried out or a bind or connect failed. |
| SocketHistory.DroppedIff | tasks/socket/socket.cpp:267-272 | A read was dropped exactly when it was the queued read that met the end of file, told from the tick and its results. |
| SocketHistory.AgainIff | tasks/socket/socket.cpp:297-356 | A write was answered a second time exactly by a stray reply for it. |
| SocketHistory.ReadAccounting | tasks/socket/socket.cpp:238-295 | Accepted reads leave in order; each that has left was answered once, unless it met the end of file of a connected socket, as one at most does; none is queued after a close. |
| SocketHistory.WritesAtMostOnceIff | tasks/socket/socket.cpp:297-356 | Every write is answered at most once exactly when no write-ready reply with an outcome meets a write left over by a close. |
| SocketHistory.ClosedAnswersAll | tasks/socket/socket.cpp:176-221 | After a close each request has one call; none if it met the end of file, two if a stray reply answered it again. |
| SocketHistory.ClosedAnswersAllIff | tasks/socket/socket.cpp:48-115 | A closed socket has answered every request exactly when no queued read met an end of file while connected, and it was closed by a close or its queues are empty. |
| SocketRuns.BindConnectOnce | tasks/socket/socket.cpp:33-115 | Bind and connect requests are answered once, as soon as the socket waits for neither, though a close leaves them queued. |
| SocketRuns.WaitingHasRequest | tasks/socket/socket.cpp:48-115 | The queue asserts never fail. |
| SocketRuns.PhaseRises | tasks/socket/socket.hpp:70-78 | Every change of state strictly raises a rank, and none leads from server to client or back. |
| SocketRuns.OneRole | tasks/socket/socket.cpp:33-115 | No run is ever a server and ever a client. |
| SocketAnswers.EveryRead | tasks/socket/socket.cpp:238-295 | What each queued read is told: its result, in order, up to the first that ends the round; at an end of file the read that meets it nothing, those behind it an error. |
| SocketAnswers.ReadStatusReported | tasks/socket/socket.cpp:245-250 | A read that takes a result is told the transport's status exactly when the count was zero or the status was ok. |
| SocketTells.WriteTold | tasks/socket/socket.cpp:138-174 | What a write is told at its own tick, after any run: refused as closed, without a peer when bound, empty or busy, else the transport's outcome, unless it would block or names a peer when connected. |
| SocketTells.ReadTold | tasks/socket/socket.cpp:117-136 | What a read is told at its own tick: refused as closed or for 1024 queued, else the result that falls to its place, or an error behind an end of file, or nothing yet. |
| SocketTells.SetupTold | tasks/socket/socket.cpp:33-88 | A bind or connect is refused unless the socket is new; then it waits. |
| SocketTells.BindReplyTold | tasks/socket/socket.cpp:48-72 | The reply tells the bind that waits, and no other request, its status and endpoint, and the socket is bound or closed accordingly; any other reply changes nothing. |
| SocketTells.ConnectReplyTold | tasks/socket/socket.cpp:90-115 | The same for a connect. |
| SocketTells.CloseTold | tasks/socket/socket.cpp:176-221 | A close is told "ok"; that of a live socket tells every request that waits, and no other, of an error. |
| SocketAnswers.FailureStrands | tasks/socket/socket.cpp:48-72 | After a failed bind or connect, over any later run with closes, the j-th queued read has no call exactly until the transport has brought more than j results, a write exactly until an outcome for its peer. |
| SocketAnswers.StuckWrite | tasks/socket/socket.cpp:297-305 | On a connected socket a write that names a peer has no call exactly as long as the socket is connected, over any run. |
| SocketAnswers.ReadyAnswersIff | tasks/socket/socket.cpp:297-356 | A ready reply answers the write it names exactly if it has an outcome and, on a connected socket, the write names no peer. |
| SocketAnswers.ReadyLeavesIff | tasks/socket/socket.cpp:297-356 | While connected it leaves a pending write exactly if that names a peer or the outcome is "would block". |
| SocketFailures.EofLosesRead | tasks/socket/socket.cpp:267-272 | Connected, then a read that meets the end of file: closed, and the read never told. |
| SocketFailures.FailedBindLosesRead | tasks/socket/socket.cpp:48-72 | A read queued before a bind that fails is not answered, by a close neither. |
| SocketFailures.NamedWriteIsStuck | tasks/socket/socket.cpp:297-305 | Connected, a write that names a peer and a ready reply for it: not answered. |
| SocketFailures.StrayReplyAnswersTwice | tasks/socket/socket.cpp:213-217 | Bound, a blocked write, a close and a ready reply: answered twice. |
| SocketFailures.FailedReadIsOk | tasks/socket/socket.cpp:245-250 | Bound, a read the transport fails with -1: told "ok". |
| SocketSetup.TickOk | tasks/socket/socket.cpp:48-115 | A tick tells a request "ok" exactly when it brings the socket up and the request was the one waiting. |
| SocketSetup.UpIffToldOk | tasks/socket/socket.cpp:33-115 | Over any run some bind request has been told "ok" exactly when the socket has been bound; likewise connect and connected. |
| Sockets.Socket.Tick | tasks/socket/socket.cpp:33-236 | The object follows the state machine, so every law of its runs holds of the object. |
| Sockets.Socket.TransportRead | tasks/socket/socket.cpp:238-295 | The loop over the read queue answers as the state machine says. |
| Sockets.Socket.TransportWrite | tasks/socket/socket.cpp:297-356 | The write under the looked-up key is answered with the transport's status, once it is not "would block". |
| Sockets.Socket.FailAll | tasks/socket/socket.cpp:188-217 | The loops of a close answer exactly the pending requests, each once. |
| FsTree.FreshIsNew | tasks/myfs/myfs_server.hpp:47-64 | The next inode number is free, so allocation never overwrites a live node. |
| FsTree.StepKeepsTreeIff | tasks/myfs/myfs_server.cpp:178-531 | A request keeps the tree (live entries, unique names, back pointers, odd and even numbers, older parents) exactly when it does not unlink a directory that has entries. |
| FsTree.RunIsTree | tasks/myfs/myfs_server.cpp:178-531 | So every such run ends in a tree, in which no lookup meets a dead inode. |
| FsFailures.UnlinkedDirectoryOrphans | tasks/myfs/myfs_server.cpp:238-258 | A directory with a file in it is unlinked: the file lives on, its parent gone, under no path. |
| FsPaths.OnePathEach | tasks/myfs/myfs_server.cpp:178-208 | Every node has exactly one path, and looking it up leads to the node. |
| FsPaths.MakeAddsOnePath | tasks/myfs/myfs_server.cpp:429-454 | Creating a file or directory adds exactly one path and changes where no other leads. |
| FsPaths.RemoveDropsOnePath | tasks/myfs/myfs_server.cpp:456-487 | Removing one drops exactly its path. |
| FsPaths.StepPaths | tasks/myfs/myfs_server.cpp:178-531 | Every request, as seen by every path. |
| FsContents.ReplayLength | tasks/myfs/myfs_server.cpp:328-352 | A file's length is what its history of writes and truncations determines. |
| FsContents.ReplayByte | tasks/myfs/myfs_server.cpp:328-352 | Its bytes are those of the latest write there not cut since, and 0 where there is none. |
| FsContents.ReadReturnsHistory | tasks/myfs/myfs_server.cpp:402-427 | After any run a read returns at each offset the byte the file's own history determines, clipped at its length. |
| FsReplies.LookupMeans | tasks/myfs/myfs_server.cpp:178-208 | A lookup answers with the node its path leads to, described as `getattr` would; it fails exactly if there is none or the parent is no directory. |
| FsReplies.AttrMeans | tasks/myfs/myfs_server.cpp:383-400 | Attributes are the node's: kind as its number says, one link for a file, two and one per name by which paths lead on for a directory. |
| FsReplies.SizeIsHistory | tasks/myfs/myfs_server.cpp:383-400 | The size a file is reported with is what its history of writes and truncations makes of it. |
| FsReplies.MakeMeans | tasks/myfs/myfs_server.cpp:210-236 | Creating answers with a node that was not there, as lookup and `getattr` then describe it; it fails, changing nothing, exactly if taken or the parent is no directory. |
| FsReplies.UnlinkMeans | tasks/myfs/myfs_server.cpp:238-258 | Unlinking succeeds exactly if the path leads somewhere, and then no longer does. |
| FsReplies.RmdirMeans | tasks/myfs/myfs_server.cpp:456-487 | Removing a directory succeeds exactly if the path leads to one and no further; each other case has its error and changes nothing. |
| FsReplies.NumbersInOrder | tasks/myfs/myfs_server.hpp:47-64 | Files are numbered 2, 4, 6, directories 3, 5, 7, none skipped or given out again. |
| FsReplies.FileErrors | tasks/myfs/myfs_server.cpp:260-275 | Opening, reading and writing fail exactly without a node or on a directory, and then change nothing. |
| FsReplies.WriteThenRead | tasks/myfs/myfs_server.cpp:328-352 | What was written is read back at its offset, all of the count replied. |
| FsReplies.SetAttrMeans | tasks/myfs/myfs_server.cpp:489-531 | Setting attributes answers as `getattr` then would, with the size set; it fails exactly without a node, on a directory, or below 0. |
| FsServer.Server.constructor | tasks/myfs/myfs_server.hpp:21-26 | A new server holds the root alone. |
| FsServer.Server.Serve | tasks/myfs/myfs_server.cpp:178-531 | The server on shared nodes answers and ends as the file system on values, so the laws of runs hold of it. |
| FsServer.Server.AllocateInode | tasks/myfs/myfs_server.hpp:47-64 | A new node under the next number of its kind, named in its parent. |
| FsServer.Server.EraseByValue | tasks/myfs/myfs_server.hpp:80-86 | The search by inode number erases the one name that leads to it. |
| FsServer.Server.ForgetInode | tasks/myfs/myfs_server.hpp:71-92 | Node and name go together. |
| FsServer.OnlyName | tasks/myfs/myfs_server.hpp:71-92 | In a tree a node is under one name of its parent only. |
| FsServer.Server.Lookup | tasks/myfs/myfs_server.cpp:178-208 | Replies with the named node, never with one that is not there. |
| FsServer.Server.Create | tasks/myfs/myfs_server.cpp:210-236 | Refuses what is no directory or is there already, else adds the node. |
| FsServer.Server.Unlink | tasks/myfs/myfs_server.cpp:238-258 | Takes out name and node, without looking whether it is a directory. |
| FsServer.Server.Rmdir | tasks/myfs/myfs_server.cpp:456-487 | Refuses a file or a directory with entries, else erases exactly the name that was looked up. |
| FsServer.Server.Read | tasks/myfs/myfs_server.cpp:402-427 | Replies with the bytes there, clipped at the length. |
| FsServer.Server.Write | tasks/myfs/myfs_server.cpp:328-352 | Puts the bytes at the offset, filling a gap with zeros. |
| FsServer.Server.SetAttr | tasks/myfs/myfs_server.cpp:489-531 | Cuts or zero-extends a file to the size set. |
| NetRuns.StepValid | tasks/socket/tcp_transport.cpp:51-545 | Whatever `accept4`, `recv` and `send` answer, every call, `close` included, keeps the indexes inverse, the armed flags equal to what is watched, hot peers live and every open fd accounted for, leaked ones apart. |
| NetRuns.RunValid | tasks/socket/tcp_transport.cpp:51-545 | So does every run, also beyond a close. |
| NetRuns.LifeLeavesNothing | tasks/socket/tcp_transport.cpp:142-164 | After any run from construction and a close nothing is watched, and no fd is open exactly if no close came while a connect was under way. |
| NetRuns.HotNeverStale | tasks/socket/tcp_transport.cpp:360-409 | A hot peer is in both indexes, so the fall-through for a stale one is never taken. |
| NetRuns.HotAfterRead | tasks/socket/tcp_transport.cpp:371-404 | A peer stays hot only through a read that brought its bytes and filled the buffer. |
| NetRuns.ReadyMakesHot | tasks/socket/tcp_transport.cpp:260-278 | A ready connection is the one the next read asks, and no other is touched. |
| NetRuns.ReadMeans | tasks/socket/tcp_transport.cpp:348-450 | Bytes come from the peer the answer names; end of file, with 0, and failure, with -1, lose the one connection that answered so, and nothing else is lost. |
| NetRuns.ScanBlocked | tasks/socket/tcp_transport.cpp:414-449 | A scan that finds nothing has asked every connection and armed it. |
| NetRuns.ScanInOrder | tasks/socket/tcp_transport.cpp:414-446 | A scan asks in order up to the first connection that does not say "try again", arms exactly those it asks, and answers as that one did. |
| NetRuns.BlockedReadArmsAllIff | tasks/socket/tcp_transport.cpp:391-397 | A read that would block leaves all connections armed exactly when no peer was hot or all others were armed. |
| NetRuns.TargetMeans | tasks/socket/tcp_transport.cpp:452-485 | A write goes to the connection of its peer; without a peer to the client's connection if there is one, else to the only one; it is refused exactly when there is none. |
| NetRuns.WriteRefusedIff | tasks/socket/tcp_transport.cpp:452-485 | A write with no connection to go to is refused with -1, Fatal if it names a peer, else Error, and changes nothing; it is told "ok" exactly if there is one and it took bytes. |
| NetRuns.WriteMeans | tasks/socket/tcp_transport.cpp:487-521 | A blocked write leaves its connection watched for writing; only an end or a failure loses it. |
| NetRuns.ReleaseRemovesOne | tasks/socket/tcp_transport.cpp:322-346 | Releasing takes out one connection from both indexes, leaves every other and its hot peers, and leaves its fd closed and unwatched. |
| NetRuns.AcceptTakesBatch | tasks/socket/tcp_transport.cpp:166-212 | A batch adds the first ten connections that are ready, armed for reading, and changes no other. |
| NetRuns.SuspendReadMeans | tasks/socket/tcp_transport.cpp:523-529 | Suspending stops exactly the watching of connections for reading. |
| NetRuns.SuspendWriteMeans | tasks/socket/tcp_transport.cpp:531-545 | Suspending writes stops exactly the watching of the peer's connection for writing. |
| NetRuns.SetupMeans | tasks/socket/tcp_transport.cpp:51-140 | A bind that worked listens, a connect that started waits to be writable; a failed one leaves neither open nor watched. |
| NetRuns.ConnectReadyMeans | tasks/socket/tcp_transport.cpp:214-258 | A connect that succeeded adds the client's connection, which its peer and an unnamed write then reach; one that failed closes and forgets its fd. |
| NetRuns.CloseReleasesAllIff | tasks/socket/tcp_transport.cpp:142-164 | Closing leaves nothing watched, indexed or hot; what stays open are leaked fds and that of a connect under way, so nothing exactly without either. |
| NetRuns.LeakedIff | tasks/socket/tcp_transport.cpp:142-164 | Over any run fds are leaked exactly by closing while a connect is under way. |
| NetFailures.PendingConnectLeaks | tasks/socket/tcp_transport.cpp:149-152 | A connect that is closed before its outcome leaves its fd open and forgotten. |
| NetFailures.AcceptValidIff | tasks/socket/tcp_transport.cpp:193-210 | Accepting a peer keeps the invariant exactly when the peer has no connection yet. |
| NetFailures.ReconnectedPeerIsLost | tasks/socket/tcp_transport.cpp:322-346 | When a peer came back while indexed, releasing its earlier connection hides the new one from writes. |
| NetFailures.BlockedReadLeavesOneUnarmed | tasks/socket/tcp_transport.cpp:391-397 | Two connections, one hot, all suspended: a blocked read arms the hot one alone. |
| NetTransport.TcpTransport.Perform | tasks/socket/tcp_transport.cpp:51-545 | The object is where its calls lead from a new transport, so every law of runs holds of it. |
| NetTransport.TcpTransport.OnAcceptReady | tasks/socket/tcp_transport.cpp:166-212 | The accept loop takes at most ten connections, in order, and arms each. |
| NetTransport.TcpTransport.OnConnectReady | tasks/socket/tcp_transport.cpp:214-258 | The connect's outcome adds the connection or closes the fd. |
| NetTransport.TcpTransport.ReleaseConnection | tasks/socket/tcp_transport.cpp:322-346 | On the object: both flags unwatched, the fd closed, both indexes and the hot peers cleared of it, as the release on values. |
| NetTransport.TcpTransport.OnReadReady | tasks/socket/tcp_transport.cpp:260-268 | A ready connection's peer becomes hot and the socket is told it can read; an fd that is no connection changes nothing and tells nothing. |
| NetTransport.TcpTransport.OnWriteReady | tasks/socket/tcp_transport.cpp:270-278 | The same for writing; the socket is told which peer. |
| NetTransport.TcpTransport.ResumeRead | tasks/socket/tcp_transport.cpp:348-450 | On the object: fast path for the hot peer, else the scan, with state and answer as on values. |
| NetTransport.TcpTransport.ResumeWrite | tasks/socket/tcp_transport.cpp:452-521 | On the object: the connection looked up and written to, with state and answer as on values. |
| NetTransport.TcpTransport.SuspendRead | tasks/socket/tcp_transport.cpp:523-529 | The loop over all connections, in any order, disarms each for reading. |
| NetTransport.TcpTransport.SuspendWrite | tasks/socket/tcp_transport.cpp:531-545 | Disarms the peer's connection, if there is one. |
| NetTransport.TcpTransport.Close | tasks/socket/tcp_transport.cpp:142-164 | The loop over all connections, in any order, and the rest of the close, as on values. |

## Left out

- Delivery.EndToEnd: claims nothing for bytes a third party injects; the network is a FIFO byte channel, and after an
  oversized header only the frames before it are claimed, since the Chunker resynchronises on the next fragment.
- SocketHistory.WritesAtMostOnceIff: write payloads and short writes are not followed; only status and callbacks are.
- Wakeups.NoLostWakeup: `unwatchAll` is a step that may come at any time. The ring between threads is an atomic FIFO of
  1024 whose push may be refused; a refused push is lost, as in the source. The steps are a transition system; the loop in
  the drain callback is its `Pop` steps.
- Transports.Transport.OnReadable: how the last read ended (closed, error, again) is not classified, nor is the event fired for it.
- FsTree.StepKeepsTreeIff: that the kernel refuses to unlink a directory is not part of the code, hence the condition.
- FsContents.ReadReturnsHistory: offsets are not negative, which the kernel ensures.
- NetRuns.RunValid: relies on the kernel for fresh fds and peers without a connection (`NetFailures.AcceptValidIff` says
  what happens otherwise), and on the socket for one bind and one connect at a time; the order in which a table is walked
  is a parameter.
- Transports.Conveyor.AddLast: `onAdded` does nothing in the stages modelled, and the adapter's choice of handler is the
  kind of the stage.
- FsServer.Server.Serve: `readdir` and `statfs` are not among the requests.
- NetTransport.TcpTransport.ResumeRead: the bytes received and the size of the buffer they are put in are not followed.
- NetTransport.TcpTransport.ResumeWrite: the bytes sent are not followed, only how many the kernel says it took.
- Links.Link.Send: closing a transport on `shutdown` is not modelled; calls of it are counted.
- Conveyor events other than bytes, `onAdded`, `onRemoved`, and stages that are destroyed while in use.
- The write to a flushed transport inside the flush callback, and other re-entrant calls; socket ticks are atomic.
- The duplicate write of `tasks/socket/socket.cpp:165-170` is modelled with the answer it intends.
- Failing allocation, moved-from objects, lifetime of closures, memory ordering, nested `loop` calls on one watcher.
- `epoll_wait` retries, timeouts and the limit on events per call; a batch of events is a parameter.
- The pipe of the flat watcher is one wakeup fd; its thread, `waitLoop`, `invokeCallback` and `unwatchAll` are not modelled.
- Negative fds reach the kernel in the flat watcher only, so the refinement is about user fds from 0.
- 64-bit wrap-around of inode numbers, sizes and counts; inode counters are per server here and per process in the source.
- `readdir`, `statfs`, `getxattr`, permissions, timestamps and the FUSE session.
- Parsing and formatting of addresses, socket options, `TcpDialer`, `TcpListener`, the other tasks, scripts and benchmarks.
- RingBuffer and MPSCRing are not part of this model; queues with their bounds stand for them.
