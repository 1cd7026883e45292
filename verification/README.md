# Verification of the OpenSky daemon

A Dafny model of the parts of OpenSkyD that are hard to get right by reading,
with proofs. `dafny verify dfyconfig.toml` checks all of it.

- **Reconnection protocol** (`Network.dfy`, `NetworkRuns.dfy`, `NetworkProgress.dfy`,
  `NetworkEndpoints.dfy`, `NetworkLogin.dfy`, `Messages.dfy`). Connector, sender
  and receiver share two state variables and two socket variables. `Emitted` and
  `Established` are the two mutex sections on these variables; `PhaseOf` is what
  the variables mean, and on every meaningful state the sections are steps of a
  four-line protocol on phases. `NetworkRuns` interleaves the threads at every
  mutex section, unlocked read and system call; `NetworkProgress` shows how the
  endpoints come together again, `NetworkEndpoints` what they do with failures and
  answers, and `NetworkLogin` that a login can be completed.
- **Frame buffer** (`BufferState.dfy`, `BufferSteps.dfy`, `BufferRuns.dfy`,
  `FrameBuffer.dfy`). The state and its operations as functions, the invariant
  that every live frame is in exactly one place, runs with a history of what
  became of each commit, and the class that carries the operations out in place.
- **Beast format** (`Beast.dfy`, `Reader.dfy`, `RcFormat.dfy`, `RcResync.dfy`,
  `RcDamage.dfy`, `RcParser.dfy`, `SubmitFrame.dfy`). `RcFormat` is the parser on whole streams,
  without buffers, reads and jumps; the methods in `RcParser` and `Beast` work in
  place and are proved equal to it.
- **Producer and consumer** (`Filter.dfy`, `Recv.dfy`, `Relay.dfy`): from the
  device's octets to the server's, with the other threads acting in between.
- **Lists** (`LinkedList.dfy`): the doubly linked lists on the heap.
- **Components** (`ComponentOrder.dfy`, `ComponentLife.dfy`): dependency closure
  and order; construction, start, stop and destruction with arbitrary answers.
- **Trimble format** (`TrimbleFormat.dfy`, `TrimbleStreams.dfy`, `TrimbleParser.dfy`)
  and **talkback packets** (`TalkBack.dfy`): two more stream formats, each with a
  pure parser and the code that refines it under any splitting into reads.

What is outside becomes a parameter or an arbitrary choice: the allocator, the
outcome of every system call, how much a read returns, what callbacks answer,
when the filter is reconfigured, and how threads interleave. A timeout is a
choice between its two outcomes. An `assert` of the program is a precondition or
is proved; an exit of the program by an emergency log entry is a result.

Where code and documentation disagree, the model follows the code:

- `src/util/list.h:71-78` and `src/util/list.h:383-388` say that unlinking the
  anchor has no effect. That is so for the empty list only, and the counter may
  still change (`LinkedList.ListD.UnlinkAnchor`, `LinkedList.ListDC.UnlinkAnchor`).
- `src/util/list.h:480-501` and `src/util/list.h:524-546` restore a counter that
  they take at face value (`LinkedList.ListDC.SeparateFromFix`,
  `LinkedList.ListDC.SeparateThenFix`).
- `src/core/buffer.c:297` says that a new frame can always be had. With the history
  on and a dynamic backlog of 0 it cannot (`BufferRuns.NewFrameAlwaysSucceedsIff`).
- The timestamp of `src/gplib/opensky.cc:146-148` survives on little-endian
  machines only (`SubmitFrame.TimestampSurvivesIff`).
- A frame cut off so that an odd number of SYNCs arrived last costs the Radarcape
  parser the next frame, and it may return one that was never sent
  (`RcResync.NextFrameSurvivesIff`, `RcResync.WrongLength`); likewise the Trimble
  parser with BOMs (`TrimbleStreams.NextMessageSurvivesIff`). Whatever the damage,
  it costs one good frame at most (`RcDamage.AnyDamageCostsOneFrame`,
  `TrimbleStreams.AnyDamageCostsOneMessage`).
- A Trimble message that fills the buffer exactly is dropped
  (`TrimbleFormat.ParseUndoesWire`).

## Model

| member | source | states |
|---|---|---|
| `NetworkState.ReportRefinesProtocol` | src/core/network.c:254-323 | on every state whose variables mean something, a failure report is a step of the four-line protocol on phases (offline, online, split between leader and follower), accounts for every socket again, and answers retry exactly when the reporter now shares the leader's connection |
| `NetworkState.ConnectRefinesProtocol` | src/core/network.c:188-230 | the connector's switch is a step of that protocol with a socket never used before, and changes no variable that names a socket |
| `NetworkState.AssertionFailsOnlyOffline` | src/core/network.c:310-318 | `assert(transState != TRANSIT_NONE)` fails in exactly one phase, in which nobody has a socket to report |
| `NetworkState.ReportTouchesOwnSocketOnly` | src/core/network.c:254-323 | a report shuts its own, unclosed socket down exactly if it takes the connection down, then closes it exactly if it is closed afterwards, and calls nothing else; once closed no variable names it; the other side's variable stays |
| `NetworkState.VariableNamesHeldSocket` | src/core/network.c:254-323 | a side's variable is exactly the socket its phase gives it, and that one is not closed |
| `NetworkState.UnclosedSocketsAreHeld` | src/core/network.c:188-323 | every unclosed socket is named by an endpoint's variable, so at most two are open at once |
| `NetworkObject.Network.constructor` | src/core/network.c:188-193 | the variables start in the offline phase |
| `NetworkObject.Network.EmitDisconnect` | src/core/network.c:254-323 | the section in place: new state, system calls in order and answer are those of the protocol, and the assertion inside it holds |
| `NetworkObject.Network.Establish` | src/core/network.c:208-223 | a successful connect in place, on a fresh socket |
| `NetworkRuns.VariableIsStable` | src/core/network.c:365-423 | in every interleaving an endpoint's variable does not change between its unlocked read and its own report |
| `NetworkRuns.DisciplineKept` | src/core/network.c:188-423 | every step of every thread keeps: the variables mean a phase, and an endpoint works on the socket its variable names; what each endpoint does next is said by `NetworkEndpoints.AnswerIsObeyed` and `NetworkEndpoints.GivingUpIsLocal` |
| `NetworkRuns.WireKept` | src/core/relay.c:75-112 | every step keeps: what was sent on each socket is part of a login, or a whole login and data |
| `NetworkRuns.Reachable` | src/core/network.c:188-423 | both hold in every state of every interleaving of connector, sender and receiver |
| `NetworkRuns.EveryStateIsSafe` | src/core/network.c:188-323 | over every run: one of the phases, every socket open, shut or closed as that phase says, the assertion holds whenever a report is due, nobody works on a closed socket |
| `NetworkRuns.CallsAreLegal` | src/core/network.c:254-423 | no step issues a system call on a closed descriptor, and a closed one stays closed |
| `NetworkRuns.ClosedStaysClosed` | src/core/network.c:254-323 | a socket that is closed in some state of a run is closed in all later ones |
| `NetworkRuns.CloseIsFinal` | src/core/network.c:254-323 | over every run a socket is closed at most once, by the last endpoint that refers to it, and never used afterwards |
| `NetworkRuns.StaleReportIsHarmless` | src/core/network.c:254-323 | whatever happened since the socket was read, a report changes only that socket; an open connection goes down only if it is the one that failed |
| `NetworkRuns.CheckIsExact` | src/core/network.c:346-358 | `NET_checkConnected` answers no exactly if the sender's socket has been shut down by the other side, yes exactly if it is open |
| `NetworkRuns.EveryConnectionIsASession` | src/core/login.c:46-54 | on every socket ever used the server sees login messages in order, then frames and keep-alives only |
| `NetworkRuns.NoDataBeforeLogin` | src/core/relay.c:75-112 | no frame or keep-alive is sent on a socket before the whole login succeeded on that same socket, in any interleaving |
| `NetworkProgress.FollowerSeesShut` | src/core/network.c:254-323 | in every reachable split the follower works on the stale socket or on none, that socket is shut, and the leader's is another one and open |
| `NetworkProgress.SplitEndsOnlyByFollower` | src/core/network.c:254-323 | over every run the follower's own report ends a split, on the leader's connection if there is one, and no other step of any thread does |
| `NetworkProgress.Converges` | src/core/network.c:188-423 | from every reachable state at most nine steps lead to both endpoints at work on the same open socket with no failure to report, with operations failing only on sockets that were shut down and nobody forcing a disconnect |
| `NetworkEndpoints.AnswerIsObeyed` | src/core/network.c:409-423 | over every run the receiver goes on receiving in the same call exactly if there is a connection after its report, which is then the open one of the sender, and waits exactly if there is none; the sender always gives up and waits |
| `NetworkEndpoints.GivingUpIsLocal` | src/core/network.c:337-383 | over every run an endpoint has a failure to report exactly after a failed operation, a negative check or a forced disconnect; that changes nothing else, and the report is about the very socket its variable names |
| `NetworkEndpoints.AnythingMayFail` | src/core/network.c:365-423 | every send and receive under way may fail in the next step, a sender waiting for its serial number may give up, and the report can follow at once |
| `NetworkEndpoints.FailedUntilReported` | src/core/network.c:337-423 | over every run an endpoint that failed does nothing until its own report, and then still has the same unclosed socket to report |
| `NetworkEndpoints.EndpointsAreSeparate` | src/core/network.c:188-423 | no step of another thread changes what an endpoint is doing; the connector acts only without a connection and leaves one |
| `NetworkEndpoints.WireIsRecord` | src/core/network.c:365-402 | over every run what was sent on each socket is exactly the messages taken up whose send succeeded on it, in order, told from the steps alone |
| `NetworkEndpoints.SerialIsKept` | src/dump1090/req-serial.c:149-156 | there is a serial number exactly if there was one before or it arrived since |
| `NetworkEndpoints.NoSerialBeforeItIsKnown` | src/dump1090/req-serial.c:74-118 | over every run the serial number is sent, and the login goes on behind it, only when it was configured or has arrived |
| `NetworkLogin.LoginCompletes` | src/core/login.c:46-54 | once both endpoints are at work on one connection at most thirteen steps lead into the relay loop with a complete login; a login from its start sends exactly device, serial request if there is no number yet, serial, and position and user name if known |
| `NetworkLogin.LoginIsAlwaysPossible` | src/core/relay.c:75-90 | from every reachable state at most twenty-two healthy steps lead to both endpoints at work on one open socket with a complete login on it |
| `BufferState.InOnePlace` | src/core/buffer.c:300-619 | a frame that is queued or in a hand is live and in no other place |
| `BufferState.FullCollection` | src/core/buffer.c:593-619 | pigeonhole: a pool's collect list is complete exactly when none of its frames is anywhere else |
| `BufferSteps.ConstructedIsSound` | src/core/buffer.c:199-219 | after construction each static frame is in the overall pool once and nothing else is anywhere |
| `BufferSteps.UncollectKeeps` | src/core/buffer.c:575-590 | taking a collection back keeps the partition and makes the pool non-empty |
| `BufferSteps.CreateKeeps` | src/core/buffer.c:520-541 | a new dynamic pool adds exactly its frames to the partition |
| `BufferSteps.SacrificeOnlyWhenExhausted` | src/core/buffer.c:300-340 | a queued frame is sacrificed if and only if every live frame is queued or held, and the pool limit is reached or memory is out |
| `BufferSteps.SacrificeCount` | src/core/buffer.c:300-340 | then the frames queued or held are `statBacklog + pools * dynBacklog`, with memory `statBacklog + dynMaxPools * dynBacklog`, so there is one to sacrifice |
| `BufferSteps.RenewKeeps` | src/core/buffer.c:300-358 | `BUF_newFrame` keeps the partition and always yields a frame that is neither queued nor the consumer's; which one is said by `BufferSteps.PoolOnlyWhenExhausted` and `BufferSteps.ServedFrom` |
| `BufferSteps.PoolOnlyWhenExhausted` | src/core/buffer.c:300-325 | a dynamic pool is allocated if and only if every live frame is queued or held, the history is on, there are fewer than `dynIncrement` pools and there is memory; its first frame is handed out and its others are free |
| `BufferSteps.ServedFrom` | src/core/buffer.c:300-340 | otherwise the head of the overall pool is handed out; only if that is empty the first non-empty collection is taken back; only if there is none, and no new pool, the head of the queue; nothing else moves |
| `BufferSteps.GivenBackComesFirst` | src/core/buffer.c:349-485 | a frame aborted or released is the next one handed out, and a frame put back the next one got, with everything else as it was |
| `BufferSteps.CollectSorts` | src/core/buffer.c:546-569 | the first phase of the collector as one formula: static frames stay in order, each collection gains its own frames in reverse |
| `BufferSteps.SweepIsExact` | src/core/buffer.c:268-276 | a collection keeps the partition, the queue, the hands and the contents, leaves only static frames in the pool, and frees a dynamic pool exactly when none of its frames is queued or held |
| `BufferSteps.FreedOneByOne` | src/core/buffer.c:593-619 | each pool is freed on its own, exactly if its collection is complete; the others keep their order and are not touched |
| `BufferRuns.HistKept` | src/core/buffer.c:279-485 | every operation keeps: released, held and queued commits in commit order, every commit with exactly one fate, frames carrying what was committed |
| `BufferRuns.PlacesKept` | src/core/buffer.c:279-619 | every operation keeps the partition of the frames |
| `BufferRuns.Reachable` | src/core/buffer.c:279-619 | both hold in every state of every run of any operations |
| `BufferRuns.EveryFrameHasOnePlace` | src/core/buffer.c:300-619 | over every run each frame of each live pool is in exactly one place, only dynamic frames are collected, and only in their own pool, and the pool limit is respected |
| `BufferRuns.ReleasedInOrder` | src/core/buffer.c:363-485 | over every run frames are released in strictly increasing commit order with the committed contents, and commits = released + held + queued + sacrificed + flushed |
| `BufferRuns.NothingLost` | src/core/buffer.c:289-293 | with the history on, no flush and nothing sacrificed, what was delivered followed by what waits is the log, each once and in order |
| `BufferRuns.FlushIsExact` | src/core/buffer.c:279-293 | a flush moves the queue behind the overall pool, exactly its commits count as flushed, and nothing else changes; the conditional one is that with the history off and nothing with it on |
| `BufferRuns.SinceKept` | src/core/buffer.c:300-485 | no operation brings back an older commit than those held and queued |
| `BufferRuns.NothingStaleIsReleased` | src/core/buffer.c:289-293 | over every run with the history off, nothing committed before a flush is released after it |
| `BufferRuns.NewFrameAlwaysSucceedsIff` | src/core/buffer.c:300-340 | `assert(ret)` holds in every run if and only if dynamic pools, when there may be any, are configured with at least one frame; otherwise the failing run is given |
| `FrameBuffer.Buffer.Construct` | src/core/buffer.c:199-219 | in place, for every configuration the assertion admits; fails only if the static pool cannot be allocated, and otherwise leaves a sound state |
| `FrameBuffer.Buffer.DeployPool` | src/core/buffer.c:492-515 | appends exactly the frames of the new pool, or nothing |
| `FrameBuffer.Buffer.CreateDynPool` | src/core/buffer.c:520-541 | both allocations or no effect |
| `FrameBuffer.Buffer.UncollectPools` | src/core/buffer.c:575-590 | the first non-empty collection goes back to the overall pool |
| `FrameBuffer.Buffer.GetFrameFromPool` | src/core/buffer.c:300-340 | the branches of the allocator in place, with the result that `BufferSteps.ServedFrom` and `BufferSteps.PoolOnlyWhenExhausted` describe |
| `FrameBuffer.Buffer.NewFrame` | src/core/buffer.c:349-358 | the run step `New`; the frame differs from the consumer's, is the head of the pool if there is one, and a pool is allocated only if every live frame is in use |
| `FrameBuffer.Buffer.CommitFrame` | src/core/buffer.c:363-377 | the run step `Commit`: the content gets the next place in the log |
| `FrameBuffer.Buffer.AbortFrame` | src/core/buffer.c:382-392 | the run step `Abort` |
| `FrameBuffer.Buffer.GetFrameTimeout` | src/core/buffer.c:416-450 | the run step `Get`: the head of the queue, or nothing exactly if the queue is empty |
| `FrameBuffer.Buffer.ReleaseFrame` | src/core/buffer.c:458-467 | the run step `Release` |
| `FrameBuffer.Buffer.PutFrame` | src/core/buffer.c:476-485 | the run step `Put`: back to the head of the queue |
| `FrameBuffer.Buffer.FlushQueue` | src/core/buffer.c:279-285 | the run step `Flush`: the queue is empty and its frames are behind the others in the pool |
| `FrameBuffer.Buffer.FlushUnlessHistoryEnabled` | src/core/buffer.c:289-293 | with the history off the queue is emptied into the pool, with the history on nothing happens |
| `FrameBuffer.Buffer.CollectPools` | src/core/buffer.c:546-569 | the unlinking loop computes the first phase |
| `FrameBuffer.Buffer.DestroyUnusedPools` | src/core/buffer.c:593-619 | the freeing loop leaves exactly the incomplete pools |
| `FrameBuffer.Buffer.RunCollector` | src/core/buffer.c:254-276 | the run step `RunGC` |
| `Beast.EscapeConcat` | src/core/beast.c:23-68 | the encoding distributes over concatenation |
| `Beast.EscapeLength` | src/core/beast.c:23-68 | its length is the input's plus the number of SYNCs |
| `Beast.EscapeOctets` | src/core/beast.c:23-68 | in octets: 0x1a is doubled, every other octet stays |
| `Beast.Encode` | src/core/beast.c:23-68 | the memchr/memcpy loop writes exactly the octet-wise doubling of SYNC and nothing else |
| `RcFormat.UnescapeUndoesEscape` | src/radarcape/rc-parser.c:310-369 | decoding undoes the encoder, whatever follows |
| `RcFormat.EscapeUndoesUnescape` | src/radarcape/rc-parser.c:310-369 | what decoding consumes is the encoding of what it returns |
| `RcFormat.EscapeInjective` | src/core/beast.c:23-68 | different data have different encodings |
| `RcFormat.ParseUndoesWire` | src/radarcape/rc-parser.c:226-302 | a well-formed frame at the head of the stream is returned intact, consuming exactly its octets; `RcFormat.FramesInOctets` says which those are |
| `RcFormat.FramesInOctets` | src/radarcape/rc-parser.c:251-263 | in octets: 0x1a, type 0x31, 0x32, 0x33 or 0x34, seven octets of header and 2, 7, 14 or 14 octets of payload are returned as they are, whatever follows |
| `RcFormat.OnlyFourTypes` | src/radarcape/rc-parser.c:251-263 | no other frame is ever returned, on any stream |
| `RcResync.LosesOnlyTheBadPart` | src/radarcape/rc-parser.c:226-302 | after SYNC-free garbage and any number of frames of unknown type or cut between escaped octets, the same call returns the next well-formed frame intact |
| `RcResync.NextFrameSurvivesIff` | src/radarcape/rc-parser.c:226-302 | for a frame cut off after any number of octets: the next frame survives if and only if what arrived of the first one ends with an even number of SYNCs |
| `RcResync.OddCutLoses` | src/radarcape/rc-parser.c:310-369 | behind half an escaped SYNC the next frame passes for data of the one cut off, whatever type that has; exactly what the parser then decodes |
| `RcResync.WrongLength` | src/radarcape/rc-parser.c:279-300 | data of another length than the type has: too much yields a frame that was never sent, and in no case is exactly the data consumed |
| `RcDamage.AnyDamageCostsOneFrame` | src/radarcape/rc-parser.c:226-436 | whatever octets come first, of two well-formed frames behind them the second one is returned intact and calls go on exactly behind it |
| `RcResync.LoneSyncSkips` | src/radarcape/rc-parser.c:408-436 | behind a lone SYNC the parser skips the whole next frame |
| `Reader.Reader.DiscardAndFill` | src/radarcape/rc-parser.c:374-384 | the buffer is refilled with any non-empty part of the stream, or the connection has failed |
| `Reader.Reader.Next` | src/radarcape/rc-parser.c:390-399 | the next octet of buffer and stream, however reads are split |
| `RcParser.Decode` | src/radarcape/rc-parser.c:310-369 | equals unescaping of the whole remaining stream; the raw frame grows by the escaped form of what was decoded |
| `RcParser.SynchronizeBuffer` | src/radarcape/rc-parser.c:408-436 | equals synchronizing on the whole remaining stream |
| `RcParser.ShiftedTimestamp` | src/radarcape/rc-parser.c:281-290 | reading eight octets big-endian and shifting by 16 leaves the value of the first six |
| `RcParser.BigEndianOfSix` | src/radarcape/rc-parser.c:281-290 | the value of six octets as a sum of powers of 256 |
| `RcParser.GetFrame` | src/radarcape/rc-parser.c:226-302 | for every stream and every splitting into reads: returns the frame of the pure parser, consumes the same octets, fills both frames, raw length at most 44 in an array of 46; the jumps terminate |
| `SubmitFrame.TimestampFits` | src/gplib/opensky.cc:146-148 | the packed timestamp has 47 bits, second of day above and nanoseconds in the low 30 |
| `SubmitFrame.TimestampSurvivesIff` | src/gplib/opensky.cc:148-156 | the six octets sent carry the timestamp if and only if the machine is little-endian or the timestamp is zero |
| `SubmitFrame.SubmittedIsParsed` | src/gplib/opensky.cc:122-163 | parsing a submitted frame recovers type, level, payload and, on a little-endian machine, the second of the day and the nanoseconds for every time |
| `SubmitFrame.TakenIff` | src/gplib/opensky.cc:122-144 | a frame is taken if and only if the library runs, it has 7 or 14 octets, UTC timing and passes the filter; the types are 0x32 and 0x33 |
| `SubmitFrame.Pack` | src/gplib/opensky.cc:151-160 | the encoder calls build the frame's wire form in the 46-octet array, at most 44 long |
| `SubmitFrame.Submit` | src/gplib/opensky.cc:122-163 | exactly the frames of 7 or 14 octets with UTC timing that the filter lets pass in its present state are committed, in wire form |
| `Filter.FilterState.Test` | src/core/filter.c:149-179 | a frame passes if and only if the receiver is synchronized or need not be, its type is 0x32 or 0x33 and, with the squitter filter on, its first octet is 0x88 to 0x97 |
| `Filter.FilterState.Reset` | src/core/filter.c:111-114 | the receiver counts as not synchronized |
| `Filter.FilterState.SetSynchronized` | src/core/filter.c:139-142 | stores the state |
| `Filter.NothingBeforeSynchronization` | src/core/filter.c:149-160 | with the synchronization filter on, nothing is buffered before a status frame with a timestamp |
| `Filter.AcceptedExactly` | src/core/filter.c:149-179 | of every stream exactly those frames are buffered, in order, that are of type 0x32 or 0x33, come in time behind a status frame with a timestamp and no reset since, and have the right first octet, as far as the settings ask for that |
| `Filter.PassesInOctets` | src/core/filter.c:149-179 | the filter's decision in octets, both ways |
| `Filter.StatusWithTimeSynchronizes` | src/core/recv.c:58-64 | a frame synchronizes exactly if it is of type 0x34 and one of its six octets of timestamp is not zero |
| `Recv.HandleFrame` | src/core/recv.c:58-71 | one received frame: filter state, commit and a new frame, or reuse of the held one |
| `Recv.Receive` | src/core/recv.c:41-81 | one device connection, with consumer, collector, allocator and filter changes interleaved: exactly the frames of the stream that pass the filter are committed, in order (`Filter.AcceptedExactly` says which), and no frame is left in the producer's hand |
| `Recv.OthersMayIff` | src/core/recv.c:41-81 | between two steps of the producer consumer, flushes and collector may do whatever is enabled |
| `Relay.SendOne` | src/core/relay.c:92-107 | one round: a frame counts as delivered exactly if sending it succeeded, otherwise it is at the head of the queue again; a keep-alive is sent only if nothing was queued |
| `Relay.Session` | src/core/relay.c:75-112 | one connection, with producer and collector interleaved: the frames among the messages sent are those delivered, in order; nothing happens without a login; with the history on nothing is flushed, with the history off nothing sent was committed before the flush, and all that was is delivered earlier, sacrificed or flushed |
| `Relay.OthersMayIff` | src/core/relay.c:75-112 | between two steps of the consumer producer and collector may do whatever is enabled |
| `Relay.FramesSurvive` | src/core/relay.c:58-61 | the concatenation of delivered frames is parsed back into exactly these frames |
| `Relay.DeliveredIsPrefix` | src/core/relay.c:75-112 | as long as nothing was sacrificed or flushed, delivered followed by waiting is all that was committed |
| `Relay.ServerFindsAcceptedFrames` | src/core/relay.c:75-112 | end to end: parsing what was delivered as one stream yields the frames the filter accepted from the device's stream, up to those still waiting |
| `LinkedList.ListD.Init` | src/util/list.h:55-59 | an empty ring |
| `LinkedList.ListD.Empty` | src/util/list.h:65-69 | true exactly for the empty list |
| `LinkedList.ListD.Unlink` | src/util/list.h:79-86 | the ring of the links without this one, which keeps its own pointers |
| `LinkedList.ListD.UnlinkAnchor` | src/util/list.h:71-86 | unlinking the anchor leaves a list exactly if the list was empty; its note promises that for all |
| `LinkedList.ListD.Shift` | src/util/list.h:94-98 | first link, or the anchor of an empty list |
| `LinkedList.ListD.Pop` | src/util/list.h:106-110 | last link, or the anchor of an empty list |
| `LinkedList.ListD.Insert` | src/util/list.h:120-129 | one more link behind the given one |
| `LinkedList.ListD.Push` | src/util/list.h:135-140 | append |
| `LinkedList.ListD.Unshift` | src/util/list.h:147-152 | prepend |
| `LinkedList.ListD.SeparateFrom` | src/util/list.h:167-189 | two rings: the links in front of the pivot and those from it on |
| `LinkedList.ListD.SeparateUntil` | src/util/list.h:205-227 | two rings, the front part in the new list |
| `LinkedList.ListD.ConcatenatePush` | src/util/list.h:236-249 | one ring with the source behind, the source empty |
| `LinkedList.ListD.ConcatenateUnshift` | src/util/list.h:258-271 | one ring with the source in front, the source empty |
| `LinkedList.ListD.FromVector` | src/util/list.h:280-300 | the ring of the vector's elements |
| `LinkedList.ListD.At` | src/util/list.h:334-339 | the n-th link, or the anchor behind the last |
| `LinkedList.ListDC.Length` | src/util/list.h:369-381 | the true length, tainted or not, and counted afterwards |
| `LinkedList.ListDC.Unlink` | src/util/list.h:389-397 | as on the plain list, counter right unless tainted |
| `LinkedList.ListDC.UnlinkAnchor` | src/util/list.h:383-397 | unlinking the anchor leaves a list exactly if the list was empty, and decrements the counter unless that says so; its note promises that nothing happens |
| `LinkedList.ListDC.Shift` | src/util/list.h:405-409 | as on the plain list |
| `LinkedList.ListDC.Pop` | src/util/list.h:417-421 | as on the plain list |
| `LinkedList.ListDC.Insert` | src/util/list.h:428-433 | as on the plain list, counter right unless tainted |
| `LinkedList.ListDC.Push` | src/util/list.h:439-443 | as on the plain list |
| `LinkedList.ListDC.Unshift` | src/util/list.h:450-454 | as on the plain list |
| `LinkedList.ListDC.SeparateFrom` | src/util/list.h:469-478 | both lists tainted unless nothing was separated |
| `LinkedList.ListDC.SeparateUntil` | src/util/list.h:517-522 | both lists tainted |
| `LinkedList.ListDC.SeparateFromFix` | src/util/list.h:494-501 | both lists claim to be counted, and rightly so if and only if the counter was right before |
| `LinkedList.ListDC.SeparateUntilFix` | src/util/list.h:539-546 | the same for the front part |
| `LinkedList.ListDC.SeparateThenFix` | src/util/list.h:469-501 | every counted list whose tail is separated first without and then with fixing claims to be counted and is not |
| `LinkedList.ListDC.ConcatenatePush` | src/util/list.h:555-565 | counter right unless one of the lists was tainted |
| `LinkedList.ListDC.ConcatenateUnshift` | src/util/list.h:574-584 | counter right unless one of the lists was tainted |
| `LinkedList.ListDC.FromVector` | src/util/list.h:593-599 | counted |
| `ComponentOrder.StuckMeansCycle` | src/util/component.c:167-192 | if no component can be placed next, some of those left depend on each other in a cycle |
| `ComponentOrder.OrderMeansAcyclic` | src/util/component.c:167-192 | an order with dependencies first exists only without a cycle |
| `ComponentOrder.Components.FixDependencies` | src/util/component.c:124-132 | the list grows to the least set closed under dependencies, each component once |
| `ComponentOrder.Components.Sequentialize` | src/util/component.c:167-192 | a permutation with dependencies first, each time the first component possible, so that a list in order stays as it is; or every component left waits for another |
| `ComponentOrder.Components.Fixup` | src/util/component.c:196-200 | succeeds exactly if the closure has no cycle; then the list holds the closure, each once, behind all it depends on |
| `ComponentLife.NobodyDeferred` | src/util/component.c:311-343 | if everybody stops when first asked, components are asked once, not as deferred, in exact reverse order, and nothing else happens |
| `ComponentLife.PassesAreBounded` | src/util/component.c:321-343 | at most one pass more than components ran, whatever the callbacks answer |
| `ComponentLife.LaterIsDeferred` | src/util/component.c:311-343 | exactly the requests behind the first pass over those running say that they were deferred |
| `ComponentLife.NobodyGivesIn` | src/util/component.c:321-343 | if somebody still runs in the end, the last pass was a deferred one over exactly these, and every answer was no |
| `ComponentLife.RefusedIff` | src/util/component.c:311-343 | those asked again are exactly those who answered no |
| `ComponentLife.BetweenPlaces` | src/util/component.c:311-320 | components to stop or destruct are exactly those in the state asked for, from the last to the first |
| `ComponentLife.EnabledPlaces` | src/util/component.c:211-219 | components to construct are exactly the enabled ones, in list order |
| `ComponentLife.StartablePlaces` | src/util/component.c:249-257 | components to start are exactly the constructed ones whose start flag is set, in list order |
| `ComponentLife.Manager.StopOne` | src/util/component.c:284-304 | a started component is asked once and stops or stays; one without stop callback and thread always stops |
| `ComponentLife.Manager.StopUntil` | src/util/component.c:311-343 | terminates whatever is answered; first pass in reverse order, deferred passes over those who refused while there is progress; in the end nobody runs or a whole pass stopped nobody |
| `ComponentLife.Manager.StopAll` | src/util/component.c:359-362 | the same for all components |
| `ComponentLife.Manager.DestructUntil` | src/util/component.c:456-461 | exactly the constructed components in front are destructed, in reverse order |
| `ComponentLife.Manager.DestructAll` | src/util/component.c:235-240 | the same for all components |
| `ComponentLife.Manager.CheckEnabledDependencies` | src/util/component.c:137-148 | fails exactly if an enabled component depends on a disabled one |
| `ComponentLife.Manager.InitAll` | src/util/component.c:205-232 | constructs exactly the enabled components in order, each with its dependencies; only one with a constructor can fail, and then those constructed are destructed in exact reverse order and all is as before |
| `ComponentLife.Manager.StartAll` | src/util/component.c:246-276 | components start in order, each only when all its dependencies are constructed, and started if they are ever to be; only one with a start callback or a thread can fail, and then those in front are stopped as by `StopUntil` |
| `TrimbleFormat.UnstuffUndoesStuff` | src/trimble/trimble_parser.c:142-203 | data that leave an octet of the buffer free are recovered, whatever follows |
| `TrimbleFormat.UnstuffTooMuch` | src/trimble/trimble_parser.c:142-203 | more data fill the buffer at a boundary of the encoding |
| `TrimbleFormat.ParseUndoesWire` | src/trimble/trimble_parser.c:90-134 | a message is returned intact if and only if it leaves an octet free, that is for at most `bufLen - 2` octets of data; a longer one is skipped as a whole by the same call |
| `TrimbleFormat.MessagesInOctets` | src/trimble/trimble_parser.c:90-203 | in octets: 0x10, type, data with 0x10 doubled, 0x10 0x03 |
| `TrimbleFormat.TypeBomIsSkipped` | src/trimble/trimble_parser.c:234-271 | a message of type BOM is returned at the start of a call but is no place to synchronize at |
| `TrimbleStreams.CutIsDropped` | src/trimble/trimble_parser.c:116-134 | a frame that ends between two encoded octets is dropped and nothing else is |
| `TrimbleStreams.NextMessageSurvivesIff` | src/trimble/trimble_parser.c:90-203 | for a message cut off after any number of octets: the next one is returned, if it fits, if and only if what arrived ends with an even number of BOMs; otherwise both pass for one message never sent, which is returned if it fits and skipped if not |
| `TrimbleStreams.CallsAreAutomaton` | src/trimble/trimble_parser.c:90-271 | for every octet stream successive calls return exactly what an automaton of six modes puts out, octet by octet |
| `TrimbleStreams.WholeMessage` | src/trimble/trimble_parser.c:90-203 | what a message on the wire puts out from every mode of the parser, and that the parser is at the start of a call or lost behind it |
| `TrimbleStreams.CutMessage` | src/trimble/trimble_parser.c:90-203 | a message cut off anywhere puts out nothing, and leaves a BOM without meaning if and only if its BOMs at the end are odd |
| `TrimbleStreams.ExactlyTheFitting` | src/trimble/trimble_parser.c:90-134 | of any mix of messages, messages cut off anywhere with an even number of BOMs, and octets that are no BOM, successive calls return exactly the whole messages that fit, in order |
| `TrimbleStreams.ExactlyTheFittingIff` | src/trimble/trimble_parser.c:90-134 | with one cut of any kind in front of a message that fits, they do so if and only if that cut leaves an even number of BOMs |
| `TrimbleStreams.AnyDamageCostsOneMessage` | src/trimble/trimble_parser.c:90-271 | whatever octets come first, of two messages behind them the second one is returned if it fits, and the calls behind it are those for the rest of the stream |
| `TrimbleParser.Decode` | src/trimble/trimble_parser.c:142-203 | equals decoding of the whole remaining stream, for every splitting into reads, within the buffer |
| `TrimbleParser.SynchronizeBuffer` | src/trimble/trimble_parser.c:242-271 | equals synchronizing on the whole remaining stream |
| `TrimbleParser.GetFrame` | src/trimble/trimble_parser.c:90-134 | for every stream and every splitting into reads: the message of the pure parser, the same octets consumed, nothing written behind `bufLen`; the jumps terminate |
| `TalkBack.PacketsUndoWire` | src/core/tb.c:120-145 | packets are recovered from the wire, whatever follows |
| `TalkBack.PacketsInOctets` | src/core/tb.c:120-145 | in octets: two for the type, two for the overall length, at most 124 of payload |
| `TalkBack.NoPacketInOctets` | src/core/tb.c:120-141 | a header is malformed exactly if its length is less than 4 or more than 128, and there is no packet while octets are missing |
| `TalkBack.PacketsAcross` | src/core/tb.c:120-145 | a stream may be cut anywhere: parsing goes on with what was left over |
| `TalkBack.SplittingIsInvisible` | src/core/tb.c:106-155 | however the stream is split, exactly its packets are dispatched, in order; in front of a malformed header at least those before it |
| `TalkBack.EmptyBufferStartsAfresh` | src/core/tb.c:126-133 | once the buffer is empty, later receives are a stream of their own |
| `TalkBack.MalformedCostsItsChunk` | src/core/tb.c:126-133 | a malformed header costs the rest of what was received with it and nothing behind that |
| `TalkBack.CallsFitTheirProcessors` | src/core/tb.c:160-182 | a callback is only called with a payload of the length it registered for |
| `TalkBack.CalledIff` | src/core/tb.c:160-182 | a packet calls the callback of the slot of its type, once, if and only if one is registered there for its length |
| `TalkBack.Connection.Receive` | src/core/tb.c:147-152 | any non-empty part that fits; its precondition is that at least one octet is asked for, within the buffer |
| `TalkBack.Server.constructor` | src/core/tb.c:65-73 | at first exactly the filter's processor, the fifth of six, is registered, for two octets of payload |
| `TalkBack.Server.Register` | src/core/tb.c:82-91 | sets the processor of a known type, ignores others |
| `TalkBack.Server.Unregister` | src/core/tb.c:96-103 | clears the processor of a known type |
| `TalkBack.Server.ProcessPacket` | src/core/tb.c:160-182 | calls the callback exactly if the type is known, registered and the length fits |
| `TalkBack.Server.ProcessBuffer` | src/core/tb.c:117-145 | dispatches the complete packets of the buffer and keeps what is left, less than 128 octets |
| `TalkBack.Server.Serve` | src/core/tb.c:106-155 | one connection: all of the stream is received, and the callbacks called are those for the packets, in order |

## Left out

- NetworkObject.Network.Establish: the connector's attempts are one step without the mutex; it may hold it longer, which only removes interleavings, as `NetworkRuns.VariableIsStable` shows for the variables it writes.
- NetworkRuns.Reachable: the connector has no state of its own, it may connect whenever there is no connection. So its `assert(connState == CONN_STATE_DISCONNECTED)` (`src/core/network.c:196`) is how `Connect` is enabled and not a theorem; in the code it follows from the wait at the end of the same loop, under the same mutex.
- NetworkProgress.Converges: says that such steps exist, not that a scheduler takes them; a receive on a healthy socket may block for as long as the server is silent.
- NetworkLogin.LoginCompletes: that the server answers the request for a serial number is one of the steps, not a theorem; that the answer waits for the mutex held while the request is sent is left out, which only adds interleavings.
- NetworkRuns.EveryStateIsSafe: covers runs without shutdown (`cleanupMain`, `src/core/network.c:166-185`) and without thread cancellation, and one sending thread; the deferred position send (`src/core/gps.c:98-111`) would be a second one.
- NetworkRuns.NoDataBeforeLogin: messages are sent as a whole or not at all; what a partial `send` leaves on a dying connection (`src/core/network.c:370-383`) is not modelled.
- Relay.Session: for the same reason a frame whose send failed may have reached the server in part.
- FrameBuffer.Buffer.GetFrameTimeout: waiting for the condition is the choice to call later; `BUF_getFrame`, which waits without a timeout, is not modelled separately.
- FrameBuffer.Buffer.RunCollector: the interval and the threshold that decide when the collector runs (`src/core/buffer.c:239-251`) are left open, a collection may happen at any time.
- FrameBuffer.Buffer.CollectPools: lists of frames and pools are sequences here; that the list operations do what they should on the heap is proved separately in `LinkedList.dfy`. Addresses of pools are never reused in the model.
- SubmitFrame.Submit: the filter's state is what the caller finds; `|` of operands without a common bit is addition.
- Recv.Receive: the frame is parsed into an array of its own and stored into the buffer's frame before it is filtered; cancellation cleanup and the filter's statistics are not part of it.
- TalkBack.Server.Serve: one connection; `NET_receive` may go on with a new socket without telling (`src/core/network.c:409-423`), and the framing is not claimed across that. The processor table does not change during a connection.
- TalkBack.Server.ProcessPacket: callbacks are names; what they do (filter bits, restart, upgrade, serial number) is not modelled.
- ComponentLife.Manager.StartAll: how threads are created and joined (`src/util/component.c:368-432`) is an arbitrary answer; the list of names logged at `src/util/component.c:344-355` is not modelled.
- Statistics counters, except for what they say about discarded and flushed frames, which the history records.
- Singly linked lists (`src/util/list.h:672-971`), which the daemon does not use.
- Configuration files, logging, sockets, serial ports, GPIO, the FPGA, process control, GPS messages and packaging: input and output, or easy.
- Real time: sleeps and timeouts are choices.
