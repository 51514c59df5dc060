# Parameter-aggregation server, modelled in Dafny

This project models `server.cpp`. That program is a single-threaded `epoll`
server. Workers connect to it and send framed gradients. The server sums them
into a global model. It broadcasts the sum back to every worker once
`NUM_WORKERS` (4) gradients have arrived. Outside naive mode it also closes
a round at the first wake-up of `epoll_wait` that reports no events once at
least `TIMEOUT_MS` (2000 ms) have passed since the round's first gradient, and
then broadcasts the partial sum.

The model has seven modules:

- `Wrappers`: `Option`.
- `Wire`: the wire format.
  - A frame is an 8-byte big-endian length (`htobe64` / `be64toh`) followed by the payload.
  - A model element travels as one 4-byte cell.
  - Proved: both directions of the round trip for the header, for one cell and for a whole model payload.
- `Framing`: the per-connection read state (`ClientState`) and the read loop of `handle_client_data` as a pure state machine.
  - `Absorb` is one successful read. `Drain` is the loop up to a read that would block, return 0 or fail.
  - `Deframe` is a reference reader that cuts a byte stream straight into frames.
  - Proved: the loop, fed any chunking of the stream, yields exactly the frames the stream holds. This holds for every announced length, but in the source a length the process cannot allocate ends the process (see "## Left out").
- `Aggregation`: the round (`global_model`, `gradients_received_count`, `round_in_progress`, `round_start_time`).
  - Covers the completed-payload branch and the timeout branch.
  - Proved: sums over whole rounds, one broadcast per quorum, and the reset.
- `Registry`: `participating_workers`, its erase-remove, and the writes of `broadcast_model`.
  - Proved: a broadcast delivers one identical frame to every worker and nothing to anyone else.
- `Reactor`: the whole server state. `handle_client_data`, accept and one wake-up of `main`'s loop are functions from state to state.
  - Proved: these keep the server invariant.
  - Proved: the interleaved loop equals "drain the socket, then deliver the payloads".
- `ParameterServer`: class `Server`, an imperative model of the same process.
  - The globals are its fields. The model is an `array<int>` updated in place by `+=` and by a zero fill.
  - Its methods have the source's loops: the summing loop, the copy of the model into the payload, the broadcast to every worker, the erase-remove, the read loop and the event loop.
  - Each method is proved to change the fields exactly as the matching function says. `ModelPayload` is matched to `Wire.EncodeModel`. `AddGradient`, `ResetRound`, `Contribute` and `CheckDeadline` are matched to `Aggregation` functions. `Unregister` is matched to `Registry.Without`. `AbsorbChunk` is matched to `Framing.Absorb` followed by `Reactor.Aggregate`. The others (`BroadcastModel`, `ReceivePayload`, `Disconnect`, `ReadOnce`, `ReadLoop`, `HandleClientData`, `AcceptConnection` and `Poll`) are matched to `Reactor` functions.

Three modelling choices to know about:

- Model elements are mathematical integers. On the wire an element is a 32-bit two's-complement big-endian cell.
- A clock reading `now` (milliseconds) is a parameter.
- A socket is the bytes it holds plus how its stream stands once they are read: still open, closed by the peer, or broken.

The source copies `payload_size` bytes into a vector of `payload_size / 4` floats. It then reads the first ten of them, whatever the payload's length. A payload that is not whole 4-byte elements, or is shorter than the model, therefore overflows or overreads memory. The model instead refuses such a payload and tears the connection down (`Reactor.Accepts`, `Reactor.Aggregate`, `ParameterServer.Server.ReceivePayload`). A payload that is longer than the model contributes only its first ten elements, as in the source.

## Model

| member | source | states |
|---|---|---|
| Wire.BeDecode | server.cpp:82-83 | the number a byte string denotes fits in as many bytes as the string has |
| Wire.BeEncode | server.cpp:46 | the big-endian encoding of n has exactly the requested width |
| Wire.DecodeEncode | server.cpp:46-83 | decoding the big-endian encoding of any n below 256^k gives n back |
| Wire.EncodeDecode | server.cpp:80-83 | re-encoding a decoded byte string at its own width gives the bytes back |
| Wire.Pow256Header | server.cpp:36 | eight header bytes hold exactly the lengths below 2^64 (`uint64_t`) |
| Wire.Header | server.cpp:46-49 | the length header is 8 bytes and decodes to the length it announces |
| Wire.HeaderOfDecoded | server.cpp:80-83 | any 8 bytes are the header of the length they decode to |
| Wire.Frame | server.cpp:46-50 | a frame is 8 + n bytes long; its first 8 bytes decode to n and the rest is the payload |
| Wire.EncodeElem | server.cpp:45 | an element's cell is 4 bytes |
| Wire.DecodeElem | server.cpp:111 | a cell holds a value in the signed 32-bit range |
| Wire.DecodeEncodeElem | server.cpp:45-111 | every signed 32-bit element survives a trip through its cell |
| Wire.EncodeDecodeElem | server.cpp:45-111 | every cell is the encoding of the element it holds |
| Wire.EncodeModel | server.cpp:44-45 | the payload of a model has 4 bytes per element |
| Wire.DecodeModel | server.cpp:110-111 | a payload decodes to one element per 4-byte cell |
| Wire.EncodeModelCell | server.cpp:44-45 | element i of the model sits at bytes 4i..4i+4 of the payload |
| Wire.EncodeDecodeModel | server.cpp:44-111 | every payload made of whole 4-byte cells is exactly the payload of the model it decodes to |
| Wire.DecodeEncodeModel | server.cpp:44-111 | a model of 32-bit elements is read back intact from its payload |
| Framing.Valid | server.cpp:34-39 | the phase invariant of a `ClientState`: the buffer never holds more than the 8 header bytes in header phase, nor more than `payload_size` in payload phase |
| Framing.Requested | server.cpp:62-90 | a read asks for exactly what fills the current phase's buffer (`bytes_to_read`); it asks for nothing only in payload phase with an announced length of 0 |
| Framing.Absorb | server.cpp:79-137 | a read keeps the phase invariant; the phase switches exactly when the header is full; a payload is handed out exactly when the buffer reaches `payload_size`; otherwise the pending message grows by exactly the chunk; a handed-out payload has the announced length, and the header plus the buffer plus the chunk were exactly its frame |
| Framing.SocketRead | server.cpp:62-70 | a read returns bytes iff some were asked for and some are queued, and then at least one and at most as many as asked, taken from the front of the queue; it would block iff bytes were asked for, none are queued and the stream is open |
| Framing.Drain | server.cpp:58-139 | the loop ends in a valid phase; when it stops because a read would block, the stream is open and the next read asks for at least one byte |
| Framing.PendingIsIncomplete | server.cpp:60-92 | the message a valid reader holds is never a whole frame: it is all left over, unless it is the header of an empty payload, which stops the reader |
| Framing.DeframeFrame | server.cpp:44-50 | a stream starting with the frame of a non-empty payload yields that payload first, then the frames of the rest |
| Framing.DeframeAppend | server.cpp:58-139 | a stream's frames are cut independently of the bytes that follow them |
| Framing.DrainStopsAtOnce | server.cpp:62-78 | a loop whose first read asks for nothing or finds nothing queued agrees with the reference reader |
| Framing.DrainStep | server.cpp:58-139 | one read followed by a loop that agrees with the reference reader agrees with it too |
| Framing.DrainUnfold | server.cpp:58-139 | the loop is its first read followed by the loop on the rest |
| Framing.AbsorbThenDeframe | server.cpp:79-137 | absorbing a chunk does not change the frames the pending message plus the stream holds |
| Framing.AbsorbPrefixThenDeframe | server.cpp:79-137 | the same for the prefix a read takes off the queued bytes |
| Framing.DrainIsDeframe | server.cpp:58-139 | the read loop yields exactly the frames of the pending message followed by the queued bytes; it closes iff a read returns 0 or fails; it leaves exactly the leftover bytes pending |
| Framing.DrainAll | server.cpp:58-139 | draining successive arrivals across wake-ups keeps the phase invariant |
| Framing.DrainAllIsDeframe | server.cpp:58-139 | the same for bytes that arrive in any chunking over many wake-ups |
| Framing.DrainAllStep | server.cpp:58-139 | one wake-up followed by later ones that agree with the reference reader agrees with it too |
| Framing.DeframeFrameAll | server.cpp:44-50 | the frames of a sequence of non-empty payloads cut back into exactly those payloads, with nothing left over |
| Framing.FramingRoundTrip | server.cpp:44-137 | framed non-empty payloads fed to a fresh reader in any chunking come out exactly, in order, and leave it in header phase with an empty buffer (an empty payload's frame makes the loop ask for 0 bytes and close the connection) |
| Framing.DrainOneFrame | server.cpp:60-137 | one frame of a non-empty payload read from a fresh reader yields its payload, with `payload_size` left at the payload length |
| Framing.WouldBlockKeepsState | server.cpp:67-70 | a read that would block leaves the phase, the length and the buffer as they were |
| Aggregation.AddInto | server.cpp:120-123 | the summed model has the model's length, and each element grows by the gradient element at the same index |
| Aggregation.AddIntoCommutes | server.cpp:120-123 | in the integer model, the sum does not depend on the order in which two gradients arrive; the source's float sum can depend on arrival order through rounding |
| Aggregation.Close | server.cpp:130-132 | a closed round has an all-zero model, count 0 and the timer stopped, and meets the round invariant |
| Aggregation.Contribute | server.cpp:114-133 | one gradient is added element-wise and counted; an idle round is started at `now`; the fourth gradient broadcasts the sum and leaves a zero model, count 0 and the timer stopped; the round invariant (count below 4) is kept |
| Aggregation.Deadline | server.cpp:193-206 | the round is closed iff there are no events, the mode is not naive, the round is open and at least 2000 ms old; it then broadcasts the partial sum and resets; otherwise nothing changes |
| Aggregation.ContributeAll | server.cpp:108-137 | any run of gradients keeps the model length and the round invariant |
| Aggregation.PlusStep | server.cpp:120-123 | summing the first gradient and then the rest equals summing them all |
| Aggregation.HeldSums | server.cpp:114-125 | below the quorum, the model is the sum of the held gradients; the count grows by one per gradient; the start time is that of the first gradient of the round |
| Aggregation.ClosingSums | server.cpp:120-133 | the gradient that completes the quorum broadcasts exactly the sum of the round and resets it |
| Aggregation.BroadcastEveryQuorum | server.cpp:124-133 | n gradients produce exactly (count + n) / 4 broadcasts and leave (count + n) % 4 held |
| Aggregation.FullRound | server.cpp:114-133 | four gradients from idle broadcast their element-wise sum once and leave the round idle |
| Aggregation.PartialRound | server.cpp:114-125 | one to three gradients from idle are held as their sum, the timer started at the first |
| Aggregation.TimeoutClosesPartialRound | server.cpp:193-206 | an idle wake-up 2000 ms after the first held gradient broadcasts the partial sum and resets |
| Aggregation.PartialRoundWaits | server.cpp:193-197 | before 2000 ms have passed, no wake-up closes a partial round |
| Aggregation.QuorumOfOnes | server.cpp:120-133 | four all-ones gradients broadcast the all-fours model |
| Aggregation.TimeoutOfOnesAndTwos | server.cpp:193-206 | an all-ones and an all-twos gradient, closed by the timeout, broadcast the all-threes model |
| Registry.Without | server.cpp:73 | the erase-remove keeps exactly the other workers |
| Registry.WithoutKeepsDistinct | server.cpp:101 | the erase-remove keeps a duplicate-free list duplicate-free |
| Registry.WithoutAbsent | server.cpp:73 | erasing an unlisted connection changes nothing |
| Registry.BroadcastWrites | server.cpp:47-51 | a broadcast makes two writes per worker |
| Registry.SentToAppend | server.cpp:47-51 | what a connection receives from two runs of writes is what it receives from each, in order |
| Registry.SentToPair | server.cpp:49-50 | a worker's two writes deliver the header, then the payload |
| Registry.BroadcastStep | server.cpp:47-51 | the last listed worker receives one frame from the broadcast |
| Registry.BroadcastReachesEveryWorker | server.cpp:42-51 | over a duplicate-free worker list, a broadcast sends each worker exactly one frame of the payload and nothing to any other connection |
| Reactor.Broadcast | server.cpp:42-53 | a broadcast appends two writes per worker to the log and changes nothing else; it keeps the server invariant |
| Reactor.Accepts | server.cpp:110-111 | an accepted payload is whole 4-byte elements, at least as many as the model has, so the summing loop reads only decoded elements |
| Reactor.Aggregate | server.cpp:108-137 | a payload is summed in iff it is acceptable; a refused one changes nothing; only the round and the writes change; the round invariant is kept |
| Reactor.Deliver | server.cpp:108-137 | payloads are delivered in order, and all of them are delivered iff all are acceptable; only the round and the writes change |
| Reactor.Disconnect | server.cpp:71-77 | the connection leaves the worker list and the table and is closed once; the other workers, the round and the writes are untouched |
| Reactor.ServeTurn | server.cpp:60-138 | a turn that goes on consumes between 1 and all of the queued bytes and leaves the other connections' read state, the worker list and the closed list as they were (a payload that completes a round still writes its frame to every worker); a turn that ends the loop either leaves the state unchanged with a read of at least one byte pending, or has closed the connection |
| Reactor.Serve | server.cpp:58-139 | the read loop keeps the round invariant and leaves the other connections' read state as it was (a payload that completes a round still writes its frame to every worker); it either leaves the connection open and waiting for a read of at least one byte, or removes it from the workers and closes it exactly once |
| Reactor.ServeContinues | server.cpp:58-59 | after a turn that goes on, the loop continues from that turn's state on the remaining bytes |
| Reactor.ServeEnds | server.cpp:58-59 | a turn that ends the loop gives the loop's result |
| Reactor.HandleClientData | server.cpp:55-140 | an event keeps the server invariant; a descriptor with no read state is left alone |
| Reactor.DisconnectForgetsClient | server.cpp:75-76 | tearing a connection down discards whatever read state it had |
| Reactor.ServeTurnGot | server.cpp:79-137 | a read that returns bytes absorbs them; a completed payload is delivered; a refused payload closes the connection |
| Reactor.ServeKeepsInv | server.cpp:55-140 | the read loop keeps the server invariant |
| Reactor.DeliverIgnoresClients | server.cpp:108-137 | delivering payloads neither reads nor changes the connection table |
| Reactor.SettleIgnoresClients | server.cpp:65-106 | how the loop ends does not depend on this connection's stored read state: settling overwrites or erases that entry, so the result depends only on the other connections' entries |
| Reactor.ServeUnfold | server.cpp:58-139 | the read loop is its first read followed by the loop on the remaining bytes |
| Reactor.ServeGotNone | server.cpp:79-87 | a read that completes no payload leaves the equivalence with drain-then-deliver intact |
| Reactor.ServeGotSome | server.cpp:107-137 | a read that completes a payload leaves the equivalence with drain-then-deliver intact |
| Reactor.ServeStops | server.cpp:62-78 | a first read that asks for nothing or finds nothing queued gives the drain-then-deliver result |
| Reactor.ServeIsDrainThenDeliver | server.cpp:55-140 | the interleaved loop equals draining the socket first and then delivering the payloads in order; the connection closes if a read returns 0 or fails, or a payload is refused |
| Reactor.WouldBlockChangesNothing | server.cpp:65-98 | an event on a socket with nothing queued and the stream open changes nothing |
| Reactor.ClosedMidPayloadContributesNothing | server.cpp:93-106 | a connection that ends mid-payload is torn down and adds nothing to the round |
| Reactor.GradientIsAggregated | server.cpp:88-137 | the frame of a 10-element gradient, read in one event, is contributed to the round exactly once, and the reader goes back to header phase |
| Reactor.AggregateEncoded | server.cpp:110-124 | the payload of a 10-element gradient is accepted and contributes that gradient |
| Reactor.DeliverOne | server.cpp:108-137 | delivering one payload is aggregating it |
| Reactor.Accept | server.cpp:174-186 | an accepted connection is appended to the workers with a fresh read state; the invariant is kept |
| Reactor.AcceptFreshKeepsDistinct | server.cpp:174-186 | accepting a descriptor that is not open keeps the worker list duplicate-free |
| Reactor.Dispatch | server.cpp:172-191 | an event keeps the server invariant |
| Reactor.DispatchAll | server.cpp:172-191 | the events of a wake-up, in order, keep the server invariant |
| Reactor.Poll | server.cpp:169-207 | a wake-up handles its events, then closes the round only if there were no events, the mode is not naive and the round is open and at least 2000 ms old; the invariant is kept |
| Reactor.DispatchKeepsDistinct | server.cpp:172-191 | an event keeps the worker list free of repeats when what it accepts is not open |
| Reactor.DispatchAllKeepsDistinct | server.cpp:172-191 | the events of a wake-up keep the worker list free of repeats when every accepted descriptor is fresh |
| Reactor.PollKeepsDistinct | server.cpp:169-207 | a wake-up keeps the worker list free of repeats when every accepted descriptor is fresh |
| Reactor.BootInv | server.cpp:26-40 | the start-up state meets the invariant and its worker list has no repeats |
| Reactor.TimeoutReachesEveryWorker | server.cpp:193-206 | an idle wake-up that closes an expired round resets it and sends each listed worker one frame of the partial sum, and nothing to anyone else |
| ParameterServer.Server.constructor | server.cpp:26-40 | the start-up state meets the invariant and is the boot state |
| ParameterServer.Server.ModelPayload | server.cpp:44-45 | the payload buffer is the model's cells, in order |
| ParameterServer.Server.BroadcastModel | server.cpp:42-53 | the header and then the payload are written to every worker in list order; nothing else changes |
| ParameterServer.Server.ResetRound | server.cpp:130-132 | the model is filled with zeros in place, and the count and the timer are cleared |
| ParameterServer.Server.AddGradient | server.cpp:120-123 | each model element is increased by the gradient element at the same index |
| ParameterServer.Server.Contribute | server.cpp:114-133 | the fields change exactly as one gradient changes the round, including the broadcast at the quorum |
| ParameterServer.Server.ReceivePayload | server.cpp:108-134 | a completed payload is summed in iff it is acceptable, as `Reactor.Aggregate` says |
| ParameterServer.Server.Unregister | server.cpp:99-102 | the erase-remove leaves exactly the other workers, in order |
| ParameterServer.Server.Disconnect | server.cpp:71-77 | teardown changes the fields as `Reactor.Disconnect` says |
| ParameterServer.Server.AbsorbChunk | server.cpp:79-137 | one read updates the stored read state as `Framing.Absorb` says, and hands a completed payload to the round |
| ParameterServer.Server.ReadOnce | server.cpp:60-138 | one turn of the read loop changes the fields as `Reactor.ServeTurn` says |
| ParameterServer.Server.ReadLoop | server.cpp:58-139 | the read loop changes the fields as `Reactor.Serve` says |
| ParameterServer.Server.HandleClientData | server.cpp:55-140 | `handle_client_data` changes the fields as `Reactor.HandleClientData` says and keeps the invariant |
| ParameterServer.Server.AcceptConnection | server.cpp:174-186 | accepting changes the fields as `Reactor.Accept` says |
| ParameterServer.Server.CheckDeadline | server.cpp:193-206 | the timeout check changes the fields as `Aggregation.Deadline` says |
| ParameterServer.Server.Poll | server.cpp:169-207 | one wake-up changes the fields as `Reactor.Poll` says and keeps the invariant |

## Left out

- Sockets, `bind`, `listen`, `fcntl`, `epoll_create1` and `epoll_ctl`: setup plumbing. A wake-up of `epoll_wait` is its list of at most `MAX_EVENTS` ready events. `Incoming(fd)` carries the descriptor `accept` returns; a failing `accept` is not modelled.
- `std::mutex` and `lock_guard`: the loop is single-threaded, so each method body is one atomic update.
- Console output.
- Floating point: elements are unbounded integers, and the sum held in the model has no rounding and no overflow. Cells are 32-bit two's complement rather than the host's float layout. A sum outside the 32-bit range therefore wraps around when it is broadcast (`Wire.EncodeElem`), where the source's floats would round instead.
- Aggregation.AddIntoCommutes: holds of the integer sum only. The source's float `+=` rounds, so a different arrival order can give a different sum (with float32, 1 + 1 + 2^24 and 1 + 2^24 + 1 differ).
- `steady_clock`: a reading `now` in milliseconds is a parameter, one per wake-up. The recorded start time is left as it was when a round closes.
- `read` always returns as many queued bytes as fit. Reads split differently across wake-ups are covered by `Framing.DrainAll`, `Framing.DrainAllIsDeframe` and `Framing.FramingRoundTrip`.
- `write` always succeeds in full, as the source assumes (it ignores the return value). Short or failing writes are not modelled.
- `client_states.at` on a descriptor with no read state would throw. `epoll` reports no such descriptor, and the model leaves the state unchanged instead.
- Reactor.Inv: does not require the worker list to be duplicate-free, because accepting a descriptor that is already open would break it. Freshness of accepted descriptors is a premise instead (`Reactor.AcceptsFresh`). From it, `Reactor.DispatchKeepsDistinct`, `Reactor.DispatchAllKeepsDistinct` and `Reactor.PollKeepsDistinct` prove the list stays duplicate-free, starting from the boot state (`Reactor.BootInv`). `Registry.BroadcastReachesEveryWorker` and `Reactor.TimeoutReachesEveryWorker` take a duplicate-free list as a premise.
- Reactor.Dispatch: its contract states only that the invariant is kept. What each event does is stated by `Reactor.Accept` and `Reactor.HandleClientData`.
- Framing.Drain, Reactor.ServeTurn and ParameterServer.Server.ReadOnce: keep reading when a header announces a length the process cannot allocate. In the source, the next payload read allocates a buffer of that size. For 2^63 bytes or more that throws `std::length_error`, and for smaller but huge lengths `std::bad_alloc`. Nothing catches either, so the whole server ends. The model has no such outcome. It stays in payload phase and waits for the bytes.
- Reactor.Aggregate: refuses payloads with a partial element or fewer than ten elements, and tears their connection down. In the source these overflow or overread memory.
