# silvernode-go: a verified model of its message stack

silvernode-go lets nodes call each other. A call gets a snowflake id and an entry in
its peer's table of pending calls; its exchange is marshalled by a tagged
little-endian codec, framed, sent over TCP, taken out of a fixed receive buffer on the
other side, handled by a task queue, and answered. This project models that stack and
proves what its parts promise, and where the code promises less than one would expect,
exactly when it holds.

| file | models |
|---|---|
| `Bytes.dfy` | fixed-width integers, truncation, little-endian layout |
| `Wrappers.dfy` | an optional value, a fact about sequences |
| `Values.dfy` | the objects of the codec, and the layouts (iteration orders) in which a value can be written |
| `Orders.dfy` | when the iteration order of maps, at any depth, cannot be seen in what is read |
| `Buffer.dfy`, `Reading.dfy`, `Parser.dfy`, `CodecLaws.dfy`, `CodecExact.dfy` | `utils/buffutil`: the writer, what each read returns, the reader, their laws |
| `Exchange.dfy` | `peers/exchange.go`: header and body |
| `Framing.dfy` | `Send`, and the split rule that the comment in `nets/tcp.go` states |
| `TcpBuffer.dfy`, `ReceiveLaws.dfy` | the receive buffer and the live loop, and its relation to the split rule |
| `Delivery.dfy` | the layers put together |
| `Snowflake.dfy` | the id generator, with its bit arithmetic |
| `Connections.dfy` | the two-way connection table, its handlers and the listener |
| `Executor.dfy`, `Processor.dfy`, `Registry.dfy` | task queues, the choice among them, the table of processes |
| `Peer.dfy` | one peer: issuing, answering, completing, sweeping |
| `Rpc.dfy`, `RpcLaws.dfy` | the call protocol: nodes, exchanges in flight, steps, invariants over every run |
| `StringCase.dfy` | `Snake` and `Camel` |

Objects that the code updates in place are classes, and each of their methods is proved
to do what a function of the old state says; the laws are about those functions. A Go
`map` is written in some iteration order: a `Layout` fixes one at every depth, and
`Orders.OrderUnseenAtEveryDepth` and `Orders.PermutedReadAlike` say when it cannot be seen in
what is read. A runtime panic is an explicit outcome. The network, handlers, codecs of
message bodies and the clock appear as the results they give; time is any
non-decreasing sequence of readings. In `Rpc.dfy` the packets in flight are a bag from
which any packet may be delivered at any moment, delivered again, or lost.

## What the proofs found in the code

- `checkTimeOut` tests `call.TimeOut > now`: a call is expired by every sweep before its
  deadline and by none from its deadline on. A call that is still waiting at its
  deadline and gets no response never completes (`RpcLaws.LostCallNeverTimesOut`). The protocol's theorems hold for
  any expiry test.
- A `Call` whose request fails is completed by `Call` and stays in the table, where a
  sweep completes it a second time (`RpcLaws.FailedCallCompletesTwice`).
- The live receive loop forgets the six header bytes in `length > Count()`, reads over
  the bytes it holds, and `DeleteData` refuses silently. `ReceiveLaws.PumpPartial` and
  `ReceiveLaws.LiveReadExact` say which beginnings of a frame it keeps, and
  `ReceiveLaws.CutFrameExact` when a frame cut in two still arrives: only if what the
  second read leaves happens to repeat the first part. If the cut is within the header,
  the frame and everything that comes with its second part are lost
  (`ReceiveLaws.CutFrameIsLost`).
- `Generate` does not reset its step after a spin. Ids stay increasing until the step
  reaches 2^22 (`Snowflake.IdsStrictlyIncrease`), not beyond: 2^22 - 4094 milliseconds of
  calls without pause lead to a repeated id (`Snowflake.LoadRepeatsAtTheBound`). Ids of
  different seeds can meet from step 4096 on, and do so exactly as
  `Snowflake.IdsMeetIff` says.
- Strings of more than 10240 bytes are written but not read back; `int` comes back as
  `int32`, and hash keys that this makes equal are merged: the iteration order shows
  exactly if their values differ (`Orders.OrderUnseenIff`).
- A nil task queued ahead of another one is taken for the sentinel after `Terminate`,
  and what is queued behind it is dropped, as it is behind a task that calls
  `runtime.Goexit` (`Executors.NothingLostIff`).
- The choice of the least loaded queue stops at 999999: from then on all tasks go to the
  first one (`Processors.SearchGivesUp`).
- A service that was never started cannot be terminated: the caller waits for ever and
  the service stays in the table (`Registry.UnstartedServiceStays`).
- `NewParser`'s offset only sizes the buffer; it skips nothing.
- Proc types can share a generated file: `FooBar`, `fooBar` and `Foo_bar` do. The exact
  condition is `StringCase.SharedFileIff`.

## Model

| member | source | states |
|---|---|---|
| Bytes.IntegersRoundTrip | utils/buffutil/buffer.go:59-90 | every int16, int32, int64 and float pattern written little-endian is read back as itself |
| Bytes.IntegersAreBijective | utils/buffutil/parser.go:56-93 | and every 2, 4 or 8 bytes read are the bytes that value is written as |
| Bytes.TruncWraps | utils/buffutil/buffer.go:208-210 | truncation to int16 or int32 drops whole multiples of 2^16 or 2^32 |
| Orders.FieldOrderIrrelevant | utils/buffutil/buffer.go:155-170 | two layouts of maps with distinct names stand for the same value iff their entries match by name and value, in whatever order |
| Orders.PairOrderIrrelevant | utils/buffutil/buffer.go:172-187 | the same for hashes in which keys made equal by the int-to-int32 normalisation have equal values |
| Orders.OrderUnseenIff | utils/buffutil/buffer.go:172-187 | all iteration orders of a hash stand for one value iff any two entries whose keys are merged have equal values |
| Orders.MergedKeysDependOnOrder | utils/buffutil/buffer.go:208-210 | int 5 and int32 5 are two Go keys that are merged, so that with different values the order shows |
| Orders.ReorderedIff | utils/buffutil/buffer.go:139-187 | two layouts stand for one value iff they match entry for entry at every depth, keys and atoms up to normalisation and merged entries counted once |
| Orders.OrderUnseenAtEveryDepth | utils/buffutil/buffer.go:139-187 | all layouts of a Go value, its maps and hashes at every depth permuted at will, stand for one value iff merged keys, at every depth, have equal values |
| Orders.PermutedReadAlike | utils/buffutil/parser.go:143-242 | and then the value is read back alike from every one of them, with exactly the following bytes left, or with an error from every one |
| Orders.OrdersReadAlike | utils/buffutil/parser.go:143-242 | layouts that match entry for entry read back alike: as the one value with exactly the following bytes left, or both times with an error |
| Buffers.Buffer.WriteInts | utils/buffutil/buffer.go:123-137 | appends the length as int32 and each element |
| Buffers.Buffer.WriteArray | utils/buffutil/buffer.go:139-153 | appends the length and each element's encoding |
| Buffers.Buffer.WriteMap | utils/buffutil/buffer.go:155-170 | appends the length and each name and value, in iteration order |
| Buffers.Buffer.WriteHash | utils/buffutil/buffer.go:172-187 | appends the length and each tagged key and value, in iteration order |
| Buffers.Buffer.WriteString | utils/buffutil/buffer.go:92-110 | appends the length as int32 and the bytes, whatever their number |
| Buffers.Buffer.WriteObject | utils/buffutil/buffer.go:189-250 | appends exactly the value's tagged encoding |
| Reading.Take | utils/buffutil/parser.go:26-93 | a fixed-width read takes all its bytes, or sets the error; after an error it takes none |
| Reading.ReadObject | utils/buffutil/parser.go:190-242 | reading never adds bytes, and from a cursor with the error set nothing is consumed and the error stays |
| Parsers.Parser.constructor | utils/buffutil/parser.go:18-24 | a new parser has all of the input unread, whatever its offset argument |
| Parsers.Parser.ReadString | utils/buffutil/parser.go:95-113 | performs the specified read: length checks, limit of 10240 bytes, error cases |
| Parsers.Parser.ReadInts | utils/buffutil/parser.go:128-141 | performs the specified read; a negative length panics |
| Parsers.Parser.ReadArray | utils/buffutil/parser.go:143-156 | performs the specified read; a negative length panics |
| Parsers.Parser.ReadMap | utils/buffutil/parser.go:158-172 | performs the specified read; a later equal name overwrites |
| Parsers.Parser.ReadHash | utils/buffutil/parser.go:174-188 | performs the specified read; an unhashable key panics |
| Parsers.Parser.ReadObject | utils/buffutil/parser.go:190-242 | terminates on every input and performs the specified read |
| CodecLaws.ObjectSuffix | utils/buffutil/parser.go:190-242 | what is unread afterwards is always a suffix of the input |
| CodecLaws.ItemsAfterError | utils/buffutil/parser.go:143-156 | once the error is set, the remaining iterations consume nothing and the error stays |
| CodecLaws.FieldsAfterError | utils/buffutil/parser.go:158-172 | the same inside a map |
| CodecLaws.RowsAfterError | utils/buffutil/parser.go:174-188 | the same inside a hash |
| CodecLaws.StringBack | utils/buffutil/parser.go:95-113 | a written string is read back, with exactly the rest left, iff it has at most 10240 bytes; otherwise the error is set |
| CodecLaws.RoundTrip | utils/buffutil/parser.go:190-242 | reading any written value followed by any bytes gives the normalised value and leaves exactly those bytes if all its strings have at most 10240 bytes, and an error (never a panic) otherwise; for every iteration order |
| CodecLaws.EncodingDeterminesValue | utils/buffutil/buffer.go:189-250 | two readable values with the same bytes are the same normalised value |
| CodecExact.AcceptedIff | utils/buffutil/parser.go:190-242 | reading bytes gives a value and leaves a rest, without error, iff some layout with short enough strings stands for the value and the bytes are its encoding in front of the rest, up to any non-zero byte for true and a negative length for an empty map or hash |
| CodecExact.WrittenSpells | utils/buffutil/buffer.go:189-250 | what WriteObject writes is among these bytes |
| CodecExact.UnknownTag | utils/buffutil/parser.go:228-235 | a tag that is none of the twelve is an error, and nothing behind it is read |
| CodecExact.ErrorGivesZero | utils/buffutil/parser.go:26-188 | with an error set, ReadObject returns nil or a zero value and no part of what was read |
| CodecExact.ObjectPanic | utils/buffutil/parser.go:128-188 | reading panics only on input that holds a slice tag with a negative length, or a hash tag with a slice, map or hash tag behind it |
| CodecExact.WireTags | utils/buffutil/custom.go:7-21 | the tag of each scalar on the wire |
| CodecExact.WireCompositeTags | utils/buffutil/custom.go:7-21 | the tag of each slice, map and hash on the wire |
| CodecExact.LittleEndian | utils/buffutil/buffer.go:59-80 | integers are written in two's complement, low byte first |
| Exchanges.Exchange.Marshal | peers/exchange.go:27-51 | gives the header's strings, number, flag and error text in order, then the body; or an error if the body's codec fails |
| Exchanges.Exchange.Unmarshal | peers/exchange.go:53-66 | performs the header reads; it keeps the parser, at the body, iff none failed |
| Exchanges.HeadLayout | peers/exchange.go:28-34 | the header on the wire: From, To, Func, Seq, Ret, Err, each string behind its length |
| Exchanges.HeadRoundTrip | peers/exchange.go:27-66 | Unmarshal of Marshal restores all six fields and leaves exactly the body iff the four strings have at most 10240 bytes; it fails iff not |
| Exchanges.HeadCanonical | peers/exchange.go:53-66 | any data that Unmarshal accepts is what Marshal makes of its result and the rest |
| Exchanges.MarshalInjective | peers/exchange.go:27-51 | equal messages come from equal headers and equal bodies |
| Framing.Send | nets/tcp.go:168-182 | the wire gets the header word, the length as int16 and the message |
| Framing.SplitFirst | nets/tcp.go:109-126 | on a prefix of a stream, the rule takes exactly the first frame if it is all there and asks for more otherwise |
| Framing.NothingAtEnd | nets/tcp.go:111 | at the end of the stream the rule splits off nothing |
| Framing.ChunkingIrrelevant | nets/tcp.go:109-146 | for every byte stream, however it is cut into reads, the scanner ends in the same state |
| Framing.ArrivedIsMaximal | nets/tcp.go:109-126 | the count of arrived frames is the largest that fits the bytes received |
| Framing.StreamTheorem | nets/tcp.go:109-146 | for every sequence of payloads of 1 to 8186 bytes and every cutting of any prefix of their stream, exactly the fully arrived frames are delivered in order, exactly the bytes behind them are held, and those leave room in 8192 bytes |
| TcpReceive.TcpBuffer.Reset | nets/tcp.go:308-311 | the overlapping copy moves the held bytes to the front unharmed |
| TcpReceive.TcpBuffer.Receive | nets/tcp.go:313-315 | a read stores at the offset, not behind the held bytes |
| TcpReceive.TcpBuffer.DeleteData | nets/tcp.go:337-342 | drops bytes if that many are held, and otherwise does nothing |
| TcpReceive.TcpBuffer.Clear | nets/tcp.go:300-306 | zeroes the array, offset and count |
| TcpReceive.TcpSocket.TakeTurn | nets/tcp.go:67-87 | one turn of the loop: stop, clear and stop, take a payload, or panic |
| TcpReceive.TcpSocket.HandOn | nets/tcp.go:82-95 | a payload goes to the handler of a known connection, otherwise to the handshake, which accepts it, refuses it, or panics when its reply cannot be written |
| TcpReceive.TcpSocket.Step | nets/tcp.go:67-97 | what one turn does to the whole outcome: the loop goes on with less held, is left, or the handling ends |
| TcpReceive.TcpSocket.OnBytes | nets/tcp.go:58-104 | the whole handling of one read that did not fail, including one without data, handshake refusal, panics and the loop that does not end |
| ReceiveLaws.SliceLaws | nets/tcp.go:308-342 | Reset is the identity and DeleteData a drop on the held bytes; with too little held, DeleteData changes nothing |
| ReceiveLaws.ReadAppendsIff | nets/tcp.go:313-335 | a read leaves the new bytes followed by stale ones; that is appending iff nothing was held or the new and the stale bytes only repeat the held ones |
| ReceiveLaws.TurnProgress | nets/tcp.go:67-97 | a turn that takes a payload shrinks Count iff the whole frame is held; otherwise it leaves the buffer unchanged |
| ReceiveLaws.EndlessIsAFixedPoint | nets/tcp.go:67-97 | the loop fails to end only at a buffer that a turn leaves unchanged |
| ReceiveLaws.PumpFrames | nets/tcp.go:67-97 | whole frames at the front of the buffer are delivered in order and what follows them is left, as long as every handshake is accepted |
| ReceiveLaws.PumpRefused | nets/tcp.go:90-94 | the first payload not accepted as a handshake is the last one handed on: a refusal drops the connection, a reply that cannot be written is a panic, and the connection stays unknown |
| ReceiveLaws.KnowsIff | nets/tcp.go:264-282 | after payloads that were all admitted, the connection is known iff it was before or some handshake made it so |
| ReceiveLaws.LiveAligned | nets/tcp.go:58-98 | every run of frame-aligned reads ends with all payloads handed on and nothing held, or at the first payload not accepted as a handshake, dropped or in a panic accordingly |
| ReceiveLaws.NoHeader | nets/tcp.go:70-73 | bytes without the header are thrown away by the loop, while the split rule waits for ever |
| ReceiveLaws.NegativeLength | nets/tcp.go:74-83 | a negative length is a panic in both |
| ReceiveLaws.NothingRead | nets/tcp.go:99-101 | a read of no bytes changes nothing and is reported |
| ReceiveLaws.PumpPartial | nets/tcp.go:67-97 | the beginning of a frame is kept iff it has at most six bytes or fewer bytes than the payload; otherwise the loop panics if the frame would reach beyond the array, and else takes a payload completed by stale bytes, without end unless that is not accepted as a handshake |
| ReceiveLaws.LiveReadExact | nets/tcp.go:58-98 | after one read of frames and the beginning of another, the live loop has delivered and holds what the split rule does iff that beginning has at most six bytes or fewer than the payload |
| ReceiveLaws.LiveRefinesSplit | nets/tcp.go:58-98 | over every run of frame-aligned reads from an empty buffer, the live loop delivers exactly the sent payloads in order, ends empty and so agrees with the split rule, iff every payload that comes before the connection is known is accepted as a handshake |
| ReceiveLaws.CutFrameExact | nets/tcp.go:58-98 | for every payload, every cut of its frame into two reads whose first part is kept, and whatever else the second read brings: the live loop hands on the payload next iff what is then held only repeats the first part, and panics if all of it exceeds the array; the split rule always delivers it and goes on |
| ReceiveLaws.CutFrameIsLost | nets/tcp.go:313-315 | a frame cut within its header, and every frame behind it in the second read, are delivered by the split rule and always lost by the live loop, which ends empty, or in a panic if both reads exceed the array, whatever the payloads, the cut and the contents of the array |
| Delivery.ExchangesOverSplit | peers/exchange.go:27-66 | marshalled and framed exchanges come out of any cutting of the stream unchanged and in order, as many as have fully arrived |
| Delivery.ExchangesOverLiveLoop | nets/tcp.go:58-98 | the same through the live loop, for frame-aligned reads; on a connection not yet known, behind an accepted handshake |
| Delivery.PeersExchangesArrive | peers/peers.go:78-85 | any exchanges emitted in any run of the call protocol, error answers with a nil reply included: those whose body the codec can encode come to the other node unchanged and in order through all layers, as many as have fully arrived |
| Bits.OrSplit | utils/snowflake/snowflake.go:62 | bitwise or works on the high and the low digits separately |
| Bits.Apart | utils/snowflake/snowflake.go:62 | shift and mask take a number's high and low digits apart |
| Snowflake.IdParts | utils/snowflake/snowflake.go:10-17 | while the step is below 2^22 an id is its milliseconds followed by 22 digits, seed and step side by side while the step fits 12 bits |
| Snowflake.IdFits | utils/snowflake/snowflake.go:62 | such an id is a non-negative int64 |
| Snowflake.Seed.Generate | utils/snowflake/snowflake.go:47-64 | reads the clock, spins past the stored millisecond when the step overflows, and does not reset the step then |
| Snowflake.NewSeed | utils/snowflake/snowflake.go:66-75 | refuses exactly the seeds outside 0..1023 |
| Snowflake.NextIncreases | utils/snowflake/snowflake.go:47-64 | one call gives a larger id than the one before, the overflow included |
| Snowflake.Decode | utils/snowflake/snowflake.go:10-17 | while the step fits its 12 bits, shift and mask give back timestamp, seed and step |
| Snowflake.IdsMeetIff | utils/snowflake/snowflake.go:62 | for any times, seeds and steps, two ids are equal iff their three digit groups are: milliseconds or-ed with what the step has beyond 22 digits, seed or-ed with its next ten, and its twelve low ones |
| Snowflake.SeedsMeetIff | utils/snowflake/snowflake.go:62 | for steps below 2^22: iff the milliseconds agree, the seeds or-ed with the steps' upper digits agree, and the steps' twelve low digits agree |
| Snowflake.AnySeedsMeet | utils/snowflake/snowflake.go:53-62 | so any two seeds have a common id in every millisecond, at steps below 2^22 |
| Snowflake.IdAlwaysFits | utils/snowflake/snowflake.go:62 | an id with any int64 step is a non-negative int64 |
| Snowflake.SeedsDisjoint | utils/snowflake/snowflake.go:62 | ids of different seeds never meet while steps fit |
| Snowflake.SeedsMeetOnOverflow | utils/snowflake/snowflake.go:53-57 | and the very first step that does not fit, of seed 0, meets seed 1, step 0 |
| Snowflake.IdsStrictlyIncrease | utils/snowflake/snowflake.go:47-64 | over every run with a non-decreasing clock whose steps stay below 2^22 until its last call, ids strictly increase, the overflow regime included |
| Snowflake.StepBound | utils/snowflake/snowflake.go:53-57 | each spin moves a millisecond on, so the step exceeds 4095 by no more than the milliseconds gone by |
| Snowflake.ShortRunsNeverRepeat | utils/snowflake/snowflake.go:47-64 | so while the clock shows 2^22 - 4095 milliseconds after that of a step that has not overflown, ids are distinct under any load |
| Snowflake.RepeatsAtTheBound | utils/snowflake/snowflake.go:53-62 | a step of 2^22 and the next millisecond's first step give the same id |
| Snowflake.LoadRepeatsAtTheBound | utils/snowflake/snowflake.go:47-64 | both bounds are exact: a run of a new generator asked without pause keeps its steps at most 2^22 and gives the same id twice, one millisecond after what ShortRunsNeverRepeat allows |
| Snowflake.BackwardClockRepeats | utils/snowflake/snowflake.go:50-61 | the clock must not run backwards: calls at t, t + 1 and t again give the first id twice |
| Connections.ConnectManager.KV | nets/connect.go:194-200 | a missing bucket is created and nothing else changes |
| Connections.ConnectManager.AddConnectInfo | nets/connect.go:102-116 | stores both ways, or refuses when the id or the connection is known |
| Connections.ConnectManager.RemoveConnectInfo | nets/connect.go:118-131 | deletes from the two maps independently |
| Connections.ConnectManager.GetConnectInfo | nets/connect.go:133-139 | finds what is stored for the id, and creates the bucket it misses |
| Connections.ConnectManager.GetNodeIdByConn | nets/connect.go:141-147 | on a valid table, finds an id iff the info stored for that id holds the connection |
| Connections.ConnectManager.GetNodes | nets/connect.go:181-192 | lists exactly the ids of the bucket, each once |
| Connections.AddKeeps | nets/connect.go:102-116 | Add keeps the table a bijection; a refused one leaves every connection as it was |
| Connections.RemoveKeepsIff | nets/connect.go:118-131 | Remove keeps the table a bijection iff the id and the connection belong together or both are absent |
| Connections.MutuallyInverse | nets/connect.go:133-147 | GetNodeIdByConn and GetConnectInfo are inverse; an id is in the bucket of its own name only |
| Connections.TcpNetWorker.OnConn | nets/tcp.go:184-192 | adds and reports the connection, or takes the error path |
| Connections.TcpNetWorker.OnClose | nets/tcp.go:200-204 | reports and removes |
| Connections.TcpNetWorker.OnError | nets/tcp.go:206-220 | closes a known connection; reports an unknown one unless it is an EOF; reports an error without a connection |
| Connections.TcpNetWorker.CloseNode | nets/connect.go:84-87 | closes what the table holds for the id |
| Connections.PhaseIsAlternation | nets/tcp.go:184-204 | the state kept per id is sound iff its events alternate, starting with a connect |
| Connections.ListenerSeesAlternation | nets/tcp.go:184-226 | over every run from the empty table: it is a bijection, OnConnect and OnClose of each id alternate starting with OnConnect, and the id is connected iff its last event is OnConnect |
| Connections.ReadErrorCloses | nets/tcp.go:206-210 | a failed read of a known connection, whatever the error, reports OnClose of its id and removes exactly the pair |
| Connections.ReadErrorOfUnknown | nets/tcp.go:211-219 | without a connection, or with an unknown one, the table stays and the error is reported, unless it is the EOF of an unknown connection |
| Connections.ConnectOutcome | nets/tcp.go:184-192 | a connection is stored both ways and reported iff neither it nor its id is known; otherwise it fares as after a failed read |
| Connections.CloseOutcome | nets/connect.go:84-87 | an explicit close reports and removes exactly what the id has, or does nothing |
| Connections.NameOfIs | ctx/node_info.go:69-72 | the name of an id is what stands before its '#' |
| Connections.CloseThenReadError | nets/tcp.go:206-226 | an explicit close followed by the read error it provokes gives one OnClose |
| Connections.StaleCloseBreaks | nets/connect.go:84-87 | with a stale lookup in between, Close breaks the bijection: the handlers must be atomic |
| Executors.Executor.Send | process/processor.go:48-51 | queues the task at the end, or waits while the channel is full or gone |
| Executors.Executor.Terminate | process/executor.go:45-50 | sets the flag and then sends the sentinel |
| Executors.Executor.Try | utils/errutil/errutil.go:81-102 | a panic is recovered and reported, and the loop goes on; only Goexit unwinds it |
| Executors.Executor.Boot | process/executor.go:21-36 | runs the queued tasks in order until the sentinel or a Goexit, and then closes the channel |
| Executors.Conservation | process/executor.go:21-50 | over every run, panicking tasks included: accepted = executed, then queued, then dropped on exit, in order; and exactly the panics of executed tasks are reported |
| Executors.ExitMeansAllRan | process/executor.go:21-36 | when boot exits and no task was nil or called Goexit, everything accepted has run exactly once, in order, panicking tasks included |
| Executors.NothingLostIff | process/executor.go:24-33 | a terminated executor runs all it holds iff no task is queued behind a nil or a Goexit |
| Executors.TerminateEnds | process/executor.go:45-50 | a Terminate that is through lets boot run all that was accepted, leave its loop and close the channel; one that waits for room has set the flag and nothing else |
| Executors.DrainRunsAll | process/executor.go:28-35 | otherwise, while no task calls Goexit, boot stays alive, runs every task and passes over a nil |
| Executors.ExitCloses | process/executor.go:23-35 | a task that calls Goexit ends boot even without a Terminate |
| Executors.NilTaskDropsNextTask | process/executor.go:24-33 | a nil task accepted ahead of another drops that one |
| Executors.TaskBehindSentinelIsDropped | process/executor.go:45-50 | without the atomicity of Execute and Terminate a task can get behind the sentinel: it is accepted and dropped, and all before it runs |
| Processors.Processor.Search | process/processor.go:52-60 | finds the first queue of minimal length below 999999, or else the first queue |
| Processors.Processor.Execute | process/processor.go:35-63 | refuses, runs in the caller, or adds the task to the one chosen queue and changes no other |
| Processors.Processor.Terminate | process/processor.go:65-76 | acts once: every executor gets flag and sentinel, up to one whose channel is full; each one that got both, and held ordinary tasks, ends when these have run |
| Processors.Processor.TaskLen | process/processor.go:82-91 | the sum of the queue lengths |
| Processors.ChosenIsUnique | process/processor.go:52-60 | the specification of the search determines its result |
| Processors.AcceptsStayBalanced | process/processor.go:52-62 | from any balanced queues, up to 999999 tasks per queue, accepts keep the longest and the shortest queue within one, and each adds exactly one task |
| Processors.BalancedIff | process/processor.go:52-62 | from empty queues, total queued equals total accepted, and m > 1 queues are within one of each other iff at most 999999 m + 1 tasks were accepted |
| Processors.ExecuteBalances | process/processor.go:35-63 | the same for every run of Execute calls on a new processor |
| Processors.SearchGivesUp | process/processor.go:53-60 | once every queue has got 999999 tasks, all further ones are in the first queue |
| Registry.Processes.SpawnM | process/process.go:27-35 | enters a processor under a fresh snowflake id |
| Registry.Processes.SpawnS | process/process.go:37-45 | enters a service under a fresh snowflake id |
| Registry.Processes.Terminate | process/service.go:43-54 | removes at most once; an unstarted service is never removed |
| Registry.Processes.CoroutineNum | process/process.go:105-119 | the sum over the table, in any iteration order |
| Registry.PidIsFresh | process/process.go:17-45 | a new pid differs from every pid ever given out |
| Registry.TerminateOnce | process/processor.go:65-76 | a second Terminate changes nothing |
| Registry.CountsAreExact | process/process.go:98-119 | over every run, ProcessNum is spawned minus ended and CoroutineNum the sum of live processors' executors and live services |
| Registry.SpawnCounts | process/process.go:17-45 | a processor adds one process and its executors, a service one process and one coroutine |
| Registry.TerminateCounts | process/process.go:91-119 | a processor, or a service that has been started, leaves with exactly these |
| Registry.UnstartedServiceStays | process/service.go:43-54 | the first Terminate leaves a process in the table iff it is a service that was never started; such a one stays there in every run, even if started or terminated again |
| StringCase.Snake | utils/stringutil/stringutil.go:10-25 | the loop computes the specified string |
| StringCase.Camel | utils/stringutil/stringutil.go:27-49 | the loop computes the specified string |
| StringCase.CamelUndoesSnake | utils/stringutil/stringutil.go:10-49 | for s that begins with a letter A-Z, Camel(Snake(s)) = s iff no underscore is directly followed by a letter a-z and no code point beyond ASCII has another lower-case form |
| StringCase.CamelUndoesSnakeIff | utils/stringutil/stringutil.go:10-49 | for any string of code points: iff those beyond ASCII are in lower case and it is underscores, a letter A-Z and such a rest, or has no letter A-Z or a-z |
| StringCase.SharedFileIff | peers/proc/meta_builder.go:47-51 | two type names have one generated file iff, with code points beyond ASCII in lower case, they fold to one name: first letter raised, and each later underscore before a letter a-z dropped and the letter raised |
| StringCase.MetaFilesDiffer | peers/proc/meta_builder.go:47-51 | so different names that come back from Snake and Camel have different files |
| StringCase.OthersCollide | peers/proc/meta_builder.go:38-51 | every name shares its file with its folded form, and if it begins with a letter A-Z or a-z, that is another name iff the name does not come back: names in lower case included |
| StringCase.UnderscoreCollides | peers/proc/meta_builder.go:38-51 | for example A_b and AB |
| StringCase.FoBSnake | utils/stringutil/stringutil.go:10-25 | FoB becomes fo_b |
| StringCase.FoBCamel | utils/stringutil/stringutil.go:27-49 | fo_b becomes FoB |
| Peers.SplitMethodParts | peers/peer.go:247-254 | a method name that is accepted is its two parts with one dot between, and neither part has one |
| Peers.SplitMethodExact | peers/peer.go:247-254 | and every name of that form is taken apart into those parts |
| Peers.GuestsAre | ctx/node_info.go:155-161 | a guest is a node whose id begins with !guest |
| Peers.Peer.BuildCall | peers/peer.go:183-199 | enters the call under a newly generated id |
| Peers.Peer.TakeoutCall | peers/peer.go:208-216 | returns and removes the entry if there is one |
| Peers.Peer.CheckTimeOut | peers/peer.go:218-239 | completes each expired call once, in some order, and removes exactly those, for any expiry test |
| Peers.Peer.Request | peers/peer.go:241-274 | fills the table first; then the name, the codec and the send can fail |
| Peers.Peer.CallWithDone | peers/peer.go:293-297 | a failed request runs done and leaves the entry |
| Peers.Peer.Response | peers/peer.go:304-334 | nothing for an event, one exchange back to the sender otherwise |
| Peers.Peer.DealExchange | peers/peer.go:87-181 | answers a request by the outcome of its checks and its handler; completes the call of a response, or ignores it |
| Peers.SweepIsReversed | peers/peer.go:225 | a call built at t with timeout T survives a sweep iff the sweep comes at t + T or later |
| RpcLaws.FreshNumber | peers/peer.go:187 | a call's number is above all that its node has issued, and not zero |
| RpcLaws.StepKeeps | peers/peer.go:87-334 | every step keeps the invariant: ids, table against completions, packets against what was asked and answered |
| RpcLaws.AtMostOnce | peers/peer.go:163-274 | on every run with loss, delay, reordering and duplication and any expiry test: a call whose request returned nil is completed exactly once iff it has left its table and never otherwise; a failed one with a Done once more |
| RpcLaws.CompletionIsRemoval | peers/peer.go:163-239 | in every step, completion by response or sweep is exactly the removal of the entry |
| RpcLaws.ResponseOnce | peers/peer.go:163-180 | a response completes and removes a pending call, and otherwise changes nothing |
| RpcLaws.LateResponseIgnored | peers/peer.go:163-180 | late and repeated responses change nothing but the bag |
| RpcLaws.FailedCallCompletesTwice | peers/peer.go:244-250 | a malformed method name and then a sweep: two completions of one call |
| RpcLaws.AnswersBelong | peers/peer.go:87-198 | on every run, a completion by response carries what handling that call's own request came to: the reason of a refusal, the handler's error, the error of decoding, or the handler's reply |
| RpcLaws.RefusedCallFails | peers/peer.go:89-92 | on every run, a call that is denied or whose method is not registered never gets a reply |
| RpcLaws.CompletionsSay | peers/peer.go:226 | on every run, the sweep tells that the time is over, and Call an error |
| RpcLaws.RequestOutcome | peers/peer.go:241-297 | what a request leaves in the table, sends, and tells Done, for a malformed name, a failure to send, and otherwise |
| RpcLaws.ResponseOutcome | peers/peer.go:163-180 | what a response tells the call that waits for it; one from the node itself is not decoded |
| RpcLaws.SweepOutcome | peers/peer.go:218-239 | a sweep takes out exactly the expired calls of its peer, for any expiry test |
| RpcLaws.DisposedIsDeaf | peers/peers.go:51-76 | a peer that has been disposed of takes in nothing any more |
| RpcLaws.AbsentIsDeaf | peers/peers.go:87-91 | to a peer that is not there nothing is delivered |
| RpcLaws.OneResponse | peers/peer.go:87-161 | a delivered request that wants an answer is answered by exactly one response unless its handler panics, its peer is gone or the send fails; events and responses by none; and the response says why the request was refused, or what the handler returned |
| RpcLaws.TrafficBound | peers/peer.go:87-334 | without duplication, n requests cause at most 2n deliveries beyond what was already in flight |
| RpcLaws.PacketNumberFits | peers/peer.go:187 | every number in flight in a reachable state is a non-negative int64 |
| RpcLaws.LostCallNeverTimesOut | peers/peer.go:218-239 | with the test as it stands, a call to which no response is delivered is completed by no sweep from its deadline on, whatever else happens |
| RpcLaws.EarlySweepCompletes | peers/peer.go:218-239 | and by any sweep of its peer before its deadline |

## Left out

- Executors.ExitMeansAllRan: assumes that `boot` has entered its loop before `terminate` runs, and that `Terminate` is atomic with respect to `Execute`; the code holds only a read lock in both, and TaskBehindSentinelIsDropped is what can happen then.
- Processors.Processor.Terminate: is modelled up to the first full channel; the waiting itself, and a channel of capacity 0, are not. The removal from the process table is `Registry.Processes.Terminate`; the two are not put together.
- Executors.Executor.Try: a custom error function that itself panics is not modelled.
- Executors.Executor.Send: channel hand-over without a buffer (capacity 0) is not modelled.
- Registry.Processes.Terminate: a processor whose channel is full waits before it leaves the table; here it leaves at once.
- Registry.CountsAreExact: assumes a sound clock whose ids stay in range; the lazily created process-wide seed is given from the start.
- StringCase.Snake: strings are valid UTF-8, as Go's type names are; `unicode.ToLower` beyond ASCII is a parameter, assumed to give neither A-Z nor an underscore and, in OthersCollide, to change nothing the second time.
- Snowflake.Seed.Generate: times before the epoch (2010) are taken as the epoch; the spin is modelled by the readings it uses.
- Parsers.Parser.ReadHash: float keys are compared by their bit pattern, where Go holds +0 and -0 equal and NaN unequal to itself.
- Parsers.Parser.ReadArray: a length that exhausts memory is not modelled.
- Buffers.Buffer.WriteObject: custom types and the unsupported-type branch (user callbacks; that branch dereferences a nil error) are not modelled.
- Peers.Peer.CheckTimeOut: Done runs under the peer's lock in the code; a Done that calls back into the peer would not return, and is not modelled.
- Peers.Peer.DealExchange: reflection, building and decoding of arguments and replies appear as their outcomes; logging is left out.
- RpcLaws.AtMostOnce: counts completions, not what `Invoke` does with its channel afterwards; a call by `Invoke` is one whose completion goes to a channel. A local call's exchange is in flight like any other, although the code hands it over at once or through the processor.
- `Invoke` without a reply object, which has no call to wait for and dereferences nil, is not modelled.
- RpcLaws.StepKeeps: this and every law over runs of the call protocol, AtMostOnce and AnswersBelong among them, assume, for each id that is generated, a clock that does not run backwards, a time after 2010 and within 2^41 milliseconds of it, and a step below 2^22; Snowflake.ShortRunsNeverRepeat and LoadRepeatsAtTheBound say what that asks of the load.
- RpcLaws.AnswersBelong: a node is known by one id at both ends; the renaming of guests is not modelled.
- Connections.TcpNetWorker.OnClose: closing the socket itself is not represented, nor is it in OnError.
- Connections.TcpNetWorker.CloseNode: terminating the connection's worker is not represented.
- Connections.ListenerSeesAlternation: assumes handler-atomic steps and listeners that do not call back.
- ReceiveLaws.LiveRefinesSplit: a run of reads is followed up to the first that does not end normally. After a panic the scheduler's errutil.Try recovers and the next read goes on with the buffer as the panic left it; AfterRead says what that one read then does.
- TcpReceive.TcpSocket.OnBytes: a failed `conn.Read` is the connection table's ReadError step, and so is the call of onError here; the handshake's own contents appear as its outcome.
- Real sockets, goroutine scheduling, real time: replaced by atomic steps and clock readings.
- The codecs of message bodies (gob, JSON), reflection on procs, yaml: bodies are bytes.
- `Ping`, `Pong`, `PingPong` and the fields they change: their start is commented out (nets/nets.go:52).
- WebSocket and KCP workers, http, clusters, board, log, plugins, pools, lists, time and net helpers: wrappers that would add only easy members.
- `GetNodeNameFromId` is modelled; the other parts of `ctx` are not.
