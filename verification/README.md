# Verification of the gateway's shared-memory transports

A Dafny 4.11 model of the inter-process part of the gateway: the shared-memory byte ring, the two
id-carrying protocols built on two rings (eventfd and Unix-socket notification), the polling
protocol, the latency histogram and the round-robin selectors. `dafny verify dfyconfig.toml` checks
the whole project.

## What is modelled

**The ring** (`LittleEndian`, `Fifo`, `Positions`, `RingModel`, `RingRuns`, `RingFidelity`, `RingBuffer`,
`RingInterleaving`, `RingLinearization`, `RingProgress`). `RingBuffer.SharedMemoryRingBuffer` is the object
`write` and `read` update in place: a byte array and two positions. Its methods are proved to compute `RingModel.Write` and `RingModel.Read`, and these are
proved to refine a queue of byte strings (`Fifo`) in which a record costs four bytes plus its payload out of
capacity - 1. The invariant is about bytes: the cells from the read position to the write position
spell out the queued records. The source stores the four-byte length prefix contiguously, without
wrapping, but loads it modulo the capacity; the model keeps this, with three slack cells past the
capacity. So a write refines the queue *exactly when* the prefix does not cross the end, or the first
cells already hold the bytes that should have been wrapped there (`PrefixLands`), and the length fits
a u32. With a capacity and payload lengths that are multiples of four the condition always holds.
`RingFidelity` shows the condition to be exact for whole runs: a run and all reading after it give the
queue's results iff every accepted write lands.
`RingInterleaving` lets one writer and one reader interleave between every load, every single byte
copied (in any order within a copy) and every publishing store; `RingLinearization` shows that every
such interleaving returns what one sequence of atomic queue operations returns, which is what lets the
protocol models treat a read or a write as one step. `RingProgress` shows that neither side ever waits for
the other: whatever one has left half done, the other completes a call alone with the queue's result.

**The id-carrying transports** (`Codec`, `Exchange`, `CallCore`, `CoreRuns`, `Eventfd`, `UdsNotify`,
`EventfdParties`, `UdsParties`, `RingBacked`, `EventfdBytes`, `UdsBytes`, `SerialCalls`, `Listeners`, with
`Repeats` for loops). `CallCore` holds what the two share: calls, the pending map, both rings as bounded
queues of real encoded bytes, the spawned tasks, the replies.
`Eventfd` and `UdsNotify` add the wake-up channels and the listeners' control state; every party moves one
step at a time in any order, tasks finish in any order, and signals may fail. `CoreRuns` proves that every
run of the shared core from the start is a run of `Exchange`, in which a request is asked under a fresh id
and answered at most once, for good, by its own echo; both transports are instances. `EventfdParties` and
`UdsParties` say what each party does by itself from every reachable state, whatever the others have left
half done: nobody waits for anybody else, and tasks can finish in every order.

`RingBacked`, `EventfdBytes` and `UdsBytes` are the same machines over two byte rings, every step decided by
what `RingModel`'s reads and writes answer. They mirror the machines over queues step by step *exactly while
every accepted write lands*, and only under that condition do the theorems about answers carry over to
them. Aligned requests always land. `SerialCalls` decides single calls exactly and exhibits short, unaligned
calls that stop the backend. `Listeners` has the source's loops as methods on ring objects, proved to
perform the machines' steps.

**Polling** (`Polling`, `PollingParties`, `PollingBytes`), **metrics** (`Histogram`, `Metrics`,
`HistogramScan`) and **round robin** (`RoundRobin`) are independent of those.

## How the source's terms are read

- Atomics are sequentially consistent. Each mutex-protected call is one writer or one reader at a time.
- An eventfd is a 64-bit counter as in eventfd(2), non-semaphore mode: reading returns and zeroes it,
  adding to a counter at 2^64 - 2 gives EAGAIN. Waiting is the atomic step "take a positive counter".
- Request ids are fresh: a call may only start under an id never used before (version 4 UUIDs, section
  5.4 of RFC 9562, make this overwhelmingly likely; the model assumes it).
- bincode 1.3 is modelled as its fixed-width little-endian layout; strings are their UTF-8 bytes. The
  polling transport's JSON is replaced by the same layout with an empty id.
- A read whose decoded length would leave the mapped cells counts as a failed read in the byte machines; it
  cannot happen with buffers no longer than the rings (`RingModel.ReadIsSafe`).
- Clock readings in responses are arbitrary values.
- f64 is real; `as u64` truncates and saturates; 64-bit counters wrap.
- Reading a response, removing its id from the pending map and sending into its channel are one step.
- History fields (`lost`, `reqMissed`, `respMissed`, `accepted`, `delivered`, `kept`, `handed`, `begun`,
  `summed`, `placed`, `over`, `start`, `end`) record what happened and influence no step.

## Findings

- A record whose prefix crosses the end of the data area is generally not read back:
  `RingRuns.CrossingPrefixCorrupts` is a run from a fresh header, `RingRuns.RecordRoundTrip` the exact
  condition for one record, `RingFidelity.PassesIffLanding` for whole runs.
- So short requests are not always answered. At the default 64 MiB, with every signal succeeding and one call
  at a time, 111662 calls of 597 bytes on the wire are answered and the next one stops the backend: neither
  it nor any later call is ever answered (`SerialCalls.ShortCallsStopTheBackend`). A call made at rest goes
  through and leaves the system at rest iff its request and its response land
  (`SerialCalls.CallGoesThroughIff`). With the default capacity requests whose wire length is a multiple of
  four always land (`EventfdBytes.AlignedCallsLand`, `UdsBytes.AlignedCallsLand`); under a 36-character id
  those are the ones whose message and payload lengths add up to a multiple of four
  (`RingBacked.UuidRequestsAligned`).
- `ShmConfig` advertises a maximum message size (shared-memory/src/lib.rs:37-47) that no code enforces.
  One call with a request longer than 65536 bytes stops the backend for good in both id-carrying
  transports (`Eventfd.LongRequestStopsBackend`, `UdsNotify.LongRequestStopsBackend`), and in eventfd mode
  one served call of 65529 to 65536 bytes silences the gateway (`Eventfd.LongResponseSilencesGateway`).
  While all writes land and no signal fails, everyone a ring has not refused is answered exactly when no
  such request is that long (`EventfdBytes.AnsweredIffShort`, `UdsBytes.AnsweredIffShort`).
- A failed write returns an error to the caller but leaves its entry in the pending map forever
  (`CallCore.FailedCallReturnsErr`, `CoreRuns.ReturnsAndLossesAreFinal`). A response refused by a full ring
  is worse for its caller: the call never returns, neither Ok nor an error (`CallCore.IdleWaits`).
- In polling mode a time-out hands the next caller the previous one's response, and two overlapping calls
  can each receive the other's (`Polling.TimeOutShiftsReplies`, `Polling.OverlapSwapsReplies`). An accepted
  call can rely on its own echo exactly when nothing was under way when it began
  (`Polling.OwnEchoForCallerIffPipeEmpty`), and all waiting callers can exactly when, besides, nobody else
  was polling (`Polling.OwnEchoIffUndisturbed`).
- Round robin is unfair around the counter's wrap exactly when the list length does not divide 2^64.

## Model

| member | source | states |
|---|---|---|
| LittleEndian.DecodeEncode | shared-memory/src/shm.rs:209-278 | storing a length as little-endian bytes and loading it back keeps it modulo 256^k, the truncation of `as u32` included |
| RingModel.SpaceAccounting | shared-memory/src/shm.rs:194-204 | both branches of the free-space computation equal capacity - 1 minus the cost of the queued records; a write is accepted iff it fits that budget; equal positions mean empty, never full |
| RingModel.WriteRefinesPut | shared-memory/src/shm.rs:185-253 | a write is accepted iff the record fits the budget; a rejected one changes nothing; an accepted one leaves the queue with the record appended iff the prefix lands and the length is a u32 |
| RingModel.ReadRefinesGet | shared-memory/src/shm.rs:255-319 | a read of a ring representing a queue returns and releases exactly the head, reports empty iff there is none and an error iff the head exceeds the buffer |
| RingModel.ReadIsSafe | shared-memory/src/shm.rs:280-312 | the unsafe copies of a read stay inside the mapped cells when the buffer is no longer than the ring, whatever length is decoded, or when the ring represents a queue, whatever the buffer |
| RingModel.WriteStoresPrefix | shared-memory/src/shm.rs:208-216 | the four cells the reader will gather hold the prefix bytes that fit before the end, then what the first cells held before |
| RingModel.WriteStoresPayload | shared-memory/src/shm.rs:218-246 | the payload ends up in the cells after the prefix, in order round the ring, in both the one-part and the two-part copy |
| RingModel.WriteKeepsOldCells | shared-memory/src/shm.rs:194-250 | an accepted write leaves every unread cell alone and grows the used space by four plus the length |
| RingModel.TinyRingsAcceptNothing | shared-memory/src/shm.rs:194-204 | a ring of at most four cells has no room for any record at any positions |
| RingBuffer.SharedMemoryRingBuffer.constructor | shared-memory/src/shm.rs:31-38 | a fresh header over arbitrary memory represents the empty queue |
| RingBuffer.SharedMemoryRingBuffer.CopyPayloadIn | shared-memory/src/shm.rs:218-246 | the in-place one- or two-part copy stores the payload round the ring and touches nothing else |
| RingBuffer.SharedMemoryRingBuffer.Write | shared-memory/src/shm.rs:185-253 | the in-place write produces the ring and the result of the write specification, which refines the queue |
| RingBuffer.SharedMemoryRingBuffer.GatherLength | shared-memory/src/shm.rs:268-278 | the byte-by-byte modular load yields the decoded length |
| RingBuffer.SharedMemoryRingBuffer.Read | shared-memory/src/shm.rs:255-319 | the in-place read produces the ring and the result of the read specification; the buffer gets the payload in front and keeps its rest |
| RingRuns.RunRefinesFifo | shared-memory/src/shm.rs:185-319 | over any run in which accepted writes land, every result and the final contents are those of the queue |
| RingRuns.AlignedRunIsFifo | shared-memory/src/shm.rs:201-316 | with capacity and payload lengths multiples of four every run is a run of the queue, with no condition on positions |
| RingRuns.BoundaryDecoding | shared-memory/src/shm.rs:209-278 | with k in 1..3 cells left at the write position the reader decodes the length modulo 256^k plus 256^k times the old first cells |
| RingRuns.RecordRoundTrip | shared-memory/src/shm.rs:209-312 | for any ring and any accepted record, reading it back yields it iff the prefix lands and the length is a u32 |
| RingRuns.CrossingPrefixCorrupts | shared-memory/src/shm.rs:209-285 | from a fresh header one record written and read leads to an empty ring that accepts a three-byte record and does not give it back |
| RingRuns.OversizedHeadIsStable | shared-memory/src/shm.rs:264-316 | once the head exceeds the buffer no run of writes and reads with it moves the read position or delivers anything, and all bytes still accepted fit the free space |
| RingRuns.LongHeadIsStuck | shared-memory/src/shm.rs:280-282 | a queue whose head is longer than the buffer is in that state |
| RingRuns.DecodedIsUnique | shared-memory/src/shm.rs:268-316 | parsing the bytes of memory alone gives back the represented queue, so a ring represents at most one |
| RingFidelity.PassesIffLanding | shared-memory/src/shm.rs:185-319 | the results of a run and of all reading after it are those of the queue iff every accepted write of the run lands |
| RingFidelity.PoisonShows | shared-memory/src/shm.rs:209-282 | a record whose prefix was garbled is brought to light by reading on, whatever writes and reads come in between |
| RingFidelity.PassesThroughIff | shared-memory/src/shm.rs:185-319 | one write into an empty ring and one read empty it again iff the record lands, and then the record was returned |
| RingInterleaving.StoreAvoidsUnreleased | shared-memory/src/shm.rs:191-246 | no byte the writer stores lies in an unreleased record, even with a stale read position |
| RingInterleaving.LoadStaysInPublished | shared-memory/src/shm.rs:261-312 | every byte the reader loads lies in the published, unreleased head record |
| RingInterleaving.RejectionIsExactAtTheLoad | shared-memory/src/shm.rs:191-204 | a write is rejected iff its record did not fit when the read position was loaded, whatever the ring looks like when the writer decides |
| RingInterleaving.EmptinessIsExactAtTheLoad | shared-memory/src/shm.rs:261-266 | a concurrent read reports empty iff the queue was empty when the write position was loaded, whatever is published before it decides |
| RingInterleaving.CheckSpaceKeepsInv | shared-memory/src/shm.rs:194-204 | the free space computed from a stale read position is at most the current one, so an accepted write has the room it needs |
| RingInterleaving.StoreByteKeepsInv | shared-memory/src/shm.rs:208-246 | each single stored byte keeps all published records readable and the copied part correct |
| RingInterleaving.PublishWriteKeepsInv | shared-memory/src/shm.rs:248-250 | publishing the write position turns the copied bytes into the last record of the queue |
| RingInterleaving.PublishReadKeepsInv | shared-memory/src/shm.rs:314-318 | publishing the read position delivers exactly the head and keeps what a writer in progress relies on |
| RingInterleaving.StepKeepsInv | shared-memory/src/shm.rs:185-319 | every atomic step of either side keeps the invariant when the prefix fits |
| RingInterleaving.InterleavingIsFifo | shared-memory/src/shm.rs:185-319 | under every interleaving whose writes start where the prefix fits, payloads delivered followed by the records decodable from memory are the payloads accepted |
| RingInterleaving.AlignedInterleavingIsFifo | shared-memory/src/shm.rs:185-319 | the same with no condition on positions when capacity and payload lengths are multiples of four |
| RingLinearization.EffectIsLegal | shared-memory/src/shm.rs:185-319 | each step takes effect as at most one queue operation with the result the queue gives for it, and a step without effect leaves the queue alone |
| RingLinearization.WriteEffectIsReturned | shared-memory/src/shm.rs:191-252 | what a write returns is what took effect: accepted ones when they publish, rejected ones when they load the read position |
| RingLinearization.ReadEffectIsReturned | shared-memory/src/shm.rs:261-318 | what a read returns is what took effect: deliveries when they publish, empty reports when they load the write position, refusals when they check the length |
| RingLinearization.InterleavingIsLinearizable | shared-memory/src/shm.rs:185-319 | every interleaving whose writes start where the prefix fits is explained by one legal sequence of atomic queue operations that leads to the final queue and gives each side, in order, the results its calls returned |
| RingProgress.ReaderNeverWaits | shared-memory/src/shm.rs:255-319 | whatever the writer has left half done, a read by itself returns what the queue holds at its head, with prefix and payload bytes loaded in any order, and leaves the writer and the memory alone |
| RingProgress.WriterNeverWaits | shared-memory/src/shm.rs:185-253 | whatever the reader has left half done, a write by itself returns what the queue would and appends the record if it fits, with its bytes stored in any order, and leaves the reader alone |
| RingProgress.SidesAreIndependent | shared-memory/src/shm.rs:186-256 | no step of one side enables or disables a step of the other |
| Codec.RequestRoundTrip | gateway/src/shm_transport_eventfd.rs:216-218 | decoding an encoded request, with any trailing bytes, returns its id and request |
| Codec.ResponseRoundTrip | backend/src/shm_server_eventfd.rs:170-178 | decoding an encoded response, with any trailing bytes, returns its id and response |
| Codec.ResponseLength | backend/src/shm_server_eventfd.rs:163-172 | a response is eight bytes longer than the request it echoes |
| Exchange.RunsAreSound | gateway/src/shm_transport_eventfd.rs:207-227 | in every run of the abstract exchange each id asked is outstanding or answered by its own echo, never both |
| Exchange.AnswersAreFinal | gateway/src/shm_transport_eventfd.rs:93-98 | an answer, once given, is never replaced or withdrawn |
| CallCore.PostRequestCorrelated | gateway/src/shm_transport_eventfd.rs:216-221 | a request record written to the ring decodes to the id and request of its call |
| CallCore.PostResponseCorrelated | backend/src/shm_server_eventfd.rs:163-183 | a response record written by a task decodes to the echo of the request its id belongs to |
| CallCore.FetchCorrelated | backend/src/shm_server_eventfd.rs:130-148 | reading a request spawns a task for the call whose id the record carries |
| CallCore.DeliverCorrelated | gateway/src/shm_transport_eventfd.rs:75-98 | a delivered reply is the echo of the request of the call it is sent to |
| CallCore.FetchPlaced | backend/src/shm_server_eventfd.rs:130-154 | taking a request removes exactly the head id of the request ring, appends it to the tasks and touches nothing else; a failed read changes nothing |
| CallCore.PostResponsePlaced | backend/src/shm_server_eventfd.rs:180-183 | finishing a task, in any order, takes its id out of the tasks once and appends it to the response ring, or to the lost if the ring has no room |
| CallCore.AnyOrderOfTasks | backend/src/shm_server_eventfd.rs:154-190 | with room for all responses there is, for every order of the running tasks, a way to finish that leaves their ids in the response ring in that order |
| CallCore.DeliverPlaced | gateway/src/shm_transport_eventfd.rs:93-98 | delivering takes the head id out of the response ring and of the pending map together and adds it to the answered; a failed read changes nothing |
| CallCore.OperationKeepsInv | gateway/src/shm_transport_eventfd.rs:207-227 | every operation keeps records, tasks and replies correlated, places unique and rings within budget |
| CallCore.OperationRefinesExchange | gateway/src/shm_transport_eventfd.rs:207-227 | every operation is a step of the abstract exchange |
| CallCore.OkIsOwnEcho | gateway/src/shm_transport_eventfd.rs:225-227 | a call that returns Ok returns the message and payload of its own request |
| CallCore.DeliveredIsReturned | gateway/src/shm_transport_eventfd.rs:84-98 | a waiting call returns exactly what the record delivered to it decodes to, time fields included |
| CallCore.ResultIsFinal | gateway/src/shm_transport_eventfd.rs:93-98 | what a call has returned never changes afterwards |
| CallCore.FailedCallReturnsErr | gateway/src/shm_transport_eventfd.rs:220-223 | a refused write or a failed signal makes the call return an error while its pending entry stays |
| CallCore.LostIsPending | gateway/src/shm_transport_eventfd.rs:210-221 | a lost id is in the pending map and never replied to |
| CallCore.ExactlyOnePlace | gateway/src/shm_transport_eventfd.rs:84-98 | a pending id is in exactly one of: caller, request ring, task, response ring, lost; an answered id in none |
| CallCore.HeadCount | gateway/src/shm_transport_eventfd.rs:210-214 | the number of pending entries is the sum of registered, queued, in-task and lost ones |
| CallCore.IdlePending | gateway/src/shm_transport_eventfd.rs:84-98 | with nobody about to write and no task running the pending map is the disjoint union of the ids left in the two rings and the lost |
| CallCore.IdleAnswered | gateway/src/shm_transport_eventfd.rs:207-227 | in an idle core everyone not lost has returned Ok iff nothing is left in the rings, and then no request was longer than the longest answerable one |
| CallCore.IdleWaits | backend/src/shm_server_eventfd.rs:180-187 | in an idle core a call is still waiting iff its request was written and notified and its id is left in a ring or lost, so a refused response leaves its call without any return |
| CallCore.RoomyKept | shared-memory/src/shm.rs:194-204 | with bounded records and a bounded number of pending calls neither ring ever refuses a record |
| CallCore.StuckRequestKept | backend/src/shm_server_uds.rs:66-84 | behind a request longer than the reader's buffer no operation of anyone adds a task |
| CallCore.StuckResponseKept | gateway/src/shm_transport_eventfd.rs:74-78 | behind a response longer than the reader's buffer no operation of anyone adds a reply or empties a pending entry |
| CoreRuns.RunRefinesExchange | gateway/src/shm_transport_eventfd.rs:63-227 | every run of the shared core is, seen abstractly, a run of the exchange |
| CoreRuns.ReturnsAndLossesAreFinal | gateway/src/shm_transport_eventfd.rs:207-227 | between any two points of a run a returned call keeps its result and a lost id keeps its pending entry |
| CoreRuns.RunsServeExchange | gateway/src/shm_transport_eventfd.rs:63-227 | a run from the empty core is a run of the exchange from its empty state, sound at all times, with final answers, and each Ok is the caller's own echo |
| Eventfd.TokensKept | backend/src/shm_server_eventfd.rs:126-136 | per direction the unread records equal counter plus remaining iterations plus writers yet to signal plus recorded misses, after every step |
| Eventfd.SignalNeverBlocks | gateway/src/shm_transport_eventfd.rs:169-178 | each counter stays below a quarter of the capacity, so EAGAIN cannot occur and treating it as success loses no wake-up |
| Eventfd.IterationFindsRecord | backend/src/shm_server_eventfd.rs:129-136 | a listener with iterations left never finds its ring empty |
| Eventfd.RecordsParse | backend/src/shm_server_eventfd.rs:138-148 | no record in either ring is empty or fails to parse |
| Eventfd.StepKeepsInv | backend/src/shm_server_eventfd.rs:111-192 | every step of every party keeps the invariant |
| Eventfd.ReachableStates | backend/src/shm_server_eventfd.rs:111-192 | in every reachable state tokens and records balance in both directions, counters stay below a quarter of the capacities so no signal can block, a listener in its count loop has a record before it, and every record parses |
| Eventfd.RunServesExchange | gateway/src/shm_transport_eventfd.rs:63-227 | over queues, every run from the start is a run of the exchange from its empty state, sound at all times, with final answers, and each Ok is the caller's own echo |
| Eventfd.ReturnsAndLossesAreFinal | gateway/src/shm_transport_eventfd.rs:207-227 | over every later run a returned call keeps its result and a lost id keeps its pending entry |
| Eventfd.StepsDecreaseMeasure | backend/src/shm_server_eventfd.rs:126-192 | with no new calls every step strictly decreases the work left |
| Eventfd.BusyRunsAreShort | backend/src/shm_server_eventfd.rs:126-192 | so a run without new calls has no more steps than the work it started with |
| Eventfd.RestIsReachable | backend/src/shm_server_eventfd.rs:126-192 | from every state the parties can come to rest without a new call or a failing signal |
| Eventfd.RestingState | gateway/src/shm_transport_eventfd.rs:68-105 | when nothing can move, each ring holds as many records as were missed, and the pending map is exactly the ids left in the rings and the lost ids, which are disjoint |
| Eventfd.UnreadableIsOversized | gateway/src/shm_transport_eventfd.rs:74-90 | a listener with iterations left whose read fails has an oversized head before it, never an empty ring or an empty record |
| Eventfd.AnsweredIffShort | gateway/src/shm_transport_eventfd.rs:63-227 | over queues, if no signal fails, then at rest every call no full ring refused has returned Ok iff every such request is at most 65528 bytes, iff the pending map is down to the refused ids |
| Eventfd.EveryoneIsAnswered | gateway/src/shm_transport_eventfd.rs:63-227 | over queues, with requests of at most 65528 bytes and no failed signal, at rest the pending map is exactly the ids a full ring refused, and a call has returned Ok, with its own echo, iff it is not one of them |
| Eventfd.LimitedRunsLoseNothing | shared-memory/src/shm.rs:194-204 | with a bound on pending calls that the capacities can hold, nothing is ever lost |
| Eventfd.ThousandCallersAreAllAnswered | shared-memory/src/lib.rs:43-51 | over queues of the default capacity with at most 1023 pending calls every call returns its own echo |
| Eventfd.AnswerableLength | gateway/src/shm_transport_eventfd.rs:69-78 | a request is readable by the backend and its response by the gateway iff it is at most 65528 bytes |
| Eventfd.CounterCapacity | gateway/src/shm_transport_eventfd.rs:160-178 | adding a token blocks exactly from 2^64 - 2 on |
| EventfdParties.CallerNeverWaits | gateway/src/shm_transport_eventfd.rs:207-223 | in every reachable state a call under a fresh id can start, write and signal: its record joins the ring and one token is added, or, without room, it returns an error at once; nothing else changes |
| EventfdParties.AnyTaskMayFinish | backend/src/shm_server_eventfd.rs:154-190 | any running task may finish next: it alone leaves the tasks and its response becomes the last of the ring if it fits, otherwise its id is lost; nothing else changes |
| EventfdParties.TasksFinishInAnyOrder | backend/src/shm_server_eventfd.rs:154-190 | with room for all responses the running tasks can finish in every order |
| EventfdParties.TaskSignalNeverWaits | backend/src/shm_server_eventfd.rs:185-187 | a task that has written its response can signal it at once, adding one token if the signal succeeds |
| EventfdParties.BackendNeverWaits | backend/src/shm_server_eventfd.rs:126-154 | a waiting backend takes the whole counter and spawns one task for each of as many records, in order, whatever others have left half done |
| EventfdParties.GatewayNeverWaits | gateway/src/shm_transport_eventfd.rs:68-99 | a waiting gateway takes the whole counter and hands as many responses, as they decode, to the calls they name |
| EventfdParties.WaitTakesTheCounter | backend/src/shm_server_eventfd.rs:87-110 | after a wait the counter is empty, and that listener cannot wait again before somebody signals |
| Eventfd.OversizedRequestStopsBackend | backend/src/shm_server_eventfd.rs:129-136 | once an oversized request heads its ring no later action of anyone spawns a task |
| Eventfd.LongRequestStopsBackend | backend/src/shm_server_eventfd.rs:129-136 | from the start, a call with a request above 65536 bytes has that effect: no task is ever spawned |
| Eventfd.OversizedResponseSilencesGateway | gateway/src/shm_transport_eventfd.rs:74-78 | once an oversized response heads its ring no later action of anyone delivers a reply or empties a pending entry |
| Eventfd.LongResponseSilencesGateway | gateway/src/shm_transport_eventfd.rs:74-78 | from the start, one served call with a request of 65529 to 65536 bytes has that effect: no call ever gets a reply |
| UdsNotify.EveryResponseIsReadable | gateway/src/shm_transport_uds.rs:46-67 | the gateway's larger buffer takes the response to every request the backend could read, so a drain ends only on an empty ring |
| UdsNotify.TokensKept | backend/src/shm_server_uds.rs:66-84 | in the request direction unread records equal bytes in flight, plus the byte held, plus writers yet to notify, plus recorded misses |
| UdsNotify.NoWakeUpIsLost | gateway/src/shm_transport_uds.rs:50-94 | while the gateway sleeps, bytes in flight plus tasks yet to notify plus failed notifications cover the unread responses, through surplus bytes and writes racing with the end of a drain |
| UdsNotify.StepKeepsInv | backend/src/shm_server_uds.rs:61-149 | every step of every party keeps the invariant |
| UdsNotify.ReachableStates | backend/src/shm_server_uds.rs:61-149 | in every reachable state bytes and requests balance, a sleeping gateway has a byte or a notifying task coming for every unread response, and a drain ends only on an empty ring |
| UdsNotify.RunServesExchange | gateway/src/shm_transport_uds.rs:132-165 | over queues, every run from the start is a run of the same exchange from its empty state, sound at all times, with final answers, and each Ok is the caller's own echo |
| UdsNotify.ReturnsAndLossesAreFinal | gateway/src/shm_transport_uds.rs:132-165 | over every later run a returned call keeps its result and a lost id keeps its pending entry |
| UdsNotify.StepsDecreaseMeasure | backend/src/shm_server_uds.rs:66-146 | with no new calls every step strictly decreases the work left |
| UdsNotify.BusyRunsAreShort | backend/src/shm_server_uds.rs:66-146 | so a run without new calls has no more steps than the work it started with |
| UdsNotify.RestIsReachable | backend/src/shm_server_uds.rs:66-146 | from every state the parties can come to rest without a new call or a failing notification |
| UdsNotify.RestingState | gateway/src/shm_transport_uds.rs:50-94 | when nothing can move, unread requests are as many as the missed ones, unread responses at most as many, and the pending map is exactly the ids left in the rings and the lost ids, which are disjoint |
| UdsNotify.AnsweredIffShort | gateway/src/shm_transport_uds.rs:132-165 | over queues, if no notification fails, then at rest every call no full ring refused has returned Ok iff every such request is at most 65536 bytes, iff the pending map is down to the refused ids |
| UdsNotify.EveryoneIsAnswered | gateway/src/shm_transport_uds.rs:132-165 | over queues, with requests of at most 65536 bytes and no failed notification, at rest the pending map is exactly the ids a full ring refused, and a call has returned Ok, with its own echo, iff it is not one of them |
| UdsNotify.LimitedRunsLoseNothing | shared-memory/src/shm.rs:194-204 | with a bound on pending calls that the capacities can hold, nothing is ever lost |
| UdsNotify.ThousandCallersAreAllAnswered | shared-memory/src/lib.rs:43-51 | over queues of the default capacity with at most 1023 pending calls every call returns its own echo |
| UdsNotify.ReadableLengths | backend/src/shm_server_uds.rs:56-75 | a request is readable by the backend iff it is at most 65536 bytes, and its response by the gateway iff it is at most 131064 |
| UdsParties.CallerNeverWaits | gateway/src/shm_transport_uds.rs:132-155 | in every reachable state a call under a fresh id can start, write and notify: its record joins the ring and one byte is sent, or, without room, it returns an error at once; nothing else changes |
| UdsParties.AnyTaskMayFinish | backend/src/shm_server_uds.rs:104-146 | any running task may finish next: it alone leaves the tasks and its response becomes the last of the ring if it fits, otherwise its id is lost; nothing else changes |
| UdsParties.TasksFinishInAnyOrder | backend/src/shm_server_uds.rs:104-146 | with room for all responses the running tasks can finish in every order |
| UdsParties.BackendNeverWaits | backend/src/shm_server_uds.rs:66-103 | a backend between bytes takes one byte and spawns the task of one record, or loses the byte on an unreadable record, whatever others have left half done |
| UdsParties.GatewayNeverWaits | gateway/src/shm_transport_uds.rs:50-94 | a sleeping gateway that gets one byte hands out everything in the ring, each response as it decodes to the call it names, and sleeps again |
| UdsNotify.OversizedRequestStopsBackend | backend/src/shm_server_uds.rs:66-84 | once an oversized request heads its ring no later action of anyone spawns a task |
| UdsNotify.LongRequestStopsBackend | backend/src/shm_server_uds.rs:66-84 | from the start, a call with a request above 65536 bytes has that effect: no task is ever spawned |
| RingBacked.OperationBacked | shared-memory/src/shm.rs:185-319 | on intact rings every operation gets the answer the queues would give, and leaves rings and queues in step iff the record it writes lands |
| RingBacked.AlignedOperationLands | shared-memory/src/shm.rs:201-250 | with aligned requests every record written lands and positions stay aligned, whatever the operation |
| RingBacked.UuidRequestsAligned | gateway/src/shm_transport_eventfd.rs:208-218 | with a 36-character id a request is aligned iff message and payload lengths add up to a multiple of four |
| EventfdBytes.StepBacked | gateway/src/shm_transport_eventfd.rs:63-227 | from intact rings each step over bytes is the step over queues iff the record it writes, if any, lands |
| EventfdBytes.MirrorsIffLanding | gateway/src/shm_transport_eventfd.rs:63-227 | a run over bytes holds at every point what the run over queues holds iff every accepted write lands |
| EventfdBytes.AlignedCallsLand | shared-memory/src/lib.rs:43-51 | on fresh rings of a capacity that is a multiple of four, aligned requests land on every run |
| EventfdBytes.RunServesExchange | gateway/src/shm_transport_eventfd.rs:63-227 | while writes land, every run over bytes from fresh rings is a run of the exchange, sound, with final answers and own echoes |
| EventfdBytes.AnsweredIffShort | gateway/src/shm_transport_eventfd.rs:63-227 | while writes land and no signal fails, at rest every call no full ring refused has returned Ok iff every such request is at most 65528 bytes |
| EventfdBytes.EveryoneIsAnswered | gateway/src/shm_transport_eventfd.rs:63-227 | while writes land, with requests of at most 65528 bytes and no failed signal, at rest a call has returned Ok, with its own echo, iff no full ring refused it |
| EventfdBytes.ThousandCallersAreAllAnswered | shared-memory/src/lib.rs:43-51 | over 64 MiB byte rings, with at most 1023 pending calls, aligned requests of at most 65528 bytes and no failed signal, every call returns its own echo |
| EventfdBytes.UnreadableHeadStopsBackend | backend/src/shm_server_eventfd.rs:129-136 | once the length decoded at the head of the request ring exceeds the buffer, no later action of anyone spawns a task |
| UdsBytes.StepBacked | gateway/src/shm_transport_uds.rs:44-165 | from intact rings each step over bytes is the step over queues iff the record it writes, if any, lands |
| UdsBytes.MirrorsIffLanding | gateway/src/shm_transport_uds.rs:44-165 | a run over bytes holds at every point what the run over queues holds iff every accepted write lands |
| UdsBytes.AlignedCallsLand | shared-memory/src/lib.rs:43-51 | on fresh rings of a capacity that is a multiple of four, aligned requests land on every run |
| UdsBytes.RunServesExchange | gateway/src/shm_transport_uds.rs:44-165 | while writes land, every run over bytes from fresh rings is a run of the exchange, sound, with final answers and own echoes |
| UdsBytes.AnsweredIffShort | gateway/src/shm_transport_uds.rs:44-165 | while writes land and no notification fails, at rest every call no full ring refused has returned Ok iff every such request is at most 65536 bytes |
| UdsBytes.EveryoneIsAnswered | gateway/src/shm_transport_uds.rs:44-165 | while writes land, with requests of at most 65536 bytes and no failed notification, at rest a call has returned Ok, with its own echo, iff no full ring refused it |
| UdsBytes.ThousandCallersAreAllAnswered | shared-memory/src/lib.rs:43-51 | over 64 MiB byte rings, with at most 1023 pending calls, aligned requests of at most 65536 bytes and no failed notification, every call returns its own echo |
| UdsBytes.UnreadableHeadStopsBackend | backend/src/shm_server_uds.rs:66-84 | once the length decoded at the head of the request ring exceeds the buffer, no later action of anyone spawns a task |
| SerialCalls.CallGoesThroughIff | gateway/src/shm_transport_eventfd.rs:207-227 | a short call made at rest, in which everyone does their part, returns its own echo and leaves the system at rest iff its request and its response land |
| SerialCalls.ShortCallsStopTheBackend | shared-memory/src/shm.rs:209-282 | from fresh 64 MiB rings 111662 serial calls of 597 bytes are answered and then the next one stops the transport: whatever anyone does, nobody is answered any more |
| Listeners.BackendListener.TakeRequest | backend/src/shm_server_eventfd.rs:130-154 | one turn on the ring object leaves ring and spawned tasks as the request-taking operation does |
| Listeners.BackendListener.RunIterations | backend/src/shm_server_eventfd.rs:129-191 | run alone, the count loop performs exactly that many steps of the state machine |
| Listeners.BackendListener.OnByte | backend/src/shm_server_uds.rs:66-103 | the reaction to one byte is the state machine's read step |
| Listeners.GatewayListener.TakeResponse | gateway/src/shm_transport_eventfd.rs:75-98 | one turn on the ring object leaves ring, pending map and replies as the delivering operation does |
| Listeners.GatewayListener.RunIterations | gateway/src/shm_transport_eventfd.rs:74-99 | run alone, the count loop with its early exits performs the state machine's steps and ends with no iterations left |
| Listeners.GatewayListener.Drain | gateway/src/shm_transport_uds.rs:62-89 | run alone, the drain loop terminates, counts what it took, and performs the state machine's drain to its end |
| Listeners.GatewayListener.Insert | gateway/src/shm_transport_eventfd.rs:210-214 | inserting a fresh id is the registering operation |
| Listeners.ServeOnce | backend/src/main.rs:305-343 | one turn of the polling server takes the head request and writes its echo as the ring specification does; the response ring then represents the response queue iff the ring had no room or the prefix lands |
| Polling.ServerPollKeepsInv | backend/src/main.rs:307-309 | the server takes requests in the order the ring accepted them |
| Polling.ServerReplyKeepsInv | backend/src/main.rs:321-334 | a response written back is the echo of the request in hand, next in order |
| Polling.PollKeepsInv | gateway/src/transport.rs:162-182 | a poll hands the oldest response to one caller, who receives no other |
| Polling.HandedOutInOrder | gateway/src/transport.rs:140-184 | over queues, on every run the responses handed out are in order echoes of the accepted requests whose response was written back, each to exactly one caller |
| Polling.UndisturbedCallsGetTheirOwnEcho | gateway/src/transport.rs:140-184 | over queues, when every call begins with nothing under way and nobody polling, every Ok is the echo of the caller's own request, time-outs or not |
| Polling.SerialRunsAreUndisturbed | gateway/src/transport.rs:140-184 | calls that do not overlap and never time out all begin that way |
| Polling.SerialCallsGetTheirOwnEcho | gateway/src/transport.rs:140-184 | over queues, when calls do not overlap and none times out, every Ok is the echo of the caller's own request |
| Polling.OwnEchoIffUndisturbed | gateway/src/transport.rs:140-184 | in every reachable state, for an accepted request distinguishable from those it meets: all later behaviours without further calls hand every waiting caller its own echo iff nothing was under way and nobody was polling when it began |
| Polling.OwnEchoForCallerIffPipeEmpty | gateway/src/transport.rs:140-184 | under the same assumptions, all later behaviours without further calls give the caller itself its own echo or none iff nothing was under way when it began, whoever else is polling |
| Polling.ServedCallReturns | gateway/src/transport.rs:140-184 | with nothing under way an accepted call that is served and polls in time returns its own echo and leaves nothing under way |
| PollingParties.CallerNeverWaits | gateway/src/transport.rs:146-150 | a call may begin whatever else is under way; it joins the ring and waits, or, without room, has returned an error for good and changed nothing else |
| PollingParties.TimedOutIsErr | gateway/src/transport.rs:157-160 | any waiting call may time out and has then returned an error for good; nothing else changes |
| PollingParties.OnlyAcceptedCallsAreServed | gateway/src/transport.rs:140-184 | on every run the calls that wait or have returned Ok are at most as many as the accepted requests, and each one's request is among those |
| PollingParties.ServerNeverWaits | backend/src/main.rs:305-343 | an idle server takes the oldest readable request and appends its echo, or drops it without room, whatever callers are doing |
| PollingParties.AnyCallMayPoll | gateway/src/transport.rs:162-182 | any waiting call may poll next: it takes the oldest response exactly as it decodes, or goes on waiting if none is readable |
| PollingParties.ReadableLengths | backend/src/main.rs:305-309 | a request can be served iff it is at most 65536 bytes, and its echo taken iff it is at most 65528 |
| Polling.TimeOutShiftsReplies | gateway/src/transport.rs:157-160 | for any two requests and any capacities with room, a run with one time-out hands the second caller the first one's echo |
| Polling.OverlapSwapsReplies | gateway/src/transport.rs:146-182 | for any two requests and any capacities with room, a run of two overlapping calls without time-outs hands each caller the other's echo |
| PollingBytes.StepBacked | backend/src/main.rs:305-343 | from intact rings each step of the polling transport over bytes is the step over queues iff the record it writes, if any, lands |
| PollingBytes.MirrorsIffLanding | gateway/src/transport.rs:140-184 | a run over bytes holds at every point what the run over queues holds iff every accepted write lands |
| PollingBytes.HandedOutInOrder | gateway/src/transport.rs:140-184 | while writes land, the responses handed out over byte rings are in order echoes of the accepted requests written back, each to exactly one caller |
| PollingBytes.UndisturbedCallsGetTheirOwnEcho | gateway/src/transport.rs:140-184 | while writes land and every call begins with both byte rings empty, the server idle and nobody polling, every Ok is the caller's own echo |
| Histogram.BoundsDouble | gateway/src/metrics.rs:21-30 | the bounds start at the first one, double while below ten seconds and end at or above it |
| Histogram.PrefixCountsUpToBound | gateway/src/metrics.rs:46-51 | the first i + 1 buckets together hold exactly the observations up to bound i |
| Histogram.ScanReaches | gateway/src/metrics.rs:61-69 | the scan stops at the first bucket whose cumulative count reaches the target |
| Histogram.RankIsCount | gateway/src/metrics.rs:60-69 | the k-th smallest observation is at most x iff at least k observations are |
| Histogram.TargetWithinTotal | gateway/src/metrics.rs:60-60 | for p in 0..100 the target is floor(total * p / 100) and at most the total |
| Histogram.PercentileIsLeastBound | gateway/src/metrics.rs:54-72 | `percentile` returns the least bound not below the target-th smallest observation, or the last bound if that exceeds them all |
| Histogram.PercentileWithinFactorTwo | gateway/src/metrics.rs:21-72 | above the first bound and within the last the answer is at least the observation and less than twice it |
| Histogram.PercentileMonotone | gateway/src/metrics.rs:54-92 | a higher percentile is never answered with a lower bound |
| Histogram.PercentileAtTheEdges | gateway/src/metrics.rs:54-72 | nothing observed answers 0, a target below one observation the first bound, a target beyond all observations the last |
| Histogram.MeanOfNothing | gateway/src/metrics.rs:94-98 | with nothing counted the mean is 0 |
| Histogram.MeanError | gateway/src/metrics.rs:42-101 | the mean is at most the true average and less than one nanosecond below it |
| Metrics.LatencyHistogram.constructor | gateway/src/metrics.rs:21-40 | a new histogram is valid and empty, its bounds start at one microsecond, and exactly the last one reaches ten seconds |
| Metrics.LatencyHistogram.CountInBucket | gateway/src/metrics.rs:46-51 | the loop adds one to the first bucket whose bound is not below the latency, and to no other |
| Metrics.LatencyHistogram.Observe | gateway/src/metrics.rs:42-52 | observing keeps total, sum and buckets equal, modulo 2^64, to those of the observations so far |
| Metrics.LatencyHistogram.Percentile | gateway/src/metrics.rs:54-72 | the loop answers as the scan does; below 2^64 observations that is the answer for the observations themselves |
| Metrics.LatencyHistogram.MeanLatency | gateway/src/metrics.rs:94-101 | for observations summing to less than 2^64 nanoseconds the result is within one nanosecond below the average |
| HistogramScan.StepKeepsInv | gateway/src/metrics.rs:42-72 | with observers and a scan interleaved, every observation is about to be summed, about to be placed or placed, the three counters hold modulo 2^64 what reached them, each bucket counting the observations that belong in it, and the scan's running sum stays between start and current counts |
| HistogramScan.ObservationsAreCounted | gateway/src/metrics.rs:42-52 | on every run below 2^64 observations the first i + 1 buckets hold exactly the placed observations up to bound i, total equals buckets plus overflow plus observers under way, and with none under way buckets and sum are those of all latencies observed |
| HistogramScan.PercentileSandwich | gateway/src/metrics.rs:54-72 | while fewer than 2^64 observers have begun, the answer of a scan lies between the answers for its target on the buckets at its end and at its start |
| HistogramScan.ScansAreSandwiched | gateway/src/metrics.rs:54-72 | on every run from a new histogram a scan works for floor(n * p / 100), p being the percentile last asked for and n the observers begun by then, and a finished one answered between what percentile answers for p and n on the buckets at its end and on those when it was asked |
| HistogramScan.ObserverNeverWaits | gateway/src/metrics.rs:42-52 | an observer completes its three updates whatever others have left half done and whatever a scan is doing, and touches nothing else |
| HistogramScan.AnyObserverMayGoNext | gateway/src/metrics.rs:42-52 | observers need not keep their order at any of their updates |
| HistogramScan.ScanNeverWaits | gateway/src/metrics.rs:54-72 | a percentile can be asked whenever no scan is under way; alone it answers as the sequential percentile and changes no counter, and with nothing observed there is nothing to scan |
| RoundRobin.ConnectionPool.Get | gateway/src/transport.rs:227-231 | a call returns the entry its ticket selects and draws one ticket, with the counter wrapping at 2^64 |
| RoundRobin.WindowsAreFair | gateway/src/transport.rs:248-252 | in any window of tickets that does not cross the wrap two entries' selection counts differ by at most one |
| RoundRobin.WrapIsUnfair | gateway/src/transport.rs:227-231 | if the length does not divide 2^64 a window across the wrap selects one entry twice and another never |
| RoundRobin.FairForeverIffDividing | gateway/src/transport.rs:227-231 | selection is fair on every window iff the length divides 2^64 |

## Left out

- RingBuffer.SharedMemoryRingBuffer.Read: requires that the unsafe copies stay inside the mapped cells; any buffer no longer than the ring, or any ring that represents a queue, ensures it (`RingModel.ReadIsSafe`). What a corrupted length does beyond the mapping has no defined meaning.
- RingBuffer.SharedMemoryRingBuffer.constructor: requires a capacity above four; a smaller ring never accepts a record (`RingModel.TinyRingsAcceptNothing`).
- RingInterleaving.InterleavingIsFifo: one writer and one reader at a time, as the two mutexes enforce within a process; weak-memory effects are not modelled.
- RingProgress.WriterNeverWaits: for writes that fit only where the prefix does not cross the end, as elsewhere in the interleaved model.
- HistogramScan.PercentileSandwich: one scan at a time (scans only read); counters wrap, so it speaks of scans before the 2^64th observation.
- Polling.OwnEchoIffUndisturbed, Polling.OwnEchoForCallerIffPipeEmpty: suppose that the new request differs, in message or payload, from the one first in line and from those of waiting callers, and that neither it nor the first in line is too long to be answered; between equal requests a swap cannot be seen, and nothing passes a record that cannot be read.
- Eventfd.AnsweredIffShort, UdsNotify.AnsweredIffShort and the other theorems over queues: they speak of byte rings only while every accepted write lands, as `EventfdBytes`, `UdsBytes` and `PollingBytes` state; what callers see after a record that did not land is decided only for the ring itself, for calls made at rest and for the run of `SerialCalls`.
- PollingBytes: no alignment condition, since JSON lengths are not modelled.
- SerialCalls.ShortCallsStopTheBackend: for the eventfd machine only; the socket machine writes and reads its request ring in the same way.
- Listeners.BackendListener.RunIterations: the loops run alone here; their interleaving with other parties is the subject of the state machines, which work on values because several processes share their state.
- Listeners.ServeOnce: one turn of an endless loop; the sleep between read and write is not modelled there.
- The checking that strings are valid UTF-8 when decoding, and JSON itself.
- Errors from waiting on an eventfd or reading the notification socket, which end a listener; flushing the socket after a byte is written.
- Cancelled call futures and process crashes: calls run to an Ok or Err return.
- `create`, `open`, mmap, passing descriptors over the control socket and the retry loops around them: operating-system calls.
- TCP and socket gRPC transports, HTTP, command lines, Prometheus text, connection metrics, `compute`: plumbing or floating point without a contract.
- `LoadBalancer` repeats `ConnectionPool` over strings; `p50` to `p999` are `percentile` at fixed arguments.
