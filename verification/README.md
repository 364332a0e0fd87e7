# Legion automation and event layer: a Dafny model

Legion runs agents on schedules, in dependency flows and behind chat channels. This project models
the parts of it that are state machines, graph algorithms and codecs, and proves what every input,
every interleaving and every whole run of them gives:

- **Task flows** (`Flow`, `FlowSpec`, `FlowRunner`, `FlowTheorems`): a dependency graph is run layer by
  layer, with the steps of a layer starting and finishing in any order. `FlowRunner` is the imperative
  runner, with the next future chosen nondeterministically; `FlowSpec` says what a run computes
  without any order; `FlowTheorems` proves what that is, for the loop guard as written and for the
  one the `Continue` policy is documented to have.
- **Background tasks** (`Tasks`, `TaskRunner`, `TaskTheorems`, `TaskDuplicates`): the ledger and any number
  of `process_pending` passes over it, also over a ledger in which records share an id. Flows and tasks share the graph theory in `DependencyGraph`
  (rounds of settled nodes against paths and cycles) and the run loops in `Harness`.
- **Lark frames** (`Bits`, `Varint`, `LarkCodec`, `LarkCodecLoops`, `Utf8`): the hand-written `pbbp2.Frame` codec
  over bytes, after the Protocol Buffers Encoding guide ("Base 128 Varints", "Length-Delimited
  Records", "Last One Wins"). Shifts and masks are defined bit by bit on numbers and related to
  arithmetic by lemmas.
- **Lark delivery** (`LarkDelivery`): deduper, staleness guard, forwarding and acknowledgement over runs
  that span reconnects.
- **Event bus** (`EventBus`, `EventBusTheorems`): every lock section is one atomic step, `subscribe` two of
  them, and all interleavings with receivers draining and disappearing are covered.
- **Cron** (`CronStore`, `CronJobs`, `CronProtocol`, `CronLoop`, `CronOverlap`, `CronTick`): the store and its
  file with crash points; the scheduler as interleaved actors, over whole runs in which ticks do not
  overlap, as with the single `cron_loop`, and over runs in which they do; and one tick on the
  scheduler's own state, proved to be a run of that protocol.
- **Small protocols** (`Telegram`, `BotLoopGuard`): the polling offset against a server, and the reply
  window of the loop guard under interleaved callers.

Classes and loops model the code that changes state in place; each method is tied to a function of the
old state, and the theorems are about those functions. The agent runtime is an oracle: a run is refused
or is a finite stream of events. Clock readings, the results of file operations, payload parsing, the
session-key parser and the cron crate's schedule are parameters.
`dafny verify dfyconfig.toml` checks everything.

## Where the code and its own words differ

The model follows the code.

- `crates/legion-core/src/config.rs:315-317` promises that under `Continue` unrelated branches keep running,
  and the branch at `crates/legion-automation/src/flow.rs:146-150` is written for that; the loop guard at line 90
  leaves after the first failing layer under either policy, and lines 163-166 report the steps that never
  started as completed. `PhantomCompletion` is such a flow, `HonestIff` says exactly when the report is
  right, `IntendedContinue` proves what the guard `!aborted` alone would give.
- `crates/legion-automation/src/cron.rs:502-522` and `task_runner.rs:183-199` record a run whose error event
  has no message as a success, while `flow.rs:217` records a failure. `SilentErrorRecordedAsSuccess` is
  the exact condition.
- `crates/legion-automation/src/cron.rs:551-558` accepts a one-shot up to a minute late; lines 79-81 then give
  it no next run. `CreatedOneShot` and `SuchJobsNeverFire` say that such a job is stored and never fires.
- `crates/legion-automation/src/cron.rs:438-440` releases a one-shot before it removes it. It is executed
  at most once if ticks do not overlap (`FiresInOrder`), which the single `cron_loop` guarantees
  (`SingleLoopIsSerial`). With overlapping ticks every execution of a removed one-shot comes from a snapshot
  older than the removal (`SnapshotPrecedesRemoval`), and any two ticks that hold a due one-shot can
  both go on to execute it (`BothCanExecute`, with `OverlappingTicksRunAgain` as a run from the start).
- `crates/legion-automation/src/tasks.rs:214-218` stores a record whose id is taken, and lines 220-228 update
  only the first with the id. A record behind another one with its id is executed again in every pass
  that finds its dependencies completed (`ExecutedTwiceIff`, `TwinRunsInEveryPass`).
- `crates/legion-channel/src/lark.rs:1024-1027` says a duplicate is never forwarded. It is, exactly when the
  inbound channel is open, its time is not stale at that delivery, because it does not parse or lies at
  most two minutes back or ahead, and the id was last put to the deduper at least a day before
  (`DuplicateForwardedIff`, `FreshTimes`, `ForwardedTwice`).
- `crates/legion-channel/src/telegram.rs:244-257` moves the offset only past updates with a message. The
  poller stalls for good exactly when the batch it is due is full and brings no message, or its inbound
  channel is closed (`StalledIff`).
- `crates/legion-channel/src/access.rs:137-141` promises at most `max_replies` replies per window. Its caller
  checks at `crates/legion-host/src/channel_inbound.rs:102` and records at line 293 of a run spawned in
  between, so several messages of a peer can have passed the check before any reply is recorded. With at
  most `n` of them outstanding the least bound is `max_replies + n - 1` (`BoundHoldsIff`; a zero limit
  counts as one, because a peer without a queue is let through), so the promise holds exactly for
  `n == 1` and a limit of at least one (`LimitHoldsIff`). The caller sets no such `n`, and then no bound
  holds (`NothingHoldsUnlimited`).

## Model

| member | source | states |
|---|---|---|
| DependencyGraph.EventuallyIff | crates/legion-automation/src/flow.rs:90-119 | a node is finished once rounds stop changing anything if and only if everything upstream of it, itself included, exists, succeeds and lies on no cycle |
| DependencyGraph.SettledIffChains | crates/legion-automation/src/task_runner.rs:95-134 | the round in which a node of a closed graph finishes is the length of its longest dependency chain |
| DependencyGraph.AcyclicIffAllSettle | crates/legion-automation/src/flow.rs:102-119 | in a closed graph nothing is left over exactly when there is no cycle |
| DependencyGraph.AllSettleIff | crates/legion-automation/src/flow.rs:90-119 | every node of a closed graph is finished in the end if and only if all succeed and there is no cycle |
| Harness.DriveFlowStep | crates/legion-automation/src/flow.rs:208-227 | a flow step succeeds exactly when its run is accepted and its stream has no error event; otherwise the error is the refusal, or the text of the first error event, or the default text |
| Harness.DriveLedgerRun | crates/legion-automation/src/cron.rs:502-522 | a cron job or task fails exactly when its run is refused or its first error event carries a message, and with that text |
| Harness.SilentErrorRecordedAsSuccess | crates/legion-automation/src/task_runner.rs:183-199 | the two loops disagree on failure if and only if the first error event of the stream has no message |
| Flow.ValidateFlow | crates/legion-automation/src/flow.rs:235-253 | no reason is given exactly when step names are unique and every dependency names a step |
| Flow.TransitiveDependents | crates/legion-automation/src/flow.rs:257-277 | the in-place fixpoint ends and returns exactly the names other than the failed one that reach it through one or more edges, on cyclic lists too |
| FlowSpec.LayerShrinks | crates/legion-automation/src/flow.rs:90-154 | every layer strictly shrinks the set of steps without a status, for every outcome of its steps |
| FlowSpec.LayerKeepsStatuses | crates/legion-automation/src/flow.rs:127-151 | a layer never changes a status recorded before it |
| FlowRunner.RecordStatus | crates/legion-automation/src/flow.rs:127-151 | recording one finished step, with the policy's skips, takes the statuses of the layer with `done` finished to those with one more, whatever the order so far |
| FlowRunner.RecordFlags | crates/legion-automation/src/flow.rs:131-145 | errors and the failed and aborted flags are those of the set of finished steps, whatever their order |
| FlowRunner.DrainLayer | crates/legion-automation/src/flow.rs:121-154 | for every order of starts and completions the drained layer ends in the state determined by the set of its steps, and the trace stays orderly |
| FlowRunner.SkipBlocked | crates/legion-automation/src/flow.rs:102-119 | with nothing ready, the remaining steps become skipped and fail the flow; with none remaining nothing changes |
| FlowRunner.RunFlow | crates/legion-automation/src/flow.rs:70-183 | confluence, for the guard as written and the intended one: for every start and completion order the report and the set of steps that ran are those of the order-free specification; the report names the flow and every step in order, is completed exactly when the flow validates, is acyclic and no step fails, and gives each step its own outcome and error if it ran; steps start only after each dependency finished successfully, and everything started has finished |
| FlowRunner.RunsAtMostOnce | crates/legion-automation/src/flow.rs:121-126 | in every trace a run can leave, no step starts or finishes twice |
| FlowTheorems.LayerAdvances | crates/legion-automation/src/flow.rs:90-155 | the state after `k` layers has a closed form in the dependency graph, and one more layer leads to the next |
| FlowTheorems.RunEnds | crates/legion-automation/src/flow.rs:89-155 | every run of a valid flow ends in such a state, stopped by the guard, or with everything that can succeed done and the rest skipped |
| FlowTheorems.CompletesIff | crates/legion-automation/src/flow.rs:158-174 | with either guard a flow completes if and only if it validates, is acyclic and every step's run succeeds; then every step ran and is recorded completed |
| FlowTheorems.OutcomeRecorded | crates/legion-automation/src/flow.rs:127-135 | a step that ran has its own outcome recorded, and an error is recorded exactly for those that ran and failed |
| FlowTheorems.UnstartedReported | crates/legion-automation/src/flow.rs:163-166 | a step that never ran is reported skipped, except those the guard as written reports completed, exactly described |
| FlowTheorems.ReportTells | crates/legion-automation/src/flow.rs:157-182 | status, flow id and every outcome of the report, by what ran and how it ended |
| FlowTheorems.FailureFreeRunEnds | crates/legion-automation/src/flow.rs:102-119 | without a failing step the run completes exactly the steps no cycle holds up and skips the rest |
| FlowTheorems.FailingRunReports | crates/legion-automation/src/flow.rs:90-169 | with a failure first at depth `k`, exactly the steps at most that deep ran and report their own outcome; deeper ones are skipped under `Abort` or if they depend on a failed step, and reported completed otherwise |
| FlowTheorems.HonestIff | crates/legion-automation/src/flow.rs:158-169 | every step reported completed really ran if and only if the flow is rejected, the policy is `Abort`, or all steps deeper than the first failure depend on a step that failed there |
| FlowTheorems.IntendedContinue | crates/legion-core/src/config.rs:315-317 | with the guard `!aborted` alone, `Continue` runs exactly the steps not downstream of a failure or a cycle and reports each as what happened to it |
| FlowTheorems.ContinueSkipsExactly | crates/legion-automation/src/flow.rs:146-150 | under `Continue`, with either guard, dependents of failed steps are skipped, skipped steps that no cycle blocks are such dependents, and none of them ever started |
| FlowTheorems.PhantomCompletion | crates/legion-automation/src/flow.rs:90-166 | a concrete flow in which a step that never ran is reported completed, and which the intended guard would run |
| Tasks.JsonlTaskStore.Create | crates/legion-automation/src/tasks.rs:214-218 | the record is appended in memory even if saving fails |
| Tasks.JsonlTaskStore.Update | crates/legion-automation/src/tasks.rs:220-228 | only the first record with the id is replaced, even if saving fails; an unknown id changes nothing |
| Tasks.JsonlTaskStore.ListPending | crates/legion-automation/src/tasks.rs:242-251 | exactly the pending records as a stable sort by creation: ordered, and for every creation time the same records, as often and in ledger order |
| TaskRunner.Execute | crates/legion-automation/src/task_runner.rs:158-204 | the record left behind and the result, by the saves and the events of the run: running exactly if the first save fails, else failed with the text of the refusal or of the first error event that has one, else completed; the run id exactly if the run was accepted |
| TaskRunner.ExecutedIs | crates/legion-automation/src/task_runner.rs:158-204 | the same of the record that the passes work with |
| TaskRunner.ProcessOne | crates/legion-automation/src/task_runner.rs:109-132 | one pending task is failed, left waiting or executed according to the ids and completions at the start of the pass, on the first record with its id |
| TaskRunner.ProcessPending | crates/legion-automation/src/task_runner.rs:85-135 | one pass over any ledger: the pending tasks are dealt with in order of age by the ids and completions at its start, each update reaching the first record with the id, with one result per pending task |
| TaskRunner.UniqueLedgerPass | crates/legion-automation/src/task_runner.rs:85-135 | with unique ids every record becomes what the statuses at the start of the pass determine, in whatever order pending tasks come |
| TaskRunner.AdvanceIs | crates/legion-automation/src/task_runner.rs:109-132 | a pending task is failed if a dependency has no record, left waiting if one has no completed record, and executed otherwise, with the result that says so |
| TaskRunner.AfterPass | crates/legion-automation/src/task_runner.rs:85-135 | one pass over unique ids, record by record, in those terms; no other record changes |
| TaskTheorems.RecordsSettle | crates/legion-automation/src/task_runner.rs:85-135 | for a ledger of unique ids, over any number of passes ids and dependencies stay, and a record that has left pending never changes again |
| TaskTheorems.ExecutedAtMostOnce | crates/legion-automation/src/task_runner.rs:95-134 | for a ledger of unique ids, however runs and saves turn out, a task is executed in at most one pass, with each dependency completed then and forever after |
| TaskDuplicates.UniqueLedgerPasses | crates/legion-automation/src/task_runner.rs:85-135 | with unique ids any number of passes of the runner are the passes those theorems speak of |
| TaskDuplicates.ShadowedStays | crates/legion-automation/src/tasks.rs:220-228 | a record behind another one with its id is never changed by any pass |
| TaskDuplicates.ExecutedTwiceIff | crates/legion-automation/src/task_runner.rs:85-135 | for every ledger and run: a record is executed in two passes if and only if it is pending behind another record with its id and its dependencies have completed before both |
| TaskDuplicates.RunsAtMostOnceIff | crates/legion-automation/src/task_runner.rs:85-135 | the first record with an id is executed at most once in every run, and a pending record without dependencies only then |
| TaskDuplicates.TwinRunsInEveryPass | crates/legion-automation/src/tasks.rs:214-228 | of two pending records with one id the second is executed in every pass |
| TaskTheorems.PassIsRound | crates/legion-automation/src/task_runner.rs:95-134 | a pass completes exactly the pending tasks that succeed and whose dependencies had completed |
| TaskTheorems.OneFateEach | crates/legion-automation/src/task_runner.rs:158-204 | a run whose outcomes change from pass to pass is the run in which each task has one fixed outcome |
| TaskTheorems.PendingForeverIff | crates/legion-automation/src/task_runner.rs:109-132 | a pending task whose dependencies exist stays pending forever if and only if its dependency chains reach a task that is missing, cannot complete, or lies on a cycle |
| TaskTheorems.StuckIff | crates/legion-automation/src/task_runner.rs:109-132 | the same for outcomes that change from pass to pass |
| TaskTheorems.PassExecutesLayer | crates/legion-automation/src/task_runner.rs:85-135 | from unique pending tasks with acyclic existing dependencies and successful runs, each pass executes exactly the tasks whose longest chain has its number |
| TaskTheorems.AllCompleteIff | crates/legion-automation/src/task_runner.rs:85-135 | all have completed after `n` passes if and only if no dependency chain is longer than `n` |
| TaskTheorems.LayersInEveryRun | crates/legion-automation/src/task_runner.rs:85-135 | both layering results when outcomes may change from pass to pass |
| Varint.EncodeVarint | crates/legion-channel/src/lark.rs:396-406 | the mask-and-shift loop appends the base-128 digits of the value |
| Varint.DecodeVarint | crates/legion-channel/src/lark.rs:446-461 | the shift-and-or loop reads exactly the base-128 digit sum, stays in range, advances, and fails exactly on truncated or over-long input |
| Varint.JoinDigit | crates/legion-channel/src/lark.rs:452 | or-ing a masked, shifted byte adds its digit, with the top position keeping one bit |
| Varint.VarintRoundTrip | crates/legion-channel/src/lark.rs:396-461 | every 64-bit value reads back, whatever bytes follow |
| Varint.PrefixFree | crates/legion-channel/src/lark.rs:396-406 | no encoding is a proper prefix of another |
| Varint.VarintLength | crates/legion-channel/src/lark.rs:396-406 | an encoding has at most `n` bytes if and only if the value has at most `n` base-128 digits |
| Varint.TenBytesSuffice | crates/legion-channel/src/lark.rs:396-406 | every 64-bit value takes one to ten bytes |
| Varint.VarintIsMinimal | crates/legion-channel/src/lark.rs:396-461 | whatever bytes read as a value are at least as many as its encoding, and at most ten |
| LarkCodec.SignExtendTruncate | crates/legion-channel/src/lark.rs:431-433 | sign extension to 64 bits followed by the decoder's truncation is the identity on int32 |
| LarkCodec.TruncateKeepsLowBits | crates/legion-channel/src/lark.rs:513-514 | the decoder's truncation keeps the low 32 bits of any 64-bit word |
| LarkCodec.ReadFieldOfBytes | crates/legion-channel/src/lark.rs:408-421 | a written field reads back, whatever bytes follow |
| LarkCodec.ReadFieldAdvances | crates/legion-channel/src/lark.rs:508-530 | reading a field consumes at least one byte |
| LarkCodec.HeaderRoundTrip | crates/legion-channel/src/lark.rs:434-438 | a written header decodes to itself |
| LarkCodec.DecodeComposes | crates/legion-channel/src/lark.rs:496-533 | decoding `a` then `b` is decoding `b` on top of what `a` gave |
| LarkCodec.IgnoredFieldChangesNothing | crates/legion-channel/src/lark.rs:523-529 | a field with an unknown number or the other wire type, in any encoding the decoder reads, inserted at any field boundary, leaves the result unchanged |
| LarkCodec.LastOneWins | crates/legion-channel/src/lark.rs:496-533 | on any bytes: decoding succeeds if and only if they are well-formed fields with usable contents, and then each scalar is its last field and headers are all header fields in order |
| LarkCodec.HeaderSays | crates/legion-channel/src/lark.rs:475-494 | on any bytes: a header decodes if and only if they are well-formed fields with text in fields 1 and 2, and then its key is the last field 1 and its value the last field 2 |
| LarkCodec.GuideExamples | crates/legion-channel/src/lark.rs:396-421 | the byte examples of the Protocol Buffers Encoding guide |
| Utf8.ValidUtf8Iff | crates/legion-channel/src/lark.rs:470-473 | the text check accepts exactly the encodings of sequences of Unicode scalar values |
| LarkCodec.FrameRoundTrip | crates/legion-channel/src/lark.rs:427-533 | every frame whose encoding fits into memory decodes to itself, with any headers and any int32 |
| LarkCodecLoops.EncodeTag | crates/legion-channel/src/lark.rs:408-410 | shift-and-or of any field number and wire type is the tag, which has room for 61 bits of the number |
| LarkCodecLoops.EncodeVarintField | crates/legion-channel/src/lark.rs:412-415 | a buffer of fields becomes the buffer with one more varint field, for every field number |
| LarkCodecLoops.EncodeLenDelimited | crates/legion-channel/src/lark.rs:417-421 | a buffer of fields becomes the buffer with one more length-delimited field, for every field number |
| LarkCodecLoops.EncodeHeaders | crates/legion-channel/src/lark.rs:434-439 | the header loop appends one nested field per header, in order |
| LarkCodecLoops.EncodeFrame | crates/legion-channel/src/lark.rs:427-444 | the encoder writes exactly the fields of the frame |
| LarkCodecLoops.DecodeLenDelimited | crates/legion-channel/src/lark.rs:463-468 | the slice and the new position, failing exactly when the length does not fit |
| LarkCodecLoops.DecodeHeaderLoop | crates/legion-channel/src/lark.rs:475-494 | on every byte sequence the loop ends with what the specification decodes |
| LarkCodecLoops.DecodeFrameLoop | crates/legion-channel/src/lark.rs:496-533 | on every byte sequence that fits into memory the loop ends, reads in range, and gives what the specification decodes |
| LarkDelivery.EventDeduper.CheckId | crates/legion-channel/src/lark.rs:111-124 | the map is pruned, the id recorded or refreshed, and the answer is whether the pruned map lacked it |
| LarkDelivery.PrunedMapAnswers | crates/legion-channel/src/lark.rs:111-124 | the pruned map answers as the full log of checks would |
| LarkDelivery.RunTracks | crates/legion-channel/src/lark.rs:858-869 | in every reachable state, across reconnects, the pruned map stands for the whole log |
| LarkDelivery.FindType | crates/legion-channel/src/lark.rs:982-986 | the search finds the frame type |
| LarkDelivery.FrameTypeIs | crates/legion-channel/src/lark.rs:982-986 | the frame type is the value of the first header with key `type`, and there is none without one |
| LarkDelivery.ParsesPrinted | crates/legion-channel/src/lark.rs:38-42 | every printed 64-bit number parses to itself, and no larger one parses |
| LarkDelivery.LarkChannel.Admit | crates/legion-channel/src/lark.rs:1028-1052 | a stale event does not touch the deduper; any other is put to it and admitted if new |
| LarkDelivery.LarkChannel.Decide | crates/legion-channel/src/lark.rs:988-1056 | what an `event` or `card` frame brings to send on, and what the deduper becomes |
| LarkDelivery.LarkChannel.HandleData | crates/legion-channel/src/lark.rs:971-1083 | the whole effect of a DATA frame on deduper, forwarded messages and acknowledgements; it fails exactly when an acknowledgement was due and could not be sent |
| LarkDelivery.ForwardsIff | crates/legion-channel/src/lark.rs:981-1055 | in every run an event is forwarded if and only if the channel is open, it is not stale, and no check of its id in the whole run lies within the time to live |
| LarkDelivery.ForwardsAreApart | crates/legion-channel/src/lark.rs:95-124 | two forwards of one id are at least the time to live apart |
| LarkDelivery.DuplicateForwardedIff | crates/legion-channel/src/lark.rs:1024-1052 | the next delivery of an id is forwarded if and only if the channel is open, it is not stale, and the time to live has passed since the id was last put to the deduper |
| LarkDelivery.ForwardedTwice | crates/legion-channel/src/lark.rs:1024-1052 | a message stale at neither of two deliveries the time to live apart is forwarded both times |
| LarkDelivery.FreshTimes | crates/legion-channel/src/lark.rs:38-43 | a time is not stale if and only if it does not parse or lies no more than the threshold before the wall clock |
| LarkDelivery.ForwardedIs | crates/legion-channel/src/lark.rs:981-1055 | in every run a delivery adds to the forwarded messages exactly its card action, or its event if that is not gzip-encoded, not stale by two minutes and not checked within the time to live, if the channel is open; otherwise nothing |
| LarkDelivery.ForwardedAtMostOnce | crates/legion-channel/src/lark.rs:32-43 | a message whose creation time parses and does not lie after its first delivery is among the forwarded messages at most once ever, while the two clocks agree to within a day |
| LarkDelivery.AcknowledgedIff | crates/legion-channel/src/lark.rs:1057-1080 | every `event` or `card` frame gets exactly one acknowledgement with its ids, its headers, the processing time and nothing else of it, unless it brings a message while the inbound channel is closed or the socket fails; no other frame gets one |
| EventBus.SharedBus.constructor | crates/legion-gateway/src/events.rs:65-67 | a new bus is empty and meets the registry invariant |
| EventBus.SharedBus.Register | crates/legion-gateway/src/events.rs:72-99 | the session gets the run id, created with the ids of its key if absent; the invariant is kept |
| EventBus.SharedBus.End | crates/legion-gateway/src/events.rs:104-113 | the turn ends and an entry without subscribers goes; the invariant is kept |
| EventBus.SharedBus.Take | crates/legion-gateway/src/events.rs:143-147 | the first lock of `subscribe` hands out an id no subscription has or had |
| EventBus.SharedBus.Insert | crates/legion-gateway/src/events.rs:148-175 | the second lock adds the subscriber with an empty channel and returns the run in progress |
| EventBus.SharedBus.Leave | crates/legion-gateway/src/events.rs:180-192 | the subscriber is gone from that session, and the entry too if nothing holds it |
| EventBus.SendToAll | crates/legion-gateway/src/events.rs:203-215 | each subscriber with a live receiver and fewer than 512 waiting events gets the event, and exactly the others are dropped |
| EventBus.SharedBus.PublishEvent | crates/legion-gateway/src/events.rs:197-224 | delivery, eviction and garbage collection of one publish; the invariant is kept |
| EventBus.ApplyInv | crates/legion-gateway/src/events.rs:72-224 | every atomic step keeps the invariant: each entry has a run or a subscriber, its ids are those of its key, no subscriber is in two sessions, ids in use never exceed the counter |
| EventBus.RunInv | crates/legion-gateway/src/events.rs:72-224 | the invariant holds in every interleaving |
| EventBusTheorems.BusRefinesSolo | crates/legion-gateway/src/events.rs:139-224 | in every run the bus treats each subscriber as a bus with that subscriber alone would: no other subscriber or session influences its stream |
| EventBusTheorems.RegisteredIff | crates/legion-gateway/src/events.rs:139-224 | in every run a subscriber is registered after a step if and only if the step inserts it, or it was registered and the step is neither its unsubscription nor a publish to its session while its receiver is gone or 512 events wait |
| EventBusTheorems.AliveIff | crates/legion-gateway/src/events.rs:148-176 | a receiver is alive until it goes away itself, and takes waiting events oldest first |
| EventBusTheorems.NoGaps | crates/legion-gateway/src/events.rs:139-224 | received plus buffered is everything published to the session since joining while registered and alive, and a prefix of it always; buffers never exceed 512 |
| EventBusTheorems.DetachedIsFixed | crates/legion-gateway/src/events.rs:180-224 | after eviction or unsubscription the stream never grows |
| EventBusTheorems.IdsNeverReused | crates/legion-gateway/src/events.rs:143-147 | no two subscriptions ever get the same id, in any session and interleaving of the two locks |
| EventBusTheorems.LiveIff | crates/legion-gateway/src/events.rs:104-134 | a session is live with a run id if and only if the latest of its register and end calls registered that run |
| CronStore.AtomicWrite | crates/legion-core/src/fs.rs:46-57 | after every file-system step on the way the target holds its old contents or all of the new ones; at the end all of the new ones exactly on success, and no other file has changed |
| CronStore.ReloadGivesMap | crates/legion-automation/src/cron.rs:165-199 | for every iteration order, loading what was saved gives the map back |
| CronStore.LoadBuffer | crates/legion-automation/src/cron.rs:165-187 | whole lines load one after the other, whatever follows them |
| CronStore.LoadIsLastLines | crates/legion-automation/src/cron.rs:165-187 | any file loads to the map of the jobs its lines decode to, the last line of an id winning; blank and malformed lines make no difference |
| CronStore.LinesJoin | crates/legion-automation/src/cron.rs:170-173 | the lines of a file lose nothing but line breaks |
| CronStore.JsonlCronJobStore.constructor | crates/legion-automation/src/cron.rs:136-163 | opening a path gives the map its file loads to, every job under its own id |
| CronStore.JsonlCronJobStore.Save | crates/legion-automation/src/cron.rs:189-199 | success makes a reload equal the map whatever failed before; failure keeps what a reload gives; a crash after any file-system step gives one of the two |
| CronStore.JsonlCronJobStore.Create | crates/legion-automation/src/cron.rs:203-210 | a new id is added in memory and on disk, a known one changes nothing |
| CronStore.JsonlCronJobStore.Update | crates/legion-automation/src/cron.rs:212-219 | a known id is replaced, an absent one stays absent |
| CronStore.JsonlCronJobStore.Remove | crates/legion-automation/src/cron.rs:221-227 | the job is gone from memory even if saving fails |
| CronJobs.NormalizeIs | crates/legion-automation/src/cron.rs:539-549 | exactly expressions of five or six words are accepted; trimmed, those of five get the word `0` in front |
| CronJobs.NextRunIs | crates/legion-automation/src/cron.rs:78-91 | a one-shot runs next at its time if that is ahead; any other job when its normalised expression says |
| CronJobs.NextRunIsLater | crates/legion-automation/src/cron.rs:78-91 | the next run lies strictly after the given instant, and webhook-only jobs have none |
| CronJobs.CreatedIff | crates/legion-automation/src/cron.rs:308-347 | which requests become jobs, and that a job carries over every field of its request |
| CronJobs.CreatedOneShot | crates/legion-automation/src/cron.rs:308-347 | a one-shot is accepted if and only if it is at most a minute late, but has a next run if and only if its time is ahead |
| CronProtocol.NextExclusive | crates/legion-automation/src/cron.rs:403-464 | every step of any actor keeps `in_flight` equal to the jobs between acquire and release, each with one actor |
| CronProtocol.MutualExclusion | crates/legion-automation/src/cron.rs:403-464 | under every interleaving of overlapping ticks, manual runs and store edits no job executes in two actors |
| CronProtocol.NoResurrection | crates/legion-automation/src/cron.rs:212-219 | a removed job stays removed until created anew: no write-back brings it back |
| CronProtocol.EditsTakeEffect | crates/legion-automation/src/cron.rs:203-227 | creating and removing change the map at that id and nowhere else |
| CronProtocol.GoesOn | crates/legion-automation/src/cron.rs:403-464 | steps that may be taken from a reached state continue the run |
| CronLoop.RunKeeps | crates/legion-automation/src/cron.rs:419-456 | the loop invariant over every run in which ticks do not overlap, whoever ticks, with any manual runs, creations and removals |
| CronLoop.SingleLoopIsSerial | crates/legion-automation/src/cron.rs:652-665 | a run in which one actor alone ticks, as `cron_loop` does, is such a run |
| CronLoop.FiresInOrder | crates/legion-automation/src/cron.rs:419-456 | while ticks do not overlap they execute a one-shot at most once, and a recurring job for strictly increasing instants |
| CronLoop.FiredOneShotIsGone | crates/legion-automation/src/cron.rs:439-442 | an executed one-shot is gone from memory once its tick has written back |
| CronOverlap.NeverFires | crates/legion-automation/src/cron.rs:427-431 | in every interleaving, with any number of ticks, whatever fires was created enabled and with a next run |
| CronOverlap.SuchJobsNeverFire | crates/legion-automation/src/cron.rs:308-347 | in every interleaving disabled jobs, webhook-only jobs and one-shots already past when stored never fire on a tick |
| CronOverlap.EveryDueJobFires | crates/legion-automation/src/cron.rs:419-456 | in every interleaving, when a tick ends each job of its snapshot that was enabled and due has been executed in it, or was running already when the tick came to it |
| CronOverlap.OnlyDueJobsFire | crates/legion-automation/src/cron.rs:427-436 | whatever a step adds to the executions is an enabled job of the tick's snapshot, due at the time of the tick and not running |
| CronOverlap.SnapshotPrecedesRemoval | crates/legion-automation/src/cron.rs:419-442 | in every interleaving, with any number of ticks, a tick that executes a one-shot took its snapshot before any write-back that removes it |
| CronOverlap.RepeatNeedsOverlap | crates/legion-automation/src/cron.rs:419-456 | a one-shot is executed twice only in runs in which a tick begins while another is under way |
| CronOverlap.BothCanExecute | crates/legion-automation/src/cron.rs:432-442 | from every reachable state in which two ticks hold the same due job the run can go on so that both execute it |
| CronOverlap.OverlappingTicksRunAgain | crates/legion-automation/src/cron.rs:437-442 | a run from the start in which two ticks execute a one-shot twice |
| CronTick.CronScheduler.AcquireJob | crates/legion-automation/src/cron.rs:458-460 | the id is in the set afterwards; true exactly when it was not before |
| CronTick.CronScheduler.ReleaseJob | crates/legion-automation/src/cron.rs:462-464 | the id is taken out and nothing else |
| CronTick.CronScheduler.Execute | crates/legion-automation/src/cron.rs:466-526 | the task record left behind and the result, by the saves and the events of the run, as for a background task |
| CronTick.CronScheduler.RunNow | crates/legion-automation/src/cron.rs:403-415 | a manual run: an unknown job is not found, a running one refused, any other executed, with map and in-flight set as before; and it is a run of the interleaved protocol in which that job executes |
| CronTick.CronScheduler.RunDue | crates/legion-automation/src/cron.rs:436-452 | one acquired job is executed, released and written back to the store, in memory even if saving fails; the result is that of its run |
| CronTick.CronScheduler.VisitJob | crates/legion-automation/src/cron.rs:427-454 | a job that is not due, or already running, is passed over; any other is executed; the in-flight set is as before |
| CronTick.CronScheduler.Tick | crates/legion-automation/src/cron.rs:419-456 | for every listing order, exactly the enabled jobs with a next run at or before the time of the tick and not already running are executed, each once and with one result; one-shots are removed, the others get that time as last run and a next run computed later, everything else stays; and the tick is a run of the interleaved protocol from any state it may start in |
| Telegram.ProcessBatch | crates/legion-channel/src/telegram.rs:243-258 | the batch loop forwards and moves the offset message by message and stops at the first closed send |
| Telegram.ForwardsExactly | crates/legion-channel/src/telegram.rs:221-270 | in every run, whatever arrives and fails when, forwarded are exactly the message-bearing updates below the offset, once each and in order |
| Telegram.OffsetMovesIff | crates/legion-channel/src/telegram.rs:243-258 | a poll moves the offset if and only if its batch contains a message, while the channel is open |
| Telegram.SilentBatchStalls | crates/legion-channel/src/telegram.rs:224-258 | after a full batch without a message nothing is ever forwarded again |
| Telegram.StalledIff | crates/legion-channel/src/telegram.rs:224-258 | nothing is ever forwarded again if and only if the channel is closed or the batch due is full and brings no message |
| BotLoopGuard.Guard.CheckInbound | crates/legion-channel/src/access.rs:158-173 | allowed exactly when the peer has no queue or fewer replies in the window than the limit |
| BotLoopGuard.Guard.RecordOutbound | crates/legion-channel/src/access.rs:176-191 | the reply is appended to that peer's queue alone, and what is too old is popped from its front |
| BotLoopGuard.QueueAnswers | crates/legion-channel/src/access.rs:168-173 | the pruned queue counts as the full reply history would |
| BotLoopGuard.QueueTracks | crates/legion-channel/src/access.rs:182-190 | after any chronological replies the queue is the history without replies out of every later window |
| BotLoopGuard.PeersAreApart | crates/legion-channel/src/access.rs:176-191 | what the shared map answers for a peer depends on that peer's replies alone |
| BotLoopGuard.RateIsBounded | crates/legion-channel/src/access.rs:158-191 | in every interleaving of checks, replies and abandoned runs with at most `n` messages of a peer outstanding, no window holds more replies to it than the limit and `n - 1` others |
| BotLoopGuard.BoundIsReached | crates/legion-host/src/channel_inbound.rs:101-293 | for every smaller bound an interleaving that exceeds it |
| BotLoopGuard.BoundHoldsIff | crates/legion-channel/src/access.rs:158-191 | a bound holds in all those interleavings if and only if it is at least that |
| BotLoopGuard.NothingHoldsUnlimited | crates/legion-host/src/channel_inbound.rs:101-293 | with no limit on outstanding messages every bound is exceeded |
| BotLoopGuard.LimitHoldsIff | crates/legion-channel/src/access.rs:158-191 | the limit itself holds in all interleavings with at most `n` messages of a peer outstanding if and only if it is at least one and `n` is one |

## Left out

- Network, WebSocket and HTTP input and output, reconnect delays, control frames and pongs: only the
  decisions are modelled, with arrivals and send results as inputs.
- JSON, RFC 3339 and payload parsing: a job line is a codec that round-trips; Lark payload parsers and the
  session-key parser are arbitrary functions. Telegram's message conversion never fails in the source,
  so every message counts as forwardable.
- The cron crate and time zones: a schedule is any function to a strictly later instant.
- White space in cron expressions and blank lines is the ASCII one.
- The agent runtime, models, prompts, session ids, approval gates and event sinks.
- The socket handler of the event bus: its module comment promises an error when a subscription is dropped
  and the handler sends none; history load and subscription are not one step.
- `EventBus::list` as an operation of its own: it only copies the entries, whose status `LiveIff` determines.
- Wrap-around of the 64-bit subscription counter.
- CronStore.JsonlCronJobStore.constructor: does not model the cache that lets handles on one path share a live
  map, nor concurrent opens; a handle loads its file.
- The task store's file: whether a save succeeds is an input, since its write is the one proved for cron jobs.
- The Telegram server's expiry of updates it has kept for a day: in the model an unfetched update stays, which
  is what makes a stall last for good.
- Manual runs and enqueueing of background tasks: passes are proved for a ledger nobody else writes.
- The synchronous twin of the atomic write, home-directory expansion, and loss of a rename on power failure.
- Access policies, pairing, signatures, and the Slack, Discord and Matrix channels, the terminal
  interface and the command line: single-branch field extraction or plumbing that would add easy members.
- LarkDelivery.ForwardedAtMostOnce: assumes that between two deliveries the monotonic clock does not run ahead
  of the wall clock by nearly a day, because the code compares ages on one clock and deliveries on the other.
- LarkCodec.FrameRoundTrip: covers frames whose encoding is no longer than a Rust vector can be.
