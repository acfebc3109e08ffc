# A verified model of 420AI capture, delivery and audit

A Dafny 4.11 model of the parts of 420AI where being wrong loses or misstates data: the collector's
durable outbox and what feeds it, the desktop supervisor, the printers and parsers whose output
others depend on, the fast paths that must agree with a slow one, the connector catalog overlay, and
the audit derivation. `dafny verify dfyconfig.toml` checks the whole project.

## What is modelled

**Outbox** (`QueueTable.dfy`, `QueueStore.dfy`, `Delivery.dfy`, `Backoff.dfy`, `Newest.dfy`,
`Draining.dfy`, `Capture.dfy`). `QueueTable` gives each SQL statement of the queue its meaning on a
table of rows; `QueueStores.QueueStore` is the class that runs them in place and is proved equal to
that meaning.
`Delivery` is a transition system over the table: any capture may enqueue while a POST is pending,
the process may die at any step, a POST may land although the collector has given it up. `accepted`,
`latest`, `limbo`, `overtaken` and `late` are history variables and influence no step of the table.
SHA-256 is a parameter `sha`; injectivity is assumed only where a contract says `Injective(sha)`.

**What feeds it** (`Utf8.dfy`, `Utf8Facts.dfy`, `Tailer.dfy`, `CustomConnector.dfy`,
`CustomRecords.dfy`, `Watching.dfy`, `Fingerprint.dfy`, `CursorParser.dfy`, `CursorFacts.dfy`,
`Polling.dfy`, `PollFacts.dfy`). The byte tailer over a byte-wise UTF-8 decoder, the config-only line
parser, event fingerprints, the file watcher's and the poll loop's commit order, and the Cursor
parser.

**Faults and shutdown** (`FaultRecord.dfy`, `Outage.dfy`, `Shutdown.dfy`). The fault file, the rule
for stamping it, and the drain a collector runs before it exits.

**Supervisor** (`Approvals.dfy`, `Supervisor.dfy`, `Replies.dfy`, `Serve.dfy`). The reads a start
makes before it has an engine. The closure variables of `runServe` as a state machine whose steps are
the points between awaits, what it says over whole runs, and a class with one method per handler,
proved equal to those steps.

**Printers, parsers and scanners** (`Keys.dfy`, `JsonStrings.dfy`, `Canonical.dfy`, `Csv.dfy`,
`GitLog.dfy`, `GitBraces.dfy`, `GitMoves.dfy`, `GitPaths.dfy`, `GitFormat.dfy`, `GitRows.dfy`,
`GitRecords.dfy`, `ScanLines.dfy`, `Chunking.dfy`). Independent readers are written from the
standards: section 7 of RFC 8259 for strings, section 2 of RFC 4180 for CSV. `GitFormat` prints what
`git log` prints for the pinned format.

**Fast forms** (`Touch.dfy`, `SweepClock.dfy`, `SweepWitness.dfy`, `Alerts.dfy`, `AlertFacts.dfy`,
`Firings.dfy`, `FiringFacts.dfy`, `Evaluator.dfy`). The API-key touch throttle with its sweep; alert
derivation, alert keys, the throttled reconcile and the evaluator tick.

**Catalog overlay** (`Merge.dfy`, `CatalogFacts.dfy`) and **audit** (`Tallies.dfy`,
`CaptureHealth.dfy`, `HealthFacts.dfy`, `DataQuality.dfy`, `QualityFacts.dfy`). `Text.dfy` holds the
string operations the sources call.

The `Facts` modules tell results from the inputs alone, without the functions that compute them.

## Where the code and its documentation disagree

The model follows the code. Where a lemma proves the point, it is named in brackets.

- Acknowledging deletes by id whatever has happened to the row since it was claimed, so content
  enqueued between the claim and the acknowledgement is dropped (`Newest.AckDropsRewrite`); a POST
  that timed out and lands late can undo a newer one (`Newest.LateLandGoesBack`). When the newest
  content survives is stated exactly (`Newest.NewestExactly`).
- `git-reader.ts` says its separator cannot occur inside a record. An author name, an address or a
  subject that reads `COMMIT` forms it, and that commit is then skipped (`GitRecords.LogRoundTrip`).
- `toCsv` always emits a header, but with no columns the header is an empty line, which reads back as
  one empty cell (`Csv.CsvRoundTrip`).
- A catalog entry may carry a definition that compiles to another id than its own. If a kept
  connector has that id, or another such entry, the output holds it twice; if the id is free, nothing
  collides (`ConnectorCatalog.OutputDistinctExactly`).
- The collector checks a cached catalog's signature, not the shape of its entries. An entry whose
  `watchGlobs` or `requiredPermissions` cannot be spread or sorted, for a connector approved before, makes
  every start throw between setting `running` and creating the engine; the supervisor then acknowledges
  every later start without starting anything until it is stopped (`Supervisor.StartJamsExactly`,
  `Supervisor.StartJams`, `Supervisor.JammingOverlays`, `Supervisor.JamLasts`). An id that names
  something every object inherits, such as `constructor`, reads as recorded: boot records nothing for it,
  and a start fingerprints it and withholds it (`Approvals.EnabledConnectors`, `Approvals.SeedMissing`).
  A start queued behind a stop runs if the exit function returns (`Supervisor.StartAfterStopped`).
- The sweep is called safe by construction; it is safe for a clock that does not step back
  (`TouchThrottle.SweepInvisible`), and which clocks let it show at a given threshold is stated exactly
  (`SweepWitness.SweepInvisibleExactly`).
- Rename paths are told by their braces, and changed paths by an arrow; paths may hold either. When a
  path column is read right is stated exactly, in all three forms (`GitPaths.PathExactly`).
- The audit calls a live connector broken while a sibling is active; when the sibling goes quiet as
  well, the same connector reads as capturing again (`CaptureHealth.BrokenLastsExactly`).
- `read-head.ts` documents undefined on a read error; only a failure to open is caught, and that is
  what the model returns None for. `custom-connector.ts` falls back to the constant event type only
  when the line's own field is absent, not when it is empty. Both the tailer and the custom connector
  mention content-hash dedup of re-parsed text, but a raw payload carries the time of the parse, so
  re-parsed records are new content; the tail theorem is therefore about keys.

## Model

| member | source | states |
|---|---|---|
| QueueTable.EnqueueView | apps/collector/src/queue/queue-store.ts:134-155 | An enqueue moves only its own key; the result says exactly whether the key was new, changed or unchanged; a changed key becomes pending, due and unattempted under its old id. |
| QueueTable.SelectSpec | apps/collector/src/queue/queue-store.ts:162-177 | A claim takes only due pending rows, in id order, within the limit, and passes over a due row only when the limit is used up by lower ids. |
| QueueTable.ClaimView | apps/collector/src/queue/queue-store.ts:162-177 | Seen through any key, a claim turns the claimed rows inflight and leaves every other row as it was. |
| QueueTable.DeleteView | apps/collector/src/queue/queue-store.ts:180-184 | Seen through any key, an acknowledgement removes exactly the rows with the given ids, whatever their status. |
| QueueTable.DelayGrows | apps/collector/src/queue/queue-store.ts:28-30 | The backoff never shrinks with more attempts, stays between one and thirty seconds, and is thirty exactly from the fifth attempt on. |
| QueueTable.DelayExact | apps/collector/src/queue/queue-store.ts:187-189 | The wait after a failure is 1, 2, 4, 8 or 16 seconds for the first five attempts and 30 seconds for every later one. |
| QueueStores.QueueStore.EnqueueItem | apps/collector/src/queue/queue-store.ts:134-155 | The in-place upsert is the table's `Enqueue`, keeps ids and keys unique, and leaves poll state alone. |
| QueueStores.QueueStore.ClaimBatch | apps/collector/src/queue/queue-store.ts:162-177 | The row-by-row status flips amount to one claim. |
| QueueStores.QueueStore.AckItems | apps/collector/src/queue/queue-store.ts:180-184 | Deleting the ids one by one deletes exactly that set. |
| QueueStores.QueueStore.MarkItemFailed | apps/collector/src/queue/queue-store.ts:187-195 | The key is pending again under its old id, one attempt more, and due after the wait for the attempts it was claimed with; every other key is as before. |
| QueueTable.FailedView | apps/collector/src/queue/queue-store.ts:187-195 | What a failure on one id changes, seen per key. |
| QueueStores.QueueStore.ReleaseInflight | apps/collector/src/queue/queue-store.ts:198-204 | Exactly the inflight rows among the ids become pending, with no attempt counted. |
| QueueTable.ReleasedView | apps/collector/src/queue/queue-store.ts:198-204 | What a release changes, seen per key: neither the attempts nor the due time. |
| QueueStores.QueueStore.RecoverInflight | apps/collector/src/queue/queue-store.ts:207-209 | Every key keeps its row, inflight ones become pending, none is left inflight. |
| QueueTable.RecoveredView | apps/collector/src/queue/queue-store.ts:207-209 | What recovery changes, seen per key. |
| QueueTable.CommitThenAsk | apps/collector/src/queue/queue-store.ts:246-266 | After a commit, asking about the same unit says changed exactly for other content, and no other unit's answer moves. |
| QueueStores.QueueStore.CommitPoll | apps/collector/src/queue/queue-store.ts:246-266 | On the live store: every later question about any unit is answered as that round trip says, and no queue row moves. |
| QueueStores.QueueStore.Stats | apps/collector/src/queue/queue-store.ts:326-336 | The two counts are the numbers of distinct ids with each status and together count every row. |
| Delivery.FinishSync | apps/collector/src/sync/sync-worker.ts:93-126 | On the live rows, key by key: a delivered row is gone; after a 401 or an abort it is pending, attempts and due time unchanged; after a refusal or a failed request it is pending, one attempt more, due after the wait for its claimed attempts; rows outside the batch are untouched. The answer is stop exactly on a 401. |
| Delivery.SettleExact | apps/collector/src/sync/sync-worker.ts:93-126 | The same of the table. |
| Backoff.NoEarlyClaim | apps/collector/src/sync/sync-worker.ts:113-126 | In every run, a row whose POST failed is taken by no claim before its wait is over, whatever happens in between, unless its content changes; from then on it is due. |
| Backoff.RestartRecovers | apps/collector/src/queue/queue-store.ts:207-209 | In every run, a crash and a boot leave every key the row it had, pending, with its content, attempts and due time, and no POST pending. |
| Delivery.SettleView | apps/collector/src/sync/sync-worker.ts:93-126 | Seen through any key, delivery deletes the row if it was claimed, and any other outcome re-arms it with its content kept. |
| Delivery.StepKeeps | apps/collector/src/sync/sync-worker.ts:81-126 | Every step, crashes and late landings included, keeps table validity, the batch's link to its rows, and the safety of every key. |
| Delivery.NothingLost | apps/collector/src/queue/queue-store.ts:134-209 | In every run, a key ever enqueued has a row or an accepted payload, and no row is left inflight outside the outstanding batch. |
| Newest.NewestExactly | apps/collector/src/queue/queue-store.ts:134-184 | In every run and for every key, late landings included: the newest content is queued or is the last accepted payload exactly when, since it was enqueued, no acknowledgement dropped its row while the archive had last heard other content, and no abandoned POST brought other content over the missing row without its coming back. |
| Newest.UndisturbedIsNewest | apps/collector/src/queue/queue-store.ts:144-184 | If no enqueue changes a key's content while a pending or abandoned POST still holds it, its newest content is never lost, in every run. |
| Newest.AckDropsRewrite | apps/collector/src/queue/queue-store.ts:144-184 | For any two contents with different hashes, a five-step run after which the second is nowhere. |
| Newest.LateLandGoesBack | apps/collector/src/sync/sync-worker.ts:107-113 | Why abandoned POSTs count: one that timed out and lands late takes the archive back to content it had moved past. |
| Draining.ClaimsDisjoint | apps/collector/src/queue/queue-store.ts:162-177 | Any sequence of claims with no release in between returns pairwise disjoint rows. |
| Draining.NeverFarAhead | apps/collector/src/queue/queue-store.ts:187-195 | In every run whose clock has not passed `now`, no row is scheduled beyond `now` plus thirty seconds. |
| Draining.QueueEmpties | apps/collector/src/sync/sync-worker.ts:81-104 | Thirty seconds after the last step, `k` rounds of limit `L` empty the queue exactly when `k * L` covers the rows, and then everything ever enqueued was accepted. |
| Capturing.EnqueueItems | apps/collector/src/capture-engine.ts:414-419 | The enqueue loop on the live queue is the fold of single enqueues, in order. |
| Capturing.EnqueuedKnown | apps/collector/src/capture-engine.ts:414-419 | After the loop every item's key is known to the queue, nothing already known is lost. |
| Utf8.WriteAppend | apps/collector/src/discovery/read-head.ts:33-41 | Decoding a byte stream in pieces gives the same text and state as decoding it at once, wherever it is cut. |
| Utf8.DecodeAtNewline | apps/collector/src/watcher/tailer.ts:42-56 | Text up to a newline byte decodes independently of what follows it. |
| Utf8Facts.DecodeEncoded | apps/collector/src/watcher/tailer.ts:42-56 | Text encoded by the table of RFC 3629 section 3 decodes to itself, whatever characters it holds. |
| Utf8Facts.DecodesExactly | apps/collector/src/discovery/read-head.ts:33-41 | Bytes decode to a text without a replacement character exactly when they are that text's encoding. |
| Tailer.ReadGrownPrefix | apps/collector/src/watcher/tailer.ts:28-64 | The buffer scan returns what `Grown` says for every file and offset, truncation included. |
| Tailer.GrownExact | apps/collector/src/watcher/tailer.ts:28-64 | From a cursor at a line end, the tailer emits exactly the complete-line prefix, exactly when it is longer, and the new cursor is its end. |
| Tailer.GrownAnywhere | apps/collector/src/watcher/tailer.ts:28-64 | From any cursor: a shorter file is read from its start, else there is something to read exactly when a line ends beyond the cursor. |
| CustomConnector.Parse | apps/collector/src/connectors/custom-connector.ts:229-297 | The line loop computes the numbered fold of the lines. |
| CustomRecords.RecordsExactly | apps/collector/src/connectors/custom-connector.ts:234-294 | For every text: a line has a record exactly when it is not blank, reads, and names a known type or leaves that to the declaration; the record holds that very line, its session and number, the event that type; records keep line order. |
| CustomRecords.LinesOfText | apps/collector/src/connectors/custom-connector.ts:234 | The lines are what newlines separate, less one carriage return before each newline. |
| CustomConnector.IdsDistinct | apps/collector/src/connectors/custom-connector.ts:266-293 | Within one parse all record ids and all fingerprint pre-images are pairwise distinct, whatever the session ids hold. |
| CustomConnector.LinesAccounted | apps/collector/src/connectors/custom-connector.ts:235-294 | Every line is recorded once, counted as skipped once, or blank. |
| CustomConnector.ParsePrefix | apps/collector/src/connectors/custom-connector.ts:272-277 | Records and events of a complete-line prefix are a prefix of those of any longer text. |
| Watching.TailComposes | apps/collector/src/watcher/file-watcher.ts:117-144 | In every run of appends, ticks that may throw anywhere, queue steps and crashes, the cursor is a line end and every key of the text before it is queued or accepted. |
| Watching.TickCatchesUp | apps/collector/src/watcher/file-watcher.ts:135-144 | A tick that does not throw leaves the cursor at the end of the last complete line. |
| Watching.TailStores | apps/collector/src/watcher/file-watcher.ts:117-144 | In every run, a tick that reads and does not throw stores each such line under its own key, with its own text, and its event. |
| Watching.EmissionsGrow | apps/collector/src/watcher/tailer.ts:55-60 | The records and events of one emission are a prefix of those of the next, multi-byte characters included. |
| Fingerprint.PreimageInjective | packages/shared/src/fingerprint.ts:15-24 | For connector ids without a bar, the pre-image determines connector, record, index and type. |
| Fingerprint.CollideExactly | packages/shared/src/fingerprint.ts:15-24 | Two different connectors can share a pre-image exactly when one id extends the other with a bar. |
| CursorParser.ParseComposerLoop | apps/collector/src/connectors/cursor.ts:132-256 | The bubble loop yields the envelope, one record and its events per parsed bubble, the session's two ends, and the skip count. |
| CursorFacts.ComposerExactly | apps/collector/src/connectors/cursor.ts:132-256 | The envelope record holds the composer's own text under its own id, the first id a key names, or a fixed one; each readable row gives, in order, a record of its own text and its events, every other row is skipped. |
| CursorFacts.BubbleExactly | apps/collector/src/connectors/cursor.ts:218-250 | Exactly which events a bubble gives: who spoke, usage and cost only of an assistant with tokens, cost only for a real model, a call's start and its one outcome; and in what order. |
| CursorFacts.KeyExactly | apps/collector/src/connectors/cursor.ts:112-115 | The bubble id is what follows the second colon of the key. |
| CursorParser.ComposerDistinct | apps/collector/src/connectors/cursor.ts:180-253 | With distinct bubble ids, record ids and event pre-images are pairwise distinct, although tool events share an index. |
| Polling.SweepUnit | apps/collector/src/connectors/cursor.ts:274-288 | One composer on the live queue: gate, then the items of its parse up to the throw if any, and a commit only if all were enqueued. |
| Polling.SweepAgrees | apps/collector/src/capture-engine.ts:315-327 | The live queue and the transition system take the same step. |
| Polling.CommitPoint | apps/collector/src/connectors/cursor.ts:264-294 | In every run, a key has a stored hash exactly when a sweep of it ran to its commit; it is that of the last such sweep's content, and every record and event key of that content's parse is queued or accepted. |
| PollFacts.SweepStores | apps/collector/src/connectors/cursor.ts:278-285 | A committed sweep stores the composer's text, each readable row's text and each of its events under their keys. |
| PollFacts.PassTable | apps/collector/src/connectors/cursor.ts:264-294 | A pass leaves the queue as it was with the items of the due units enqueued in order, up to the throw if there is one. |
| Polling.SkippedExactly | apps/collector/src/connectors/cursor.ts:275-278 | In every run, a unit is skipped exactly when its content is that of its last sweep that ran to a commit. |
| Polling.RunPass | apps/collector/src/connectors/cursor.ts:264-294 | A whole pass on the live queue, with a throw at any item of any unit. |
| Polling.PassExact | apps/collector/src/connectors/cursor.ts:264-294 | A pass throws exactly when its faulty unit is due, marks exactly the units before it as seen, and leaves the others' memory so that they read next time as they did now. |
| FaultRecord.WrittenLoads | apps/collector/src/fault.ts:198-231 | Every record the module writes is accepted by its own validator, unchanged. |
| FaultRecord.LoadExactly | apps/collector/src/fault.ts:198-231 | A file is read as a record exactly when it is that record as written; anything else is no record. |
| FaultRecord.Timeline | apps/collector/src/fault.ts:182-193 | `since` is the time of the first save of the unbroken run of the same code and URL that the history ends in, whatever was on disk before. |
| FaultRecord.RunFound | apps/collector/src/fault.ts:182-193 | Every history ending in a save has such a run, or continues the clock of the record found at the start. |
| Outage.StampsExactly | apps/collector/src/capture-engine.ts:72-89 | Over every run and for every starting counter, failure n of a streak is written exactly for n = 3, 63, 123, …, and crosses exactly at 3. |
| Outage.OthersExactly | apps/collector/src/sync/sync-worker.ts:299-338 | What a delivery, a 401, an idle drain, a refusal and a restart do to the record and the counters. |
| Outage.SinceKept | apps/collector/src/capture-engine.ts:500-522 | Failures, idle drains, refusals and restarts in any mixture neither lose the record nor move `since`. |
| Outage.OutageTimeline | apps/collector/src/capture-engine.ts:500-522 | From a clean start there is no record before failure 3, then `since` is its time and `lastObservedAt` that of the last stamped failure. |
| Outage.OutageAfterDelivery | apps/collector/src/sync/sync-worker.ts:299-338 | After any history that ends in a delivery, the next outage is dated afresh. |
| Shutdown.DrainBeforeExit | apps/collector/src/capture-engine.ts:102-119 | Each call gets exactly the time left, positive after the first; the first outcome that is not ok stops it and is returned; if each call keeps to the budget it got, the drain is over by start plus the deadline; if each moves the clock, there are at most one more calls than milliseconds. |
| Shutdown.Ends | apps/collector/src/capture-engine.ts:102-119 | If each call advances the clock, the loop ends within `deadlineMs` further calls. |
| Supervisor.NextKeeps | apps/collector/src/serve.ts:219-386 | Every command, engine end, fault, delivery and end of input keeps the supervisor's invariant. |
| Supervisor.Safe | apps/collector/src/serve.ts:167-518 | Over every interleaving at most one engine is alive, then the state is running with its controller; between commands the state is running without an engine exactly when the supervisor is jammed; teardown runs at most once; after a real exit none is alive. |
| Supervisor.StartsAlone | apps/collector/src/serve.ts:219-276 | An engine starts only on a start command, with credentials, and with every earlier engine over. |
| Supervisor.StopsAlone | apps/collector/src/serve.ts:378-386 | `stopped` is emitted only when every engine is over and the supervisor is closed. |
| Supervisor.ReasonIsOwn | apps/collector/src/serve.ts:325-348 | A stop is explained only by a fault of the very run that stopped. |
| Supervisor.PauseSettles | apps/collector/src/serve.ts:365-376 | A pause that waited is acknowledged only when every engine is over, in state paused or error. |
| Replies.PauseTold | apps/collector/src/serve.ts:325-376 | Over every run, such a pause is acknowledged as paused exactly when the engine's promise resolved, and as error exactly when it rejected, whatever came in between. |
| Replies.EndsTold | apps/collector/src/serve.ts:325-355 | An engine that ends by itself leaves error and says so; under a pause or a stop only a rejection does. |
| Replies.ReasonExactly | apps/collector/src/serve.ts:325-348 | A reported stop carries a reason exactly when a fatal fault of that run stands, with nothing delivered since. |
| Replies.EachAnsweredOnce | apps/collector/src/serve.ts:388-509 | In every run the commands taken in are those answered, the one in hand and those waiting, in this order: none lost, doubled or out of turn. |
| Replies.CommandsTold | apps/collector/src/serve.ts:219-386 | In every reachable state, what each command does and says, told by credentials and by whether an engine is still running. |
| Replies.CredsKept | apps/collector/src/serve.ts:388-400 | Credentials are there exactly when they were at boot or a configure was acknowledged. |
| Replies.StepSpeaks | apps/collector/src/serve.ts:167-518 | The log only grows, and a status that is said is the state there is. |
| Approvals.EnabledConnectors | apps/collector/src/connectors/connector-approvals.ts:78-187 | Choosing the connectors for a start throws exactly when one that is switched on and counts as recorded has a list that cannot be spread or sorted; otherwise it gives, in order, those switched on and approved. |
| Approvals.ChosenExactly | apps/collector/src/connectors/connector-approvals.ts:122-187 | A connector is chosen exactly when it is not switched off and was either never recorded or recorded with the hash of the very lists it has now. |
| Approvals.ListableExactly | apps/collector/src/connectors/connector-approvals.ts:78-88 | What can be spread and sorted: a text, and a list unless it has two items or more and one holds, behind lists only, an object with its own `toString`. |
| Approvals.SeedMissing | apps/collector/src/connectors/connector-approvals.ts:141-155 | Boot throws exactly when the first connector of some id not recorded has such a list; otherwise it keeps what is recorded and records the other ids under their own fingerprints, save those every object inherits. |
| Approvals.SeedThenChoose | apps/collector/src/cli.ts:304-306 | What boot has just recorded is approved at the choice that follows. |
| Supervisor.StartJamsExactly | apps/collector/src/serve.ts:228-270 | In every reachable state with a start due, either an engine comes up or the supervisor jams, and it jams exactly when a connector that is switched on and counts as recorded cannot be fingerprinted. |
| Supervisor.StartJams | apps/collector/src/serve.ts:228-270 | Any catalog entry that breaks a connector which counts as recorded gets past boot, and the first start leaves running with no engine. |
| Supervisor.JammingOverlays | apps/collector/src/serve.ts:228-270 | Inputs that do it: a number or an unsortable list for `watchGlobs`, null for `requiredPermissions`, and an id recorded by no file. |
| Supervisor.JamLasts | apps/collector/src/serve.ts:219-223 | From a jam, no run of commands without a stop ever starts an engine or ends the jam. |
| Supervisor.StartAfterStopped | apps/collector/src/serve.ts:474-518 | With an exit function that returns, a start queued behind a stop brings an engine up after `stopped`. |
| SupervisorClass.Session | apps/collector/src/serve.ts:167-518 | A whole session on the object, whatever happens in whatever order, ends in the state of the run, with at most one engine alive and teardown at most once. |
| SupervisorClass.Serve.Turn | apps/collector/src/serve.ts:388-509 | Any one event on the live object, with an exit function that returns or not, keeps the invariant and takes exactly the modelled step. |
| SupervisorClass.Serve.OnStart | apps/collector/src/serve.ts:219-358 | A start keeps the invariant; a new engine comes up only over the end of every earlier one and with credentials; running then has an engine unless jammed. |
| SupervisorClass.Serve.OnPause | apps/collector/src/serve.ts:365-376 | A pause keeps the invariant, starts and ends no engine, and waits exactly when one is still running, for that one. |
| SupervisorClass.Serve.OnStop | apps/collector/src/serve.ts:378-386 | A stop waits exactly when an engine is still running; otherwise the supervisor is idle, closed once, no longer jammed, and `stopped` was the last thing said. |
| SupervisorClass.Serve.CleanupAndExit | apps/collector/src/serve.ts:511-518 | However often it is called, teardown has happened exactly once afterwards. |
| SupervisorClass.Serve.HandleNext | apps/collector/src/serve.ts:388-482 | Handling the next command keeps the invariant and at most one engine, after closing as well if the exit function returns, and does and says what `Replies.CommandTold` spells out. |
| SupervisorClass.Serve.OnEngineEnd | apps/collector/src/serve.ts:325-355 | After an engine's end none is left; the state is paused exactly for a resolved end under a pause, error for one by itself or a rejection; what is said is exact, and a reason names that very run. |
| SupervisorClass.Serve.Resume | apps/collector/src/serve.ts:365-386 | After its await a handler leaves nothing running and nothing that says so; a pause is acknowledged with the state there is, a stop is closed and said. |
| SupervisorClass.Serve.StdinClosed | apps/collector/src/serve.ts:501-504 | After the input's end a stop is queued, under way or done. |
| JsonStrings.EscapeReads | packages/shared/src/catalog-signing.ts:55 | A quoted string, lone surrogates included, reads back to itself by RFC 8259 section 7, and the reader stops at its closing quote. |
| Keys.SortSorted | packages/shared/src/catalog-signing.ts:53-54 | Sorting distinct keys gives strictly increasing keys and the same members. |
| Canonical.CanonRoundTrip | packages/shared/src/catalog-signing.ts:48-66 | A JSON reader recovers from the canonical text the value with its keys sorted at every level, consuming it all. |
| Canonical.CanonFaithful | packages/shared/src/catalog-signing.ts:48-66 | Two values get the same text exactly when they are equal with objects read as finite maps, at any nesting. |
| Csv.ToCsv | packages/shared/src/serialize.ts:83-92 | The line loop produces the CRLF-closed table of the header and the rows' cells. |
| Csv.CsvRoundTrip | packages/shared/src/serialize.ts:57-92 | A reader written from RFC 4180 section 2 recovers header and cells exactly when there is at least one column. |
| Csv.CsvInjective | packages/shared/src/serialize.ts:57-92 | Equal output means equal columns, equal row counts and equal cells. |
| GitLog.ParseNumstat | apps/collector/src/discovery/git-reader.ts:70-98 | The loop returns the parsed rows, and its two counters are the sums over them. |
| GitLog.ParseGitLog | apps/collector/src/discovery/git-reader.ts:106-139 | The block loop returns the parsed blocks of the split text, in order. |
| GitPaths.PathExactly | apps/collector/src/discovery/git-reader.ts:57-67 | A printed path column is read as the new path and its kind exactly when: an unchanged path holds no arrow; the paths of a simple rename hold no opening brace, or braces that happen to cancel; in a brace rename the common directory shuts its groups, the old part holds no closing brace, and the new part has closing braces at its end only. |
| GitMoves.MovedExactly | apps/collector/src/discovery/git-reader.ts:57-67 | The simple rename alone, any braces in either path. |
| GitRows.RowExactly | apps/collector/src/discovery/git-reader.ts:78-96 | A whole row, counts and kind included, is read right exactly under that condition. |
| GitRows.NumstatReads | apps/collector/src/discovery/git-reader.ts:70-98 | Any printed numstat block whose path columns meet that condition parses to its files; `-` counts as zero, the leading blank line is ignored. |
| GitRecords.SplitSealed | apps/collector/src/discovery/git-reader.ts:108 | Splitting at the record separator never joins two records, whatever separators a record holds. |
| GitRecords.LogRecovered | apps/collector/src/discovery/git-reader.ts:22-139 | Parsing the printed form of any list of commits gives, in order, exactly the commits no header field masks. |
| GitRecords.LogRoundTrip | apps/collector/src/discovery/git-reader.ts:22-139 | Printing and parsing gives every commit back exactly when no header field between two separators reads COMMIT. |
| LineScanner.TakeLines | apps/collector/src/discovery/read-head.ts:43-49 | Handing over the complete lines leaves a carry that stands for all text still to come. |
| LineScanner.LinesExactly | apps/collector/src/discovery/read-head.ts:43-61 | The lines are the pieces between newlines, each less one carriage return, without an empty last one. |
| LineScanner.ScanLines | apps/collector/src/discovery/read-head.ts:17-63 | For every sequence of read sizes the result is that of splitting the whole decoded file, when it is shorter than the cap; past the cap, of a prefix ending at a read. |
| Chunking.ChunkCommitsBySize | apps/collector/src/discovery/git-capture.ts:39-58 | Batches concatenate to the input, none is empty, those of two or more fit, and no batch could have taken its successor's first commit. |
| Chunking.BodyWithin | apps/collector/src/discovery/git-capture.ts:39-58 | What is counted for a batch is one byte more than its JSON body, so no body of two or more commits reaches the limit. |
| Chunking.Optimal | apps/collector/src/discovery/git-capture.ts:39-58 | No order-preserving partition under the same accounting has fewer batches. |
| TouchThrottle.ApiKeyTouches.SweepStale | apps/ingest/src/auth.ts:232-240 | The deletion loop keeps exactly the entries younger than the window. |
| TouchThrottle.ApiKeyTouches.ShouldTouch | apps/ingest/src/auth.ts:189-203 | The decision, and the map it leaves with its sweep. |
| TouchThrottle.SweepInvisible | apps/ingest/src/auth.ts:189-240 | For every call sequence under a clock that does not step back, every sweep threshold gives the decisions of the never-swept map. |
| SweepWitness.SweepInvisibleExactly | apps/ingest/src/auth.ts:189-240 | For any threshold and any clock readings whatever: every choice of keys gives the decisions of the never-swept map, exactly when there is no reading a throttle after a grantable one, with as many grantable ones before it as the threshold, and a later, grantable one back inside that window. |
| SweepWitness.SweepInvisibleAnywhere | apps/ingest/src/auth.ts:189-240 | The same over all thresholds at once. |
| TouchThrottle.GrantedExactly | apps/ingest/src/auth.ts:189-203 | A call is granted exactly when the throttle has passed since the last granted call of that key. |
| TouchThrottle.GrantsApart | apps/ingest/src/auth.ts:189-203 | Two granted touches of one key are at least the throttle apart. |
| Alerts.KeyInjective | packages/shared/src/alert-firings.ts:83-85 | An alert key determines its code and its target, whatever the target holds. |
| AlertFacts.DeriveAlertsLoop | packages/shared/src/alerts.ts:89-153 | The two loops and the stable sort return exactly the alerts whose condition on the snapshot holds, critical first. |
| AlertFacts.RaisedExactly | apps/ingest/src/alert-set.ts:101-111 | An alert of a given code, severity and target is in an org's set exactly when its condition on the inputs holds, with the numbers written out; the set is sorted by severity. |
| AlertFacts.MachineAlertsExact | packages/shared/src/alerts.ts:92-131 | Per machine code: in machine order, one alert for each machine that meets the condition. |
| AlertFacts.ConnectorAlertsExact | packages/shared/src/alerts.ts:133-147 | Per connector code: one for each connector with five calls or more of which half failed, lifetime or windowed; no deployment code occurs. |
| AlertFacts.OrderExactly | apps/ingest/src/alert-set.ts:101-111 | Within a severity, alerts stay in the order of their derivation. |
| AlertFacts.DeploymentExactly | apps/ingest/src/alert-set.ts:122-127 | A pending catalog and three failed authentications, each raised exactly then and at most once. |
| AlertFacts.SortedStably | packages/shared/src/alerts.ts:151-153 | The sort is by severity and stable. |
| Alerts.OrgKeysDistinct | apps/ingest/src/alert-set.ts:101-111 | With distinct machine and connector ids, no alert key is derived twice in one org. |
| Alerts.ScopesDisjoint | apps/ingest/src/alert-set.ts:101-126 | No org alert and deployment alert ever share a key. |
| Firings.OpenFiringsDiverge | apps/ingest/src/alert-set.ts:182-188 | True exactly when the set of open keys differs from the set of derived keys. |
| Firings.ReconcileExact | packages/db/src/repositories/alert-firings.ts:183-245 | After a reconcile the scope's open keys are the derived keys, each once; other scopes' rows are unchanged; closed rows and first firings never change. |
| FiringFacts.ReconcileRows | packages/db/src/repositories/alert-firings.ts:183-245 | Row by row: a derived open row was last seen now at the alert's severity, one no longer derived is resolved now, all others are as they were, and what is added is opened now by this user for alerts that had no open row. |
| FiringFacts.TickRows | apps/ingest/src/alert-evaluator.ts:222-247 | A tick that is not due and finds nothing new writes nothing; every other tick is such a reconcile. |
| Firings.TickExact | apps/ingest/src/alert-evaluator.ts:222-247 | Throttled or not, a tick ends with the same open keys as always reconciling, and no other scope moves. |
| Firings.UnionDivergesExactly | apps/ingest/src/alert-set.ts:173-181 | Fed the union of an org's and the deployment's firings, the test reports divergence exactly when the org has diverged or anything is open for the deployment; with both settled, exactly when some deployment alert is derived. |
| Evaluator.FiringStore.EvaluateScope | apps/ingest/src/alert-evaluator.ts:287-325 | One scope's pass on the live table, with a throw before or after its commit. |
| Evaluator.FiringStore.OrgPass | apps/ingest/src/alert-evaluator.ts:389-423 | One org in its own error boundary: its open keys are as derived unless it was rolled back or has no members; it is counted as done, skipped or failed exactly; its rows are written as its first owner, or first member. |
| Evaluator.FiringStore.RunTick | apps/ingest/src/alert-evaluator.ts:340-425 | After a tick every org's and the deployment's open keys are as its own pass left them, whatever failed elsewhere, and all five counts are exact. |
| Evaluator.ScopesNeverFlap | apps/ingest/src/alert-evaluator.ts:222-310 | Over any interleaving of ticks, each scope's open keys are those of its own last committed tick. |
| ConnectorCatalog.StripUndefinedLoop | packages/shared/src/connector-catalog.ts:290-296 | Exactly the defined fields are kept. |
| ConnectorCatalog.MergeConnectorCatalog | packages/shared/src/connector-catalog.ts:219-268 | The two loops compute the merge. |
| ConnectorCatalog.OverlayKeeps | packages/shared/src/connector-catalog.ts:276-286 | An overlay changes a field exactly when the entry provides it. |
| ConnectorCatalog.Conserved | packages/shared/src/connector-catalog.ts:232-243 | Every registry connector goes, in order, to exactly one of output and dropped, and to dropped exactly when its entry disables it. |
| CatalogFacts.EntriesExactly | packages/shared/src/connector-catalog.ts:244-265 | Which entries become connectors, and as what, and which are dropped for what reason, told by place and id. |
| CatalogFacts.LastSpeaks | packages/shared/src/connector-catalog.ts:226-231 | The last entry of an id speaks for it. |
| ConnectorCatalog.OutputDistinctExactly | packages/shared/src/connector-catalog.ts:247-265 | Output ids are distinct exactly when the entries that become connectors compile to pairwise distinct ids, none that of a registry connector no entry disables. |
| ConnectorCatalog.OutputDistinct | packages/shared/src/connector-catalog.ts:247-265 | In particular when each definition carries its entry's id. |
| ConnectorCatalog.MisnamedDefCollides | packages/shared/src/connector-catalog.ts:247-265 | A definition that compiles to the id of a kept connector puts that id into the output twice. |
| ConnectorCatalog.MergeIdempotent | packages/shared/src/connector-catalog.ts:219-268 | Merging the same catalog into its own result changes nothing, disabled entries included. |
| ConnectorCatalog.UnchangedExactly | packages/shared/src/connector-catalog.ts:219-268 | A merge leaves the registry as it is and drops nothing exactly when there is no catalog, or every entry names a known id or is switched off and none changes or disables the connector it speaks for. |
| ConnectorCatalog.Assemble | apps/collector/src/connectors/registry.ts:57-81 | The result is the built-ins, untouched, then in order the compiled declarations that are valid and whose id was still free; the others are dropped with their reasons; ids are distinct. |
| CatalogFacts.DeclaredExactly | apps/collector/src/connectors/registry.ts:57-81 | The first valid declaration of a free id becomes a connector, every other one is dropped with its own reason, in order. |
| ConnectorCatalog.LoadRegistry | apps/collector/src/connectors/registry.ts:52-87 | The registry is the merge over the assembly, with both drop lists in order; output and drops together count every built-in, every declaration and every entry tried as a definition; ids are distinct when each definition carries its entry's id. |
| CaptureHealth.DeriveCaptureHealth | packages/shared/src/capture-health.ts:219-313 | The loops compute one row per declaration and one per undeclared observation, from an order-free context. |
| CaptureHealth.RowPerPair | packages/shared/src/capture-health.ts:236-305 | There is exactly one row per distinct pair of machine and connector in declared and observed together. |
| HealthFacts.StateExactly | packages/shared/src/capture-health.ts:328-369 | Each of the seven states of a declared connector with its condition on the panel's inputs, a day written out. |
| HealthFacts.VerdictExactly | packages/shared/src/capture-health.ts:328-369 | Exactly when a declared connector reads broken, capturing, not capturing or unknown. |
| HealthFacts.RowsExactly | packages/shared/src/capture-health.ts:236-305 | The rows are the declarations in order, then observations nobody declared, as unreported. |
| HealthFacts.ObservedExactly | packages/shared/src/capture-health.ts:272-300 | An observation has a row of its own exactly when no declaration names its pair. |
| HealthFacts.MachineShown | packages/shared/src/capture-health.ts:219-262 | A row shows its machine's name and status, or its id and offline for an unknown machine. |
| CaptureHealth.VerdictsTotal | packages/shared/src/data-quality.ts:564-571 | The four verdict counts add up to that number of pairs. |
| CaptureHealth.RowsOrderFree | packages/shared/src/capture-health.ts:219-305 | Shuffling machines, declarations and observations changes no row and no count. |
| CaptureHealth.NeverProducedIsBroken | packages/shared/src/capture-health.ts:334-369 | A live, enabled, approved connector that never produced anything is broken at every moment on a machine that reports, with or without a sibling. |
| CaptureHealth.NeverProducedCounted | packages/shared/src/capture-health.ts:334-369 | The panel's broken count is at least the number of such connectors, at every moment. |
| CaptureHealth.BrokenLastsExactly | packages/shared/src/capture-health.ts:328-369 | Time alone lifts a broken verdict exactly when it rested on a sibling that has gone quiet. |
| CaptureHealth.CapturingLapsesExactly | packages/shared/src/capture-health.ts:328-369 | Time alone turns capturing into broken exactly for a live connector gone stale while a sibling is active. |
| DataQuality.SummarizeDeclarations | packages/shared/src/data-quality.ts:361-375 | A connector is eligible, or live, exactly when some machine declares it so. |
| DataQuality.TokensConserved | packages/shared/src/data-quality.ts:411-425 | Eligible, ineligible and undeclared sessions add up to all sessions, usable ones being among the eligible. |
| QualityFacts.TokensExact | packages/shared/src/data-quality.ts:411-425 | Usable sessions are those of a connector some machine declares to report tokens that have tokens; eligible, ineligible and undeclared likewise from the inputs. |
| QualityFacts.EventsExact | packages/shared/src/data-quality.ts:389 | The event count is the sum over the sessions. |
| DataQuality.PerfectTokensExactly | packages/shared/src/data-quality.ts:426-437 | A measured ratio of one means exactly that some session could report tokens and every such session did. |
| QualityFacts.CompleteExactly | packages/shared/src/data-quality.ts:426-437 | The same from the declarations and the sessions' token counts alone. |
| DataQuality.RatioRange | packages/shared/src/data-quality.ts:59-70 | An empty denominator is unknown, and a part of a whole is a ratio from zero to one. |
| DataQuality.FreshnessConserved | packages/shared/src/data-quality.ts:465-474 | Fresh, stale and unknown rows add up to all rows. |
| QualityFacts.LagsExact | packages/shared/src/data-quality.ts:465-474 | Timely rows are those of a connector some machine declares live with a measured lag up to an hour; stale and unknown likewise. |
| DataQuality.RecoveryConserved | packages/shared/src/data-quality.ts:490-528 | Attempted rows and the four skip buckets add up to all rows, recovered ones being among the attempted. |
| QualityFacts.RollupExact | packages/shared/src/data-quality.ts:490-528 | Each bucket counts the rows with that outcome or that skip reason. |
| DataQuality.CountGit | packages/shared/src/data-quality.ts:540-556 | The best-of ladder computes buckets that depend only on which links exist: any confirmed link, else any suggested one, else none. |
| DataQuality.GitConserved | packages/shared/src/data-quality.ts:540-556 | The three git buckets add up to the distinct sessions, links outside the window counting nowhere. |
| QualityFacts.GitExact | packages/shared/src/data-quality.ts:540-556 | Sessions with a confirmed link, with a suggested one only, and with neither. |
| DataQuality.DeriveDataQualityMetrics | packages/shared/src/data-quality.ts:382-608 | All counters of the report equal order-free tallies, and the metrics are built from them. |
| QualityFacts.ReportExact | packages/shared/src/data-quality.ts:382-608 | What each of the six metrics is a fraction of, both parts counted over the inputs, unknown when the whole is empty. |
| QualityFacts.VerdictsExact | packages/shared/src/data-quality.ts:564-571 | The verdict counts are those of the panel's rows. |
| DataQuality.ReportOrderFree | packages/shared/src/data-quality.ts:382-608 | The whole report is unchanged under any permutation of every input list. |
| DataQuality.DeclaringNeverFlatters | packages/shared/src/data-quality.ts:349-375 | No further declaration takes a session out of a denominator. |

## Left out

- PathExactly: assumes that the parts of a renamed path hold no arrow and no doubled slash, that the new part of a brace rename does not begin with white space, and that neither the column nor the new path begins or ends with white space or holds a tab, a line feed or a unit separator; git prints such names quoted, which is not modelled.
- NumstatReads: assumes that each path column is one that is read right; `PathExactly` and `RowExactly` say which are.
- Approval and enablement files that hold something other than the objects the program writes, and JSON nested beyond the stack.
- RowPerPair: assumes that no machine id holds the NUL character the key is joined with, and that each list has unique pairs, as the database's unique index gives.
- SQLite, PostgreSQL, row-level security, HTTP and timers; a database statement is its effect, and a transaction commits or rolls back as a whole.
- The archive is a last-writer-wins map from key to payload; that raw records are insert-once on the server is not part of this model.
- SHA-256 and ed25519. The signed bytes are the UTF-8 encoding of the canonical text; that encoding is not modelled.
- The wire form of records and events is a parameter; an event's project, model and token fields are not modelled.
- JSON parsing and regular expressions in the connectors are parameters; so are the rendering of non-string CSV cells and the byte length of a commit.
- JavaScript strings are UTF-16; the text parsers work on characters, the canonical serializer on UTF-16 code units. The locale's idea of white space beyond the ASCII blanks, and byte order marks, are left out of `trim`.
- Numbers in canonical JSON are their texts; that two texts of one number cannot differ is JavaScript's doing. `undefined` and functions, which catalogs cannot hold, are left out.
- File changes while a tick reads, truncated files in `Watching` (the tailer itself covers them), snapshot mode, file discovery and globbing.
- `connector_errors`, heartbeats, message texts, the time stamps of Cursor events, token and cost values.
- Fault files that cannot be written or removed; the callers swallow both.
- Delivery of firings by webhook and mail, acknowledgement, and the five-minute resolved window, which `openFiringsDiverge` ignores.
- The display order of capture-health rows, which depends on the locale, and the wording of unknown metrics.
- `toJsonl`, role checks, redaction, anomaly detection, cost sums, Markdown, environment and command-line parsing: easy, or outside the properties above.
- The Claude, Codex, Gemini and export parsers.
