# imessage-undeleter in Dafny

A model of the core of imessage-undeleter, a tracker that watches the macOS iMessage
database (`chat.db`) and reports messages that were deleted or edited away.

The repository holds two trackers, and both are modelled.

- **The event-driven architecture** (`src/core/`).
  - A WAL monitor (`event_system.rs`) polls the size of `chat.db-wal`. When the size changes, it
    queries the ids of recent messages and emits `MessagesModified` and `TransactionComplete`
    events.
  - A detection engine (`detection_engine.rs`) compares each message's previous fingerprint
    with its current one. It runs three detectors in a fixed priority order, and the first
    report wins.
  - A state manager (`state_manager.rs`) keeps the fingerprints and a journal of deletion
    records in SQLite, with a retention purge.
  - An output manager (`output_plugins.rs`) fans each record out to JSON, SQLite, webhook and
    terminal sinks.
  - The coordinator (`tracker.rs`) wires these together and runs the event loop.
- **The simple tracker the binary runs** (`MessageTracker` in `src/main.rs`, with the queries
  of `src/database.rs`).
  - It caches messages that have text.
  - On every poll it adds newer messages and re-reads the cached ones.
  - It reports a message whose text became blank while its edit time moved forward, appending
    a `DeletionEvent` to a JSON log.

The model is organised as follows.

- Pure logic is written as datatypes and functions with lemmas. This covers the detectors, the
  classification order, the WAL tick, the path rule of `set_extension`, the retention purge, the
  range query, the cache rules of the simple tracker and the log accumulation.
- Objects whose fields change are classes with `modifies` clauses: `Store`, `WalMonitor`,
  `OutputManager`, `DeletionTracker` and `MessageTracker`.
- Every method's new state is tied to a specification function, and the properties are proved
  about that function.
- Every interaction with the outside world is a parameter of the operation:
  - file-system probes;
  - SQL outcomes;
  - sink I/O results;
  - the message table as a snapshot;
  - the clock as `now`;
  - the blake3 digest as a function argument.

Module layout, one file each:
- `wrappers.dfy`: Option and Result.
- `text.dfy`: trimming, substring search and decimal formatting with Rust's semantics.
- `config.dfy`: the configuration.
- `state_manager.dfy`
- `detection_engine.dfy`
- `event_system.dfy`
- `output_plugins.dfy`
- `tracker.dfy`
- `simple_tracker.dfy`

## Model

| member | source | states |
|---|---|---|
| Config.Default | imessage-undeleter/src/core/config.rs:84-122 | The default configuration: a 1000 ms WAL interval, batches of 100, 30 days of retention, FullMessage and AttachmentOnly detection, edit tracking off, no filters, and two enabled outputs (a colored terminal, then a pretty JSON file at ./deletions.json). |
| Text.TrimStart | imessage-undeleter/src/main.rs:90 | The result is a suffix of the input. Everything removed is whitespace. The result is empty or starts with a non-whitespace character. |
| Text.TrimEnd | imessage-undeleter/src/main.rs:90 | The result is a prefix of the input. Everything removed is whitespace. The result is empty or ends with a non-whitespace character. |
| Text.TrimEmptyIffBlank | imessage-undeleter/src/main.rs:90 | `trim() == ""` holds exactly for strings made only of whitespace, in both directions. |
| Text.VisibleIffTrimNonEmpty | imessage-undeleter/src/main.rs:140-142 | A string has a non-whitespace character iff its trim is non-empty. |
| Text.Contains | imessage-undeleter/src/main.rs:80 | `contains` is true iff the pattern occurs at some offset. |
| Text.NatToDecimal | imessage-undeleter/src/core/state_manager.rs:262 | `{}` formatting of a size: at least one character, all decimal digits, and no leading zero. |
| Text.NatToDecimalValue | imessage-undeleter/src/core/state_manager.rs:262 | The digits written for a size stand for that size, read most significant digit first. |
| Text.NatToDecimalInjective | imessage-undeleter/src/core/state_manager.rs:262 | Two sizes that print alike are equal, so the size part of a hash preimage identifies the size. |
| Text.IntToDecimal | imessage-undeleter/src/main.rs:166 | `{}` formatting of a signed id: a leading '-' exactly when the value is negative, then at least one decimal digit, no leading zero, whose value is the magnitude of the id. |
| StateManager.DecodeRow | imessage-undeleter/src/core/state_manager.rs:117-130 | A row read back carries the queried id, the stored hash and the stored time. Malformed attachment JSON decodes to the empty list. |
| StateManager.FingerprintAt | imessage-undeleter/src/core/state_manager.rs:111-137 | `get_fingerprint` yields None exactly when no row has the id, and otherwise a fingerprint with that id. |
| StateManager.StoreThenGet | imessage-undeleter/src/core/state_manager.rs:89-104 | INSERT OR REPLACE round trip: reading fp's id after storing fp yields fp. Every other id reads as before. |
| StateManager.LastForIsLastWithId | imessage-undeleter/src/core/state_manager.rs:214-225 | The last fingerprint of a batch for an id is None iff no fingerprint of the batch has that id. Otherwise it is the one with that id at the highest position. |
| StateManager.BatchLastWriteWins | imessage-undeleter/src/core/state_manager.rs:204-231 | After a batch, each id reads as the last fingerprint of the batch with that id, or as before when the batch has none. |
| StateManager.RecentRows | imessage-undeleter/src/core/state_manager.rs:237-240 | The purge keeps exactly the fingerprint rows whose timestamp is not below the cutoff, unchanged. |
| StateManager.RecentRecords | imessage-undeleter/src/core/state_manager.rs:242-245 | The purge keeps exactly the journal entries whose deletion time is not below the cutoff. |
| StateManager.RecentRecordsKeepOrder | imessage-undeleter/src/core/state_manager.rs:242-245 | The purge keeps the surviving journal entries in their original order. |
| StateManager.RecentRecordsIncreasing | imessage-undeleter/src/core/state_manager.rs:242-245 | The purge keeps journal ids strictly increasing. |
| StateManager.RecentRecordsWellFormed | imessage-undeleter/src/core/state_manager.rs:234-253 | The purge keeps the state database well formed: positive increasing ids, all at most the AUTOINCREMENT counter. |
| StateManager.Matching | imessage-undeleter/src/core/state_manager.rs:169 | `BETWEEN start AND end` selects exactly the entries whose deletion time lies in the closed range. |
| StateManager.InsertNewestFirstSorted | imessage-undeleter/src/core/state_manager.rs:170 | Inserting into a newest-first list keeps it newest first and adds exactly the one entry, as a multiset. |
| StateManager.RangeQueryAsWrittenFailsOnAnyMatch | imessage-undeleter/src/core/state_manager.rs:173-193 | The range query as written succeeds iff no entry lies in the range, and then returns nothing. |
| StateManager.RangeQueryAsWrittenCounterexample | imessage-undeleter/src/core/state_manager.rs:175 | One journal entry at time 5, queried over [0, 10], makes the written query fail. |
| StateManager.RangeRowAsWritten | imessage-undeleter/src/core/state_manager.rs:173-191 | With the attachment list read from column 6, a row's content is that column's JSON text, so an entry comes back unchanged exactly when its content happens to be that text. Id, message id and attachments are kept. |
| StateManager.RangeRowAsWrittenCounterexample | imessage-undeleter/src/core/state_manager.rs:190 | A full-message entry with content "Full message content" and no attachments comes back with content "[]". |
| StateManager.MissingTimeHashesAsZero | imessage-undeleter/src/core/state_manager.rs:261-264 | The hash input is `filename:size:modified`. A missing modification time is written as 0 and hashes like time 0. |
| StateManager.Store.Open | imessage-undeleter/src/core/state_manager.rs:44-53 | Opening a well-formed database yields a valid store holding its rows and entries purged at `now - retention_days * 86400`. The counter is kept. |
| StateManager.Store.CleanupOldRecords | imessage-undeleter/src/core/state_manager.rs:234-253 | Both tables are purged at the retention cutoff. The counter and the ids already issued are kept, so a purged id is never reused. |
| StateManager.Store.StoreFingerprint | imessage-undeleter/src/core/state_manager.rs:89-108 | The fingerprint table becomes the upsert of fp. The journal is untouched. |
| StateManager.Store.GetFingerprint | imessage-undeleter/src/core/state_manager.rs:110-137 | Returns None iff the id has no row, and otherwise the decoded row. |
| StateManager.Store.StoreDeletion | imessage-undeleter/src/core/state_manager.rs:139-162 | Succeeds iff the insert does. On success it returns a fresh id, one above the counter and above every journal id, and appends the record with that id. On failure nothing changes. |
| StateManager.Store.GetDeletionsInRange | imessage-undeleter/src/core/state_manager.rs:164-201 | The corrected range query returns the entries with deletion time in [start, end], newest first, as a permutation of the matching entries. |
| StateManager.Store.BatchStoreFingerprints | imessage-undeleter/src/core/state_manager.rs:203-231 | All or nothing. On success the table is the upserts applied in order. On a failure it is unchanged. |
| DetectionEngine.Retained | imessage-undeleter/src/core/detection_engine.rs:65-67 | A detector stays iff it was listed and one of its supported types is configured. |
| DetectionEngine.NewEngine | imessage-undeleter/src/core/detection_engine.rs:57-72 | The engine keeps the configuration and exactly the retained detectors. |
| DetectionEngine.RetainedInPriorityOrder | imessage-undeleter/src/core/detection_engine.rs:58-67 | The active detectors are the configured ones, always in the order full message, attachment, partial edit. |
| DetectionEngine.MediaContentAloneEnablesNothing | imessage-undeleter/src/core/detection_engine.rs:58-67 | No detector supports MediaContent: configuring only it leaves the engine empty. |
| DetectionEngine.DefaultEngineDetectors | imessage-undeleter/src/core/detection_engine.rs:57-67 | The default configuration runs the full-message detector, then the attachment detector. |
| DetectionEngine.MissingAttachments | imessage-undeleter/src/core/detection_engine.rs:236-240 | Exactly the earlier hashes the current fingerprint no longer contains. |
| DetectionEngine.MissingAttachmentsKeepsOrder | imessage-undeleter/src/core/detection_engine.rs:236-240 | The missing hashes keep the earlier list's order; each hash the current fingerprint lacks occurs as often as before, and no other hash occurs. |
| DetectionEngine.NoneMissingFromSuperset | imessage-undeleter/src/core/detection_engine.rs:236-242 | When every earlier hash is still present, nothing is missing. |
| DetectionEngine.DetectFullMessage | imessage-undeleter/src/core/detection_engine.rs:179-209 | Fires iff there was a previous fingerprint and the current one is absent or has another content hash. A vanished message recovers the placeholder text and the earlier attachments. A changed message recovers "Modified content" and no attachments. |
| DetectionEngine.DetectAttachment | imessage-undeleter/src/core/detection_engine.rs:225-256 | Fires iff both fingerprints exist with equal content hashes and some earlier attachment hash is missing now; recovers exactly the missing hashes. |
| DetectionEngine.DetectPartialEdit | imessage-undeleter/src/core/detection_engine.rs:272-300 | Fires iff edit tracking is on, both fingerprints exist and the content hashes differ. |
| DetectionEngine.Detect | imessage-undeleter/src/core/detection_engine.rs:102-107 | No detector fails. A report has a type its detector supports and needs a previous fingerprint. |
| DetectionEngine.Classify | imessage-undeleter/src/core/detection_engine.rs:101-147 | Finds nothing iff no active detector fires. |
| DetectionEngine.ClassifyFirstMatch | imessage-undeleter/src/core/detection_engine.rs:108-137 | The winner is the first detector in order that fires. Its report is the result, and no earlier detector fires. |
| DetectionEngine.NothingFiresWithoutHistory | imessage-undeleter/src/core/detection_engine.rs:186-207 | Without a previous fingerprint no detector reports. |
| DetectionEngine.PartialEditShadowed | imessage-undeleter/src/core/detection_engine.rs:58-62 | With FullMessage configured for the engine, no PartialEdit record is ever produced, whatever configuration the detection context carries. |
| DetectionEngine.StepRecordUsesPrevious | imessage-undeleter/src/core/detection_engine.rs:110-129 | A record is built only from a stored previous fingerprint, never the "unknown" placeholder. It has id 0, the message id, the detection time and a type name. |
| DetectionEngine.AnalysisFollowsIdOrder | imessage-undeleter/src/core/detection_engine.rs:95-153 | At most one record per analysed id: the records' message ids are a subsequence of the input ids. |
| DetectionEngine.StubCurrents | imessage-undeleter/src/core/detection_engine.rs:158-163 | The engine never knows a message's current fingerprint. |
| DetectionEngine.StubAnalysisReportsOnlyVanished | imessage-undeleter/src/core/detection_engine.rs:95-163 | With that placeholder, no fingerprint is ever stored. The only reports are "vanished" full-message records, one for every analysed id with a stored fingerprint. |
| DetectionEngine.RunDetectors | imessage-undeleter/src/core/detection_engine.rs:101-147 | The detector loop yields the record built from the classification winner, or none. |
| DetectionEngine.AnalyzeOne | imessage-undeleter/src/core/detection_engine.rs:95-152 | One message: the record and the new fingerprint table are those of the specification step. The journal is untouched. |
| DetectionEngine.AnalyzeMessageChanges | imessage-undeleter/src/core/detection_engine.rs:88-156 | The records and the fingerprint table are those of the analysis over all ids in order. |
| DetectionEngine.ProcessEvent | imessage-undeleter/src/core/detection_engine.rs:75-86 | Only `MessagesModified` is analysed, with the placeholder current state and the detection context's own configuration. Every other event yields nothing and changes nothing. |
| EventSystem.FileNameStart | imessage-undeleter/src/core/event_system.rs:97 | The file name begins just after the last '/' and contains no '/'. |
| EventSystem.LastDot | imessage-undeleter/src/core/event_system.rs:97 | The index of the last '.' of a name, or None when it has none. |
| EventSystem.StemLength | imessage-undeleter/src/core/event_system.rs:97 | The stem ends at the last dot, unless that dot is the first character, in which case the whole name is the stem. |
| EventSystem.SetExtensionKeepsDirectory | imessage-undeleter/src/core/event_system.rs:97 | `set_extension` either leaves a path alone, or keeps its directory part and ends in the new extension. |
| EventSystem.WalPathOfDbFile | imessage-undeleter/src/core/event_system.rs:95-99 | The WAL of `<dir>/<stem>.db` is `<dir>/<stem>.db-wal`. |
| EventSystem.DefaultWalPath | imessage-undeleter/src/core/event_system.rs:95-99 | With the default database path the monitor watches `~/Library/Messages/chat.db-wal`. |
| EventSystem.Collect | imessage-undeleter/src/core/event_system.rs:119-122 | Collecting with `?`: every value in order, or the first row error. |
| EventSystem.Limit | imessage-undeleter/src/core/event_system.rs:111 | `LIMIT max` returns a prefix of at most max rows. |
| EventSystem.ChangedIds | imessage-undeleter/src/core/event_system.rs:101-125 | A failed open or prepare is the error. Otherwise the result is at most max ids, all of them when every row reads. |
| EventSystem.TickEventShape | imessage-undeleter/src/core/event_system.rs:63-93 | A successful tick emits nothing exactly when the recorded size stays. Otherwise the new size is recorded and the tick emits an optional non-empty batch of at most max ids, then one `TransactionComplete`. |
| EventSystem.AbsentWalIsIgnored | imessage-undeleter/src/core/event_system.rs:66-68 | A missing WAL file yields no events and changes no field. |
| EventSystem.UnchangedWalOnlyAdvancesClock | imessage-undeleter/src/core/event_system.rs:73-91 | An unchanged size yields no events and only advances the check time. |
| EventSystem.FailedQueryIsRetried | imessage-undeleter/src/core/event_system.rs:77-88 | A failing id query leaves the state unchanged, so a later tick at the same size still reports the change. |
| EventSystem.FirstNonEmptyWalIsReported | imessage-undeleter/src/core/event_system.rs:33-39 | The monitor starts at size 0, so the first non-empty WAL seen is reported as a transaction. |
| EventSystem.SecondTickAtSameSizeIsSilent | imessage-undeleter/src/core/event_system.rs:73-89 | After a successful tick, a tick at the same size is silent. |
| EventSystem.Yielded | imessage-undeleter/src/core/event_system.rs:48-57 | A tick puts its events on the stream, or one `MonitoringError` with the error text. |
| EventSystem.TickStreamAppend | imessage-undeleter/src/core/event_system.rs:47-59 | Two runs of ticks in sequence give the concatenated events and the final state. |
| EventSystem.ErrorTickYieldsOneErrorAndContinues | imessage-undeleter/src/core/event_system.rs:54-57 | A failing tick yields exactly one error event, and monitoring goes on as if it had not happened. |
| EventSystem.WalMonitor.constructor | imessage-undeleter/src/core/event_system.rs:33-39 | A new monitor has size 0 and check time `now`. |
| EventSystem.WalMonitor.DetectMessageChanges | imessage-undeleter/src/core/event_system.rs:101-125 | The loop returns the ids of the specification query. |
| EventSystem.WalMonitor.CheckForChanges | imessage-undeleter/src/core/event_system.rs:63-93 | The result and the new fields are those of one specification tick. |
| EventSystem.WalMonitor.StartMonitoring | imessage-undeleter/src/core/event_system.rs:42-61 | The events produced and the final state are those of the tick stream. |
| OutputPlugins.NewHandler | imessage-undeleter/src/core/output_plugins.rs:47-60 | A new handler has nothing opened, nothing delivered and is not finalised. |
| OutputPlugins.HandlersFor | imessage-undeleter/src/core/output_plugins.rs:39-67 | At most one handler per configuration entry. |
| OutputPlugins.HandlersForAppend | imessage-undeleter/src/core/output_plugins.rs:42-63 | Handlers are built entry by entry, in order. |
| OutputPlugins.HandlersForOne | imessage-undeleter/src/core/output_plugins.rs:43-62 | An entry yields its handler when enabled and none when disabled. |
| OutputPlugins.DefaultHandlers | imessage-undeleter/src/core/output_plugins.rs:39-67 | The default outputs are a colored terminal handler, then a pretty JSON handler writing ./deletions.json. |
| OutputPlugins.InitHandler | imessage-undeleter/src/core/output_plugins.rs:121-127 | Initialising a JSON or SQLite handler opens it. A failure changes nothing and never comes from a terminal. |
| OutputPlugins.DeliverHandler | imessage-undeleter/src/core/output_plugins.rs:129-141 | A delivery records the deletion or nothing. A failure changes nothing. |
| OutputPlugins.UninitializedStorageIgnoresDeliveries | imessage-undeleter/src/core/output_plugins.rs:196-216 | An unopened JSON or SQLite handler silently drops a deletion and reports success. A terminal always shows it. A successful delivery by a working handler records it. |
| OutputPlugins.FinalizeHandler | imessage-undeleter/src/core/output_plugins.rs:143-148 | Only an open JSON file can fail (its flush). Success marks the handler finalised. |
| OutputPlugins.RunInOrderMeaning | imessage-undeleter/src/core/output_plugins.rs:70-76 | A run stopping at the first failure succeeds iff every handler succeeds. Handlers up to and including the failing one are stepped; the rest are untouched. An error is the first failure's. |
| OutputPlugins.RunStopsAt | imessage-undeleter/src/core/output_plugins.rs:71-73 | A run reaching a failing handler returns its error and leaves every later handler as it was. |
| OutputPlugins.RunCompletes | imessage-undeleter/src/core/output_plugins.rs:70-76 | A run in which no handler fails steps every handler and succeeds. |
| OutputPlugins.DeliverAll | imessage-undeleter/src/core/output_plugins.rs:79-87 | Every handler is offered the deletion, whatever the others do. |
| OutputPlugins.InitStopsAtFirstFailure | imessage-undeleter/src/core/output_plugins.rs:69-76 | Initialisation returns the first failure. Handlers before it are initialised; it and those after it are unchanged. |
| OutputPlugins.InitializedStorageIsReady | imessage-undeleter/src/core/output_plugins.rs:69-76 | After a successful initialisation every JSON and SQLite handler is open. |
| OutputPlugins.FinalizeStopsAtFirstFailure | imessage-undeleter/src/core/output_plugins.rs:89-95 | One failing flush makes finalisation fail, and every handler after it stays unfinalised. |
| OutputPlugins.DeliveryIndependentOfOthers | imessage-undeleter/src/core/output_plugins.rs:79-87 | What one handler does with a deletion depends only on its own outcome. |
| OutputPlugins.ShownContent | imessage-undeleter/src/core/output_plugins.rs:316-333 | The plain and colored terminal formats show the recovered content, or "[No content]" when the record has none. |
| OutputPlugins.OutputManager.constructor | imessage-undeleter/src/core/output_plugins.rs:39-67 | The manager holds one fresh handler per enabled entry, in order. |
| OutputPlugins.OutputManager.Initialize | imessage-undeleter/src/core/output_plugins.rs:69-76 | The result and the handlers are those of initialising in order, stopping at the first failure. |
| OutputPlugins.OutputManager.HandleDeletion | imessage-undeleter/src/core/output_plugins.rs:78-87 | Always succeeds. Every handler is offered the deletion, and failures are only logged. |
| OutputPlugins.OutputManager.Finalize | imessage-undeleter/src/core/output_plugins.rs:89-95 | The result and the handlers are those of finalising in order, stopping at the first failure. |
| OutputPlugins.OutputManager.RunSteps | imessage-undeleter/src/core/output_plugins.rs:90-93 | The loop shared by `initialize` and `finalize` matches the in-order run. |
| Tracker.DispatchJournalsBeforeSending | imessage-undeleter/src/core/tracker.rs:89-103 | The journal grows by the dispatched records, in order, each carrying the id the store assigned. The loop succeeds iff every insert succeeds, and otherwise stops at the first failing insert. |
| Tracker.DispatchSendsOnlyJournaled | imessage-undeleter/src/core/tracker.rs:93-102 | Outputs only ever receive records that this dispatch journaled. |
| Tracker.EmptyDispatchChangesNothing | imessage-undeleter/src/core/tracker.rs:86-89 | The placeholder empty deletion list changes nothing. |
| Tracker.StoreFailureAbortsRest | imessage-undeleter/src/core/tracker.rs:94-95 | After the first failing insert, no later deletion is journaled. |
| Tracker.AttachmentOnlyShowsNoContent | imessage-undeleter/src/core/output_plugins.rs:316-333 | A record built from an attachment-only detection has no content, so the terminal shows "[No content]". |
| Tracker.FullMessageShowsPlaceholder | imessage-undeleter/src/core/output_plugins.rs:316-333 | A record built from a full-message detection always has content: "Full message content" when the message vanished, otherwise "Modified content". |
| Tracker.DeletionTracker.Assemble | imessage-undeleter/src/core/tracker.rs:45-51 | The tracker holds the given components. |
| Tracker.DeletionTracker.Create | imessage-undeleter/src/core/tracker.rs:29-52 | Succeeds iff the store opens and every output initialises, and the error is the first failure. A new tracker holds a fresh monitor at size 0, the purged store, the retained detectors and the initialised handlers. |
| Tracker.DeletionTracker.DispatchDeletions | imessage-undeleter/src/core/tracker.rs:89-103 | The result, journal, counter and handlers are those of the specification dispatch. Fingerprints are untouched, and the issued ids grow by exactly the ids the counter passed. |
| Tracker.DeletionTracker.HandleEvent | imessage-undeleter/src/core/tracker.rs:77-121 | Every event is handled successfully and changes nothing (journal, fingerprints, counter, issued ids, handlers), since the deletion list is a placeholder. |
| Tracker.DeletionTracker.Start | imessage-undeleter/src/core/tracker.rs:55-74 | The whole stream is consumed and the outputs are finalised once, with that result. The journal, fingerprints, AUTOINCREMENT counter and set of issued ids are unchanged. |
| SimpleTracker.NewerThan | imessage-undeleter/src/database.rs:102-121 | The query returns exactly the rows with a ROWID above the bound. |
| SimpleTracker.RowsWithIds | imessage-undeleter/src/database.rs:123-152 | The query returns exactly the rows whose ROWID is one of the ids. |
| SimpleTracker.Filtered | imessage-undeleter/src/main.rs:109-120 | The filter only drops messages, and without a filter keeps them all. |
| SimpleTracker.FilteredKeepsExactlyKept | imessage-undeleter/src/main.rs:109-117 | A message stays iff it is kept: without a filter always; with one, when its handle resolves and the identifier contains the filter text, or when no handle resolves and it is the user's own. |
| SimpleTracker.OptionLessIsStrictOrder | imessage-undeleter/src/main.rs:144 | Rust's order on `Option<i64>` is a strict order with None below every Some. |
| SimpleTracker.WasDeletedMeaning | imessage-undeleter/src/main.rs:140-144 | The deletion rule in both directions. The cached text is non-blank after trim, the current text is missing or blank, an edit time exists and is later than the cached one. Also stated with blankness and value comparison. |
| SimpleTracker.RetractionAloneIsNotReported | imessage-undeleter/src/main.rs:143-144 | A change whose edit time did not move is never reported. |
| SimpleTracker.ReportedEntryIsNotReportedAgain | imessage-undeleter/src/main.rs:146-153 | A message that replaced a reported entry can never itself be reported as deleted. |
| SimpleTracker.TruncDiv | imessage-undeleter/src/main.rs:176 | Integer division rounding toward zero. |
| SimpleTracker.CreateDeletionEvent | imessage-undeleter/src/main.rs:161-185 | The event carries the message id and text and the date in whole seconds, truncated toward zero. It names one attachment, `attachment_<id>.dat`, exactly when the message has attachments. |
| SimpleTracker.FilteredSenderMatches | imessage-undeleter/src/main.rs:162-164 | Under a filter, the reported sender contains the filter text, unless the message is the user's own and has no resolvable handle. |
| SimpleTracker.SenderFallbacks | imessage-undeleter/src/main.rs:162-172 | The event's sender is the handle's identifier when the handle table has the handle; otherwise "Unknown (ID: n)", where the text between the parentheses reads back as the handle number; without a handle, "Me" for the user's own message and "Unknown" for any other. |
| SimpleTracker.AppendEvent | imessage-undeleter/src/main.rs:187-208 | The rewrite succeeds iff the log is readable and the write succeeds. A failure leaves the file as it was. |
| SimpleTracker.AppendKeepsEarlierEntries | imessage-undeleter/src/main.rs:194-205 | The rewritten log holds the earlier events, then the new one. A missing, blank or unparsable log restarts with just the new event. |
| SimpleTracker.LoadAllAddsMessagesWithText | imessage-undeleter/src/main.rs:89-93 | Loading adds exactly the ids of messages with non-blank text. Each entry is an earlier one or a loaded message with that id. |
| SimpleTracker.InsertNewNeverOverwrites | imessage-undeleter/src/main.rs:122-128 | The scan adds exactly the ids of scanned messages with text and never overwrites a cached entry. |
| SimpleTracker.MaxKey | imessage-undeleter/src/main.rs:103 | The largest cached id, or 0 for an empty cache. |
| SimpleTracker.CompareReplacesOnlyDeleted | imessage-undeleter/src/main.rs:138-155 | The comparison keeps the cached ids. An entry is untouched or replaced by its re-read row, and only when that row shows it deleted. |
| SimpleTracker.CompareLogGrows | imessage-undeleter/src/main.rs:146-153 | The log is unchanged or grows with its earlier events as a prefix. An unreadable log leaves the cache unchanged. A failed report leaves that deleted entry cached and unreported; the error then ends the tracker. |
| SimpleTracker.PollKeepsOrReplacesDeleted | imessage-undeleter/src/main.rs:98-159 | A poll keeps every cached id. An entry stays or is replaced by a row that shows it deleted, and entries stay keyed by their own id. |
| SimpleTracker.PollAddsOnlyNewerKept | imessage-undeleter/src/main.rs:103-128 | Every entry a poll adds is a kept table row with text, whose id is above the largest id cached before. |
| SimpleTracker.PollNeverReportsTwice | imessage-undeleter/src/main.rs:138-155 | A blank cached entry, such as a reported one, is never reported or replaced again. |
| SimpleTracker.DistinctIdsTail | imessage-undeleter/src/database.rs:123-152 | Rows with unique ROWIDs stay unique after the first, and none repeats the first row's id. |
| SimpleTracker.RowsWithIdsDistinct | imessage-undeleter/src/database.rs:123-152 | The rows selected by id from a table with unique ROWIDs have unique ids. |
| SimpleTracker.ReportsIgnoreOtherIds | imessage-undeleter/src/main.rs:138-155 | What the comparison should report does not depend on cache entries of ids no re-read row carries. |
| SimpleTracker.CompareOutcome | imessage-undeleter/src/main.rs:138-155 | With unique row ids the comparison succeeds iff nothing is to be reported or the log is readable and writable. A failure changes neither cache nor log and is the read or the write error. |
| SimpleTracker.CompareAppendsReports | imessage-undeleter/src/main.rs:138-155 | A successful comparison leaves the log alone when no message was deleted, and otherwise writes its earlier events then one `create_deletion_event` per deleted message, in row order. |
| SimpleTracker.CompareReplacesReported | imessage-undeleter/src/main.rs:146-153 | After a successful comparison every message reported deleted is cached as its re-read row. |
| SimpleTracker.ReportsOfEmptyCache | imessage-undeleter/src/main.rs:130-132 | Nothing is reported against an empty cache. |
| SimpleTracker.PollReportsDeleted | imessage-undeleter/src/main.rs:98-159 | A poll over unique ROWIDs reports every cached message whose row shows it deleted: with both queries working it succeeds iff there is nothing to report or the log is writable; on success the log gains exactly those events and each such message is cached as its row. |
| SimpleTracker.MessageTracker.constructor | imessage-undeleter/src/main.rs:34-42 | A new tracker has an empty cache and no database. |
| SimpleTracker.MessageTracker.Connect | imessage-undeleter/src/main.rs:52-60 | Opening succeeds iff the connection does, and only then is the handle table kept. |
| SimpleTracker.MessageTracker.LoadInitialMessages | imessage-undeleter/src/main.rs:72-96 | Without a database nothing happens. A failed query is returned with the cache unchanged. Otherwise the filtered messages with text are loaded into the cache. |
| SimpleTracker.MessageTracker.MaxCachedId | imessage-undeleter/src/main.rs:103 | The loop returns the largest cached id, or 0. |
| SimpleTracker.MessageTracker.HandleDeletion | imessage-undeleter/src/main.rs:187-208 | The log becomes the specification rewrite with the event appended. |
| SimpleTracker.MessageTracker.ScanNew | imessage-undeleter/src/main.rs:122-128 | The cache becomes the non-overwriting insertion of the scanned messages with text. |
| SimpleTracker.MessageTracker.CompareAll | imessage-undeleter/src/main.rs:138-155 | The result, cache and log are those of the specification comparison, which reports exactly the deleted messages and caches their rows (CompareOutcome, CompareAppendsReports, CompareReplacesReported). |
| SimpleTracker.MessageTracker.CheckForChanges | imessage-undeleter/src/main.rs:98-159 | The result, cache and log are those of one specification poll against the table, which reports every cached message whose row shows it deleted (PollReportsDeleted). |

## Left out

- Asynchrony, locks (`Arc<RwLock<..>>`), logging (`tracing`) and the terminal escape sequences are not modelled.
  - Each operation runs to completion in program order.
- Real I/O is replaced by inputs to each operation:
  - the SQLite connections, the file system, HTTP requests and `println!` output;
  - the message table, as a snapshot in ROWID order;
  - the outcome of each statement, flush or request, as a boolean;
  - the clock, as an integer `now`.
- The blake3 digest is an argument of `HashContent` and `HashAttachment`. Only the text it is applied to is modelled.
- `get_fingerprint` and `store_fingerprint` are taken to succeed.
  - Only `store_deletion` and the batch carry a failure outcome.
  - JSON serialisation never fails.
- JSON text formats are not modelled:
  - stored lists are `JsonList`/`Malformed`;
  - a log file is Missing, Unreadable, Blank, Garbled or a list of events;
  - a failed write is taken to leave the file unchanged.
- `OutputConfig.config`, the free-form per-output `serde_json::Value` (config.rs:61-62), is not modelled: no handler reads it.
- Integer widths (`i32` ids, `u64` sizes, `i64` times) are unbounded here; no operation relies on wrap-around.
- `Path` handling is only the `set_extension` rule on `/`-separated strings.
  - `~` expansion, normalisation and non-UTF-8 paths are not modelled.
- The webhook's HTTP status handling, the SQLite sink's table creation and its column list are not modelled.
  - The SQLite sink binds seven values to six placeholders, including a `confidence` field that `DeletionRecord` does not have.
  - The terminal formats print that same field.
  - A sink delivery is modelled as recording the record or failing, without its encoding. Of the terminal text, only the content line's default is modelled (`ShownContent`).
- `EventProcessor` is a pass-through to `WalMonitor::start_monitoring`, and the monitor is modelled directly.
- The `TransactionComplete` logging rule in `handle_event` only logs and is not modelled.
- Left out because they compute nothing:
  - `get_stats`, which returns constant zeros;
  - `ShutdownHandler`, which only calls `finalize`, modelled as `OutputManager.Finalize`;
  - `create_tracker_from_config_file` (TOML parsing);
  - `create_default_tracker`, which is `Create` with `Config.Default`.
- `detect_message_changes` computes a `since_timestamp` from the elapsed time.
  - It is a negative bound on `date`, so it admits every message with a positive date.
  - The model treats the query result as an input and keeps only its `LIMIT`.
- EventSystem.WalMonitor.StartMonitoring: the stream is modelled over a finite list of ticks, all of them produced before the tracker consumes any. The interval timer and the interleaving of the lazy stream are not modelled.
- Tracker.DeletionTracker.Start: `start` returns only after its stream ends, so the model covers a finite run.
- `MessageTracker::start` is modelled as its steps, not its endless loop:
  - the output directory creation (`create_dir_all`) and the 500 ms sleep are not modelled;
  - the database is opened with `Connect`;
  - the initial load is `LoadInitialMessages`;
  - each poll is `CheckForChanges`;
  - an `Err` from any step ends `start`, and `main` then prints it and the program exits, so there is no later poll.
- `IMessageDatabase::new` and `load_handles` are represented by the handle map given to `Connect`. A failed open or handle read is its `Err`.
- SimpleTracker.MessageTracker.LoadInitialMessages: `get_recent_messages(1000)` (latest 1000 by date) is an input list. The `date IS NOT NULL` filter of `get_recent_messages` and `get_messages_newer_than` is not modelled, since every row has a date here.
- SimpleTracker.RowsWithIds: `get_messages_by_ids` has no date filter and no `ORDER BY`. The model takes its rows to come back in ROWID order, so the comparison loop, and with it the order of events in the log, follows ROWID order; SQLite does not promise that order.
- The unused database helpers `messages_exist`, `get_recently_modified_messages` and `get_message_count`, and the command-line parsing in `main`, are not modelled.
- The model follows the code where it departs from what its names and comments suggest:
  - The full-message detector also fires on any content-hash change, even with edit tracking off.
  - Recovered content is a fixed placeholder string ("Full message content", "Modified content", "Content changed"), not the original text.
  - A sink that fails to initialise makes `DeletionTracker::new` fail rather than being skipped.
  - Retention purging runs only when the store is opened.
  - Because the current fingerprint is never built, the engine reports the same message again every time it is analysed (`StubAnalysisReportsOnlyVanished`).
  - The coordinator's `handle_event` dispatches an always-empty list, so the event-driven path never journals or delivers anything (`HandleEvent`). Its deletion loop is still modelled and proved, as `DispatchDeletions`.

## Findings

| source | as written | input that shows it | evidently intended | confidence | as-written member | corrected member |
|---|---|---|---|---|---|---|
| imessage-undeleter/src/core/state_manager.rs:175 | `get_deletions_in_range` selects seven columns (indices 0 to 6) but reads the attachment list from column index 7, so every matching row fails and the query errs whenever it has something to return | a journal with one entry at deletion time 5, queried over [0, 10] | read `recovered_attachments` from column index 6 (and `recovered_content` from column index 5) and return the matching entries newest first | not executed | StateManager.RangeQueryAsWrittenCounterexample | StateManager.Store.GetDeletionsInRange |
| imessage-undeleter/src/core/state_manager.rs:190 | `get_deletions_in_range` reads `recovered_content` from column index 6, which holds the `recovered_attachments` JSON text. The column-7 defect above makes every matching row fail first, so this one shows only once that read is corrected | a full-message entry with content "Full message content" and no attachments comes back with content "[]" | read `recovered_content` from column index 5, so every entry comes back as stored | not executed | StateManager.RangeRowAsWrittenCounterexample | StateManager.Store.GetDeletionsInRange |
