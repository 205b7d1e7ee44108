# storage-sync: the sync engine, modelled in Dafny

This project models `StorageSync` from `lib/sync/index.js`. `StorageSync` copies files from a source storage container to a destination container. It has two parts.

- **Reconciliation** (module `Reconcile`):
  - the destination index, which `_.keyBy` builds over the destination listing, keyed by full path, with the later entry winning;
  - the base name that the skip list is matched against;
  - the copy-or-skip predicate `ShouldCopy`.
- **The session**:
  - `Session`: the constructor's option defaulting, the optional enumeration of each side, and the specification function `RunSession`, which gives the events, outcome and stored listings of one run of `sync()`;
  - `Schedule`: the sequential per-file loop as the specification function `Process`, and its laws;
  - `Sync`: the class `StorageSync`, with the fields the source mutates (`used`, `_sourceFiles`, `_destinationFiles`) and the emitted events as an append-only `events` sequence. Its `Sync` method runs the waterfall with a `while` loop over the source records and is proved equal to `RunSession`.

A file is a `FileRecord(path, size, mtime)`, where `mtime` is the value of `modificationDate.getTime()`. A container is represented by the result of its one `listFiles()` call. The transfer `_processFile` is a parameter `processFile: FileRecord -> Transfer`, an oracle that says whether the upload of each file succeeds. A `sync()` call ends in one of three ways:
- `Threw`: a synchronous exception;
- `Resolved`: the returned promise resolves;
- `Rejected`: the returned promise rejects.

Modules: `Records` (data), `Reconcile`, `Schedule`, `Session`, `Sync`.

## Model

| member | source | states |
|---|---|---|
| Sync.StorageSync.Create | lib/sync/index.js:14-21 | A missing source container fails with ArgumentException on `sourceContainer`. A present source with a missing destination fails on `destinationContainer`. Otherwise a fresh, unused session holds both containers, the given listings and the defaulted options, and has emitted no events. |
| Sync.StorageSync.constructor | lib/sync/index.js:22-41 | Stores the containers and the pre-supplied listings. Sets `used` to false. Stores the options as NormalizeOptions defaults them. |
| Session.NormalizeOptions | lib/sync/index.js:28-40 | `stopOnError` is true exactly when the boolean `true` was supplied. `skipFileNames` is the supplied array when one was supplied, and `[]` otherwise (including when no options object was passed). |
| Session.Enumerate | lib/sync/index.js:53-81 | One side's listing: RunEnumeration states that a given listing is kept without counting events, and a fetched one is announced by `countingStarted` and `countingDone` with its length, or ends the run on a listing error. |
| Session.RunSession | lib/sync/index.js:51-142 | One run of `sync()`: RunEventOrder, RunEnumeration, RunContinuesOnError and RunStopsOnError state its event order, enumeration, the actions `syncDone` carries for both error policies and whether it resolves or rejects, and its full event trace (counting events, a `file`/`fileDone` pair per handled record, the failing record's `file` event if any, then `syncDone`) once both listings are available. StorageSync.Sync is proved equal to it. |
| Sync.StorageSync.Sync | lib/sync/index.js:43-143 | On a used session, throws "can be invoked only once" and changes nothing. Otherwise it marks the session used. Its outcome, the events it appends and the listings it stores are exactly RunSession's. |
| Sync.SyncTwice | lib/sync/index.js:44-48 | The first call behaves as RunSession says. The second call on the same session always throws and leaves the events and stored listings as the first call left them. |
| Sync.StorageSync.ListSource | lib/sync/index.js:53-66 | Without a given source listing, emits `countingStarted`. On success it emits `countingDone` with the length and stores the listing. On failure it reports the listing error. With a given listing it does nothing. |
| Sync.StorageSync.ListDestination | lib/sync/index.js:68-81 | The same for the destination side. |
| Sync.StorageSync.SyncFiles | lib/sync/index.js:84-134 | The loop's actions, stop error and emitted events are those of `Process` over the source listing against `KeyBy` of the destination listing. The loop invariant ties the processed prefix to `Process` of that prefix. |
| Sync.StorageSync.SyncFile | lib/sync/index.js:88-133 | Emits `file`. The step is the one StepFor decides. A `fileDone` with the action follows exactly when the step completes, and is absent when it stops the loop. |
| Reconcile.BasenameIsLastSegment | lib/sync/index.js:91 | The base name contains no '/', is a suffix of the path, and is either the whole path or preceded by a '/'. |
| Reconcile.BasenameUnique | lib/sync/index.js:91 | Any string with those three properties is the base name, so they define it. |
| Reconcile.BasenameOfJoin | lib/sync/index.js:91 | The base name of `dir/name` is `name`. |
| Reconcile.Basename | lib/sync/index.js:91 | The base name `path.basename` gives: BasenameIsLastSegment and BasenameUnique state that it is the '/'-free suffix that is the whole path or follows the last '/'. |
| Reconcile.LastIndex | lib/sync/index.js:85 | Gives the position of the last entry with a path, or -1 when there is none. No later entry has that path. |
| Reconcile.KeyBy | lib/sync/index.js:85 | The destination index `_.keyBy(destinationFiles, f => f.path)`: KeyByIsLastEntry states that its keys are exactly the listed paths and that each maps to the last entry with that path. |
| Reconcile.KeyByIsLastEntry | lib/sync/index.js:85 | The index holds exactly the listed paths. Each path maps to the last listed entry with that path. |
| Reconcile.KeyByFindsEach | lib/sync/index.js:85 | In a listing with distinct paths, each entry is found under its own path. |
| Reconcile.KeyByAppendOther | lib/sync/index.js:85 | Appending entries with other paths leaves the index unchanged at a path. |
| Reconcile.KeyByAppendHit | lib/sync/index.js:85 | At a path an appended entry has, the index holds an appended entry with that path. |
| Reconcile.ShouldCopy | lib/sync/index.js:93-99 | The copy condition: DecisionRule states, for every processed record, that it is skipped exactly when its base name is in the skip list or the entry at its full path has the same size and an mtime no earlier than the source's. |
| Schedule.ProcessOutcome | lib/sync/index.js:87-134 | The actions are the steps of the records of a prefix of the listing, in order. The prefix is the whole listing unless the next record stopped the loop. The events are `file` and `fileDone` pairs per completed record, then only `file` for the stopping record. |
| Schedule.Process | lib/sync/index.js:87-134 | The sequential loop: it never yields more actions than records, and ProcessOutcome characterizes its actions, stop error and events position by position. |
| Schedule.StepFor | lib/sync/index.js:88-133 | One record's fate: ContinueOnError and StopOnError state that it is a skip, a copy, an error carrying the failure, or (with `stopOnError`) a stop with that failure, exactly as the decision and the transfer outcome say. |
| Schedule.ProcessNext | lib/sync/index.js:87-134 | One more record while the loop runs: its `file` event, then either its action and `fileDone`, or the stop with its error. |
| Schedule.ProcessStopped | lib/sync/index.js:112-113 | Once a transfer failure stopped the loop, later records change nothing. |
| Schedule.ProcessEmitsFileEvents | lib/sync/index.js:87-134 | The loop emits only `file` and `fileDone` events. |
| Schedule.FileEventsAt | lib/sync/index.js:87-134 | The i-th completed record's events are `file` with the record, then `fileDone` with its action. |
| Schedule.DecisionRule | lib/sync/index.js:93-99 | A processed record is skipped exactly when its base name is in `skipFileNames`, or the destination has an entry at its full path with equal size and an mtime no earlier than the source's. Otherwise it is copied when the transfer succeeds. |
| Schedule.ContinueOnError | lib/sync/index.js:111-123 | With `stopOnError` false, every record gets exactly one action, in listing order, for its path. The action is skip if the record is not to be copied, copy if the transfer succeeded, and error with the failure otherwise. The events are exactly `file`/`fileDone` per record, and nothing stops the loop. |
| Schedule.StopOnError | lib/sync/index.js:112-113 | With `stopOnError` true, the loop stops if and only if some to-be-copied record fails. It stops at the first one, with that error. The failing record gets a `file` event and no action. Every action is a copy for a record that was to be copied and a skip otherwise. When nothing fails, every record gets its action and its `file`/`fileDone` pair. |
| Schedule.NoFailureCompletes | lib/sync/index.js:87-134 | Without a failing transfer, every record is handled and none has an error action. |
| Schedule.NothingToCopySkipsAll | lib/sync/index.js:125-131 | When no record is to be copied, the actions are exactly one skip per record. |
| Schedule.CopiedRecords | lib/sync/index.js:101-107 | Gives exactly the records whose action is a copy. |
| Schedule.ResyncRetriesOnlyErrors | lib/sync/index.js:93-99 | Re-run against the destination the run left behind, the records to copy are exactly the run's error records. Premise: each copy left in the destination an entry at the record's path with the source's size and an mtime no earlier than the source's (Replicates), which the container's upload decides, not the engine. |
| Schedule.ResyncOne | lib/sync/index.js:93-99 | The same for one processed record, under the same Replicates premise. |
| Schedule.ResyncCopied | lib/sync/index.js:93-99 | A copied record, whose replica is now in the destination, is not copied again. |
| Schedule.UncopiedNotWritten | lib/sync/index.js:101-107 | No written entry has the path of a record the run did not copy. |
| Schedule.ResyncNotCopied | lib/sync/index.js:93-99 | A record whose destination entry did not change is decided as before. |
| Schedule.ResyncSkipsAll | lib/sync/index.js:93-99 | Idempotence: after a run with no failed transfer, a second run skips every record. Premise: each copy left in the destination an entry at the record's path with the source's size and an mtime no earlier than the source's (Replicates), which the container's upload decides, not the engine. |
| Schedule.LookupByFullPath | lib/sync/index.js:85-90 | `b/x.txt` is copied even though the destination has `a/x.txt`. Of two destination entries with one path, the later one decides. |
| Schedule.ExampleRun | lib/sync/index.js:87-134 | With `a.txt` mirrored and `b.txt` missing from the destination, the actions are `[skip a.txt, copy b.txt]`. |
| Session.RunEventOrder | lib/sync/index.js:53-141 | Every run's events are counting events, then file events, then `syncDone` exactly once, as the last event. |
| Session.PhasesWellOrdered | lib/sync/index.js:136-137 | Counting events, then file events, then one `syncDone` form a well-ordered trace. |
| Session.RunEnumeration | lib/sync/index.js:53-82 | A listing is fetched only when none was given. `countingStarted` precedes `countingDone`, which carries the listing's length. The source side comes before the destination side. The fetched listing is stored, and a given listing is kept with no counting event for its side. A failed listing on either side rejects with its error right after that side's `countingStarted`, followed only by `syncDone([])`. |
| Session.RunContinuesOnError | lib/sync/index.js:136-141 | With `stopOnError` false, the session resolves, and `syncDone` carries one action per source record, in order: a skip when the record is not to be copied, a copy when its transfer succeeded, and an error carrying the failure otherwise. The trace is exactly the counting events, a `file`/`fileDone` pair per record, then `syncDone`. |
| Session.RunStopsOnError | lib/sync/index.js:136-141 | With `stopOnError` true, the session resolves if and only if no transfer fails. It then carries in `syncDone` one action per source record: a copy for each record that was to be copied, a skip for the others. Otherwise it rejects with the first failure, and `syncDone` carries those actions for the records before it. The trace is the counting events, a `file`/`fileDone` pair per handled record, the failing record's `file` event if any, then `syncDone`. |
| Session.GivenFilesAsWritten | lib/sync/index.js:23-25 | As written, the constructor reads `options.sourceFiles` from a missing options object and throws a TypeError. It fails exactly when no options were passed. |

## Left out

- `_processFile` (lib/sync/index.js:146-154): `getReadStream`, `uploadFile`, the stream error handler and its `console.log` are container and stream calls. They become the `processFile` oracle, which says per record whether the transfer succeeds.
- `async.waterfall`, `async.eachSeries`, the Promise and `process.nextTick` are modelled as sequential steps. Event dispatch to `EventEmitter` listeners is modelled as an append-only `events` sequence.
- `Date` values: only the integer that `getTime()` returns is modelled.
- Basename follows everything after the last '/'. Node's `path.basename` ignores a trailing '/' and, on Windows, also splits at '\'. Here a path ending in '/' has the empty base name.
- Transfer progress reporting: the engine has no code for it.
- The container implementation (`../container`) and the exception classes (`../exceptions`) are not part of this model. A listing or transfer error is an opaque `Fault`.
- Sync.StorageSync.Sync: that `used` is set before any enumeration or transfer is captured by the statement order of the method body. No contract states it, because the model has no intermediate observation point.
- Sync.StorageSync.Sync: several defects are modelled by their evident intent, not as written:
  - `cb(null)` passes no values to the waterfall steps that take `sourceFiles` and `destinationFiles` (lines 55, 64, 70, 79, 68, 83). The listings flow through the `_sourceFiles` and `_destinationFiles` fields.
  - Line 103 declares `const action` in an arrow function whose parameter is also `action`. That is a SyntaxError at parse time, so the module as written does not load at all. The model follows the evident intent of a fresh action object.
  - The final callback of `eachSeries` (line 134) passes no actions to `syncDone` (line 137). Here `syncDone` carries the `actions` array. When an enumeration fails before the loop it carries the empty sequence.
- Session.NormalizeOptions: a missing options object gets all defaults, as lines 28-30 intend. Lines 23 and 25 as written throw first; see Findings.
- Sync.StorageSync.constructor: the source shares the caller's objects. It writes the defaults into the caller's own `options` object (lines 33 and 37), keeps a reference to it (line 40) and to the given listings (lines 23 and 25), and `sync()` reads `self.options` when it runs (lines 94 and 112). A caller who changes that object or those arrays after construction therefore changes the run. The model copies the values at construction, so this aliasing is not captured.
- JavaScript values in options are reduced to undefined, a boolean, an array of strings, or any other value.

## Findings

| source | as written | input that shows it | evidently intended | confidence | as-written member | corrected member |
|---|---|---|---|---|---|---|
| lib/sync/index.js:23-25 | `options.sourceFiles` and `options.destinationFiles` are read before line 28 replaces a missing `options` with `{}` | `new StorageSync(src, dst)` with no options object: reading a property of `undefined` throws a TypeError (once line 103's SyntaxError is fixed, so that the module loads) | a missing options object means all defaults and no given listings | high (not executed) | Session.GivenFilesAsWritten, Session.MissingOptionsRejectedAsWritten | Sync.StorageSync.Create |
