/**
 * The reconcile-and-transfer loop of lib/sync/index.js (lines 84-134) as a
 * specification: what processing one source record yields, what processing
 * a listing in order yields (actions, emitted events and the error that
 * stopped it, if any), and the laws of that process.
 */
module Schedule {
  import opened Records
  import opened Reconcile

  /** The fate of one source record: an action for the `actions` array, or a
      transfer failure that stops the loop. */
  datatype Step = Done(action: Action) | Abort(fault: Fault)

  /** Lines 88-133 for one record: skip it, or transfer it and record a copy,
      or on failure either stop (`stopOnError`) or record an error. */
  function StepFor(rec: FileRecord, index: map<string, FileRecord>, options: SyncOptions,
                   processFile: FileRecord -> Transfer): Step
  {
    if !ShouldCopy(rec, index, options.skipFileNames) then Done(Skip(rec.path))
    else match processFile(rec)
      case Transferred => Done(Copy(rec.path))
      case TransferFailed(f) => if options.stopOnError then Abort(f) else Done(Error(rec.path, f))
  }

  /** The state of the loop after a prefix of the source listing: the actions
      pushed, the events emitted, and the error that ended it early. */
  datatype Progress = Progress(actions: seq<Action>, trace: seq<Event>, failure: Option<Fault>)

  /** `eachSeries` over `src`: one record at a time, in listing order, until a
      record aborts. */
  function Process(src: seq<FileRecord>, index: map<string, FileRecord>, options: SyncOptions,
                   processFile: FileRecord -> Transfer): (p: Progress)
    ensures |p.actions| <= |src|
  {
    if src == [] then Progress([], [], None)
    else
      var p := Process(src[..|src| - 1], index, options, processFile);
      var rec := src[|src| - 1];
      if p.failure.Some? then p
      else match StepFor(rec, index, options, processFile)
        case Done(a) => Progress(p.actions + [a], p.trace + [File(rec), FileDone(a)], None)
        case Abort(f) => Progress(p.actions, p.trace + [File(rec)], Some(f))
  }

  /** The events of records handled to completion: a `file` event, then the
      `fileDone` event with the record's action. */
  function FileEvents(recs: seq<FileRecord>, actions: seq<Action>): (t: seq<Event>)
    requires |recs| == |actions|
    ensures |t| == 2 * |recs|
  {
    if recs == [] then []
    else FileEvents(recs[..|recs| - 1], actions[..|actions| - 1])
         + [File(recs[|recs| - 1]), FileDone(actions[|actions| - 1])]
  }

  /** Process characterized: the actions are the steps of a prefix of `src`,
      that prefix is all of `src` unless the next record aborted, and the
      events are those of the prefix plus, on an abort, the `file` event of the
      failing record and no `fileDone`. */
  ghost predicate Characterized(src: seq<FileRecord>, index: map<string, FileRecord>, options: SyncOptions,
                                processFile: FileRecord -> Transfer, p: Progress)
  {
    var n := |p.actions|;
    && n <= |src|
    && (forall i | 0 <= i < n :: StepFor(src[i], index, options, processFile) == Done(p.actions[i]))
    && (p.failure.None? ==> n == |src|)
    && (p.failure.Some? ==> n < |src| && StepFor(src[n], index, options, processFile) == Abort(p.failure.value))
    && p.trace == FileEvents(src[..n], p.actions) + (if p.failure.Some? then [File(src[n])] else [])
  }

  lemma {:induction false} ProcessOutcome(src: seq<FileRecord>, index: map<string, FileRecord>,
                                          options: SyncOptions, processFile: FileRecord -> Transfer)
    ensures Characterized(src, index, options, processFile, Process(src, index, options, processFile))
  {
    if src != [] {
      var init := src[..|src| - 1];
      ProcessOutcome(init, index, options, processFile);
      var q := Process(init, index, options, processFile);
      if q.failure.Some? {
        ProcessOutcomeStopped(src, index, options, processFile, q);
      } else {
        match StepFor(src[|src| - 1], index, options, processFile)
        case Done(a) =>
          ProcessOutcomeDone(src, index, options, processFile, q, a);
        case Abort(f) =>
          ProcessOutcomeAbort(src, index, options, processFile, q, f);
      }
    }
  }

  /** The step of ProcessOutcome where the loop had already stopped. */
  lemma ProcessOutcomeStopped(src: seq<FileRecord>, index: map<string, FileRecord>, options: SyncOptions,
                              processFile: FileRecord -> Transfer, q: Progress)
    requires src != []
    requires q == Process(src[..|src| - 1], index, options, processFile)
    requires Characterized(src[..|src| - 1], index, options, processFile, q)
    requires q.failure.Some?
    ensures Characterized(src, index, options, processFile, Process(src, index, options, processFile))
  {
    var init := src[..|src| - 1];
    var n := |q.actions|;
    assert Process(src, index, options, processFile) == q;
    assert src[..n] == init[..n];
    assert src[n] == init[n];
    forall i | 0 <= i < n
      ensures StepFor(src[i], index, options, processFile) == Done(q.actions[i])
    {
      assert src[i] == init[i];
    }
  }

  /** The step of ProcessOutcome where the last record completes. */
  lemma ProcessOutcomeDone(src: seq<FileRecord>, index: map<string, FileRecord>, options: SyncOptions,
                           processFile: FileRecord -> Transfer, q: Progress, a: Action)
    requires src != []
    requires q == Process(src[..|src| - 1], index, options, processFile)
    requires Characterized(src[..|src| - 1], index, options, processFile, q)
    requires q.failure.None?
    requires StepFor(src[|src| - 1], index, options, processFile) == Done(a)
    ensures Characterized(src, index, options, processFile, Process(src, index, options, processFile))
  {
    var init := src[..|src| - 1];
    var acts := q.actions + [a];
    assert init[..|init|] == init;
    assert acts[..|acts| - 1] == q.actions;
    assert src[..|src|] == src;
    assert Process(src, index, options, processFile) == Progress(acts, FileEvents(src, acts), None);
    assert forall i | 0 <= i < |init| :: src[i] == init[i];
  }

  /** The step of ProcessOutcome where the last record aborts. */
  lemma ProcessOutcomeAbort(src: seq<FileRecord>, index: map<string, FileRecord>, options: SyncOptions,
                            processFile: FileRecord -> Transfer, q: Progress, f: Fault)
    requires src != []
    requires q == Process(src[..|src| - 1], index, options, processFile)
    requires Characterized(src[..|src| - 1], index, options, processFile, q)
    requires q.failure.None?
    requires StepFor(src[|src| - 1], index, options, processFile) == Abort(f)
    ensures Characterized(src, index, options, processFile, Process(src, index, options, processFile))
  {
    var init := src[..|src| - 1];
    assert init[..|init|] == init;
    assert Process(src, index, options, processFile) == Progress(q.actions, q.trace + [File(src[|src| - 1])], Some(f));
    assert forall i | 0 <= i < |init| :: src[i] == init[i];
  }

  /** One more record, while the loop is still running: its `file` event,
      then either its action and `fileDone` event, or the stop. */
  lemma ProcessNext(src: seq<FileRecord>, i: nat, index: map<string, FileRecord>,
                    options: SyncOptions, processFile: FileRecord -> Transfer)
    requires i < |src|
    requires Process(src[..i], index, options, processFile).failure.None?
    ensures var p := Process(src[..i], index, options, processFile);
      var step := StepFor(src[i], index, options, processFile);
      Process(src[..i + 1], index, options, processFile)
      == if step.Done? then Progress(p.actions + [step.action], p.trace + [File(src[i]), FileDone(step.action)], None)
         else Progress(p.actions, p.trace + [File(src[i])], Some(step.fault))
  {
    assert src[..i + 1][..i] == src[..i];
  }

  /** Once the loop has stopped, the records after the failing one change
      nothing. */
  lemma {:induction false} ProcessStopped(src: seq<FileRecord>, m: nat, index: map<string, FileRecord>,
                                          options: SyncOptions, processFile: FileRecord -> Transfer)
    requires m <= |src|
    requires Process(src[..m], index, options, processFile).failure.Some?
    ensures Process(src, index, options, processFile) == Process(src[..m], index, options, processFile)
  {
    if m < |src| {
      var init := src[..|src| - 1];
      assert init[..m] == src[..m];
      ProcessStopped(init, m, index, options, processFile);
    } else {
      assert src[..m] == src;
    }
  }

  /** No event of the loop is a counting or a `syncDone` event. */
  lemma {:induction false} FileEventsOnly(recs: seq<FileRecord>, actions: seq<Action>)
    requires |recs| == |actions|
    ensures forall e | e in FileEvents(recs, actions) :: e.File? || e.FileDone?
  {
    if recs != [] {
      FileEventsOnly(recs[..|recs| - 1], actions[..|actions| - 1]);
    }
  }

  /** Processing emits nothing but `file` and `fileDone` events. */
  lemma ProcessEmitsFileEvents(src: seq<FileRecord>, index: map<string, FileRecord>, options: SyncOptions,
                               processFile: FileRecord -> Transfer)
    ensures forall e | e in Process(src, index, options, processFile).trace :: IsFileEvent(e)
    ensures forall k | 0 <= k < |Process(src, index, options, processFile).trace| ::
      IsFileEvent(Process(src, index, options, processFile).trace[k])
  {
    var p := Process(src, index, options, processFile);
    ProcessOutcome(src, index, options, processFile);
    FileEventsOnly(src[..|p.actions|], p.actions);
    assert forall k | 0 <= k < |p.trace| :: p.trace[k] in p.trace;
  }

  /** The `file`/`fileDone` pair of the i-th record. */
  lemma {:induction false} FileEventsAt(recs: seq<FileRecord>, actions: seq<Action>, i: nat)
    requires |recs| == |actions| && i < |recs|
    ensures FileEvents(recs, actions)[2 * i] == File(recs[i])
    ensures FileEvents(recs, actions)[2 * i + 1] == FileDone(actions[i])
  {
    if i < |recs| - 1 {
      FileEventsAt(recs[..|recs| - 1], actions[..|actions| - 1], i);
    }
  }

  /** With `stopOnError` false every source record yields exactly one action,
      in listing order: a skip when it is not to be copied, a copy when its
      transfer succeeded, an error carrying the failure otherwise; each is
      announced by a `file` and a `fileDone` event, and nothing stops the
      loop. */
  lemma ContinueOnError(src: seq<FileRecord>, index: map<string, FileRecord>,
                        options: SyncOptions, processFile: FileRecord -> Transfer)
    requires !options.stopOnError
    ensures var p := Process(src, index, options, processFile);
      && p.failure.None?
      && |p.actions| == |src|
      && p.trace == FileEvents(src, p.actions)
      && forall i | 0 <= i < |src| ::
           && p.actions[i].path == src[i].path
           && (p.actions[i].Skip? <==> !ShouldCopy(src[i], index, options.skipFileNames))
           && (p.actions[i].Copy? <==> ShouldCopy(src[i], index, options.skipFileNames) && processFile(src[i]).Transferred?)
           && (p.actions[i].Error? <==> ShouldCopy(src[i], index, options.skipFileNames) && processFile(src[i]).TransferFailed?)
           && (p.actions[i].Error? ==> p.actions[i].error == processFile(src[i]).fault)
  {
    ProcessOutcome(src, index, options, processFile);
    assert src[..|src|] == src;
  }

  /** The decision rule as a run applies it, whatever the error policy: a
      processed record is skipped exactly when its base name is in the skip
      list, or the destination has an entry at its full path with the same
      size and a modification time no earlier than the source's; every other
      processed record is transferred. */
  lemma DecisionRule(src: seq<FileRecord>, index: map<string, FileRecord>,
                     options: SyncOptions, processFile: FileRecord -> Transfer)
    ensures var p := Process(src, index, options, processFile);
      forall i | 0 <= i < |p.actions| ::
        && p.actions[i].path == src[i].path
        && (p.actions[i].Skip? <==>
              || Basename(src[i].path) in options.skipFileNames
              || (&& src[i].path in index
                  && src[i].size == index[src[i].path].size
                  && src[i].mtime <= index[src[i].path].mtime))
        && (p.actions[i].Copy? <==> !p.actions[i].Skip? && processFile(src[i]).Transferred?)
  {
    ProcessOutcome(src, index, options, processFile);
  }

  /** A record is to be copied and its transfer fails. */
  predicate FailsToCopy(rec: FileRecord, index: map<string, FileRecord>, options: SyncOptions,
                        processFile: FileRecord -> Transfer)
  {
    ShouldCopy(rec, index, options.skipFileNames) && processFile(rec).TransferFailed?
  }

  /** With `stopOnError` true the loop stops exactly when a transfer fails, at
      the first such record: the actions are those of the records before it
      (skips and copies only), the failing record gets a `file` event and no
      action, and its error is the one reported. When nothing fails, every
      record gets its skip or copy action and its `file`/`fileDone` pair. */
  lemma StopOnError(src: seq<FileRecord>, index: map<string, FileRecord>,
                    options: SyncOptions, processFile: FileRecord -> Transfer)
    requires options.stopOnError
    ensures var p := Process(src, index, options, processFile);
      && (p.failure.None? <==> forall i | 0 <= i < |src| :: !FailsToCopy(src[i], index, options, processFile))
      && (p.failure.None? ==> |p.actions| == |src| && p.trace == FileEvents(src, p.actions))
      && (p.failure.Some? ==>
            var k := |p.actions|;
            && k < |src|
            && FailsToCopy(src[k], index, options, processFile)
            && p.failure.value == processFile(src[k]).fault
            && p.trace == FileEvents(src[..k], p.actions) + [File(src[k])])
      && forall i | 0 <= i < |p.actions| ::
           && !FailsToCopy(src[i], index, options, processFile)
           && p.actions[i] == (if ShouldCopy(src[i], index, options.skipFileNames) then Copy(src[i].path) else Skip(src[i].path))
  {
    ProcessOutcome(src, index, options, processFile);
    var p := Process(src, index, options, processFile);
    forall i | 0 <= i < |p.actions|
      ensures !FailsToCopy(src[i], index, options, processFile)
    {
      assert StepFor(src[i], index, options, processFile).Done?;
    }
    if p.failure.Some? {
      assert StepFor(src[|p.actions|], index, options, processFile).Abort?;
    } else {
      assert src[..|src|] == src;
    }
  }

  /** The records whose action in `actions` is a copy. */
  function CopiedRecords(src: seq<FileRecord>, actions: seq<Action>): (r: seq<FileRecord>)
    requires |actions| <= |src|
    ensures forall k | 0 <= k < |r| :: exists j | 0 <= j < |actions| :: actions[j].Copy? && r[k] == src[j]
    ensures forall j | 0 <= j < |actions| && actions[j].Copy? :: src[j] in r
  {
    if actions == [] then []
    else
      var n := |actions| - 1;
      CopiedRecords(src, actions[..n]) + (if actions[n].Copy? then [src[n]] else [])
  }

  /** What an upload of `rec` leaves in the destination listing: the same path
      and size, and a modification time no earlier than the source's. */
  predicate Replicates(written: FileRecord, rec: FileRecord) {
    written.path == rec.path && written.size == rec.size && written.mtime >= rec.mtime
  }

  /** Re-running against the destination a run left behind: if `written` are
      the destination entries the run's copies produced, then of the records
      the run processed exactly those whose transfer failed (error actions)
      are to be copied again; all skips and copies are now skips. */
  lemma ResyncRetriesOnlyErrors(src: seq<FileRecord>, dst: seq<FileRecord>, written: seq<FileRecord>,
                                options: SyncOptions, processFile: FileRecord -> Transfer)
    requires PathsDistinct(src)
    requires var copied := CopiedRecords(src, Process(src, KeyBy(dst), options, processFile).actions);
      |written| == |copied| && forall k | 0 <= k < |written| :: Replicates(written[k], copied[k])
    ensures var p := Process(src, KeyBy(dst), options, processFile);
      forall i | 0 <= i < |p.actions| ::
        ShouldCopy(src[i], KeyBy(dst + written), options.skipFileNames) <==> p.actions[i].Error?
  {
    var p := Process(src, KeyBy(dst), options, processFile);
    var copied := CopiedRecords(src, p.actions);
    ProcessOutcome(src, KeyBy(dst), options, processFile);
    forall i | 0 <= i < |p.actions|
      ensures ShouldCopy(src[i], KeyBy(dst + written), options.skipFileNames) <==> p.actions[i].Error?
    {
      ResyncOne(src, dst, written, copied, p.actions, i, options, processFile);
    }
  }

  /** ResyncRetriesOnlyErrors for one processed record. */
  lemma ResyncOne(src: seq<FileRecord>, dst: seq<FileRecord>, written: seq<FileRecord>,
                  copied: seq<FileRecord>, actions: seq<Action>, i: nat,
                  options: SyncOptions, processFile: FileRecord -> Transfer)
    requires PathsDistinct(src)
    requires i < |actions| <= |src| && copied == CopiedRecords(src, actions)
    requires StepFor(src[i], KeyBy(dst), options, processFile) == Done(actions[i])
    requires |written| == |copied| && forall k | 0 <= k < |written| :: Replicates(written[k], copied[k])
    ensures ShouldCopy(src[i], KeyBy(dst + written), options.skipFileNames) <==> actions[i].Error?
  {
    if actions[i].Copy? {
      WrittenFromCopies(src, written, copied, actions);
      CopyWritten(src, written, copied, actions, i);
      ResyncCopied(src, dst, written, actions, i, options.skipFileNames);
    } else {
      UncopiedNotWritten(src, written, copied, actions, i);
      ResyncNotCopied(src[i], dst, written, options.skipFileNames);
      UncopiedDecision(src[i], KeyBy(dst), options, processFile, actions[i]);
    }
  }

  /** A record that was processed but not copied was an error exactly when
      the decision was to copy it. */
  lemma UncopiedDecision(rec: FileRecord, index: map<string, FileRecord>, options: SyncOptions,
                         processFile: FileRecord -> Transfer, a: Action)
    requires StepFor(rec, index, options, processFile) == Done(a) && !a.Copy?
    ensures a.Error? <==> ShouldCopy(rec, index, options.skipFileNames)
  {
  }

  /** Each written entry replicates a record the run copied. */
  lemma WrittenFromCopies(src: seq<FileRecord>, written: seq<FileRecord>, copied: seq<FileRecord>,
                          actions: seq<Action>)
    requires |actions| <= |src| && copied == CopiedRecords(src, actions)
    requires |written| == |copied| && forall k | 0 <= k < |written| :: Replicates(written[k], copied[k])
    ensures forall k | 0 <= k < |written| ::
      exists j | 0 <= j < |actions| :: actions[j].Copy? && Replicates(written[k], src[j])
  {
  }

  /** A record the run copied has a written entry at its path. */
  lemma CopyWritten(src: seq<FileRecord>, written: seq<FileRecord>, copied: seq<FileRecord>,
                    actions: seq<Action>, i: nat)
    requires i < |actions| <= |src| && actions[i].Copy? && copied == CopiedRecords(src, actions)
    requires |written| == |copied| && forall k | 0 <= k < |written| :: Replicates(written[k], copied[k])
    ensures exists k | 0 <= k < |written| :: written[k].path == src[i].path
  {
    assert src[i] in copied;
    var k :| 0 <= k < |copied| && copied[k] == src[i];
    assert written[k].path == src[i].path;
  }

  /** A copied record now finds its own replica in the destination. */
  lemma ResyncCopied(src: seq<FileRecord>, dst: seq<FileRecord>, written: seq<FileRecord>,
                     actions: seq<Action>, i: nat, skipFileNames: seq<string>)
    requires PathsDistinct(src)
    requires i < |actions| <= |src| && actions[i].Copy?
    requires forall k | 0 <= k < |written| ::
      exists j | 0 <= j < |actions| :: actions[j].Copy? && Replicates(written[k], src[j])
    requires exists k | 0 <= k < |written| :: written[k].path == src[i].path
    ensures !ShouldCopy(src[i], KeyBy(dst + written), skipFileNames)
  {
    var p := src[i].path;
    var k :| 0 <= k < |written| && written[k].path == p;
    KeyByAppendHit(dst, written, k);
    var m :| 0 <= m < |written| && written[m].path == p && KeyBy(dst + written)[p] == written[m];
    var j :| 0 <= j < |actions| && actions[j].Copy? && Replicates(written[m], src[j]);
    assert src[j].path == p;
    assert j == i;
    ResyncWritten(src[i], written[m], KeyBy(dst + written), skipFileNames);
  }

  /** No written entry has the path of a record the run did not copy. */
  lemma UncopiedNotWritten(src: seq<FileRecord>, written: seq<FileRecord>, copied: seq<FileRecord>,
                           actions: seq<Action>, i: nat)
    requires PathsDistinct(src)
    requires i < |actions| <= |src| && !actions[i].Copy? && copied == CopiedRecords(src, actions)
    requires |written| == |copied| && forall k | 0 <= k < |written| :: Replicates(written[k], copied[k])
    ensures forall k | 0 <= k < |written| :: written[k].path != src[i].path
  {
    forall k | 0 <= k < |written| ensures written[k].path != src[i].path {
      assert exists j | 0 <= j < |actions| :: actions[j].Copy? && copied[k] == src[j];
      var j :| 0 <= j < |actions| && actions[j].Copy? && copied[k] == src[j];
      assert j != i;
    }
  }

  /** A record the run did not copy finds the destination entry it was
      decided against. */
  lemma ResyncNotCopied(rec: FileRecord, dst: seq<FileRecord>, written: seq<FileRecord>, skipFileNames: seq<string>)
    requires forall k | 0 <= k < |written| :: written[k].path != rec.path
    ensures ShouldCopy(rec, KeyBy(dst + written), skipFileNames) == ShouldCopy(rec, KeyBy(dst), skipFileNames)
  {
    KeyByAppendOther(dst, written, rec.path);
    ResyncUnwritten(rec, KeyBy(dst), KeyBy(dst + written), skipFileNames);
  }

  /** A record whose destination entry replicates it is not copied again. */
  lemma ResyncWritten(rec: FileRecord, written: FileRecord, index: map<string, FileRecord>, skipFileNames: seq<string>)
    requires Replicates(written, rec)
    requires rec.path in index && index[rec.path] == written
    ensures !ShouldCopy(rec, index, skipFileNames)
  {
  }

  /** A record whose destination entry did not change is decided as before. */
  lemma ResyncUnwritten(rec: FileRecord, before: map<string, FileRecord>, after: map<string, FileRecord>,
                        skipFileNames: seq<string>)
    requires rec.path in after <==> rec.path in before
    requires rec.path in before ==> after[rec.path] == before[rec.path]
    ensures ShouldCopy(rec, after, skipFileNames) == ShouldCopy(rec, before, skipFileNames)
  {
  }

  /** Idempotence: when every transfer of a run succeeded, a second run
      against the destination the first one left behind skips every record
      and transfers nothing. */
  lemma ResyncSkipsAll(src: seq<FileRecord>, dst: seq<FileRecord>, written: seq<FileRecord>,
                       options: SyncOptions, processFile: FileRecord -> Transfer,
                       processFile': FileRecord -> Transfer)
    requires PathsDistinct(src)
    requires forall i | 0 <= i < |src| :: !FailsToCopy(src[i], KeyBy(dst), options, processFile)
    requires var copied := CopiedRecords(src, Process(src, KeyBy(dst), options, processFile).actions);
      |written| == |copied| && forall k | 0 <= k < |written| :: Replicates(written[k], copied[k])
    ensures var again := Process(src, KeyBy(dst + written), options, processFile');
      again.failure.None? && again.actions == seq(|src|, i requires 0 <= i < |src| => Skip(src[i].path))
  {
    NoFailureCompletes(src, KeyBy(dst), options, processFile);
    ResyncRetriesOnlyErrors(src, dst, written, options, processFile);
    NothingToCopySkipsAll(src, KeyBy(dst + written), options, processFile');
  }

  /** Without a failing transfer the loop handles every record and records no
      error. */
  lemma NoFailureCompletes(src: seq<FileRecord>, index: map<string, FileRecord>,
                           options: SyncOptions, processFile: FileRecord -> Transfer)
    requires forall i | 0 <= i < |src| :: !FailsToCopy(src[i], index, options, processFile)
    ensures var p := Process(src, index, options, processFile);
      p.failure.None? && |p.actions| == |src| && forall i | 0 <= i < |src| :: !p.actions[i].Error?
  {
    ProcessOutcome(src, index, options, processFile);
    var p := Process(src, index, options, processFile);
    if p.failure.Some? {
      assert FailsToCopy(src[|p.actions|], index, options, processFile);
    }
    forall i | 0 <= i < |src| ensures !p.actions[i].Error? {
      assert StepFor(src[i], index, options, processFile) == Done(p.actions[i]);
    }
  }

  /** When no record is to be copied, the loop skips every record. */
  lemma NothingToCopySkipsAll(src: seq<FileRecord>, index: map<string, FileRecord>,
                              options: SyncOptions, processFile: FileRecord -> Transfer)
    requires forall i | 0 <= i < |src| :: !ShouldCopy(src[i], index, options.skipFileNames)
    ensures var p := Process(src, index, options, processFile);
      p.failure.None? && p.actions == seq(|src|, i requires 0 <= i < |src| => Skip(src[i].path))
  {
    ProcessOutcome(src, index, options, processFile);
    var p := Process(src, index, options, processFile);
    forall i | 0 <= i < |src| ensures p.actions[i] == Skip(src[i].path) {
      assert StepFor(src[i], index, options, processFile) == Done(p.actions[i]);
    }
  }

  /** The destination entry is looked up by full path, not by base name,
      and of two entries with one path the later one decides. */
  lemma LookupByFullPath()
    ensures ShouldCopy(FileRecord("b/x.txt", 1, 0), KeyBy([FileRecord("a/x.txt", 1, 0)]), [])
    ensures !ShouldCopy(FileRecord("a/x.txt", 1, 0),
                        KeyBy([FileRecord("a/x.txt", 5, 0), FileRecord("a/x.txt", 1, 0)]), [])
  {
    assert "b/x.txt" != "a/x.txt";
    assert LastIndex([FileRecord("a/x.txt", 1, 0)], "b/x.txt") == -1;
  }

  /** A two-file run: `a.txt`, already mirrored with the same size and
      date, is skipped; `b.txt`, missing from the destination, is copied. */
  lemma ExampleRun(processFile: FileRecord -> Transfer)
    requires processFile(FileRecord("b.txt", 50, 0)) == Transferred
    ensures Process([FileRecord("a.txt", 100, 1), FileRecord("b.txt", 50, 0)],
                    KeyBy([FileRecord("a.txt", 100, 1)]), SyncOptions(false, []), processFile).actions
            == [Skip("a.txt"), Copy("b.txt")]
  {
    var a, b := FileRecord("a.txt", 100, 1), FileRecord("b.txt", 50, 0);
    var index := KeyBy([a]);
    assert [a, b][..1] == [a];
    assert [a][..0] == [];
    assert "b.txt" != "a.txt";
    assert LastIndex([a], "b.txt") == -1;
  }
}
