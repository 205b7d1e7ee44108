/**
 * The sync session of lib/sync/index.js as a specification: how the
 * constructor defaults its options, how each side's listing is obtained, and
 * what one run of `sync()` emits and ends with.
 */
module Session {
  import opened Records
  import opened Reconcile
  import opened Schedule

  /** The JavaScript values an option may hold, as far as the constructor
      tells them apart. */
  datatype JsValue = Undefined | Boolean(b: bool) | StringArray(items: seq<string>) | OtherValue

  /** The `options` object passed to the constructor. */
  datatype RawOptions = RawOptions(
    sourceFiles: Option<seq<FileRecord>>,
    destinationFiles: Option<seq<FileRecord>>,
    stopOnError: JsValue,
    skipFileNames: JsValue)

  /** Lines 28-40: a missing options object counts as `{}`; `stopOnError` is
      false unless a boolean was given and `skipFileNames` is empty unless an
      array was given; given values are kept. */
  function NormalizeOptions(raw: Option<RawOptions>): (o: SyncOptions)
    ensures o.stopOnError <==> raw.Some? && raw.value.stopOnError == Boolean(true)
    ensures raw.Some? && raw.value.skipFileNames.StringArray? ==> o.skipFileNames == raw.value.skipFileNames.items
    ensures !(raw.Some? && raw.value.skipFileNames.StringArray?) ==> o.skipFileNames == []
  {
    var given := if raw.Some? then raw.value else RawOptions(None, None, Undefined, Undefined);
    SyncOptions(
      if given.stopOnError.Boolean? then given.stopOnError.b else false,
      if given.skipFileNames.StringArray? then given.skipFileNames.items else [])
  }

  /** The listing given to the constructor, if any. */
  function GivenSourceFiles(raw: Option<RawOptions>): Option<seq<FileRecord>> {
    if raw.Some? then raw.value.sourceFiles else None
  }

  function GivenDestinationFiles(raw: Option<RawOptions>): Option<seq<FileRecord>> {
    if raw.Some? then raw.value.destinationFiles else None
  }

  /** Lines 23 and 25 as written: the given listings are read from `options`
      before line 28 replaces a missing options object, so a constructor call
      without options throws instead of taking the defaults. */
  function GivenFilesAsWritten(raw: Option<RawOptions>)
    : (r: Result<(Option<seq<FileRecord>>, Option<seq<FileRecord>>), SyncError>)
    ensures r.Failure? <==> raw.None?
    ensures r.Failure? ==> r.error == TypeError
    ensures r.Success? ==> r.value == (GivenSourceFiles(raw), GivenDestinationFiles(raw))
  {
    if raw.None? then Failure(TypeError)
    else Success((raw.value.sourceFiles, raw.value.destinationFiles))
  }

  /** The discrepancy: lines 28-30 give a missing options object a meaning
      (all defaults), yet the reads before them reject it. */
  lemma MissingOptionsRejectedAsWritten()
    ensures GivenFilesAsWritten(None) == Failure(TypeError)
    ensures NormalizeOptions(None) == SyncOptions(false, [])
    ensures GivenSourceFiles(None) == None && GivenDestinationFiles(None) == None
  {
  }

  /** One side's listing together with the events its enumeration emitted. */
  datatype Listing = Listed(files: seq<FileRecord>, trace: seq<Event>) | ListFailed(fault: Fault, trace: seq<Event>)

  /** Lines 53-66 (and 68-81 for the destination): a listing given up front is
      used as it is; otherwise the container is asked, between a
      `countingStarted` and a `countingDone` event carrying the count. */
  function Enumerate(given: Option<seq<FileRecord>>, container: Container): Listing {
    match given
    case Some(files) => Listed(files, [])
    case None =>
      match container.listing
      case Success(files) => Listed(files, [CountingStarted, CountingDone(|files|)])
      case Failure(f) => ListFailed(f, [CountingStarted])
  }

  /** What one run of `sync()` on an unused session does: the events it emits,
      how its promise settles, and the listings it leaves stored. */
  datatype Run = Run(
    trace: seq<Event>,
    outcome: SyncOutcome,
    sourceFiles: Option<seq<FileRecord>>,
    destinationFiles: Option<seq<FileRecord>>)

  /** Lines 51-142: enumerate the source, then the destination, then process
      the source listing against the destination index; `syncDone` ends every
      run. */
  function RunSession(sourceFiles: Option<seq<FileRecord>>, destinationFiles: Option<seq<FileRecord>>,
                      source: Container, destination: Container, options: SyncOptions,
                      processFile: FileRecord -> Transfer): Run
  {
    match Enumerate(sourceFiles, source)
    case ListFailed(f, t1) =>
      Run(t1 + [SyncDone([])], Rejected(BackendError(f)), sourceFiles, destinationFiles)
    case Listed(src, t1) =>
      match Enumerate(destinationFiles, destination)
      case ListFailed(f, t2) =>
        Run(t1 + t2 + [SyncDone([])], Rejected(BackendError(f)), Some(src), destinationFiles)
      case Listed(dst, t2) =>
        var p := Process(src, KeyBy(dst), options, processFile);
        Run(t1 + t2 + p.trace + [SyncDone(p.actions)],
            if p.failure.Some? then Rejected(BackendError(p.failure.value)) else Resolved,
            Some(src), Some(dst))
  }

  /** Counting events first, then file events, and `syncDone` exactly once,
      as the very last event. */
  ghost predicate WellOrdered(t: seq<Event>) {
    && |t| > 0
    && t[|t| - 1].SyncDone?
    && (forall i | 0 <= i < |t| - 1 :: !t[i].SyncDone?)
    && (forall i, j | 0 <= i < j < |t| :: IsFileEvent(t[i]) ==> !IsCounting(t[j]))
  }

  /** Enumerating a listing emits counting events only. */
  lemma EnumerateCounts(given: Option<seq<FileRecord>>, container: Container)
    ensures var t := Enumerate(given, container).trace;
      forall k | 0 <= k < |t| :: IsCounting(t[k])
  {
  }

  /** The events of a run are well ordered. */
  lemma RunEventOrder(sourceFiles: Option<seq<FileRecord>>, destinationFiles: Option<seq<FileRecord>>,
                      source: Container, destination: Container, options: SyncOptions,
                      processFile: FileRecord -> Transfer)
    ensures WellOrdered(RunSession(sourceFiles, destinationFiles, source, destination, options, processFile).trace)
  {
    var r := RunSession(sourceFiles, destinationFiles, source, destination, options, processFile);
    var l1, l2 := Enumerate(sourceFiles, source), Enumerate(destinationFiles, destination);
    EnumerateCounts(sourceFiles, source);
    EnumerateCounts(destinationFiles, destination);
    if l1.ListFailed? {
      assert r.trace == l1.trace + [] + [SyncDone([])];
      PhasesWellOrdered(l1.trace, [], SyncDone([]));
    } else if l2.ListFailed? {
      assert r.trace == l1.trace + l2.trace + [] + [SyncDone([])];
      PhasesWellOrdered(l1.trace + l2.trace, [], SyncDone([]));
    } else {
      var p := Process(l1.files, KeyBy(l2.files), options, processFile);
      ProcessEmitsFileEvents(l1.files, KeyBy(l2.files), options, processFile);
      assert r.trace == l1.trace + l2.trace + p.trace + [SyncDone(p.actions)];
      PhasesWellOrdered(l1.trace + l2.trace, p.trace, SyncDone(p.actions));
    }
  }

  /** Counting events, then file events, then one `syncDone`, are well
      ordered. */
  lemma PhasesWellOrdered(counting: seq<Event>, files: seq<Event>, done: Event)
    requires forall k | 0 <= k < |counting| :: IsCounting(counting[k])
    requires forall k | 0 <= k < |files| :: IsFileEvent(files[k])
    requires done.SyncDone?
    ensures WellOrdered(counting + files + [done])
  {
    var t := counting + files + [done];
    forall i | 0 <= i < |t| - 1
      ensures t[i] == if i < |counting| then counting[i] else files[i - |counting|]
    {
    }

  }

  /** A listing is fetched from a container only when none was given: then
      `countingStarted` comes first and `countingDone` carries the length of
      the listing, the source side before the destination side, and the
      fetched listing is what the session stores. A given listing is kept and
      its side emits no counting event. A failed listing rejects the run with
      its error right after that side's `countingStarted`, and `syncDone`
      follows. */
  lemma RunEnumeration(sourceFiles: Option<seq<FileRecord>>, destinationFiles: Option<seq<FileRecord>>,
                       source: Container, destination: Container, options: SyncOptions,
                       processFile: FileRecord -> Transfer)
    ensures var r := RunSession(sourceFiles, destinationFiles, source, destination, options, processFile);
      && (sourceFiles.None? ==>
            && r.trace[0] == CountingStarted
            && (source.listing.Success? ==>
                  r.trace[1] == CountingDone(|source.listing.value|) && r.sourceFiles == Some(source.listing.value))
            && (source.listing.Failure? ==>
                  r.trace == [CountingStarted, SyncDone([])] && r.outcome == Rejected(BackendError(source.listing.error))))
      && (sourceFiles.Some? ==> r.sourceFiles == sourceFiles)
      && (sourceFiles.Some? && destinationFiles.None? ==>
            && r.trace[0] == CountingStarted
            && (destination.listing.Success? ==>
                  r.trace[1] == CountingDone(|destination.listing.value|) && r.destinationFiles == Some(destination.listing.value)))
      && (sourceFiles.None? && source.listing.Success? && destinationFiles.None? ==>
            && r.trace[2] == CountingStarted
            && (destination.listing.Success? ==>
                  r.trace[3] == CountingDone(|destination.listing.value|) && r.destinationFiles == Some(destination.listing.value)))
      && (sourceFiles.Some? && destinationFiles.Some? ==> forall e | e in r.trace :: !IsCounting(e))
      && (Enumerate(sourceFiles, source).Listed? ==>
            var t1 := Enumerate(sourceFiles, source).trace;
            && (destinationFiles.Some? ==>
                  && r.destinationFiles == destinationFiles
                  && forall k | |t1| <= k < |r.trace| :: !IsCounting(r.trace[k]))
            && (destinationFiles.None? && destination.listing.Failure? ==>
                  && r.trace == t1 + [CountingStarted, SyncDone([])]
                  && r.outcome == Rejected(BackendError(destination.listing.error))))
  {
    var r := RunSession(sourceFiles, destinationFiles, source, destination, options, processFile);
    var l1 := Enumerate(sourceFiles, source);
    if l1.Listed? && destinationFiles.Some? {
      var dst := destinationFiles.value;
      var p := Process(l1.files, KeyBy(dst), options, processFile);
      ProcessEmitsFileEvents(l1.files, KeyBy(dst), options, processFile);
      assert r.trace == l1.trace + p.trace + [SyncDone(p.actions)];
      if sourceFiles.Some? {
        assert r.trace == p.trace + [SyncDone(p.actions)];
      }
    }
  }

  /** With `stopOnError` false and both listings available the run resolves,
      and `syncDone` carries one action per source record, in listing order,
      each for that record's path: a skip when it is not to be copied, a copy
      when its transfer succeeded, an error carrying the failure otherwise.
      The events are the counting events, a `file`/`fileDone` pair per record
      and `syncDone`. */
  lemma RunContinuesOnError(sourceFiles: Option<seq<FileRecord>>, destinationFiles: Option<seq<FileRecord>>,
                            source: Container, destination: Container, options: SyncOptions,
                            processFile: FileRecord -> Transfer)
    requires !options.stopOnError
    requires Enumerate(sourceFiles, source).Listed? && Enumerate(destinationFiles, destination).Listed?
    ensures var r := RunSession(sourceFiles, destinationFiles, source, destination, options, processFile);
      var src := Enumerate(sourceFiles, source).files;
      && r.outcome == Resolved
      && r.trace[|r.trace| - 1].SyncDone?
      && |r.trace[|r.trace| - 1].actions| == |src|
      && forall i | 0 <= i < |src| :: r.trace[|r.trace| - 1].actions[i].path == src[i].path
    ensures var r := RunSession(sourceFiles, destinationFiles, source, destination, options, processFile);
      var src := Enumerate(sourceFiles, source).files;
      var index := KeyBy(Enumerate(destinationFiles, destination).files);
      var done := r.trace[|r.trace| - 1].actions;
      && (forall i | 0 <= i < |src| ::
            done[i] == (if !ShouldCopy(src[i], index, options.skipFileNames) then Skip(src[i].path)
                        else if processFile(src[i]).Transferred? then Copy(src[i].path)
                        else Error(src[i].path, processFile(src[i]).fault)))
      && r.trace == Enumerate(sourceFiles, source).trace + Enumerate(destinationFiles, destination).trace
                    + FileEvents(src, done) + [SyncDone(done)]
  {
    var src, dst := Enumerate(sourceFiles, source).files, Enumerate(destinationFiles, destination).files;
    ContinueOnError(src, KeyBy(dst), options, processFile);
  }

  /** With `stopOnError` true and both listings available, the run rejects
      exactly when some transfer fails; it then rejects with the first such
      failure, and `syncDone` carries the actions of the records before the
      failing one: a copy for each that was to be copied, a skip otherwise.
      A run that resolves carries that action for every record. The events
      are the counting events, a `file`/`fileDone` pair per handled record,
      the failing record's `file` event if any, and `syncDone`. */
  lemma RunStopsOnError(sourceFiles: Option<seq<FileRecord>>, destinationFiles: Option<seq<FileRecord>>,
                        source: Container, destination: Container, options: SyncOptions,
                        processFile: FileRecord -> Transfer)
    requires options.stopOnError
    requires Enumerate(sourceFiles, source).Listed? && Enumerate(destinationFiles, destination).Listed?
    ensures var r := RunSession(sourceFiles, destinationFiles, source, destination, options, processFile);
      var src := Enumerate(sourceFiles, source).files;
      var index := KeyBy(Enumerate(destinationFiles, destination).files);
      && (r.outcome == Resolved <==> forall i | 0 <= i < |src| :: !FailsToCopy(src[i], index, options, processFile))
      && (r.outcome != Resolved ==>
            var done := r.trace[|r.trace| - 1].actions;
            && |done| < |src|
            && FailsToCopy(src[|done|], index, options, processFile)
            && r.outcome == Rejected(BackendError(processFile(src[|done|]).fault))
            && forall i | 0 <= i < |done| ::
                 && !FailsToCopy(src[i], index, options, processFile)
                 && done[i] == (if ShouldCopy(src[i], index, options.skipFileNames) then Copy(src[i].path)
                                else Skip(src[i].path)))
      && (r.outcome == Resolved ==>
            var done := r.trace[|r.trace| - 1].actions;
            && |done| == |src|
            && forall i | 0 <= i < |src| ::
                 done[i] == (if ShouldCopy(src[i], index, options.skipFileNames) then Copy(src[i].path)
                             else Skip(src[i].path)))
    ensures var r := RunSession(sourceFiles, destinationFiles, source, destination, options, processFile);
      var src := Enumerate(sourceFiles, source).files;
      var t := Enumerate(sourceFiles, source).trace + Enumerate(destinationFiles, destination).trace;
      var done := r.trace[|r.trace| - 1].actions;
      && (r.outcome == Resolved ==> r.trace == t + FileEvents(src, done) + [SyncDone(done)])
      && (r.outcome != Resolved ==>
            |done| < |src| && r.trace == t + FileEvents(src[..|done|], done) + [File(src[|done|]), SyncDone(done)])
  {
    var src, dst := Enumerate(sourceFiles, source).files, Enumerate(destinationFiles, destination).files;
    StopOnError(src, KeyBy(dst), options, processFile);
  }
}
