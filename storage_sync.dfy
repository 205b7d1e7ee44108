/**
 * Class StorageSync of lib/sync/index.js: a single-use session that copies
 * what the source container has and the destination lacks, appending every
 * event it emits to `events`.
 */
module Sync {
  import opened Records
  import opened Reconcile
  import opened Schedule
  import opened Session

  class StorageSync {
    const sourceContainer: Container
    const destinationContainer: Container
    const options: SyncOptions
    var sourceFiles: Option<seq<FileRecord>>
    var destinationFiles: Option<seq<FileRecord>>
    var used: bool
    /** Every event emitted so far, oldest first. */
    var events: seq<Event>

    /** The checks of lines 16-21: both containers are required. */
    static method Create(source: Option<Container>, destination: Option<Container>, raw: Option<RawOptions>)
      returns (r: Result<StorageSync, SyncError>)
      ensures source.None? ==> r == Failure(ArgumentError("sourceContainer"))
      ensures source.Some? && destination.None? ==> r == Failure(ArgumentError("destinationContainer"))
      ensures source.Some? && destination.Some? ==>
        && r.Success? && fresh(r.value)
        && r.value.sourceContainer == source.value
        && r.value.destinationContainer == destination.value
        && r.value.sourceFiles == GivenSourceFiles(raw)
        && r.value.destinationFiles == GivenDestinationFiles(raw)
        && r.value.options == NormalizeOptions(raw)
        && !r.value.used && r.value.events == []
    {
      if source.None? {
        return Failure(ArgumentError("sourceContainer"));
      }
      if destination.None? {
        return Failure(ArgumentError("destinationContainer"));
      }
      var session := new StorageSync(source.value, destination.value, raw);
      return Success(session);
    }

    /** Lines 22-40 once both containers are known to be present. */
    constructor (source: Container, destination: Container, raw: Option<RawOptions>)
      ensures sourceContainer == source && destinationContainer == destination
      ensures sourceFiles == GivenSourceFiles(raw) && destinationFiles == GivenDestinationFiles(raw)
      ensures options == NormalizeOptions(raw)
      ensures !used && events == []
    {
      sourceContainer := source;
      sourceFiles := GivenSourceFiles(raw);
      destinationContainer := destination;
      destinationFiles := GivenDestinationFiles(raw);
      used := false;
      options := NormalizeOptions(raw);
      events := [];
    }

    /** `sync()`: throws and changes nothing on a used session; otherwise marks
        the session used and runs it as RunSession says, emitting its events
        and storing the listings it fetched. */
    method Sync(processFile: FileRecord -> Transfer) returns (outcome: SyncOutcome)
      modifies this
      ensures old(used) ==> outcome == Threw(UsageError) && unchanged(this)
      ensures !old(used) ==>
        var run := RunSession(old(sourceFiles), old(destinationFiles), sourceContainer, destinationContainer,
                              options, processFile);
        && used
        && outcome == run.outcome
        && events == old(events) + run.trace
        && sourceFiles == run.sourceFiles
        && destinationFiles == run.destinationFiles
    {
      if used {
        return Threw(UsageError);
      }
      used := true;
      ghost var run := RunSession(sourceFiles, destinationFiles, sourceContainer, destinationContainer,
                                  options, processFile);
      ghost var listedSource := Enumerate(sourceFiles, sourceContainer);
      ghost var listedDestination := Enumerate(destinationFiles, destinationContainer);
      ghost var before := events;

      var fault := ListSource();
      if fault.Some? {
        events := events + [SyncDone([])];
        return Rejected(BackendError(fault.value));
      }
      fault := ListDestination();
      if fault.Some? {
        events := events + [SyncDone([])];
        return Rejected(BackendError(fault.value));
      }
      var actions;
      actions, fault := SyncFiles(sourceFiles.value, destinationFiles.value, processFile);
      ghost var p := Process(listedSource.files, KeyBy(listedDestination.files), options, processFile);
      assert run.trace == listedSource.trace + listedDestination.trace + p.trace + [SyncDone(p.actions)];
      assert events == before + listedSource.trace + listedDestination.trace + p.trace;

      // lines 136-141
      events := events + [SyncDone(actions)];
      outcome := if fault.Some? then Rejected(BackendError(fault.value)) else Resolved;
    }

    /** The first step of the waterfall (lines 53-66): fetch the source listing
        unless one was given. */
    method ListSource() returns (fault: Option<Fault>)
      modifies this`events, this`sourceFiles
      ensures match Enumerate(old(sourceFiles), sourceContainer)
        case Listed(files, trace) =>
          fault.None? && sourceFiles == Some(files) && events == old(events) + trace
        case ListFailed(f, trace) =>
          fault == Some(f) && sourceFiles == old(sourceFiles) && events == old(events) + trace
    {
      fault := None;
      if sourceFiles.None? {
        events := events + [CountingStarted];
        match sourceContainer.listing
        case Failure(f) =>
          fault := Some(f);
        case Success(files) =>
          events := events + [CountingDone(|files|)];
          sourceFiles := Some(files);
      }
    }

    /** The second step of the waterfall (lines 68-81): fetch the destination
        listing unless one was given. */
    method ListDestination() returns (fault: Option<Fault>)
      modifies this`events, this`destinationFiles
      ensures match Enumerate(old(destinationFiles), destinationContainer)
        case Listed(files, trace) =>
          fault.None? && destinationFiles == Some(files) && events == old(events) + trace
        case ListFailed(f, trace) =>
          fault == Some(f) && destinationFiles == old(destinationFiles) && events == old(events) + trace
    {
      fault := None;
      if destinationFiles.None? {
        events := events + [CountingStarted];
        match destinationContainer.listing
        case Failure(f) =>
          fault := Some(f);
        case Success(files) =>
          events := events + [CountingDone(|files|)];
          destinationFiles := Some(files);
      }
    }

    /** The last step of the waterfall (lines 84-134): index the destination,
        then handle one source record at a time, in order, until the end of
        the listing or a transfer failure under `stopOnError`. */
    method SyncFiles(src: seq<FileRecord>, dst: seq<FileRecord>, processFile: FileRecord -> Transfer)
      returns (actions: seq<Action>, fault: Option<Fault>)
      modifies this`events
      ensures var p := Process(src, KeyBy(dst), options, processFile);
        actions == p.actions && fault == p.failure && events == old(events) + p.trace
    {
      var index := KeyBy(dst);
      actions := [];
      fault := None;
      var i := 0;
      while i < |src| && fault.None?
        invariant 0 <= i <= |src|
        invariant var p := Process(src[..i], index, options, processFile);
          p.actions == actions && p.failure == fault && events == old(events) + p.trace
      {
        ProcessNext(src, i, index, options, processFile);
        var step := SyncFile(src[i], index, processFile);
        if step.Done? {
          actions := actions + [step.action];
        } else {
          fault := Some(step.fault);
        }
        i := i + 1;
      }
      if fault.Some? {
        ProcessStopped(src, i, index, options, processFile);
      } else {
        assert src[..i] == src;
      }
    }

    /** The `eachSeries` callback for one source record (lines 88-133): emit
        `file`, decide, transfer when needed, and either emit `fileDone` with
        the resulting action or report the failure that stops the loop. */
    method SyncFile(rec: FileRecord, index: map<string, FileRecord>, processFile: FileRecord -> Transfer)
      returns (step: Step)
      modifies this`events
      ensures step == StepFor(rec, index, options, processFile)
      ensures events == old(events) + [File(rec)] + (if step.Done? then [FileDone(step.action)] else [])
    {
      events := events + [File(rec)];
      if !ShouldCopy(rec, index, options.skipFileNames) {
        var action := Skip(rec.path);
        events := events + [FileDone(action)];
        return Done(action);
      }
      match processFile(rec)
      case Transferred =>
        var action := Copy(rec.path);
        events := events + [FileDone(action)];
        return Done(action);
      case TransferFailed(f) =>
        if options.stopOnError {
          return Abort(f);
        }
        var action := Error(rec.path, f);
        events := events + [FileDone(action)];
        return Done(action);
    }
  }

  /** A session runs at most once: whatever the first call did, a second call
      throws and leaves the session as the first call left it. */
  method SyncTwice(session: StorageSync, processFile: FileRecord -> Transfer)
    returns (first: SyncOutcome, second: SyncOutcome)
    modifies session
    ensures first == old(if session.used then Threw(UsageError)
                         else RunSession(session.sourceFiles, session.destinationFiles, session.sourceContainer,
                                         session.destinationContainer, session.options, processFile).outcome)
    ensures second == Threw(UsageError)
    ensures session.used
    ensures old(session.used) ==>
      && session.events == old(session.events)
      && session.sourceFiles == old(session.sourceFiles)
      && session.destinationFiles == old(session.destinationFiles)
    ensures !old(session.used) ==>
      var run := old(RunSession(session.sourceFiles, session.destinationFiles, session.sourceContainer,
                                session.destinationContainer, session.options, processFile));
      && session.events == old(session.events) + run.trace
      && session.sourceFiles == run.sourceFiles
      && session.destinationFiles == run.destinationFiles
  {
    first := session.Sync(processFile);
    ghost var events := session.events;
    second := session.Sync(processFile);
    assert session.events == events;
  }
}
