/**
 * The values exchanged by the sync engine of lib/sync/index.js: file records as
 * containers list them, the per-file actions, the emitted events and the errors.
 */
module Records {

  datatype Option<+T> = None | Some(value: T)

  datatype Result<+T, +E> = Success(value: T) | Failure(error: E)

  /** A file as a container lists it: relative path, size in bytes and
      modification time as the milliseconds `Date.getTime()` returns. */
  datatype FileRecord = FileRecord(path: string, size: nat, mtime: int)

  /** An error raised by a container backend (listing, read stream or upload);
      what it holds is not modelled. */
  datatype Fault = Fault(code: int)

  /** A storage backend, reduced to what one session observes of it: the
      result of its single `listFiles()` call. */
  datatype Container = Container(listing: Result<seq<FileRecord>, Fault>)

  /** What the transfer of one file (`_processFile`) ended with. */
  datatype Transfer = Transferred | TransferFailed(fault: Fault)

  /** The entries of the `actions` array: `skip`, `copy` and `error`. */
  datatype Action =
    | Skip(path: string)
    | Copy(path: string)
    | Error(path: string, error: Fault)

  /** The events the session emits: `countingStarted`, `countingDone`, `file`,
      `fileDone` and `syncDone`. */
  datatype Event =
    | CountingStarted
    | CountingDone(count: nat)
    | File(file: FileRecord)
    | FileDone(action: Action)
    | SyncDone(actions: seq<Action>)

  predicate IsCounting(e: Event) {
    e.CountingStarted? || e.CountingDone?
  }

  predicate IsFileEvent(e: Event) {
    e.File? || e.FileDone?
  }

  /** The options `sync()` consults once the constructor has defaulted them. */
  datatype SyncOptions = SyncOptions(stopOnError: bool, skipFileNames: seq<string>)

  datatype SyncError =
    | ArgumentError(argument: string)   // ArgumentException from the constructor
    | UsageError                        // "Sync can be invoked only once"
    | BackendError(fault: Fault)        // a listing or stop-triggering transfer failure
    | TypeError                         // a property read on `undefined`

  /** How a call of `sync()` ends: a synchronous throw, or the returned promise
      resolving or rejecting. */
  datatype SyncOutcome = Threw(error: SyncError) | Resolved | Rejected(error: SyncError)
}
