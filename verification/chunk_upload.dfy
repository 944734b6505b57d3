/** The chunked-upload protocol of the file-system driver
    (FileSystemDriver.UploadAsync and AbortUploadAsync): each chunking
    directory has a lock in the connector manager's cache whose payload
    records the first fault, counts the chunks written and notes whether
    the final file was touched. The file system is reduced to the facts
    each step reads (does the chunking directory exist, may it be created
    or deleted) and to the faults the untouched parts (writing, merging)
    may raise; each step returns the new lock cache and whether the
    chunking directory is left in place. */
module ChunkUpload {
  import opened Wrappers
  import opened Faults
  import opened ConnectorManager
  import opened Responses
  import DriverRules

  /** ChunkedUploadInfo: the recorded fault, the number of chunks written,
      and whether the merged file was touched. */
  datatype ChunkedUploadInfo = ChunkedUploadInfo(exception: Option<Fault>, totalUploaded: int, isFileTouched: bool)

  const NewInfo := ChunkedUploadInfo(None, 0, false)

  function CreateInfo(key: string): ChunkedUploadInfo {
    NewInfo
  }

  type ChunkLocks = Locks<ChunkedUploadInfo>

  /** The facts one chunk piece meets: whether its chunking directory
      exists and may be created, the fault (if any) raised between the
      directory set-up and the count (permission on the final directory,
      an existing chunk file, the write itself), the chunk count of the
      chunk name, and the names the merge fields take. */
  datatype PieceEnv = PieceEnv(
    destExists: bool,
    canCreate: bool,
    failure: Option<Fault>,
    totalChunks: int,
    destName: string,
    fileName: string)

  /** The result of a step: the request's outcome, the lock cache, and
      whether the chunking directory is there afterwards. */
  datatype Step<R> = Step(outcome: Result<R, Fault>, locks: ChunkLocks, dirExists: bool)

  /** The catch handler of a chunk piece: record the root cause unless a
      fault is already recorded, delete the chunking directory, and either
      rethrow or, when a fault was already recorded, answer with an empty
      response. */
  function PieceFailed(locks: ChunkLocks, dest: string, now: nat, ex: Fault): (s: Step<UploadResponse<string>>)
    ensures dest in locks ==> !s.dirExists && dest in s.locks
    ensures dest in locks && locks[dest].payload.exception.Some? ==>
      s.outcome == Success(NewUploadResponse()) && s.locks[dest].payload == locks[dest].payload
    ensures dest in locks && locks[dest].payload.exception.None? ==>
      s.outcome == Failure(ex) && s.locks[dest].payload == locks[dest].payload.(exception := Some(ex.RootCause()))
    ensures dest !in locks ==> s.outcome == Failure(ex) && s.locks == locks
  {
    var (found, locks1) := GetLock(locks, dest, now);
    if found.None? then Step(Failure(ex), locks1, true)
    else
      var info := found.value.payload;
      var returned := info.exception.Some?;
      var info1 := if returned then info else info.(exception := Some(ex.RootCause()));
      var locks2 := locks1[dest := found.value.(payload := info1)];
      if returned then Step(Success(NewUploadResponse()), locks2, false)
      else Step(Failure(ex), locks2, false)
  }

  /** One piece of a chunked upload to the chunking directory `dest`. */
  function ChunkPiece(locks: ChunkLocks, dest: string, now: nat, env: PieceEnv): (s: Step<UploadResponse<string>>)
    ensures dest in s.locks
    ensures s.outcome.Success? && s.dirExists ==>
      locks.Keys <= s.locks.Keys
      && s.locks[dest].payload.totalUploaded ==
           (if env.destExists then GetOrCreateLock(locks, dest, CreateInfo, now).0.payload.totalUploaded else 0) + 1
  {
    var (lock, locks1) := GetOrCreateLock(locks, dest, CreateInfo, now);
    var info := lock.payload;
    if info.exception.Some? then PieceFailed(locks1, dest, now, info.exception.value)
    else if !env.destExists && !env.canCreate then PieceFailed(locks1, dest, now, Raise(PermissionDeniedKind))
    else
      var info1 := if env.destExists then info else info.(totalUploaded := 0);
      var locks2 := locks1[dest := lock.(payload := info1)];
      if env.failure.Some? then PieceFailed(locks2, dest, now, env.failure.value)
      else
        var (found, locks3) := GetLock(locks2, dest, now);
        var counted := found.value.payload.(totalUploaded := found.value.payload.totalUploaded + 1);
        var locks4 := locks3[dest := found.value.(payload := counted)];
        var resp := NewUploadResponse<string>();
        var resp1 := if counted.totalUploaded == env.totalChunks
                     then resp.(chunkMerged := Some(env.destName), name := Some(env.fileName))
                     else resp;
        Step(Success(resp1), locks4, true)
  }

  /** The facts a merge request meets:
      - `walk`: what the walk up from each upload path lists, one entry per
        missing parent directory, or the fault it raises; being a final
        upload, a merge walks before its own handler is set up;
      - `setup`: the fault (if any) raised before the chunking directory
        is known (Single() on two or more upload paths is an invalid
        operation; a chunk name that leaves the chunk directory, such as
        "..", is refused by SafelyCombine);
      - whether the chunking directory exists, and whether the upload
        directory accepts a new file;
      - `conflict`: what the conflict rule decided for the final name, or
        its fault, and `backupEntry`, what the response lists for an
        occupant renamed to its backup name;
      - the fault (if any) of the merge itself, and of refreshing and
        listing the merged file once its lock is released;
      - `merged`: what the response lists for the merged file. */
  datatype MergeEnv = MergeEnv(
    walk: Result<seq<string>, Fault>,
    setup: Option<Fault>,
    chunkDirExists: bool,
    canCreateObject: bool,
    conflict: Result<DriverRules.ConflictAction, Fault>,
    backupEntry: string,
    mergeFault: Option<Fault>,
    finishFault: Option<Fault>,
    merged: string)

  /** What the conflict step lists: the renamed occupant for a backup, and
      nothing otherwise. */
  function BackupAdded(c: DriverRules.ConflictAction, entry: string): seq<string> {
    if c.BackUp? then [entry] else []
  }

  /** The merge itself ran to the end: every check passed, the lock was
      still there and writing the chunks raised nothing. */
  predicate MergeCompletes(locks: ChunkLocks, chunkDir: string, env: MergeEnv) {
    env.chunkDirExists && env.canCreateObject && env.conflict.Success? && chunkDir in locks && env.mergeFault.None?
  }

  /** The merge once the chunking directory is known. Its catch handler
      overwrites the recorded fault with the new root cause and deletes the
      chunking directory; a merge whose lock is gone is aborted. The lock
      is released before the merged file is refreshed and listed, so a
      fault there finds no lock: nothing is recorded or rolled back, and
      the merged file stays. */
  function MergeKnownDir(locks: ChunkLocks, chunkDir: string, now: nat, env: MergeEnv, parents: seq<string>): (s: Step<UploadResponse<string>>)
    ensures s.outcome.Success? <==> MergeCompletes(locks, chunkDir, env) && env.finishFault.None?
    ensures MergeCompletes(locks, chunkDir, env) ==> chunkDir !in s.locks && s.locks == locks - {chunkDir} && !s.dirExists
    ensures s.outcome.Success? ==>
      s.outcome.value.added == parents + (if env.conflict.value.BackUp? then [env.backupEntry] else []) + [env.merged]
    ensures MergeCompletes(locks, chunkDir, env) && env.finishFault.Some? ==> s.outcome == Failure(env.finishFault.value)
    ensures env.chunkDirExists && env.canCreateObject && env.conflict.Success? && chunkDir !in locks ==>
      s.outcome == Failure(Raise(ConnectionAbortedKind)) && s.locks == locks
    ensures s.outcome.Failure? && chunkDir in locks && !MergeCompletes(locks, chunkDir, env) ==>
      chunkDir in s.locks && s.locks[chunkDir].payload.exception == Some(s.outcome.error.RootCause())
  {
    var ex: Option<Fault> :=
      if !env.chunkDirExists then Some(DirectoryNotFoundFault)
      else if !env.canCreateObject then Some(Raise(PermissionDeniedKind))
      else if env.conflict.Failure? then Some(env.conflict.error)
      else if chunkDir !in locks then Some(Raise(ConnectionAbortedKind))
      else env.mergeFault;
    if ex.None? then
      var released := locks - {chunkDir};
      if env.finishFault.Some? then
        var (_, locks1) := GetLock(released, chunkDir, now);
        Step(Failure(env.finishFault.value), locks1, false)
      else
        var resp := NewUploadResponse<string>();
        Step(Success(resp.(added := parents + BackupAdded(env.conflict.value, env.backupEntry) + [env.merged])), released, false)
    else
      var touched := env.chunkDirExists && env.canCreateObject && env.conflict.Success? && chunkDir in locks;
      var locks1 := if touched then locks[chunkDir := locks[chunkDir].(payload := locks[chunkDir].payload.(isFileTouched := true))] else locks;
      var (found, locks2) := GetLock(locks1, chunkDir, now);
      if found.None? then Step(Failure(ex.value), locks2, env.chunkDirExists)
      else
        var info := found.value.payload.(exception := Some(ex.value.RootCause()));
        Step(Failure(ex.value), locks2[chunkDir := found.value.(payload := info)], false)
  }

  /** The final merge of a chunked upload as the driver is written: a
      fault of the parent walk comes before the merge's handler and is
      rethrown as it is; a fault raised before the chunking directory is
      known reaches a catch handler that reads the still-unset directory's
      name first, so the request fails with a null reference instead. */
  function MergeChunkedAsWritten(locks: ChunkLocks, chunkDir: string, now: nat, env: MergeEnv): (s: Step<UploadResponse<string>>)
    ensures env.walk.Failure? ==> s.outcome == Failure(env.walk.error) && s.locks == locks
    ensures env.walk.Success? && env.setup.None? ==> s == MergeKnownDir(locks, chunkDir, now, env, env.walk.value)
  {
    if env.walk.Failure? then Step(Failure(env.walk.error), locks, env.chunkDirExists)
    else if env.setup.Some? then Step(Failure(NullReference), locks, env.chunkDirExists)
    else MergeKnownDir(locks, chunkDir, now, env, env.walk.value)
  }

  /** The final merge of a chunked upload, with the catch handler skipping
      the lock when no chunking directory is known, as its own later test
      of the directory for null intends: the early fault itself is
      rethrown and no lock changes. */
  function MergeChunked(locks: ChunkLocks, chunkDir: string, now: nat, env: MergeEnv): (s: Step<UploadResponse<string>>)
    ensures env.walk.Failure? ==> s.outcome == Failure(env.walk.error) && s.locks == locks
    ensures env.walk.Success? && env.setup.Some? ==> s.outcome == Failure(env.setup.value) && s.locks == locks
    ensures s.outcome.Success? <==>
      env.walk.Success? && env.setup.None? && MergeCompletes(locks, chunkDir, env) && env.finishFault.None?
    ensures s.outcome.Success? ==>
      && chunkDir !in s.locks
      && s.outcome.value.added == env.walk.value + (if env.conflict.value.BackUp? then [env.backupEntry] else []) + [env.merged]
    ensures env.walk.Success? && env.setup.None? && MergeCompletes(locks, chunkDir, env) && env.finishFault.Some? ==>
      s.outcome == Failure(env.finishFault.value) && s.locks == locks - {chunkDir}
    ensures env.walk.Success? && env.setup.None? && env.chunkDirExists && env.canCreateObject && env.conflict.Success? && chunkDir !in locks ==>
      s.outcome == Failure(Raise(ConnectionAbortedKind)) && s.locks == locks
    ensures s.outcome.Failure? && env.walk.Success? && env.setup.None? && chunkDir in locks && !MergeCompletes(locks, chunkDir, env) ==>
      chunkDir in s.locks && s.locks[chunkDir].payload.exception == Some(s.outcome.error.RootCause())
  {
    if env.walk.Failure? then Step(Failure(env.walk.error), locks, env.chunkDirExists)
    else if env.setup.Some? then Step(Failure(env.setup.value), locks, env.chunkDirExists)
    else MergeKnownDir(locks, chunkDir, now, env, env.walk.value)
  }

  /** Abort a chunked upload: when the chunking directory has a lock, its
      recorded fault becomes a connection abort and the directory is
      deleted, after the checks that it exists and may be deleted. */
  function AbortUpload(locks: ChunkLocks, dest: string, now: nat, destExists: bool, canDelete: bool): (s: Step<()>)
    ensures dest !in locks ==> s == Step(Success(()), locks, destExists)
    ensures dest in locks ==>
      dest in s.locks && s.locks[dest].payload.exception == Some(Raise(ConnectionAbortedKind))
      && s.locks[dest].payload.totalUploaded == locks[dest].payload.totalUploaded
    ensures dest in locks && !destExists ==> s.outcome == Failure(DirectoryNotFoundFault)
    ensures dest in locks && destExists && !canDelete ==> s.outcome == Failure(Raise(PermissionDeniedKind)) && s.dirExists
    ensures dest in locks && destExists && canDelete ==> s.outcome.Success? && !s.dirExists
  {
    var (found, locks1) := GetLock(locks, dest, now);
    if found.None? then Step(Success(()), locks1, destExists)
    else
      var info := found.value.payload.(exception := Some(Raise(ConnectionAbortedKind)));
      var locks2 := locks1[dest := found.value.(payload := info)];
      if !destExists then Step(Failure(DirectoryNotFoundFault), locks2, false)
      else if !canDelete then Step(Failure(Raise(PermissionDeniedKind)), locks2, true)
      else Step(Success(()), locks2, false)
  }

  // Properties

  /** A recorded fault stops every later chunk: the piece gets an empty
      response, the recorded fault stays the first one, the count does not
      move, and the chunking directory is removed. */
  lemma FaultIsSticky(locks: ChunkLocks, dest: string, now: nat, env: PieceEnv)
    requires dest in locks && locks[dest].payload.exception.Some?
    ensures var s := ChunkPiece(locks, dest, now, env);
      s.outcome == Success(NewUploadResponse()) && !s.dirExists
      && s.locks[dest].payload == locks[dest].payload
  {
  }

  /** A failing piece on a clean lock records the root cause of its fault
      and rethrows the fault itself. */
  lemma FirstFaultRecorded(locks: ChunkLocks, dest: string, now: nat, env: PieceEnv)
    requires dest !in locks || locks[dest].payload.exception.None?
    requires env.failure.Some? && (env.destExists || env.canCreate)
    ensures var s := ChunkPiece(locks, dest, now, env);
      s.outcome == Failure(env.failure.value)
      && s.locks[dest].payload.exception == Some(env.failure.value.RootCause())
      && !s.dirExists
  {
  }

  /** A successful piece counts one more chunk, and the response names
      the chunking directory and the file exactly when the count reaches
      the total. */
  lemma PieceCounts(locks: ChunkLocks, dest: string, now: nat, env: PieceEnv)
    requires dest in locks && locks[dest].payload.exception.None?
    requires env.destExists && env.failure.None?
    ensures var s := ChunkPiece(locks, dest, now, env);
      var n := locks[dest].payload.totalUploaded + 1;
      s.outcome.Success? && s.dirExists
      && s.locks[dest].payload == locks[dest].payload.(totalUploaded := n)
      && (s.outcome.value.chunkMerged.Some? <==> n == env.totalChunks)
      && (n == env.totalChunks ==> s.outcome.value.chunkMerged == Some(env.destName) && s.outcome.value.name == Some(env.fileName))
  {
  }

  /** The first piece creates the chunking directory and starts the count
      at one. */
  lemma FirstPieceStartsCount(locks: ChunkLocks, dest: string, now: nat, env: PieceEnv)
    requires dest !in locks && !env.destExists && env.canCreate && env.failure.None?
    ensures var s := ChunkPiece(locks, dest, now, env);
      s.outcome.Success? && s.dirExists && s.locks[dest].payload == ChunkedUploadInfo(None, 1, false)
  {
  }

  /** Run the pieces of one chunking directory in order. */
  function RunPieces(locks: ChunkLocks, dest: string, now: nat, envs: seq<PieceEnv>): (r: ChunkLocks)
    decreases |envs|
  {
    if envs == [] then locks
    else RunPieces(ChunkPiece(locks, dest, now, envs[0]).locks, dest, now, envs[1..])
  }

  /** Pieces that all succeed on an existing chunking directory with a
      clean lock raise the count by their number and record no fault. */
  lemma {:induction false} RunPiecesCounts(locks: ChunkLocks, dest: string, now: nat, envs: seq<PieceEnv>)
    requires dest in locks && locks[dest].payload.exception.None?
    requires forall i :: 0 <= i < |envs| ==> envs[i].destExists && envs[i].failure.None?
    ensures var r := RunPieces(locks, dest, now, envs);
      dest in r && r[dest].payload.exception.None?
      && r[dest].payload.totalUploaded == locks[dest].payload.totalUploaded + |envs|
      && r[dest].payload.isFileTouched == locks[dest].payload.isFileTouched
    decreases |envs|
  {
    if envs != [] {
      PieceCounts(locks, dest, now, envs[0]);
      var next := ChunkPiece(locks, dest, now, envs[0]).locks;
      RunPiecesCounts(next, dest, now, envs[1..]);
    }
  }

  /** Once any fault is recorded, no sequence of later pieces changes the
      recorded fault or the count. */
  lemma {:induction false} RunPiecesSticky(locks: ChunkLocks, dest: string, now: nat, envs: seq<PieceEnv>)
    requires dest in locks && locks[dest].payload.exception.Some?
    ensures var r := RunPieces(locks, dest, now, envs);
      dest in r && r[dest].payload == locks[dest].payload
    decreases |envs|
  {
    if envs != [] {
      FaultIsSticky(locks, dest, now, envs[0]);
      RunPiecesSticky(ChunkPiece(locks, dest, now, envs[0]).locks, dest, now, envs[1..]);
    }
  }

  /** Unlike a piece, a failing merge overwrites whatever was recorded. */
  lemma MergeFailureOverwrites(locks: ChunkLocks, chunkDir: string, now: nat, env: MergeEnv, f: Fault)
    requires env.walk.Success? && env.setup.None? && chunkDir in locks && env.chunkDirExists && env.canCreateObject && env.conflict.Success?
    requires env.mergeFault == Some(f)
    ensures var s := MergeChunked(locks, chunkDir, now, env);
      s.outcome == Failure(f) && s.locks[chunkDir].payload.exception == Some(f.RootCause())
      && s.locks[chunkDir].payload.isFileTouched
  {
  }

  /** A fault after the merge, while the merged file is refreshed and
      listed, comes once the lock is released: the request fails, but no
      fault is recorded, and an abort of the same upload finds nothing to
      mark. */
  lemma LateFaultUnrecorded(locks: ChunkLocks, chunkDir: string, now: nat, env: MergeEnv, f: Fault,
                            later: nat, destExists: bool, canDelete: bool)
    requires env.walk.Success? && env.setup.None? && MergeCompletes(locks, chunkDir, env) && env.finishFault == Some(f)
    ensures var s := MergeChunked(locks, chunkDir, now, env);
      && s.outcome == Failure(f) && chunkDir !in s.locks
      && AbortUpload(s.locks, chunkDir, later, destExists, canDelete) == Step(Success(()), s.locks, destExists)
  {
  }

  /** An abort turns the next piece into an empty response. */
  lemma AbortStopsPieces(locks: ChunkLocks, dest: string, now: nat, destExists: bool, canDelete: bool, env: PieceEnv)
    requires dest in locks
    ensures var a := AbortUpload(locks, dest, now, destExists, canDelete);
      ChunkPiece(a.locks, dest, now, env).outcome == Success(NewUploadResponse())
  {
    var a := AbortUpload(locks, dest, now, destExists, canDelete);
    FaultIsSticky(a.locks, dest, now, env);
  }

  /** As written, every early fault of a merge turns into a null
      reference, whatever it was, and leaves the locks alone; the
      corrected merge rethrows the early fault instead. The two agree once
      the chunking directory is known. */
  lemma EarlyFaultBecomesNullReference(locks: ChunkLocks, chunkDir: string, now: nat, env: MergeEnv)
    requires env.walk.Success? && env.setup.Some?
    ensures var s := MergeChunkedAsWritten(locks, chunkDir, now, env);
      s.outcome == Failure(NullReference) && s.locks == locks
    ensures env.setup.value != NullReference ==>
      MergeChunkedAsWritten(locks, chunkDir, now, env).outcome != MergeChunked(locks, chunkDir, now, env).outcome
  {
  }

  /** The corrected merge differs from the written one exactly on an
      early fault, after a clean walk, other than a null reference. */
  lemma MergeAgreesOnceDirKnown(locks: ChunkLocks, chunkDir: string, now: nat, env: MergeEnv)
    ensures MergeChunked(locks, chunkDir, now, env) == MergeChunkedAsWritten(locks, chunkDir, now, env)
      <==> env.walk.Failure? || env.setup.None? || env.setup.value == NullReference
  {
  }
}
