/** The connector's request handling (Connector.ProcessAsync,
    ProcessCoreAsync and AbortAsync): registration of a request that has
    an id, the verb gate, each verb's checks on its arguments before a
    volume's driver is called, and the mapping of every fault to an error
    response. The drivers are a parameter: the model records which driver
    call the connector makes, with which paths, and takes the driver's
    answer as given. */
module Connector {
  import opened Wrappers
  import opened Faults
  import opened Strings
  import Numbers
  import opened Storage
  import DriverPaths
  import opened ConnectorPaths
  import opened Commands
  import CM = ConnectorManager
  import FileHelper
  import PathHelper

  // The verbs of the elFinder client-server protocol the connector serves.
  const CmdAbort := "abort"
  const CmdInfo := "info"
  const CmdOpen := "open"
  const CmdArchive := "archive"
  const CmdExtract := "extract"
  const CmdMkdir := "mkdir"
  const CmdMkfile := "mkfile"
  const CmdParents := "parents"
  const CmdTmb := "tmb"
  const CmdDim := "dim"
  const CmdDuplicate := "duplicate"
  const CmdPaste := "paste"
  const CmdGet := "get"
  const CmdFile := "file"
  const CmdRm := "rm"
  const CmdLs := "ls"
  const CmdPut := "put"
  const CmdSize := "size"
  const CmdRename := "rename"
  const CmdTree := "tree"
  const CmdResize := "resize"
  const CmdSearch := "search"
  const CmdUpload := "upload"
  const CmdZipdl := "zipdl"

  const AllVerbs: set<string> := {
    CmdAbort, CmdInfo, CmdOpen, CmdArchive, CmdExtract, CmdMkdir, CmdMkfile, CmdParents, CmdTmb, CmdDim,
    CmdDuplicate, CmdPaste, CmdGet, CmdFile, CmdRm, CmdLs, CmdPut, CmdSize, CmdRename, CmdTree, CmdResize,
    CmdSearch, CmdUpload, CmdZipdl}

  /** Verbs whose targets must all lie in one volume. */
  const SingleVolumeVerbs: set<string> := {CmdInfo, CmdTmb, CmdDuplicate, CmdSize}

  /** Verbs that only need their one target resolved. */
  const TargetVerbs: set<string> := {CmdMkdir, CmdMkfile, CmdParents, CmdDim, CmdLs, CmdRename, CmdTree}

  const ChunkFail := "chunkfail"
  const HashEncoding := "hash"
  const UploadField := "upload[]"
  const ResizeModes: set<string> := {"resize", "crop", "rotate"}

  /** A driver operation: a verb, or the cleanup of an aborted upload. */
  datatype Op = Verb(name: string) | AbortUpload

  /** What the connector hands a volume's driver. */
  datatype Call = Call(op: Op, volume: nat, target: Option<PathInfo>, targets: seq<PathInfo>, second: Option<PathInfo>, args: Args)

  /** A driver's answer: the files it lists and the command's target path
      after the call (the open verb may fill it in). */
  datatype DriverReply<Item> = DriverReply(files: seq<Item>, target: Option<PathInfo>)

  /** The connector's fixed surroundings: the enabled verbs (null for all),
      the volumes, the file system, the drivers, and the entry each
      volume's root directory gives. */
  datatype Env<Item> = Env(
    enabled: Option<set<string>>,
    volumes: seq<Volume>,
    fs: Tree,
    driver: Call -> Result<DriverReply<Item>, Fault>,
    rootInfo: nat -> Item)

  datatype Reply<Item> =
    | Answered(calls: seq<Call>, files: seq<Item>)
    | AbortAnswer(success: bool)
    | ErrorReply(error: ErrorResponse, status: int)

  // The fault mapping

  /** The error response and status for a fault that reached the
      handler: the innermost cause decides, in a fixed order. */
  function MapFault(f: Fault, cmd: string): (r: (ErrorResponse, int))
    ensures r.0.error.Primary() in AllCodes
    ensures f.RootCause().ConnectorFault? ==>
      r.0.error == KindPayload(f.RootCause().kind) && r.1 == f.RootCause().status.GetOr(StatusOk)
    ensures !f.RootCause().ConnectorFault? ==> (r.1 == StatusInternalServerError <==> !Recognised(f.RootCause()))
    ensures Recognised(f.RootCause()) ==> r.0.exception == f.RootCause()
    ensures !Recognised(f.RootCause()) ==> r.0 == UnknownResponse(f)
  {
    var root := f.RootCause();
    if root.ConnectorFault? then (ConnectorResponse(root), root.status.GetOr(StatusOk))
    else if root.UnauthorizedAccess? then (AccessDeniedResponse(root), StatusOk)
    else if root.FileNotFoundFault? then (FileNotFoundResponse(root), StatusOk)
    else if root.DirectoryNotFoundFault? then (FolderNotFoundResponse(root), StatusOk)
    else if root.TaskCanceled? then (ConnectionAbortedResponse(root), StatusOk)
    else if root.OperationCanceled? then (ConnectionAbortedResponse(root), StatusOk)
    else if root.IsIO() then (AccessDeniedResponse(root), StatusOk)
    else if root.IsArgument() then (CommandParamsResponse(root, cmd), StatusOk)
    else (UnknownResponse(f), StatusInternalServerError)
  }

  function ErrorOf<Item>(f: Fault, cmd: string): (r: Reply<Item>)
    ensures r.ErrorReply?
  {
    var (e, status) := MapFault(f, cmd);
    ErrorReply(e, status)
  }

  /** The fault classes the handler recognises before its fallback. */
  predicate Recognised(root: Fault) {
    root.ConnectorFault? || root.UnauthorizedAccess? || root.IsIO() || root.IsCanceled() || root.IsArgument()
  }

  /** Any fault the handler does not recognise is answered errUnknown,
      carrying that fault, with status 500. */
  lemma UnknownAnswer<Item>(f: Fault, cmd: string)
    requires !Recognised(f.RootCause())
    ensures ErrorOf<Item>(f, cmd) == ErrorReply(UnknownResponse(f), StatusInternalServerError)
  {
  }

  /** The error code each recognised class of innermost cause gets;
      everything else is the unknown error. Read backwards, each code
      names the classes it can come from, so a client can tell from the
      code alone what went wrong. */
  lemma MapFaultCodes(f: Fault, cmd: string)
    ensures var root := f.RootCause();
      var code := MapFault(f, cmd).0.error;
      (root.UnauthorizedAccess? ==> code == Code(AccessDenied))
      && (root.FileNotFoundFault? ==> code == Code(FileNotFound))
      && (root.DirectoryNotFoundFault? ==> code == Code(FolderNotFound))
      && (root.IsCanceled() ==> code == Code(ConnectionAborted))
      && (root.IsIO() && !root.FileNotFoundFault? && !root.DirectoryNotFoundFault? ==> code == Code(AccessDenied))
      && (root.IsArgument() ==> code == CodeWith(CommandParams, cmd))
      && (!Recognised(root) ==> code == Code(Unknown))
  {
  }

  /** The code table read backwards: each code comes from exactly the
      fault classes listed for it. */
  lemma MapFaultSources(f: Fault, cmd: string)
    ensures var root := f.RootCause();
      var code := MapFault(f, cmd).0.error.Primary();
      (code == AccessDenied <==> root.UnauthorizedAccess? || root.PathTooLong? || root.OtherIO?)
      && (code == FileNotFound <==> root.FileNotFoundFault?)
      && (code == FolderNotFound <==> root.DirectoryNotFoundFault?)
      && (code == ConnectionAborted <==> root.IsCanceled() || (root.ConnectorFault? && root.kind == ConnectionAbortedKind))
      && (code == CommandParams <==> root.IsArgument() || (root.ConnectorFault? && root.kind.CommandParamsKind?))
      && (code == Unknown <==> !Recognised(root))
  {
    var root := f.RootCause();
    if root.ConnectorFault? {
      var p := KindPayload(root.kind);
      assert MapFault(f, cmd).0.error == p;
    } else {
      MapFaultCodes(f, cmd);
    }
  }

  /** Wrapping a fault in another exception changes neither the error
      code nor the status: only the innermost cause counts. */
  lemma MapFaultWrapped(f: Fault, cmd: string)
    ensures MapFault(Wrapped(f), cmd).0.error == MapFault(f, cmd).0.error
    ensures MapFault(Wrapped(f), cmd).1 == MapFault(f, cmd).1
  {
  }

  // Argument helpers

  /** The verb gate: an enabled-verb list that lacks the verb, or any list
      when there is no verb, refuses the request. */
  predicate Disabled(enabled: Option<set<string>>, verb: Option<string>) {
    enabled.Some? && (verb.None? || verb.value !in enabled.value)
  }

  /** A byte argument: its value when it parses as a byte, else 0. */
  function ParseByte(s: string): (r: int)
    ensures 0 <= r <= 255
  {
    match Numbers.Parse(s, 0, 255)
    case Success(b) => b
    case Failure(_) => 0
  }

  /** Reading a member of a null path is a null-reference fault. */
  function Required(p: Option<PathInfo>): (r: Result<PathInfo, Fault>)
    ensures r.Success? <==> p.Some?
    ensures r.Success? ==> r.value == p.value
    ensures r.Failure? ==> r.error == NullReference
  {
    if p.None? then Failure(NullReference) else Success(p.value)
  }

  function CommandParamsFault(verb: string): Fault {
    Raise(CommandParamsKind(verb))
  }

  /** The paths of a list all lie in volume `v`. */
  predicate AllIn(paths: seq<Option<PathInfo>>, v: nat) {
    AllParsed(paths) && forall i :: 0 <= i < |paths| ==> paths[i].value.volume == v
  }

  lemma FirstTwo(s: seq<nat>)
    ensures |s| >= 2 ==> s[0] in s && s[1] in s
  {
  }

  /** A list of paths has exactly one distinct volume when, and only
      when, every path is resolved and lies in the first path's volume. */
  lemma DistinctSingleton(paths: seq<Option<PathInfo>>)
    ensures (Distinct(paths).Success? && |Distinct(paths).value| == 1)
      <==> (|paths| > 0 && paths[0].Some? && AllIn(paths, paths[0].value.volume))
    ensures Distinct(paths).Success? && |Distinct(paths).value| == 1 ==> Distinct(paths).value[0] == paths[0].value.volume
  {
    var d := Distinct(paths);
    if d.Success? && |paths| > 0 && paths[0].Some? && AllIn(paths, paths[0].value.volume) {
      assert forall u :: u in d.value ==> u == paths[0].value.volume;
      FirstTwo(d.value);
    }
    if d.Success? && |d.value| == 1 {
      assert d.value[0] in d.value;
      forall i | 0 <= i < |paths| ensures paths[i].value.volume == d.value[0] {
        assert paths[i].value.volume in d.value;
      }
    }
  }

  /** The one volume a list of paths spans; a list spanning none or
      several is the verb's parameter fault. */
  function SingleVolume(verb: string, paths: seq<Option<PathInfo>>): (r: Result<nat, Fault>)
    ensures r.Success? <==> |paths| > 0 && paths[0].Some? && AllIn(paths, paths[0].value.volume)
    ensures r.Success? ==> r.value == paths[0].value.volume
    ensures r.Failure? ==> r.error == if AllParsed(paths) then CommandParamsFault(verb) else NullReference
  {
    DistinctSingleton(paths);
    var distinct :- Distinct(paths);
    if |distinct| != 1 then Failure(CommandParamsFault(verb)) else Success(distinct[0])
  }

  /** Whether some path of the list lies outside volume `v`, read in list
      order: a null path met first is a null-reference fault. */
  function AnyOtherVolume(paths: seq<Option<PathInfo>>, v: nat): (r: Result<bool, Fault>)
    ensures r == Success(false) <==> AllIn(paths, v)
    ensures r.Failure? ==> r.error == NullReference
    ensures AllParsed(paths) ==> r.Success?
  {
    if |paths| == 0 then Success(false)
    else if paths[0].None? then Failure(NullReference)
    else if paths[0].value.volume != v then Success(true)
    else
      var rest := AnyOtherVolume(paths[1..], v);
      assert AllIn(paths, v) <==> AllIn(paths[1..], v) by {
        if AllIn(paths[1..], v) {
          forall i | 0 <= i < |paths| ensures paths[i].Some? && paths[i].value.volume == v {
            if i > 0 { assert paths[i] == paths[1..][i - 1]; }
          }
        }
      }
      rest
  }

  /** A successful verb answers with driver calls that all go to
      registered volumes. */
  predicate Routed<Item>(env: Env<Item>, r: Result<Reply<Item>, Fault>) {
    r.Success? ==> r.value.Answered? && forall c :: c in r.value.calls ==> c.volume < |env.volumes|
  }

  /** A successful verb made exactly one driver call, for operation `op`. */
  predicate OneCall<Item>(r: Result<Reply<Item>, Fault>, op: Op) {
    r.Success? ==> r.value.Answered? && |r.value.calls| == 1 && r.value.calls[0].op == op
  }

  /** Call a volume's driver and answer with what it lists. */
  function Drive<Item>(env: Env<Item>, c: Call): (r: Result<Reply<Item>, Fault>)
    ensures r.Success? ==> r.value.Answered? && r.value.calls == [c]
    ensures r.Failure? <==> env.driver(c).Failure?
  {
    var reply :- env.driver(c);
    Success(Answered([c], reply.files))
  }

  // The rm filter

  /** The full name of a path: the canonical full path text, which keeps
      a trailing separator the path had. */
  function Key(p: PathInfo): string {
    var full := p.path.fullPath;
    PathHelper.Render(PathHelper.Resolve(full), PathHelper.EndsWithSeparator(full))
  }

  /** The full name of a path's parent directory; the root has none. A
      directory's parent ignores a trailing separator, while a file's
      directory is its text up to the last separator. */
  function ParentKey(p: PathInfo): Option<string> {
    var k := PathHelper.Resolve(p.path.fullPath);
    if |k| == 0 then None
    else if !p.IsDirectory() && PathHelper.EndsWithSeparator(p.path.fullPath) then Some(PathHelper.Render(k, false))
    else Some(PathHelper.Render(k[..|k| - 1], false))
  }

  /** Path `p` is the parent of some target of the list. */
  predicate ParentOfTarget(p: PathInfo, paths: seq<PathInfo>) {
    exists q :: q in paths && ParentKey(q) == Some(Key(p))
  }

  function Parents(paths: seq<PathInfo>): (r: seq<string>)
    ensures forall k :: k in r <==> exists q :: q in paths && ParentKey(q) == Some(k)
  {
    if |paths| == 0 then []
    else
      var rest := Parents(paths[1..]);
      assert forall q :: q in paths <==> q == paths[0] || q in paths[1..];
      match ParentKey(paths[0])
      case None => rest
      case Some(k) => [k] + rest
  }

  function KeepOutside(xs: seq<PathInfo>, parents: seq<string>): (r: seq<PathInfo>)
    ensures forall p :: p in r <==> p in xs && Key(p) !in parents
    ensures |r| <= |xs|
  {
    if |xs| == 0 then []
    else
      var rest := KeepOutside(xs[1..], parents);
      assert forall q :: q in xs <==> q == xs[0] || q in xs[1..];
      if Key(xs[0]) in parents then rest else [xs[0]] + rest
  }

  /** Removing a folder together with items inside it means emptying the
      folder: every target that is the parent of another is dropped. */
  function RmFilter(paths: seq<PathInfo>): (r: seq<PathInfo>)
    ensures forall p :: p in r <==> p in paths && !ParentOfTarget(p, paths)
    ensures |r| <= |paths|
  {
    KeepOutside(paths, Parents(paths))
  }

  // Tree roots of the open verb

  /** The root entries of volumes lo .. hi - 1, in order. */
  function Roots<T>(lo: nat, hi: nat, info: nat -> T): (r: seq<T>)
    ensures |r| == if lo <= hi then hi - lo else 0
    ensures forall j :: 0 <= j < |r| ==> r[j] == info(lo + j)
  {
    if lo < hi then seq(hi - lo, j requires 0 <= j < hi - lo => info(lo + j)) else []
  }

  /** Insert the root entry of volume i at list position i for every
      volume from `i` on, skipping volume `skip`; a position past the end
      of the list is an argument-range fault. */
  function InsertRoots<T>(files: seq<T>, i: nat, n: nat, skip: Option<nat>, info: nat -> T): (r: Result<seq<T>, Fault>)
    ensures r.Failure? ==> r.error == ArgumentOutOfRange
    decreases n - i
  {
    if i >= n then Success(files)
    else if skip == Some(i) then InsertRoots(files, i + 1, n, skip, info)
    else if i > |files| then Failure(ArgumentOutOfRange)
    else InsertRoots(files[..i] + [info(i)] + files[i..], i + 1, n, skip, info)
  }

  /** The listing of the open verb with tree = 1: the root entry of every
      volume at its own position around the driver's listing, except the
      volume whose root is the target. A target the driver left null is a
      null-reference fault. */
  function TreeFiles<T>(files: seq<T>, target: Option<PathInfo>, openVolume: nat, n: nat, info: nat -> T)
    : (r: Result<seq<T>, Fault>)
    requires openVolume < n
    ensures target.None? ==> r == Failure(NullReference)
    ensures target.Some? && !target.value.IsRoot() ==> r == Success(Roots(0, n, info) + files)
    ensures target.Some? && target.value.IsRoot() && |files| > 0 ==>
      r == Success(Roots(0, openVolume, info) + [files[0]] + Roots(openVolume + 1, n, info) + files[1..])
    ensures target.Some? && target.value.IsRoot() && |files| == 0 && openVolume + 1 < n ==>
      r == Failure(ArgumentOutOfRange)
  {
    if target.None? then Failure(NullReference)
    else
      var skip := if target.value.IsRoot() then Some(openVolume) else None;
      assert skip.None? ==> InsertRoots(files, 0, n, skip, info) == Success(Roots(0, n, info) + files) by {
        OpenRootsAll(files, n, info);
      }
      assert skip.Some? && |files| > 0 ==>
        InsertRoots(files, 0, n, skip, info)
        == Success(Roots(0, openVolume, info) + [files[0]] + Roots(openVolume + 1, n, info) + files[1..]) by {
        if skip.Some? && |files| > 0 { OpenRootsSkip(files, openVolume, n, info); }
      }
      assert skip.Some? && |files| == 0 && openVolume + 1 < n ==> InsertRoots(files, 0, n, skip, info) == Failure(ArgumentOutOfRange) by {
        if skip.Some? && |files| == 0 && openVolume + 1 < n { OpenRootsShort(openVolume, n, info); }
      }
      InsertRoots(files, 0, n, skip, info)
  }

  // The verbs

  function OpenVerb<Item>(env: Env<Item>, a: Args): (r: Result<Reply<Item>, Fault>)
    ensures Routed(env, r) && OneCall(r, Verb(CmdOpen))
    ensures a.target == "" && |env.volumes| == 0 ==> r == Failure(FileNotFoundFault)
    ensures r.Success? && a.target == "" ==> r.value.calls[0].volume == 0 && r.value.calls[0].target.None?
  {
    var tp :- ParsePath(env.volumes, env.fs, a.target, false, true);
    if tp.None? && |env.volumes| == 0 then Failure(FileNotFoundFault)
    else
      var openVolume := if tp.Some? then tp.value.volume else 0;
      var c := Call(Verb(CmdOpen), openVolume, tp, [], None, a);
      var reply :- env.driver(c);
      if ParseByte(a.tree) != 1 then Success(Answered([c], reply.files))
      else
        var files :- TreeFiles(reply.files, reply.target, openVolume, |env.volumes|, env.rootInfo);
        Success(Answered([c], files))
  }

  /** The archive checks as written: the target's volume is read before
      the target is checked for null. */
  function ArchiveChecksAsWritten(vols: seq<Volume>, tp: Option<PathInfo>, targets: seq<string>, paths: seq<Option<PathInfo>>)
    : (r: Result<nat, Fault>)
    requires tp.Some? ==> tp.value.volume < |vols|
    requires forall i :: 0 <= i < |paths| && paths[i].Some? ==> paths[i].value.volume < |vols|
  {
    var t :- Required(tp);
    if |targets| == 0 || !t.IsDirectory() then Failure(CommandParamsFault(CmdArchive))
    else
      var distinct :- Distinct(paths);
      if |distinct| != 1 || vols[distinct[0]].volumeId != vols[t.volume].volumeId then Failure(CommandParamsFault(CmdArchive))
      else Success(t.volume)
  }

  /** The archive checks with the null test first, as the test of a
      possibly null target intends: a missing target is a parameter
      fault like a file target. */
  function ArchiveChecks(vols: seq<Volume>, tp: Option<PathInfo>, targets: seq<string>, paths: seq<Option<PathInfo>>)
    : (r: Result<nat, Fault>)
    requires tp.Some? ==> tp.value.volume < |vols|
    requires forall i :: 0 <= i < |paths| && paths[i].Some? ==> paths[i].value.volume < |vols|
    ensures r.Success? <==>
      (|targets| > 0 && tp.Some? && tp.value.IsDirectory()
       && |paths| > 0 && paths[0].Some? && AllIn(paths, paths[0].value.volume)
       && vols[paths[0].value.volume].volumeId == vols[tp.value.volume].volumeId)
    ensures r.Success? ==> r.value == tp.value.volume
    ensures r.Failure? ==>
      r.error == if |targets| > 0 && tp.Some? && tp.value.IsDirectory() && !AllParsed(paths) then NullReference
                 else CommandParamsFault(CmdArchive)
  {
    DistinctSingleton(paths);
    if |targets| == 0 || tp.None? || !tp.value.IsDirectory() then Failure(CommandParamsFault(CmdArchive))
    else
      var distinct :- Distinct(paths);
      if |distinct| != 1 || vols[distinct[0]].volumeId != vols[tp.value.volume].volumeId then Failure(CommandParamsFault(CmdArchive))
      else Success(tp.value.volume)
  }

  function ArchiveVerb<Item>(env: Env<Item>, a: Args): (r: Result<Reply<Item>, Fault>)
    ensures Routed(env, r) && OneCall(r, Verb(CmdArchive))
    ensures r.Success? ==>
      var c := r.value.calls[0];
      |a.targets| > 0 && c.target.Some? && c.target.value.IsDirectory() && c.volume == c.target.value.volume
      && |c.targets| == |a.targets|
      && forall p :: p in c.targets ==> p.volume < |env.volumes| && env.volumes[p.volume].volumeId == env.volumes[c.volume].volumeId
  {
    var tp :- ParsePath(env.volumes, env.fs, a.target, true, true);
    var paths :- ParsePaths(env.volumes, env.fs, a.targets);
    ParsePathsInVolumes(env.volumes, env.fs, a.targets);
    var v :- ArchiveChecks(env.volumes, tp, a.targets, paths);
    ArchiveUnwrap(env.volumes, tp, a.targets, paths);
    Drive(env, Call(Verb(CmdArchive), v, tp, Unwrapped(paths), None, a))
  }

  /** The two versions differ only on a missing target: the code as
      written dereferences it and answers with the unknown error and
      status 500, where the null test it makes two lines later intends
      the archive verb's parameter error. */
  lemma ArchiveNullTarget(vols: seq<Volume>, targets: seq<string>, paths: seq<Option<PathInfo>>)
    requires forall i :: 0 <= i < |paths| && paths[i].Some? ==> paths[i].value.volume < |vols|
    ensures ArchiveChecksAsWritten(vols, None, targets, paths) == Failure(NullReference)
    ensures MapFault(NullReference, CmdArchive).0.error == Code(Unknown)
    ensures MapFault(NullReference, CmdArchive).1 == StatusInternalServerError
    ensures ArchiveChecks(vols, None, targets, paths) == Failure(CommandParamsFault(CmdArchive))
    ensures MapFault(CommandParamsFault(CmdArchive), CmdArchive) == (ConnectorResponse(CommandParamsFault(CmdArchive)), StatusOk)
    ensures MapFault(CommandParamsFault(CmdArchive), CmdArchive).0.error == CodeWith(CommandParams, CmdArchive)
  {
  }

  /** With a target present both versions decide alike. */
  lemma ArchiveVersionsAgree(vols: seq<Volume>, tp: Option<PathInfo>, targets: seq<string>, paths: seq<Option<PathInfo>>)
    requires tp.Some? ==> tp.value.volume < |vols|
    requires forall i :: 0 <= i < |paths| && paths[i].Some? ==> paths[i].value.volume < |vols|
    ensures tp.Some? ==> ArchiveChecksAsWritten(vols, tp, targets, paths) == ArchiveChecks(vols, tp, targets, paths)
  {
  }

  /** A target list that passes the archive checks is fully resolved. */
  lemma ArchiveUnwrap(vols: seq<Volume>, tp: Option<PathInfo>, targets: seq<string>, paths: seq<Option<PathInfo>>)
    requires tp.Some? ==> tp.value.volume < |vols|
    requires forall i :: 0 <= i < |paths| && paths[i].Some? ==> paths[i].value.volume < |vols|
    ensures ArchiveChecks(vols, tp, targets, paths).Success? ==> AllParsed(paths)
  {
  }

  /** The verbs that read one target and refuse a directory. */
  function FileTargetVerb<Item>(env: Env<Item>, a: Args): (r: Result<Reply<Item>, Fault>)
    ensures Routed(env, r) && OneCall(r, Verb(a.cmd))
    ensures r.Success? ==>
      var c := r.value.calls[0];
      c.target.Some? && !c.target.value.IsDirectory() && c.volume == c.target.value.volume
    ensures r.Success? && a.cmd == CmdFile ==> FileExists(env.fs, r.value.calls[0].target.value.path.fullPath)
    ensures a.target == "" ==> r.Failure?
  {
    var tp :- ParsePath(env.volumes, env.fs, a.target, true, true);
    var current :- if a.cmd == CmdGet then ParsePath(env.volumes, env.fs, a.current, true, true) else Success(None);
    var t :- Required(tp);
    if t.IsDirectory() then Failure(Raise(NotFileKind))
    else if a.cmd == CmdFile && !FileExists(env.fs, t.path.fullPath) then Failure(FileNotFoundFault)
    else if a.cmd == CmdPut && a.encoding == HashEncoding then
      var cp :- ParsePath(env.volumes, env.fs, a.content, true, true);
      var content :- Required(cp);
      if content.IsDirectory() then Failure(Raise(NotFileKind))
      else Drive(env, Call(Verb(a.cmd), t.volume, tp, [], cp, a))
    else Drive(env, Call(Verb(a.cmd), t.volume, tp, [], current, a))
  }

  /** The verbs whose target list must span one volume. */
  function TargetsVerb<Item>(env: Env<Item>, a: Args): (r: Result<Reply<Item>, Fault>)
    ensures Routed(env, r) && OneCall(r, Verb(a.cmd))
    ensures r.Success? ==> |a.targets| > 0 && forall p :: p in r.value.calls[0].targets ==> p.volume == r.value.calls[0].volume
    ensures r.Success? && a.cmd != CmdRm ==> |r.value.calls[0].targets| == |a.targets|
  {
    var paths :- ParsePaths(env.volumes, env.fs, a.targets);
    ParsePathsInVolumes(env.volumes, env.fs, a.targets);
    var dst :- if a.cmd == CmdPaste then ParsePath(env.volumes, env.fs, a.dst, true, true) else Success(None);
    var v :- SingleVolume(a.cmd, paths);
    var targets := if a.cmd == CmdRm then RmFilter(Unwrapped(paths)) else Unwrapped(paths);
    Drive(env, Call(Verb(a.cmd), v, None, targets, dst, a))
  }

  /** Search one volume after another from volume `i` on, each from its
      root, and list what they find in volume order. */
  function SearchFrom<Item>(env: Env<Item>, a: Args, i: nat): (r: Result<Reply<Item>, Fault>)
    requires i <= |env.volumes|
    ensures Routed(env, r)
    ensures r.Success? ==> |r.value.calls| == |env.volumes| - i
    ensures r.Success? ==> forall k :: 0 <= k < |r.value.calls| ==> r.value.calls[k].volume == i + k
    decreases |env.volumes| - i
  {
    if i == |env.volumes| then Success(Answered([], []))
    else
      var p :- ParsePath(env.volumes, env.fs, env.volumes[i].volumeId, true, true);
      var c := Call(Verb(CmdSearch), i, p, [], None, a);
      var reply :- env.driver(c);
      var rest :- SearchFrom(env, a, i + 1);
      Success(Answered([c] + rest.calls, reply.files + rest.files))
  }

  function SearchVerb<Item>(env: Env<Item>, a: Args): (r: Result<Reply<Item>, Fault>)
    ensures Routed(env, r)
    ensures r.Success? && a.target != "" ==> |r.value.calls| == 1 && r.value.calls[0].target.Some?
    ensures r.Success? && a.target == "" ==>
      |r.value.calls| == |env.volumes| && forall k :: 0 <= k < |env.volumes| ==> r.value.calls[k].volume == k
  {
    var tp :- ParsePath(env.volumes, env.fs, a.target, true, true);
    if tp.Some? then Drive(env, Call(Verb(CmdSearch), tp.value.volume, tp, [], None, a))
    else SearchFrom(env, a, 0)
  }

  /** The form files sent in the upload field. */
  function Uploads(files: seq<FormFile>): (r: seq<FormFile>)
    ensures forall f :: f in r <==> f in files && f.field == UploadField
  {
    if |files| == 0 then []
    else
      var rest := Uploads(files[1..]);
      assert forall f :: f in files <==> f == files[0] || f in files[1..];
      if files[0].field == UploadField then [files[0]] + rest else rest
  }

  /** A chunk piece needs exactly one file no longer than the total the
      range announces; the range is read only when there is one file. */
  function PieceRejected(uploads: seq<FormFile>, range: string): (r: Result<bool, Fault>)
    ensures r == Success(false) <==>
      (|uploads| == 1 && FileHelper.GetRangeInfo(range).Success?
       && uploads[0].length <= FileHelper.GetRangeInfo(range).value.totalBytes)
  {
    if |uploads| != 1 then Success(true)
    else
      var info :- FileHelper.GetRangeInfo(range);
      Success(uploads[0].length > info.totalBytes)
  }

  predicate TooLarge(maxUploadSize: Option<int>, uploads: seq<FormFile>) {
    maxUploadSize.Some? && exists i :: 0 <= i < |uploads| && uploads[i].length > maxUploadSize.value
  }

  /** The upload checks after the volume test, in order: a chunk piece
      needs one file within the total its range announces, a merge needs
      a file name and a chunk name, and no file may exceed the volume's
      size limit. */
  function UploadChecks(a: Args, uploads: seq<FormFile>, maxUploadSize: Option<int>): (r: Result<(), Fault>)
    ensures r.Success? <==>
      ((a.chunk != "" && a.cid != "" ==> PieceRejected(uploads, a.range) == Success(false))
       && (a.chunk != "" && a.cid == "" ==> !IsBlank(a.uploadName) && !IsBlank(a.chunk))
       && !TooLarge(maxUploadSize, uploads))
    ensures r.Failure? && !(a.chunk != "" && a.cid != "") ==>
      r.error == if a.chunk != "" && (IsBlank(a.uploadName) || IsBlank(a.chunk)) then CommandParamsFault(CmdUpload)
                 else Raise(UploadFileSizeKind)
  {
    var chunking := a.chunk != "";
    var merging := chunking && a.cid == "";
    var rejected :- if chunking && !merging then PieceRejected(uploads, a.range) else Success(false);
    if rejected then Failure(CommandParamsFault(CmdUpload))
    else if merging && (IsBlank(a.uploadName) || IsBlank(a.chunk)) then Failure(CommandParamsFault(CmdUpload))
    else if TooLarge(maxUploadSize, uploads) then Failure(Raise(UploadFileSizeKind))
    else Success(())
  }

  function UploadVerb<Item>(env: Env<Item>, a: Args, files: seq<FormFile>): (r: Result<Reply<Item>, Fault>)
    ensures Routed(env, r) && OneCall(r, Verb(CmdUpload))
    ensures a.uploadName == ChunkFail && a.mimes == ChunkFail ==> r.Failure?
    ensures r.Success? ==>
      var c := r.value.calls[0];
      c.target.Some? && c.volume == c.target.value.volume
      && (forall p :: p in c.targets ==> p.volume == c.volume)
      && UploadChecks(a, Uploads(files), env.volumes[c.volume].maxUploadSize).Success?
  {
    var tp :- ParsePath(env.volumes, env.fs, a.target, true, true);
    var infos :- ParsePaths(env.volumes, env.fs, a.uploadPath);
    var t :- Required(tp);
    var other :- AnyOtherVolume(infos, t.volume);
    if other then Failure(CommandParamsFault(CmdUpload))
    else if a.uploadName == ChunkFail && a.mimes == ChunkFail then
      var _ :- env.driver(Call(AbortUpload, t.volume, tp, Unwrapped(infos), None, a));
      Failure(Raise(ConnectionAbortedKind))
    else
      var _ :- UploadChecks(a, Uploads(files), env.volumes[t.volume].maxUploadSize);
      Drive(env, Call(Verb(CmdUpload), t.volume, tp, Unwrapped(infos), None, a))
  }

  function ZipdlVerb<Item>(env: Env<Item>, a: Args): (r: Result<Reply<Item>, Fault>)
    requires a.cmd == CmdZipdl
    ensures Routed(env, r) && OneCall(r, Verb(CmdZipdl))
    ensures r.Success? && ParseByte(a.download) == 1 ==> |a.targets| >= 4 && r.value.calls[0].target.Some?
  {
    if ParseByte(a.download) != 1 then TargetsVerb(env, a)
    else if |a.targets| == 0 then Failure(InvalidOperation)
    else
      var cwd :- ParsePath(env.volumes, env.fs, a.targets[0], true, true);
      if |a.targets| < 4 then Failure(IndexOutOfRange)
      else
        var c :- Required(cwd);
        Drive(env, Call(Verb(CmdZipdl), c.volume, cwd, [], None, a))
  }

  /** The verbs that only need their one target resolved; resize also
      refuses a mode it does not know. */
  function OneTargetVerb<Item>(env: Env<Item>, a: Args): (r: Result<Reply<Item>, Fault>)
    ensures Routed(env, r) && OneCall(r, Verb(a.cmd))
    ensures r.Success? ==> r.value.calls[0].target.Some? && r.value.calls[0].volume == r.value.calls[0].target.value.volume
    ensures a.target == "" ==> r.Failure?
    ensures a.cmd == CmdResize && a.mode !in ResizeModes ==> r.Failure?
  {
    var tp :- ParsePath(env.volumes, env.fs, a.target, true, true);
    if a.cmd == CmdResize && a.mode !in ResizeModes then Failure(Raise(UnknownCommandKind))
    else
      var t :- Required(tp);
      Drive(env, Call(Verb(a.cmd), t.volume, tp, [], None, a))
  }

  /** The group of checks a verb goes through. */
  datatype Route = OpenRoute | ArchiveRoute | FileTargetRoute | TargetsRoute | OneTargetRoute
                 | SearchRoute | UploadRoute | ZipdlRoute | UnknownRoute

  /** The verb switch: abort is answered elsewhere, and a verb outside the
      protocol is unknown. */
  function RouteOf(verb: string): (r: Route)
    ensures r == UnknownRoute <==> verb !in AllVerbs || verb == CmdAbort
    ensures r == FileTargetRoute <==> verb in {CmdExtract, CmdGet, CmdFile, CmdPut}
    ensures r == TargetsRoute <==> verb in SingleVolumeVerbs + {CmdPaste, CmdRm}
    ensures r == OneTargetRoute <==> verb in TargetVerbs + {CmdResize}
    ensures r == ZipdlRoute <==> verb == CmdZipdl
  {
    if verb == CmdOpen then OpenRoute
    else if verb == CmdArchive then ArchiveRoute
    else if verb in {CmdExtract, CmdGet, CmdFile, CmdPut} then FileTargetRoute
    else if verb in SingleVolumeVerbs + {CmdPaste, CmdRm} then TargetsRoute
    else if verb in TargetVerbs + {CmdResize} then OneTargetRoute
    else if verb == CmdSearch then SearchRoute
    else if verb == CmdUpload then UploadRoute
    else if verb == CmdZipdl then ZipdlRoute
    else UnknownRoute
  }

  /** Route a verb other than abort to its checks. */
  function Dispatch<Item>(env: Env<Item>, a: Args, files: seq<FormFile>): (r: Result<Reply<Item>, Fault>)
    requires a.cmd != CmdAbort
    ensures Routed(env, r)
    ensures a.cmd !in AllVerbs ==> r == Failure(Raise(UnknownCommandKind))
    ensures a.cmd == CmdResize && a.mode !in ResizeModes ==> r.Failure?
  {
    match RouteOf(a.cmd)
    case OpenRoute => OpenVerb(env, a)
    case ArchiveRoute => ArchiveVerb(env, a)
    case FileTargetRoute => FileTargetVerb(env, a)
    case TargetsRoute => TargetsVerb(env, a)
    case OneTargetRoute => OneTargetVerb(env, a)
    case SearchRoute => SearchVerb(env, a)
    case UploadRoute => UploadVerb(env, a, files)
    case ZipdlRoute => ZipdlVerb(env, a)
    case UnknownRoute => Failure(Raise(UnknownCommandKind))
  }

  /** What an abort does to the aborted request: for an upload, the same
      gate and argument checks, then the driver's cleanup of the upload. */
  function AbortRequest<Item>(env: Env<Item>, rc: CM.RequestCommand): (r: Result<seq<Call>, Fault>)
    ensures !Disabled(env.enabled, rc.cmd) && rc.args.cmd != "" && rc.args.cmd != CmdUpload ==> r == Success([])
    ensures r.Success? ==> |r.value| <= 1 && forall c :: c in r.value ==> c.op == AbortUpload && c.volume < |env.volumes|
    ensures r.Success? && |r.value| == 1 ==>
      rc.args.cmd == CmdUpload && !(rc.args.uploadName == ChunkFail && rc.args.mimes == ChunkFail)
      && r.value[0].target.Some? && r.value[0].volume == r.value[0].target.value.volume
      && forall p :: p in r.value[0].targets ==> p.volume == r.value[0].volume
  {
    var a := rc.args;
    if Disabled(env.enabled, rc.cmd) then Failure(Raise(CommandNoSupportKind))
    else if a.cmd == "" then Failure(Raise(CommandRequiredKind))
    else if a.cmd != CmdUpload then Success([])
    else
      var tp :- ParsePath(env.volumes, env.fs, a.target, true, true);
      var infos :- ParsePaths(env.volumes, env.fs, a.uploadPath);
      var chunking := a.chunk != "";
      var merging := chunking && a.cid == "";
      if a.uploadName == ChunkFail && a.mimes == ChunkFail then Success([])
      else if chunking && !merging && |infos| != 1 then Failure(CommandParamsFault(CmdUpload))
      else if merging && (IsBlank(a.uploadName) || IsBlank(a.chunk)) then Failure(CommandParamsFault(CmdUpload))
      else
        var t :- Required(tp);
        var other :- AnyOtherVolume(infos, t.volume);
        if other then Failure(CommandParamsFault(CmdUpload))
        else
          var c := Call(AbortUpload, t.volume, tp, Unwrapped(infos), None, a);
          var _ :- env.driver(c);
          Success([c])
  }

  /** The abort verb, run by a request whose own cancellation source is
      `own`: a request already cancelled stops at the manager's first
      check; otherwise the entry with the given id is removed and its
      source cancelled and, when there was one, what it was doing is
      aborted. Aborting the request's own entry cancels the request
      itself, so that abort stops with a cancellation fault. */
  function AbortVerb<Item>(env: Env<Item>, reg: CM.Registry, a: Args, own: CM.Source): (r: (Reply<Item>, CM.Registry))
    ensures own in reg.cancelled ==> r == (ErrorOf(OperationCanceled, CmdAbort), reg)
    ensures own !in reg.cancelled && a.id.None? ==>
      r.1 == reg && r.0 == ErrorReply(CommandParamsResponse(ArgumentNull, CmdAbort), StatusOk)
    ensures a.id.Some? && a.id.value !in reg.tokens && own !in reg.cancelled ==> r == (AbortAnswer(false), reg)
    ensures own !in reg.cancelled && a.id.Some? && a.id.value in reg.tokens ==>
      r.1.tokens == reg.tokens - {a.id.value}
      && r.1.cancelled == reg.cancelled + {reg.tokens[a.id.value].source}
      && (reg.tokens[a.id.value].source == own ==> r.0 == ErrorOf(OperationCanceled, CmdAbort))
      && (r.0 == AbortAnswer(true) <==>
            reg.tokens[a.id.value].source != own && AbortRequest(env, reg.tokens[a.id.value].cmd).Success?)
      && (r.0.AbortAnswer? || r.0.ErrorReply?)
  {
    if own in reg.cancelled then (ErrorOf(OperationCanceled, CmdAbort), reg)
    else if a.id.None? then (ErrorOf(ArgumentNull, CmdAbort), reg)
    else
      var (found, rc, reg2) := CM.Abort(reg, a.id.value);
      if !found then (AbortAnswer(false), reg2)
      else if own in reg2.cancelled then (ErrorOf(OperationCanceled, CmdAbort), reg2)
      else
        match AbortRequest(env, rc.value)
        case Failure(f) => (ErrorOf(f, CmdAbort), reg2)
        case Success(_) => (AbortAnswer(true), reg2)
  }

  /** Handle one request whose cancellation source is `own`: a cancelled
      request stops before anything is caught; otherwise gate the verb,
      run it, and turn any fault into an error reply. The registry
      changes only through an abort. */
  function ProcessCore<Item>(env: Env<Item>, reg: CM.Registry, cmd: ConnectorCommand, own: CM.Source)
    : (r: Result<(Reply<Item>, CM.Registry), Fault>)
    ensures r.Failure? <==> own in reg.cancelled
    ensures r.Failure? ==> r.error == OperationCanceled
    ensures r.Success? && (cmd.args.cmd != CmdAbort || Disabled(env.enabled, cmd.cmd)) ==> r.value.1 == reg
    ensures r.Success? && r.value.0.Answered? ==> forall c :: c in r.value.0.calls ==> c.volume < |env.volumes|
  {
    var verb := cmd.args.cmd;
    if own in reg.cancelled then Failure(OperationCanceled)
    else if Disabled(env.enabled, cmd.cmd) then Success((ErrorOf(Raise(CommandNoSupportKind), verb), reg))
    else if verb == "" then Success((ErrorOf(Raise(CommandRequiredKind), verb), reg))
    else if verb == CmdAbort then Success(AbortVerb(env, reg, cmd.args, own))
    else
      match Dispatch(env, cmd.args, cmd.files)
      case Success(reply) => Success((reply, reg))
      case Failure(f) => Success((ErrorOf(f, verb), reg))
  }

  /** Handle a request with registration: a request whose source is
      already cancelled stops at once; a request with an id is registered
      next (a fault there is not caught) and released after. */
  function Process<Item>(env: Env<Item>, reg: CM.Registry, opts: CM.Options, cmd: ConnectorCommand, source: CM.Source, now: nat)
    : (r: Result<(Reply<Item>, CM.Registry), Fault>)
    ensures r.Failure? <==>
      source in reg.cancelled
      || (cmd.reqId.Some? && cmd.reqId.value != "" && |reg.tokens| < opts.maximumItems && cmd.reqId.value in reg.tokens)
    ensures r.Failure? ==> r.error == (if source in reg.cancelled then OperationCanceled else InvalidOperation)
    ensures r.Success? && (cmd.reqId.None? || cmd.reqId.value == "") ==> r == ProcessCore(env, reg, cmd, source)
    ensures r.Success? && cmd.reqId.Some? && cmd.reqId.value != "" ==> cmd.reqId.value !in r.value.1.tokens
  {
    var hasReqId := cmd.reqId.Some? && cmd.reqId.value != "";
    if source in reg.cancelled then Failure(OperationCanceled)
    else
      var registered :- if hasReqId then CM.AddCancellationTokenSource(reg, opts, CM.RequestCommand(cmd.reqId.value, cmd.cmd, cmd.args), source, now)
                        else Success(reg);
      // registering cancels nothing, so the core's own check passes
      var (reply, after) := ProcessCore(env, registered, cmd, source).value;
      Success((reply, if hasReqId then CM.ReleaseRequest(after, cmd.reqId.value).1 else after))
  }

  // Properties

  /** After `lo` entries, the entries of volumes lo .. i - 1 are in place
      at positions lo .. i - 1; inserting goes on the same way up to any
      later volume `k` that is not skipped on the way. */
  lemma {:induction false} InsertAdvance<T>(pre: seq<T>, post: seq<T>, lo: nat, i: nat, k: nat, n: nat, skip: Option<nat>, info: nat -> T)
    requires |pre| == lo <= i <= k <= n
    requires skip.None? || skip.value < i || skip.value >= k
    ensures InsertRoots(pre + Roots(lo, i, info) + post, i, n, skip, info)
         == InsertRoots(pre + Roots(lo, k, info) + post, k, n, skip, info)
    decreases k - i
  {
    if i < k {
      var xs := pre + Roots(lo, i, info) + post;
      assert xs[..i] + [info(i)] + xs[i..] == pre + Roots(lo, i + 1, info) + post by {
        assert xs[..i] == pre + Roots(lo, i, info);
        assert xs[i..] == post;
        assert Roots(lo, i + 1, info) == Roots(lo, i, info) + [info(i)];
      }
      InsertAdvance(pre, post, lo, i + 1, k, n, skip, info);
    }
  }

  /** With no volume skipped, the tree listing is the root entries of all
      volumes in volume order, then what the driver listed. */
  lemma {:induction false} OpenRootsAll<T>(files: seq<T>, n: nat, info: nat -> T)
    ensures InsertRoots(files, 0, n, None, info) == Success(Roots(0, n, info) + files)
  {
    var none: seq<T> := [];
    var all := Roots(0, n, info) + files;
    assert none + Roots(0, 0, info) + files == files;
    assert none + Roots(0, n, info) + files == all;
    InsertAdvance(none, files, 0, 0, n, n, None, info);
    InsertRootsDone(all, n, None, info);
  }

  lemma InsertRootsDone<T>(files: seq<T>, n: nat, skip: Option<nat>, info: nat -> T)
    ensures InsertRoots(files, n, n, skip, info) == Success(files)
  {
  }

  /** When the open target is the root of volume k, that volume's entry
      is left out and the first entry the driver listed stands at its
      position. */
  lemma {:induction false} OpenRootsSkip<T>(files: seq<T>, k: nat, n: nat, info: nat -> T)
    requires k < n && |files| > 0
    ensures InsertRoots(files, 0, n, Some(k), info)
         == Success(Roots(0, k, info) + [files[0]] + Roots(k + 1, n, info) + files[1..])
  {
    assert [] + Roots(0, 0, info) + files == files;
    InsertAdvance([], files, 0, 0, k, n, Some(k), info);
    var pre := Roots(0, k, info) + [files[0]];
    assert [] + Roots(0, k, info) + files == pre + Roots(k + 1, k + 1, info) + files[1..];
    InsertAdvance(pre, files[1..], k + 1, k + 1, n, n, Some(k), info);
  }

  /** A skipped root with an empty driver listing runs out of positions:
      the next insertion is past the end of the list. */
  lemma {:induction false} OpenRootsShort<T>(k: nat, n: nat, info: nat -> T)
    requires k + 1 < n
    ensures InsertRoots([], 0, n, Some(k), info) == Failure(ArgumentOutOfRange)
  {
    assert [] + Roots(0, 0, info) + [] == [];
    InsertAdvance([], [], 0, 0, k, n, Some(k), info);
    assert [] + Roots(0, k, info) + [] == Roots(0, k, info);
  }

  /** A listing that runs out of positions is answered as a parameter
      error of the open verb. */
  lemma OpenOutOfRangeAnswer()
    ensures MapFault(ArgumentOutOfRange, CmdOpen) == (CommandParamsResponse(ArgumentOutOfRange, CmdOpen), StatusOk)
  {
  }

  /** The file verbs refuse a directory target before any driver call. */
  lemma DirectoryNotFile<Item>(env: Env<Item>, a: Args, p: PathInfo)
    requires a.cmd in {CmdExtract, CmdGet, CmdFile, CmdPut}
    requires ParsePath(env.volumes, env.fs, a.target, true, true) == Success(Some(p)) && p.IsDirectory()
    requires a.cmd == CmdGet ==> ParsePath(env.volumes, env.fs, a.current, true, true).Success?
    ensures FileTargetVerb(env, a) == Failure(Raise(NotFileKind))
    ensures MapFault(Raise(NotFileKind), a.cmd) == (ErrorResponse(Code(NotFile), Raise(NotFileKind)), StatusOk)
  {
    hide ParsePath, Drive, FileExists, MapFault;
    assert FileTargetVerb(env, a) == Failure(Raise(NotFileKind));
  }

  /** A target list that is empty or spans two volumes is the verb's
      parameter error. */
  lemma TargetsNotOneVolume<Item>(env: Env<Item>, a: Args)
    requires a.cmd in SingleVolumeVerbs + {CmdPaste, CmdRm, CmdZipdl}
    requires a.cmd == CmdPaste ==> ParsePath(env.volumes, env.fs, a.dst, true, true).Success?
    requires var paths := ParsePaths(env.volumes, env.fs, a.targets);
      paths.Success? && AllParsed(paths.value)
      && (|paths.value| == 0 || exists i :: 0 <= i < |paths.value| && paths.value[i].value.volume != paths.value[0].value.volume)
    ensures TargetsVerb(env, a) == Failure(CommandParamsFault(a.cmd))
  {
    var paths := ParsePaths(env.volumes, env.fs, a.targets).value;
    assert !(|paths| > 0 && paths[0].Some? && AllIn(paths, paths[0].value.volume));
    hide ParsePath, Drive, RmFilter;
  }

  /** rm leaves out every target that is the parent of another target
      and keeps all the others. */
  lemma RmTargets<Item>(env: Env<Item>, a: Args)
    requires a.cmd == CmdRm && TargetsVerb(env, a).Success?
    ensures var paths := ParsePaths(env.volumes, env.fs, a.targets);
      paths.Success? && AllParsed(paths.value)
      && forall p :: p in TargetsVerb(env, a).value.calls[0].targets
           <==> p in Unwrapped(paths.value) && !ParentOfTarget(p, Unwrapped(paths.value))
  {
  }

  /** A directory target written with a trailing separator keeps it in its
      full name, while no parent name ends in one: rm never drops such a
      target, even next to targets inside it. */
  lemma {:induction false} RmKeepsSeparatorEnded(p: PathInfo, paths: seq<PathInfo>)
    requires PathHelper.EndsWithSeparator(p.path.fullPath) && PathHelper.Resolve(p.path.fullPath) != []
    requires p in paths
    ensures p in RmFilter(paths)
  {
    var k := PathHelper.Resolve(p.path.fullPath);
    PathHelper.BodyShape(k);
    assert Key(p) == PathHelper.Body(k) + [PathHelper.DirectorySeparatorChar];
    forall q | q in paths && ParentKey(q).Some?
      ensures ParentKey(q) != Some(Key(p))
    {
      var kq := PathHelper.Resolve(q.path.fullPath);
      var par := if !q.IsDirectory() && PathHelper.EndsWithSeparator(q.path.fullPath) then kq else kq[..|kq| - 1];
      assert ParentKey(q) == Some(PathHelper.Render(par, false));
      PathHelper.BodyShape(par);
      if par != [] {
        assert PathHelper.Render(par, false) == PathHelper.Body(par);
      }
    }
  }

  /** A zip download with fewer than four arguments reads past the end of
      the list; the handler answers that with the unknown error and status
      500, since the fault is not one it recognises. */
  lemma ZipdlShortList<Item>(env: Env<Item>, a: Args)
    requires a.cmd == CmdZipdl && ParseByte(a.download) == 1 && 0 < |a.targets| < 4
    requires ParsePath(env.volumes, env.fs, a.targets[0], true, true).Success?
    ensures ZipdlVerb(env, a) == Failure(IndexOutOfRange)
    ensures ErrorOf<Item>(IndexOutOfRange, CmdZipdl) == ErrorReply(UnknownResponse(IndexOutOfRange), StatusInternalServerError)
  {
    hide ParsePath, ParseByte, TargetsVerb, Drive, ErrorOf, MapFault;
    UnknownAnswer<Item>(IndexOutOfRange, CmdZipdl);
  }

  /** An empty zip download list faults on its first element, which the
      handler also answers with the unknown error and status 500. */
  lemma ZipdlNoTargets<Item>(env: Env<Item>, a: Args)
    requires a.cmd == CmdZipdl && ParseByte(a.download) == 1 && |a.targets| == 0
    ensures ZipdlVerb(env, a) == Failure(InvalidOperation)
    ensures ErrorOf<Item>(InvalidOperation, CmdZipdl) == ErrorReply(UnknownResponse(InvalidOperation), StatusInternalServerError)
  {
    hide ParsePath, ParseByte, TargetsVerb, Drive, ErrorOf, MapFault;
    UnknownAnswer<Item>(InvalidOperation, CmdZipdl);
  }

  /** The download step of a zip download reaches the driver exactly when
      there are at least four arguments and the first one resolves to a
      path; the driver's answer is then the reply. */
  lemma ZipdlReachesDriver<Item>(env: Env<Item>, a: Args)
    requires a.cmd == CmdZipdl && ParseByte(a.download) == 1
    ensures var r := ZipdlVerb(env, a);
      r.Success? <==>
        |a.targets| >= 4
        && var cwd := ParsePath(env.volumes, env.fs, a.targets[0], true, true);
        cwd.Success? && cwd.value.Some?
        && env.driver(Call(Verb(CmdZipdl), cwd.value.value.volume, cwd.value, [], None, a)).Success?
    ensures var r := ZipdlVerb(env, a);
      r.Success? ==>
        var cwd := ParsePath(env.volumes, env.fs, a.targets[0], true, true);
        r.value.calls == [Call(Verb(CmdZipdl), cwd.value.value.volume, cwd.value, [], None, a)]
  {
    hide ParsePath, ParseByte, TargetsVerb;
  }

  /** An upload reaches the driver exactly when the target resolves, every
      upload path resolves inside the target's volume, the request is not
      the client's chunk-failure notice, and the piece, merge and size
      checks pass; the one call names the target's volume, the target and
      the upload paths. */
  lemma UploadReachesDriver<Item>(env: Env<Item>, a: Args, files: seq<FormFile>)
    ensures var r := UploadVerb(env, a, files);
      var tp := ParsePath(env.volumes, env.fs, a.target, true, true);
      var infos := ParsePaths(env.volumes, env.fs, a.uploadPath);
      r.Success? <==>
        tp.Success? && tp.value.Some? && infos.Success? && AllIn(infos.value, tp.value.value.volume)
        && !(a.uploadName == ChunkFail && a.mimes == ChunkFail)
        && UploadChecks(a, Uploads(files), env.volumes[tp.value.value.volume].maxUploadSize).Success?
        && env.driver(Call(Verb(CmdUpload), tp.value.value.volume, tp.value, Unwrapped(infos.value), None, a)).Success?
    ensures var r := UploadVerb(env, a, files);
      var tp := ParsePath(env.volumes, env.fs, a.target, true, true);
      var infos := ParsePaths(env.volumes, env.fs, a.uploadPath);
      r.Success? ==>
        r.value.calls == [Call(Verb(CmdUpload), tp.value.value.volume, tp.value, Unwrapped(infos.value), None, a)]
  {
    hide ParsePath, ParsePaths, UploadChecks, Drive, AnyOtherVolume;
    var tp := ParsePath(env.volumes, env.fs, a.target, true, true);
    var infos := ParsePaths(env.volumes, env.fs, a.uploadPath);
    if tp.Success? && tp.value.Some? && infos.Success? {
      var t := tp.value.value;
      if AllIn(infos.value, t.volume) {
        assert AnyOtherVolume(infos.value, t.volume) == Success(false);
      }
    }
  }

  /** A chunk piece whose range text is built the client's way is judged
      by its length against the total alone: it passes exactly when the
      one file is no longer than the announced total. */
  lemma PieceAcceptsClientRange(f: FormFile, start: int, length: int, total: int)
    requires Numbers.IsInt64(start) && Numbers.IsInt64(length) && Numbers.IsInt64(total)
    ensures PieceRejected([f], FileHelper.RangeText(start, length, total)) == Success(f.length > total)
  {
    FileHelper.RangeRoundTrip(start, length, total);
  }

  /** The client's chunk-failure notice has the driver clean up the
      upload and then ends as an aborted connection. */
  lemma UploadChunkFail<Item>(env: Env<Item>, a: Args, files: seq<FormFile>, t: PathInfo)
    requires a.uploadName == ChunkFail && a.mimes == ChunkFail
    requires ParsePath(env.volumes, env.fs, a.target, true, true) == Success(Some(t))
    requires var infos := ParsePaths(env.volumes, env.fs, a.uploadPath);
      infos.Success? && AllIn(infos.value, t.volume)
      && env.driver(Call(AbortUpload, t.volume, Some(t), Unwrapped(infos.value), None, a)).Success?
    ensures UploadVerb(env, a, files) == Failure(Raise(ConnectionAbortedKind))
    ensures MapFault(Raise(ConnectionAbortedKind), CmdUpload).0.error == Code(ConnectionAborted)
  {
    hide ParsePath, ParsePaths, AnyOtherVolume, Drive, UploadChecks, MapFault;
  }

  /** An upload path outside the target's volume is refused before any
      other check. */
  lemma UploadOtherVolume<Item>(env: Env<Item>, a: Args, files: seq<FormFile>, t: PathInfo, i: nat)
    requires ParsePath(env.volumes, env.fs, a.target, true, true) == Success(Some(t))
    requires var infos := ParsePaths(env.volumes, env.fs, a.uploadPath);
      infos.Success? && AllParsed(infos.value) && i < |infos.value| && infos.value[i].value.volume != t.volume
    ensures UploadVerb(env, a, files) == Failure(CommandParamsFault(CmdUpload))
  {
    var infos := ParsePaths(env.volumes, env.fs, a.uploadPath).value;
    assert !AllIn(infos, t.volume);
  }

  /** The verb gate: a refused verb is answered first, then a missing
      verb, then a verb outside the protocol, each with its own code and
      status 200. */
  lemma ProcessGate<Item>(env: Env<Item>, reg: CM.Registry, cmd: ConnectorCommand, own: CM.Source)
    ensures var r := ProcessCore(env, reg, cmd, own);
      (own !in reg.cancelled ==> r.Success?)
      && (own !in reg.cancelled && Disabled(env.enabled, cmd.cmd) ==>
         r.value.0 == ErrorReply(ErrorResponse(Code(CommandNoSupport), Raise(CommandNoSupportKind)), StatusOk))
      && (own !in reg.cancelled && !Disabled(env.enabled, cmd.cmd) && cmd.args.cmd == "" ==>
         r.value.0 == ErrorReply(ErrorResponse(Code(CommandRequired), Raise(CommandRequiredKind)), StatusOk))
      && (own !in reg.cancelled && !Disabled(env.enabled, cmd.cmd) && cmd.args.cmd != "" && cmd.args.cmd !in AllVerbs ==>
         r.value.0 == ErrorReply(ErrorResponse(Code(UnknownCommand), Raise(UnknownCommandKind)), StatusOk))
  {
    hide Dispatch, AbortVerb;
  }

  /** The verb gate reads the verb set before the connector runs, not the
      one in the arguments: with an enabled-verb list, a request without
      that verb is refused even when its argument names an enabled verb. */
  lemma GateReadsPreRunVerb<Item>(env: Env<Item>, reg: CM.Registry, cmd: ConnectorCommand, own: CM.Source)
    requires env.enabled.Some? && cmd.cmd.None? && cmd.args.cmd in env.enabled.value
    requires own !in reg.cancelled
    ensures ProcessCore(env, reg, cmd, own).value.0.error.error == Code(CommandNoSupport)
  {
  }

  /** A request with a fresh id, or none, that is not an abort leaves the
      registry as it found it. */
  lemma ProcessLeavesRegistry<Item>(env: Env<Item>, reg: CM.Registry, opts: CM.Options, cmd: ConnectorCommand, source: CM.Source, now: nat)
    requires cmd.args.cmd != CmdAbort
    requires cmd.reqId.Some? ==> cmd.reqId.value !in reg.tokens
    requires source !in reg.cancelled
    ensures Process(env, reg, opts, cmd, source, now).Success?
    ensures Process(env, reg, opts, cmd, source, now).value.1 == reg
  {
    if cmd.reqId.Some? && cmd.reqId.value != "" {
      CM.AddThenRelease(reg, opts, CM.RequestCommand(cmd.reqId.value, cmd.cmd, cmd.args), source, now);
    }
  }

  /** A full registry does not register a request, yet the release at the
      end still removes the entry of an earlier request with the same id. */
  lemma ProcessFullDropsOther<Item>(env: Env<Item>, reg: CM.Registry, opts: CM.Options, cmd: ConnectorCommand, source: CM.Source, now: nat)
    requires cmd.args.cmd != CmdAbort
    requires cmd.reqId.Some? && cmd.reqId.value != "" && cmd.reqId.value in reg.tokens
    requires |reg.tokens| >= opts.maximumItems
    requires source !in reg.cancelled
    ensures Process(env, reg, opts, cmd, source, now).Success?
    ensures Process(env, reg, opts, cmd, source, now).value.1.tokens == reg.tokens - {cmd.reqId.value}
  {
  }

  /** A registered request aborting another one: both entries are gone
      afterwards and only the aborted request's source is cancelled. */
  lemma ProcessAbortsOther<Item>(env: Env<Item>, reg: CM.Registry, opts: CM.Options, cmd: ConnectorCommand, source: CM.Source, now: nat)
    requires !Disabled(env.enabled, cmd.cmd) && cmd.args.cmd == CmdAbort
    requires cmd.args.id.Some? && cmd.args.id.value in reg.tokens
    requires cmd.reqId.Some? && cmd.reqId.value != "" && cmd.reqId.value !in reg.tokens
    requires |reg.tokens| < opts.maximumItems
    requires source !in reg.cancelled
    ensures var r := Process(env, reg, opts, cmd, source, now);
      r.Success?
      && r.value.1.tokens == reg.tokens - {cmd.args.id.value}
      && r.value.1.cancelled == reg.cancelled + {reg.tokens[cmd.args.id.value].source}
  {
    hide Dispatch, AbortRequest;
    var x := cmd.reqId.value;
    var y := cmd.args.id.value;
    var added := CM.AddCancellationTokenSource(reg, opts, CM.RequestCommand(x, cmd.cmd, cmd.args), source, now).value;
    assert added.tokens == reg.tokens[x := CM.TokenEntry(CM.RequestCommand(x, cmd.cmd, cmd.args), source, now)];
    assert x != y;
    assert (added.tokens - {y}) - {x} == reg.tokens - {y};
  }

  /** The core step of an abort whose id names the request's own entry:
      the entry is removed and the request's own source cancelled, so the
      abort itself ends in the cancellation answer errAbort, status 200. */
  lemma CoreSelfAbort<Item>(env: Env<Item>, reg: CM.Registry, cmd: ConnectorCommand, own: CM.Source)
    requires !Disabled(env.enabled, cmd.cmd) && cmd.args.cmd == CmdAbort
    requires cmd.args.id.Some? && cmd.args.id.value in reg.tokens && reg.tokens[cmd.args.id.value].source == own
    requires own !in reg.cancelled
    ensures var r := ProcessCore(env, reg, cmd, own);
      r.Success?
      && r.value.0 == ErrorReply(ConnectionAbortedResponse(OperationCanceled), StatusOk)
      && r.value.1 == CM.Registry(reg.tokens - {cmd.args.id.value}, reg.cancelled + {own})
  {
    hide Dispatch, AbortRequest;
  }

  /** A request that aborts itself: registering it and then aborting its
      own id cancels its own source, so the abort ends with the
      cancellation answer errAbort, status 200, and the registry is left
      with the request's source cancelled and its entry gone. */
  lemma ProcessSelfAbort<Item>(env: Env<Item>, reg: CM.Registry, opts: CM.Options, cmd: ConnectorCommand, source: CM.Source, now: nat)
    requires !Disabled(env.enabled, cmd.cmd) && cmd.args.cmd == CmdAbort
    requires cmd.reqId.Some? && cmd.reqId.value != "" && cmd.reqId.value !in reg.tokens
    requires cmd.args.id == cmd.reqId
    requires |reg.tokens| < opts.maximumItems
    requires source !in reg.cancelled
    ensures var r := Process(env, reg, opts, cmd, source, now);
      r.Success?
      && r.value.0 == ErrorReply(ConnectionAbortedResponse(OperationCanceled), StatusOk)
      && r.value.1.tokens == reg.tokens
      && r.value.1.cancelled == reg.cancelled + {source}
  {
    hide Process, ProcessCore, Dispatch, AbortRequest, AbortVerb;
    var x := cmd.reqId.value;
    var e := CM.TokenEntry(CM.RequestCommand(x, cmd.cmd, cmd.args), source, now);
    var added := CM.Registry(reg.tokens[x := e], reg.cancelled);
    assert CM.AddCancellationTokenSource(reg, opts, CM.RequestCommand(x, cmd.cmd, cmd.args), source, now) == Success(added);
    CoreSelfAbort(env, added, cmd, source);
    ProcessRegistered(env, reg, opts, cmd, source, now);
    assert (reg.tokens[x := e] - {x}) - {x} == reg.tokens;
  }

  /** A fresh request id within the registry's room is registered, the
      core step runs on the registry holding it, and the id is released
      afterwards. */
  lemma ProcessRegistered<Item>(env: Env<Item>, reg: CM.Registry, opts: CM.Options, cmd: ConnectorCommand, source: CM.Source, now: nat)
    requires cmd.reqId.Some? && cmd.reqId.value != "" && cmd.reqId.value !in reg.tokens
    requires |reg.tokens| < opts.maximumItems && source !in reg.cancelled
    ensures var added := CM.AddCancellationTokenSource(reg, opts, CM.RequestCommand(cmd.reqId.value, cmd.cmd, cmd.args), source, now);
      added.Success?
      && var core := ProcessCore(env, added.value, cmd, source);
      core.Success?
      && Process(env, reg, opts, cmd, source, now) == Success((core.value.0, CM.ReleaseRequest(core.value.1, cmd.reqId.value).1))
  {
    hide ProcessCore, Dispatch, AbortRequest, AbortVerb;
  }

}
