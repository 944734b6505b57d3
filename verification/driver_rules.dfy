/** The decision rules of the file-system driver that need no file system:
    object-name validity, the ordered allow/deny mime rules, the upload
    modes, the precedence of an upload that meets an existing file, and
    the archive name (FileSystemDriver.cs). */
module DriverRules {
  import opened Wrappers
  import opened Faults
  import opened Strings
  import PathHelper

  // Object names

  /** Path.GetInvalidFileNameChars on Unix: NUL and the separator. */
  const InvalidFileNameChars: set<char> := {NulChar, PathHelper.DirectorySeparatorChar}

  /** A name is valid when it is absent or holds no invalid character. */
  predicate IsObjectNameValid(name: Option<string>) {
    name.None? || forall i :: 0 <= i < |name.value| ==> name.value[i] !in InvalidFileNameChars
  }

  /** Every name of a list is valid. */
  predicate AllNamesValid(names: seq<string>) {
    forall i :: 0 <= i < |names| ==> IsObjectNameValid(Some(names[i]))
  }

  /** A valid name is a single piece of a path: splitting it at the
      separator gives it back whole, and it holds no NUL; a name holding
      either character is invalid. */
  lemma ValidNameIsOneSegment(name: string)
    ensures IsObjectNameValid(Some(name)) <==>
      NulChar !in name && Split(name, PathHelper.DirectorySeparatorChar) == [name]
  {
    var sep := PathHelper.DirectorySeparatorChar;
    if IsObjectNameValid(Some(name)) {
      assert sep !in name;
      assert Split(name, sep) == [name];
    } else {
      var i :| 0 <= i < |name| && name[i] in InvalidFileNameChars;
      if name[i] == sep {
        assert sep in name;
      } else {
        assert NulChar in name;
      }
    }
  }

  // Upload modes

  /** A plain upload of whole files, one piece of a chunked upload, or the
      final merge of a chunked upload. */
  datatype UploadMode = Plain | ChunkPiece | ChunkMerge

  /** The mode a request asks for: any chunk name means chunking, and a
      chunked request without a chunk id is the merge. */
  function ModeOf(chunk: string, cid: string): (m: UploadMode)
    ensures m.Plain? <==> |chunk| == 0
    ensures m.ChunkMerge? <==> |chunk| > 0 && |cid| == 0
  {
    if |chunk| == 0 then Plain
    else if |cid| == 0 then ChunkMerge
    else ChunkPiece
  }

  /** A request that ends in a file in its final place: a plain upload or
      a merge. */
  predicate IsFinalUploading(m: UploadMode) {
    !m.ChunkPiece?
  }

  /** The name checks that open an upload and an upload abort, in order:
      the names, the renames, the suffix and the upload name, the chunk
      name when chunking, and the uploading file name a chunk piece
      carries. `chunkInfo` is the command's parsed chunk name. */
  function UploadNameChecks(names: seq<string>, renames: seq<string>, suffix: Option<string>, uploadName: Option<string>,
                            chunk: string, cid: string, chunkInfo: Result<string, Fault>): (r: Result<UploadMode, Fault>)
    ensures r.Success? ==> r.value == ModeOf(chunk, cid)
    ensures r.Success? ==>
      AllNamesValid(names) && AllNamesValid(renames) && IsObjectNameValid(suffix) && IsObjectNameValid(uploadName)
    ensures r.Success? && r.value.ChunkPiece? ==> chunkInfo.Success? && IsObjectNameValid(Some(chunkInfo.value))
    ensures r.Failure? && chunkInfo.Success? ==> r.error == Raise(InvalidFileNameKind)
  {
    var mode := ModeOf(chunk, cid);
    if !AllNamesValid(names) || !AllNamesValid(renames) then Failure(Raise(InvalidFileNameKind))
    else if !IsObjectNameValid(suffix) || !IsObjectNameValid(uploadName) then Failure(Raise(InvalidFileNameKind))
    else if !mode.Plain? && !IsObjectNameValid(Some(chunk)) then Failure(Raise(InvalidFileNameKind))
    else if !IsFinalUploading(mode) then
      var name :- chunkInfo;
      if !IsObjectNameValid(Some(name)) then Failure(Raise(InvalidFileNameKind)) else Success(mode)
    else Success(mode)
  }

  /** The three modes are exclusive and cover every request, and an abort
      has nothing to do for a final upload. */
  lemma ModesPartition(chunk: string, cid: string)
    ensures var m := ModeOf(chunk, cid);
      (m.Plain? <==> chunk == [])
      && (m.ChunkPiece? <==> chunk != [] && cid != [])
      && (IsFinalUploading(m) <==> chunk == [] || cid == [])
  {
  }

  // Mime rules

  /** A mime type; its full form is the type, a slash and the subtype. */
  datatype MimeType = MimeType(mediaType: string, subtype: string) {
    function Full(): string {
      mediaType + "/" + subtype
    }
  }

  /** The value of a rule list that matches every type. */
  const UploadConstraintAllValue := "all"

  datatype ConstraintKind = Allow | Deny

  /** A rule list names a mime type: by the all-value, its full form or
      its type. */
  predicate Names(list: seq<string>, mime: MimeType) {
    UploadConstraintAllValue in list || mime.Full() in list || mime.mediaType in list
  }

  /** Apply the rules in the volume's order; a missing list is skipped, an
      allow list must name the type and a deny list must not. */
  function CheckRules(order: seq<ConstraintKind>, allow: Option<seq<string>>, deny: Option<seq<string>>, mime: MimeType): (r: Result<(), Fault>)
    ensures r.Failure? ==> r.error == Raise(FileTypeNotAllowKind)
  {
    if order == [] then Success(())
    else
      var list := if order[0] == Allow then allow else deny;
      if list.Some? && order[0] == Allow && !Names(list.value, mime) then Failure(Raise(FileTypeNotAllowKind))
      else if list.Some? && order[0] == Deny && Names(list.value, mime) then Failure(Raise(FileTypeNotAllowKind))
      else CheckRules(order[1..], allow, deny, mime)
  }

  /** The volume's mime check: no order means no check. */
  function CheckMime(order: Option<seq<ConstraintKind>>, allow: Option<seq<string>>, deny: Option<seq<string>>, mime: MimeType): (r: Result<(), Fault>)
    ensures order.None? ==> r.Success?
    ensures r.Failure? ==> r.error == Raise(FileTypeNotAllowKind)
  {
    if order.None? then Success(()) else CheckRules(order.value, allow, deny, mime)
  }

  /** Since every rule fails with the same fault, the outcome depends only
      on which kinds the order holds: a file passes exactly when every
      listed, present allow list names it and every listed, present deny
      list does not. */
  lemma {:induction false} CheckRulesSpec(order: seq<ConstraintKind>, allow: Option<seq<string>>, deny: Option<seq<string>>, mime: MimeType)
    ensures CheckRules(order, allow, deny, mime).Success? <==>
      (Allow in order && allow.Some? ==> Names(allow.value, mime))
      && (Deny in order && deny.Some? ==> !Names(deny.value, mime))
  {
    if order != [] {
      CheckRulesSpec(order[1..], allow, deny, mime);
      assert order == [order[0]] + order[1..];
      assert forall k :: k in order <==> k == order[0] || k in order[1..];
    }
  }

  /** The allow-then-deny and deny-then-allow orders decide alike. */
  lemma RuleOrderIrrelevant(allow: Option<seq<string>>, deny: Option<seq<string>>, mime: MimeType)
    ensures CheckRules([Allow, Deny], allow, deny, mime).Success? == CheckRules([Deny, Allow], allow, deny, mime).Success?
  {
    CheckRulesSpec([Allow, Deny], allow, deny, mime);
    CheckRulesSpec([Deny, Allow], allow, deny, mime);
  }

  // An upload meeting an existing file

  /** Path.GetExtension of a name without separators: from the last '.'
      on, or nothing when there is no '.' or it is the last character. */
  function Extension(name: string): (e: string)
    ensures e == "" || (2 <= |e| <= |name| && e[0] == '.' && '.' !in e[1..] && e == name[|name| - |e|..])
  {
    var i := LastIndexOf(name, '.');
    if i < 0 || i == |name| - 1 then "" else name[i..]
  }

  /** Path.GetFileNameWithoutExtension: everything before the last '.'. */
  function Stem(name: string): (s: string)
    ensures s <= name
    ensures '.' !in name ==> s == name
    ensures '.' in name ==> |s| < |name| && name[|s|] == '.'
  {
    var i := LastIndexOf(name, '.');
    if i < 0 then name else name[..i]
  }

  /** The name an occupant is backed up under: its stem, the suffix, its
      extension. */
  function BackupName(name: string, suffix: string): string {
    Stem(name) + suffix + Extension(name)
  }

  /** What an upload does to the file it would land on. */
  datatype ConflictAction =
    | NoConflict
    | BackUp(backupName: string)
    | UseCopyName(copyName: string)
    | OverwriteExisting

  /** The options of an upload that decide what happens to an occupant. */
  datatype ConflictOptions = ConflictOptions(
    renames: seq<string>,
    suffix: string,
    overwrite: Option<int>,
    volumeOverwrite: bool)

  /** The client asked for a copy name: overwrite 0, or no overwrite given
      and a volume that does not overwrite. */
  predicate WantsCopyName(o: ConflictOptions) {
    o.overwrite == Some(0) || (o.overwrite.None? && !o.volumeOverwrite)
  }

  /** The upload's treatment of an existing file `name`. The copy names
      come from the file system and are passed in: `bakCopyName` is used
      when the backup name is itself taken, `copyName` is the fresh name
      for the upload. */
  function UploadConflict(occupied: bool, name: string, o: ConflictOptions, writable: bool,
                          bakExists: bool, bakCopyName: string, copyName: string): (r: Result<ConflictAction, Fault>)
    ensures r.Failure? <==> occupied && name !in o.renames && !WantsCopyName(o) && !writable
    ensures r.Failure? ==> r.error == Raise(PermissionDeniedKind)
    ensures r.Success? && r.value.BackUp? <==> occupied && name in o.renames
    ensures r.Success? && r.value.BackUp? ==>
      r.value.backupName == if bakExists then bakCopyName else BackupName(name, o.suffix)
    ensures r.Success? && r.value.UseCopyName? <==> occupied && name !in o.renames && WantsCopyName(o)
    ensures r.Success? && r.value.OverwriteExisting? ==> writable && !WantsCopyName(o)
    ensures r == Success(NoConflict) <==> !occupied
  {
    if !occupied then Success(NoConflict)
    else if name in o.renames then
      Success(BackUp(if bakExists then bakCopyName else BackupName(name, o.suffix)))
    else if WantsCopyName(o) then Success(UseCopyName(copyName))
    else if !writable then Failure(Raise(PermissionDeniedKind))
    else Success(OverwriteExisting)
  }

  /** An occupant is overwritten only when the client or the volume allows
      overwriting, the name is not to be backed up, and the occupant is
      writable; a rename request wins over every overwrite setting. */
  lemma OverwriteOnlyWhenAllowed(occupied: bool, name: string, o: ConflictOptions, writable: bool,
                                 bakExists: bool, bakCopyName: string, copyName: string)
    ensures UploadConflict(occupied, name, o, writable, bakExists, bakCopyName, copyName) == Success(OverwriteExisting) <==>
      occupied && name !in o.renames && writable
      && ((o.overwrite.Some? && o.overwrite.value != 0) || (o.overwrite.None? && o.volumeOverwrite))
  {
  }

  /** A backup keeps the extension and puts the suffix before it: for a
      name with an extension, the backup name is the name with the suffix
      inserted before its last '.'; a name without '.' gets the suffix
      appended. */
  lemma BackupNameShape(name: string, suffix: string)
    ensures '.' !in name ==> BackupName(name, suffix) == name + suffix
    ensures Extension(name) != "" ==>
      Stem(name) + Extension(name) == name
      && BackupName(name, suffix) == name[..|name| - |Extension(name)|] + suffix + Extension(name)
  {
    var i := LastIndexOf(name, '.');
    if '.' !in name {
      assert Extension(name) == "";
    }
    if Extension(name) != "" {
      assert name[..i] + name[i..] == name;
    }
  }

  // The archive name

  const ZipMediaType := "application/zip"
  const ZipExtension := ".zip"

  predicate EndsWith(s: string, suffix: string) {
    |suffix| <= |s| && s[|s| - |suffix|..] == suffix
  }

  /** The name of a new archive: the requested name, or the target
      directory's name, with ".zip" appended unless it already ends so. */
  function ArchiveFileName(name: Option<string>, dirName: string): (r: string)
    ensures EndsWith(r, ZipExtension)
    ensures name.GetOr(dirName) <= r
    ensures |r| <= |name.GetOr(dirName)| + |ZipExtension|
  {
    var fileName := name.GetOr(dirName);
    if EndsWith(fileName, ZipExtension) then fileName else fileName + ZipExtension
  }

  /** The checks of ArchiveAsync before any file is touched, in order: the
      name must be valid, then the archive type must be zip. */
  function ArchiveName(name: Option<string>, archiveType: string, dirName: string): (r: Result<string, Fault>)
    ensures r.Failure? <==> !IsObjectNameValid(name) || archiveType != ZipMediaType
    ensures r.Failure? && !IsObjectNameValid(name) ==> r.error == Raise(InvalidFileNameKind)
    ensures r.Failure? && IsObjectNameValid(name) ==> r.error == Raise(ArchiveTypeKind)
    ensures r.Success? ==> r.value == ArchiveFileName(name, dirName)
  {
    if !IsObjectNameValid(name) then Failure(Raise(InvalidFileNameKind))
    else if archiveType != ZipMediaType then Failure(Raise(ArchiveTypeKind))
    else Success(ArchiveFileName(name, dirName))
  }

  /** Naming an archive after an archive name changes nothing more. */
  lemma ArchiveFileNameIdempotent(name: Option<string>, dirName: string, other: string)
    ensures ArchiveFileName(Some(ArchiveFileName(name, dirName)), other) == ArchiveFileName(name, dirName)
  {
  }
}
