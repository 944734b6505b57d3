# elFinder.Net connector core, modelled in Dafny

elFinder.Net is the server side of the elFinder web file manager. A
browser sends a command (a verb such as `open`, `upload`, `rm`, plus
form arguments). The **connector** checks the verb, turns hashed targets
(`v1_L2Zvbw`) into volume paths, checks per-verb constraints, hands the
command to the volume's **driver**, and turns any fault into an
elFinder error response with an HTTP status. A **connector manager**
keeps the cancellation sources of requests that carry a request id, so
that an `abort` can cancel them. It also keeps the per-key locks that
chunked uploads share.

This project models that core as pure functions over immutable data.

| file | module | models |
|---|---|---|
| wrappers.dfy | Wrappers | `Option`, `Result` with `:-` |
| faults.dfy | Faults | exceptions as a `Fault` datatype, root causes, the error codes and the `ErrorResponse` factories |
| strings.dfy, numbers.dfy | Strings, Numbers | the .NET string operations the core uses (`IndexOf`, `LastIndexOf`, `Split`, `TrimEnd`), `int.Parse`/`long.Parse` with their ranges, and 32-bit wrap-around |
| utf8.dfy, base64.dfy | Utf8, Base64 | `Encoding.UTF8` and `Convert.To/FromBase64String` |
| path_codec.dfy | PathCodec | `PathParser`: the URL-safe hash of a path and back |
| path_helper.dfy | PathHelper | `PathHelper`: full paths, normalisation, `SafelyCombine` |
| file_helper.dfy | FileHelper | `FileHelper`: chunk names and byte ranges |
| download_helper.dfy | DownloadHelper | the zip download name |
| responses.dfy | Responses | `UploadResponse`, `SearchResponse`, `OpenResponse` |
| storage.dfy | Storage | the disk as a map from paths to directories and files |
| driver_paths.dfy | DriverPaths | the driver's `ParsePathAsync` |
| driver_rules.dfy | DriverRules | the driver's name, mime, conflict and archive-name rules |
| chunk_upload.dfy | ChunkUpload | the chunked-upload lock protocol: pieces, merge, abort |
| merge_chunks.dfy | MergeChunks | `MergeChunksAsync`: chunk files ordered and joined |
| directory_copy.dfy | DirectoryCopy | `CopyToAsync` and `MergeAsync`: breadth-first directory copy and move |
| commands.dfy | Commands | the request as the connector reads it |
| connector_manager.dfy | ConnectorManager | the request registry and the lock cache |
| connector_paths.dfy | ConnectorPaths | volumes, `AddVolume`, `ParsePathAsync`, `ParsePathsAsync` |
| connector.dfy | Connector | `ProcessAsync`, the verb switch, the fault-to-response mapping, and `AbortAsync` |

A volume is identified by its index in the connector's volume list. The
driver is a function parameter of the connector. It takes a `Call` (the
operation, the volume index, the parsed target and targets, the
arguments) and answers a reply or a fault. So the connector's own
checks, and the order it runs them in, are modelled as written, with
one exception: `archive` uses the corrected null check listed under
"## Findings". What a driver does with a call is modelled only where
the driver is part of this model (`DriverPaths`, `DriverRules`,
`ChunkUpload`, `MergeChunks`, `DirectoryCopy`).

Some points where the model follows the code rather than a plain
reading of the protocol:

- The enabled-verb gate (Connector.cs:75) tests the verb that was set
  before the connector runs, not the `cmd` argument it reads on the
  next line. A request whose verb was not set is refused with
  `errCmdNoSupport` whenever an enabled-verb list is configured
  (`Connector.GateReadsPreRunVerb`).
- `ParsePathAsync` decodes the hash before it looks the volume up. A
  malformed hash under an unknown volume is a format error, not
  `errFileNotFound` (`ConnectorPaths.DecodeBeforeLookup`).
- A volume named explicitly with an id of the generated form `v2_` can
  shadow the volume that gets that generated id later. The lookup then
  returns the first one (`ConnectorPaths.NamedIdShadows`).
- A full request registry does not register a request. The release at
  the end of `ProcessAsync` still removes any earlier entry with the
  same id (`Connector.ProcessFullDropsOther`).
- `open` with `tree=1` on the root of one of several volumes, when the
  driver lists nothing, inserts past the end of the list. The result is
  `errCmdParams` for `open` (`Connector.OpenRootsShort`).

`OpenResponse`'s `netDrivers` list is always empty; it is the constant
`Responses.NetDrivers`.

Constants the model assumes, because their definitions are not part of
this model:
- `UploadCommand.ChunkFail` is `"chunkfail"`.
- The `put` encoding that names a file is `"hash"`.
- The upload form field is `"upload[]"`.
- The resize modes are `resize`, `crop` and `rotate`.
- The volume prefix is `"v"` and the hash separator is `"_"`.
- The allow-all upload constraint value is `"all"`.
- `UploadCommand.Upload` starts as an empty collection, never null. The
  upload part of `AbortAsync` (Connector.cs:781 and 797-801) reads it
  without setting it, so its count is zero and the size-limit test
  finds no file.
- `UploadCommand.RangeInfo` and `UploadCommand.ChunkInfo` are computed
  from the request's `range` and `chunk` texts by
  `FileHelper.GetRangeInfo` and `FileHelper.GetChunkInfo`. The upload
  checks read them through those functions.
- `FileSystemDirectory.Parent` and `FileSystemFile.Parent` behave like
  .NET's `DirectoryInfo.Parent` and `FileInfo.Directory`. A directory's
  parent ignores a trailing separator. A file's directory is its full
  name up to the last separator.

## Model

| member | source | states |
|---|---|---|
| Connector.MapFault | elFinder.Net.Core/elFinder.Net.Core/Connector.cs:638-684 | a connector fault answers its own payload and its own status, defaulting to 200; any other root cause is 500 exactly when it is not a recognised class, and that answer is errUnknown carrying the original fault; a recognised fault carries its root cause |
| Connector.MapFaultCodes | elFinder.Net.Core/elFinder.Net.Core/Connector.cs:647-679 | the code table: access denied, file not found, folder not found, canceled gives errAbort, other IO gives errAccess, argument faults give errCmdParams with the verb, anything else gives errUnknown |
| Connector.MapFaultSources | elFinder.Net.Core/elFinder.Net.Core/Connector.cs:647-679 | the table read backwards: access denied exactly for access, path-too-long and other IO faults, file and folder not found exactly for their own faults, errAbort exactly for a cancellation or an abort fault, errCmdParams exactly for argument faults or a params fault, errUnknown exactly for an unrecognised fault |
| Connector.MapFaultWrapped | elFinder.Net.Core/elFinder.Net.Core/Connector.cs:640 | wrapping a fault in another does not change its answer, since the root cause is mapped |
| Connector.SingleVolume | elFinder.Net.Core/elFinder.Net.Core/Connector.cs:114-115 | the distinct-volume test succeeds exactly when there is a first target and every target lies in its volume, and yields that volume; an unparsed (null) target is a null-reference fault, otherwise the fault is errCmdParams for the verb |
| Connector.DistinctSingleton | elFinder.Net.Core/elFinder.Net.Core/Connector.cs:114 | the distinct volumes of the targets are exactly one volume if and only if all targets are parsed and share the first one's volume |
| Connector.AnyOtherVolume | elFinder.Net.Core/elFinder.Net.Core/Connector.cs:575-576 | the upload-path check passes exactly when every upload path lies in the target's volume; a null path is a null-reference fault |
| Connector.Drive | elFinder.Net.Core/elFinder.Net.Core/Connector.cs:117 | handing a call to the driver answers that one call, and fails exactly when the driver fails |
| Connector.RmFilter | elFinder.Net.Core/elFinder.Net.Core/Connector.cs:366-369 | a target is kept for rm exactly when its full-name text is not the parent full name of any other target ("empty the parent folder"), and nothing is added; the full name keeps the target's own trailing separator, as DirectoryInfo.FullName does |
| Connector.RmKeepsSeparatorEnded | elFinder.Net.Core/elFinder.Net.Core/Connector.cs:366-369 | a target written with a trailing separator is never dropped, because its full name ends in a separator while every parent full name does not |
| Connector.Parents | elFinder.Net.Core/elFinder.Net.Core/Connector.cs:367-368 | the parent list holds exactly the parents of targets that have one |
| Connector.KeepOutside | elFinder.Net.Core/elFinder.Net.Core/Connector.cs:369 | filtering keeps exactly the targets whose own path is not one of the parents |
| Connector.TreeFiles | elFinder.Net.Core/elFinder.Net.Core/Connector.cs:143-156 | with tree=1, an unparsed target is a null-reference fault; a non-root target gets every volume's root entry before the listing; opening a volume's root leaves that volume's entry out, so the driver's first entry stands at its position; an empty listing with a later volume runs past the end |
| Connector.OpenRootsAll | elFinder.Net.Core/elFinder.Net.Core/Connector.cs:145-155 | with no volume skipped, the listing becomes all root entries in volume order followed by the driver's entries |
| Connector.OpenRootsSkip | elFinder.Net.Core/elFinder.Net.Core/Connector.cs:149-154 | skipping volume k puts the driver's first entry at position k, between the roots before and after k |
| Connector.OpenRootsShort | elFinder.Net.Core/elFinder.Net.Core/Connector.cs:149-154 | a skipped root with an empty driver listing and a later volume faults with an index out of range |
| Connector.OpenOutOfRangeAnswer | elFinder.Net.Core/elFinder.Net.Core/Connector.cs:671-673 | that fault is answered as errCmdParams for open with status 200 |
| Connector.OpenVerb | elFinder.Net.Core/elFinder.Net.Core/Connector.cs:121-158 | open makes one open call, to a registered volume; with no target it opens volume 0 with no target path; with no target and no volumes it is file-not-found; the tree listing uses the target as the driver leaves it |
| Connector.ArchiveChecks | elFinder.Net.Core/elFinder.Net.Core/Connector.cs:172-179 | (corrected) archive passes exactly when there are targets, the target is a directory, all targets share one volume and that volume's id is the target volume's id; failures are errCmdParams for archive, except an unparsed member target |
| Connector.ArchiveNullTarget | elFinder.Net.Core/elFinder.Net.Core/Connector.cs:172-175 | as written, an absent target reads its volume first and is answered errUnknown with status 500; the corrected check answers errCmdParams for archive with status 200 |
| Connector.ArchiveVersionsAgree | elFinder.Net.Core/elFinder.Net.Core/Connector.cs:172-179 | when the target is present the as-written and corrected checks give the same result |
| Connector.ArchiveVerb | elFinder.Net.Core/elFinder.Net.Core/Connector.cs:160-183 | a successful archive sends one archive call on the target directory's volume with every listed target, all in volumes with the target volume's id |
| Connector.FileTargetVerb | elFinder.Net.Core/elFinder.Net.Core/Connector.cs:184-199 | extract, get, file and put send one call whose target is a file in the call's volume; file also requires the file to exist on disk; an empty target fails |
| Connector.DirectoryNotFile | elFinder.Net.Core/elFinder.Net.Core/Connector.cs:195-196 | a directory target for extract, get, file or put is refused with errNotFile and status 200 |
| Connector.TargetsVerb | elFinder.Net.Core/elFinder.Net.Core/Connector.cs:240-304 | tmb, duplicate and paste here, and info, size and rm in the same pattern at lines 105-120, 415-429 and 354-373: one call to a registered volume, made only with at least one target, all targets passed on lying in the call's volume; every verb but rm passes all targets on |
| Connector.TargetsNotOneVolume | elFinder.Net.Core/elFinder.Net.Core/Connector.cs:249-250 | targets spread over two volumes, or none, are refused with errCmdParams for the verb |
| Connector.RmTargets | elFinder.Net.Core/elFinder.Net.Core/Connector.cs:354-372 | rm passes on exactly the parsed targets that are not the parent of another target |
| Connector.OneTargetVerb | elFinder.Net.Core/elFinder.Net.Core/Connector.cs:201-239 | mkdir, mkfile and parents here, and dim, ls, rename, tree and resize in the same pattern later in the switch: one call on the target's own volume; an empty target fails; a resize mode outside the known modes fails |
| Connector.SearchVerb | elFinder.Net.Core/elFinder.Net.Core/Connector.cs:506-540 | search with a target sends one call; without one it searches every volume once, in volume order |
| Connector.SearchFrom | elFinder.Net.Core/elFinder.Net.Core/Connector.cs:525-536 | the per-volume loop from volume i calls volumes i, i+1, ... in order |
| Connector.Uploads | elFinder.Net.Core/elFinder.Net.Core/Connector.cs:551 | the uploaded files are exactly the form files in the upload field |
| Connector.PieceRejected | elFinder.Net.Core/elFinder.Net.Core/Connector.cs:583-585 | a chunk piece is accepted exactly when one file came, the range parses, and the file is no longer than the range's total |
| Connector.PieceAcceptsClientRange | elFinder.Net.Core/elFinder.Net.Core/Connector.cs:583-585 | for any client range within 64 bits, one file is accepted exactly when its length is at most the range's total |
| Connector.UploadChecks | elFinder.Net.Core/elFinder.Net.Core/Connector.cs:583-599 | upload passes exactly when a piece is accepted, a merge names a file and chunk that are not blank in the Unicode white-space sense, and no file exceeds the volume's maximum; a blank merge is errCmdParams, an oversized file errUploadFileSize |
| Connector.UploadVerb | elFinder.Net.Core/elFinder.Net.Core/Connector.cs:543-602 | a successful upload sends one upload call on the target's volume with every upload path in it, after the checks passed; a chunkfail request always fails |
| Connector.UploadReachesDriver | elFinder.Net.Core/elFinder.Net.Core/Connector.cs:543-602 | upload succeeds exactly when the target parses, every upload path parses and lies in its volume, the request is not the chunkfail notice, the checks pass and the driver accepts; then the one call made is that upload call |
| Connector.UploadChunkFail | elFinder.Net.Core/elFinder.Net.Core/Connector.cs:578-582 | a chunkfail request has the driver abort the upload and is then answered errAbort |
| Connector.UploadOtherVolume | elFinder.Net.Core/elFinder.Net.Core/Connector.cs:575-576 | an upload path in another volume is refused with errCmdParams for upload |
| Connector.ZipdlVerb | elFinder.Net.Core/elFinder.Net.Core/Connector.cs:604-633 | zipdl sends one call; the download step succeeds only with at least four targets, the first one parsed |
| Connector.ZipdlShortList | elFinder.Net.Core/elFinder.Net.Core/Connector.cs:626-629 | a download step with one to three targets faults with an index out of range, which is answered errUnknown with status 500 |
| Connector.ZipdlNoTargets | elFinder.Net.Core/elFinder.Net.Core/Connector.cs:626 | a download step with no targets faults with an invalid operation, which is answered errUnknown with status 500 |
| Connector.ZipdlReachesDriver | elFinder.Net.Core/elFinder.Net.Core/Connector.cs:626-633 | the download step succeeds exactly when there are at least four targets, the first one parses and the driver accepts the raw-zip call, which is then the one call made |
| Connector.RouteOf | elFinder.Net.Core/elFinder.Net.Core/Connector.cs:83-635 | each protocol verb goes to the branch that handles it, and every other text (or abort) to none |
| Connector.Dispatch | elFinder.Net.Core/elFinder.Net.Core/Connector.cs:83-635 | every call a verb makes names a registered volume; a verb outside the protocol is errUnknownCmd; a bad resize mode fails |
| Connector.AbortRequest | elFinder.Net.Core/elFinder.Net.Core/Connector.cs:738-810 | aborting an enabled request with a verb other than upload makes no call; otherwise at most one driver call, an abort-upload that only an upload other than chunkfail makes, on the target's own volume with every upload path in it |
| Connector.AbortVerb | elFinder.Net.Core/elFinder.Net.Core/Connector.cs:85-103 | a request whose own source is already cancelled is errAbort; abort without an id is errCmdParams; an unknown id answers false and changes nothing; a known id is removed and its source cancelled; aborting the request's own id is errAbort, otherwise the answer is true exactly when aborting the request succeeds |
| Connector.ProcessCore | elFinder.Net.Core/elFinder.Net.Core/Connector.cs:62-684 | fails exactly when the request's own source is already cancelled, and then with a cancellation; only an abort that passes the gate changes the registry; every answered call names a registered volume |
| Connector.ProcessGate | elFinder.Net.Core/elFinder.Net.Core/Connector.cs:75-81 | for a request not cancelled, a refused verb is errCmdNoSupport, a missing verb errCmdReq, an unknown verb errUnknownCmd, each with status 200 |
| Connector.GateReadsPreRunVerb | elFinder.Net.Core/elFinder.Net.Core/Connector.cs:75-78 | with an enabled list and no pre-set verb, even an enabled verb is refused |
| Connector.Process | elFinder.Net.Core/elFinder.Net.Core/Connector.cs:38-60 | processing fails exactly when the source is already cancelled (a cancellation) or a non-empty request id is already registered and the registry has room (an invalid operation); without an id it is the core step; with one, the id is gone from the registry afterwards |
| Connector.ProcessSelfAbort | elFinder.Net.Core/elFinder.Net.Core/Connector.cs:85-103 | a request that aborts its own id is answered errAbort with status 200, leaves the registry's tokens as they were and has cancelled its own source |
| Connector.CoreSelfAbort | elFinder.Net.Core/elFinder.Net.Core/ConnectorManager.cs:53-65 | aborting the id whose entry holds the request's own source removes that entry, cancels the source, and answers errAbort with status 200 |
| Connector.ProcessLeavesRegistry | elFinder.Net.Core/elFinder.Net.Core/Connector.cs:47-57 | a non-abort request with a fresh id, or none, leaves the registry as it found it |
| Connector.ProcessFullDropsOther | elFinder.Net.Core/elFinder.Net.Core/Connector.cs:49-57 | with a full registry, a request reusing a registered id is served and removes the earlier entry |
| Connector.ProcessAbortsOther | elFinder.Net.Core/elFinder.Net.Core/Connector.cs:85-103 | an abort of a registered request, itself sent with a fresh id, leaves the registry without the aborted entry and cancels exactly the aborted request's source |
| ConnectorPaths.AddVolume | elFinder.Net.Core/elFinder.Net.Core/Connector.cs:706-713 | adding appends the volume; a missing id becomes "v" + the new count + "_", which has exactly one separator, at its end |
| ConnectorPaths.FindVolume | elFinder.Net.Core/elFinder.Net.Core/Connector.cs:699 | the lookup finds the first volume with the id, and none exactly when no volume has it |
| ConnectorPaths.AutoIdInjective | elFinder.Net.Core/elFinder.Net.Core/Connector.cs:710 | different counts give different generated ids |
| ConnectorPaths.AutoIdShape | elFinder.Net.Core/elFinder.Net.Core/Connector.cs:694-695 | a generated id's first separator is its last character, so a target built on it splits back into that id |
| ConnectorPaths.UnnamedReachable | elFinder.Net.Core/elFinder.Net.Core/Connector.cs:699-713 | every volume added without an id is found again by its generated id |
| ConnectorPaths.GeneratedIdsDistinct | elFinder.Net.Core/elFinder.Net.Core/Connector.cs:706-713 | volumes that all got generated ids have pairwise different ids |
| ConnectorPaths.DistinctIdsReachable | elFinder.Net.Core/elFinder.Net.Core/Connector.cs:699 | when ids are pairwise different, every volume is found by its own id |
| ConnectorPaths.NamedIdShadows | elFinder.Net.Core/elFinder.Net.Core/Connector.cs:699-713 | an explicit id equal to a later generated id shadows the later volume |
| ConnectorPaths.ParsePath | elFinder.Net.Core/elFinder.Net.Core/Connector.cs:687-704 | an empty target is null; a parsed target lies in the volume named by its text up to the first separator, keeps the target text, and its path is the root plus the decoded hash |
| ConnectorPaths.ParseEncoded | elFinder.Net.Core/elFinder.Net.Core/Connector.cs:694-703 | a target built from a volume id and the hash of a path parses to what the driver gives for that path in that volume |
| ConnectorPaths.ParseBuilt | elFinder.Net.Core/elFinder.Net.Core/Connector.cs:694-703 | the same for any hash that decodes |
| ConnectorPaths.ParseVolumeId | elFinder.Net.Core/elFinder.Net.Core/Connector.cs:532 | a bare volume id parses to that volume's root |
| ConnectorPaths.DecodeBeforeLookup | elFinder.Net.Core/elFinder.Net.Core/Connector.cs:697-699 | a hash that does not decode is a format fault whatever the volume |
| ConnectorPaths.UnknownVolume | elFinder.Net.Core/elFinder.Net.Core/Connector.cs:699-702 | a decodable target under no volume is file-not-found |
| ConnectorPaths.ParsePaths | elFinder.Net.Core/elFinder.Net.Core/Connector.cs:729-736 | on success there is one result per target, each what parsing that target alone gives |
| ConnectorPaths.ParsePathsFault | elFinder.Net.Core/elFinder.Net.Core/Connector.cs:733-735 | parsing a list fails exactly when some target fails, with the fault of the first failing target in list order |
| ConnectorPaths.ParsePathsInVolumes | elFinder.Net.Core/elFinder.Net.Core/Connector.cs:729-736 | every parsed target names a registered volume |
| ConnectorPaths.Distinct | elFinder.Net.Core/elFinder.Net.Core/Connector.cs:114 | the distinct volumes of parsed targets are exactly the volumes that occur, without repeats, in first-seen order; a null target is a null-reference fault |
| ConnectorManager.AddCancellationTokenSource | elFinder.Net.Core/elFinder.Net.Core/ConnectorManager.cs:67-75 | a full registry is left unchanged; otherwise a registered id is an invalid operation, and a new id is added with its command, source and time while every other entry is kept |
| ConnectorManager.Abort | elFinder.Net.Core/elFinder.Net.Core/ConnectorManager.cs:53-65 | aborting succeeds exactly for a registered id, returns its command, removes it and cancels its source; otherwise nothing changes |
| ConnectorManager.ReleaseRequest | elFinder.Net.Core/elFinder.Net.Core/ConnectorManager.cs:98-101 | release removes exactly that id, reports whether it was there, and cancels nothing |
| ConnectorManager.SweepRequests | elFinder.Net.Core/elFinder.Net.Core/ConnectorManager.cs:103-134 | the cleaner keeps exactly the unexpired requests and cancels exactly the expired ones' sources |
| ConnectorManager.GetOrCreateLock | elFinder.Net.Core/elFinder.Net.Core/ConnectorManager.cs:77-82 | the lock is the existing one or a fresh one under that key, touched now; other locks are unchanged |
| ConnectorManager.GetLock | elFinder.Net.Core/elFinder.Net.Core/ConnectorManager.cs:84-91 | a lock is found exactly when the key is present, and is touched; no lock is created |
| ConnectorManager.ReleaseLockCache | elFinder.Net.Core/elFinder.Net.Core/ConnectorManager.cs:93-96 | release removes exactly that key and reports whether it was there |
| ConnectorManager.SweepLocks | elFinder.Net.Core/elFinder.Net.Core/ConnectorManager.cs:136-165 | the cleaner keeps exactly the locks touched within their lifetime |
| ConnectorManager.Deactivate | elFinder.Net.Core/elFinder.Net.Core/ConnectorManager.cs:203-207 | a deactivated lock keeps its payload and is idle at any time past one lifetime |
| ConnectorManager.AddKeepsCap | elFinder.Net.Core/elFinder.Net.Core/ConnectorManager.cs:69 | registering never grows the registry past its maximum |
| ConnectorManager.DuplicateKeepsFirst | elFinder.Net.Core/elFinder.Net.Core/ConnectorManager.cs:71-74 | registering an id twice fails the second time and keeps the first command |
| ConnectorManager.AddThenRelease | elFinder.Net.Core/elFinder.Net.Core/ConnectorManager.cs:67-101 | registering a fresh id and releasing it restores the registry |
| ConnectorManager.AddThenAbort | elFinder.Net.Core/elFinder.Net.Core/ConnectorManager.cs:53-75 | registering then aborting returns the command and cancels exactly its source |
| ConnectorManager.SweepRequestsIdempotent | elFinder.Net.Core/elFinder.Net.Core/ConnectorManager.cs:112-127 | sweeping twice at one time is sweeping once |
| ConnectorManager.FreshRequestSurvives | elFinder.Net.Core/elFinder.Net.Core/ConnectorManager.cs:115-116 | a request registered now survives a sweep now |
| ConnectorManager.CreateThenGet | elFinder.Net.Core/elFinder.Net.Core/ConnectorManager.cs:77-91 | a created lock is found again with the same payload |
| ConnectorManager.CreateKeepsExisting | elFinder.Net.Core/elFinder.Net.Core/ConnectorManager.cs:79 | get-or-create never replaces an existing lock's payload |
| ConnectorManager.DeactivateEvicts | elFinder.Net.Core/elFinder.Net.Core/ConnectorManager.cs:145-156 | a deactivated lock is gone after the next sweep, and nothing else changes |
| ConnectorManager.FreshLockSurvives | elFinder.Net.Core/elFinder.Net.Core/ConnectorManager.cs:145-149 | a lock touched now survives a sweep now |
| Faults.KindPayload | elFinder.Net.Core/elFinder.Net.Core/Models/Response/ErrorResponse.cs:85-103 | each connector fault has a code from the code table; only exists and errCmdParams carry a detail |
| Faults.CodesPairwiseDistinct | elFinder.Net.Core/elFinder.Net.Core/Models/Response/ErrorResponse.cs:85-103 | the 19 error codes are pairwise distinct |
| Faults.FactoriesDistinct | elFinder.Net.Core/elFinder.Net.Core/Models/Response/ErrorResponse.cs:19-81 | the eight factories answer eight different codes, all from the table |
| Faults.RootCause | elFinder.Net.Core/elFinder.Net.Core/Connector.cs:640 | the root cause of a fault is never a wrapper |
| PathCodec.EncodeWith | elFinder.Net.Core/elFinder.Net.Core/Services/PathParser.cs:56-61 | encoding gives null exactly for a null or empty path |
| PathCodec.DecodeWith | elFinder.Net.Core/elFinder.Net.Core/Services/PathParser.cs:16-48 | an empty hash decodes to the empty path; the only failure is a format fault |
| PathCodec.DecodeEncodeWith | elFinder.Net.Core/elFinder.Net.Core/Services/PathParser.cs:16-91 | with the default Decrypt hook, a hash made with any Encrypt hook decodes to the encrypted path, not the path: the hooks act on different texts, so overriding one alone shows through |
| PathCodec.DecodeEncode | elFinder.Net.Core/elFinder.Net.Core/Services/PathParser.cs:16-86 | with the default hooks, decoding the hash of a non-empty path gives the path back |
| PathCodec.EncodeAlphabet | elFinder.Net.Core/elFinder.Net.Core/Services/PathParser.cs:63-85 | a hash never holds '+', '/' or '=', and its length is never one more than a multiple of four |
| PathCodec.DecodeRejectsLength | elFinder.Net.Core/elFinder.Net.Core/Services/PathParser.cs:37-44 | a hash one longer than a multiple of four is not padded, and fails as a format fault unless white space in it leaves a multiple of four other characters |
| PathCodec.DecodeRejectsCharacter | elFinder.Net.Core/elFinder.Net.Core/Services/PathParser.cs:23-44 | a hash with a character that is neither in the URL-safe alphabet nor white space fails as a format fault |
| PathCodec.DecodeSkipsWhiteSpace | elFinder.Net.Core/elFinder.Net.Core/Services/PathParser.cs:37-44 | four trailing spaces on a hash change nothing: the padding depends on the length modulo four and FromBase64String skips the spaces |
| PathCodec.TrailingSpacesAccepted | elFinder.Net.Core/elFinder.Net.Core/Services/PathParser.cs:37-44 | the hash "QQ" with four trailing spaces decodes to "A", though the strict decoder rejects its padded text |
| PathCodec.DecodeSwapsBack | elFinder.Net.Core/elFinder.Net.Core/Services/PathParser.cs:24-34 | decoding maps '-', '_' and '.' back to '+', '/' and '=' and keeps every other character |
| PathCodec.FromUrlToUrl | elFinder.Net.Core/elFinder.Net.Core/Services/PathParser.cs:27-33 | the character swaps undo each other on base64 text |
| PathCodec.RestoreTrimmed | elFinder.Net.Core/elFinder.Net.Core/Services/PathParser.cs:37-42 | restoring pads after trimming them gives the base64 text back |
| PathCodec.TrimPadsBase64 | elFinder.Net.Core/elFinder.Net.Core/Services/PathParser.cs:66-70 | the trim loop drops exactly the base64 padding |
| PathCodec.TrimPads | elFinder.Net.Core/elFinder.Net.Core/Services/PathParser.cs:66-70 | trimming keeps a non-empty prefix and drops only '=' characters, stopping at the first character |
| PathCodec.RestorePads | elFinder.Net.Core/elFinder.Net.Core/Services/PathParser.cs:37-42 | padding appends only '=', to a multiple of four, and leaves lengths of one more than a multiple of four alone |
| Base64.AlphabetBijective | elFinder.Net.Core/elFinder.Net.Core/Services/PathParser.cs:44 | the base64 alphabet maps 64 values to 64 characters one to one |
| Base64.Encode | elFinder.Net.Core/elFinder.Net.Core/Services/PathParser.cs:64 | base64 text has length 4⌈n/3⌉, alphabet characters, then the padding |
| Base64.DecodeEncode | elFinder.Net.Core/elFinder.Net.Core/Services/PathParser.cs:44-64 | decoding the base64 encoding of any bytes gives the bytes back |
| Base64.DecodeQuantum | elFinder.Net.Core/elFinder.Net.Core/Services/PathParser.cs:44 | a four-character quantum decodes exactly when all four are alphabet characters |
| Base64.DecodeEncodeStep | elFinder.Net.Core/elFinder.Net.Core/Services/PathParser.cs:44-64 | decoding the encoding of three bytes and a rest that round-trips gives them all back |
| Base64.DecodeEncodeOne | elFinder.Net.Core/elFinder.Net.Core/Services/PathParser.cs:44-64 | one trailing byte round-trips through its padded quantum |
| Base64.DecodeEncodeTwo | elFinder.Net.Core/elFinder.Net.Core/Services/PathParser.cs:44-64 | two trailing bytes round-trip through their padded quantum |
| Base64.DecodeQuantumInverse | elFinder.Net.Core/elFinder.Net.Core/Services/PathParser.cs:44-64 | a full quantum round-trips |
| Base64.Decode | elFinder.Net.Core/elFinder.Net.Core/Services/PathParser.cs:44 | strictly, only text of a multiple of four, made of alphabet and padding characters, decodes |
| Base64.FromBase64String | elFinder.Net.Core/elFinder.Net.Core/Services/PathParser.cs:44 | text without white space decodes as the strict decoder has it; otherwise only a multiple of four characters besides white space, all alphabet or padding, decodes |
| Base64.DropWhite | elFinder.Net.Core/elFinder.Net.Core/Services/PathParser.cs:44 | removing white space keeps exactly the other characters, and text without white space is unchanged |
| Utf8.DecodeFirstEncodeScalar | elFinder.Net.Core/elFinder.Net.Core/Services/PathParser.cs:45-64 | decoding the UTF-8 encoding of a character, followed by anything, gives the character and its length |
| Utf8.DecodeEncode | elFinder.Net.Core/elFinder.Net.Core/Services/PathParser.cs:45-64 | decoding the UTF-8 encoding of any text gives the text back |
| Utf8.EncodeWellFormed | elFinder.Net.Core/elFinder.Net.Core/Services/PathParser.cs:64 | the UTF-8 encoding of any text is well-formed |
| Utf8.EncodeDecode | elFinder.Net.Core/elFinder.Net.Core/Services/PathParser.cs:45-64 | encoding the decoding of well-formed bytes gives the bytes back |
| Utf8.EncodeScalar | elFinder.Net.Core/elFinder.Net.Core/Services/PathParser.cs:64 | a character encodes to 1 to 4 bytes, with one byte exactly for ASCII, a valid lead byte and continuation bytes after it |
| Utf8.DecodeFirst | elFinder.Net.Core/elFinder.Net.Core/Services/PathParser.cs:45 | a decoded character's bytes are exactly its encoding |
| Utf8.Decode | elFinder.Net.Core/elFinder.Net.Core/Services/PathParser.cs:45 | decoding never yields more characters than bytes, and empty exactly for empty |
| Strings.IndexOf | elFinder.Net.Core/elFinder.Net.Core/Connector.cs:694 | the index of the first occurrence, or -1 exactly when absent |
| Strings.LastIndexOf | elFinder.Net.Core/elFinder.Net.Core/Helpers/FileHelper.cs:9-10 | the index of the last occurrence, or -1 exactly when absent |
| Strings.Split | elFinder.Net.Core/elFinder.Net.Core/Helpers/FileHelper.cs:11-12 | split pieces hold no separator, and there is one piece exactly when there is no separator |
| Strings.JoinSplit | elFinder.Net.Core/elFinder.Net.Core/Helpers/FileHelper.cs:11-12 | joining the split pieces with the separator gives the text back |
| Strings.SplitJoin | elFinder.Net.Core/elFinder.Net.Core/Helpers/FileHelper.cs:11-12 | splitting pieces joined with a separator they do not hold gives the pieces back |
| Strings.SplitLast | elFinder.Net.Core/elFinder.Net.Core/Helpers/FileHelper.cs:11-12 | splitting peels the text after the last separator off as the last piece |
| Numbers.Parse | elFinder.Net.Core/elFinder.Net.Core/Helpers/FileHelper.cs:13-14 | a parsed number lies in the target type's range; parsing fails only with a format or overflow fault; trailing NUL characters after the number are skipped, as `int.Parse` does |
| Numbers.ParseShow | elFinder.Net.Core/elFinder.Net.Core/Helpers/FileHelper.cs:13-14 | a number's decimal text parses back to it when in range |
| Numbers.ParseShowOverflow | elFinder.Net.Core/elFinder.Net.Core/Helpers/FileHelper.cs:13-14 | out of range it is an overflow fault |
| Numbers.ParseRejects | elFinder.Net.Core/elFinder.Net.Core/Helpers/FileHelper.cs:13-14 | a stray character that is not part of the trailing NUL run is a format fault |
| Numbers.ParseBlankPadded | elFinder.Net.Core/elFinder.Net.Core/Helpers/FileHelper.cs:13-14 | surrounding white space, and a run of NULs after it, is ignored |
| Numbers.Wrap32 | elFinder.Net.Core/elFinder.Net.Core/Helpers/FileHelper.cs:13 | the unchecked 32-bit add lands in range and agrees modulo 2^32 |
| Numbers.Wrap32Range | elFinder.Net.Core/elFinder.Net.Core/Helpers/FileHelper.cs:13 | in-range values are unchanged and the maximum plus one wraps to the minimum |
| FileHelper.GetChunkInfo | elFinder.Net.Core/elFinder.Net.Core/Helpers/FileHelper.cs:7-16 | chunk info faults only with a range, format or overflow fault, and its numbers are 32-bit |
| FileHelper.ChunkNameNeedsTwoDots | elFinder.Net.Core/elFinder.Net.Core/Helpers/FileHelper.cs:9-10 | cutting the name fails with a range fault exactly when it holds fewer than two dots |
| FileHelper.ChunkInfoDecomposed | elFinder.Net.Core/elFinder.Net.Core/Helpers/FileHelper.cs:9-15 | a name file.mid.ext gives file, the first field of mid and the last field plus one, the last parsed first |
| FileHelper.ChunkNameRoundTrip | elFinder.Net.Core/elFinder.Net.Core/Helpers/FileHelper.cs:7-16 | a chunk name built by a client parses back to its file name, chunk number and count |
| FileHelper.ChunkCountWraps | elFinder.Net.Core/elFinder.Net.Core/Helpers/FileHelper.cs:13 | a last index of the 32-bit maximum wraps the count to the minimum |
| FileHelper.GetRangeInfo | elFinder.Net.Core/elFinder.Net.Core/Helpers/FileHelper.cs:18-23 | range info faults only with a format, overflow or index fault, and its numbers are 64-bit |
| FileHelper.RangeInfoSpec | elFinder.Net.Core/elFinder.Net.Core/Helpers/FileHelper.cs:18-23 | a range succeeds exactly when every comma part parses and there are at least three, giving the first three; fewer is an index fault; otherwise the first failing part's fault |
| FileHelper.RangeRoundTrip | elFinder.Net.Core/elFinder.Net.Core/Helpers/FileHelper.cs:18-23 | a range text built by a client parses back to its three numbers |
| FileHelper.RangeExtraIgnored | elFinder.Net.Core/elFinder.Net.Core/Helpers/FileHelper.cs:20-22 | a numeric fourth part changes nothing |
| FileHelper.ParseAll | elFinder.Net.Core/elFinder.Net.Core/Helpers/FileHelper.cs:20 | parsing all parts gives one value per part, or the fault of a part that failed |
| PathHelper.GetFullPath | elFinder.Net.Core/elFinder.Net.Drivers.FileSystem/Helpers/PathHelper.cs:10-14 | a full path is rooted; it fails exactly for an empty path or one holding NUL |
| PathHelper.GetFullPathIdempotent | elFinder.Net.Core/elFinder.Net.Drivers.FileSystem/Helpers/PathHelper.cs:10-14 | the full path of a full path is itself |
| PathHelper.NormalizePath | elFinder.Net.Core/elFinder.Net.Drivers.FileSystem/Helpers/PathHelper.cs:22-25 | normalising drops exactly the trailing separators |
| PathHelper.NormalizePathIdempotent | elFinder.Net.Core/elFinder.Net.Drivers.FileSystem/Helpers/PathHelper.cs:22-25 | normalising twice is normalising once |
| PathHelper.FullPathNormalizedIsBody | elFinder.Net.Core/elFinder.Net.Drivers.FileSystem/Helpers/PathHelper.cs:16-20 | the normalised full path is the resolved segments joined, with no trailing separator |
| PathHelper.SafelyCombine | elFinder.Net.Core/elFinder.Net.Drivers.FileSystem/Helpers/PathHelper.cs:27-38 | combining answers the full path of the joined parts; when both paths are valid its only failure is permission denied |
| PathHelper.SafelyCombineInside | elFinder.Net.Core/elFinder.Net.Drivers.FileSystem/Helpers/PathHelper.cs:27-38 | combining succeeds exactly when the resolved path lies below the resolved parent |
| PathHelper.ParentTrailingSeparator | elFinder.Net.Core/elFinder.Net.Drivers.FileSystem/Helpers/PathHelper.cs:32-34 | a trailing separator on the parent changes nothing |
| PathHelper.NormalizeRender | elFinder.Net.Core/elFinder.Net.Drivers.FileSystem/Helpers/PathHelper.cs:22-25 | normalising a rendered path, with or without a trailing separator, gives its body |
| PathHelper.ResolveSnocSeparator | elFinder.Net.Core/elFinder.Net.Drivers.FileSystem/Helpers/PathHelper.cs:32 | a trailing separator does not change the resolved segments |
| PathHelper.CombineParentItself | elFinder.Net.Core/elFinder.Net.Drivers.FileSystem/Helpers/PathHelper.cs:34 | containment is strict: combining a parent with nothing below it is refused |
| PathHelper.ClimbOutFaults | elFinder.Net.Core/elFinder.Net.Drivers.FileSystem/Helpers/PathHelper.cs:29-35 | a name that climbs out of the parent with ".." is refused |
| PathHelper.ResolveRender | elFinder.Net.Core/elFinder.Net.Drivers.FileSystem/Helpers/PathHelper.cs:10-14 | resolving a rendered path gives its segments back |
| DownloadHelper.GetZipDownloadName | elFinder.Net.Core/elFinder.Net.Core/Helpers/DownloadHelper.cs:9-23 | no paths is an argument-null fault; several paths always give a name |
| DownloadHelper.SingleEntryName | elFinder.Net.Core/elFinder.Net.Core/Helpers/DownloadHelper.cs:16 | one path gives the volume's name for a root, else the entry's name |
| DownloadHelper.SeveralEntriesName | elFinder.Net.Core/elFinder.Net.Core/Helpers/DownloadHelper.cs:18-22 | several paths give the volume's name when the first one's parent is the root or absent, else the parent's name, falling back to the default |
| DownloadHelper.OnlyFirstEntryMatters | elFinder.Net.Core/elFinder.Net.Core/Helpers/DownloadHelper.cs:14-22 | with several paths only the first one decides the name |
| DownloadHelper.DefaultOnlyAsFallback | elFinder.Net.Core/elFinder.Net.Core/Helpers/DownloadHelper.cs:14-22 | the default name decides the result exactly when there are several paths and the first one yields no name, and then the result is the default |
| Responses.Warning | elFinder.Net.Core/elFinder.Net.Core/Models/Response/UploadResponse.cs:20 | the warning list is hidden exactly when empty |
| Responses.AddWarning | elFinder.Net.Core/elFinder.Net.Core/Models/Response/UploadResponse.cs:28-31 | adding a warning appends it and leaves the rest of the response unchanged |
| Responses.AddWarningDetail | elFinder.Net.Core/elFinder.Net.Core/Models/Response/UploadResponse.cs:33-36 | adding a warning detail appends it and leaves the warnings and the rest unchanged |
| Responses.WarningVisible | elFinder.Net.Core/elFinder.Net.Core/Models/Response/UploadResponse.cs:20-31 | after adding a warning the list is visible and ends with it |
| Responses.AddWarningsShow | elFinder.Net.Core/elFinder.Net.Core/Models/Response/UploadResponse.cs:20-31 | adding a run of warnings appends them in order, leaves the rest unchanged, and the list is visible exactly when the result is non-empty |
| Responses.NewUploadHasNoWarning | elFinder.Net.Core/elFinder.Net.Core/Models/Response/UploadResponse.cs:9-20 | a fresh upload response shows no warning; one added warning shows alone |
| Responses.Concat | elFinder.Net.Core/elFinder.Net.Core/Models/Response/SearchResponse.cs:16-19 | concatenation keeps this response's files and appends the other's |
| Responses.ConcatAssociative | elFinder.Net.Core/elFinder.Net.Core/Models/Response/SearchResponse.cs:16-19 | concatenation is associative, so the per-volume search result is order-of-grouping independent |
| Responses.ConcatAllAppends | elFinder.Net.Core/elFinder.Net.Core/Connector.cs:525-537 | folding results onto a running response with concatenation gives its files followed by every result's files, in order |
| Responses.ConcatAllFlattens | elFinder.Net.Core/elFinder.Net.Core/Connector.cs:525-537 | from a fresh response, the folded search result lists exactly every volume's files, in volume order |
| Responses.ConcatEmpty | elFinder.Net.Core/elFinder.Net.Core/Models/Response/SearchResponse.cs:7-19 | the fresh response is a unit of concatenation |
| Responses.OpenResponseAt | elFinder.Net.Core/elFinder.Net.Core/Models/Response/OpenResponse.cs:17-25 | an open response for a directory lists that directory first |
| Responses.UploadMaxSize | elFinder.Net.Core/elFinder.Net.Core/Models/Response/OpenResponse.cs:36 | the upload maximum reads the options, and faults when there are none |
| DriverPaths.ParsePath | elFinder.Net.Core/elFinder.Net.Drivers.FileSystem/FileSystemDriver.cs:355-371 | the path is the root plus the decoded path; it fails exactly when nothing exists (a file path ending in a separator does not, as with `File.Exists`) and creation is off, as file-not-found or directory-not-found by the default kind |
| DriverPaths.ExistingKindWins | elFinder.Net.Core/elFinder.Net.Drivers.FileSystem/FileSystemDriver.cs:362-366 | an existing directory is a directory; an existing file is a file unless a directory is to be created; otherwise the default kind decides |
| DriverPaths.NoCreateReportsDisk | elFinder.Net.Core/elFinder.Net.Drivers.FileSystem/FileSystemDriver.cs:362-370 | without creation the kind reported is exactly what is on disk |
| DriverRules.ValidNameIsOneSegment | elFinder.Net.Core/elFinder.Net.Drivers.FileSystem/FileSystemDriver.cs:1872-1875 | a valid object name holds no NUL and no separator |
| DriverRules.ModesPartition | elFinder.Net.Core/elFinder.Net.Drivers.FileSystem/FileSystemDriver.cs:529-531 | an upload is plain, a chunk piece or a chunk merge, and final exactly when not a piece |
| DriverRules.UploadNameChecks | elFinder.Net.Core/elFinder.Net.Drivers.FileSystem/FileSystemDriver.cs:520-537 | an upload passes the name checks only when every name, rename, suffix and upload name is valid, and a piece's file name too; a failure is an invalid-name fault |
| DriverRules.CheckMime | elFinder.Net.Core/elFinder.Net.Drivers.FileSystem/FileSystemDriver.cs:707-738 | with no rule order every type passes; a refusal is the file-type fault |
| DriverRules.CheckRulesSpec | elFinder.Net.Core/elFinder.Net.Drivers.FileSystem/FileSystemDriver.cs:716-737 | a type passes the listed rules exactly when it is named in the allow list whenever that rule applies, and is not named in the deny list whenever that rule applies |
| DriverRules.RuleOrderIrrelevant | elFinder.Net.Core/elFinder.Net.Drivers.FileSystem/FileSystemDriver.cs:716-737 | allow-then-deny and deny-then-allow accept the same types |
| DriverRules.UploadConflict | elFinder.Net.Core/elFinder.Net.Drivers.FileSystem/FileSystemDriver.cs:808-839 | a free name has no conflict; an occupied name is backed up exactly when it is in the rename list, under the backup name or its copy name; otherwise it gets a copy name exactly when overwrite is off; it is overwritten only when writable; permission is denied exactly when none of these applies |
| DriverRules.OverwriteOnlyWhenAllowed | elFinder.Net.Core/elFinder.Net.Drivers.FileSystem/FileSystemDriver.cs:829-838 | a file is overwritten exactly when it is occupied, not renamed, writable, and overwrite is on by request or by volume |
| DriverRules.BackupNameShape | elFinder.Net.Core/elFinder.Net.Drivers.FileSystem/FileSystemDriver.cs:812-814 | the backup name puts the suffix before the extension |
| DriverRules.ArchiveName | elFinder.Net.Core/elFinder.Net.Drivers.FileSystem/FileSystemDriver.cs:1357-1372 | archiving fails for an invalid name first, then for a non-zip type; the file name gets ".zip" unless it has it |
| DriverRules.ArchiveFileNameIdempotent | elFinder.Net.Core/elFinder.Net.Drivers.FileSystem/FileSystemDriver.cs:1368-1372 | the ".zip" extension is added at most once |
| ChunkUpload.PieceFailed | elFinder.Net.Core/elFinder.Net.Drivers.FileSystem/FileSystemDriver.cs:881-921 | a failed piece records the first fault and rethrows; when a fault was already recorded it answers an empty response; the chunk directory is removed either way |
| ChunkUpload.ChunkPiece | elFinder.Net.Core/elFinder.Net.Drivers.FileSystem/FileSystemDriver.cs:773-921 | a stored piece adds one to the count kept under its directory, starting from zero for a new directory |
| ChunkUpload.FaultIsSticky | elFinder.Net.Core/elFinder.Net.Drivers.FileSystem/FileSystemDriver.cs:778 | once a fault is recorded every later piece is answered empty and changes nothing |
| ChunkUpload.FirstFaultRecorded | elFinder.Net.Core/elFinder.Net.Drivers.FileSystem/FileSystemDriver.cs:883-899 | the first failing piece records its root cause and fails |
| ChunkUpload.PieceCounts | elFinder.Net.Core/elFinder.Net.Drivers.FileSystem/FileSystemDriver.cs:862-879 | the piece that completes the count reports the merge name and file name, and no other does |
| ChunkUpload.FirstPieceStartsCount | elFinder.Net.Core/elFinder.Net.Drivers.FileSystem/FileSystemDriver.cs:775-790 | the first piece creates the directory and a count of one |
| ChunkUpload.RunPiecesCounts | elFinder.Net.Core/elFinder.Net.Drivers.FileSystem/FileSystemDriver.cs:862-879 | a run of successful pieces with no fault recorded raises the count by the number of pieces and records no fault |
| ChunkUpload.RunPiecesSticky | elFinder.Net.Core/elFinder.Net.Drivers.FileSystem/FileSystemDriver.cs:778 | once a fault is recorded, no run of later pieces changes the upload's record |
| ChunkUpload.MergeChunked | elFinder.Net.Core/elFinder.Net.Drivers.FileSystem/FileSystemDriver.cs:545-678 | (corrected) a fault of the walk that lists missing parent directories, or an early fault before the chunk directory is known, is rethrown and leaves the locks alone; otherwise a merge succeeds exactly when the chunks, permission, conflict rule and lock are there, merging works and refreshing and listing the merged file works; a completed merge releases the lock; a success lists the missing parent directories, then the occupant renamed to its backup name when the conflict rule backed it up, then the merged file; a missing lock is errAbort; a failure before the release records its root cause, and one after it records nothing |
| ChunkUpload.MergeKnownDir | elFinder.Net.Core/elFinder.Net.Drivers.FileSystem/FileSystemDriver.cs:581-678 | once the chunk directory is known: success exactly when the chunks, permission, conflict rule, lock and merge all hold and the merged file is refreshed and listed, and it lists the walked parents, the backed-up occupant (line 610) only for a backup, and the merged file last (line 634); a completed merge releases the lock and removes the chunk directory even when the listing then fails; a failure before the release records its root cause |
| ChunkUpload.LateFaultUnrecorded | elFinder.Net.Core/elFinder.Net.Drivers.FileSystem/FileSystemDriver.cs:631-646 | a fault while the merged file is refreshed and listed fails the request after the lock is released, so no fault is recorded and a later abort finds nothing to mark |
| ChunkUpload.MergeChunkedAsWritten | elFinder.Net.Core/elFinder.Net.Drivers.FileSystem/FileSystemDriver.cs:545-636 | as written, a fault of the parent walk is rethrown as it is, since it comes before the merge's handler, but an early fault reaches the handler with the chunk directory still null and becomes a null reference there |
| ChunkUpload.EarlyFaultBecomesNullReference | elFinder.Net.Core/elFinder.Net.Drivers.FileSystem/FileSystemDriver.cs:571-636 | every early fault is answered as a null reference with the locks unchanged, which differs from the corrected merge for any other fault |
| ChunkUpload.MergeAgreesOnceDirKnown | elFinder.Net.Core/elFinder.Net.Drivers.FileSystem/FileSystemDriver.cs:571-636 | the written and corrected merges agree exactly when there is no early fault or it already was a null reference |
| ChunkUpload.MergeFailureOverwrites | elFinder.Net.Core/elFinder.Net.Drivers.FileSystem/FileSystemDriver.cs:636-645 | a merge failure overwrites any recorded fault and marks the file touched |
| ChunkUpload.AbortUpload | elFinder.Net.Core/elFinder.Net.Drivers.FileSystem/FileSystemDriver.cs:946-1007 | aborting records errAbort under the lock, then fails if the directory is missing or may not be deleted, and deletes it otherwise |
| ChunkUpload.AbortStopsPieces | elFinder.Net.Core/elFinder.Net.Drivers.FileSystem/FileSystemDriver.cs:992 | after an abort every later piece is answered empty |
| MergeChunks.MergeChunks | elFinder.Net.Core/elFinder.Net.Drivers.FileSystem/FileSystemDriver.cs:2121-2156 | merging writes the ordered chunks' contents and removes each of them, or fails as ordering fails |
| MergeChunks.ArrangeFails | elFinder.Net.Core/elFinder.Net.Drivers.FileSystem/FileSystemDriver.cs:2124-2129 | ordering fails exactly when some chunk name does not parse, with the first such fault |
| MergeChunks.ArrangeOrders | elFinder.Net.Core/elFinder.Net.Drivers.FileSystem/FileSystemDriver.cs:2124-2129 | the ordered chunks are a permutation of the non-status files, sorted by chunk number |
| MergeChunks.SortIsStable | elFinder.Net.Core/elFinder.Net.Drivers.FileSystem/FileSystemDriver.cs:2128 | chunks with equal numbers keep their listing order |
| MergeChunks.EveryChunkRemoved | elFinder.Net.Core/elFinder.Net.Drivers.FileSystem/FileSystemDriver.cs:2133-2149 | every chunk file but the status file is removed, and the status file is not |
| MergeChunks.Reassembles | elFinder.Net.Core/elFinder.Net.Drivers.FileSystem/FileSystemDriver.cs:2121-2156 | chunks a client named in order, listed in any order, are joined back into the original content |
| DirectoryCopy.CopyDirectory | elFinder.Net.Core/elFinder.Net.Drivers.FileSystem/FileSystemDriver.cs:1949-1961 | copying needs both permissions and refuses a destination that is a file, as exists |
| DirectoryCopy.MergeDirectory | elFinder.Net.Core/elFinder.Net.Drivers.FileSystem/FileSystemDriver.cs:1996-2006 | moving needs permission and refuses a destination that is a file, as exists |
| DirectoryCopy.TransferFile | elFinder.Net.Core/elFinder.Net.Drivers.FileSystem/FileSystemDriver.cs:1877-1947 | one file goes to its target name unless copy or move is refused; a move records the source for removal |
| DirectoryCopy.CopyMirrorsSource | elFinder.Net.Core/elFinder.Net.Drivers.FileSystem/FileSystemDriver.cs:1963-1993 | a finished copy holds every folder and file of the source under the destination, loses nothing, and changes nothing outside it |
| DirectoryCopy.MergeMovesEverything | elFinder.Net.Core/elFinder.Net.Drivers.FileSystem/FileSystemDriver.cs:2008-2038 | a finished move holds every folder and file under the destination and has moved every source file |
| DirectoryCopy.CopyRemovesNothing | elFinder.Net.Core/elFinder.Net.Drivers.FileSystem/FileSystemDriver.cs:1988 | a copy removes no source file |
| DirectoryCopy.CopyLeavesSourceAlone | elFinder.Net.Core/elFinder.Net.Drivers.FileSystem/FileSystemDriver.cs:1963-1993 | when source and destination lie apart, a copy changes nothing under the source, so the up-front listing is what the walk sees |
| DirectoryCopy.MergeLeavesSourceAlone | elFinder.Net.Core/elFinder.Net.Drivers.FileSystem/FileSystemDriver.cs:2008-2038 | when source and destination lie apart, a move changes nothing under the source in the tree, so the up-front listing is what the walk sees |

## Left out

- Cookies and `Thread.Sleep` before an error answer are left out,
  because they do not change what is answered.
- Cancellation is modelled through the registry only: a request whose
  own source is in the registry's cancelled set is answered errAbort,
  both when it arrives and when it aborts itself (Connector.ProcessSelfAbort).
  Other ways a source gets cancelled while a request runs (a client
  disconnect, the cleaner cancelling an expired request mid-call) and the
  token checks inside the drivers are not modelled.
- The drivers' verbs ls, mkdir, mkfile, open, info, parents, rename, rm,
  tmb, tree, size, dim, file, get, paste, duplicate, search, extract,
  put, resize, zipdl, thumbnails and `SetupVolumeAsync` are not modelled
  beyond what they share with the modelled rules. The connector sees a
  driver as a function from a call to a reply or a fault.
- Zip creation and extraction, images and video, and the plugin hooks
  (`OnBefore...`/`OnAfter...`) are left out: they are I/O or foreign calls.
- `GetCopyNameAsync` is a parameter (`CopyNamer`), because
  FileSystemFile and FileSystemDirectory are not part of this model.
- The chunk directory name is an HMAC of the upload directory, file name
  and client id. It is taken as given, because the crypto provider is
  not part of this model.
- The status file written during chunk uploads, and the temp-file
  cleaner, are left out. Only the status file's name matters, and
  merging skips it.
- Paths follow .NET on Unix: both separators are '/', and the invalid
  file-name characters are NUL and '/'. The process directory is the root.
- Concurrency: the `ConcurrentDictionary` and `lock` sections are
  modelled as atomic steps. Clocks are a `now` parameter, and the
  cleaner threads are the sweep functions called at a given time.
- Connector.OpenVerb: the root-entry insertion reads the target as the
  driver's open leaves it on the command; the model takes that target from
  the driver's reply (`reply.target`). What a driver sets it to is the
  driver's business and is not constrained.
- Connector.ArchiveVerb: uses the corrected Connector.ArchiveChecks, so an
  absent target is answered errCmdParams rather than the as-written
  errUnknown with status 500 (see "## Findings").
- Connector.RmFilter: keys are the full-name texts of FileSystemDirectory
  and FileSystemFile, built from the resolved path plus the target's own
  trailing separator; those classes themselves are not part of this model.
- PathHelper.SafelyCombine: the prefix test is ordinal. The source's
  `StartsWith(string)` uses the current culture, which may ignore
  zero-width and other ignorable characters; culture-sensitive comparison
  is not modelled.
- DriverRules.ArchiveName: the `.zip` test is ordinal and case-sensitive;
  the source's `EndsWith(string)` is culture-sensitive, which is not
  modelled.
- Numbers.Parse: the sign characters are '+' and '-' (the invariant
  culture); a culture with other sign strings is not modelled.
- DirectoryCopy.CopyDirectory: the source folder is a listing taken
  before the walk, while the driver lists each folder from disk when it
  reaches it. The two agree when source and destination lie apart
  (DirectoryCopy.CopyLeavesSourceAlone). When the destination lies inside
  the source, the driver finds its own copies and goes on until a path is
  too long; the model does not describe that case.
- DirectoryCopy.MergeDirectory: the same listing caveat as the copy, with
  DirectoryCopy.MergeLeavesSourceAlone for source and destination apart.
  The moved files are recorded in `removed` rather than deleted from the
  tree.
- DirectoryCopy.CopyMirrorsSource: holds of the listing; for a destination
  inside the source the driver does not finish, as above.
- DirectoryCopy.MergeMovesEverything: holds of the listing; for a
  destination inside the source the driver does not finish, as above.
- ChunkUpload.MergeChunked: which parent directories of the upload
  paths are missing, and how each is listed, is a parameter (the walk's
  result); the walk up to the volume root over the file system is not
  modelled. The conflict decision is taken as given; DriverRules.UploadConflict
  models how it is made.
- The open `init`/`mimes` arguments, the paste `hashes`/`cut`
  arguments, upload `mtime`/`hashes`/`overwrite`, and the resize numbers
  are read by the drivers only. They are left out of `Args` except where
  the connector tests them.
- Utf8.Decode: a malformed byte sequence decodes to one replacement
  character per byte. .NET's exact replacement rule for malformed input
  is not modelled, because the round trip only uses well-formed text.
- PathCodec.DecodeEncode: text is a sequence of Unicode scalar values,
  so no character is a lone surrogate. A .NET string may hold one, which
  `Encoding.UTF8.GetBytes` replaces with U+FFFD, so such a path does not
  come back; that case is not modelled.
- Utf8.DecodeEncode: holds of scalar-value text; lone surrogates, which
  .NET's UTF-8 encoder replaces with U+FFFD, are out of scope as above.
- Strings.TrimEnd: only the characters the core trims with (the two
  separators) and the trailing NULs `int.Parse` skips are used.
- ConnectorPaths.ParsePaths: `Task.WhenAll` runs the parses concurrently.
  The model parses in list order and reports the first fault in list
  order, which is what `WhenAll` rethrows.

## Findings

| source | as written | input that shows it | evidently intended | confidence | as-written member | corrected member |
|---|---|---|---|---|---|---|
| elFinder.Net.Core/elFinder.Net.Core/Connector.cs:172-175 | archive reads `TargetPath.Volume` before the check `TargetPath?.IsDirectory != true`, so an absent target dereferences null | `cmd=archive` with no `target` (or an empty one) | the null-safe check on the next line answers errCmdParams for archive with status 200 | not executed | Connector.ArchiveChecksAsWritten (shown by Connector.ArchiveNullTarget: errUnknown, status 500) | Connector.ArchiveChecks (used by Connector.ArchiveVerb) |
| elFinder.Net.Core/elFinder.Net.Drivers.FileSystem/FileSystemDriver.cs:636 | a merge's handler reads `chunkingDir.FullName` first, but a fault at lines 573-580 comes before `chunkingDir` is assigned, so the handler dereferences null and the original fault is lost | `cmd=upload` with `chunk` set to a merge name and two `upload_path[]` entries (`Single()` throws) | skip the lock lookup while the chunk directory is unknown and rethrow the original fault | not executed | ChunkUpload.MergeChunkedAsWritten (shown by ChunkUpload.EarlyFaultBecomesNullReference) | ChunkUpload.MergeChunked (the merge ChunkUpload.MergeFailureOverwrites is about) |
