/** The wire-visible error taxonomy of the connector, the exceptions the
    core raises, and the ErrorResponse values built from them
    (Models/Response/ErrorResponse.cs and the Exceptions folder). */
module Faults {
  import opened Wrappers

  // The error-code constants, spelled exactly as on the wire.
  const UnknownCommand := "errUnknownCmd"
  const ArchiveType := "errArcType"
  const Exists := "errExists"
  const CommandRequired := "errCmdReq"
  const MakeFile := "errMkfile"
  const AccessDenied := "errAccess"
  const FileNotFound := "errFileNotFound"
  const FolderNotFound := "errFolderNotFound"
  const CommandParams := "errCmdParams"
  const ConnectionAborted := "errAbort"
  const Unknown := "errUnknown"
  const PermissionDenied := "errPerm"
  const UploadFileSize := "errUploadFileSize"
  const CommandNoSupport := "errCmdNoSupport"
  const NotFile := "errNotFile"
  const UploadFile := "errUploadFile"
  const InvalidFileName := "errInvName"
  const InvalidDirName := "errInvDirname"
  const UploadMime := "errUploadMime"

  /** The nineteen constants in declaration order. */
  const AllCodes: seq<string> := [
    UnknownCommand, ArchiveType, Exists, CommandRequired, MakeFile,
    AccessDenied, FileNotFound, FolderNotFound, CommandParams, ConnectionAborted,
    Unknown, PermissionDenied, UploadFileSize, CommandNoSupport, NotFile,
    UploadFile, InvalidFileName, InvalidDirName, UploadMime
  ]

  /** HTTP status codes used by the dispatcher. */
  const StatusOk := 200
  const StatusInternalServerError := 500

  /** The kinds of ConnectorException; each pins its own error payload. */
  datatype ConnectorKind =
    | ArchiveTypeKind
    | CommandNoSupportKind
    | CommandRequiredKind
    | ConnectionAbortedKind
    | ExistsKind(name: string)
    | FileTypeNotAllowKind
    | InvalidDirNameKind
    | InvalidFileNameKind
    | NotFileKind
    | UnknownCommandKind
    | UploadFileSizeKind
    | PermissionDeniedKind
    | CommandParamsKind(cmd: string)

  /** The exceptions the core raises or lets through. `Wrapped` stands for
      any exception that carries an inner exception (an AggregateException
      from a blocking wait, for one). */
  datatype Fault =
    | ConnectorFault(kind: ConnectorKind, status: Option<int>)
    | UnauthorizedAccess
    | FileNotFoundFault
    | DirectoryNotFoundFault
    | PathTooLong
    | OtherIO
    | TaskCanceled
    | OperationCanceled
    | ArgumentNull
    | ArgumentOutOfRange
    | OtherArgument
    | Format
    | Overflow
    | IndexOutOfRange
    | InvalidOperation
    | NullReference
    | KeyNotFound
    | Other
    | Wrapped(inner: Fault)
  {
    /** The innermost exception of a chain of wrappers. */
    function RootCause(): (r: Fault)
      ensures !r.Wrapped?
    {
      if Wrapped? then inner.RootCause() else this
    }

    /** IOException and its subclasses. */
    predicate IsIO() {
      FileNotFoundFault? || DirectoryNotFoundFault? || PathTooLong? || OtherIO?
    }

    /** ArgumentException and its subclasses. */
    predicate IsArgument() {
      ArgumentNull? || ArgumentOutOfRange? || OtherArgument?
    }

    /** OperationCanceledException and its subclass TaskCanceledException. */
    predicate IsCanceled() {
      TaskCanceled? || OperationCanceled?
    }
  }

  /** A ConnectorException without a status override, as every exception
      class of the core builds it. */
  function Raise(kind: ConnectorKind): Fault {
    ConnectorFault(kind, None)
  }

  /** The `error` field: a single code, or a code with one detail string. */
  datatype ErrorPayload = Code(code: string) | CodeWith(code: string, detail: string) {
    function Primary(): string {
      match this
      case Code(c) => c
      case CodeWith(c, _) => c
    }
  }

  /** An error response always keeps the exception it was built from. */
  datatype ErrorResponse = ErrorResponse(error: ErrorPayload, exception: Fault)

  /** The payload each ConnectorException kind pins in its constructor. */
  function KindPayload(kind: ConnectorKind): (p: ErrorPayload)
    ensures kind.ExistsKind? ==> p == CodeWith(Exists, kind.name)
    ensures kind.CommandParamsKind? ==> p == CodeWith(CommandParams, kind.cmd)
    ensures p.CodeWith? <==> kind.ExistsKind? || kind.CommandParamsKind?
    ensures p.Primary() in AllCodes
  {
    match kind
    case ArchiveTypeKind => Code(ArchiveType)
    case CommandNoSupportKind => Code(CommandNoSupport)
    case CommandRequiredKind => Code(CommandRequired)
    case ConnectionAbortedKind => Code(ConnectionAborted)
    case ExistsKind(name) => CodeWith(Exists, name)
    case FileTypeNotAllowKind => Code(UploadMime)
    case InvalidDirNameKind => Code(InvalidDirName)
    case InvalidFileNameKind => Code(InvalidFileName)
    case NotFileKind => Code(NotFile)
    case UnknownCommandKind => Code(UnknownCommand)
    case UploadFileSizeKind => Code(UploadFileSize)
    case PermissionDeniedKind => Code(PermissionDenied)
    case CommandParamsKind(cmd) => CodeWith(CommandParams, cmd)
  }

  /** The ErrorResponse a ConnectorException carries: its own payload, and
      the exception itself as the kept cause. */
  function ConnectorResponse(f: Fault): (r: ErrorResponse)
    requires f.ConnectorFault?
    ensures r.exception == f
    ensures r.error == KindPayload(f.kind)
  {
    ErrorResponse(KindPayload(f.kind), f)
  }

  // ErrorResponse.Factory

  function ConnectionAbortedResponse(ex: Fault): (r: ErrorResponse)
    ensures r.error == Code(ConnectionAborted) && r.exception == ex
  {
    ErrorResponse(Code(ConnectionAborted), ex)
  }

  function AccessDeniedResponse(ex: Fault): (r: ErrorResponse)
    ensures r.error == Code(AccessDenied) && r.exception == ex
  {
    ErrorResponse(Code(AccessDenied), ex)
  }

  function FileNotFoundResponse(ex: Fault): (r: ErrorResponse)
    ensures r.error == Code(FileNotFound) && r.exception == ex
  {
    ErrorResponse(Code(FileNotFound), ex)
  }

  function CommandParamsResponse(ex: Fault, cmd: string): (r: ErrorResponse)
    ensures r.error.CodeWith? && r.error.code == CommandParams && r.error.detail == cmd
    ensures r.exception == ex
  {
    ErrorResponse(CodeWith(CommandParams, cmd), ex)
  }

  function FolderNotFoundResponse(ex: Fault): (r: ErrorResponse)
    ensures r.error == Code(FolderNotFound) && r.exception == ex
  {
    ErrorResponse(Code(FolderNotFound), ex)
  }

  function UploadFileResponse(ex: Fault, fileName: string): (r: ErrorResponse)
    ensures r.error.CodeWith? && r.error.code == UploadFile && r.error.detail == fileName
    ensures r.exception == ex
  {
    ErrorResponse(CodeWith(UploadFile, fileName), ex)
  }

  function UploadMimeResponse(ex: Fault): (r: ErrorResponse)
    ensures r.error == Code(UploadMime) && r.exception == ex
  {
    ErrorResponse(Code(UploadMime), ex)
  }

  function UnknownResponse(ex: Fault): (r: ErrorResponse)
    ensures r.error == Code(Unknown) && r.exception == ex
  {
    ErrorResponse(Code(Unknown), ex)
  }

  /** The nineteen error codes are pairwise distinct, so a client can tell
      every fault kind apart by its code alone. */
  lemma CodesPairwiseDistinct()
    ensures |AllCodes| == 19
    ensures forall i, j :: 0 <= i < j < |AllCodes| ==> AllCodes[i] != AllCodes[j]
  {
  }

  /** The eight factories produce eight different primary codes, and each
      is one of the declared constants. */
  lemma FactoriesDistinct(ex: Fault, s: string)
    ensures var codes := [
        ConnectionAbortedResponse(ex).error.Primary(), AccessDeniedResponse(ex).error.Primary(),
        FileNotFoundResponse(ex).error.Primary(), CommandParamsResponse(ex, s).error.Primary(),
        FolderNotFoundResponse(ex).error.Primary(), UploadFileResponse(ex, s).error.Primary(),
        UploadMimeResponse(ex).error.Primary(), UnknownResponse(ex).error.Primary()];
      (forall i, j :: 0 <= i < j < |codes| ==> codes[i] != codes[j])
      && (forall i :: 0 <= i < |codes| ==> codes[i] in AllCodes)
  {
  }
}
