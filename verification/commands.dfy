/** A connector request as the connector reads it: the verb the HTTP
    adapter set, the request id, the form files, and the arguments. An
    argument with one value is the text the platform's conversion of a
    multi-valued form field gives, where a missing argument and an empty
    one are both the empty text (every test the connector makes treats
    them alike); a list argument is its values in order. */
module Commands {
  import opened Wrappers

  /** An uploaded form file: the form field it came in and its length. */
  datatype FormFile = FormFile(field: string, length: int)

  datatype Args = Args(
    cmd: string,
    id: Option<string>,
    target: string,
    targets: seq<string>,
    init: string,
    tree: string,
    download: string,
    current: string,
    dst: string,
    content: string,
    encoding: string,
    mode: string,
    uploadName: string,
    mimes: string,
    uploadPath: seq<string>,
    chunk: string,
    range: string,
    cid: string)

  /** `cmd` is the verb set before the connector runs (null when unset);
      the connector reads the verb again from the arguments. */
  datatype ConnectorCommand = ConnectorCommand(
    cmd: Option<string>,
    reqId: Option<string>,
    args: Args,
    files: seq<FormFile>)
}
