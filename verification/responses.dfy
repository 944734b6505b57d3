/** The small behaviours of the upload, search and open responses
    (Models/Response/UploadResponse.cs, SearchResponse.cs and
    OpenResponse.cs). The listed items are of an abstract type `T`: the
    model never looks inside a file-info record. Responses are values, so
    an append through a returned list becomes a transition that returns
    the changed response. */
module Responses {
  import opened Wrappers
  import opened Faults

  // UploadResponse

  /** An upload's outcome: the entries added, the warnings with their
      error details, and the two chunk-merge fields the driver fills in. */
  datatype UploadResponse<T> = UploadResponse(
    added: seq<T>,
    warnings: seq<T>,
    warningDetails: seq<ErrorResponse>,
    chunkMerged: Option<string>,
    name: Option<string>)

  /** A new upload response: nothing added, no warnings, and neither
      chunk-merge field set. */
  function NewUploadResponse<T>(): (u: UploadResponse<T>)
    ensures u.added == [] && u.warnings == [] && u.warningDetails == []
    ensures u.chunkMerged.None? && u.name.None?
  {
    UploadResponse([], [], [], None, None)
  }

  /** The `warning` property: absent while there is no warning, and the
      warning list itself otherwise. */
  function Warning<T>(u: UploadResponse<T>): (w: Option<seq<T>>)
    ensures w.None? <==> |u.warnings| == 0
    ensures w.Some? ==> w.value == u.warnings
  {
    if |u.warnings| > 0 then Some(u.warnings) else None
  }

  /** Append a warning through the list GetWarnings hands out. */
  function AddWarning<T>(u: UploadResponse<T>, item: T): (r: UploadResponse<T>)
    ensures r.warnings == u.warnings + [item]
    ensures r.added == u.added && r.warningDetails == u.warningDetails
    ensures r.chunkMerged == u.chunkMerged && r.name == u.name
  {
    u.(warnings := u.warnings + [item])
  }

  /** Append an error detail through the list GetWarningDetails hands out. */
  function AddWarningDetail<T>(u: UploadResponse<T>, detail: ErrorResponse): (r: UploadResponse<T>)
    ensures r.warningDetails == u.warningDetails + [detail]
    ensures r.added == u.added && r.warnings == u.warnings
    ensures r.chunkMerged == u.chunkMerged && r.name == u.name
  {
    u.(warningDetails := u.warningDetails + [detail])
  }

  // SearchResponse

  datatype SearchResponse<T> = SearchResponse(files: seq<T>)

  /** A new search response lists no files. */
  function NewSearchResponse<T>(): (s: SearchResponse<T>)
    ensures |s.files| == 0
  {
    SearchResponse([])
  }

  /** Append the other response's files after this one's, in order. */
  function Concat<T>(s: SearchResponse<T>, another: SearchResponse<T>): (r: SearchResponse<T>)
    ensures |r.files| == |s.files| + |another.files|
    ensures r.files[..|s.files|] == s.files && r.files[|s.files|..] == another.files
  {
    SearchResponse(s.files + another.files)
  }

  // OpenResponse

  /** The client options of a volume, as far as the open response reads
      them. */
  datatype ResponseOptions = ResponseOptions(uploadMaxSize: Option<string>)

  datatype OpenResponse<T> = OpenResponse(
    cwd: Option<T>,
    files: seq<T>,
    options: Option<ResponseOptions>,
    uplMaxFile: Option<int>)

  /** The parameterless constructor: no working directory, no files. */
  function NewOpenResponse<T>(): (o: OpenResponse<T>)
    ensures o.cwd.None? && o.files == [] && o.options.None? && o.uplMaxFile.None?
  {
    OpenResponse(None, [], None, None)
  }

  /** The constructor for a working directory: it is the one listed file,
      and the file-count limit is copied from the volume. */
  function OpenResponseAt<T>(cwd: T, options: ResponseOptions, maxUploadFiles: Option<int>): (o: OpenResponse<T>)
    ensures o.cwd == Some(cwd) && o.files == [cwd]
    ensures o.options == Some(options) && o.uplMaxFile == maxUploadFiles
  {
    OpenResponse(Some(cwd), [cwd], Some(options), maxUploadFiles)
  }

  /** The network drivers an open response advertises: none. */
  const NetDrivers: seq<string> := []

  /** The `uplMaxSize` property reads through the options, which the
      parameterless constructor leaves unset. */
  function UploadMaxSize<T>(o: OpenResponse<T>): (r: Result<Option<string>, Fault>)
    ensures r.Failure? <==> o.options.None?
    ensures r.Failure? ==> r.error == NullReference
    ensures r.Success? ==> r.value == o.options.value.uploadMaxSize
  {
    if o.options.None? then Failure(NullReference) else Success(o.options.value.uploadMaxSize)
  }

  // Properties

  /** A warning added to any upload response is visible through the
      `warning` property, after the earlier ones. */
  lemma WarningVisible<T>(u: UploadResponse<T>, item: T)
    ensures var w := Warning(AddWarning(u, item));
      w.Some? && |w.value| == |u.warnings| + 1 && w.value[|u.warnings|] == item
      && w.value[..|u.warnings|] == u.warnings
  {
  }

  /** A new upload response shows no warning until one is added. */
  lemma NewUploadHasNoWarning<T>(item: T)
    ensures Warning(NewUploadResponse<T>()).None?
    ensures Warning(AddWarning(NewUploadResponse<T>(), item)) == Some([item])
  {
    assert [] + [item] == [item];
  }

  /** Concat with an empty response changes nothing, on either side. */
  lemma ConcatEmpty<T>(s: SearchResponse<T>)
    ensures Concat(s, NewSearchResponse()) == s
    ensures Concat(NewSearchResponse(), s) == s
  {
    assert s.files + [] == s.files;
    assert [] + s.files == s.files;
  }

  /** Concatenating search results is associative, so the order in which
      the per-volume results are merged does not matter, only their
      sequence. */
  lemma ConcatAssociative<T>(a: SearchResponse<T>, b: SearchResponse<T>, c: SearchResponse<T>)
    ensures Concat(Concat(a, b), c) == Concat(a, Concat(b, c))
  {
    assert (a.files + b.files) + c.files == a.files + (b.files + c.files);
  }

  /** Every file of the result comes from one of the two responses, at the
      same relative position. */
  lemma ConcatMembers<T>(a: SearchResponse<T>, b: SearchResponse<T>, i: int)
    requires 0 <= i < |a.files| + |b.files|
    ensures Concat(a, b).files[i] == if i < |a.files| then a.files[i] else b.files[i - |a.files|]
  {
  }

  /** Add several warnings, one after another. */
  function AddWarnings<T>(u: UploadResponse<T>, items: seq<T>): (r: UploadResponse<T>)
    decreases |items|
  {
    if items == [] then u else AddWarnings(AddWarning(u, items[0]), items[1..])
  }

  /** Warnings added one by one all show, in the order they were added,
      and nothing else in the response changes; from a new response the
      `warning` property is absent exactly when none was added. */
  lemma {:induction false} AddWarningsShow<T>(u: UploadResponse<T>, items: seq<T>)
    ensures var r := AddWarnings(u, items);
      r.warnings == u.warnings + items
      && r.added == u.added && r.warningDetails == u.warningDetails
      && r.chunkMerged == u.chunkMerged && r.name == u.name
    ensures Warning(AddWarnings(NewUploadResponse<T>(), items)) == if items == [] then None else Some(items)
    decreases |items|
  {
    if items != [] {
      AddWarningsShow(AddWarning(u, items[0]), items[1..]);
      assert u.warnings + [items[0]] + items[1..] == u.warnings + items;
      AddWarningsShow(AddWarning(NewUploadResponse<T>(), items[0]), items[1..]);
      assert [] + [items[0]] + items[1..] == items;
    }
  }

  /** The search verb's accumulation: concatenate each volume's response
      onto the running one, in turn. */
  function ConcatAll<T>(acc: SearchResponse<T>, rs: seq<SearchResponse<T>>): (r: SearchResponse<T>)
    decreases |rs|
  {
    if rs == [] then acc else ConcatAll(Concat(acc, rs[0]), rs[1..])
  }

  /** Every response's files, in order. */
  function Flatten<T>(rs: seq<SearchResponse<T>>): seq<T>
    decreases |rs|
  {
    if rs == [] then [] else rs[0].files + Flatten(rs[1..])
  }

  /** Accumulating responses one by one lists the starting response's
      files followed by all of theirs, each response's files together and
      in the order of the responses. */
  lemma {:induction false} ConcatAllAppends<T>(acc: SearchResponse<T>, rs: seq<SearchResponse<T>>)
    ensures ConcatAll(acc, rs).files == acc.files + Flatten(rs)
    decreases |rs|
  {
    if rs != [] {
      ConcatAllAppends(Concat(acc, rs[0]), rs[1..]);
      assert (acc.files + rs[0].files) + Flatten(rs[1..]) == acc.files + (rs[0].files + Flatten(rs[1..]));
    }
  }

  /** From a new response, the search verb's accumulation lists exactly
      the files of every volume's response, in volume order. */
  lemma ConcatAllFlattens<T>(rs: seq<SearchResponse<T>>)
    ensures ConcatAll(NewSearchResponse(), rs).files == Flatten(rs)
  {
    ConcatAllAppends(NewSearchResponse(), rs);
    assert NewSearchResponse<T>().files == [];
  }
}
