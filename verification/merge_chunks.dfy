/** The final merge of a chunked upload (FileSystemDriver.MergeChunksAsync):
    the chunk files of the chunking directory, without the cleaner's
    status file, are ordered by the chunk number their names carry and
    written one after another into the destination file, each chunk being
    deleted once it is written. The ordering is the platform's stable
    sort by key: every key is computed first, so one malformed chunk name
    stops the merge before anything is written. */
module MergeChunks {
  import opened Wrappers
  import opened Faults
  import opened Utf8
  import opened Numbers
  import opened FileHelper

  datatype ChunkFile = ChunkFile(name: string, content: seq<Byte>)

  /** The chunk files without the status file, in listing order. */
  function WithoutStatus(files: seq<ChunkFile>, statusFile: string): (r: seq<ChunkFile>)
    ensures |r| <= |files|
    ensures forall c :: c in r <==> c in files && c.name != statusFile
  {
    if files == [] then []
    else if files[0].name == statusFile then WithoutStatus(files[1..], statusFile)
    else [files[0]] + WithoutStatus(files[1..], statusFile)
  }

  /** The sort key of a chunk file: the chunk number of its name (only
      read once every name is known to parse). */
  function KeyOf(c: ChunkFile): int {
    match GetChunkInfo(c.name)
    case Success(info) => info.currentChunkNo
    case Failure(_) => 0
  }

  /** A chunk file with its key and its position in the listing. */
  datatype Keyed = Keyed(key: int, index: int, file: ChunkFile)

  /** The files of keyed entries, in order. */
  function Files(s: seq<Keyed>): (r: seq<ChunkFile>)
    ensures |r| == |s|
    ensures forall i :: 0 <= i < |s| ==> r[i] == s[i].file
  {
    if s == [] then [] else [s[0].file] + Files(s[1..])
  }

  /** Every entry's key is its file's chunk number. */
  predicate WellKeyed(s: seq<Keyed>) {
    forall i :: 0 <= i < |s| ==> s[i].key == KeyOf(s[i].file)
  }

  /** Compute every key, in listing order, with positions counted from
      `from`; the first name that does not parse stops it with its fault. */
  function KeyAll(files: seq<ChunkFile>, from: int): (r: Result<seq<Keyed>, Fault>)
    ensures r.Success? ==> |r.value| == |files|
  {
    if files == [] then Success([])
    else
      var info :- GetChunkInfo(files[0].name);
      var rest :- KeyAll(files[1..], from + 1);
      Success([Keyed(info.currentChunkNo, from, files[0])] + rest)
  }

  /** Entry `i` of the keys carries the key of file `i`, its position
      counted from `from`, and the file itself. */
  lemma {:induction false} KeyAllEntries(files: seq<ChunkFile>, from: int)
    requires KeyAll(files, from).Success?
    ensures forall i :: 0 <= i < |files| ==> KeyAll(files, from).value[i] == Keyed(KeyOf(files[i]), from + i, files[i])
    decreases |files|
  {
    hide GetChunkInfo;
    if files != [] {
      var info := GetChunkInfo(files[0].name).value;
      var rest := KeyAll(files[1..], from + 1).value;
      KeyAllEntries(files[1..], from + 1);
      KeyOfParsed(files[0]);
      var r := KeyAll(files, from).value;
      assert r == [Keyed(info.currentChunkNo, from, files[0])] + rest;
      forall i | 0 <= i < |files|
        ensures r[i] == Keyed(KeyOf(files[i]), from + i, files[i])
      {
        if i > 0 {
          assert r[i] == rest[i - 1];
          assert files[1..][i - 1] == files[i];
        }
      }
    }
  }

  /** A name that parses has its current chunk number as its key. */
  lemma KeyOfParsed(c: ChunkFile)
    requires GetChunkInfo(c.name).Success?
    ensures KeyOf(c) == GetChunkInfo(c.name).value.currentChunkNo
  {
  }

  /** Every name before position `i` parses. */
  predicate ParsedUpTo(files: seq<ChunkFile>, i: int)
    requires 0 <= i <= |files|
  {
    forall j :: 0 <= j < i ==> GetChunkInfo(files[j].name).Success?
  }

  /** `e` is the fault of the first name that does not parse. */
  predicate FirstFault(files: seq<ChunkFile>, e: Fault) {
    exists i :: 0 <= i < |files| && ParsedUpTo(files, i) && GetChunkInfo(files[i].name) == Failure(e)
  }

  /** Computing the keys fails exactly when some name does not parse, and
      then with the fault of the first such name. */
  lemma {:induction false} KeyAllFails(files: seq<ChunkFile>, from: int)
    ensures KeyAll(files, from).Success? <==> ParsedUpTo(files, |files|)
    ensures KeyAll(files, from).Failure? ==> FirstFault(files, KeyAll(files, from).error)
    decreases |files|
  {
    hide GetChunkInfo;
    if files != [] {
      KeyAllFails(files[1..], from + 1);
      if GetChunkInfo(files[0].name).Success? {
        assert forall j :: 1 <= j < |files| ==> files[j] == files[1..][j - 1];
        if KeyAll(files[1..], from + 1).Failure? {
          var i :| 0 <= i < |files| - 1 && ParsedUpTo(files[1..], i)
                   && GetChunkInfo(files[1..][i].name) == Failure(KeyAll(files[1..], from + 1).error);
          assert ParsedUpTo(files, i + 1) && files[i + 1] == files[1..][i];
        }
      } else {
        assert ParsedUpTo(files, 0);
        assert GetChunkInfo(files[0].name) == Failure(KeyAll(files, from).error);
      }
    }
  }

  /** The keyed entries list the files in order, each with its chunk
      number, at distinct positions. */
  lemma KeyAllShape(files: seq<ChunkFile>, from: int)
    requires KeyAll(files, from).Success?
    ensures Files(KeyAll(files, from).value) == files
    ensures WellKeyed(KeyAll(files, from).value)
    ensures DistinctIndices(KeyAll(files, from).value)
  {
    KeyAllEntries(files, from);
  }

  /** The order of the stable sort: by key, then by listing position. */
  predicate Before(a: Keyed, b: Keyed) {
    a.key < b.key || (a.key == b.key && a.index < b.index)
  }

  predicate Ordered(s: seq<Keyed>) {
    forall i, j :: 0 <= i < j < |s| ==> Before(s[i], s[j])
  }

  predicate DistinctIndices(s: seq<Keyed>) {
    forall i, j :: 0 <= i < j < |s| ==> s[i].index != s[j].index
  }

  /** Insert into an ordered sequence before the first entry that does
      not come before the new one. */
  function Insert(x: Keyed, s: seq<Keyed>): (r: seq<Keyed>)
    ensures multiset(r) == multiset(s) + multiset{x}
  {
    if s == [] then [x]
    else if Before(x, s[0]) then [x] + s
    else
      assert s == [s[0]] + s[1..];
      [s[0]] + Insert(x, s[1..])
  }

  /** Insertion sort in the stable order. */
  function Sort(s: seq<Keyed>): (r: seq<Keyed>)
    ensures multiset(r) == multiset(s)
  {
    if s == [] then []
    else
      assert s == [s[0]] + s[1..];
      Insert(s[0], Sort(s[1..]))
  }

  lemma {:induction false} InsertOrdered(x: Keyed, s: seq<Keyed>)
    requires Ordered(s)
    requires forall y :: y in s ==> y.index != x.index
    ensures Ordered(Insert(x, s))
    decreases |s|
  {
    if s != [] && !Before(x, s[0]) {
      var t := Insert(x, s[1..]);
      InsertOrdered(x, s[1..]);
      forall y | y in t
        ensures Before(s[0], y)
      {
        assert y in multiset(t);
        if y != x {
          assert y in multiset(s[1..]);
        }
      }
      assert Insert(x, s) == [s[0]] + t;
    }
  }

  lemma {:induction false} InsertFiles(x: Keyed, s: seq<Keyed>)
    ensures multiset(Files(Insert(x, s))) == multiset(Files(s)) + multiset{x.file}
    decreases |s|
  {
    hide Files;
    if s != [] && !Before(x, s[0]) {
      InsertFiles(x, s[1..]);
      assert Insert(x, s) == [s[0]] + Insert(x, s[1..]);
      FilesCons(s[0], Insert(x, s[1..]));
      assert s == [s[0]] + s[1..];
      FilesCons(s[0], s[1..]);
    } else {
      assert Insert(x, s) == [x] + s;
      FilesCons(x, s);
    }
  }

  lemma FilesCons(k: Keyed, s: seq<Keyed>)
    ensures Files([k] + s) == [k.file] + Files(s)
  {
    assert ([k] + s)[1..] == s;
  }

  lemma ShiftDistinct(s: seq<Keyed>)
    requires s != [] && DistinctIndices(s)
    ensures DistinctIndices(s[1..])
    ensures forall y :: y in s[1..] ==> y.index != s[0].index
  {
    forall i, j | 0 <= i < j < |s| - 1
      ensures s[1..][i].index != s[1..][j].index
    {
      assert s[1..][i] == s[i + 1] && s[1..][j] == s[j + 1];
    }
  }

  /** The sort orders entries with distinct positions. */
  lemma {:induction false} SortOrdered(s: seq<Keyed>)
    requires DistinctIndices(s)
    ensures Ordered(Sort(s))
    decreases |s|
  {
    hide Insert;
    if s != [] {
      var t := Sort(s[1..]);
      ShiftDistinct(s);
      SortOrdered(s[1..]);
      forall y | y in t
        ensures y.index != s[0].index
      {
        assert y in multiset(s[1..]);
      }
      InsertOrdered(s[0], t);
      assert Sort(s) == Insert(s[0], t);
    }
  }

  /** The sort moves the files without adding or losing any. */
  lemma {:induction false} SortFiles(s: seq<Keyed>)
    ensures multiset(Files(Sort(s))) == multiset(Files(s))
    decreases |s|
  {
    hide Insert, Files;
    if s != [] {
      SortFiles(s[1..]);
      InsertFiles(s[0], Sort(s[1..]));
      assert Sort(s) == Insert(s[0], Sort(s[1..]));
      assert s == [s[0]] + s[1..];
      FilesCons(s[0], s[1..]);
    }
  }

  /** The chunk files in the order they are written: listing order
      without the status file, stably sorted by chunk number. */
  function Arrange(files: seq<ChunkFile>, statusFile: string): (r: Result<seq<ChunkFile>, Fault>)
  {
    var keyed :- KeyAll(WithoutStatus(files, statusFile), 0);
    Success(Files(Sort(keyed)))
  }

  /** Arranging fails exactly when a chunk name does not parse, with the
      fault of the first one in the listing. */
  lemma ArrangeFails(files: seq<ChunkFile>, statusFile: string)
    ensures Arrange(files, statusFile).Failure? ==>
      FirstFault(WithoutStatus(files, statusFile), Arrange(files, statusFile).error)
    ensures Arrange(files, statusFile).Success? <==>
      forall c :: c in files && c.name != statusFile ==> GetChunkInfo(c.name).Success?
  {
    hide GetChunkInfo, Sort, Files;
    var kept := WithoutStatus(files, statusFile);
    KeyAllFails(kept, 0);
    var keyed := KeyAll(kept, 0);
    if keyed.Failure? {
      assert Arrange(files, statusFile) == Failure(keyed.error);
    } else {
      assert Arrange(files, statusFile).Success?;
    }
    if (forall c :: c in files && c.name != statusFile ==> GetChunkInfo(c.name).Success?) {
      assert ParsedUpTo(kept, |kept|);
    }
    if ParsedUpTo(kept, |kept|) {
      forall c | c in files && c.name != statusFile
        ensures GetChunkInfo(c.name).Success?
      {
        var k :| 0 <= k < |kept| && kept[k] == c;
      }
    }
  }

  /** On success every chunk file is kept and they are ordered by chunk
      number. */
  lemma ArrangeOrders(files: seq<ChunkFile>, statusFile: string)
    requires Arrange(files, statusFile).Success?
    ensures var r := Arrange(files, statusFile).value;
      multiset(r) == multiset(WithoutStatus(files, statusFile))
      && forall i, j :: 0 <= i < j < |r| ==> KeyOf(r[i]) <= KeyOf(r[j])
  {
    hide GetChunkInfo, KeyOf;
    var kept := WithoutStatus(files, statusFile);
    var keyed := KeyAll(kept, 0);
    assert Arrange(files, statusFile) == Success(Files(Sort(keyed.value)));
    KeyAllShape(kept, 0);
    SortFiles(keyed.value);
    SortedKeys(keyed.value);
  }

  /** Sorting well-keyed entries orders their files by chunk number. */
  lemma SortedKeys(s: seq<Keyed>)
    requires WellKeyed(s) && DistinctIndices(s)
    ensures Ordered(Sort(s))
    ensures forall i, j :: 0 <= i < j < |Sort(s)| ==> KeyOf(Files(Sort(s))[i]) <= KeyOf(Files(Sort(s))[j])
  {
    hide GetChunkInfo, KeyOf;
    var t := Sort(s);
    SortOrdered(s);
    forall i | 0 <= i < |t|
      ensures t[i].key == KeyOf(t[i].file)
    {
      assert t[i] in multiset(s);
    }
  }

  /** The bytes of the files, one after another. */
  function Joined(s: seq<ChunkFile>): seq<Byte> {
    if s == [] then [] else s[0].content + Joined(s[1..])
  }

  function Names(s: seq<ChunkFile>): (r: seq<string>)
    ensures |r| == |s|
    ensures forall i :: 0 <= i < |s| ==> r[i] == s[i].name
  {
    if s == [] then [] else [s[0].name] + Names(s[1..])
  }

  lemma {:induction false} JoinedSnoc(s: seq<ChunkFile>, c: ChunkFile)
    ensures Joined(s + [c]) == Joined(s) + c.content
    decreases |s|
  {
    if s != [] {
      assert (s + [c])[1..] == s[1..] + [c];
      JoinedSnoc(s[1..], c);
      assert s[0].content + (Joined(s[1..]) + c.content) == (s[0].content + Joined(s[1..])) + c.content;
    }
  }

  /** The destination's content and the chunk files deleted, in order. */
  datatype Merged = Merged(content: seq<Byte>, removed: seq<string>)

  /** Merge the chunks: arrange them, then append each chunk's bytes to
      the destination and delete it. */
  method MergeChunks(files: seq<ChunkFile>, statusFile: string) returns (r: Result<Merged, Fault>)
    ensures r.Success? <==> Arrange(files, statusFile).Success?
    ensures r.Failure? ==> r.error == Arrange(files, statusFile).error
    ensures r.Success? ==> r.value.content == Joined(Arrange(files, statusFile).value)
    ensures r.Success? ==> r.value.removed == Names(Arrange(files, statusFile).value)
  {
    hide Arrange;
    var arranged := Arrange(files, statusFile);
    if arranged.Failure? {
      return Failure(arranged.error);
    }
    var order := arranged.value;
    var content: seq<Byte> := [];
    var removed: seq<string> := [];
    var i := 0;
    while i < |order|
      invariant 0 <= i <= |order|
      invariant content == Joined(order[..i])
      invariant removed == Names(order[..i])
    {
      JoinedSnoc(order[..i], order[i]);
      assert order[..i + 1] == order[..i] + [order[i]];
      content := content + order[i].content;
      removed := removed + [order[i].name];
      i := i + 1;
    }
    assert order[..i] == order;
    return Success(Merged(content, removed));
  }

  /** Every chunk file but the status file is deleted by a successful
      merge, and nothing else. */
  lemma EveryChunkRemoved(files: seq<ChunkFile>, statusFile: string)
    requires Arrange(files, statusFile).Success?
    ensures var removed := Names(Arrange(files, statusFile).value);
      |removed| == |WithoutStatus(files, statusFile)|
      && (forall c :: c in files && c.name != statusFile ==> c.name in removed)
      && (forall n :: n in removed ==> n != statusFile)
  {
    ArrangeOrders(files, statusFile);
    hide Arrange;
    var kept := WithoutStatus(files, statusFile);
    NamesOfPermutation(Arrange(files, statusFile).value, kept);
    forall n | n in Names(Arrange(files, statusFile).value)
      ensures n != statusFile
    {
      var c :| c in kept && c.name == n;
    }
  }

  /** The names of a rearrangement are those of the original files: one
      per file, each file's name among them, and each one some file's. */
  lemma NamesOfPermutation(order: seq<ChunkFile>, kept: seq<ChunkFile>)
    requires multiset(order) == multiset(kept)
    ensures |Names(order)| == |kept|
    ensures forall c :: c in kept ==> c.name in Names(order)
    ensures forall n :: n in Names(order) ==> exists c :: c in kept && c.name == n
  {
    var removed := Names(order);
    assert |order| == |multiset(order)| == |kept|;
    forall c | c in kept
      ensures c.name in removed
    {
      assert c in multiset(order);
      var k :| 0 <= k < |order| && order[k] == c;
      assert removed[k] == c.name;
    }
    forall n | n in removed
      ensures exists c :: c in kept && c.name == n
    {
      var k :| 0 <= k < |removed| && removed[k] == n;
      assert order[k] in multiset(kept);
      assert order[k] in kept && order[k].name == n;
    }
  }

  // Properties

  /** Chunks with the same number keep their listing order. */
  lemma SortIsStable(s: seq<Keyed>, i: int, j: int)
    requires DistinctIndices(s)
    requires 0 <= i < j < |Sort(s)| && Sort(s)[i].key == Sort(s)[j].key
    ensures Sort(s)[i].index < Sort(s)[j].index
  {
    SortOrdered(s);
  }

  /** Two sequences with the same elements, the first in non-decreasing
      and the second in strictly increasing order of `f`, are equal. */
  lemma {:induction false} SortedUnique(a: seq<ChunkFile>, b: seq<ChunkFile>, f: ChunkFile -> int)
    requires multiset(a) == multiset(b)
    requires forall i, j :: 0 <= i < j < |a| ==> f(a[i]) <= f(a[j])
    requires forall i, j :: 0 <= i < j < |b| ==> f(b[i]) < f(b[j])
    ensures a == b
    decreases |a|
  {
    assert |a| == |multiset(a)| == |b|;
    if a != [] {
      SortedHeads(a, b, f);
      SortedTails(a, b, f);
      SortedUnique(a[1..], b[1..], f);
      assert a == [a[0]] + a[1..];
      assert b == [b[0]] + b[1..];
    }
  }

  /** Under the conditions of SortedUnique the first elements agree. */
  lemma SortedHeads(a: seq<ChunkFile>, b: seq<ChunkFile>, f: ChunkFile -> int)
    requires multiset(a) == multiset(b) && |a| > 0 && |b| > 0
    requires forall i, j :: 0 <= i < j < |a| ==> f(a[i]) <= f(a[j])
    requires forall i, j :: 0 <= i < j < |b| ==> f(b[i]) < f(b[j])
    ensures a[0] == b[0]
  {
    assert a[0] in multiset(b);
    var j :| 0 <= j < |b| && b[j] == a[0];
    assert b[0] in multiset(a);
    var i :| 0 <= i < |a| && a[i] == b[0];
    assert f(a[0]) <= f(a[i]);
    assert j == 0;
  }

  /** Dropping equal first elements keeps the conditions of SortedUnique. */
  lemma SortedTails(a: seq<ChunkFile>, b: seq<ChunkFile>, f: ChunkFile -> int)
    requires multiset(a) == multiset(b) && |a| > 0 && |b| > 0 && a[0] == b[0]
    requires forall i, j :: 0 <= i < j < |a| ==> f(a[i]) <= f(a[j])
    requires forall i, j :: 0 <= i < j < |b| ==> f(b[i]) < f(b[j])
    ensures multiset(a[1..]) == multiset(b[1..])
    ensures forall i, j :: 0 <= i < j < |a[1..]| ==> f(a[1..][i]) <= f(a[1..][j])
    ensures forall i, j :: 0 <= i < j < |b[1..]| ==> f(b[1..][i]) < f(b[1..][j])
  {
    assert a == [a[0]] + a[1..];
    assert b == [b[0]] + b[1..];
    assert multiset(a) == multiset{a[0]} + multiset(a[1..]);
    assert multiset(b) == multiset{b[0]} + multiset(b[1..]);
    var a', b' := a[1..], b[1..];
    assert multiset(a') == multiset(a) - multiset{a[0]};
    assert multiset(b') == multiset(b) - multiset{b[0]};
    forall i, j | 0 <= i < j < |a'|
      ensures f(a'[i]) <= f(a'[j])
    {
      assert a'[i] == a[i + 1] && a'[j] == a[j + 1];
    }
    forall i, j | 0 <= i < j < |b'|
      ensures f(b'[i]) < f(b'[j])
    {
      assert b'[i] == b[i + 1] && b'[j] == b[j + 1];
    }
  }

  /** The chunks a client sends for the pieces of one file, in the order
      of their numbers, counted from `from`. */
  function InOrder(file: string, pieces: seq<seq<Byte>>, from: int, last: int, ext: string): (r: seq<ChunkFile>)
    ensures |r| == |pieces|
    ensures forall k :: 0 <= k < |pieces| ==> r[k] == ChunkFile(ChunkName(file, from + k, last, ext), pieces[k])
  {
    if pieces == [] then []
    else [ChunkFile(ChunkName(file, from, last, ext), pieces[0])] + InOrder(file, pieces[1..], from + 1, last, ext)
  }

  function Concat(pieces: seq<seq<Byte>>): seq<Byte> {
    if pieces == [] then [] else pieces[0] + Concat(pieces[1..])
  }

  lemma {:induction false} JoinedInOrder(file: string, pieces: seq<seq<Byte>>, from: int, last: int, ext: string)
    ensures Joined(InOrder(file, pieces, from, last, ext)) == Concat(pieces)
    decreases |pieces|
  {
    if pieces != [] {
      JoinedInOrder(file, pieces[1..], from + 1, last, ext);
    }
  }

  /** The chunks of a client's upload parse, and their numbers increase
      strictly along the pieces. */
  lemma InOrderKeys(file: string, pieces: seq<seq<Byte>>, last: int, ext: string)
    requires IsInt32(|pieces|) && IsInt32(last) && '.' !in ext
    ensures var want := InOrder(file, pieces, 0, last, ext);
      forall k :: 0 <= k < |want| ==> GetChunkInfo(want[k].name).Success? && KeyOf(want[k]) == k
  {
    var want := InOrder(file, pieces, 0, last, ext);
    forall k | 0 <= k < |want|
      ensures GetChunkInfo(want[k].name).Success? && KeyOf(want[k]) == k
    {
      ChunkNameRoundTrip(file, k, last, ext);
    }
  }

  /** Whatever order the chunks of a file arrive in, and wherever the
      status file sits in the listing, the chunks are arranged back in the
      order of their pieces, and the merge writes the original bytes. */
  lemma Reassembles(files: seq<ChunkFile>, statusFile: string, file: string, pieces: seq<seq<Byte>>, last: int, ext: string)
    requires IsInt32(|pieces|) && IsInt32(last) && '.' !in ext
    requires multiset(WithoutStatus(files, statusFile)) == multiset(InOrder(file, pieces, 0, last, ext))
    ensures Arrange(files, statusFile) == Success(InOrder(file, pieces, 0, last, ext))
    ensures Joined(Arrange(files, statusFile).value) == Concat(pieces)
  {
    var want := InOrder(file, pieces, 0, last, ext);
    InOrderKeys(file, pieces, last, ext);
    forall c | c in files && c.name != statusFile
      ensures GetChunkInfo(c.name).Success?
    {
      assert c in multiset(want);
    }
    ArrangeFails(files, statusFile);
    ArrangeOrders(files, statusFile);
    var got := Arrange(files, statusFile).value;
    SortedUnique(got, want, KeyOf);
    JoinedInOrder(file, pieces, 0, last, ext);
  }
}
