/** Chunk-name and range parsing for chunked uploads (Helpers/FileHelper.cs).
    A chunk is named `<file>.<no>_<last>.part`: the uploading file name
    may itself hold dots, so the name is cut at the last two dots. A range
    is `start,length,total`. Every fault the platform raises on malformed
    input is modelled: a missing dot is an out-of-range cut, a bad number a
    format or overflow fault, a short range an out-of-range index. */
module FileHelper {
  import opened Wrappers
  import opened Faults
  import opened Strings
  import opened Numbers

  datatype ChunkInfo = ChunkInfo(uploadingFileName: string, currentChunkNo: int, totalChunks: int)

  datatype RangeInfo = RangeInfo(startByte: int, chunkLength: int, totalBytes: int)

  /** The name holds at least two dots. */
  predicate HasTwoDots(s: string) {
    exists i, j :: 0 <= i < j < |s| && s[i] == '.' && s[j] == '.'
  }

  /** The file name, chunk number and chunk count a chunk name carries.
      The count is the number after the last '_' plus one, in unchecked
      32-bit arithmetic; it is parsed before the chunk number, so its fault
      wins when both are malformed. */
  function GetChunkInfo(chunkName: string): (r: Result<ChunkInfo, Fault>)
    ensures r.Failure? ==> r.error == ArgumentOutOfRange || r.error == Format || r.error == Overflow
    ensures r.Success? ==> IsInt32(r.value.currentChunkNo) && IsInt32(r.value.totalChunks)
  {
    var fields :- ChunkFields(chunkName);
    ChunkFrom(fields.0, ParseInt32(fields.1), ParseInt32(fields.2))
  }

  /** The cuts of a chunk name: the text before its last two dots, and the
      first and last '_'-separated fields of the text between them. A name
      with fewer than two dots is cut out of range. */
  function ChunkFields(chunkName: string): (r: Result<(string, string, string), Fault>)
    ensures r.Failure? ==> r.error == ArgumentOutOfRange
  {
    var i := LastIndexOf(chunkName, '.');
    if i < 0 then Failure(ArgumentOutOfRange)
    else
      var fileName := chunkName[..i];
      var j := LastIndexOf(fileName, '.');
      if j < 0 then Failure(ArgumentOutOfRange)
      else
        var fileParts := Split(chunkName, '.');
        DotParts(chunkName, i, j);
        var chunkInfo := Split(fileParts[|fileParts| - 2], '_');
        Success((fileName[..j], chunkInfo[0], chunkInfo[|chunkInfo| - 1]))
  }

  /** The chunk record from the file name and the parses of the two
      numeric fields; the count's fault comes first. */
  function ChunkFrom(name: string, n: Result<int, Fault>, t: Result<int, Fault>): (r: Result<ChunkInfo, Fault>)
    ensures t.Failure? ==> r == Failure(t.error)
    ensures t.Success? && n.Failure? ==> r == Failure(n.error)
    ensures t.Success? && n.Success? ==> r == Success(ChunkInfo(name, n.value, Wrap32(t.value + 1)))
  {
    if t.Failure? then Failure(t.error)
    else if n.Failure? then Failure(n.error)
    else Success(ChunkInfo(name, n.value, Wrap32(t.value + 1)))
  }

  /** Parse every piece, in order, as LINQ's Select followed by ToArray
      does; the first failing piece's fault is the result. */
  function ParseAll(parse: string -> Result<int, Fault>, parts: seq<string>): (r: Result<seq<int>, Fault>)
    ensures r.Success? ==> |r.value| == |parts|
    ensures r.Success? ==> forall i :: 0 <= i < |parts| ==> parse(parts[i]) == Success(r.value[i])
    ensures r.Failure? ==> exists i :: 0 <= i < |parts| && parse(parts[i]) == Failure(r.error)
  {
    if parts == [] then Success([])
    else
      var head :- parse(parts[0]);
      var rest :- ParseAll(parse, parts[1..]);
      assert forall i :: 1 <= i < |parts| ==> parts[i] == parts[1..][i - 1];
      Success([head] + rest)
  }

  /** Start, length and total of a range. Every comma-separated piece is
      parsed before the first three are taken, so a malformed extra piece
      still faults, and fewer than three pieces is an index fault. */
  function GetRangeInfo(range: string): (r: Result<RangeInfo, Fault>)
    ensures r.Failure? ==> r.error == Format || r.error == Overflow || r.error == IndexOutOfRange
    ensures r.Success? ==> IsInt64(r.value.startByte) && IsInt64(r.value.chunkLength) && IsInt64(r.value.totalBytes)
  {
    var rangeParts :- ParseAll(ParseInt64, Split(range, ','));
    if |rangeParts| < 3 then Failure(IndexOutOfRange)
    else Success(RangeInfo(rangeParts[0], rangeParts[1], rangeParts[2]))
  }

  /** The name a client gives chunk `no` of `last + 1`. */
  function ChunkName(file: string, no: int, last: int, ext: string): string {
    file + "." + Show(no) + "_" + Show(last) + "." + ext
  }

  /** The range text a client sends. */
  function RangeText(start: int, length: int, total: int): string {
    Show(start) + "," + Show(length) + "," + Show(total)
  }

  // Properties

  /** The cuts fail exactly when the name has fewer than two dots. */
  lemma ChunkNameNeedsTwoDots(chunkName: string)
    ensures GetChunkInfo(chunkName) == Failure(ArgumentOutOfRange) <==> !HasTwoDots(chunkName)
  {
    var i := LastIndexOf(chunkName, '.');
    if i >= 0 {
      var j := LastIndexOf(chunkName[..i], '.');
      if j < 0 {
        NoSecondDot(chunkName, i);
      } else {
        DotParts(chunkName, i, j);
      }
    }
  }

  lemma NoSecondDot(s: string, i: int)
    requires 0 <= i < |s| && i == LastIndexOf(s, '.') && LastIndexOf(s[..i], '.') < 0
    ensures !HasTwoDots(s)
  {
    forall k | 0 <= k < |s| && k != i
      ensures s[k] != '.'
    {
      if k < i {
        assert s[..i][k] == s[k];
      } else {
        assert s[i + 1..][k - i - 1] == s[k];
      }
    }
  }

  /** With two dots at i (the last) and j (the last before it), the split
      has at least three pieces and its second-to-last is the text between
      them. */
  lemma DotParts(s: string, i: int, j: int)
    requires 0 <= i < |s| && i == LastIndexOf(s, '.')
    requires 0 <= j < i && j == LastIndexOf(s[..i], '.')
    ensures var parts := Split(s, '.');
      |parts| >= 3 && parts[|parts| - 2] == s[j + 1..i]
      && HasTwoDots(s)
  {
    hide Split, IndexOf, LastIndexOf;
    var f := s[..i];
    SplitLast(s, '.');
    SplitLast(f, '.');
    assert '.' in f[..j] ==> |Split(f[..j], '.')| >= 1;
    assert f[j + 1..] == s[j + 1..i];
    assert s[j] == '.';
  }

  /** The text before the first '_' (all of it when there is none). */
  function FirstField(mid: string): string {
    if '_' in mid then mid[..IndexOf(mid, '_')] else mid
  }

  /** The text after the last '_' (all of it when there is none). */
  function LastField(mid: string): string {
    mid[LastIndexOf(mid, '_') + 1..]
  }

  /** A chunk name decomposed at its last two dots: the file name is the
      text before them, the chunk number is the text between them up to
      its first '_', and the count is the text after its last '_', plus
      one; the count's fault comes first. */
  lemma ChunkInfoDecomposed(file: string, mid: string, ext: string)
    requires '.' !in mid && '.' !in ext
    ensures var first, last := FirstField(mid), LastField(mid);
      var r := GetChunkInfo(file + "." + mid + "." + ext);
      && (ParseInt32(last).Failure? ==> r == Failure(ParseInt32(last).error))
      && (ParseInt32(last).Success? && ParseInt32(first).Failure? ==> r == Failure(ParseInt32(first).error))
      && (ParseInt32(last).Success? && ParseInt32(first).Success? ==>
            r == Success(ChunkInfo(file, ParseInt32(first).value, Wrap32(ParseInt32(last).value + 1))))
  {
    hide *;
    var s := file + "." + mid + "." + ext;
    var i := |file| + 1 + |mid|;
    ChunkCuts(file, mid, ext);
    ChunkInfoCut(s, i, |file|);
    var f, m := s[..i][..|file|], s[|file| + 1..i];
    assert GetChunkInfo(s) == ChunkFrom(f, ParseInt32(FirstField(m)), ParseInt32(LastField(m)));
    assert f == file && m == mid;
  }

  /** GetChunkInfo once both cuts are known. */
  lemma ChunkInfoCut(s: string, i: int, j: int)
    requires 0 <= j < i < |s| && LastIndexOf(s, '.') == i && LastIndexOf(s[..i], '.') == j
    ensures var mid := s[j + 1..i];
      GetChunkInfo(s) == ChunkFrom(s[..i][..j], ParseInt32(FirstField(mid)), ParseInt32(LastField(mid)))
  {
    ChunkFieldsCut(s, i, j);
  }

  lemma ChunkFieldsCut(s: string, i: int, j: int)
    requires 0 <= j < i < |s| && LastIndexOf(s, '.') == i && LastIndexOf(s[..i], '.') == j
    ensures var mid := s[j + 1..i];
      ChunkFields(s) == Success((s[..i][..j], FirstField(mid), LastField(mid)))
  {
    hide Split, LastIndexOf, IndexOf, FirstField, LastField;
    var mid := s[j + 1..i];
    Fields(mid);
    DotParts(s, i, j);
  }

  /** The first and last pieces of a split at '_' are the fields. */
  lemma Fields(mid: string)
    ensures var pieces := Split(mid, '_');
      pieces[0] == FirstField(mid) && pieces[|pieces| - 1] == LastField(mid)
  {
    SplitEnds(mid, '_');
  }

  /** The first piece of a split is the text before the first separator,
      and the last piece the text after the last one. */
  lemma SplitEnds(s: string, c: char)
    ensures var parts := Split(s, c);
      && parts[0] == (if c in s then s[..IndexOf(s, c)] else s)
      && parts[|parts| - 1] == s[LastIndexOf(s, c) + 1..]
  {
    SplitLast(s, c);
  }

  /** Where GetChunkInfo cuts a name made of a file name, a middle part and
      an extension. */
  lemma ChunkCuts(file: string, mid: string, ext: string)
    requires '.' !in mid && '.' !in ext
    ensures var s := file + "." + mid + "." + ext;
      var i := |file| + 1 + |mid|;
      var parts := Split(s, '.');
      && LastIndexOf(s, '.') == i
      && LastIndexOf(s[..i], '.') == |file|
      && s[..i][..|file|] == file
      && |parts| >= 3 && parts[|parts| - 2] == mid
      && s[|file| + 1..i] == mid
  {
    hide Split, IndexOf, LastIndexOf;
    var s := file + "." + mid + "." + ext;
    var i := |file| + 1 + |mid|;
    assert s == (file + "." + mid) + ['.'] + ext;
    assert s[..i] == file + ['.'] + mid;
    LastIndexOfSnoc(file + "." + mid, '.', ext);
    LastIndexOfSnoc(file, '.', mid);
    DotParts(s, i, |file|);
    assert s[|file| + 1..i] == mid;
  }

  lemma LastIndexOfSnoc(a: string, c: char, b: string)
    requires c !in b
    ensures LastIndexOf(a + [c] + b, c) == |a|
  {
    var s := a + [c] + b;
    assert s[|a|] == c;
    assert s[|a| + 1..] == b;
  }

  /** A chunk name built the client's way parses back to its parts. */
  lemma ChunkNameRoundTrip(file: string, no: int, last: int, ext: string)
    requires IsInt32(no) && IsInt32(last) && '.' !in ext
    ensures GetChunkInfo(ChunkName(file, no, last, ext)) == Success(ChunkInfo(file, no, Wrap32(last + 1)))
  {
    hide Split, IndexOf, LastIndexOf, GetChunkInfo, ChunkFields, FirstField, LastField, Show, ParseTrimmed;
    var mid := Show(no) + "_" + Show(last);
    MiddleFields(no, last);
    assert ChunkName(file, no, last, ext) == file + "." + mid + "." + ext;
    ChunkInfoDecomposed(file, mid, ext);
    ParseShow(no, Int32Min, Int32Max);
    ParseShow(last, Int32Min, Int32Max);
  }

  /** The text a client puts between the last two dots: two decimal
      numbers joined by '_', whose fields are the two numbers. */
  lemma MiddleFields(no: int, last: int)
    ensures var a, b := Show(no), Show(last);
      var mid := a + "_" + b;
      '.' !in mid && FirstField(mid) == a && LastField(mid) == b
  {
    var a, b := Show(no), Show(last);
    var mid := a + "_" + b;
    ShowChars(no);
    ShowChars(last);
    assert mid == a + ['_'] + b;
    IndexAfter(a, '_', b);
    LastIndexOfSnoc(a, '_', b);
    assert mid[|a| + 1..] == b;
  }

  /** The characters of a decimal form: digits and a leading '-'. */
  lemma ShowChars(n: int)
    ensures forall k :: 0 <= k < |Show(n)| ==> IsDigit(Show(n)[k]) || (k == 0 && Show(n)[k] == '-')
    ensures '.' !in Show(n) && '_' !in Show(n) && ',' !in Show(n)
  {
    var s := Show(n);
    forall k | 0 <= k < |s|
      ensures IsDigit(s[k]) || (k == 0 && s[k] == '-')
    {
      if n < 0 && k > 0 {
        assert s[k] == ShowNat(-n)[k - 1];
      }
    }
  }

  /** So does the chunk count when the last index is the 32-bit maximum:
      the count wraps to the minimum. */
  lemma ChunkCountWraps(file: string, no: int, ext: string)
    requires IsInt32(no) && '.' !in ext
    ensures GetChunkInfo(ChunkName(file, no, Int32Max, ext)) == Success(ChunkInfo(file, no, Int32Min))
  {
    ChunkNameRoundTrip(file, no, Int32Max, ext);
    Wrap32Range(Int32Max + 1);
  }

  /** A range built the client's way parses back to its numbers. */
  lemma RangeRoundTrip(start: int, length: int, total: int)
    requires IsInt64(start) && IsInt64(length) && IsInt64(total)
    ensures GetRangeInfo(RangeText(start, length, total)) == Success(RangeInfo(start, length, total))
  {
    hide Split, IndexOf, LastIndexOf, Show, ParseInt64;
    var a, b, c := Show(start), Show(length), Show(total);
    RangePieces(start, length, total);
    ParseInt64Show(start);
    ParseInt64Show(length);
    ParseInt64Show(total);
    ParseAllThree(ParseInt64, a, b, c);
  }

  lemma ParseInt64Show(n: int)
    requires IsInt64(n)
    ensures ParseInt64(Show(n)) == Success(n)
  {
    ParseShow(n, Int64Min, Int64Max);
  }

  /** The comma-separated pieces of a client's range text. */
  lemma RangePieces(start: int, length: int, total: int)
    ensures Split(RangeText(start, length, total), ',') == [Show(start), Show(length), Show(total)]
  {
    var a, b, c := Show(start), Show(length), Show(total);
    ShowChars(start);
    ShowChars(length);
    ShowChars(total);
    assert RangeText(start, length, total) == (a + [','] + b) + [','] + c;
    SplitSnoc(a + [','] + b, ',', c);
    SplitSnoc(a, ',', b);
    assert Split(a, ',') == [a];
  }

  lemma ParseAllThree(parse: string -> Result<int, Fault>, x: string, y: string, z: string)
    requires parse(x).Success? && parse(y).Success? && parse(z).Success?
    ensures ParseAll(parse, [x, y, z]) == Success([parse(x).value, parse(y).value, parse(z).value])
  {
    var u, v, w := parse(x).value, parse(y).value, parse(z).value;
    assert [z][1..] == [];
    assert ParseAll(parse, []) == Success([]);
    assert ParseAll(parse, [z]) == Success([w] + []);
    assert [w] + [] == [w];
    assert [y, z][1..] == [z];
    assert ParseAll(parse, [y, z]) == Success([v] + [w]);
    assert [v] + [w] == [v, w];
    assert [x, y, z][1..] == [y, z];
    assert ParseAll(parse, [x, y, z]) == Success([u] + [v, w]);
    assert [u] + [v, w] == [u, v, w];
  }

  /** Extra numeric pieces after the third are ignored. */
  lemma RangeExtraIgnored(range: string, n: int)
    requires GetRangeInfo(range).Success? && IsInt64(n)
    ensures GetRangeInfo(range + "," + Show(n)) == GetRangeInfo(range)
  {
    var x := Show(n);
    ShowChars(n);
    SplitSnoc(range, ',', x);
    var parts := Split(range, ',');
    assert Split(range + "," + x, ',') == parts + [x];
    ParseShow(n, Int64Min, Int64Max);
    ParseAllSnoc(ParseInt64, parts, x);
  }

  lemma {:induction false} ParseAllSnoc(parse: string -> Result<int, Fault>, parts: seq<string>, x: string)
    requires ParseAll(parse, parts).Success? && parse(x).Success?
    ensures ParseAll(parse, parts + [x]) == Success(ParseAll(parse, parts).value + [parse(x).value])
  {
    var v := parse(x).value;
    var xs := parts + [x];
    if parts == [] {
      assert xs == [x] && xs[1..] == [];
      assert ParseAll(parse, xs) == Success([v] + []);
      assert [v] + [] == [v] && [] + [v] == [v];
    } else {
      assert xs[0] == parts[0];
      assert xs[1..] == parts[1..] + [x];
      ParseAllSnoc(parse, parts[1..], x);
      var h := parse(parts[0]).value;
      var t := ParseAll(parse, parts[1..]).value;
      assert [h] + (t + [v]) == ([h] + t) + [v];
    }
  }

  /** ParseAll succeeds exactly when every piece parses; otherwise its
      fault is that of the first piece that does not. */
  lemma {:induction false} ParseAllSpec(parse: string -> Result<int, Fault>, parts: seq<string>)
    ensures ParseAll(parse, parts).Success? <==> forall i :: 0 <= i < |parts| ==> parse(parts[i]).Success?
    ensures ParseAll(parse, parts).Failure? ==>
      exists i :: 0 <= i < |parts| && parse(parts[i]) == Failure(ParseAll(parse, parts).error)
        && forall j :: 0 <= j < i ==> parse(parts[j]).Success?
  {
    if parts != [] {
      ParseAllSpec(parse, parts[1..]);
      var r := ParseAll(parse, parts);
      if r.Failure? {
        if parse(parts[0]).Failure? {
          assert parse(parts[0]) == Failure(r.error);
        } else {
          var rest := parts[1..];
          var k :| 0 <= k < |rest| && parse(rest[k]) == Failure(r.error)
            && forall j :: 0 <= j < k ==> parse(rest[j]).Success?;
          assert parts[k + 1] == rest[k];
          forall j | 0 <= j < k + 1
            ensures parse(parts[j]).Success?
          {
            if j > 0 {
              assert parts[j] == rest[j - 1];
            }
          }
        }
      } else {
        assert parse(parts[0]).Success?;
      }
    }
  }

  /** GetRangeInfo against the comma-separated pieces: it succeeds
      exactly when every piece parses and there are at least three, with
      the first three values; when every piece parses but there are fewer
      than three it is an index fault; otherwise it is the fault of the
      first piece that does not parse. */
  lemma RangeInfoSpec(range: string)
    ensures var parts := Split(range, ',');
      var r := GetRangeInfo(range);
      var allParse := forall i :: 0 <= i < |parts| ==> ParseInt64(parts[i]).Success?;
      && (r.Success? <==> allParse && |parts| >= 3)
      && (r.Success? ==>
            ParseInt64(parts[0]) == Success(r.value.startByte)
            && ParseInt64(parts[1]) == Success(r.value.chunkLength)
            && ParseInt64(parts[2]) == Success(r.value.totalBytes))
      && (r == Failure(IndexOutOfRange) <==> allParse && |parts| < 3)
      && (!allParse ==>
            exists i :: 0 <= i < |parts| && ParseInt64(parts[i]).Failure? && r == Failure(ParseInt64(parts[i]).error)
              && forall j :: 0 <= j < i ==> ParseInt64(parts[j]).Success?)
  {
    hide Split, IndexOf, LastIndexOf, Parse;
    var parts := Split(range, ',');
    ParseAllSpec(ParseInt64, parts);
  }
}
