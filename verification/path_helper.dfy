/** Full-path resolution and the containment check of the file-system
    driver (Drivers.FileSystem/Helpers/PathHelper.cs), on a Unix-like
    platform: both separator characters are '/', full paths start at the
    root, and relative paths resolve from the root. */
module PathHelper {
  import opened Wrappers
  import opened Faults
  import opened Strings

  const DirectorySeparatorChar: char := '/'
  const AltDirectorySeparatorChar: char := '/'
  const SeparatorChars: set<char> := {DirectorySeparatorChar, AltDirectorySeparatorChar}

  predicate IsSeparator(c: char) {
    c in SeparatorChars
  }

  // Path.Join

  /** One step of Path.Join: an empty part is skipped, and a separator is
      inserted only when neither side already has one at the seam. */
  function JoinTwo(acc: string, part: string): (r: string)
    ensures part == "" ==> r == acc
    ensures acc == "" ==> r == part
  {
    if part == "" then acc
    else if acc == "" then part
    else if IsSeparator(acc[|acc| - 1]) || IsSeparator(part[0]) then acc + part
    else acc + [DirectorySeparatorChar] + part
  }

  function JoinFrom(acc: string, parts: seq<string>): string
    decreases |parts|
  {
    if parts == [] then acc else JoinFrom(JoinTwo(acc, parts[0]), parts[1..])
  }

  /** Path.Join over the argument array. */
  function Join(parts: seq<string>): string {
    JoinFrom("", parts)
  }

  // Path.GetFullPath

  /** A segment of a canonical full path. */
  predicate ValidSegment(s: string) {
    s != "" && s != "." && s != ".." && DirectorySeparatorChar !in s
  }

  predicate ValidSegments(segs: seq<string>) {
    forall i :: 0 <= i < |segs| ==> ValidSegment(segs[i])
  }

  predicate NoNul(parts: seq<string>) {
    forall i :: 0 <= i < |parts| ==> NulChar !in parts[i]
  }

  /** One piece of a path applied to the directory stack: empty pieces and
      "." stay, ".." climbs one level but never above the root, anything
      else descends. */
  function Step(stack: seq<string>, piece: string): (r: seq<string>)
    requires DirectorySeparatorChar !in piece
    ensures ValidSegments(stack) ==> ValidSegments(r)
    ensures NoNul(stack) && NulChar !in piece ==> NoNul(r)
    ensures |r| <= |stack| + 1
  {
    if piece == "" || piece == "." then stack
    else if piece == ".." then (if stack == [] then [] else stack[..|stack| - 1])
    else stack + [piece]
  }

  function Walk(stack: seq<string>, pieces: seq<string>): (r: seq<string>)
    requires forall i :: 0 <= i < |pieces| ==> DirectorySeparatorChar !in pieces[i]
    ensures ValidSegments(stack) ==> ValidSegments(r)
    ensures NoNul(stack) && NoNul(pieces) ==> NoNul(r)
    ensures |r| <= |stack| + |pieces|
    decreases |pieces|
  {
    if pieces == [] then stack else Walk(Step(stack, pieces[0]), pieces[1..])
  }

  /** The canonical segments a path names. */
  function Resolve(path: string): (segs: seq<string>)
    ensures ValidSegments(segs)
    ensures NulChar !in path ==> NoNul(segs)
  {
    SplitChars(path, DirectorySeparatorChar);
    Walk([], Split(path, DirectorySeparatorChar))
  }

  /** "/a/b" for [a, b]; the empty string for no segments. */
  function Body(segs: seq<string>): string {
    if segs == [] then "" else [DirectorySeparatorChar] + segs[0] + Body(segs[1..])
  }

  /** The text of a full path: the root alone is "/", and a trailing
      separator is kept on request. */
  function Render(segs: seq<string>, trailing: bool): string {
    if segs == [] then [DirectorySeparatorChar]
    else Body(segs) + (if trailing then [DirectorySeparatorChar] else "")
  }

  predicate EndsWithSeparator(path: string) {
    |path| > 0 && IsSeparator(path[|path| - 1])
  }

  /** Path.GetFullPath: an empty path or one holding NUL is an argument
      fault; otherwise the canonical full path, which keeps a trailing
      separator the input had. */
  function GetFullPath(path: string): (r: Result<string, Fault>)
    ensures r.Failure? <==> path == "" || NulChar in path
    ensures r.Failure? ==> r.error == OtherArgument
    ensures r.Success? ==> |r.value| > 0 && r.value[0] == DirectorySeparatorChar
  {
    if path == "" || NulChar in path then Failure(OtherArgument)
    else Success(Render(Resolve(path), EndsWithSeparator(path)))
  }

  /** NormalizePath: every trailing separator removed. */
  function NormalizePath(fullPath: string): (r: string)
    ensures r <= fullPath
    ensures !EndsWithSeparator(r)
    ensures forall i :: |r| <= i < |fullPath| ==> IsSeparator(fullPath[i])
  {
    TrimEnd(fullPath, SeparatorChars)
  }

  function GetFullPathNormalized(path: string): Result<string, Fault> {
    var full :- GetFullPath(path);
    Success(NormalizePath(full))
  }

  /** String.Replace of one character by another. */
  function ReplaceChar(s: string, from: char, to: char): (r: string)
    ensures |r| == |s|
    ensures forall i :: 0 <= i < |s| ==> r[i] == if s[i] == from then to else s[i]
  {
    seq(|s|, i requires 0 <= i < |s| => if s[i] == from then to else s[i])
  }

  /** SafelyCombine: resolve the joined parts, then demand that the result
      starts with the parent, trailing separators trimmed, plus one
      separator. The parent itself is not joined in; callers pass it again
      among the parts. */
  function SafelyCombine(fromParent: string, paths: seq<string>): (r: Result<string, Fault>)
    ensures r.Success? ==> r == GetFullPath(Join(paths))
    ensures r.Failure? && GetFullPath(Join(paths)).Success? && GetFullPath(fromParent).Success? ==>
      r.error == Raise(PermissionDeniedKind)
  {
    var full :- GetFullPath(Join(paths));
    var finalPath := ReplaceChar(full, AltDirectorySeparatorChar, DirectorySeparatorChar);
    ReplaceSame(full, DirectorySeparatorChar);
    var parent :- GetFullPath(fromParent);
    if !(NormalizePath(parent) + [DirectorySeparatorChar] <= finalPath) then
      Failure(Raise(PermissionDeniedKind))
    else
      Success(finalPath)
  }

  /** Replacing a character by itself changes nothing; on this platform
      the two separators coincide, so SafelyCombine's replacement is the
      identity. */
  lemma ReplaceSame(s: string, c: char)
    ensures ReplaceChar(s, c, c) == s
  {
  }

  /** Segment-level containment: strictly below the parent, or the parent
      itself when the combined path keeps a trailing separator or is the
      root. */
  predicate Inside(f: seq<string>, trailing: bool, p: seq<string>) {
    (|f| > |p| && f[..|p|] == p) || (f == p && (trailing || f == []))
  }

  // Lemmas about rendering

  lemma BodyShape(segs: seq<string>)
    requires ValidSegments(segs)
    ensures segs != [] ==> |Body(segs)| >= 2 && Body(segs)[0] == DirectorySeparatorChar
    ensures segs != [] ==> Body(segs)[|Body(segs)| - 1] != DirectorySeparatorChar
  {
    if segs != [] && segs[1..] != [] {
      BodyShape(segs[1..]);
    }
  }

  /** A path without a trailing separator normalises to its body. */
  lemma NormalizeRender(segs: seq<string>, trailing: bool)
    requires ValidSegments(segs)
    ensures NormalizePath(Render(segs, trailing)) == Body(segs)
  {
    BodyShape(segs);
    if segs != [] {
      var b := Body(segs);
      if trailing {
        assert Render(segs, trailing) == b + [DirectorySeparatorChar];
        assert Render(segs, trailing)[..|b|] == b;
      }
    }
  }

  /** The separator-joined form of the segments. */
  lemma BodyIsJoin(segs: seq<string>)
    requires segs != []
    ensures Body(segs) == JoinWith([""] + segs, DirectorySeparatorChar)
  {
    if |segs| > 1 {
      BodyIsJoin(segs[1..]);
      assert ([""] + segs)[1..] == segs;
      assert ([""] + segs[1..])[1..] == segs[1..];
    } else {
      assert ([""] + segs)[1..] == segs;
    }
  }

  lemma WalkAppend(stack: seq<string>, a: seq<string>, b: seq<string>)
    requires forall i :: 0 <= i < |a| ==> DirectorySeparatorChar !in a[i]
    requires forall i :: 0 <= i < |b| ==> DirectorySeparatorChar !in b[i]
    ensures forall i :: 0 <= i < |a + b| ==> DirectorySeparatorChar !in (a + b)[i]
    ensures Walk(stack, a + b) == Walk(Walk(stack, a), b)
    decreases |a|
  {
    if a != [] {
      assert (a + b)[0] == a[0];
      assert (a + b)[1..] == a[1..] + b;
      WalkAppend(Step(stack, a[0]), a[1..], b);
      assert Walk(stack, a + b) == Walk(Step(stack, a[0]), a[1..] + b);
      assert Walk(stack, a) == Walk(Step(stack, a[0]), a[1..]);
    } else {
      assert a + b == b;
    }
  }

  /** Walking valid segments descends into each of them. */
  lemma WalkSegments(stack: seq<string>, segs: seq<string>)
    requires ValidSegments(segs)
    ensures Walk(stack, segs) == stack + segs
    decreases |segs|
  {
    if segs != [] {
      WalkSegments(stack + [segs[0]], segs[1..]);
      assert stack + [segs[0]] + segs[1..] == stack + segs;
    }
  }

  /** The pieces of a rendered full path. */
  lemma SplitRender(segs: seq<string>, trailing: bool)
    requires ValidSegments(segs)
    ensures Split(Render(segs, trailing), DirectorySeparatorChar) ==
      if segs == [] then ["", ""]
      else [""] + segs + (if trailing then [""] else [])
  {
    var sep := DirectorySeparatorChar;
    if segs == [] {
      assert Render(segs, trailing) == JoinWith(["", ""], sep);
      SplitJoin(["", ""], sep);
    } else {
      var parts := [""] + segs + (if trailing then [""] else []);
      BodyIsJoin(segs);
      if trailing {
        JoinWithSnoc([""] + segs, "", sep);
      } else {
        assert parts == [""] + segs;
      }
      assert Render(segs, trailing) == JoinWith(parts, sep);
      SplitJoin(parts, sep);
    }
  }

  lemma JoinWithSnoc(parts: seq<string>, last: string, c: char)
    requires |parts| >= 1
    ensures JoinWith(parts + [last], c) == JoinWith(parts, c) + [c] + last
    decreases |parts|
  {
    if |parts| > 1 {
      assert (parts + [last])[1..] == parts[1..] + [last];
      JoinWithSnoc(parts[1..], last, c);
    } else {
      assert (parts + [last])[1..] == [last];
    }
  }

  /** Resolving a rendered full path gives its segments back. */
  lemma ResolveRender(segs: seq<string>, trailing: bool)
    requires ValidSegments(segs)
    ensures Resolve(Render(segs, trailing)) == segs
  {
    SplitRender(segs, trailing);
    var pieces := Split(Render(segs, trailing), DirectorySeparatorChar);
    if segs == [] {
      assert Walk([], pieces) == Walk(Step([], ""), [""]);
    } else {
      var tail: seq<string> := if trailing then [""] else [];
      assert pieces == [""] + segs + tail;
      WalkAppend([], [""] + segs, tail);
      WalkAppend([], [""], segs);
      WalkSegments([], segs);
      assert Walk([], [""]) == [];
      assert Walk(segs, tail) == segs;
    }
  }

  /** Resolution is idempotent: a full path is its own full path. */
  lemma GetFullPathIdempotent(path: string)
    requires GetFullPath(path).Success?
    ensures GetFullPath(GetFullPath(path).value) == GetFullPath(path)
  {
    var segs := Resolve(path);
    var t := EndsWithSeparator(path);
    var full := Render(segs, t);
    ResolveRender(segs, t);
    BodyShape(segs);
    assert NulChar !in full by {
      RenderChars(segs, t);
    }
    if segs != [] {
      assert EndsWithSeparator(full) == t;
    }
  }

  lemma RenderChars(segs: seq<string>, trailing: bool)
    requires ValidSegments(segs)
    requires NoNul(segs)
    ensures NulChar !in Render(segs, trailing)
  {
    BodyChars(segs);
  }

  lemma BodyChars(segs: seq<string>)
    requires NoNul(segs)
    ensures NulChar !in Body(segs)
  {
    if segs != [] {
      BodyChars(segs[1..]);
    }
  }

  // The containment check

  /** One segment followed by a separator-led rest is a prefix of another
      such exactly when the segments agree and the rests are prefixes. */
  lemma SegmentPrefix(p: string, f: string, x: string, y: string)
    requires p != "" && f != ""
    requires DirectorySeparatorChar !in p && DirectorySeparatorChar !in f
    requires |x| > 0 && x[0] == DirectorySeparatorChar
    requires y == [] || y[0] == DirectorySeparatorChar
    ensures p + x <= f + y <==> p == f && x <= y
  {
    if p + x <= f + y {
      assert p == (p + x)[..|p|] == (f + y)[..|f|] == f;
      assert x == (p + x)[|p|..];
      assert y == (f + y)[|f|..];
    }
  }

  /** The heart of the check: the parent's body plus a separator is a
      prefix of a candidate's body plus an optional separator exactly when
      the candidate's segments extend the parent's strictly, or equal them
      and the separator is there. */
  lemma {:induction false} BodyPrefix(p: seq<string>, f: seq<string>, tail: string)
    requires ValidSegments(p) && ValidSegments(f)
    requires tail == "" || tail == [DirectorySeparatorChar]
    ensures Body(p) + [DirectorySeparatorChar] <= Body(f) + tail <==>
      (|f| > |p| && f[..|p|] == p) || (f == p && tail != "")
    decreases |p|
  {
    var sep := [DirectorySeparatorChar];
    if p == [] {
      assert Body(p) + sep == sep;
      if f != [] {
        assert (Body(f) + tail)[0] == DirectorySeparatorChar;
        assert f[..0] == p;
      }
    } else if f == [] {
      assert |Body(f) + tail| <= 1;
      assert |Body(p) + sep| >= 2;
    } else {
      BodyPrefix(p[1..], f[1..], tail);
      BodyPrefixStep(p, f, tail);
      SegmentsCons(p, f);
    }
  }

  /** Peeling the first segment off both sides: the prefix test holds
      exactly when the first segments agree and it holds for the rests. */
  lemma BodyPrefixStep(p: seq<string>, f: seq<string>, tail: string)
    requires p != [] && f != []
    requires ValidSegments(p) && ValidSegments(f)
    requires tail == "" || tail == [DirectorySeparatorChar]
    ensures Body(p) + [DirectorySeparatorChar] <= Body(f) + tail <==>
      p[0] == f[0] && Body(p[1..]) + [DirectorySeparatorChar] <= Body(f[1..]) + tail
  {
    hide Body, ValidSegments;
    var sep := [DirectorySeparatorChar];
    var x := Body(p[1..]) + sep;
    var y := Body(f[1..]) + tail;
    Peel(p, sep);
    Peel(f, tail);
    PrefixCons(sep, p[0] + x, f[0] + y);
    SegmentPrefix(p[0], f[0], x, y);
  }

  /** A body with an optional trailing separator, as its first segment
      after a separator and then the rest. */
  lemma Peel(segs: seq<string>, t: string)
    requires segs != [] && ValidSegments(segs)
    requires t == "" || t == [DirectorySeparatorChar]
    ensures var y := Body(segs[1..]) + t;
      && Body(segs) + t == [DirectorySeparatorChar] + (segs[0] + y)
      && (y == [] || y[0] == DirectorySeparatorChar)
      && (t != "" ==> |y| > 0)
      && segs[0] != "" && DirectorySeparatorChar !in segs[0]
  {
    var rest := segs[1..];
    assert ValidSegment(segs[0]);
    assert ValidSegments(rest) by {
      forall i | 0 <= i < |rest|
        ensures ValidSegment(rest[i])
      {
        assert rest[i] == segs[i + 1];
      }
    }
    BodyShape(rest);
    var y := Body(rest) + t;
    assert Body(segs) == [DirectorySeparatorChar] + segs[0] + Body(rest);
    assert Body(segs) + t == [DirectorySeparatorChar] + (segs[0] + y);
    if rest != [] {
      assert y[0] == Body(rest)[0];
    } else {
      assert y == t;
    }
  }

  lemma PrefixCons(c: string, a: string, b: string)
    ensures c + a <= c + b <==> a <= b
  {
    if c + a <= c + b {
      assert a == (c + a)[|c|..] && b == (c + b)[|c|..];
    }
  }

  lemma SegmentsCons(p: seq<string>, f: seq<string>)
    requires p != [] && f != []
    ensures (|f| > |p| && f[..|p|] == p) <==>
      (p[0] == f[0] && |f[1..]| > |p[1..]| && f[1..][..|p[1..]|] == p[1..])
    ensures f == p <==> (p[0] == f[0] && f[1..] == p[1..])
  {
    if p[0] == f[0] && f[1..] == p[1..] {
      assert p == [p[0]] + p[1..] && f == [f[0]] + f[1..];
    }
    if p[0] == f[0] && |f[1..]| > |p[1..]| && f[1..][..|p[1..]|] == p[1..] {
      assert f[..|p|] == [f[0]] + f[1..][..|p[1..]|];
      assert p == [p[0]] + p[1..];
    }
    if |f| > |p| && f[..|p|] == p {
      assert f[1..][..|p[1..]|] == f[..|p|][1..];
    }
  }

  /** SafelyCombine succeeds exactly when the resolved combined path lies
      inside the resolved parent, and then returns the resolved path. */
  lemma SafelyCombineInside(fromParent: string, paths: seq<string>)
    requires GetFullPath(Join(paths)).Success? && GetFullPath(fromParent).Success?
    ensures var j := Join(paths);
      SafelyCombine(fromParent, paths).Success? <==>
        Inside(Resolve(j), EndsWithSeparator(j), Resolve(fromParent))
  {
    var j := Join(paths);
    var f, t := Resolve(j), EndsWithSeparator(j);
    var p := Resolve(fromParent);
    var full := Render(f, t);
    assert ReplaceChar(full, AltDirectorySeparatorChar, DirectorySeparatorChar) == full;
    NormalizeRender(p, EndsWithSeparator(fromParent));
    var prefix := Body(p) + [DirectorySeparatorChar];
    if f == [] {
      BodyShape(p);
      assert full == [DirectorySeparatorChar];
      if p != [] {
        assert |prefix| > |full|;
      }
    } else {
      var tail: string := if t then [DirectorySeparatorChar] else "";
      assert full == Body(f) + tail;
      BodyPrefix(p, f, tail);
    }
  }

  /** A parent written with trailing separators combines like the same
      parent written without them. */
  lemma ParentTrailingSeparator(fromParent: string, paths: seq<string>)
    requires fromParent != ""
    ensures SafelyCombine(fromParent + [DirectorySeparatorChar], paths) == SafelyCombine(fromParent, paths)
  {
    var sep := DirectorySeparatorChar;
    var q := fromParent + [sep];
    assert NulChar in q <==> NulChar in fromParent;
    if NulChar !in fromParent {
      ResolveSnocSeparator(fromParent);
      NormalizeRender(Resolve(fromParent), EndsWithSeparator(fromParent));
      NormalizeRender(Resolve(q), EndsWithSeparator(q));
    }
  }

  lemma ResolveSnocSeparator(path: string)
    ensures Resolve(path + [DirectorySeparatorChar]) == Resolve(path)
  {
    var sep := DirectorySeparatorChar;
    var pieces := Split(path, sep);
    JoinSplit(path, sep);
    JoinWithSnoc(pieces, "", sep);
    assert JoinWith(pieces + [""], sep) == path + [sep];
    SplitJoin(pieces + [""], sep);
    WalkAppend([], pieces, [""]);
  }

  /** The text Path.Join builds for a parent, "..", and a name. */
  lemma JoinClimb(p: seq<string>, name: string)
    requires p != [] && ValidSegments(p)
    requires DirectorySeparatorChar !in name
    ensures var pieces := [""] + p + [".."] + (if name == "" then [] else [name]);
      Join([Render(p, false), "..", name]) == JoinWith(pieces, DirectorySeparatorChar)
  {
    var sep := DirectorySeparatorChar;
    var parent := Render(p, false);
    BodyShape(p);
    assert parent == Body(p);
    var up := parent + [sep] + "..";
    var args := [parent, "..", name];
    assert args[1..] == ["..", name] && args[1..][1..] == [name];
    assert JoinTwo("", parent) == parent;
    assert JoinTwo(parent, "..") == up;
    assert Join(args) == JoinFrom(parent, ["..", name]);
    assert Join(args) == JoinFrom(up, [name]);
    assert [name][1..] == [];
    assert JoinFrom(up, [name]) == JoinFrom(JoinTwo(up, name), []);
    assert Join(args) == JoinTwo(up, name);
    BodyIsJoin(p);
    JoinWithSnoc([""] + p, "..", sep);
    if name != "" {
      JoinWithSnoc([""] + p + [".."], name, sep);
    } else {
      assert [""] + p + [".."] + [] == [""] + p + [".."];
    }
  }

  /** Where the parent, "..", and a name resolve to: the parent's parent,
      then the name. */
  lemma ResolveClimb(p: seq<string>, name: string)
    requires p != [] && ValidSegments(p)
    requires DirectorySeparatorChar !in name
    ensures var pieces := [""] + p + [".."] + (if name == "" then [] else [name]);
      (forall i :: 0 <= i < |pieces| ==> DirectorySeparatorChar !in pieces[i])
      && Walk([], pieces) == Walk(p[..|p| - 1], if name == "" then [] else [name])
  {
    var last: seq<string> := if name == "" then [] else [name];
    var pieces := [""] + p + [".."] + last;
    assert pieces == ([""] + p) + ([".."] + last);
    WalkAppend([], [""] + p, [".."] + last);
    WalkAppend([], [""], p);
    WalkSegments([], p);
    assert Walk([], [""]) == [];
    assert Walk([], [""] + p) == p;
    assert ([".."] + last)[0] == ".." && ([".."] + last)[1..] == last;
    assert Walk(p, [".."] + last) == Walk(Step(p, ".."), last);
  }

  /** Climbing out of the parent with ".." always faults, whatever single
      name follows. */
  lemma ClimbOutFaults(p: seq<string>, name: string)
    requires p != [] && ValidSegments(p) && NoNul(p)
    requires NulChar !in name && DirectorySeparatorChar !in name
    ensures SafelyCombine(Render(p, false), [Render(p, false), "..", name]).Failure?
  {
    var parent := Render(p, false);
    var j := Join([parent, "..", name]);
    ClimbResolved(p, name);
    ResolveRender(p, false);
    RenderChars(p, false);
    assert parent != "" && GetFullPath(parent).Success?;
    var args := [parent, "..", name];
    assert |Resolve(j)| <= |p|;
    assert j != "" by {
      JoinClimb(p, name);
    }
    assert GetFullPath(j).Success?;
    assert !Inside(Resolve(j), EndsWithSeparator(j), p);
    SafelyCombineInside(parent, args);
  }

  /** Containment is strict: combining the parent with nothing below it
      faults. */
  lemma CombineParentItself(p: seq<string>)
    requires p != [] && ValidSegments(p) && NoNul(p)
    ensures SafelyCombine(Render(p, false), [Render(p, false)]).Failure?
  {
    var parent := Render(p, false);
    ResolveRender(p, false);
    RenderChars(p, false);
    BodyShape(p);
    assert [parent][1..] == [];
    assert Join([parent]) == JoinFrom(JoinTwo("", parent), []) == parent;
    assert !EndsWithSeparator(parent);
    SafelyCombineInside(parent, [parent]);
  }

  /** The joined climb is a valid path without a trailing separator that
      names no more segments than the parent. */
  lemma ClimbResolved(p: seq<string>, name: string)
    requires p != [] && ValidSegments(p) && NoNul(p)
    requires NulChar !in name && DirectorySeparatorChar !in name
    ensures var j := Join([Render(p, false), "..", name]);
      NulChar !in j && !EndsWithSeparator(j) && |Resolve(j)| <= |p|
  {
    var sep := DirectorySeparatorChar;
    var last: seq<string> := if name == "" then [] else [name];
    var pieces := [""] + p + [".."] + last;
    var j := Join([Render(p, false), "..", name]);
    JoinClimb(p, name);
    ResolveClimb(p, name);
    SplitJoin(pieces, sep);
    var w := Walk(p[..|p| - 1], last);
    assert Resolve(j) == w;
    assert |w| <= |p|;
    ClimbPieces(p, last);
    JoinWithChars(pieces, sep);
    JoinWithLast(pieces, sep);
  }

  /** The pieces of a climb out of the parent hold no NUL and do not end
      empty. */
  lemma ClimbPieces(p: seq<string>, last: seq<string>)
    requires NoNul(p) && NoNul(last) && |last| <= 1
    requires last != [] ==> last[0] != ""
    ensures var pieces := [""] + p + [".."] + last;
      NoNul(pieces) && pieces[|pieces| - 1] != ""
  {
    var pieces := [""] + p + [".."] + last;
    forall i | 0 <= i < |pieces|
      ensures NulChar !in pieces[i]
    {
      if 1 <= i <= |p| {
        assert pieces[i] == p[i - 1];
      } else if i > |p| + 1 {
        assert pieces[i] == last[0];
      }
    }
  }

  lemma JoinWithChars(parts: seq<string>, c: char)
    requires |parts| >= 1 && NoNul(parts) && c != NulChar
    ensures NulChar !in JoinWith(parts, c)
  {
    if |parts| > 1 {
      JoinWithChars(parts[1..], c);
    }
  }

  lemma JoinWithLast(parts: seq<string>, c: char)
    requires |parts| >= 1 && parts[|parts| - 1] != ""
    ensures var s := JoinWith(parts, c);
      |s| > 0 && s[|s| - 1] == parts[|parts| - 1][|parts[|parts| - 1]| - 1]
  {
    if |parts| > 1 {
      JoinWithLast(parts[1..], c);
    }
  }

  /** Normalising is idempotent, and the normalised full path of any path
      is the canonical body: no trailing separator, and the empty string
      for the root. */
  lemma NormalizePathIdempotent(fullPath: string)
    ensures NormalizePath(NormalizePath(fullPath)) == NormalizePath(fullPath)
  {
    TrimEndIdempotent(fullPath, SeparatorChars);
  }

  lemma FullPathNormalizedIsBody(path: string)
    requires GetFullPath(path).Success?
    ensures GetFullPathNormalized(path) == Success(Body(Resolve(path)))
  {
    NormalizeRender(Resolve(path), EndsWithSeparator(path));
  }
}
