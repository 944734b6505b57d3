/** The handful of platform string operations the core relies on, with
    their documented semantics: ordinal IndexOf/LastIndexOf answering -1
    when the character is absent, Split on one character, and TrimEnd over
    a set of characters. */
module Strings {

  /** The character U+0000. */
  const NulChar: char := 0 as char

  /** Position of the first `c` in `s`, or -1. */
  function IndexOf(s: string, c: char): (i: int)
    ensures -1 <= i < |s|
    ensures i == -1 <==> c !in s
    ensures i >= 0 ==> s[i] == c && c !in s[..i]
  {
    if |s| == 0 then -1
    else if s[0] == c then 0
    else
      var j := IndexOf(s[1..], c);
      assert s[1..][..if j >= 0 then j else 0] == s[1..if j >= 0 then j + 1 else 1];
      if j == -1 then -1 else j + 1
  }

  /** Position of the last `c` in `s`, or -1. */
  function LastIndexOf(s: string, c: char): (i: int)
    ensures -1 <= i < |s|
    ensures i == -1 <==> c !in s
    ensures i >= 0 ==> s[i] == c && c !in s[i + 1..]
  {
    if |s| == 0 then -1
    else if s[|s| - 1] == c then |s| - 1
    else
      var j := LastIndexOf(s[..|s| - 1], c);
      assert j >= 0 ==> s[j + 1..] == s[..|s| - 1][j + 1..] + [s[|s| - 1]];
      j
  }

  /** The pieces of `s` between occurrences of `c`; never empty. */
  function Split(s: string, c: char): (r: seq<string>)
    ensures |r| >= 1
    ensures forall i :: 0 <= i < |r| ==> c !in r[i]
    ensures |r| == 1 <==> c !in s
    decreases |s|
  {
    var i := IndexOf(s, c);
    if i == -1 then [s] else [s[..i]] + Split(s[i + 1..], c)
  }

  /** Every character of a piece comes from the text. */
  lemma {:induction false} SplitChars(s: string, c: char)
    ensures forall i, ch :: 0 <= i < |Split(s, c)| && ch in Split(s, c)[i] ==> ch in s
    decreases |s|
  {
    var i := IndexOf(s, c);
    if i != -1 {
      SplitChars(s[i + 1..], c);
      var r := Split(s, c);
      var rest := Split(s[i + 1..], c);
      assert r == [s[..i]] + rest;
      forall k, ch | 0 <= k < |r| && ch in r[k]
        ensures ch in s
      {
        if k == 0 {
          assert ch in s[..i];
        } else {
          assert r[k] == rest[k - 1];
          assert ch in s[i + 1..];
        }
      }
    }
  }

  /** The pieces glued back together with `c` between them. */
  function JoinWith(parts: seq<string>, c: char): string
    requires |parts| >= 1
  {
    if |parts| == 1 then parts[0] else parts[0] + [c] + JoinWith(parts[1..], c)
  }

  /** `s` with every trailing character from `chars` removed. */
  function TrimEnd(s: string, chars: set<char>): (r: string)
    ensures r <= s
    ensures |r| > 0 ==> r[|r| - 1] !in chars
    ensures forall i :: |r| <= i < |s| ==> s[i] in chars
  {
    if |s| > 0 && s[|s| - 1] in chars then TrimEnd(s[..|s| - 1], chars) else s
  }

  /** String.IsNullOrWhiteSpace for a non-null string: every character
      is white space in the sense of Char.IsWhiteSpace. */
  predicate IsBlank(s: string) {
    forall i :: 0 <= i < |s| ==> IsWhiteSpace(s[i])
  }

  /** Char.IsWhiteSpace: the Unicode space separators, the line and
      paragraph separators, and the controls U+0009 to U+000D and U+0085. */
  predicate IsWhiteSpace(c: char) {
    IsAsciiWhite(c) || c == '\U{0085}' || c == '\U{00A0}' || c == '\U{1680}'
    || ('\U{2000}' <= c <= '\U{200A}') || c == '\U{2028}' || c == '\U{2029}'
    || c == '\U{202F}' || c == '\U{205F}' || c == '\U{3000}'
  }

  /** The white space that integer parsing skips around a number: the
      space and the controls U+0009 to U+000D. */
  predicate IsAsciiWhite(c: char) {
    c == ' ' || ('\t' <= c <= '\r')
  }

  /** Every character is white space that integer parsing skips. */
  predicate IsAsciiBlank(s: string) {
    forall i :: 0 <= i < |s| ==> IsAsciiWhite(s[i])
  }

  /** `s` without leading white space. */
  function TrimStartWhite(s: string): (r: string)
    ensures |r| <= |s| && r == s[|s| - |r|..]
    ensures |r| > 0 ==> !IsAsciiWhite(r[0])
    ensures forall i :: 0 <= i < |s| - |r| ==> IsAsciiWhite(s[i])
  {
    if |s| > 0 && IsAsciiWhite(s[0]) then TrimStartWhite(s[1..]) else s
  }

  /** `s` without trailing white space. */
  function TrimEndWhite(s: string): (r: string)
    ensures |r| <= |s| && r == s[..|r|]
    ensures |r| > 0 ==> !IsAsciiWhite(r[|r| - 1])
    ensures forall i :: |r| <= i < |s| ==> IsAsciiWhite(s[i])
  {
    if |s| > 0 && IsAsciiWhite(s[|s| - 1]) then TrimEndWhite(s[..|s| - 1]) else s
  }

  // Properties

  lemma SplitAround(s: string, i: int)
    requires 0 <= i < |s|
    ensures s == s[..i] + [s[i]] + s[i + 1..]
  {
  }

  /** Split and JoinWith are inverse: joining the pieces gives the text. */
  lemma {:induction false} JoinSplit(s: string, c: char)
    ensures JoinWith(Split(s, c), c) == s
    decreases |s|
  {
    var i := IndexOf(s, c);
    if i != -1 {
      var tail := s[i + 1..];
      var parts := Split(s, c);
      assert parts == [s[..i]] + Split(tail, c);
      assert parts[0] == s[..i] && parts[1..] == Split(tail, c);
      JoinSplit(tail, c);
      assert JoinWith(parts, c) == s[..i] + [c] + tail;
      SplitAround(s, i);
    }
  }

  /** ... and splitting pieces free of `c` gives the pieces back. */
  lemma {:induction false} SplitJoin(parts: seq<string>, c: char)
    requires |parts| >= 1
    requires forall i :: 0 <= i < |parts| ==> c !in parts[i]
    ensures Split(JoinWith(parts, c), c) == parts
    decreases |parts|
  {
    if |parts| > 1 {
      var p := parts[0];
      var rest := JoinWith(parts[1..], c);
      var s := p + [c] + rest;
      assert JoinWith(parts, c) == s;
      IndexAfter(p, c, rest);
      SplitJoin(parts[1..], c);
      assert Split(s, c) == [p] + Split(rest, c);
      Cons(parts);
    }
  }

  lemma IndexAfter(p: string, c: char, rest: string)
    requires c !in p
    ensures var s := p + [c] + rest;
      IndexOf(s, c) == |p| && s[..|p|] == p && s[|p| + 1..] == rest
  {
    var s := p + [c] + rest;
    assert s[..|p|] == p;
    assert s[|p|] == c;
    assert s[|p| + 1..] == rest;
  }

  lemma Cons<T>(xs: seq<T>)
    requires |xs| >= 1
    ensures [xs[0]] + xs[1..] == xs
  {
  }

  /** Splitting at a final separator adds the text after it as one more
      piece. */
  lemma {:induction false} SplitSnoc(a: string, c: char, b: string)
    requires c !in b
    ensures Split(a + [c] + b, c) == Split(a, c) + [b]
    decreases |a|
  {
    var s := a + [c] + b;
    var i := IndexOf(a, c);
    if i == -1 {
      IndexAfter(a, c, b);
      SplitAt(s, |a|);
      assert Split(b, c) == [b];
      assert Split(a, c) == [a];
    } else {
      var a' := a[i + 1..];
      PrefixIndex(a, c, [c] + b);
      assert s == a + ([c] + b);
      assert s[i + 1..] == a' + [c] + b;
      assert s[i] == c && s[..i] == a[..i];
      SplitAt(s, i);
      SplitAt(a, i);
      SplitSnoc(a', c, b);
      assert Split(s, c) == [a[..i]] + (Split(a', c) + [b]);
    }
  }

  /** The last piece of a split is the text after the last separator. */
  lemma SplitLast(s: string, c: char)
    ensures var k := LastIndexOf(s, c);
      Split(s, c) == if k < 0 then [s] else Split(s[..k], c) + [s[k + 1..]]
  {
    var k := LastIndexOf(s, c);
    if k >= 0 {
      SplitAround(s, k);
      SplitSnoc(s[..k], c, s[k + 1..]);
    }
  }

  /** Split at the first separator. */
  lemma SplitAt(s: string, i: int)
    requires 0 <= i < |s| && IndexOf(s, s[i]) == i
    ensures Split(s, s[i]) == [s[..i]] + Split(s[i + 1..], s[i])
  {
    var c := s[i];
    assert c in s;
    assert Split(s, c) == [s[..IndexOf(s, c)]] + Split(s[IndexOf(s, c) + 1..], c);
  }

  /** The first separator of a text is the first of any extension. */
  lemma PrefixIndex(a: string, c: char, t: string)
    requires IndexOf(a, c) >= 0
    ensures IndexOf(a + t, c) == IndexOf(a, c)
  {
    var i := IndexOf(a, c);
    assert (a + t)[..i] == a[..i];
    assert (a + t)[i] == c;
  }

  /** TrimEnd is idempotent and leaves nothing to trim. */
  lemma TrimEndIdempotent(s: string, chars: set<char>)
    ensures TrimEnd(TrimEnd(s, chars), chars) == TrimEnd(s, chars)
  {
  }
}
