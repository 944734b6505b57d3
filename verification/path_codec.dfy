/** The path codec (Services/PathParser.cs): a relative path becomes a
    URL-safe hash by taking base64 of its UTF-8 bytes, dropping the '='
    padding and swapping '+', '/' and '=' for '-', '_' and '.', which is
    the base64url alphabet of RFC 4648, section 5, with the padding left
    out as RFC 4648, section 3.2, allows. `Encrypt` and `Decrypt` are
    overridable hooks; they are parameters here, and the identity by
    default. Decoding hands the padded text to FromBase64String, which
    skips white space. */
module PathCodec {
  import opened Wrappers
  import opened Faults
  import Utf8
  import Base64

  function ToUrlChar(c: char): char {
    if c == '+' then '-' else if c == '/' then '_' else if c == '=' then '.' else c
  }

  function FromUrlChar(c: char): char {
    if c == '-' then '+' else if c == '_' then '/' else if c == '.' then '=' else c
  }

  /** The encoder's character swap, position by position. */
  function ToUrl(s: string): (r: string)
    ensures |r| == |s|
    ensures forall i :: 0 <= i < |s| ==> r[i] == ToUrlChar(s[i])
  {
    seq(|s|, i requires 0 <= i < |s| => ToUrlChar(s[i]))
  }

  /** The decoder's character swap, position by position. */
  function FromUrl(s: string): (r: string)
    ensures |r| == |s|
    ensures forall i :: 0 <= i < |s| ==> r[i] == FromUrlChar(s[i])
  {
    seq(|s|, i requires 0 <= i < |s| => FromUrlChar(s[i]))
  }

  /** The encoder's scan for the last kept character: trailing '=' are
      dropped from the end, but the first character is always kept. */
  function TrimPads(b: string): (t: string)
    ensures t <= b
    ensures |b| > 0 ==> |t| > 0
    ensures forall i :: |t| <= i < |b| ==> b[i] == '='
    ensures |t| >= 2 ==> t[|t| - 1] != '='
    decreases |b|
  {
    if |b| <= 1 then b
    else if b[|b| - 1] == '=' then TrimPads(b[..|b| - 1])
    else b
  }

  /** The padding the decoder restores from the length: none for 0, two
      for 2, one for 3, and none for 1, which the base64 decoder then
      rejects. */
  function RestorePads(d: string): (p: string)
    ensures |d| % 4 == 1 ==> p == d
    ensures |d| % 4 != 1 ==> |p| % 4 == 0
    ensures |d| <= |p| && p[..|d|] == d
    ensures forall i :: |d| <= i < |p| ==> p[i] == '='
  {
    var m := |d| % 4;
    if m == 2 then d + "==" else if m == 3 then d + "=" else d
  }

  function Identity(s: string): string {
    s
  }

  /** Encode with a given Encrypt hook. A null path (None) or an empty one
      gives null. */
  function EncodeWith(encrypt: string -> string, path: Option<string>): (r: Option<string>)
    ensures r.None? <==> path.None? || path.value == ""
  {
    if path.None? || path.value == "" then None
    else Some(ToUrl(TrimPads(Base64.Encode(Utf8.Encode(encrypt(path.value))))))
  }

  /** Decode with a given Decrypt hook. A null or empty hash gives the
      empty path; a text the base64 decoder rejects gives a format fault. */
  function DecodeWith(decrypt: string -> string, hash: Option<string>): (r: Result<string, Fault>)
    ensures hash.None? || hash.value == "" ==> r == Success("")
    ensures r.Failure? ==> r.error == Format
  {
    if hash.None? || hash.value == "" then Success("")
    else
      match Base64.FromBase64String(RestorePads(decrypt(FromUrl(hash.value))))
      case None => Failure(Format)
      case Some(bytes) => Success(Utf8.Decode(bytes))
  }

  function Encode(path: Option<string>): Option<string> {
    EncodeWith(Identity, path)
  }

  function Decode(hash: Option<string>): Result<string, Fault> {
    DecodeWith(Identity, hash)
  }

  // Properties

  /** Dropping a run of '=' that follows a non-'=' character leaves exactly
      the text before the run. */
  lemma {:induction false} TrimPadsRun(d: string, n: nat)
    requires |d| >= 1 && d[|d| - 1] != '='
    ensures TrimPads(d + seq(n, _ => '=')) == d
    decreases n
  {
    var b := d + seq(n, _ => '=');
    if n > 0 {
      assert b[..|b| - 1] == d + seq(n - 1, _ => '=');
      TrimPadsRun(d, n - 1);
    } else {
      assert b == d;
    }
  }

  /** The encoder strips exactly the padding base64 added. */
  lemma TrimPadsBase64(bs: seq<Utf8.Byte>)
    ensures var e := Base64.Encode(bs);
      TrimPads(e) == e[..|e| - Base64.PadCount(|bs|)]
  {
    var e := Base64.Encode(bs);
    var k := |e| - Base64.PadCount(|bs|);
    if |bs| > 0 {
      var d := e[..k];
      assert Base64.IsBase64Char(e[k - 1]);
      assert e == d + seq(|e| - k, _ => '=');
      TrimPadsRun(d, |e| - k);
    }
  }

  /** Base64 of n bytes, less its padding, is never one more than a
      multiple of four characters long. */
  lemma TrimmedLength(n: nat)
    ensures (4 * ((n + 2) / 3) - Base64.PadCount(n)) % 4 != 1
  {
    var q, m := n / 3, n % 3;
    assert n == 3 * q + m;
    if m == 0 {
      assert (n + 2) / 3 == q && Base64.PadCount(n) == 0;
    } else if m == 1 {
      assert (n + 2) / 3 == q + 1 && Base64.PadCount(n) == 2;
    } else {
      assert (n + 2) / 3 == q + 1 && Base64.PadCount(n) == 1;
    }
  }

  /** Restoring the padding of a text of whole quanta whose last pc
      characters are '=' (pc at most two) gives the text back. */
  lemma RestoreDropped(e: string, pc: nat)
    requires |e| % 4 == 0 && pc <= 2 && pc <= |e|
    requires forall i :: |e| - pc <= i < |e| ==> e[i] == '='
    ensures RestorePads(e[..|e| - pc]) == e
  {
    var t := e[..|e| - pc];
    if pc == 0 {
      assert t == e;
    } else if pc == 1 {
      assert |t| % 4 == 3;
      assert t + "=" == e;
    } else {
      assert |t| % 4 == 2;
      assert t + "==" == e;
    }
  }

  /** Restoring the padding of trimmed base64 gives the base64 back. */
  lemma RestoreTrimmed(bs: seq<Utf8.Byte>)
    ensures var e := Base64.Encode(bs);
      RestorePads(e[..|e| - Base64.PadCount(|bs|)]) == e
  {
    hide Base64.Encode;
    var e := Base64.Encode(bs);
    assert |e| % 4 == 0;
    if |bs| > 0 {
      RestoreDropped(e, Base64.PadCount(|bs|));
    }
  }

  /** Encoder output never holds '+', '/' or '=', and its length is never
      one more than a multiple of four, whatever the Encrypt hook does. */
  lemma EncodeAlphabet(encrypt: string -> string, path: Option<string>)
    requires EncodeWith(encrypt, path).Some?
    ensures var r := EncodeWith(encrypt, path).value;
      (forall i :: 0 <= i < |r| ==> r[i] != '+' && r[i] != '/' && r[i] != '=')
      && |r| % 4 != 1
  {
    hide Base64.Encode, Utf8.Encode, TrimPads;
    var bs := Utf8.Encode(encrypt(path.value));
    var e := Base64.Encode(bs);
    var t := TrimPads(e);
    TrimPadsBase64(bs);
    var r := ToUrl(t);
    assert r == EncodeWith(encrypt, path).value;
    forall i | 0 <= i < |r|
      ensures r[i] != '+' && r[i] != '/' && r[i] != '='
    {
      assert r[i] == ToUrlChar(t[i]);
    }
    assert |r| == |e| - Base64.PadCount(|bs|);
    TrimmedLength(|bs|);
  }

  /** Decoding swaps '-', '_' and '.' back and leaves every other character
      unchanged before handing the text to the Decrypt hook. */
  lemma DecodeSwapsBack(s: string)
    ensures forall i :: 0 <= i < |s| ==>
      FromUrl(s)[i] == (match s[i] case '-' => '+' case '_' => '/' case '.' => '=' case c => c)
  {
  }

  /** The swaps undo each other on base64 text. */
  lemma FromUrlToUrl(t: string)
    requires forall i :: 0 <= i < |t| ==> Base64.IsBase64Char(t[i]) || t[i] == '='
    ensures FromUrl(ToUrl(t)) == t
  {
    var u := ToUrl(t);
    var r := FromUrl(u);
    forall i | 0 <= i < |t|
      ensures r[i] == t[i]
    {
      assert u[i] == ToUrlChar(t[i]);
    }
  }

  /** With the default Decrypt hook, decoding a hash made with any Encrypt
      hook gives the encrypted path back, not the path: Encrypt acts on the
      path before base64 and Decrypt on the URL text after the swap, so
      overriding one hook alone shows through. */
  lemma DecodeEncodeWith(encrypt: string -> string, p: string)
    requires p != ""
    ensures EncodeWith(encrypt, Some(p)).Some?
    ensures DecodeWith(Identity, EncodeWith(encrypt, Some(p))) == Success(encrypt(p))
  {
    hide Base64.Encode, Base64.FromBase64String, Base64.Decode, Utf8.Encode, Utf8.Decode, TrimPads;
    var x := encrypt(p);
    var bs := Utf8.Encode(x);
    var e := Base64.Encode(bs);
    var t := TrimPads(e);
    TrimPadsBase64(bs);
    RestoreTrimmed(bs);
    FromUrlToUrl(t);
    assert EncodeWith(encrypt, Some(p)) == Some(ToUrl(t));
    assert RestorePads(FromUrl(ToUrl(t))) == e;
    assert forall i :: 0 <= i < |e| ==> !Base64.IsSkipped(e[i]);
    Base64.DecodeEncode(bs);
    Utf8.DecodeEncode(x);
    if ToUrl(t) == "" {
      assert |bs| == 0;
    }
  }

  /** With the default hooks, decoding an encoded non-empty path gives the
      path back. */
  lemma DecodeEncode(p: string)
    requires p != ""
    ensures Encode(Some(p)).Some?
    ensures Decode(Encode(Some(p))) == Success(p)
  {
    DecodeEncodeWith(Identity, p);
  }

  /** The decoder's swap neither makes nor removes white space, so the
      base64 decoder sees as many other characters as the hash has. */
  lemma {:induction false} FromUrlDropWhite(s: string)
    ensures |Base64.DropWhite(FromUrl(s))| == |Base64.DropWhite(s)|
    decreases |s|
  {
    if s != [] {
      assert FromUrl(s)[0] == FromUrlChar(s[0]) && FromUrl(s)[1..] == FromUrl(s[1..]);
      FromUrlDropWhite(s[1..]);
    }
  }

  /** A hash one longer than a multiple of four gets no padding, so unless
      white space in it leaves a multiple of four other characters, Decode
      fails rather than return a path. */
  lemma DecodeRejectsLength(hash: string)
    requires |hash| % 4 == 1 && |Base64.DropWhite(hash)| % 4 != 0
    ensures Decode(Some(hash)) == Failure(Format)
  {
    FromUrlDropWhite(hash);
  }

  /** So does a hash holding a character that is neither in the base64url
      alphabet nor white space the base64 decoder skips. */
  lemma DecodeRejectsCharacter(hash: string, i: int)
    requires 0 <= i < |hash|
    requires !Base64.IsBase64Char(FromUrlChar(hash[i])) && FromUrlChar(hash[i]) != '='
    requires !Base64.IsSkipped(hash[i])
    ensures Decode(Some(hash)) == Failure(Format)
  {
    var d := FromUrl(hash);
    var p := RestorePads(d);
    assert p[i] == d[i];
    assert d[i] in p;
  }

  /** Text whose length is a multiple of four, appended to the swapped
      hash, goes in front of the padding. */
  lemma RestorePadsAppend(d: string, w: string)
    requires |w| % 4 == 0
    ensures RestorePads(d + w) == (d + w) + RestorePads(d)[|d|..]
  {
    assert (|d| + |w|) % 4 == |d| % 4;
  }

  /** Texts that agree once white space is dropped decode alike. */
  lemma SameWithoutWhite(a: string, b: string)
    requires Base64.DropWhite(a) == Base64.DropWhite(b)
    ensures Base64.FromBase64String(a) == Base64.FromBase64String(b)
  {
  }

  /** Appending white space of a length that is a multiple of four to the
      swapped hash leaves what the base64 decoder sees unchanged. */
  lemma PadsAlike(d: string, w: string)
    requires |w| % 4 == 0 && Base64.DropWhite(w) == []
    ensures Base64.DropWhite(RestorePads(d + w)) == Base64.DropWhite(RestorePads(d))
  {
    hide Base64.DropWhite, RestorePads;
    var pads := RestorePads(d)[|d|..];
    RestorePadsAppend(d, w);
    RestorePadsAppend(d, "");
    assert d + "" == d;
    Base64.DropWhiteAppend(d + w, pads);
    Base64.DropWhiteAppend(d, w);
    Base64.DropWhiteAppend(d, pads);
    assert Base64.DropWhite(d) + [] == Base64.DropWhite(d);
  }

  /** Two hashes whose padded texts the base64 decoder reads alike decode
      to the same path. */
  lemma DecodeAlike(h1: string, h2: string)
    requires h1 != "" && h2 != ""
    requires Base64.FromBase64String(RestorePads(FromUrl(h1))) == Base64.FromBase64String(RestorePads(FromUrl(h2)))
    ensures Decode(Some(h1)) == Decode(Some(h2))
  {
    hide Base64.FromBase64String, Utf8.Decode, RestorePads, FromUrl;
    assert Identity(FromUrl(h1)) == FromUrl(h1);
    assert Identity(FromUrl(h2)) == FromUrl(h2);
  }

  /** Four trailing spaces change nothing: the padding depends on the
      length modulo four, and the base64 decoder skips the spaces. */
  lemma DecodeSkipsWhiteSpace(hash: string)
    requires hash != ""
    ensures Decode(Some(hash + "    ")) == Decode(Some(hash))
  {
    var w := "    ";
    assert Base64.DropWhite(w) == [];
    hide Base64.Decode, Base64.FromBase64String, Utf8.Decode, Base64.DropWhite, RestorePads, Decode;
    assert FromUrl(hash + w) == FromUrl(hash) + w;
    PadsAlike(FromUrl(hash), w);
    SameWithoutWhite(RestorePads(FromUrl(hash) + w), RestorePads(FromUrl(hash)));
    DecodeAlike(hash + w, hash);
  }

  /** The hash "QQ" is the letter A. */
  lemma DecodeQQ()
    ensures Decode(Some("QQ")) == Success("A")
  {
    var q := "QQ==";
    assert q[0] == 'Q' && q[1] == 'Q' && q[2] == '=' && q[3] == '=';
    assert Base64.ValueOf('Q') == 16;
    assert Base64.Octets(16, 16, 0, 0)[..1] == [65];
    assert forall i :: 0 <= i < |q| ==> !Base64.IsSkipped(q[i]);
    assert Utf8.Decode([65]) == "A";
    hide Base64.Octets, Base64.ValueOf, Base64.DecodeQuantum, Base64.DropWhite, Utf8.Decode;
    assert !Base64.IsBase64Char('=');
    assert Base64.DecodeLast(q) == Some([65]);
    assert Base64.Decode(q) == Base64.DecodeLast(q);
    assert FromUrl("QQ") == "QQ";
    assert RestorePads("QQ") == q;
  }

  /** The strict decoder rejects "QQ" with four trailing spaces, once
      padded: its first quantum holds a space. */
  lemma StrictRejectsSpaces()
    ensures Base64.Decode(RestorePads("QQ    ")) == None
  {
    var s := "QQ    ==";
    assert RestorePads("QQ    ") == s;
    assert s[..4] == "QQ  ";
    assert !Base64.IsBase64Char(s[..4][2]);
    assert Base64.DecodeQuantum(s[..4]) == None;
  }

  /** So a hash the strict decoder rejects can still name a path: "QQ"
      with four trailing spaces is padded to "QQ    ==", which decodes to
      "A" once the spaces are skipped. */
  lemma TrailingSpacesAccepted()
    ensures Base64.Decode(RestorePads("QQ    ")) == None
    ensures Decode(Some("QQ    ")) == Success("A")
  {
    StrictRejectsSpaces();
    hide Decode, Base64.Decode, Base64.FromBase64String, Utf8.Decode, RestorePads;
    DecodeQQ();
    DecodeSkipsWhiteSpace("QQ");
    assert "QQ" + "    " == "QQ    ";
  }
}
