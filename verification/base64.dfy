/** Base64 with the standard alphabet and '=' padding (RFC 4648,
    section 4), as the platform's ToBase64String and FromBase64String use
    it. Decoding is strict: the length must be a multiple of four, every
    character must come from the alphabet, and padding may only close the
    last quantum. Unused low bits of the last quantum are ignored.
    FromBase64String first skips white space, then decodes strictly. */
module Base64 {
  import opened Wrappers
  import opened Utf8

  const Pad: char := '='

  predicate IsBase64Char(c: char) {
    ('A' <= c <= 'Z') || ('a' <= c <= 'z') || ('0' <= c <= '9') || c == '+' || c == '/'
  }

  /** The alphabet of RFC 4648, section 4, table 1. */
  function CharOf(v: int): (c: char)
    requires 0 <= v < 64
    ensures IsBase64Char(c) && c != Pad
  {
    if v < 26 then ('A' as int + v) as char
    else if v < 52 then ('a' as int + (v - 26)) as char
    else if v < 62 then ('0' as int + (v - 52)) as char
    else if v == 62 then '+'
    else '/'
  }

  function ValueOf(c: char): (v: int)
    requires IsBase64Char(c)
    ensures 0 <= v < 64
  {
    if 'A' <= c <= 'Z' then c as int - 'A' as int
    else if 'a' <= c <= 'z' then c as int - 'a' as int + 26
    else if '0' <= c <= '9' then c as int - '0' as int + 52
    else if c == '+' then 62
    else 63
  }

  /** The alphabet is a bijection between 0..63 and its 64 characters. */
  lemma AlphabetBijective(v: int, c: char)
    ensures 0 <= v < 64 ==> ValueOf(CharOf(v)) == v
    ensures IsBase64Char(c) ==> CharOf(ValueOf(c)) == c
  {
  }

  /** Number of '=' characters closing the encoding of n bytes. */
  function PadCount(n: nat): nat {
    (3 - n % 3) % 3
  }

  /** Three octets to four sextets. */
  function Sextets(x: Byte, y: Byte, z: Byte): (v: seq<int>)
    ensures |v| == 4 && forall i :: 0 <= i < 4 ==> 0 <= v[i] < 64
  {
    assert (x % 4) * 16 + y / 16 < 64 && (y % 16) * 4 + z / 64 < 64;
    [x / 4, (x % 4) * 16 + y / 16, (y % 16) * 4 + z / 64, z % 64]
  }

  function Chars(vs: seq<int>): (s: string)
    requires forall i :: 0 <= i < |vs| ==> 0 <= vs[i] < 64
    ensures |s| == |vs|
    ensures forall i :: 0 <= i < |s| ==> s[i] == CharOf(vs[i])
  {
    if vs == [] then [] else [CharOf(vs[0])] + Chars(vs[1..])
  }

  /** The four characters of one full quantum. */
  function EncodeQuantum(x: Byte, y: Byte, z: Byte): (q: string)
    ensures |q| == 4 && forall i :: 0 <= i < 4 ==> IsBase64Char(q[i])
  {
    Chars(Sextets(x, y, z))
  }

  function Encode(bs: seq<Byte>): (s: string)
    ensures |s| == 4 * ((|bs| + 2) / 3)
    ensures forall i :: 0 <= i < |s| - PadCount(|bs|) ==> IsBase64Char(s[i])
    ensures forall i :: |s| - PadCount(|bs|) <= i < |s| ==> s[i] == Pad
    decreases |bs|
  {
    if |bs| == 0 then ""
    else if |bs| <= 2 then EncodeFinal(bs)
    else
      var q, t := EncodeQuantum(bs[0], bs[1], bs[2]), Encode(bs[3..]);
      assert PadCount(|bs|) == PadCount(|bs[3..]|);
      assert forall i :: 4 <= i < |q + t| ==> (q + t)[i] == t[i - 4];
      q + t
  }

  /** The last quantum of one or two bytes, padded to four characters. */
  function EncodeFinal(bs: seq<Byte>): (s: string)
    requires 1 <= |bs| <= 2
    ensures |s| == 4
    ensures forall i :: 0 <= i < 4 - PadCount(|bs|) ==> IsBase64Char(s[i])
    ensures forall i :: 4 - PadCount(|bs|) <= i < 4 ==> s[i] == Pad
  {
    if |bs| == 1 then Chars(Sextets(bs[0], 0, 0)[..2]) + [Pad, Pad]
    else Chars(Sextets(bs[0], bs[1], 0)[..3]) + [Pad]
  }

  /** Four sextets back to three octets. */
  function Octets(a: int, b: int, c: int, d: int): seq<Byte>
    requires 0 <= a < 64 && 0 <= b < 64 && 0 <= c < 64 && 0 <= d < 64
  {
    [a * 4 + b / 16, (b % 16) * 16 + c / 4, (c % 4) * 64 + d]
  }

  /** The three bytes of a quantum without padding. */
  function DecodeQuantum(q: string): (r: Option<seq<Byte>>)
    requires |q| == 4
    ensures r.Some? <==> forall i :: 0 <= i < 4 ==> IsBase64Char(q[i])
  {
    if IsBase64Char(q[0]) && IsBase64Char(q[1]) && IsBase64Char(q[2]) && IsBase64Char(q[3]) then
      Some(Octets(ValueOf(q[0]), ValueOf(q[1]), ValueOf(q[2]), ValueOf(q[3])))
    else None
  }

  /** The bytes of a final quantum: four data characters give three bytes,
      three and one pad give two, two and two pads give one. */
  function DecodeLast(q: string): (r: Option<seq<Byte>>)
    requires |q| == 4
    ensures r.Some? ==> IsBase64Char(q[0]) && IsBase64Char(q[1])
    ensures r.Some? ==> (IsBase64Char(q[2]) || q[2] == Pad) && (IsBase64Char(q[3]) || q[3] == Pad)
  {
    if !IsBase64Char(q[0]) || !IsBase64Char(q[1]) then None
    else if IsBase64Char(q[2]) && IsBase64Char(q[3]) then DecodeQuantum(q)
    else if IsBase64Char(q[2]) && q[3] == Pad then
      Some(Octets(ValueOf(q[0]), ValueOf(q[1]), ValueOf(q[2]), 0)[..2])
    else if q[2] == Pad && q[3] == Pad then
      Some(Octets(ValueOf(q[0]), ValueOf(q[1]), 0, 0)[..1])
    else None
  }

  /** Strict decoding; None is the platform's FormatException. */
  function Decode(s: string): (r: Option<seq<Byte>>)
    ensures r.Some? ==> |s| % 4 == 0
    ensures r.Some? ==> forall i :: 0 <= i < |s| ==> IsBase64Char(s[i]) || s[i] == Pad
    decreases |s|
  {
    if |s| % 4 != 0 then None
    else if |s| == 0 then Some([])
    else if |s| == 4 then DecodeLast(s)
    else
      match DecodeQuantum(s[..4])
      case None => None
      case Some(head) =>
        match Decode(s[4..])
        case None => None
        case Some(rest) => Some(head + rest)
  }

  /** The white space FromBase64String skips wherever it stands: tab,
      line feed, carriage return and space. */
  predicate IsSkipped(c: char) {
    c == ' ' || c == '\t' || c == '\n' || c == '\r'
  }

  /** The text with every skipped white-space character taken out. */
  function DropWhite(s: string): (r: string)
    ensures |r| <= |s|
    ensures forall c :: c in r <==> c in s && !IsSkipped(c)
    ensures (forall i :: 0 <= i < |s| ==> !IsSkipped(s[i])) ==> r == s
  {
    if s == [] then []
    else
      assert forall c :: c in s <==> c == s[0] || c in s[1..];
      if IsSkipped(s[0]) then DropWhite(s[1..]) else [s[0]] + DropWhite(s[1..])
  }

  /** Convert.FromBase64String: skipped white space may stand anywhere,
      and what is left must decode strictly; None is the FormatException.
      Text without white space decodes as the strict decoder has it. */
  function FromBase64String(s: string): (r: Option<seq<Byte>>)
    ensures (forall i :: 0 <= i < |s| ==> !IsSkipped(s[i])) ==> r == Decode(s)
    ensures r.Some? ==> |DropWhite(s)| % 4 == 0
    ensures r.Some? ==> forall c :: c in s ==> IsBase64Char(c) || c == Pad || IsSkipped(c)
  {
    var t := DropWhite(s);
    var r := Decode(t);
    assert r.Some? ==> forall c :: c in t ==> IsBase64Char(c) || c == Pad;
    r
  }

  /** Dropping white space distributes over concatenation. */
  lemma {:induction false} DropWhiteAppend(a: string, b: string)
    ensures DropWhite(a + b) == DropWhite(a) + DropWhite(b)
    decreases |a|
  {
    if a == [] {
      assert a + b == b;
    } else {
      assert (a + b)[0] == a[0] && (a + b)[1..] == a[1..] + b;
      DropWhiteAppend(a[1..], b);
    }
  }

  lemma SextetsInverse(x: Byte, y: Byte, z: Byte)
    ensures var v := Sextets(x, y, z);
      0 <= v[0] < 64 && 0 <= v[1] < 64 && 0 <= v[2] < 64 && 0 <= v[3] < 64
      && Octets(v[0], v[1], v[2], v[3]) == [x, y, z]
  {
    var v := Sextets(x, y, z);
    assert x == (x / 4) * 4 + x % 4;
    assert y == (y / 16) * 16 + y % 16;
    assert z == (z / 64) * 64 + z % 64;
    assert v[1] / 16 == x % 4 && v[1] % 16 == y / 16;
    assert v[2] / 4 == y % 16 && v[2] % 4 == z / 64;
  }

  /** The characters of a quantum prefix decode to their sextets. */
  lemma QuantumValues(x: Byte, y: Byte, z: Byte, k: nat)
    requires k <= 4
    ensures var v := Sextets(x, y, z);
      var q := Chars(v[..k]);
      forall i :: 0 <= i < k ==> IsBase64Char(q[i]) && ValueOf(q[i]) == v[i]
  {
    var v := Sextets(x, y, z);
    forall i | 0 <= i < k
      ensures IsBase64Char(Chars(v[..k])[i]) && ValueOf(Chars(v[..k])[i]) == v[i]
    {
      AlphabetBijective(v[i], Chars(v[..k])[i]);
    }
  }

  lemma DecodeEncodeOne(x: Byte)
    ensures Decode(Encode([x])) == Some([x])
  {
    var s := Encode([x]);
    var v := Sextets(x, 0, 0);
    QuantumValues(x, 0, 0, 2);
    SextetsInverse(x, 0, 0);
    assert s == Chars(v[..2]) + [Pad, Pad];
    assert s[2] == Pad && s[3] == Pad;
    assert Octets(v[0], v[1], 0, 0)[..1] == [x];
    assert DecodeLast(s) == Some([x]);
  }

  lemma DecodeEncodeTwo(x: Byte, y: Byte)
    ensures Decode(Encode([x, y])) == Some([x, y])
  {
    var s := Encode([x, y]);
    var v := Sextets(x, y, 0);
    QuantumValues(x, y, 0, 3);
    SextetsInverse(x, y, 0);
    assert s == Chars(v[..3]) + [Pad];
    assert s[3] == Pad;
    assert Octets(v[0], v[1], v[2], 0)[..2] == [x, y];
    assert DecodeLast(s) == Some([x, y]);
  }

  lemma DecodeQuantumInverse(x: Byte, y: Byte, z: Byte)
    ensures DecodeQuantum(EncodeQuantum(x, y, z)) == Some([x, y, z])
  {
    var v := Sextets(x, y, z);
    QuantumValues(x, y, z, 4);
    SextetsInverse(x, y, z);
    assert v[..4] == v;
  }

  /** A lone unpadded quantum decodes as a full quantum. */
  lemma DecodeSingle(q: string)
    requires |q| == 4 && DecodeQuantum(q).Some?
    ensures Decode(q) == DecodeQuantum(q)
  {
  }

  /** Decoding peels one full quantum off the front. */
  lemma DecodePeel(q: string, t: string, head: seq<Byte>, rest: seq<Byte>)
    requires |q| == 4 && DecodeQuantum(q) == Some(head)
    requires t != [] && Decode(t) == Some(rest)
    ensures Decode(q + t) == Some(head + rest)
  {
    var s := q + t;
    assert s[..4] == q && s[4..] == t;
  }

  lemma DecodeEncodeStep(x: Byte, y: Byte, z: Byte, rest: seq<Byte>)
    requires Decode(Encode(rest)) == Some(rest)
    ensures Decode(Encode([x, y, z] + rest)) == Some([x, y, z] + rest)
  {
    var bs := [x, y, z] + rest;
    var q := EncodeQuantum(x, y, z);
    var t := Encode(rest);
    DecodeQuantumInverse(x, y, z);
    assert bs[3..] == rest;
    assert Encode(bs) == q + t;
    if rest == [] {
      assert t == [] && bs == [x, y, z];
      assert q + t == q;
      DecodeSingle(q);
    } else {
      DecodePeel(q, t, [x, y, z], rest);
    }
  }

  lemma SplitThree<T>(s: seq<T>)
    requires |s| >= 3
    ensures [s[0], s[1], s[2]] + s[3..] == s
  {
  }

  /** Decode is a left inverse of Encode. */
  lemma {:induction false} DecodeEncode(bs: seq<Byte>)
    ensures Decode(Encode(bs)) == Some(bs)
    decreases |bs|
  {
    if |bs| == 1 {
      assert bs == [bs[0]];
      DecodeEncodeOne(bs[0]);
    } else if |bs| == 2 {
      assert bs == [bs[0], bs[1]];
      DecodeEncodeTwo(bs[0], bs[1]);
    } else if |bs| >= 3 {
      DecodeEncode(bs[3..]);
      DecodeEncodeStep(bs[0], bs[1], bs[2], bs[3..]);
      SplitThree(bs);
    }
  }
}
