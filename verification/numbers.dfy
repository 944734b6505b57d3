/** The platform's integer parsing (int.Parse and long.Parse with the
    default integer style) and the 32-bit wrap-around of unchecked
    arithmetic. The accepted form is optional leading and trailing white
    space around an optional '+' or '-' sign followed by one or more
    decimal digits, and then any run of NUL characters, which the
    platform skips at the very end; anything else is a format fault, and a well-formed
    number outside the target type's range is an overflow fault. */
module Numbers {
  import opened Wrappers
  import opened Faults
  import opened Strings

  const Int32Min: int := -0x8000_0000
  const Int32Max: int := 0x7FFF_FFFF
  const Int64Min: int := -0x8000_0000_0000_0000
  const Int64Max: int := 0x7FFF_FFFF_FFFF_FFFF

  predicate IsInt32(n: int) {
    Int32Min <= n <= Int32Max
  }

  predicate IsInt64(n: int) {
    Int64Min <= n <= Int64Max
  }

  /** Two's-complement 32-bit wrap-around, as unchecked C# arithmetic on
      int does it. */
  function Wrap32(n: int): (r: int)
    ensures IsInt32(r)
    ensures (r - n) % 0x1_0000_0000 == 0
  {
    (n - Int32Min) % 0x1_0000_0000 + Int32Min
  }

  predicate IsDigit(c: char) {
    '0' <= c <= '9'
  }

  predicate AllDigits(s: string) {
    forall i :: 0 <= i < |s| ==> IsDigit(s[i])
  }

  function DigitValue(c: char): (v: nat)
    requires IsDigit(c)
    ensures v < 10
  {
    c as int - '0' as int
  }

  function DigitChar(v: nat): (c: char)
    requires v < 10
    ensures IsDigit(c) && DigitValue(c) == v
  {
    ('0' as int + v) as char
  }

  /** The value of a string of decimal digits, most significant first. */
  function DigitsValue(ds: string): nat
    requires AllDigits(ds)
  {
    if ds == [] then 0
    else DigitsValue(ds[..|ds| - 1]) * 10 + DigitValue(ds[|ds| - 1])
  }

  /** The shortest decimal form of a natural number. */
  function ShowNat(n: nat): (s: string)
    ensures |s| >= 1 && AllDigits(s)
    ensures |s| > 1 ==> s[0] != '0'
  {
    if n < 10 then [DigitChar(n)] else ShowNat(n / 10) + [DigitChar(n % 10)]
  }

  /** The platform's ToString of an integer: a '-' and the magnitude for a
      negative number. */
  function Show(n: int): string {
    if n < 0 then "-" + ShowNat(-n) else ShowNat(n)
  }

  /** Parse an integer of the range [lo, hi]: trailing NULs go first,
      then the white space on either side. */
  function Parse(s: string, lo: int, hi: int): (r: Result<int, Fault>)
    ensures r.Success? ==> lo <= r.value <= hi
    ensures r.Failure? ==> r.error == Format || r.error == Overflow
  {
    ParseTrimmed(TrimEndWhite(TrimStartWhite(TrimEnd(s, {NulChar}))), lo, hi)
  }

  /** Parse a sign and digits with the white space already removed. */
  function ParseTrimmed(t: string, lo: int, hi: int): (r: Result<int, Fault>)
    ensures r.Success? ==> lo <= r.value <= hi
    ensures r.Failure? ==> r.error == Format || r.error == Overflow
  {
    var negative := |t| > 0 && t[0] == '-';
    var digits := if |t| > 0 && (t[0] == '-' || t[0] == '+') then t[1..] else t;
    if digits == [] || !AllDigits(digits) then Failure(Format)
    else
      var v: int := DigitsValue(digits);
      var n := if negative then -v else v;
      if n < lo || hi < n then Failure(Overflow) else Success(n)
  }

  /** int.Parse. */
  function ParseInt32(s: string): (r: Result<int, Fault>)
    ensures r.Success? ==> IsInt32(r.value)
  {
    Parse(s, Int32Min, Int32Max)
  }

  /** long.Parse. */
  function ParseInt64(s: string): (r: Result<int, Fault>)
    ensures r.Success? ==> IsInt64(r.value)
  {
    Parse(s, Int64Min, Int64Max)
  }

  // Properties

  lemma {:induction false} DigitsShowNat(n: nat)
    ensures DigitsValue(ShowNat(n)) == n
  {
    var s := ShowNat(n);
    if n >= 10 {
      assert s[..|s| - 1] == ShowNat(n / 10);
      DigitsShowNat(n / 10);
    }
  }

  /** Parsing the decimal form of any number in range gives it back. */
  lemma ParseShow(n: int, lo: int, hi: int)
    requires lo <= n <= hi
    ensures Parse(Show(n), lo, hi) == Success(n)
  {
    ShowUntrimmed(n);
    ParseTrimmedShow(n, lo, hi);
  }

  /** A number outside the range is an overflow, not a format fault. */
  lemma ParseShowOverflow(n: int, lo: int, hi: int)
    requires n < lo || hi < n
    ensures Parse(Show(n), lo, hi) == Failure(Overflow)
  {
    ShowUntrimmed(n);
    ParseTrimmedShow(n, lo, hi);
  }

  /** A decimal form has no white space to trim. */
  lemma ShowUntrimmed(n: int)
    ensures TrimEnd(Show(n), {NulChar}) == Show(n)
    ensures TrimStartWhite(Show(n)) == Show(n) && TrimEndWhite(Show(n)) == Show(n)
  {
    var s := Show(n);
    var ds := ShowNat(if n < 0 then -n else n);
    assert !IsAsciiWhite(s[0]);
    assert s[|s| - 1] == ds[|ds| - 1];
  }

  lemma ParseTrimmedShow(n: int, lo: int, hi: int)
    ensures ParseTrimmed(Show(n), lo, hi) == if lo <= n <= hi then Success(n) else Failure(Overflow)
  {
    var s := Show(n);
    var m := if n < 0 then -n else n;
    var ds := ShowNat(m);
    DigitsShowNat(m);
    if n < 0 {
      assert s[1..] == ds;
    }
  }

  /** A character that is neither white space, a sign, a digit nor a NUL
      makes the parse a format fault, and so does a NUL with anything but
      NULs after it. */
  lemma ParseRejects(s: string, i: int, lo: int, hi: int)
    requires 0 <= i < |s|
    requires !IsAsciiWhite(s[i]) && !IsDigit(s[i]) && s[i] != '+' && s[i] != '-'
    requires s[i] == NulChar ==> exists j :: i < j < |s| && s[j] != NulChar
    ensures Parse(s, lo, hi) == Failure(Format)
  {
    var z := TrimEnd(s, {NulChar});
    assert i < |z| && z[i] == s[i];
    ParseRejectsTrimmed(z, i, lo, hi);
  }

  lemma ParseRejectsTrimmed(s: string, i: int, lo: int, hi: int)
    requires 0 <= i < |s|
    requires !IsAsciiWhite(s[i]) && !IsDigit(s[i]) && s[i] != '+' && s[i] != '-'
    ensures ParseTrimmed(TrimEndWhite(TrimStartWhite(s)), lo, hi) == Failure(Format)
  {
    var u := TrimStartWhite(s);
    var k := |s| - |u|;
    assert k <= i;
    var t := TrimEndWhite(u);
    assert i - k < |t|;
    assert t[i - k] == s[i];
    var digits := if |t| > 0 && (t[0] == '-' || t[0] == '+') then t[1..] else t;
    if digits != t {
      assert i - k >= 1;
      assert digits[i - k - 1] == s[i];
    }
  }

  /** White space around a number, and NULs after it, are ignored. */
  lemma ParseBlankPadded(w1: string, s: string, w2: string, z: string, lo: int, hi: int)
    requires IsAsciiBlank(w1) && IsAsciiBlank(w2)
    requires forall i :: 0 <= i < |z| ==> z[i] == NulChar
    requires |s| > 0 && !IsAsciiWhite(s[0]) && !IsAsciiWhite(s[|s| - 1]) && s[|s| - 1] != NulChar
    ensures Parse(w1 + s + w2 + z, lo, hi) == Parse(s, lo, hi)
  {
    var x := w1 + s + w2;
    assert x[|x| - 1] == if w2 == [] then s[|s| - 1] else w2[|w2| - 1];
    TrimEndNuls(x, z);
    assert TrimEnd(s, {NulChar}) == s;
    PaddedTrims(w1, s, w2);
  }

  lemma PaddedTrims(w1: string, s: string, w2: string)
    requires IsAsciiBlank(w1) && IsAsciiBlank(w2)
    requires |s| > 0 && !IsAsciiWhite(s[0]) && !IsAsciiWhite(s[|s| - 1])
    ensures TrimEndWhite(TrimStartWhite(w1 + s + w2)) == s
    ensures TrimEndWhite(TrimStartWhite(s)) == s
  {
    TrimStartBlank(w1, s + w2);
    assert w1 + s + w2 == w1 + (s + w2);
    TrimEndBlank(s, w2);
    assert TrimStartWhite(s) == s;
    assert TrimEndWhite(s) == s;
  }

  lemma {:induction false} TrimEndNuls(s: string, z: string)
    requires forall i :: 0 <= i < |z| ==> z[i] == NulChar
    requires |s| > 0 && s[|s| - 1] != NulChar
    ensures TrimEnd(s + z, {NulChar}) == s
  {
    if z != [] {
      assert (s + z)[..|s + z| - 1] == s + z[..|z| - 1];
      TrimEndNuls(s, z[..|z| - 1]);
    } else {
      assert s + z == s;
    }
  }

  lemma {:induction false} TrimStartBlank(w: string, s: string)
    requires IsAsciiBlank(w)
    requires |s| > 0 && !IsAsciiWhite(s[0])
    ensures TrimStartWhite(w + s) == s
  {
    if w != [] {
      assert (w + s)[1..] == w[1..] + s;
      TrimStartBlank(w[1..], s);
    } else {
      assert w + s == s;
    }
  }

  lemma {:induction false} TrimEndBlank(s: string, w: string)
    requires IsAsciiBlank(w)
    requires |s| > 0 && !IsAsciiWhite(s[|s| - 1])
    ensures TrimEndWhite(s + w) == s
  {
    if w != [] {
      assert (s + w)[..|s + w| - 1] == s + w[..|w| - 1];
      TrimEndBlank(s, w[..|w| - 1]);
    } else {
      assert s + w == s;
    }
  }

  /** Wrapping leaves 32-bit values alone and sends one past the maximum
      to the minimum. */
  lemma Wrap32Range(n: int)
    ensures IsInt32(n) ==> Wrap32(n) == n
    ensures Wrap32(Int32Max + 1) == Int32Min
  {
  }
}
