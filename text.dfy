/** ASCII text helpers shared by the C and Python tools: case folding as C's tolower does it
    in the "C" locale, decimal formatting as printf("%d") and Python's str() produce it,
    decimal parsing as C's atoi does it, and lower-case hexadecimal as "%02x" and
    hashlib's hexdigest() produce it. */
module Text {
  import opened Bytes

  predicate IsUpper(c: char) { 'A' <= c <= 'Z' }
  predicate IsLowerLetter(c: char) { 'a' <= c <= 'z' }
  predicate IsLetter(c: char) { IsUpper(c) || IsLowerLetter(c) }
  predicate IsDigit(c: char) { '0' <= c <= '9' }

  /** tolower: upper-case ASCII letters map to lower case, everything else is kept. */
  function ToLower(c: char): (r: char)
    ensures IsLetter(c) ==> IsLowerLetter(r)
    ensures !IsUpper(c) ==> r == c
    ensures IsLetter(c) == IsLetter(r)
  {
    if IsUpper(c) then (c as int + 32) as char else c
  }

  function Lower(s: string): (r: string)
    ensures |r| == |s|
  {
    if s == [] then [] else [ToLower(s[0])] + Lower(s[1..])
  }

  lemma {:induction false} LowerAt(s: string, i: nat)
    requires i < |s|
    ensures Lower(s)[i] == ToLower(s[i])
  {
    if i > 0 { LowerAt(s[1..], i - 1); }
  }

  lemma {:induction false} LowerAppend(a: string, b: string)
    ensures Lower(a + b) == Lower(a) + Lower(b)
  {
    if a == [] {
      assert a + b == b;
    } else {
      assert (a + b)[0] == a[0] && (a + b)[1..] == a[1..] + b;
      LowerAppend(a[1..], b);
    }
  }

  /** Lower-casing twice changes nothing more. */
  lemma {:induction false} LowerIdempotent(s: string)
    ensures Lower(Lower(s)) == Lower(s)
  {
    if s != [] {
      assert Lower(s)[1..] == Lower(s[1..]);
      LowerIdempotent(s[1..]);
    }
  }

  lemma LowerPointwise(s: string)
    ensures forall i :: 0 <= i < |s| ==> Lower(s)[i] == ToLower(s[i])
  {
    forall i | 0 <= i < |s| ensures Lower(s)[i] == ToLower(s[i]) {
      LowerAt(s, i);
    }
  }

  /** The comparison of C's _stricmp: equal lengths and equal characters after tolower. */
  predicate EqualsIgnoreCase(a: string, b: string)
    ensures EqualsIgnoreCase(a, b) <==>
      |a| == |b| && forall i :: 0 <= i < |a| ==> ToLower(a[i]) == ToLower(b[i])
  {
    LowerPointwise(a);
    LowerPointwise(b);
    Lower(a) == Lower(b)
  }

  /** A string that holds no upper-case letter is its own lower-case form. */
  lemma {:induction false} LowerOfNoUpper(s: string)
    requires forall i :: 0 <= i < |s| ==> !IsUpper(s[i])
    ensures Lower(s) == s
  {
    if s != [] { LowerOfNoUpper(s[1..]); }
  }

  // ---------------------------------------------------------------- decimal

  function DigitChar(d: nat): (c: char)
    requires d < 10
    ensures IsDigit(c)
  {
    ('0' as int + d) as char
  }

  function DigitValue(c: char): (d: nat)
    requires IsDigit(c)
    ensures d < 10 && DigitChar(d) == c
  {
    c as int - '0' as int
  }

  predicate AllDigits(s: string)
  {
    forall i :: 0 <= i < |s| ==> IsDigit(s[i])
  }

  /** The decimal digits of n, most significant first, without leading zeros. */
  function NatToDecimal(n: nat): (r: string)
    ensures |r| >= 1 && AllDigits(r)
    ensures |r| > 1 ==> r[0] != '0'
  {
    if n < 10 then [DigitChar(n)] else NatToDecimal(n / 10) + [DigitChar(n % 10)]
  }

  function Pow10(k: nat): nat
  {
    if k == 0 then 1 else 10 * Pow10(k - 1)
  }

  /** A number below 10^k has at most k decimal digits. */
  lemma {:induction false} DecimalLength(n: nat, k: nat)
    requires 1 <= k && n < Pow10(k)
    ensures |NatToDecimal(n)| <= k
  {
    if n >= 10 {
      DecimalLength(n / 10, k - 1);
    }
  }

  /** printf("%d") of an int, and Python's str() of an int: a minus sign for negatives. */
  function IntToDecimal(x: int): (r: string)
    ensures |r| >= 1
  {
    if x < 0 then "-" + NatToDecimal(-x) else NatToDecimal(x)
  }

  /** The value of a string of decimal digits. */
  function DigitsValue(s: string): (v: nat)
    requires AllDigits(s)
  {
    if s == [] then 0 else 10 * DigitsValue(s[..|s| - 1]) + DigitValue(s[|s| - 1])
  }

  lemma {:induction false} DigitsValueOfDecimal(n: nat)
    ensures DigitsValue(NatToDecimal(n)) == n
  {
    if n >= 10 {
      var r := NatToDecimal(n);
      assert r[..|r| - 1] == NatToDecimal(n / 10);
      DigitsValueOfDecimal(n / 10);
    }
  }

  /** The length of the longest prefix of s made of decimal digits. */
  function DigitRun(s: string): (k: nat)
    ensures k <= |s| && AllDigits(s[..k])
    ensures k < |s| ==> !IsDigit(s[k])
  {
    if s == [] || !IsDigit(s[0]) then 0
    else
      var k := 1 + DigitRun(s[1..]);
      assert s[..k] == [s[0]] + s[1..][..k - 1];
      k
  }

  predicate IsCSpace(c: char)
  {
    c == ' ' || c == '\t' || c == '\n' || c == '\r' || c == '\U{C}' || c == '\U{B}'
  }

  function SkipSpaces(s: string): (r: string)
    ensures r == [] || !IsCSpace(r[0])
    ensures |r| <= |s| && r == s[|s| - |r|..]
  {
    if s != [] && IsCSpace(s[0]) then SkipSpaces(s[1..]) else s
  }

  const INT_MIN: int := -0x8000_0000
  const INT_MAX: int := 0x7FFF_FFFF

  /** What atoi returns for a value outside the range of a 32-bit int: INT_MAX above it and
      INT_MIN below it, as the Microsoft C runtime does (the C standard leaves it undefined). */
  function SaturateInt(x: int): (r: int)
    ensures INT_MIN <= r <= INT_MAX
    ensures INT_MIN <= x <= INT_MAX ==> r == x
  {
    if x > INT_MAX then INT_MAX else if x < INT_MIN then INT_MIN else x
  }

  /** The number atoi reads once the white space is skipped: an optional sign, then as many
      digits as follow. */
  function SignedDigits(t: string): int
  {
    if t != [] && (t[0] == '-' || t[0] == '+') then
      var u := t[1..];
      var v: int := DigitsValue(u[..DigitRun(u)]);
      if t[0] == '-' then -v else v
    else
      DigitsValue(t[..DigitRun(t)])
  }

  /** C's atoi: skip white space, an optional sign, then as many digits as follow; the value
      saturates at the bounds of int. */
  function Atoi(s: string): (r: int)
    ensures INT_MIN <= r <= INT_MAX
  {
    SaturateInt(SignedDigits(SkipSpaces(s)))
  }

  /** Parsing what %d printed, followed by anything that is not a digit, gives the number
      back when it fits an int, and the nearer bound of int otherwise. */
  lemma AtoiOfDecimal(x: int, rest: string)
    requires rest == [] || !IsDigit(rest[0])
    ensures Atoi(IntToDecimal(x) + rest) == SaturateInt(x)
  {
    var n: nat := if x < 0 then -x else x;
    var d := NatToDecimal(n);
    DigitsValueOfDecimal(n);
    if x < 0 {
      assert IntToDecimal(x) + rest == "-" + (d + rest);
      AtoiSigned(d, rest);
    } else {
      AtoiDigits(d, rest);
    }
  }

  lemma AtoiDigits(d: string, rest: string)
    requires |d| >= 1 && AllDigits(d)
    requires rest == [] || !IsDigit(rest[0])
    ensures Atoi(d + rest) == SaturateInt(DigitsValue(d))
  {
    var s := d + rest;
    assert s[0] == d[0];
    assert IsDigit(s[0]);
    assert SkipSpaces(s) == s;
    SignedDigitsOfRun(d, rest);
  }

  /** A run of digits and what follows it is read as the run's value. */
  lemma SignedDigitsOfRun(d: string, rest: string)
    requires |d| >= 1 && AllDigits(d)
    requires rest == [] || !IsDigit(rest[0])
    ensures SignedDigits(d + rest) == DigitsValue(d)
  {
    var s := d + rest;
    assert s[0] == d[0];
    DigitRunPrefix(d, rest);
    assert s[..DigitRun(s)] == d;
  }

  /** A minus sign, a run of digits and what follows it is read as the run's negated value. */
  lemma SignedDigitsOfNegative(d: string, rest: string)
    requires |d| >= 1 && AllDigits(d)
    requires rest == [] || !IsDigit(rest[0])
    ensures SignedDigits("-" + (d + rest)) == -(DigitsValue(d) as int)
  {
    var s := "-" + (d + rest);
    assert s[0] == '-';
    var u := s[1..];
    assert u == d + rest;
    DigitRunPrefix(d, rest);
    assert u[..DigitRun(u)] == d;
  }

  lemma AtoiSigned(d: string, rest: string)
    requires |d| >= 1 && AllDigits(d)
    requires rest == [] || !IsDigit(rest[0])
    ensures Atoi("-" + (d + rest)) == SaturateInt(-(DigitsValue(d) as int))
  {
    var s := "-" + (d + rest);
    assert s[0] == '-';
    assert SkipSpaces(s) == s;
    SignedDigitsOfNegative(d, rest);
  }

  lemma DigitRunPrefix(d: string, rest: string)
    requires AllDigits(d)
    requires rest == [] || !IsDigit(rest[0])
    ensures DigitRun(d + rest) == |d|
    decreases |d|
  {
    if d != [] {
      assert (d + rest)[1..] == d[1..] + rest;
      DigitRunPrefix(d[1..], rest);
    }
  }

  // ---------------------------------------------------------------- hexadecimal

  function HexDigit(d: nat): (c: char)
    requires d < 16
    ensures IsDigit(c) || 'a' <= c <= 'f'
  {
    if d < 10 then DigitChar(d) else ('a' as int + (d - 10)) as char
  }

  /** Lower-case hexadecimal, two characters per byte ("%02x"). */
  function HexLower(bs: seq<byte>): (r: string)
    ensures |r| == 2 * |bs|
    ensures forall i :: 0 <= i < |r| ==> !IsUpper(r[i]) && !IsCSpace(r[i])
  {
    if bs == [] then []
    else [HexDigit(bs[0] / 16), HexDigit(bs[0] % 16)] + HexLower(bs[1..])
  }
}
