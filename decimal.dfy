/** Decimal text conversions used throughout the game core: std::to_string of a
    size_t, std::stoull, and the numeric extraction `is >> n` of an input
    stream (which skips leading white space and stops at the first character
    that cannot continue the number). The scanners work on positions in the
    text rather than on its suffixes. */
module Decimal {
  import opened Wrappers

  /** Largest value of a 64-bit size_t. */
  const SIZE_MAX: nat := 0xFFFF_FFFF_FFFF_FFFF
  const SIZE_MODULUS: nat := 0x1_0000_0000_0000_0000

  predicate IsDigit(c: char) { '0' <= c <= '9' }

  /** The characters std::isspace accepts in the "C" locale: the blank and
      '\t', '\n', '\v', '\f', '\r' (9 to 13). */
  predicate IsSpace(c: char) {
    c == ' ' || 9 <= c as int <= 13
  }

  predicate AllDigits(s: string) { forall i :: 0 <= i < |s| ==> IsDigit(s[i]) }

  predicate AllSpaces(s: string) { forall i :: 0 <= i < |s| ==> IsSpace(s[i]) }

  function DigitValue(c: char): (d: nat)
    ensures d < 10
  {
    if IsDigit(c) then c as int - '0' as int else 0
  }

  function DigitChar(d: nat): (c: char)
    requires d < 10
    ensures IsDigit(c) && DigitValue(c) == d
  {
    (d + '0' as int) as char
  }

  /** std::to_string of an unsigned value: decimal digits, no leading zeros. */
  function NatToString(n: nat): string
  {
    if n < 10 then [DigitChar(n)] else NatToString(n / 10) + [DigitChar(n % 10)]
  }

  /** The value of the digits s[i..j], most significant first. */
  function DigitsValue(s: string, i: nat, j: nat): nat
    requires i <= j <= |s|
    decreases j - i
  {
    if j == i then 0 else DigitsValue(s, i, j - 1) * 10 + DigitValue(s[j - 1])
  }

  /** The value of a digit string. */
  function ValueOf(s: string): nat
  {
    DigitsValue(s, 0, |s|)
  }

  /** DigitsValue reads only the characters in its range. */
  lemma {:induction false} DigitsValueFrame(s: string, i: nat, j: nat, t: string, k: nat)
    requires i <= j <= |s| && k + (j - i) <= |t|
    requires s[i..j] == t[k..k + (j - i)]
    ensures DigitsValue(s, i, j) == DigitsValue(t, k, k + (j - i))
    decreases j - i
  {
    if j > i {
      assert s[j - 1] == s[i..j][j - 1 - i] == t[k + (j - i) - 1];
      assert s[i..j - 1] == t[k..k + (j - 1 - i)] by {
        assert s[i..j - 1] == s[i..j][..j - 1 - i];
        assert t[k..k + (j - 1 - i)] == t[k..k + (j - i)][..j - 1 - i];
      }
      DigitsValueFrame(s, i, j - 1, t, k);
    }
  }

  /** NatToString writes digits only, at least one, without a leading zero, and
      they denote n again. */
  lemma {:induction false} NatToStringValue(n: nat)
    ensures |NatToString(n)| >= 1 && AllDigits(NatToString(n))
    ensures ValueOf(NatToString(n)) == n
    ensures n > 0 ==> NatToString(n)[0] != '0'
  {
    if n >= 10 {
      NatToStringValue(n / 10);
      var s := NatToString(n);
      var p := NatToString(n / 10);
      assert s == p + [DigitChar(n % 10)];
      assert s[0..|p|] == p[0..|p|];
      DigitsValueFrame(s, 0, |p|, p, 0);
    }
  }

  /** Position of the first character at or after i that is not white space. */
  function SkipSpaces(s: string, i: nat): (j: nat)
    requires i <= |s|
    ensures i <= j <= |s|
    ensures j < |s| ==> !IsSpace(s[j])
    decreases |s| - i
  {
    if i < |s| && IsSpace(s[i]) then SkipSpaces(s, i + 1) else i
  }

  /** Position of the first character at or after i that is not a digit. */
  function SkipDigits(s: string, i: nat): (j: nat)
    requires i <= |s|
    ensures i <= j <= |s|
    decreases |s| - i
  {
    if i < |s| && IsDigit(s[i]) then SkipDigits(s, i + 1) else i
  }

  /** SkipSpaces passes over a run of white space and stops at the first
      non-blank character. */
  lemma {:induction false} SkipSpacesOver(s: string, i: nat, sp: nat)
    requires i + sp < |s|
    requires forall k :: i <= k < i + sp ==> IsSpace(s[k])
    requires !IsSpace(s[i + sp])
    ensures SkipSpaces(s, i) == i + sp
    decreases sp
  {
    if sp > 0 {
      SkipSpacesOver(s, i + 1, sp - 1);
    }
  }

  lemma {:induction false} SkipDigitsOver(s: string, i: nat, d: nat)
    requires i + d <= |s|
    requires forall k :: i <= k < i + d ==> IsDigit(s[k])
    requires i + d == |s| || !IsDigit(s[i + d])
    ensures SkipDigits(s, i) == i + d
    decreases d
  {
    if d > 0 {
      SkipDigitsOver(s, i + 1, d - 1);
    }
  }

  datatype ParseError = InvalidArgument | OutOfRange

  /** std::stoull in base 10: leading white space is skipped, an optional sign
      is read, then as many digits as follow; characters after them are
      ignored. No digit throws std::invalid_argument, a value above SIZE_MAX
      throws std::out_of_range, and a minus sign negates modulo 2^64. */
  function Stoull(s: string): (r: Result<nat, ParseError>)
    ensures r.Ok? ==> r.value <= SIZE_MAX
  {
    var a := SkipSpaces(s, 0);
    var signed := a < |s| && (s[a] == '-' || s[a] == '+');
    var b := if signed then a + 1 else a;
    var e := SkipDigits(s, b);
    if e == b then Err(InvalidArgument)
    else
      var v := DigitsValue(s, b, e);
      if v > SIZE_MAX then Err(OutOfRange)
      else if signed && s[a] == '-' then Ok(if v == 0 then 0 else SIZE_MODULUS - v)
      else Ok(v)
  }

  /** SkipSpaces from the start passes over a blank prefix up to a
      non-blank character. */
  lemma SpacesBefore(s: string, spaces: string)
    requires AllSpaces(spaces)
    requires |spaces| < |s| && s[..|spaces|] == spaces && !IsSpace(s[|spaces|])
    ensures SkipSpaces(s, 0) == |spaces|
  {
    forall k | 0 <= k < |spaces| ensures IsSpace(s[k]) {
      assert s[k] == s[..|spaces|][k];
    }
    SkipSpacesOver(s, 0, |spaces|);
  }

  /** The digits of n written at position a of s are scanned up to their end
      and denote n, when no digit follows them. */
  lemma NumberAt(s: string, a: nat, n: nat)
    requires a + |NatToString(n)| <= |s|
    requires s[a..a + |NatToString(n)|] == NatToString(n)
    requires a + |NatToString(n)| == |s| || !IsDigit(s[a + |NatToString(n)|])
    ensures SkipDigits(s, a) == a + |NatToString(n)|
    ensures DigitsValue(s, a, a + |NatToString(n)|) == n
  {
    NatToStringValue(n);
    DigitsIn(s, a, NatToString(n));
  }

  /** In a number written after some white space and followed by non-digit
      text, the scanners find the digits exactly between the two. */
  lemma NumberLayout(spaces: string, n: nat, rest: string)
    requires AllSpaces(spaces)
    requires rest == [] || !IsDigit(rest[0])
    ensures SkipSpaces(spaces + NatToString(n) + rest, 0) == |spaces|
    ensures SkipDigits(spaces + NatToString(n) + rest, |spaces|) == |spaces| + |NatToString(n)|
    ensures DigitsValue(spaces + NatToString(n) + rest, |spaces|, |spaces| + |NatToString(n)|) == n
    ensures (spaces + NatToString(n) + rest)[|spaces| + |NatToString(n)|..] == rest
  {
    LayoutSpaces(spaces, n, rest);
    LayoutDigits(spaces, n, rest);
  }

  lemma LayoutSpaces(spaces: string, n: nat, rest: string)
    requires AllSpaces(spaces)
    ensures SkipSpaces(spaces + NatToString(n) + rest, 0) == |spaces|
    ensures (spaces + NatToString(n) + rest)[|spaces| + |NatToString(n)|..] == rest
  {
    var d := NatToString(n);
    NatToStringValue(n);
    var s := spaces + d + rest;
    assert s[|spaces|] == d[0];
    assert s[..|spaces|] == spaces;
    SpacesBefore(s, spaces);
    assert s[|spaces| + |d|..] == rest;
  }

  lemma LayoutDigits(spaces: string, n: nat, rest: string)
    requires rest == [] || !IsDigit(rest[0])
    ensures SkipDigits(spaces + NatToString(n) + rest, |spaces|) == |spaces| + |NatToString(n)|
    ensures DigitsValue(spaces + NatToString(n) + rest, |spaces|, |spaces| + |NatToString(n)|) == n
  {
    NatToStringValue(n);
    DigitsBetween(spaces, NatToString(n), rest);
  }

  /** A run of digits d between x and a text z that does not start with one
      is scanned up to its end and denotes the value of d. */
  lemma DigitsBetween(x: string, d: string, z: string)
    requires AllDigits(d)
    requires z == [] || !IsDigit(z[0])
    ensures SkipDigits(x + d + z, |x|) == |x| + |d|
    ensures DigitsValue(x + d + z, |x|, |x| + |d|) == ValueOf(d)
  {
    Middle(x, d, z);
    DigitsIn(x + d + z, |x|, d);
  }

  /** A run of digits d at position a of s, followed by no further digit, is
      scanned up to its end and denotes the value of d. */
  lemma DigitsIn(s: string, a: nat, d: string)
    requires AllDigits(d) && a + |d| <= |s| && s[a..a + |d|] == d
    requires a + |d| == |s| || !IsDigit(s[a + |d|])
    ensures SkipDigits(s, a) == a + |d|
    ensures DigitsValue(s, a, a + |d|) == ValueOf(d)
  {
    forall k | a <= k < a + |d| ensures IsDigit(s[k]) {
      assert s[k] == s[a..a + |d|][k - a];
    }
    SkipDigitsOver(s, a, |d|);
    assert d[0..|d|] == d;
    DigitsValueFrame(s, a, a + |d|, d, 0);
  }

  /** Where the middle part of x + d + z lies. */
  lemma Middle(x: string, d: string, z: string)
    ensures (x + d + z)[|x|..|x| + |d|] == d
    ensures z != [] ==> (x + d + z)[|x| + |d|] == z[0]
  {
    var s := x + d + z;
    assert s == x + (d + z);
    assert s[|x|..] == d + z;
  }

  /** std::stoull reads back what std::to_string wrote, whatever non-digit text
      follows it. */
  lemma StoullOfNatToString(n: nat, rest: string)
    requires n <= SIZE_MAX
    requires rest == [] || !IsDigit(rest[0])
    ensures Stoull(NatToString(n) + rest) == Ok(n)
  {
    var d := NatToString(n);
    var s := d + rest;
    FirstDigit(n);
    assert s[0] == d[0];
    SkipSpacesOver(s, 0, 0);
    assert s[0..|d|] == d;
    if rest != [] {
      assert s[|d|] == rest[0];
    }
    NumberAt(s, 0, n);
  }

  lemma FirstDigit(n: nat)
    ensures |NatToString(n)| >= 1 && IsDigit(NatToString(n)[0])
  {
    NatToStringValue(n);
  }

  /** `is >> n` for a size_t: skip white space, an optional sign, then
      digits; the rest of the stream is returned. No digit, or a magnitude
      above SIZE_MAX, is a failed extraction; a minus sign negates the
      magnitude modulo 2^64, as num_get does for an unsigned type. */
  function ExtractNat(s: string): (r: Option<(nat, string)>)
    ensures r.Some? ==> r.value.0 <= SIZE_MAX && |r.value.1| < |s|
  {
    var a := SkipSpaces(s, 0);
    var signed := a < |s| && (s[a] == '-' || s[a] == '+');
    var b := if signed then a + 1 else a;
    var e := SkipDigits(s, b);
    if e == b || DigitsValue(s, b, e) > SIZE_MAX then None
    else
      var v := DigitsValue(s, b, e);
      Some((if signed && s[a] == '-' && v != 0 then SIZE_MODULUS - v else v, s[e..]))
  }

  /** A signed number: "+n" reads as n, and "-n" as 2^64 - n, so "-1" is
      SIZE_MAX; the text after the digits stays in the stream. */
  lemma ExtractNatSigned(n: nat, rest: string)
    requires n <= SIZE_MAX
    requires rest == [] || !IsDigit(rest[0])
    ensures ExtractNat("+" + NatToString(n) + rest) == Some((n, rest))
    ensures ExtractNat("-" + NatToString(n) + rest) == Some((if n == 0 then 0 else SIZE_MODULUS - n, rest))
    ensures ExtractNat("-1") == Some((SIZE_MAX, ""))
  {
    var d := NatToString(n);
    SignedAt('+', d, rest, n);
    SignedAt('-', d, rest, n);
    assert NatToString(1) == "1";
    SignedAt('-', "1", "", 1);
  }

  lemma SignedAt(sign: char, d: string, rest: string, n: nat)
    requires sign == '+' || sign == '-'
    requires n <= SIZE_MAX && d == NatToString(n)
    requires rest == [] || !IsDigit(rest[0])
    ensures var s := [sign] + d + rest;
      SkipSpaces(s, 0) == 0 && SkipDigits(s, 1) == 1 + |d| && DigitsValue(s, 1, 1 + |d|) == n && s[1 + |d|..] == rest
  {
    var s := [sign] + d + rest;
    FirstDigit(n);
    SkipSpacesOver(s, 0, 0);
    assert s[1..1 + |d|] == d;
    if rest != [] {
      assert s[1 + |d|] == rest[0];
    }
    NumberAt(s, 1, n);
  }

  /** Extraction reads back a number written by to_string and leaves the
      text after it in the stream. */
  lemma ExtractNatOfNumeral(n: nat, rest: string)
    requires n <= SIZE_MAX
    requires rest == [] || !IsDigit(rest[0])
    ensures ExtractNat(NatToString(n) + rest) == Some((n, rest))
  {
    assert "" + NatToString(n) + rest == NatToString(n) + rest;
    ExtractNatOfNatToString("", n, rest);
  }

  /** The same, with white space before the number. */
  lemma ExtractNatOfNatToString(spaces: string, n: nat, rest: string)
    requires AllSpaces(spaces)
    requires n <= SIZE_MAX
    requires rest == [] || !IsDigit(rest[0])
    ensures ExtractNat(spaces + NatToString(n) + rest) == Some((n, rest))
  {
    NumberLayout(spaces, n, rest);
    NatToStringValue(n);
  }

  /** `is >> v` for a signed number: skip white space, an optional sign, then
      at least one digit; the rest of the stream is returned. */
  function ExtractInt(s: string): (r: Option<(int, string)>)
    ensures r.Some? ==> |r.value.1| < |s| && r.value.1 == s[|s| - |r.value.1|..]
  {
    var a := SkipSpaces(s, 0);
    var signed := a < |s| && (s[a] == '-' || s[a] == '+');
    var b := if signed then a + 1 else a;
    var e := SkipDigits(s, b);
    if e == b then None
    else
      var v := DigitsValue(s, b, e);
      Some((if signed && s[a] == '-' then -(v as int) else v as int, s[e..]))
  }

  /** Decimal text of a signed number, as an output stream writes it. */
  function IntToString(i: int): string
  {
    if i < 0 then "-" + NatToString(-i) else NatToString(i)
  }

  lemma ExtractIntOfIntToString(i: int, rest: string)
    requires rest == [] || !IsDigit(rest[0])
    ensures ExtractInt(IntToString(i) + rest) == Some((i, rest))
  {
    if i < 0 {
      ExtractNegative(-i, rest);
      assert IntToString(i) + rest == "-" + NatToString(-i) + rest;
    } else {
      ExtractNonNegative(i, rest);
    }
  }

  lemma ExtractNonNegative(m: nat, rest: string)
    requires rest == [] || !IsDigit(rest[0])
    ensures ExtractInt(NatToString(m) + rest) == Some((m as int, rest))
  {
    var d := NatToString(m);
    var s := d + rest;
    FirstDigit(m);
    assert s[0] == d[0];
    SkipSpacesOver(s, 0, 0);
    assert s[0..|d|] == d;
    if rest != [] {
      assert s[|d|] == rest[0];
    }
    NumberAt(s, 0, m);
    assert s[|d|..] == rest;
  }

  lemma ExtractNegative(m: nat, rest: string)
    requires m > 0
    requires rest == [] || !IsDigit(rest[0])
    ensures ExtractInt("-" + NatToString(m) + rest) == Some((-(m as int), rest))
  {
    var d := NatToString(m);
    var s := "-" + d + rest;
    SkipSpacesOver(s, 0, 0);
    assert s[1..1 + |d|] == d;
    if rest != [] {
      assert s[1 + |d|] == rest[0];
    }
    NumberAt(s, 1, m);
    assert s[1 + |d|..] == rest;
  }

  /** One more row of w cells: (n - 1) * w + w == n * w. */
  lemma MulPred(n: nat, w: nat)
    requires n > 0
    ensures (n - 1) * w + w == n * w
  {
  }
}
