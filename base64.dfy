/** The base64 namespace of CGPGenotype.hpp. Its "base64" is positional
    notation in base 64 with the digit characters CHARS (not the usual
    encoding): whole numbers are written most significant digit first, and
    strings of bits are cut into groups of six. */
module Base64 {
  import opened Wrappers
  import opened Decimal

  /** base64::CHARS: the digit characters, value 0 to 63. */
  const CHARS: string := DIGITS + LOWER + UPPER + "+/"

  const DIGITS: string := "0123456789"
  const LOWER: string := "abcdefghijklmnopqrstuvwxyz"
  const UPPER: string := "ABCDEFGHIJKLMNOPQRSTUVWXYZ"

  /** base64::MAX_CHAR, the largest digit character ('z'); CHAR_TO_IDX has
      MAX_CHAR + 1 entries, so larger characters index out of bounds. */
  const MAX_CHAR: nat := 122

  predicate InTable(c: char) { c as int <= MAX_CHAR }

  predicate AllInTable(s: string) { forall i :: 0 <= i < |s| ==> InTable(s[i]) }

  /** The digit character of value k, CHARS[k] (see CharsTable). */
  function Digit(k: nat): (c: char)
    requires k < 64
  {
    if k < 10 then ('0' as int + k) as char
    else if k < 36 then ('a' as int + k - 10) as char
    else if k < 62 then ('A' as int + k - 36) as char
    else if k == 62 then '+'
    else '/'
  }

  /** base64::CHAR_TO_IDX: a digit character's value; every other character
      in range keeps the zero the table was initialised with. */
  function CharToIdx(c: char): (k: nat)
    ensures k < 64
  {
    if '0' <= c <= '9' then c as int - '0' as int
    else if 'a' <= c <= 'z' then c as int - 'a' as int + 10
    else if 'A' <= c <= 'Z' then c as int - 'A' as int + 36
    else if c == '+' then 62
    else if c == '/' then 63
    else 0
  }

  /** CHAR_TO_IDX inverts CHARS, and every digit character is in the table. */
  lemma DigitTable(k: nat)
    requires k < 64
    ensures CharToIdx(Digit(k)) == k && InTable(Digit(k))
  {
  }

  /** Digit spells out the CHARS string. */
  lemma CharsTable(k: nat)
    requires k < 64
    ensures |CHARS| == 64 && CHARS[k] == Digit(k)
  {
    if k < 10 {
      assert CHARS[k] == DIGITS[k];
      assert k == 0 || k == 1 || k == 2 || k == 3 || k == 4 || k == 5 || k == 6 || k == 7 || k == 8 || k == 9;
    } else if k < 36 {
      assert CHARS[k] == LOWER[k - 10];
      assert k == 10 || k == 11 || k == 12 || k == 13 || k == 14 || k == 15 || k == 16 || k == 17 || k == 18 || k == 19 || k == 20 || k == 21 || k == 22 || k == 23 || k == 24 || k == 25 || k == 26 || k == 27 || k == 28 || k == 29 || k == 30 || k == 31 || k == 32 || k == 33 || k == 34 || k == 35;
    } else if k < 62 {
      assert CHARS[k] == UPPER[k - 36];
      assert k == 36 || k == 37 || k == 38 || k == 39 || k == 40 || k == 41 || k == 42 || k == 43 || k == 44 || k == 45 || k == 46 || k == 47 || k == 48 || k == 49 || k == 50 || k == 51 || k == 52 || k == 53 || k == 54 || k == 55 || k == 56 || k == 57 || k == 58 || k == 59 || k == 60 || k == 61;
    }
  }

  // ---------------------------------------------------------------------
  // Whole numbers: ULLToB64 and B64ToULL

  function Pow64(k: nat): (p: nat)
    ensures p >= 1
  {
    if k == 0 then 1 else 64 * Pow64(k - 1)
  }

  /** The number of base-64 digits of x (1 for 0). ULLToB64 computes it as
      1 + floor(log(x) / log(64)) in floating point. */
  function NumDigits(x: nat): (n: nat)
    ensures n >= 1
  {
    if x < 64 then 1 else 1 + NumDigits(x / 64)
  }

  /** The base-64 numeral of x, most significant digit first. */
  function Encode(x: nat): (r: string)
    ensures |r| == NumDigits(x)
  {
    if x < 64 then [Digit(x)] else Encode(x / 64) + [Digit(x % 64)]
  }

  /** x with its i lowest digits dropped. */
  function Shifted(x: nat, i: nat): nat
  {
    if i == 0 then x else Shifted(x / 64, i - 1)
  }

  /** The i lowest digits of x, most significant first. */
  function LowDigits(x: nat, i: nat): (r: string)
    ensures |r| == i
  {
    if i == 0 then [] else [Digit(Shifted(x, i - 1) % 64)] + LowDigits(x, i - 1)
  }

  lemma {:induction false} ShiftedStep(x: nat, i: nat)
    ensures Shifted(x, i + 1) == Shifted(x, i) / 64
  {
    if i > 0 {
      ShiftedStep(x / 64, i - 1);
    }
  }

  lemma {:induction false} ShiftedZero(i: nat)
    ensures Shifted(0, i) == 0
  {
    if i > 0 {
      ShiftedZero(i - 1);
    }
  }

  /** Dropping fewer digits than x has leaves something, dropping all leaves 0. */
  lemma {:induction false} ShiftedPositive(x: nat, i: nat)
    requires x > 0
    ensures Shifted(x, i) > 0 <==> i < NumDigits(x)
  {
    if i > 0 {
      if x < 64 {
        ShiftedZero(i - 1);
      } else {
        ShiftedPositive(x / 64, i - 1);
      }
    }
  }

  /** The leading digit of the i + 1 lowest digits of x is a digit of x / 64. */
  lemma LowDigitsHead(x: nat, i: nat)
    requires i > 0
    ensures LowDigits(x, i + 1) == [Digit(Shifted(x / 64, i - 1) % 64)] + LowDigits(x, i)
  {
    assert Shifted(x, i) == Shifted(x / 64, i - 1);
  }

  lemma {:induction false} LowDigitsSplit(x: nat, i: nat)
    ensures LowDigits(x, i + 1) == LowDigits(x / 64, i) + [Digit(x % 64)]
  {
    if i > 0 {
      var c := Digit(Shifted(x / 64, i - 1) % 64);
      var d := Digit(x % 64);
      LowDigitsHead(x, i);
      LowDigitsSplit(x, i - 1);
      assert LowDigits(x / 64, i) == [c] + LowDigits(x / 64, i - 1);
      assert [c] + (LowDigits(x / 64, i - 1) + [d]) == ([c] + LowDigits(x / 64, i - 1)) + [d];
    }
  }

  lemma {:induction false} LowDigitsAll(x: nat)
    ensures LowDigits(x, NumDigits(x)) == Encode(x)
  {
    if x >= 64 {
      var n := NumDigits(x / 64);
      assert NumDigits(x) == n + 1;
      LowDigitsAll(x / 64);
      LowDigitsSplit(x, n);
    }
  }

  /** base64::ULLToB64: the digits are written into a string of the right
      length from its end. */
  method ULLToB64(value: nat) returns (r: string)
    requires value <= SIZE_MAX
    ensures r == Encode(value)
  {
    if value == 0 {
      return "0";
    }
    var n := NumDigits(value);
    var result := seq(n, _ => ' ');
    var ull := value;
    var i := 0;
    LowDigitsAll(value);
    while ull > 0
      invariant i <= n && ull == Shifted(value, i)
      invariant result == seq(n - i, _ => ' ') + LowDigits(value, i)
      decreases ull
    {
      ShiftedPositive(value, i);
      ShiftedStep(value, i);
      PlaceDigit(value, n, i, result);
      result := result[n - 1 - i := Digit(ull % 64)];
      ull := ull / 64;
      i := i + 1;
    }
    ShiftedPositive(value, i);
    return result;
  }

  /** Writing digit i from the end over the last blank of the padding. */
  lemma PlaceDigit(value: nat, n: nat, i: nat, result: string)
    requires i < n && result == seq(n - i, _ => ' ') + LowDigits(value, i)
    ensures result[n - 1 - i := Digit(Shifted(value, i) % 64)] ==
      seq(n - i - 1, _ => ' ') + LowDigits(value, i + 1)
  {
    assert seq(n - i, _ => ' ') == seq(n - i - 1, _ => ' ') + [' '];
  }

  /** Without leading zeros: for x > 0 the numeral does not start with '0',
      and it is made of digit characters only. */
  lemma {:induction false} EncodeShape(x: nat)
    ensures x > 0 ==> Encode(x)[0] != '0'
    ensures forall i :: 0 <= i < |Encode(x)| ==> Encode(x)[i] in CHARS && InTable(Encode(x)[i])
  {
    if x < 64 {
      DigitTable(x);
      CharsTable(x);
      assert Encode(x) == [Digit(x)];
    } else {
      EncodeShape(x / 64);
      DigitTable(x % 64);
      CharsTable(x % 64);
    }
  }

  /** The value of the first i digits of s, each weighted by its place in
      the whole string: B64ToULL's sum. */
  function PlaceSum(s: string, i: nat): nat
    requires i <= |s|
  {
    if i == 0 then 0 else PlaceSum(s, i - 1) + CharToIdx(s[i - 1]) * Pow64(|s| - i)
  }

  /** The value of a base-64 numeral. */
  function Decode(s: string): nat
  {
    PlaceSum(s, |s|)
  }

  lemma {:induction false} PlaceSumAppend(s: string, c: char, i: nat)
    requires i <= |s|
    ensures PlaceSum(s + [c], i) == 64 * PlaceSum(s, i)
  {
    if i > 0 {
      var t := s + [c];
      var d := CharToIdx(s[i - 1]);
      var w := Pow64(|s| - i);
      PlaceSumAppend(s, c, i - 1);
      assert t[i - 1] == s[i - 1];
      assert Pow64(|t| - i) == 64 * w;
      calc {
        PlaceSum(t, i);
        PlaceSum(t, i - 1) + d * Pow64(|t| - i);
        64 * PlaceSum(s, i - 1) + d * (64 * w);
        { Scale64(d, w); }
        64 * PlaceSum(s, i - 1) + 64 * (d * w);
        64 * PlaceSum(s, i);
      }
    }
  }

  lemma Scale64(d: nat, w: nat)
    ensures d * (64 * w) == 64 * (d * w)
  {
  }

  lemma DecodeAppend(s: string, c: char)
    ensures Decode(s + [c]) == 64 * Decode(s) + CharToIdx(c)
  {
    PlaceSumAppend(s, c, |s|);
    assert (s + [c])[|s|] == c;
  }

  /** Decoding the numeral of x gives x back. */
  lemma {:induction false} DecodeEncode(x: nat)
    ensures Decode(Encode(x)) == x
  {
    if x < 64 {
      DigitTable(x);
      assert PlaceSum(Encode(x), 1) == PlaceSum(Encode(x), 0) + CharToIdx(Digit(x)) * Pow64(0);
    } else {
      DecodeEncode(x / 64);
      DecodeAppend(Encode(x / 64), Digit(x % 64));
      DigitTable(x % 64);
    }
  }

  /** A value below 64^k has at most k digits. */
  lemma {:induction false} NumDigitsBound(x: nat, k: nat)
    requires k >= 1 && x < Pow64(k)
    ensures NumDigits(x) <= k
  {
    if x >= 64 {
      assert k >= 2;
      NumDigitsBound(x / 64, k - 1);
    }
  }

  lemma SizeMaxDigits()
    ensures SIZE_MAX < Pow64(11)
  {
    assert Pow64(2) == 4096;
    assert Pow64(4) == 4096 * 4096 by { assert Pow64(4) == 64 * (64 * Pow64(2)); }
    assert Pow64(6) == 4096 * 4096 * 4096 by { assert Pow64(6) == 64 * (64 * Pow64(4)); }
    assert Pow64(8) == 4096 * 4096 * 4096 * 4096 by { assert Pow64(8) == 64 * (64 * Pow64(6)); }
    assert Pow64(10) == 4096 * 4096 * 4096 * 4096 * 4096 by { assert Pow64(10) == 64 * (64 * Pow64(8)); }
  }

  lemma ModAdd(a: nat, t: nat)
    ensures (a % SIZE_MODULUS + t) % SIZE_MODULUS == (a + t) % SIZE_MODULUS
  {
    assert a == (a / SIZE_MODULUS) * SIZE_MODULUS + a % SIZE_MODULUS;
  }

  /** base64::B64ToULL: the sum of each digit times 64 to the power of its
      place, in size_t arithmetic. std::pow's double result converts to
      size_t only for powers up to 64^10, and CHAR_TO_IDX is indexed by the
      character, hence the requires. */
  method B64ToULL(numBase64: string) returns (r: nat)
    requires |numBase64| <= 11 && AllInTable(numBase64)
    ensures r == Decode(numBase64) % SIZE_MODULUS
  {
    var result := 0;
    var i := 0;
    while i < |numBase64|
      invariant i <= |numBase64| && result == PlaceSum(numBase64, i) % SIZE_MODULUS
    {
      var coeff := Pow64(|numBase64| - i - 1);
      ModAdd(PlaceSum(numBase64, i), CharToIdx(numBase64[i]) * coeff);
      result := (result + CharToIdx(numBase64[i]) * coeff) % SIZE_MODULUS;
      i := i + 1;
    }
    return result;
  }

  /** The round trip B64ToULL(ULLToB64(x)) == x: the numeral of a size_t is
      short enough and uses table characters, so B64ToULL may read it, and
      its value is x again without wrapping. */
  lemma ULLRoundTrip(x: nat)
    requires x <= SIZE_MAX
    ensures |Encode(x)| <= 11 && AllInTable(Encode(x))
    ensures Decode(Encode(x)) % SIZE_MODULUS == x
    ensures Encode(0) == "0"
  {
    assert |Encode(x)| <= 11 by {
      SizeMaxDigits();
      NumDigitsBound(x, 11);
    }
    assert AllInTable(Encode(x)) by {
      EncodeShape(x);
    }
    assert Decode(Encode(x)) == x by {
      DecodeEncode(x);
    }
    assert Encode(0) == [Digit(0)];
  }

  // ---------------------------------------------------------------------
  // Bit strings: B2ToB64 and B64ToB2

  predicate IsBinary(s: string)
  {
    forall i :: 0 <= i < |s| ==> s[i] == '0' || s[i] == '1'
  }

  predicate AllZero(s: string)
  {
    forall i :: 0 <= i < |s| ==> s[i] == '0'
  }

  function Zeros(n: nat): (r: string)
    ensures |r| == n
  {
    seq(n, _ => '0')
  }

  function Pow2(n: nat): (p: nat)
    ensures p >= 1
  {
    if n == 0 then 1 else 2 * Pow2(n - 1)
  }

  /** The value of a string of bits, most significant first: what
      std::bitset<6>(buffer).to_ulong() returns for six bits. */
  function BitsValue(g: string): (v: nat)
    ensures v < Pow2(|g|)
  {
    if g == [] then 0
    else 2 * BitsValue(g[..|g| - 1]) + (if g[|g| - 1] == '1' then 1 else 0)
  }

  /** The n lowest bits of k, most significant first: what
      std::bitset<6>(k).to_string() returns for n == 6. */
  function Bits(k: nat, n: nat): (r: string)
    ensures |r| == n
  {
    if n == 0 then [] else Bits(k / 2, n - 1) + [if k % 2 == 1 then '1' else '0']
  }

  lemma {:induction false} BitsBinary(k: nat, n: nat)
    ensures IsBinary(Bits(k, n))
  {
    if n > 0 {
      BitsBinary(k / 2, n - 1);
    }
  }

  /** std::bitset reads back the bits it wrote, and writes back the bits
      it read. */
  lemma {:induction false} BitsOfValue(g: string)
    requires IsBinary(g)
    ensures Bits(BitsValue(g), |g|) == g
  {
    if g != [] {
      var h := g[..|g| - 1];
      BitsOfValue(h);
      assert g == h + [g[|g| - 1]];
    }
  }

  lemma {:induction false} ValueOfBits(k: nat, n: nat)
    requires k < Pow2(n)
    ensures BitsValue(Bits(k, n)) == k
  {
    if n > 0 {
      ValueOfBits(k / 2, n - 1);
      var r := Bits(k, n);
      assert r[..n - 1] == Bits(k / 2, n - 1);
    }
  }

  lemma {:induction false} ZerosValue(g: string)
    requires AllZero(g)
    ensures BitsValue(g) == 0
  {
    if g != [] {
      ZerosValue(g[..|g| - 1]);
    }
  }

  lemma {:induction false} ZerosBits(n: nat)
    ensures Bits(0, n) == Zeros(n)
  {
    if n > 0 {
      ZerosBits(n - 1);
      assert Zeros(n) == Zeros(n - 1) + ['0'];
    }
  }

  /** A group of bits is worth 0 exactly when all its bits are 0. */
  lemma ZeroGroup(g: string)
    requires IsBinary(g)
    ensures BitsValue(g) == 0 <==> AllZero(g)
  {
    if AllZero(g) {
      ZerosValue(g);
    } else if BitsValue(g) == 0 {
      BitsOfValue(g);
      ZerosBits(|g|);
    }
  }

  /** The bits of a string padded with zeros on the left to a whole number
      of six-bit groups. */
  function Pad(b: string): (p: string)
    ensures |p| % 6 == 0 && |b| <= |p| < |b| + 6
    ensures p == Zeros(|p| - |b|) + b
  {
    if |b| % 6 == 0 then b else Zeros(6 - |b| % 6) + b
  }

  /** One digit per six-bit group of p. */
  function Groups(p: string): (r: string)
    requires |p| % 6 == 0
    ensures |r| == |p| / 6
  {
    if p == [] then [] else Groups(p[..|p| - 6]) + [Digit(BitsValue(p[|p| - 6..]))]
  }

  /** What B2ToB64 returns: None where std::bitset throws
      std::invalid_argument, "0" for a string of zeros (the empty string
      included), and otherwise a digit per six-bit group of the padded
      input. */
  function FromBits(b: string): (r: Option<string>)
    ensures r.None? <==> !IsBinary(b)
  {
    if !IsBinary(b) then None
    else if AllZero(b) then Some("0")
    else Some(Groups(Pad(b)))
  }

  /** base64::B2ToB64. The padding step calls B2ToB64 again, as the source
      does. */
  method B2ToB64(binary: string) returns (r: Option<string>)
    ensures r == FromBits(binary)
    decreases if |binary| % 6 == 0 then 0 else 1
  {
    var remainder := |binary| % 6;
    if remainder != 0 {
      var padded := Zeros(6 - remainder) + binary;
      assert |padded| % 6 == 0 by {
        PaddedLength(|binary|);
      }
      r := B2ToB64(padded);
      assert r == FromBits(binary) by {
        PaddedFromBits(binary);
      }
      return;
    }
    r := GroupDigits(binary);
    assert r == FromBits(binary) by {
      ScanFromBits(binary);
      if IsBinary(binary) {
        AlignedFromBits(binary);
      }
    }
  }

  /** The loop of base64::B2ToB64, reached once the input is a whole number
      of six-bit groups: std::bitset<6> rejects a group that is not binary,
      otherwise each group gives one digit, and all-zero input gives "0". */
  method GroupDigits(binary: string) returns (r: Option<string>)
    requires |binary| % 6 == 0
    ensures Scan(binary).None? ==> r.None?
    ensures Scan(binary).Some? ==> r == Some(if Scan(binary).value.1 then "0" else Scan(binary).value.0)
  {
    var result := "";
    var allZeros := true;
    var i := 0;
    while i < |binary|
      invariant i % 6 == 0 && i <= |binary|
      invariant Scan(binary[..i]) == Some((result, allZeros))
    {
      SixStep(i, |binary|);
      var buffer := binary[i..i + 6];
      ScanStep(binary, i);
      if !IsBinary(buffer) {
        ScanNone(binary, i + 6);
        return None;
      }
      var ull := BitsValue(buffer);
      result := result + [Digit(ull)];
      if ull != 0 {
        allZeros := false;
      }
      i := i + 6;
    }
    assert binary[..i] == binary;
    if allZeros {
      return Some("0");
    }
    return Some(result);
  }

  /** A group that is not binary ends the scan for good. */
  lemma ScanNone(binary: string, k: nat)
    requires k <= |binary| && k % 6 == 0 && |binary| % 6 == 0
    requires Scan(binary[..k]).None?
    ensures Scan(binary).None?
  {
    ScanFromBits(binary[..k]);
    NotBinaryPrefix(binary, k);
    ScanFromBits(binary);
  }

  /** The loop of B2ToB64 over an aligned prefix: None once a group is not
      binary, otherwise the digits so far and whether every group was zero. */
  function Scan(p: string): (r: Option<(string, bool)>)
    requires |p| % 6 == 0
  {
    if p == [] then Some(([], true))
    else
      match Scan(p[..|p| - 6])
      case None => None
      case Some((d, z)) =>
        var g := p[|p| - 6..];
        if !IsBinary(g) then None else Some((d + [Digit(BitsValue(g))], z && BitsValue(g) == 0))
  }

  lemma ScanStep(binary: string, i: nat)
    requires i % 6 == 0 && i + 6 <= |binary|
    ensures Scan(binary[..i + 6]) ==
      match Scan(binary[..i])
      case None => None
      case Some((d, z)) =>
        if !IsBinary(binary[i..i + 6]) then None
        else Some((d + [Digit(BitsValue(binary[i..i + 6]))], z && BitsValue(binary[i..i + 6]) == 0))
  {
    var next := binary[..i + 6];
    assert next[..|next| - 6] == binary[..i];
    assert next[|next| - 6..] == binary[i..i + 6];
  }

  /** The loop computes the digits of the groups and whether all bits are
      zero, or fails exactly when some bit is not binary. */
  lemma {:induction false} ScanFromBits(p: string)
    requires |p| % 6 == 0
    ensures Scan(p) == if IsBinary(p) then Some((Groups(p), AllZero(p))) else None
  {
    if p != [] {
      var q := p[..|p| - 6];
      var g := p[|p| - 6..];
      ScanFromBits(q);
      assert p == q + g;
      assert IsBinary(p) <==> IsBinary(q) && IsBinary(g) by {
        assert forall k :: 0 <= k < |q| ==> p[k] == q[k];
        assert forall k :: 0 <= k < |g| ==> p[|q| + k] == g[k];
      }
      if IsBinary(p) {
        assert AllZero(p) <==> AllZero(q) && AllZero(g) by {
          assert forall k :: 0 <= k < |q| ==> p[k] == q[k];
          assert forall k :: 0 <= k < |g| ==> p[|q| + k] == g[k];
        }
        ZeroGroup(g);
      }
    }
  }

  lemma NotBinaryPrefix(binary: string, k: nat)
    requires k <= |binary| && !IsBinary(binary[..k])
    ensures !IsBinary(binary)
  {
    var j :| 0 <= j < k && binary[..k][j] != '0' && binary[..k][j] != '1';
    assert binary[j] == binary[..k][j];
  }

  lemma SixStep(i: nat, n: nat)
    requires i % 6 == 0 && n % 6 == 0 && i < n
    ensures i + 6 <= n && (i + 6) % 6 == 0
  {
  }

  lemma PaddedLength(n: nat)
    requires n % 6 != 0
    ensures (6 - n % 6 + n) % 6 == 0
  {
  }

  lemma PaddedFromBits(binary: string)
    requires |binary| % 6 != 0
    ensures FromBits(Zeros(6 - |binary| % 6) + binary) == FromBits(binary)
  {
    var z := Zeros(6 - |binary| % 6);
    var padded := z + binary;
    assert forall k :: 0 <= k < |binary| ==> padded[|z| + k] == binary[k];
    assert forall k :: 0 <= k < |z| ==> padded[k] == '0';
    assert IsBinary(padded) <==> IsBinary(binary);
    assert AllZero(padded) <==> AllZero(binary);
  }

  lemma AlignedFromBits(b: string)
    requires |b| % 6 == 0 && IsBinary(b)
    ensures FromBits(b) == if AllZero(b) then Some("0") else Some(Groups(b))
  {
  }

  /** The bits of the digits of s, six per digit. */
  function Expand(s: string): (t: string)
    ensures |t| == 6 * |s|
  {
    if s == [] then [] else Expand(s[..|s| - 1]) + Bits(CharToIdx(s[|s| - 1]), 6)
  }

  lemma {:induction false} ExpandBinary(s: string)
    ensures IsBinary(Expand(s))
  {
    if s != [] {
      ExpandBinary(s[..|s| - 1]);
      BitsBinary(CharToIdx(s[|s| - 1]), 6);
    }
  }

  /** The index of the first character of t that is not '0' (|t| when
      there is none, where std::string::find_first_not_of returns npos). */
  function FirstNonZero(t: string): (k: nat)
    ensures k <= |t|
    ensures k < |t| ==> t[k] != '0'
  {
    FirstNonZeroFrom(t, 0)
  }

  /** The index of the first character of t at or after i that is not '0'. */
  function FirstNonZeroFrom(t: string, i: nat): (k: nat)
    requires i <= |t|
    ensures i <= k <= |t|
    ensures k < |t| ==> t[k] != '0'
    decreases |t| - i
  {
    if i == |t| || t[i] != '0' then i else FirstNonZeroFrom(t, i + 1)
  }

  lemma ZerosBeforeFirstNonZero(t: string)
    ensures forall j :: 0 <= j < FirstNonZero(t) ==> t[j] == '0'
  {
    ZerosBeforeFrom(t, 0);
  }

  lemma {:induction false} ZerosBeforeFrom(t: string, i: nat)
    requires i <= |t|
    ensures forall j :: i <= j < FirstNonZeroFrom(t, i) ==> t[j] == '0'
    decreases |t| - i
  {
    if i < |t| && t[i] == '0' {
      ZerosBeforeFrom(t, i + 1);
    }
  }

  /** The erase in B64ToB2: leading zeros go, except the last character. */
  function Strip(t: string): string
  {
    if t == [] then [] else t[Min(FirstNonZero(t), |t| - 1)..]
  }

  function Min(a: nat, b: nat): nat
  {
    if a <= b then a else b
  }

  /** What B64ToB2 returns. */
  function ToBits(s: string): string
  {
    Strip(Expand(s))
  }

  /** base64::B64ToB2: six bits per character, then the leading zeros are
      erased. CHAR_TO_IDX is indexed by the character, hence the requires. */
  method B64ToB2(base64: string) returns (r: string)
    requires AllInTable(base64)
    ensures r == ToBits(base64)
  {
    var result := "";
    var i := 0;
    while i < |base64|
      invariant i <= |base64| && result == Expand(base64[..i])
    {
      assert base64[..i + 1][..i] == base64[..i];
      result := result + Bits(CharToIdx(base64[i]), 6);
      i := i + 1;
    }
    assert base64[..i] == base64;
    if result == [] {
      return result;
    }
    return result[Min(FirstNonZero(result), |result| - 1)..];
  }

  /** B64ToB2 only removes zeros from the left, keeps at least one
      character of a non-empty input, and what it keeps starts with a 1
      unless it is the single character "0". */
  lemma ToBitsShape(s: string)
    ensures s != [] ==> |ToBits(s)| >= 1
    ensures s != [] ==> ToBits(s)[0] == '1' || ToBits(s) == "0"
    ensures IsBinary(ToBits(s)) && |ToBits(s)| <= |Expand(s)|
    ensures Expand(s) == Zeros(|Expand(s)| - |ToBits(s)|) + ToBits(s)
  {
    ExpandBinary(s);
    StripShape(Expand(s));
  }

  /** Stripping a binary string removes only leading zeros and keeps a
      leading 1 or a single "0". */
  lemma StripShape(t: string)
    requires IsBinary(t)
    ensures t != [] ==> |Strip(t)| >= 1 && (Strip(t)[0] == '1' || Strip(t) == "0")
    ensures IsBinary(Strip(t)) && |Strip(t)| <= |t|
    ensures t == Zeros(|t| - |Strip(t)|) + Strip(t)
  {
    if t != [] {
      var k := Min(FirstNonZero(t), |t| - 1);
      ZerosBeforeFirstNonZero(t);
      assert t[..k] == Zeros(k);
      assert t == t[..k] + t[k..];
      assert forall j :: 0 <= j < |t| - k ==> t[k..][j] == t[k + j];
    }
  }

  /** B64ToB2 inverts the grouping of B2ToB64. */
  lemma {:induction false} ExpandGroups(p: string)
    requires |p| % 6 == 0 && IsBinary(p)
    ensures Expand(Groups(p)) == p
  {
    if p != [] {
      var q := p[..|p| - 6];
      var g := p[|p| - 6..];
      calc {
        Expand(Groups(p));
        == { LastGroup(p); }
        Expand(Groups(q)) + Bits(CharToIdx(Digit(BitsValue(g))), 6);
        == { BinarySplit(p, |p| - 6); ExpandGroups(q); GroupDigit(g); }
        q + g;
        == { assert p == q + g; }
        p;
      }
    }
  }

  lemma BinarySplit(p: string, k: nat)
    requires k <= |p| && IsBinary(p)
    ensures IsBinary(p[..k]) && IsBinary(p[k..])
  {
    assert forall j :: 0 <= j < k ==> p[..k][j] == p[j];
    assert forall j :: 0 <= j < |p| - k ==> p[k..][j] == p[k + j];
  }

  /** Expanding the digits of all groups: those of the groups before the
      last, then the last. */
  lemma LastGroup(p: string)
    requires |p| % 6 == 0 && |p| >= 6
    ensures Expand(Groups(p)) == Expand(Groups(p[..|p| - 6])) + Bits(CharToIdx(Digit(BitsValue(p[|p| - 6..]))), 6)
  {
    var d := Groups(p);
    assert d[..|d| - 1] == Groups(p[..|p| - 6]);
  }

  /** A group's digit expands to the group again. */
  lemma GroupDigit(g: string)
    requires |g| == 6 && IsBinary(g)
    ensures Bits(CharToIdx(Digit(BitsValue(g))), 6) == g
  {
    assert Pow2(6) == 64;
    DigitTable(BitsValue(g));
    BitsOfValue(g);
  }

  lemma FirstNonZeroAfterZeros(z: nat, b: string)
    ensures FirstNonZero(Zeros(z) + b) == z + FirstNonZero(b)
  {
    SkipZeros(z, b, 0);
    ShiftedSearch(z, b, 0);
  }

  /** The search runs over the z leading zeros. */
  lemma {:induction false} SkipZeros(z: nat, b: string, i: nat)
    requires i <= z
    ensures FirstNonZeroFrom(Zeros(z) + b, i) == FirstNonZeroFrom(Zeros(z) + b, z)
    decreases z - i
  {
    if i < z {
      assert (Zeros(z) + b)[i] == '0';
      SkipZeros(z, b, i + 1);
    }
  }

  /** Past the zeros, the search runs as it does over b alone, z places on. */
  lemma {:induction false} ShiftedSearch(z: nat, b: string, i: nat)
    requires i <= |b|
    ensures FirstNonZeroFrom(Zeros(z) + b, z + i) == z + FirstNonZeroFrom(b, i)
    decreases |b| - i
  {
    if i < |b| {
      assert (Zeros(z) + b)[z + i] == b[i];
      ShiftedSearch(z, b, i + 1);
    }
  }

  /** Restoring the leading zeros that B64ToB2 dropped, as DecodeGenotype
      does, brings back a non-empty string of bits encoded by B2ToB64; the
      encoding uses only table characters, so B64ToB2 may read it. */
  lemma BitsRoundTrip(b: string)
    requires IsBinary(b) && b != []
    ensures FromBits(b).Some?
    ensures var e := FromBits(b).value; var t := ToBits(e);
      AllInTable(e) && |t| <= |b| && Zeros(|b| - |t|) + t == b
  {
    if AllZero(b) {
      AllZeroRoundTrip(b);
    } else {
      NonZeroRoundTrip(b);
    }
  }

  lemma AllZeroRoundTrip(b: string)
    requires b != [] && AllZero(b)
    ensures FromBits(b).Some?
    ensures var e := FromBits(b).value; var t := ToBits(e);
      AllInTable(e) && |t| <= |b| && Zeros(|b| - |t|) + t == b
  {
    assert IsBinary(b);
    assert FromBits(b) == Some("0");
    ZeroRoundTrip();
    assert Zeros(|b| - 1) + "0" == b by {
      assert forall j :: 0 <= j < |b| ==> (Zeros(|b| - 1) + "0")[j] == b[j];
    }
  }

  lemma ZeroRoundTrip()
    ensures ToBits("0") == "0"
  {
    assert Expand("0") == Bits(0, 6) by {
      assert "0"[..0] == [];
    }
    ZerosBits(6);
    assert FirstNonZero(Zeros(6)) == 6 by {
      FirstNonZeroAfterZeros(6, []);
      assert Zeros(6) + [] == Zeros(6);
    }
  }

  lemma NonZeroRoundTrip(b: string)
    requires IsBinary(b) && !AllZero(b)
    ensures FromBits(b).Some?
    ensures var e := FromBits(b).value; var t := ToBits(e);
      AllInTable(e) && |t| <= |b| && Zeros(|b| - |t|) + t == b
  {
    var p := Pad(b);
    assert FromBits(b) == Some(Groups(p));
    var f := FirstNonZero(b);
    assert f < |b| by {
      SomeNonZero(b);
    }
    assert ToBits(Groups(p)) == b[f..] by {
      PadBinary(b);
      ExpandGroups(p);
      StripPadded(b, f);
    }
    assert Zeros(f) + b[f..] == b by {
      ZerosBeforeFirstNonZero(b);
      ZerosPrefix(b, f);
    }
    GroupsInTable(p);
  }

  lemma SomeNonZero(b: string)
    requires !AllZero(b)
    ensures FirstNonZero(b) < |b|
  {
    var k :| 0 <= k < |b| && b[k] != '0';
    ZerosBeforeFirstNonZero(b);
  }

  lemma ZerosPrefix(b: string, f: nat)
    requires f <= |b| && forall j :: 0 <= j < f ==> b[j] == '0'
    ensures Zeros(f) + b[f..] == b
  {
    assert forall j :: 0 <= j < |b| ==> (Zeros(f) + b[f..])[j] == b[j];
  }

  lemma PadBinary(b: string)
    requires IsBinary(b)
    ensures IsBinary(Pad(b))
  {
    var p := Pad(b);
    var z := |p| - |b|;
    assert forall k :: z <= k < |p| ==> p[k] == b[k - z];
  }

  lemma StripPadded(b: string, f: nat)
    requires f == FirstNonZero(b) && f < |b|
    ensures Strip(Pad(b)) == b[f..]
  {
    var p := Pad(b);
    var zs := Zeros(|p| - |b|);
    assert p == zs + b;
    assert FirstNonZero(p) == |zs| + f by {
      FirstNonZeroAfterZeros(|zs|, b);
    }
    DropAppend(zs, b, f);
  }

  lemma DropAppend(a: string, b: string, f: nat)
    requires f <= |b|
    ensures (a + b)[|a| + f..] == b[f..]
  {
    assert forall j :: 0 <= j < |b| - f ==> (a + b)[|a| + f..][j] == b[f..][j];
  }

  lemma {:induction false} GroupsInTable(p: string)
    requires |p| % 6 == 0
    ensures AllInTable(Groups(p))
  {
    if p != [] {
      GroupsInTable(p[..|p| - 6]);
      DigitTable(BitsValue(p[|p| - 6..]) % 64);
      assert Pow2(6) == 64;
    }
  }
}
