/**
 The PHP string primitives the catalog code relies on: `trim`/`rtrim`, `explode` on a
 one-character separator, decimal rendering of integers, the `(int)` cast of a string
 and `is_numeric`.
 */
module Text {

  /** The characters PHP's `trim` strips by default: space, tab, newline, carriage
      return, NUL and vertical tab. */
  predicate IsTrimChar(c: char) {
    c == ' ' || c == '\t' || c == '\n' || c == '\r' || c == '\0' || c == '\U{000B}'
  }

  /** The characters PHP skips around a numeric string: space, tab, newline, carriage
      return, vertical tab and form feed. */
  predicate IsSpace(c: char) {
    c == ' ' || c == '\t' || c == '\n' || c == '\r' || c == '\U{000B}' || c == '\U{000C}'
  }

  predicate IsDigit(c: char) {
    '0' <= c <= '9'
  }

  predicate AllDigits(s: string) {
    forall i :: 0 <= i < |s| ==> IsDigit(s[i])
  }

  /** `s` with every leading character satisfying `p` removed. */
  function StripStart(s: string, p: char -> bool): (r: string)
    ensures |r| <= |s| && r == s[|s| - |r|..]
    ensures forall i :: 0 <= i < |s| - |r| ==> p(s[i])
    ensures r == [] || !p(r[0])
  {
    if s != [] && p(s[0]) then
      var r := StripStart(s[1..], p);
      assert forall i :: 1 <= i < |s| - |r| ==> s[i] == s[1..][i - 1];
      r
    else s
  }

  /** `s` with every trailing character satisfying `p` removed. */
  function StripEnd(s: string, p: char -> bool): (r: string)
    ensures |r| <= |s| && r == s[..|r|]
    ensures forall i :: |r| <= i < |s| ==> p(s[i])
    ensures r == [] || !p(r[|r| - 1])
  {
    if s != [] && p(s[|s| - 1]) then StripEnd(s[..|s| - 1], p) else s
  }

  /** A string that `trim` leaves alone: it neither starts nor ends with a trim character. */
  predicate IsTrimmed(s: string) {
    s == [] || (!IsTrimChar(s[0]) && !IsTrimChar(s[|s| - 1]))
  }

  /** `r` is `s` with `k` trim characters cut from the front and only trim characters
      cut from the back. */
  predicate CutAt(s: string, r: string, k: nat) {
    && k + |r| <= |s| && r == s[k..k + |r|]
    && (forall i :: 0 <= i < k ==> IsTrimChar(s[i]))
    && (forall i :: k + |r| <= i < |s| ==> IsTrimChar(s[i]))
  }

  /** PHP's `trim($s)`: the part of `s` left once the runs of trim characters at both
      ends are gone, which starts and ends with no trim character. */
  function Trim(s: string): (r: string)
    ensures IsTrimmed(r)
    ensures exists k :: CutAt(s, r, k)
  {
    var t := StripStart(s, IsTrimChar);
    var r := StripEnd(t, IsTrimChar);
    assert r != [] ==> r[0] == t[0];
    CutOfRuns(s, t, r);
    r
  }

  /** Cutting a front run from `s` and then a back run from the rest is one cut. */
  lemma CutOfRuns(s: string, t: string, r: string)
    requires |t| <= |s| && t == s[|s| - |t|..]
    requires forall i :: 0 <= i < |s| - |t| ==> IsTrimChar(s[i])
    requires |r| <= |t| && r == t[..|r|]
    requires forall i :: |r| <= i < |t| ==> IsTrimChar(t[i])
    ensures CutAt(s, r, |s| - |t|)
  {
    var k := |s| - |t|;
    assert s[k..k + |r|] == t[..|r|];
    forall i | k + |r| <= i < |s| ensures IsTrimChar(s[i]) {
      assert s[i] == t[i - k];
    }
  }

  lemma TrimOfTrimmed(s: string)
    requires IsTrimmed(s)
    ensures Trim(s) == s
  {
  }

  /** PHP's `rtrim($s, $c)` for a one-character list. */
  function RTrim(s: string, c: char): (r: string)
    ensures |r| <= |s| && r == s[..|r|]
    ensures forall i :: |r| <= i < |s| ==> s[i] == c
    ensures r == [] || r[|r| - 1] != c
  {
    StripEnd(s, x => x == c)
  }

  /** Position of the first `c` in `s`. */
  function IndexOf(s: string, c: char): (i: nat)
    requires c in s
    ensures i < |s| && s[i] == c && c !in s[..i]
  {
    if s[0] == c then 0 else 1 + IndexOf(s[1..], c)
  }

  /** PHP's `implode` with a one-character glue. */
  function Join(parts: seq<string>, sep: char): string {
    if |parts| == 0 then []
    else if |parts| == 1 then parts[0]
    else parts[0] + [sep] + Join(parts[1..], sep)
  }

  /** PHP's `explode($sep, $s)`: the pieces between separators, in order. The pieces
      never contain the separator and glue back to `s`, which determines them. */
  function Split(s: string, sep: char): (parts: seq<string>)
    ensures |parts| >= 1
    ensures forall i :: 0 <= i < |parts| ==> sep !in parts[i]
    ensures Join(parts, sep) == s
    decreases |s|
  {
    if sep !in s then [s]
    else
      var i := IndexOf(s, sep);
      assert s == s[..i] + [sep] + s[i + 1..];
      [s[..i]] + Split(s[i + 1..], sep)
  }

  /** Splitting undoes joining pieces that hold no separator. */
  lemma {:induction false} SplitJoin(parts: seq<string>, sep: char)
    requires |parts| >= 1
    requires forall i :: 0 <= i < |parts| ==> sep !in parts[i]
    ensures Split(Join(parts, sep), sep) == parts
  {
    if |parts| == 1 {
    } else {
      var s := Join(parts, sep);
      assert s == parts[0] + [sep] + Join(parts[1..], sep);
      assert s[..|parts[0]|] == parts[0];
      assert s[|parts[0]|] == sep;
      var i := IndexOf(s, sep);
      assert i == |parts[0]|;
      assert s[..i] == parts[0];
      assert s[i + 1..] == Join(parts[1..], sep);
      SplitJoin(parts[1..], sep);
    }
  }

  // ----- decimal numbers -----

  function DigitValue(c: char): (d: nat)
    requires IsDigit(c)
    ensures d < 10
  {
    (c as int - '0' as int) as nat
  }

  function DigitChar(d: nat): (c: char)
    requires d < 10
    ensures IsDigit(c) && DigitValue(c) == d
  {
    ('0' as int + d) as char
  }

  /** The value of a string of decimal digits (empty reads as 0). */
  function ParseDigits(s: string): nat
    requires AllDigits(s)
  {
    if s == [] then 0 else 10 * ParseDigits(s[..|s| - 1]) + DigitValue(s[|s| - 1])
  }

  /** PHP's `(string)$n` for a non-negative integer: decimal digits, no leading zero. */
  function NatToString(n: nat): (r: string)
    ensures |r| >= 1 && AllDigits(r)
    ensures r[0] == '0' ==> r == "0"
    ensures ParseDigits(r) == n
  {
    if n < 10 then [DigitChar(n)]
    else
      var r := NatToString(n / 10) + [DigitChar(n % 10)];
      assert r[..|r| - 1] == NatToString(n / 10);
      r
  }

  /** PHP's `(string)$i` for any integer. */
  function IntToString(i: int): (r: string)
    ensures |r| >= 1
    ensures i >= 0 ==> r == NatToString(i)
    ensures i < 0 ==> r == "-" + NatToString(-i)
  {
    if i < 0 then "-" + NatToString(-i) else NatToString(i)
  }

  // ----- PHP numeric strings -----

  const PhpIntMax: int := 0x7FFF_FFFF_FFFF_FFFF
  const PhpIntMin: int := -0x8000_0000_0000_0000

  function Pow2(n: nat): (p: nat)
    ensures p >= 1
  {
    if n == 0 then 1 else 2 * Pow2(n - 1)
  }

  function Pow10(n: nat): (p: nat)
    ensures p >= 1
  {
    if n == 0 then 1 else 10 * Pow10(n - 1)
  }

  /** The least magnitude a decimal literal rounds to an infinite double from:
      2^1024 - 2^970, halfway between the largest finite double and 2^1024. */
  const DoubleOverflow: int := 0xFFFF_ffff_ffff_FC00_0000_0000_0000_0000_0000_0000_0000_0000_0000_0000_0000_0000_0000_0000_0000_0000_0000_0000_0000_0000_0000_0000_0000_0000_0000_0000_0000_0000_0000_0000_0000_0000_0000_0000_0000_0000_0000_0000_0000_0000_0000_0000_0000_0000_0000_0000_0000_0000_0000_0000_0000_0000_0000_0000_0000_0000_0000_0000_0000_0000

  /** The longest prefix of `s` made of digits. */
  function LeadingDigits(s: string): (r: string)
    ensures AllDigits(r) && |r| <= |s| && r == s[..|r|]
    ensures |r| < |s| ==> !IsDigit(s[|r|])
  {
    if s != [] && IsDigit(s[0]) then [s[0]] + LeadingDigits(s[1..]) else []
  }

  /** `s` with a leading `+` or `-` removed, and whether it was `-`. */
  function SplitSign(s: string): (r: (bool, string))
    ensures r.0 <==> s != [] && s[0] == '-'
    ensures r.1 == (if s != [] && (s[0] == '-' || s[0] == '+') then s[1..] else s)
  {
    if s != [] && (s[0] == '-' || s[0] == '+') then (s[0] == '-', s[1..]) else (false, s)
  }

  /** The decimal literal at the front of a string, as PHP's numeric-string reader splits
      it: the integer digits, whether a `.` follows them, the fraction digits after the
      `.`, and the rest of the string. */
  datatype Mantissa = Mantissa(whole: string, dot: bool, fraction: string, rest: string)

  function ScanMantissa(u: string): (m: Mantissa)
    ensures AllDigits(m.whole) && AllDigits(m.fraction)
    ensures !m.dot ==> m.fraction == []
    ensures m.rest != [] ==> !IsDigit(m.rest[0]) && (!m.dot ==> m.rest[0] != '.')
    ensures u == m.whole + ((if m.dot then "." else "") + (m.fraction + m.rest))
  {
    var whole := LeadingDigits(u);
    var after := u[|whole|..];
    assert u == whole + after;
    if after != [] && after[0] == '.' then
      var fraction := LeadingDigits(after[1..]);
      var rest := after[1..][|fraction|..];
      assert after == "." + (fraction + rest);
      Mantissa(whole, true, fraction, rest)
    else
      assert [] + ([] + after) == after;
      Mantissa(whole, false, [], after)
  }

  /** A literal needs a digit before or after its `.`. */
  predicate HasDigits(m: Mantissa) {
    m.whole != [] || m.fraction != []
  }

  /** An exponent at the front of a string: `e` or `E`, an optional sign and at least
      one digit, with its value and what follows it. */
  datatype Exponent = NoExponent | Exponent(value: int, rest: string)

  function ScanExponent(s: string): (e: Exponent)
    ensures e.Exponent? ==> |s| >= 2 && (s[0] == 'e' || s[0] == 'E')
    ensures e.Exponent? && e.rest != [] ==> !IsDigit(e.rest[0])
  {
    if |s| >= 2 && (s[0] == 'e' || s[0] == 'E') then
      var (negative, v) := SplitSign(s[1..]);
      var digits := LeadingDigits(v);
      if digits == [] then NoExponent
      else
        var n: int := ParseDigits(digits);
        Exponent(if negative then -n else n, v[|digits|..])
    else NoExponent
  }

  lemma AllDigitsAppend(a: string, b: string)
    requires AllDigits(a) && AllDigits(b)
    ensures AllDigits(a + b)
  {
    forall i | 0 <= i < |a + b|
      ensures IsDigit((a + b)[i])
    {
      if i >= |a| {
        assert (a + b)[i] == b[i - |a|];
      }
    }
  }

  /** The value of `m` scaled by `10^exponent`, truncated toward zero: a negative scale
      drops that many trailing digits. */
  function LiteralMagnitude(m: Mantissa, exponent: int): nat
    requires AllDigits(m.whole) && AllDigits(m.fraction)
  {
    AllDigitsAppend(m.whole, m.fraction);
    var digits := m.whole + m.fraction;
    var scale := exponent - |m.fraction|;
    if scale >= 0 then ParseDigits(digits) * Pow10(scale)
    else if |digits| <= -scale then 0
    else ParseDigits(digits[..|digits| + scale])
  }

  /** A string that starts a decimal literal once whitespace and a sign are skipped. */
  predicate HasNumericPrefix(s: string) {
    var u := SplitSign(StripStart(s, IsSpace)).1;
    (u != [] && IsDigit(u[0])) || (|u| >= 2 && u[0] == '.' && IsDigit(u[1]))
  }

  /** PHP's `(int)$s`: skip leading whitespace, read an optional sign and the longest
      decimal literal that follows (integer digits, an optional `.` and fraction, an
      optional exponent), and ignore the rest; without a literal the cast is 0. */
  function IntCast(s: string): (r: int)
    ensures PhpIntMin <= r <= PhpIntMax
    ensures !HasNumericPrefix(s) ==> r == 0
  {
    var signed := SplitSign(StripStart(s, IsSpace));
    var m := ScanMantissa(signed.1);
    if HasDigits(m) then
      MantissaStart(signed.1);
      Clamp(signed.0, LiteralMagnitude(m, ExponentOf(m.rest)))
    else 0
  }

  /** The exponent that starts `rest`, or 0 when none does. */
  function ExponentOf(rest: string): int {
    var e := ScanExponent(rest);
    if e.Exponent? then e.value else 0
  }

  /** The integer a literal of the given sign and magnitude casts to: the value itself
      when it fits in 64 bits, the nearest bound beyond them, and 0 for a magnitude too
      large for a double. */
  function Clamp(negative: bool, magnitude: nat): (r: int)
    ensures PhpIntMin <= r <= PhpIntMax
    ensures magnitude >= DoubleOverflow ==> r == 0
    ensures var v := if negative then -(magnitude as int) else magnitude as int;
      PhpIntMin <= v <= PhpIntMax ==> r == v
  {
    if magnitude >= DoubleOverflow then 0
    else
      var v := if negative then -(magnitude as int) else magnitude as int;
      if v > PhpIntMax then PhpIntMax else if v < PhpIntMin then PhpIntMin else v
  }

  /** A literal with digits starts with a digit, or with `.` and a digit. */
  lemma MantissaStart(u: string)
    requires HasDigits(ScanMantissa(u))
    ensures (u != [] && IsDigit(u[0])) || (|u| >= 2 && u[0] == '.' && IsDigit(u[1]))
  {
    var m := ScanMantissa(u);
    if m.whole != [] {
      assert u[0] == m.whole[0];
    } else {
      assert u == "." + (m.fraction + m.rest);
      assert u[1] == m.fraction[0];
    }
  }

  /** PHP's `is_numeric` on a string: optional surrounding whitespace, an optional sign
      and one decimal literal with an optional exponent, and nothing else. A numeric
      string starts a literal, so its cast reads that literal. */
  function IsNumeric(s: string): (b: bool)
    ensures b ==> HasNumericPrefix(s)
  {
    var v := SplitSign(StripStart(s, IsSpace)).1;
    var u := StripEnd(v, IsSpace);
    if IsLiteral(u) then
      MantissaStart(u);
      true
    else false
  }

  /** One decimal literal with an optional exponent, and nothing after it. */
  predicate IsLiteral(u: string) {
    var m := ScanMantissa(u);
    var e := ScanExponent(m.rest);
    HasDigits(m) && (m.rest == [] || (e.Exponent? && e.rest == []))
  }

  // ----- reading back -----

  lemma {:induction false} LeadingDigitsOfDigits(s: string)
    requires AllDigits(s)
    ensures LeadingDigits(s) == s
  {
    if s != [] {
      LeadingDigitsOfDigits(s[1..]);
    }
  }

  /** The digits at the front end where a non-digit starts. */
  lemma {:induction false} LeadingDigitsUpTo(a: string, rest: string)
    requires AllDigits(a) && (rest == [] || !IsDigit(rest[0]))
    ensures LeadingDigits(a + rest) == a
  {
    if a != [] {
      assert (a + rest)[1..] == a[1..] + rest;
      LeadingDigitsUpTo(a[1..], rest);
    }
  }

  /** Scanning a spelled-out literal gives back its parts: the scan reads exactly the
      digits, the `.` and the fraction, and stops where they stop. */
  lemma ScanMantissaOf(m: Mantissa)
    requires AllDigits(m.whole) && AllDigits(m.fraction) && (!m.dot ==> m.fraction == [])
    requires m.rest != [] ==> !IsDigit(m.rest[0]) && (!m.dot ==> m.rest[0] != '.')
    ensures ScanMantissa(m.whole + ((if m.dot then "." else "") + (m.fraction + m.rest))) == m
  {
    var after := (if m.dot then "." else "") + (m.fraction + m.rest);
    var u := m.whole + after;
    if after != [] {
      assert after[0] == '.' || after == m.rest;
    }
    LeadingDigitsUpTo(m.whole, after);
    assert u[|m.whole|..] == after;
    if m.dot {
      assert after[1..] == m.fraction + m.rest;
      LeadingDigitsUpTo(m.fraction, m.rest);
      assert (m.fraction + m.rest)[|m.fraction|..] == m.rest;
    }
  }

  lemma ScanExponentReads(s: string, negative: bool, digits: string, rest: string)
    requires |s| >= 2 && (s[0] == 'e' || s[0] == 'E')
    requires SplitSign(s[1..]) == (negative, digits + rest)
    requires |digits| >= 1 && AllDigits(digits) && (rest == [] || !IsDigit(rest[0]))
    ensures var n: int := ParseDigits(digits);
      ScanExponent(s) == Exponent(if negative then -n else n, rest)
  {
    LeadingDigitsUpTo(digits, rest);
    assert (digits + rest)[|digits|..] == rest;
  }

  /** Scanning a spelled-out exponent gives back its value and what follows it. */
  lemma ScanExponentOf(negative: bool, digits: string, rest: string)
    requires |digits| >= 1 && AllDigits(digits) && (rest == [] || !IsDigit(rest[0]))
    ensures var n: int := ParseDigits(digits);
      ScanExponent("e" + ((if negative then "-" else "") + (digits + rest)))
        == Exponent(if negative then -n else n, rest)
  {
    var s := "e" + ((if negative then "-" else "") + (digits + rest));
    var v := digits + rest;
    assert SplitSign(s[1..]) == (negative, v) by {
      assert v[0] == digits[0];
      if negative {
        assert s[1..] == "-" + v;
      } else {
        assert s[1..] == v;
      }
    }
    ScanExponentReads(s, negative, digits, rest);
  }

  /** A string that starts with a digit has no whitespace or sign to skip. */
  lemma UnsignedStart(s: string)
    requires s != [] && IsDigit(s[0])
    ensures SplitSign(StripStart(s, IsSpace)) == (false, s)
  {
  }

  /** A literal without fraction is its digits scaled by its exponent. */
  lemma MagnitudeOfWhole(d: string, rest: string, k: nat)
    requires |d| >= 1 && AllDigits(d)
    ensures LiteralMagnitude(Mantissa(d, false, [], rest), k) == ParseDigits(d) * Pow10(k)
  {
    var m := Mantissa(d, false, [], rest);
    assert m.whole + m.fraction == d;
  }

  /** Without exponent, a fraction only drops its own digits. */
  lemma MagnitudeOfFraction(d: string, f: string)
    requires |d| >= 1 && AllDigits(d) && AllDigits(f)
    ensures LiteralMagnitude(Mantissa(d, true, f, []), 0) == ParseDigits(d)
  {
    var m := Mantissa(d, true, f, []);
    AllDigitsAppend(d, f);
    if f == [] {
      assert m.whole + m.fraction == d;
    } else {
      assert (m.whole + m.fraction)[..|d|] == d;
    }
  }

  lemma ScanPlainExponent(ks: string)
    requires |ks| >= 1 && AllDigits(ks)
    ensures ExponentOf("e" + ks) == ParseDigits(ks)
    ensures ScanExponent("e" + ks).Exponent? && ScanExponent("e" + ks).rest == []
  {
    assert "e" + ks == "e" + ("" + (ks + []));
    ScanExponentOf(false, ks, []);
  }

  /** A literal of digits alone is worth its digits. */
  lemma MagnitudeOfInteger(d: string)
    requires |d| >= 1 && AllDigits(d)
    ensures LiteralMagnitude(Mantissa(d, false, [], []), 0) == ParseDigits(d)
  {
    var m := Mantissa(d, false, [], []);
    assert m.whole + m.fraction == d;
    assert Pow10(0) == 1;
  }

  lemma SignedDigitsScan(negative: bool, d: string)
    requires |d| >= 1 && AllDigits(d)
    ensures IntCast((if negative then "-" else "") + d)
      == Clamp(negative, LiteralMagnitude(Mantissa(d, false, [], []), ExponentOf([])))
  {
    var s := (if negative then "-" else "") + d;
    var lit := Mantissa(d, false, [], []);
    assert SplitSign(StripStart(s, IsSpace)) == (negative, d) by {
      assert !IsSpace(s[0]);
      if negative {
        assert s[1..] == d;
      } else {
        assert s == d;
      }
    }
    assert ScanMantissa(d) == lit by {
      ScanMantissaOf(lit);
      assert d + ("" + ([] + [])) == d;
    }
  }

  /** A run of digits, with or without a minus sign, casts to its signed value. */
  lemma IntCastOfSignedDigits(negative: bool, d: string)
    requires |d| >= 1 && AllDigits(d)
    requires var n := ParseDigits(d) as int;
      PhpIntMin <= (if negative then -n else n) <= PhpIntMax
    ensures var n := ParseDigits(d) as int;
      IntCast((if negative then "-" else "") + d) == if negative then -n else n
  {
    SignedDigitsScan(negative, d);
    MagnitudeOfInteger(d);
    assert ExponentOf([]) == 0;
  }

  /** The `(int)` cast reads back every integer PHP can hold from its rendering. */
  lemma IntCastOfRendering(i: int)
    requires PhpIntMin <= i <= PhpIntMax
    ensures IntCast(IntToString(i)) == i
  {
    if i < 0 {
      IntCastOfSignedDigits(true, NatToString(-i));
    } else {
      IntCastOfSignedDigits(false, NatToString(i));
      assert "" + NatToString(i) == NatToString(i);
    }
  }

  lemma ExponentLiteralScan(d: string, ks: string)
    requires |d| >= 1 && |ks| >= 1 && AllDigits(d) && AllDigits(ks)
    ensures IntCast(d + "e" + ks)
      == Clamp(false, LiteralMagnitude(Mantissa(d, false, [], "e" + ks), ExponentOf("e" + ks)))
  {
    var s := d + "e" + ks;
    assert s == d + ("" + ([] + ("e" + ks)));
    UnsignedStart(s);
    ScanMantissaOf(Mantissa(d, false, [], "e" + ks));
  }

  /** Digits, `e` and exponent digits cast to the digits times ten to the exponent. */
  lemma IntCastOfExponentDigits(d: string, ks: string)
    requires |d| >= 1 && |ks| >= 1 && AllDigits(d) && AllDigits(ks)
    requires ParseDigits(d) * Pow10(ParseDigits(ks)) <= PhpIntMax
    ensures IntCast(d + "e" + ks) == ParseDigits(d) * Pow10(ParseDigits(ks))
  {
    var k := ParseDigits(ks);
    var v := ParseDigits(d) * Pow10(k);
    var lit := Mantissa(d, false, [], "e" + ks);
    assert ExponentOf("e" + ks) == k by {
      ScanPlainExponent(ks);
    }
    assert LiteralMagnitude(lit, k) == v by {
      MagnitudeOfWhole(d, "e" + ks, k);
    }
    ExponentLiteralScan(d, ks);
  }

  /** `m` followed by `e` and `k` casts to `m * 10^k`: the cast honours the exponent. */
  lemma IntCastOfExponent(m: nat, k: nat)
    requires m * Pow10(k) <= PhpIntMax
    ensures IntCast(NatToString(m) + "e" + NatToString(k)) == m * Pow10(k)
  {
    IntCastOfExponentDigits(NatToString(m), NatToString(k));
  }

  lemma FractionLiteralScan(d: string, f: string)
    requires |d| >= 1 && AllDigits(d) && AllDigits(f)
    ensures IntCast(d + "." + f) == Clamp(false, LiteralMagnitude(Mantissa(d, true, f, []), 0))
  {
    var s := d + "." + f;
    assert s == d + ("." + (f + []));
    UnsignedStart(s);
    ScanMantissaOf(Mantissa(d, true, f, []));
  }

  /** `n` followed by `.` and fraction digits casts to `n`: the fraction is cut off. */
  lemma IntCastTruncatesFraction(n: nat, f: string)
    requires n <= PhpIntMax && AllDigits(f)
    ensures IntCast(NatToString(n) + "." + f) == n
  {
    var d := NatToString(n);
    FractionLiteralScan(d, f);
    MagnitudeOfFraction(d, f);
  }

  /** Text after a literal that neither continues it nor is white space makes a string
      non-numeric. */
  lemma TrailingTextIsNotNumeric(d: string, t: string)
    requires |d| >= 1 && AllDigits(d)
    requires t != [] && !IsDigit(t[0]) && t[0] != '.' && t[0] != 'e' && t[0] != 'E'
    requires !IsSpace(t[|t| - 1])
    ensures !IsNumeric(d + t)
  {
    var s := d + t;
    assert s[0] == d[0] && s[|s| - 1] == t[|t| - 1];
    UnsignedStart(s);
    assert StripEnd(s, IsSpace) == s;
    TrailingTextIsNoLiteral(d, t);
  }

  lemma TrailingTextIsNoLiteral(d: string, t: string)
    requires |d| >= 1 && AllDigits(d)
    requires t != [] && !IsDigit(t[0]) && t[0] != '.' && t[0] != 'e' && t[0] != 'E'
    ensures !IsLiteral(d + t)
  {
    assert d + t == d + ("" + ([] + t));
    ScanMantissaOf(Mantissa(d, false, [], t));
  }

  /** The cast reads a literal and ignores what follows it. */
  lemma TrailingTextIsCast(d: string, t: string)
    requires |d| >= 1 && AllDigits(d)
    requires t != [] && !IsDigit(t[0]) && t[0] != '.' && t[0] != 'e' && t[0] != 'E'
    ensures IntCast(d + t) == IntCast(d)
  {
    var v := Clamp(false, LiteralMagnitude(Mantissa(d, false, [], t), 0));
    assert IntCast(d + t) == v by {
      RestLiteralScan(d, t);
      assert ScanExponent(t).NoExponent?;
    }
    assert IntCast(d) == v by {
      SignedDigitsScan(false, d);
      assert "" + d == d;
      assert ExponentOf([]) == 0;
      MagnitudeOfWhole(d, t, 0);
      MagnitudeOfWhole(d, [], 0);
    }
  }

  lemma RestLiteralScan(d: string, t: string)
    requires |d| >= 1 && AllDigits(d)
    requires t != [] ==> !IsDigit(t[0]) && t[0] != '.'
    ensures IntCast(d + t) == Clamp(false, LiteralMagnitude(Mantissa(d, false, [], t), ExponentOf(t)))
  {
    var s := d + t;
    assert s == d + ("" + ([] + t));
    assert s[0] == d[0];
    UnsignedStart(s);
    ScanMantissaOf(Mantissa(d, false, [], t));
  }

  /** `is_numeric("12abc")` is false, though the cast reads it as `(int)"12"`. */
  lemma NumericPrefixIsNotNumeric()
    ensures !IsNumeric("12abc") && IntCast("12abc") == IntCast("12")
  {
    var d, t := "12", "abc";
    assert AllDigits(d) && !IsSpace(t[|t| - 1]);
    assert "12abc" == d + t;
    TrailingTextIsNotNumeric(d, t);
    TrailingTextIsCast(d, t);
  }

  /** A string that is one literal, with nothing before or after it, is numeric. */
  lemma LiteralIsNumeric(s: string)
    requires s != [] && IsDigit(s[0]) && !IsSpace(s[|s| - 1])
    requires HasDigits(ScanMantissa(s))
    requires var m := ScanMantissa(s);
      m.rest == [] || (ScanExponent(m.rest).Exponent? && ScanExponent(m.rest).rest == [])
    ensures IsNumeric(s)
  {
    UnsignedStart(s);
    assert StripEnd(s, IsSpace) == s;
  }

  lemma DigitsAreNumeric(s: string)
    requires |s| > 0 && AllDigits(s)
    ensures IsNumeric(s)
  {
    ScanMantissaOf(Mantissa(s, false, [], []));
    assert s + ("" + ([] + [])) == s;
    LiteralIsNumeric(s);
  }

  lemma NaturalRenderingIsNumeric(n: nat)
    ensures IsNumeric(NatToString(n))
  {
    DigitsAreNumeric(NatToString(n));
  }

  lemma ExponentDigitsAreNumeric(d: string, ks: string)
    requires |d| >= 1 && |ks| >= 1 && AllDigits(d) && AllDigits(ks)
    ensures IsNumeric(d + "e" + ks)
  {
    var s := d + "e" + ks;
    assert s != [] && IsDigit(s[0]) && !IsSpace(s[|s| - 1]) by {
      assert s[0] == d[0] && s[|s| - 1] == ks[|ks| - 1];
    }
    assert HasDigits(ScanMantissa(s)) && ScanMantissa(s).rest == "e" + ks by {
      assert s == d + ("" + ([] + ("e" + ks)));
      ScanMantissaOf(Mantissa(d, false, [], "e" + ks));
    }
    ScanPlainExponent(ks);
    LiteralIsNumeric(s);
  }

  /** `m` followed by `e` and `k` is numeric. */
  lemma ExponentIsNumeric(m: nat, k: nat)
    ensures IsNumeric(NatToString(m) + "e" + NatToString(k))
  {
    ExponentDigitsAreNumeric(NatToString(m), NatToString(k));
  }
}
