/**
 * PHP's `is_numeric` on strings (PHP 8 rules): surrounding whitespace is
 * allowed, then an optional sign, a mantissa of digits with at most one
 * decimal point and at least one digit, and an optional exponent
 * `e`/`E`, optional sign, digits. Hexadecimal and binary forms are not numeric.
 */
module Numeric {

  predicate IsDigit(c: char) { '0' <= c <= '9' }
  predicate IsSign(c: char) { c == '+' || c == '-' }
  predicate IsExponentMark(c: char) { c == 'e' || c == 'E' }

  /** The whitespace PHP skips around a numeric string: space, \t, \n, \r, \v, \f. */
  predicate IsWhitespace(c: char) {
    c == ' ' || c == '\t' || c == '\n' || c == '\r' || c == 11 as char || c == 12 as char
  }

  /** The characters a numeric literal is made of. */
  predicate IsNumberChar(c: char) {
    IsDigit(c) || IsSign(c) || IsExponentMark(c) || c == '.'
  }

  /** The end of the run of digits that starts at `i`. */
  function SkipDigits(s: string, i: nat): (j: nat)
    requires i <= |s|
    ensures i <= j <= |s|
    ensures forall k :: i <= k < j ==> IsDigit(s[k])
    ensures j < |s| ==> !IsDigit(s[j])
    decreases |s| - i
  {
    if i < |s| && IsDigit(s[i]) then SkipDigits(s, i + 1) else i
  }

  /** An exponent tail starting at `i`: optional sign, then digits to the end. */
  predicate ScanExponent(s: string, i: nat)
    requires i <= |s|
  {
    var d := if i < |s| && IsSign(s[i]) then i + 1 else i;
    var e := SkipDigits(s, d);
    d < e == |s|
  }

  /** The end of the optional leading sign. */
  function SignEnd(s: string): (a: nat)
    ensures a <= |s|
  {
    if 0 < |s| && IsSign(s[0]) then 1 else 0
  }

  /** The end of the digits before a decimal point. */
  function IntEnd(s: string): (b: nat)
    ensures SignEnd(s) <= b <= |s|
  {
    SkipDigits(s, SignEnd(s))
  }

  predicate HasPoint(s: string) {
    IntEnd(s) < |s| && s[IntEnd(s)] == '.'
  }

  /** The end of the mantissa: after the fraction digits when there is a point. */
  function MantissaEnd(s: string): (c: nat)
    ensures IntEnd(s) <= c <= |s|
  {
    if HasPoint(s) then SkipDigits(s, IntEnd(s) + 1) else IntEnd(s)
  }

  /** The number of digits in the mantissa. */
  function MantissaDigits(s: string): int {
    (IntEnd(s) - SignEnd(s)) + (if HasPoint(s) then MantissaEnd(s) - IntEnd(s) - 1 else 0)
  }

  /** A left-to-right scan of a numeric literal with no surrounding whitespace. */
  predicate ScanNumber(s: string) {
    var c := MantissaEnd(s);
    0 < MantissaDigits(s) && (c == |s| || (IsExponentMark(s[c]) && ScanExponent(s, c + 1)))
  }

  function TrimLeft(s: string): (r: string)
    ensures |r| <= |s| && r == s[|s| - |r|..]
    ensures 0 < |r| ==> !IsWhitespace(r[0])
  {
    if 0 < |s| && IsWhitespace(s[0]) then TrimLeft(s[1..]) else s
  }

  function TrimRight(s: string): (r: string)
    ensures |r| <= |s| && r == s[..|r|]
    ensures 0 < |r| ==> !IsWhitespace(r[|r| - 1])
  {
    if 0 < |s| && IsWhitespace(s[|s| - 1]) then TrimRight(s[..|s| - 1]) else s
  }

  /** PHP `is_numeric` applied to a string. */
  predicate IsNumeric(s: string) {
    ScanNumber(TrimRight(TrimLeft(s)))
  }

  // ---------------------------------------------------------------------
  // The grammar of a numeric literal, as a reference for the scanner:
  //   [+-]? ( d+ | d* '.' d* with at least one digit ) ( [eE] [+-]? d+ )?

  ghost predicate AllDigits(t: string) {
    forall i :: 0 <= i < |t| ==> IsDigit(t[i])
  }

  ghost predicate IsSignPart(t: string) {
    t == [] || (|t| == 1 && IsSign(t[0]))
  }

  ghost predicate IsMantissa(t: string) {
    (0 < |t| && AllDigits(t)) ||
    (1 < |t| && exists p :: 0 <= p < |t| && t[p] == '.' && AllDigits(t[..p]) && AllDigits(t[p + 1..]))
  }

  ghost predicate IsExponentPart(t: string) {
    t == [] ||
    (1 < |t| && IsExponentMark(t[0]) &&
      (AllDigits(t[1..]) || (2 < |t| && IsSign(t[1]) && AllDigits(t[2..]))))
  }

  ghost predicate NumericLiteral(s: string) {
    exists a: nat, b: nat :: a <= b <= |s| && IsSignPart(s[..a]) && IsMantissa(s[a..b]) && IsExponentPart(s[b..])
  }

  /** The end of a digit run is determined by the run. */
  lemma {:induction false} SkipDigitsAt(s: string, i: nat, j: nat)
    requires i <= j <= |s|
    requires forall k :: i <= k < j ==> IsDigit(s[k])
    requires j < |s| ==> !IsDigit(s[j])
    ensures SkipDigits(s, i) == j
    decreases j - i
  {
    if i < j { SkipDigitsAt(s, i + 1, j); }
  }

  lemma DigitsOfSlice(s: string, i: nat, j: nat)
    requires i <= j <= |s|
    ensures AllDigits(s[i..j]) <==> forall k :: i <= k < j ==> IsDigit(s[k])
  {
    var t := s[i..j];
    if AllDigits(t) {
      forall k | i <= k < j ensures IsDigit(s[k]) { assert s[k] == t[k - i]; }
    }
  }

  lemma ScanExponentIsExponentPart(s: string, c: nat)
    requires c < |s| && IsExponentMark(s[c])
    ensures ScanExponent(s, c + 1) <==> IsExponentPart(s[c..])
  {
    var t := s[c..];
    var i := c + 1;
    assert t[1..] == s[i..];
    DigitsOfSlice(s, i, |s|);
    if i < |s| {
      assert t[1] == s[i];
      assert t[2..] == s[i + 1..];
      DigitsOfSlice(s, i + 1, |s|);
    }
    var d := if i < |s| && IsSign(s[i]) then i + 1 else i;
    if IsExponentPart(t) {
      SkipDigitsAt(s, d, |s|);
    }
  }

  /** Digits from `a` to `c` form a mantissa. */
  lemma DigitMantissa(s: string, a: nat, c: nat)
    requires a < c <= |s| && forall k :: a <= k < c ==> IsDigit(s[k])
    ensures IsMantissa(s[a..c])
  {
    var m := s[a..c];
    forall k | 0 <= k < |m| ensures IsDigit(m[k]) { assert m[k] == s[a + k]; }
  }

  /** Digits, a point at `b`, digits: a mantissa when there is more than the point. */
  lemma PointMantissa(s: string, a: nat, b: nat, c: nat)
    requires a <= b < c <= |s| && 1 < c - a && s[b] == '.'
    requires forall k :: a <= k < b ==> IsDigit(s[k])
    requires forall k :: b + 1 <= k < c ==> IsDigit(s[k])
    ensures IsMantissa(s[a..c])
  {
    var m, p := s[a..c], b - a;
    assert m[p] == '.';
    var l, r := m[..p], m[p + 1..];
    forall k | 0 <= k < |l| ensures IsDigit(l[k]) { assert l[k] == s[a + k]; }
    forall k | 0 <= k < |r| ensures IsDigit(r[k]) { assert r[k] == s[b + 1 + k]; }
  }

  /** What the scanner accepts belongs to the grammar. */
  lemma ScanNumberIsLiteral(s: string)
    requires ScanNumber(s)
    ensures NumericLiteral(s)
  {
    var a, b, c := SignEnd(s), IntEnd(s), MantissaEnd(s);
    assert IsSignPart(s[..a]);
    if HasPoint(s) {
      PointMantissa(s, a, b, c);
    } else {
      DigitMantissa(s, a, c);
    }
    if c < |s| { ScanExponentIsExponentPart(s, c); } else { assert s[c..] == []; }
    assert IsSignPart(s[..a]) && IsMantissa(s[a..c]) && IsExponentPart(s[c..]);
  }

  /** A mantissa is not empty and does not start with a sign. */
  lemma MantissaHead(m: string)
    requires IsMantissa(m)
    ensures 0 < |m| && !IsSign(m[0])
  {
    if !AllDigits(m) {
      var p :| 0 <= p < |m| && m[p] == '.' && AllDigits(m[..p]) && AllDigits(m[p + 1..]);
      if p > 0 { assert m[..p][0] == m[0]; }
    }
  }

  /** A mantissa of digits alone, followed by the end or an exponent mark. */
  lemma IntegerMantissaEnd(s: string, a: nat, b: nat)
    requires a < b <= |s| && SignEnd(s) == a && AllDigits(s[a..b])
    requires b < |s| ==> IsExponentMark(s[b])
    ensures MantissaEnd(s) == b && 0 < MantissaDigits(s)
  {
    var m := s[a..b];
    forall k | a <= k < b ensures IsDigit(s[k]) { assert s[k] == m[k - a]; }
    SkipDigitsAt(s, a, b);
  }

  /** A mantissa with its point at offset `p`, followed by the end or an exponent mark. */
  lemma PointMantissaEnd(s: string, a: nat, p: nat, b: nat)
    requires a + p < b <= |s| && SignEnd(s) == a && 1 < b - a
    requires s[a..b][p] == '.' && AllDigits(s[a..b][..p]) && AllDigits(s[a..b][p + 1..])
    requires b < |s| ==> IsExponentMark(s[b])
    ensures MantissaEnd(s) == b && 0 < MantissaDigits(s)
  {
    var m := s[a..b];
    var l, r := m[..p], m[p + 1..];
    forall k | a <= k < a + p ensures IsDigit(s[k]) { assert s[k] == l[k - a]; }
    forall k | a + p + 1 <= k < b ensures IsDigit(s[k]) { assert s[k] == r[k - a - p - 1]; }
    assert s[a + p] == m[p];
    SkipDigitsAt(s, a, a + p);
    SkipDigitsAt(s, a + p + 1, b);
  }

  /** Once the sign and the mantissa of the grammar are known, the scanner's
      stages end where they do. */
  lemma ScannerFindsMantissa(s: string, a: nat, b: nat)
    requires a <= b <= |s|
    requires IsSignPart(s[..a]) && IsMantissa(s[a..b]) && IsExponentPart(s[b..])
    ensures SignEnd(s) == a && MantissaEnd(s) == b && 0 < MantissaDigits(s)
  {
    var m := s[a..b];
    assert SignEnd(s) == a by {
      MantissaHead(m);
      assert m[0] == s[a];
      if a == 1 { assert s[..a][0] == s[0]; }
    }
    assert b < |s| ==> IsExponentMark(s[b]) by {
      if b < |s| { assert s[b..][0] == s[b]; }
    }
    if AllDigits(m) {
      IntegerMantissaEnd(s, a, b);
    } else {
      var p :| 0 <= p < |m| && m[p] == '.' && AllDigits(m[..p]) && AllDigits(m[p + 1..]);
      PointMantissaEnd(s, a, p, b);
    }
  }

  /** What the grammar describes the scanner accepts. */
  lemma LiteralIsScanNumber(s: string)
    requires NumericLiteral(s)
    ensures ScanNumber(s)
  {
    var a: nat, b: nat :| a <= b <= |s| && IsSignPart(s[..a]) && IsMantissa(s[a..b]) && IsExponentPart(s[b..]);
    ScannerFindsMantissa(s, a, b);
    if b < |s| {
      assert s[b..][0] == s[b];
      ScanExponentIsExponentPart(s, b);
    }
  }

  /** The scanner accepts exactly the strings of the grammar. */
  lemma ScanNumberIsNumericLiteral(s: string)
    ensures ScanNumber(s) <==> NumericLiteral(s)
  {
    if ScanNumber(s) { ScanNumberIsLiteral(s); }
    if NumericLiteral(s) { LiteralIsScanNumber(s); }
  }

  /** Without whitespace there is nothing to trim. */
  lemma TrimNoWhitespace(s: string)
    requires forall i :: 0 <= i < |s| ==> !IsWhitespace(s[i])
    ensures TrimLeft(s) == s && TrimRight(s) == s
    ensures IsNumeric(s) == ScanNumber(s)
  {
    if 0 < |s| { assert !IsWhitespace(s[0]) && !IsWhitespace(s[|s| - 1]); }
  }

  /** On a string without whitespace, `is_numeric` is the grammar. */
  lemma IsNumericWithoutWhitespace(s: string)
    requires forall i :: 0 <= i < |s| ==> !IsWhitespace(s[i])
    ensures IsNumeric(s) <==> NumericLiteral(s)
  {
    TrimNoWhitespace(s);
    ScanNumberIsNumericLiteral(s);
  }

  /** A scanned numeric literal is made of digits, signs, exponent marks and points only. */
  lemma ScanNumberChars(s: string)
    requires ScanNumber(s)
    ensures forall i :: 0 <= i < |s| ==> IsNumberChar(s[i])
  {
    var c := MantissaEnd(s);
    if c < |s| {
      var i := c + 1;
      var d := if i < |s| && IsSign(s[i]) then i + 1 else i;
      var e := SkipDigits(s, d);
      assert forall k :: d <= k < |s| ==> IsDigit(s[k]);
    }
  }

  /** A string of digits alone is numeric. */
  lemma DigitsAreNumeric(s: string)
    requires 0 < |s| && forall i :: 0 <= i < |s| ==> IsDigit(s[i])
    ensures IsNumeric(s)
  {
    TrimNoWhitespace(s);
    SkipDigitsAt(s, 0, |s|);
  }

  /** A sign followed by digits is numeric. */
  lemma SignedDigitsAreNumeric(s: string)
    requires 1 < |s| && IsSign(s[0]) && forall i :: 1 <= i < |s| ==> IsDigit(s[i])
    ensures IsNumeric(s)
  {
    TrimNoWhitespace(s);
    SkipDigitsAt(s, 1, |s|);
  }

  /** The empty string is not numeric. */
  lemma EmptyIsNotNumeric()
    ensures !IsNumeric("")
  {
    assert TrimRight(TrimLeft("")) == "";
    assert MantissaDigits("") == 0;
  }

  /** A string that starts with anything but a digit, a sign or a point is
      not numeric (unless whitespace is trimmed away first). */
  lemma BadStartIsNotNumeric(s: string)
    requires 0 < |s| && !IsWhitespace(s[0]) && !IsDigit(s[0]) && !IsSign(s[0]) && s[0] != '.'
    ensures !IsNumeric(s)
  {
    var t := TrimRight(TrimLeft(s));
    assert TrimLeft(s) == s;
    if 0 < |t| {
      assert t[0] == s[0];
      assert SkipDigits(t, 0) == 0;
    }
  }
}
