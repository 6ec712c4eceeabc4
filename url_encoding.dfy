/**
 * PHP's `urlencode` and `urldecode`: the application/x-www-form-urlencoded
 * encoding of a byte string (section 8.2.1 of RFC 1866). ASCII letters,
 * digits and `-`, `_`, `.` are kept, a space becomes `+`, and every other
 * byte becomes `%` followed by two upper-case hexadecimal digits.
 */
module UrlEncoding {

  /** PHP strings are byte strings. */
  newtype byte = x: int | 0 <= x < 256

  /** The character whose code is the byte (Latin-1 reading of a byte). */
  function Char(x: byte): (c: char)
    ensures c as int == x as int
  {
    x as int as char
  }

  predicate IsAlphaNum(c: char) {
    ('A' <= c <= 'Z') || ('a' <= c <= 'z') || ('0' <= c <= '9')
  }

  /** Bytes that `urlencode` copies unchanged. */
  predicate IsUnreserved(x: byte) {
    IsAlphaNum(Char(x)) || Char(x) == '-' || Char(x) == '_' || Char(x) == '.'
  }

  /** Every character `urlencode` can emit. */
  predicate IsEncodedChar(c: char) {
    IsAlphaNum(c) || c == '-' || c == '_' || c == '.' || c == '%' || c == '+'
  }

  /** A string every character of which stands for one byte. */
  predicate IsByteString(s: string) {
    forall i :: 0 <= i < |s| ==> s[i] as int < 256
  }

  /** Upper-case hexadecimal digit of a nibble. */
  function HexDigit(n: int): (c: char)
    requires 0 <= n < 16
    ensures IsAlphaNum(c) && IsUpperHexDigit(c) && HexValue(c) == n
  {
    if n < 10 then ('0' as int + n) as char else ('A' as int + n - 10) as char
  }

  /** Characters `urldecode` accepts as hexadecimal digits (either case). */
  predicate IsHexDigit(c: char) {
    ('0' <= c <= '9') || ('A' <= c <= 'F') || ('a' <= c <= 'f')
  }

  /** The digits `urlencode` emits: no lower-case letters. */
  predicate IsUpperHexDigit(c: char) {
    ('0' <= c <= '9') || ('A' <= c <= 'F')
  }

  function HexValue(c: char): (n: int)
    requires IsHexDigit(c)
    ensures 0 <= n < 16
  {
    if '0' <= c <= '9' then c as int - '0' as int
    else if 'A' <= c <= 'F' then c as int - 'A' as int + 10
    else c as int - 'a' as int + 10
  }

  /** The encoding of one byte. */
  function EncodeByte(x: byte): (r: string)
    ensures 0 < |r| && forall i :: 0 <= i < |r| ==> IsEncodedChar(r[i])
    ensures |r| == 1 <==> IsUnreserved(x) || x == 32
    ensures |r| == 1 <==> r[0] != '%'
    ensures |r| == 1 || |r| == 3
    ensures IsUnreserved(x) ==> r == [Char(x)]
    ensures x == 32 ==> r == "+"
    ensures |r| == 3 ==>
      IsUpperHexDigit(r[1]) && IsUpperHexDigit(r[2]) && 16 * HexValue(r[1]) + HexValue(r[2]) == x as int
  {
    if IsUnreserved(x) then [Char(x)]
    else if x == 32 then "+"
    else ['%', HexDigit(x as int / 16), HexDigit(x as int % 16)]
  }

  /** PHP `urlencode`. */
  function UrlEncode(b: seq<byte>): (r: string)
    ensures forall i :: 0 <= i < |r| ==> IsEncodedChar(r[i])
    ensures |b| <= |r| <= 3 * |b|
  {
    if b == [] then "" else EncodeByte(b[0]) + UrlEncode(b[1..])
  }

  /** PHP `urldecode`: `+` is a space, `%` with two hexadecimal digits is
      that byte, and every other character stands for itself. */
  function UrlDecode(s: string): seq<byte>
    requires IsByteString(s)
  {
    if |s| == 0 then []
    else if s[0] == '+' then [32 as byte] + UrlDecode(s[1..])
    else if s[0] == '%' && 3 <= |s| && IsHexDigit(s[1]) && IsHexDigit(s[2]) then
      [(16 * HexValue(s[1]) + HexValue(s[2])) as byte] + UrlDecode(s[3..])
    else [s[0] as int as byte] + UrlDecode(s[1..])
  }

  lemma EncodedIsByteString(b: seq<byte>)
    ensures IsByteString(UrlEncode(b))
  {
    var r := UrlEncode(b);
    forall i | 0 <= i < |r| ensures r[i] as int < 256 {
      assert IsEncodedChar(r[i]);
    }
  }

  lemma DecodeEncodedByte(x: byte, rest: string)
    requires IsByteString(rest)
    ensures IsByteString(EncodeByte(x) + rest)
    ensures UrlDecode(EncodeByte(x) + rest) == [x] + UrlDecode(rest)
  {
    var e := EncodeByte(x);
    var s := e + rest;
    assert forall i :: 0 <= i < |e| ==> IsEncodedChar(e[i]);
    assert IsByteString(s) by {
      forall i | 0 <= i < |s| ensures s[i] as int < 256 {
        if i < |e| { assert IsEncodedChar(e[i]); } else { assert s[i] == rest[i - |e|]; }
      }
    }
    if IsUnreserved(x) {
      assert s[0] == Char(x) && s[1..] == rest;
    } else if x == 32 {
      assert s[0] == '+' && s[1..] == rest;
    } else {
      var hi, lo := x as int / 16, x as int % 16;
      assert s[0] == '%' && s[1] == HexDigit(hi) && s[2] == HexDigit(lo) && s[3..] == rest;
      assert HexValue(HexDigit(hi)) == hi;
      assert HexValue(HexDigit(lo)) == lo;
    }
  }

  /** `urldecode` undoes `urlencode`. */
  lemma {:induction false} DecodeEncode(b: seq<byte>)
    ensures IsByteString(UrlEncode(b))
    ensures UrlDecode(UrlEncode(b)) == b
  {
    EncodedIsByteString(b);
    if b != [] {
      EncodedIsByteString(b[1..]);
      DecodeEncodedByte(b[0], UrlEncode(b[1..]));
      DecodeEncode(b[1..]);
      assert [b[0]] + b[1..] == b;
    }
  }

  /** Different byte strings have different encodings. */
  lemma EncodeInjective(a: seq<byte>, b: seq<byte>)
    ensures UrlEncode(a) == UrlEncode(b) ==> a == b
  {
    DecodeEncode(a);
    DecodeEncode(b);
  }

  /** The encoding has no escape exactly when every byte is unreserved or a
      space, and exactly then it is as long as its input. */
  lemma {:induction false} UnescapedEncoding(b: seq<byte>)
    ensures '%' !in UrlEncode(b) <==> forall i :: 0 <= i < |b| ==> IsUnreserved(b[i]) || b[i] == 32
    ensures '%' !in UrlEncode(b) <==> |UrlEncode(b)| == |b|
  {
    if b != [] {
      UnescapedEncoding(b[1..]);
      assert UrlEncode(b) == EncodeByte(b[0]) + UrlEncode(b[1..]);
      PercentInByte(b[0]);
      PercentInConcat(EncodeByte(b[0]), UrlEncode(b[1..]));
      PlainCons(b);
    }
  }

  lemma PercentInByte(x: byte)
    ensures '%' in EncodeByte(x) <==> |EncodeByte(x)| == 3
  {
    var e := EncodeByte(x);
    if |e| == 3 { assert e[0] == '%'; } else { assert e == [e[0]] && e[0] != '%'; }
  }

  lemma PercentInConcat(e: string, r: string)
    ensures '%' in e + r <==> '%' in e || '%' in r
  {
    if '%' in e + r {
      var k :| 0 <= k < |e + r| && (e + r)[k] == '%';
      if k < |e| { assert e[k] == '%'; } else { assert r[k - |e|] == '%'; }
    }
    if '%' in e { var k :| 0 <= k < |e| && e[k] == '%'; assert (e + r)[k] == '%'; }
    if '%' in r { var k :| 0 <= k < |r| && r[k] == '%'; assert (e + r)[|e| + k] == '%'; }
  }

  lemma PlainCons(b: seq<byte>)
    requires b != []
    ensures (forall i :: 0 <= i < |b| ==> IsUnreserved(b[i]) || b[i] == 32) <==>
      (IsUnreserved(b[0]) || b[0] == 32) && (forall i :: 0 <= i < |b[1..]| ==> IsUnreserved(b[1..][i]) || b[1..][i] == 32)
  {
    if forall i :: 0 <= i < |b[1..]| ==> IsUnreserved(b[1..][i]) || b[1..][i] == 32 {
      forall i | 1 <= i < |b| ensures IsUnreserved(b[i]) || b[i] == 32 { assert b[i] == b[1..][i - 1]; }
    }
  }


  /** The bytes read as characters, one for one. */
  function AsChars(b: seq<byte>): (s: string)
    ensures |s| == |b| && forall i :: 0 <= i < |b| ==> s[i] == Char(b[i])
  {
    if b == [] then "" else [Char(b[0])] + AsChars(b[1..])
  }

  /** A space becomes a plus sign. */
  lemma SpaceEncoding()
    ensures EncodeByte(32) == "+"
  {
    assert !IsUnreserved(32);
  }

  /** The encoding of a string is that of its first byte followed by that of the rest. */
  lemma EncodeCons(x: byte, rest: seq<byte>)
    ensures UrlEncode([x] + rest) == EncodeByte(x) + UrlEncode(rest)
  {
    assert ([x] + rest)[1..] == rest;
  }

  /** Unreserved bytes are copied as they are. */
  lemma {:induction false} UnreservedEncodesAsItself(b: seq<byte>)
    requires forall i :: 0 <= i < |b| ==> IsUnreserved(b[i])
    ensures UrlEncode(b) == AsChars(b)
  {
    if b != [] {
      UnreservedEncodesAsItself(b[1..]);
    }
  }
}
