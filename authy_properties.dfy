/**
 * What the Authy client's request preparation and response selection
 * guarantee across all inputs, and the scenarios its behaviour is known by.
 */
module AuthyProperties {
  import opened Wrappers
  import opened UrlEncoding
  import opened Numeric
  import opened PhpArray
  import opened JsonValue
  import opened Segments
  import opened Authy

  predicate IsAsciiDigit(x: byte) { 48 <= x <= 57 }

  // ---------------------------------------------------------------------
  // Validation seen from the raw token and id

  /** Validation passes exactly when both encodings are numeric and the
      encoded token has 6 to 10 characters; the request is then fixed. */
  lemma VerifyTokenSucceeds(authyId: seq<byte>, token: seq<byte>, opts: Query, t: string, id: string)
    requires UrlEncode(token) == t && UrlEncode(authyId) == id
    requires IsNumeric(t) && IsNumeric(id) && MinTokenLength <= |t| <= MaxTokenLength
    ensures VerifyToken(authyId, token, opts) ==
      Success(Request(Get, "protected/json/verify/" + t + "/" + id, RewriteForce(opts)))
  {
  }

  /** A non-empty run of ASCII digits is encoded as itself, and is numeric. */
  lemma DigitsEncodeAsNumber(b: seq<byte>)
    requires 0 < |b| && forall i :: 0 <= i < |b| ==> IsAsciiDigit(b[i])
    ensures UrlEncode(b) == AsChars(b) && IsNumeric(AsChars(b))
  {
    UnreservedEncodesAsItself(b);
    DigitsAreNumeric(AsChars(b));
  }

  /** An encoding that passes the numeric check has no escape, so it is as
      long as the raw value and the raw bytes are unreserved or spaces. */
  lemma NumericEncodingIsUnescaped(b: seq<byte>)
    requires IsNumeric(UrlEncode(b))
    ensures '%' !in UrlEncode(b) && |UrlEncode(b)| == |b|
    ensures forall i :: 0 <= i < |b| ==> IsUnreserved(b[i]) || b[i] == 32
  {
    EncodingIsTrimmed(b);
    NumberHasNoEscape(UrlEncode(b));
    UnescapedEncoding(b);
  }

  /** An encoding has no whitespace for `is_numeric` to trim. */
  lemma EncodingIsTrimmed(b: seq<byte>)
    ensures IsNumeric(UrlEncode(b)) == ScanNumber(UrlEncode(b))
  {
    var e := UrlEncode(b);
    forall i | 0 <= i < |e| ensures !IsWhitespace(e[i]) { assert IsEncodedChar(e[i]); }
    TrimNoWhitespace(e);
  }

  /** A string the scanner accepts holds no `%`. */
  lemma NumberHasNoEscape(e: string)
    requires ScanNumber(e)
    ensures '%' !in e
  {
    ScanNumberChars(e);
    forall i | 0 <= i < |e| ensures e[i] != '%' { assert IsNumberChar(e[i]); }
  }

  /** A token that gets through validation has 6 to 10 raw bytes, each of
      which `urlencode` copied to one character. */
  lemma VerifiedTokenHasRawLength(authyId: seq<byte>, token: seq<byte>, opts: Query)
    requires VerifyToken(authyId, token, opts).Success?
    ensures MinTokenLength <= |token| <= MaxTokenLength
    ensures forall i :: 0 <= i < |token| ==> IsUnreserved(token[i]) || token[i] == 32
  {
    NumericEncodingIsUnescaped(token);
  }

  /** A token that is empty, or whose first byte is not a digit, sign, point
      or space, fails the token check first, whatever the id is: `abc123`,
      and `+123456` (its `+` is escaped to `%2B`) among them. */
  lemma BadTokenStartFails(authyId: seq<byte>, token: seq<byte>, opts: Query)
    requires token == [] || !(IsAsciiDigit(token[0]) || token[0] == 45 || token[0] == 46 || token[0] == 32)
    ensures VerifyToken(authyId, token, opts) == Failure(TokenNotDigits)
  {
    if token == [] {
      EmptyIsNotNumeric();
    } else {
      var e := UrlEncode(token);
      assert e[0] == EncodeByte(token[0])[0] by {
        EncodeCons(token[0], token[1..]);
        assert [token[0]] + token[1..] == token;
      }
      BadHeadEncoding(token[0]);
      BadStartIsNotNumeric(e);
    }
  }

  /** The first character `urlencode` emits for such a byte cannot start a number. */
  lemma BadHeadEncoding(x: byte)
    requires !(IsAsciiDigit(x) || x == 45 || x == 46 || x == 32)
    ensures var c := EncodeByte(x)[0]; !IsWhitespace(c) && !IsDigit(c) && !IsSign(c) && c != '.'
  {
  }

  /** Tokens and ids of ASCII digits: validation depends on the token's
      length alone, and a token of 6 to 10 digits gives a GET to
      `protected/json/verify/<token>/<id>` with the rewritten options. */
  lemma DigitTokenVerification(authyId: seq<byte>, token: seq<byte>, opts: Query)
    requires 0 < |token| && forall i :: 0 <= i < |token| ==> IsAsciiDigit(token[i])
    requires 0 < |authyId| && forall i :: 0 <= i < |authyId| ==> IsAsciiDigit(authyId[i])
    ensures VerifyToken(authyId, token, opts) ==
      if MinTokenLength <= |token| <= MaxTokenLength
      then Success(Request(Get, "protected/json/verify/" + AsChars(token) + "/" + AsChars(authyId), RewriteForce(opts)))
      else Failure(TokenLength)
  {
    DigitsEncodeAsNumber(token);
    DigitsEncodeAsNumber(authyId);
    if MinTokenLength <= |token| <= MaxTokenLength {
      VerifyTokenSucceeds(authyId, token, opts, AsChars(token), AsChars(authyId));
    }
  }

  /** Without options, a valid verification asks the service to force it. */
  lemma DefaultVerificationForces(authyId: seq<byte>, token: seq<byte>)
    requires VerifyToken(authyId, token, []).Success?
    ensures VerifyToken(authyId, token, []).value.query == [("force", Str("true"))]
  {
  }

  /** A space followed by digits encodes as `+` followed by those digits. */
  lemma SpaceLedEncoding(digits: seq<byte>)
    requires forall i :: 0 <= i < |digits| ==> IsAsciiDigit(digits[i])
    ensures UrlEncode([32] + digits) == "+" + AsChars(digits)
  {
    assert forall i :: 0 <= i < |digits| ==> IsUnreserved(digits[i]);
    UnreservedEncodesAsItself(digits);
    SpaceEncoding();
    EncodeCons(32, digits);
  }

  /** `+` followed by digits is numeric. */
  lemma PlusDigitsAreNumeric(digits: seq<byte>)
    requires 0 < |digits| && forall i :: 0 <= i < |digits| ==> IsAsciiDigit(digits[i])
    ensures IsNumeric("+" + AsChars(digits))
  {
    var s := "+" + AsChars(digits);
    forall i | 1 <= i < |s| ensures IsDigit(s[i]) {
      assert s[i] == Char(digits[i - 1]);
    }
    SignedDigitsAreNumeric(s);
  }

  /** The numeric check is not a digits check: a token led by a space is
      accepted, and its path segment starts with `+`. */
  lemma SpaceLedTokenAccepted(authyId: seq<byte>, digits: seq<byte>, opts: Query)
    requires MinTokenLength <= |digits| + 1 <= MaxTokenLength
    requires forall i :: 0 <= i < |digits| ==> IsAsciiDigit(digits[i])
    requires 0 < |authyId| && forall i :: 0 <= i < |authyId| ==> IsAsciiDigit(authyId[i])
    ensures VerifyToken(authyId, [32] + digits, opts) ==
      Success(Request(Get, "protected/json/verify/" + ("+" + AsChars(digits)) + "/" + AsChars(authyId), RewriteForce(opts)))
  {
    SpaceLedEncoding(digits);
    PlusDigitsAreNumeric(digits);
    DigitsEncodeAsNumber(authyId);
    VerifyTokenSucceeds(authyId, [32] + digits, opts, "+" + AsChars(digits), AsChars(authyId));
  }

  /** `1.5e10` is numeric. */
  lemma DecimalExponentIsNumeric()
    ensures IsNumeric("1.5e10")
  {
    DecimalExponentScan("1.5e10");
  }

  /** The scan of `1.5e10`, stated on its characters: on the literal itself
      the solver unfolds the scanner's functions on every character at once,
      which costs far more. */
  lemma DecimalExponentScan(s: string)
    requires |s| == 6 && s[0] == '1' && s[1] == '.' && s[2] == '5' && s[3] == 'e' && s[4] == '1' && s[5] == '0'
    ensures IsNumeric(s)
  {
    assert SignEnd(s) == 0;
    SkipDigitsAt(s, 0, 1);
    assert IntEnd(s) == 1 && HasPoint(s);
    SkipDigitsAt(s, 2, 3);
    assert MantissaEnd(s) == 3 && MantissaDigits(s) == 2;
    SkipDigitsAt(s, 4, 6);
    assert ScanExponent(s, 4);
    TrimNoWhitespace(s);
  }

  /** Signs, a decimal point and an exponent pass the check too: the token
      `1.5e10` is accepted for any id of digits. */
  lemma DecimalExponentTokenAccepted(authyId: seq<byte>, token: seq<byte>, opts: Query)
    requires token == [49, 46, 53, 101, 49, 48]
    requires 0 < |authyId| && forall i :: 0 <= i < |authyId| ==> IsAsciiDigit(authyId[i])
    ensures VerifyToken(authyId, token, opts).Success?
  {
    var t := UrlEncode(token);
    assert t == AsChars(token) by {
      forall i | 0 <= i < |token| ensures IsUnreserved(token[i]) {}
      UnreservedEncodesAsItself(token);
    }
    DecimalExponentScan(t);
    DigitsEncodeAsNumber(authyId);
    VerifyTokenSucceeds(authyId, token, opts, t, AsChars(authyId));
  }

  // ---------------------------------------------------------------------
  // The force option

  /** When present, `force` is removed where it stood and nothing else moves. */
  lemma ForceRemovedInPlace(opts: Query, i: nat)
    requires UniqueKeys(opts) && i < |opts| && opts[i].0 == "force"
    ensures RewriteForce(opts) == opts[..i] + opts[i + 1..]
  {
    UnsetRemovesEntry(opts, i);
  }

  /** An explicit `force` is dropped whatever its value, `null` and "true" included. */
  lemma ExplicitForceDropped(v: Value)
    ensures RewriteForce([("force", v)]) == []
  {
  }

  /** The rewrite is a toggle: applied twice to options without `force`, it
      gives them back. */
  lemma RewriteForceTwice(opts: Query)
    requires !HasKey(opts, "force")
    ensures RewriteForce(RewriteForce(opts)) == opts
  {
    var once := RewriteForce(opts);
    assert once[|opts|].0 == "force";
    UnsetAppended(opts, "force", Str("true"));
  }

  /** The rewritten options are still a proper PHP array. */
  lemma RewriteForceKeepsUnique(opts: Query)
    requires UniqueKeys(opts)
    ensures UniqueKeys(RewriteForce(opts))
  {
    AssignUnsetKeepUnique(opts, "force", Str("true"));
  }

  // ---------------------------------------------------------------------
  // Paths

  /** The verification path determines the token and the id it was built from. */
  lemma VerifyPathDeterminesInputs(t1: seq<byte>, id1: seq<byte>, t2: seq<byte>, id2: seq<byte>)
    ensures VerifyPath(t1, id1) == VerifyPath(t2, id2) ==> t1 == t2 && id1 == id2
  {
    if VerifyPath(t1, id1) == VerifyPath(t2, id2) {
      EncodeInjective(t1, t2);
      EncodeInjective(id1, id2);
    }
  }

  /** An id holding a slash stays one segment: `4/2` is sent as `4%2F2`. */
  lemma SlashInIdIsEscaped()
    ensures Split(RequestSms([52, 47, 50], []).path, '/') == ["protected", "json", "sms", "4%2F2"]
  {
    var b: seq<byte> := [52, 47, 50];
    assert b[1..] == [47] + [50] && b[1..][1..] == [50];
    assert EncodeByte(47) == "%2F" by { assert !IsUnreserved(47); }
    assert UrlEncode([50]) == "2";
    assert UrlEncode([47] + [50]) == "%2F2";
    assert UrlEncode(b) == "4%2F2";
  }

  // ---------------------------------------------------------------------
  // Responses

  /** `phoneCall` gives back what `requestSms` would, but only on success. */
  lemma PhoneCallNarrowsSms(body: Json)
    ensures PhoneCallResult(body) == if Truthy(Property(body, "success")) then Some(SmsResult(body)) else None
  {
  }

  /** Without an API URL, the client talks to the public Authy API. */
  lemma DefaultClientBase(apiKey: string, h: Host)
    ensures NewClient(apiKey, h).baseUri == "https://api.authy.com/"
  {
  }

  /** Without a country code and install-link flag, a registration sends the
      United States code 1 and asks for the install link. */
  lemma RegisterUserDefaults(email: Value, cellphone: Value)
    ensures Lookup(RegisterUser(email, cellphone).query, "user") == Some(Arr([("email", email),
      ("cellphone", cellphone), ("country_code", Int(1)), ("send_install_link_via_sms", Bool(true))]))
  {
  }

  /** A registration yields the user object and so its id; an error body,
      a null user or an undecodable body yields nothing. */
  lemma RegisterUserScenarios()
    ensures var user := JObject(map["id" := JString("999")]);
      RegisterUserResult(JObject(map["user" := user])) == Some(user) &&
      Property(user, "id") == JString("999")
    ensures RegisterUserResult(JObject(map["error" := JString("invalid")])) == None
    ensures RegisterUserResult(JObject(map["user" := JNull])) == None
    ensures RegisterUserResult(JNull) == None
  {
  }

  /** `success` is read with PHP truthiness: the string "false" counts as success, "0" does not. */
  lemma PhoneCallScenarios(rest: map<string, Json>)
    ensures PhoneCallResult(JObject(rest["success" := JBool(true)])).Some?
    ensures PhoneCallResult(JObject(rest["success" := JBool(false)])) == None
    ensures PhoneCallResult(JObject(rest["success" := JString("false")])).Some?
    ensures PhoneCallResult(JObject(rest["success" := JString("0")])) == None
    ensures PhoneCallResult(JObject(map[])) == None
    ensures PhoneCallResult(JNull) == None
  {
  }
}
