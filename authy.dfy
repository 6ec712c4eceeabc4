/**
 * The Authy client: how each operation turns its arguments into an HTTP
 * request (verb, path relative to the base URI, query options), which
 * inputs `verifyToken` refuses before any request exists, and what each
 * operation makes of the decoded response body. Sending the request and
 * decoding the body happen between these two halves and are not modelled.
 */
module Authy {
  import opened Wrappers
  import opened UrlEncoding
  import opened Numeric
  import opened PhpArray
  import opened JsonValue
  import opened Segments

  const Version := "3.1"
  const DefaultApiUrl := "https://api.authy.com"

  // ---------------------------------------------------------------------
  // The client's fixed configuration

  /** What the host reports through `php_uname` and `phpversion`. */
  datatype Host = Host(os: string, release: string, machine: string, phpVersion: string)

  /** Settings every request of the client carries. */
  datatype Client = Client(baseUri: string, headers: seq<(string, string)>, httpErrors: bool)

  function UserAgent(h: Host): (ua: string)
    ensures |"AuthyPHP/" + Version + " ("| < |ua|
    ensures ua[..|"AuthyPHP/" + Version + " ("|] == "AuthyPHP/" + Version + " ("
  {
    "AuthyPHP/" + Version + " (" + h.os + "-" + h.release + "-" + h.machine + "; PHP " + h.phpVersion + ")"
  }

  function Header(headers: seq<(string, string)>, name: string): Option<string> {
    if |headers| == 0 then None
    else if headers[0].0 == name then Some(headers[0].1)
    else Header(headers[1..], name)
  }

  /** The constructor: the base URI is the API URL followed by a slash, every
      request sends the API key and a User-Agent, and error statuses do not throw. */
  function NewClient(apiKey: string, h: Host, apiUrl: string := DefaultApiUrl): (c: Client)
    ensures |c.baseUri| == |apiUrl| + 1 && c.baseUri[..|apiUrl|] == apiUrl && c.baseUri[|apiUrl|] == '/'
    ensures Header(c.headers, "X-Authy-API-Key") == Some(apiKey)
    ensures Header(c.headers, "User-Agent") == Some(UserAgent(h))
    ensures !c.httpErrors
  {
    Client(apiUrl + "/", [("User-Agent", UserAgent(h)), ("X-Authy-API-Key", apiKey)], false)
  }

  // ---------------------------------------------------------------------
  // Requests

  datatype Verb = Get | Post

  /** A request relative to the client's base URI. */
  datatype Request = Request(verb: Verb, path: string, query: Query)

  const DefaultCountryCode := Int(1)
  const DefaultSendInstallLink := Bool(true)

  /** `registerUser`: a POST to the user-creation endpoint with the user's
      details nested under the `user` option. */
  function RegisterUser(email: Value, cellphone: Value, countryCode: Value := DefaultCountryCode,
                        sendInstallLink: Value := DefaultSendInstallLink): (r: Request)
    ensures r.verb == Post && Split(r.path, '/') == ["protected", "json", "users", "new"]
    ensures Keys(r.query) == ["user"]
    ensures Lookup(r.query, "user") == Some(Arr([("email", email), ("cellphone", cellphone),
      ("country_code", countryCode), ("send_install_link_via_sms", sendInstallLink)]))
  {
    var path := "protected/json/users/new";
    assert path == "protected" + "/" + ("json" + "/" + ("users" + "/" + "new"));
    SplitFour("protected", "json", "users", "new");
    Request(Post, path,
      [("user", Arr([("email", email), ("cellphone", cellphone),
        ("country_code", countryCode), ("send_install_link_via_sms", sendInstallLink)]))])
  }

  /** An encoded identifier never holds a slash. */
  lemma NoSlashInEncoding(b: seq<byte>)
    ensures '/' !in UrlEncode(b)
  {
  }

  /** A path under `protected/json/<kind>/` for one encoded identifier. */
  function UserPath(kind: string, authyId: seq<byte>): (path: string)
    requires '/' !in kind
    ensures Split(path, '/') == ["protected", "json", kind, UrlEncode(authyId)]
  {
    var path := "protected/json/" + kind + "/" + UrlEncode(authyId);
    NoSlashInEncoding(authyId);
    UserPathSegments(kind, UrlEncode(authyId));
    path
  }

  lemma UserPathSegments(kind: string, id: string)
    requires '/' !in kind && '/' !in id
    ensures Split("protected/json/" + kind + "/" + id, '/') == ["protected", "json", kind, id]
  {
    var prefix := "protected/json/";
    assert prefix == "protected" + "/" + ("json" + "/");
    assert prefix + kind + "/" + id == "protected" + "/" + ("json" + "/" + (kind + "/" + id));
    SplitFour("protected", "json", kind, id);
  }

  /** `requestSms`: a GET to the SMS endpoint of the encoded id, with the
      caller's options passed through untouched. */
  function RequestSms(authyId: seq<byte>, opts: Query): (r: Request)
    ensures r.verb == Get && r.query == opts
    ensures Split(r.path, '/') == ["protected", "json", "sms", UrlEncode(authyId)]
  {
    Request(Get, UserPath("sms", authyId), opts)
  }

  /** `phoneCall`: a GET to the voice-call endpoint of the encoded id, with
      the caller's options passed through untouched. */
  function PhoneCall(authyId: seq<byte>, opts: Query): (r: Request)
    ensures r.verb == Get && r.query == opts
    ensures Split(r.path, '/') == ["protected", "json", "call", UrlEncode(authyId)]
  {
    Request(Get, UserPath("call", authyId), opts)
  }

  /** Two users never share an SMS or call endpoint: the path determines the id. */
  lemma UserPathDeterminesId(kind: string, a: seq<byte>, b: seq<byte>)
    requires '/' !in kind
    ensures UserPath(kind, a) == UserPath(kind, b) ==> a == b
  {
    if UserPath(kind, a) == UserPath(kind, b) {
      assert Split(UserPath(kind, a), '/')[3] == UrlEncode(a);
      EncodeInjective(a, b);
    }
  }

  // ---------------------------------------------------------------------
  // verifyToken

  /** The `AuthyFormatException` cases, in the order they are checked. */
  datatype FormatError = TokenNotDigits | IdNotDigits | TokenLength {
    function Message(): string {
      match this
      case TokenNotDigits => "Invalid Token. Only digits accepted."
      case IdNotDigits => "Invalid Authy id. Only digits accepted."
      case TokenLength => "Invalid Token. Unexpected length."
    }
  }

  const MinTokenLength := 6
  const MaxTokenLength := 10

  /** `__validate_digit` on a string (its `is_int` test never holds for a
      string): the value must be numeric. */
  function ValidateDigit(v: string, error: FormatError): (r: Option<FormatError>)
    ensures r == None <==> IsNumeric(v)
    ensures r != None ==> r == Some(error)
  {
    if !IsNumeric(v) then Some(error) else None
  }

  /** `__validateVerify`: the token must be numeric, then the id, then the
      token's length must lie in [6, 10]; the first failing check decides. */
  function ValidateVerify(token: string, authyId: string): (r: Option<FormatError>)
    ensures r == Some(TokenNotDigits) <==> !IsNumeric(token)
    ensures r == Some(IdNotDigits) <==> IsNumeric(token) && !IsNumeric(authyId)
    ensures r == Some(TokenLength) <==>
      IsNumeric(token) && IsNumeric(authyId) && !(MinTokenLength <= |token| <= MaxTokenLength)
    ensures r == None <==>
      IsNumeric(token) && IsNumeric(authyId) && MinTokenLength <= |token| <= MaxTokenLength
  {
    match ValidateDigit(token, TokenNotDigits)
    case Some(e) => Some(e)
    case None =>
      match ValidateDigit(authyId, IdNotDigits)
      case Some(e) => Some(e)
      case None =>
        if |token| < MinTokenLength || |token| > MaxTokenLength then Some(TokenLength) else None
  }

  /** The `force` option is toggled: added as "true" when absent, removed
      (whatever its value) when present. */
  function RewriteForce(opts: Query): (r: Query)
    ensures HasKey(r, "force") <==> !HasKey(opts, "force")
    ensures !HasKey(opts, "force") ==> r == opts + [("force", Str("true"))]
    ensures forall k :: k != "force" ==> Lookup(r, k) == Lookup(opts, k)
  {
    if !HasKey(opts, "force") then Assign(opts, "force", Str("true")) else Unset(opts, "force")
  }

  /** `verifyToken`: rewrite the options, encode token and id, validate the
      encoded values, and build the GET to the verification endpoint. */
  function VerifyToken(authyId: seq<byte>, token: seq<byte>, opts: Query): (r: Result<Request, FormatError>)
    ensures r == Failure(TokenNotDigits) <==> !IsNumeric(UrlEncode(token))
    ensures r == Failure(IdNotDigits) <==> IsNumeric(UrlEncode(token)) && !IsNumeric(UrlEncode(authyId))
    ensures r == Failure(TokenLength) <==>
      IsNumeric(UrlEncode(token)) && IsNumeric(UrlEncode(authyId)) && !(MinTokenLength <= |UrlEncode(token)| <= MaxTokenLength)
    ensures r.Success? ==> r.value.verb == Get && r.value.query == RewriteForce(opts)
    ensures r.Success? ==>
      Split(r.value.path, '/') == ["protected", "json", "verify", UrlEncode(token), UrlEncode(authyId)]
  {
    var query := RewriteForce(opts);
    var t, id := UrlEncode(token), UrlEncode(authyId);
    match ValidateVerify(t, id)
    case Some(e) => Failure(e)
    case None => Success(Request(Get, VerifyPath(token, authyId), query))
  }

  /** The verification endpoint of an encoded token and id. */
  function VerifyPath(token: seq<byte>, authyId: seq<byte>): (path: string)
    ensures Split(path, '/') == ["protected", "json", "verify", UrlEncode(token), UrlEncode(authyId)]
  {
    var t, id := UrlEncode(token), UrlEncode(authyId);
    var path := "protected/json/verify/" + t + "/" + id;
    NoSlashInEncoding(token);
    NoSlashInEncoding(authyId);
    VerifyPathSegments(t, id);
    path
  }

  lemma VerifyPathSegments(t: string, id: string)
    requires '/' !in t && '/' !in id
    ensures Split("protected/json/verify/" + t + "/" + id, '/') == ["protected", "json", "verify", t, id]
  {
    var prefix := "protected/json/verify/";
    assert prefix == "protected" + "/" + ("json" + "/" + ("verify" + "/"));
    assert prefix + t + "/" + id == "protected" + "/" + ("json" + "/" + ("verify" + "/" + (t + "/" + id)));
    SplitFive("protected", "json", "verify", t, id);
  }

  // ---------------------------------------------------------------------
  // Responses

  /** `registerUser`'s result: the body's `user`, and nothing when it is not set. */
  function RegisterUserResult(body: Json): (r: Option<Json>)
    ensures r.Some? <==> body.JObject? && "user" in body.fields && body.fields["user"] != JNull
    ensures r.Some? ==> r.value == body.fields["user"] && r.value != JNull
  {
    if IsSet(body, "user") then Some(Property(body, "user")) else None
  }

  /** `requestSms`'s result: the decoded body as it is. */
  function SmsResult(body: Json): Json {
    body
  }

  /** `phoneCall`'s result: the body, and nothing unless its `success` is truthy. */
  function PhoneCallResult(body: Json): (r: Option<Json>)
    ensures r.Some? <==> body.JObject? && "success" in body.fields && Truthy(body.fields["success"])
    ensures r.Some? ==> r.value == body
  {
    if Truthy(Property(body, "success")) then Some(body) else None
  }
}
