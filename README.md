# Authy client request preparation, in Dafny

This project models the logic of the PHP client `TwilioAuthy\Authy` for
the Authy one-time-password service. That logic sits around the HTTP calls:

- how each of the four operations (`registerUser`, `requestSms`,
  `phoneCall`, `verifyToken`) turns its arguments into a request. A request
  is a verb, a path relative to the base URI, and query options.
- which tokens and ids `verifyToken` refuses before any request exists, and
  with which `AuthyFormatException` message.
- how `verifyToken` rewrites the `force` option.
- what `registerUser`, `requestSms` and `phoneCall` return from the decoded
  response body.

Everything in the core is pure, so the model is made of datatypes,
functions and lemmas. Besides `Wrappers` (`Option` and `Result`), it has
seven modules:

- `UrlEncoding`: PHP `urlencode`, which is the
  application/x-www-form-urlencoded encoding of section 8.2.1 of RFC 1866.
  Letters, digits and `-_.` are kept, a space becomes `+`, and every other
  byte becomes `%XX` with upper-case hex. The module also has PHP
  `urldecode` as its inverse.
- `Numeric`: PHP `is_numeric` on strings. It is written as a left-to-right
  scanner (`IsNumeric`) and also as the grammar
  `[+-]?(d+|d*.d*)([eE][+-]?d+)?` (`NumericLiteral`, at least one mantissa
  digit). The two are proved to accept the same strings.
- `PhpArray`: PHP arrays with string keys (the query options), as ordered
  key/value lists whose keys are unique. The model keeps order because the
  query string is serialised in array order.
- `JsonValue`: a decoded JSON body, plus PHP's rules for property reads,
  `isset` and truthiness.
- `Segments`: splitting a path at `/`.
- `Authy`: the client itself.
- `AuthyProperties`: lemmas across operations and the known scenarios.

PHP strings are byte strings, so identifiers and tokens are `seq<byte>`.
The encoded form is an ASCII `string`.

Where the code and its prose description differ, the model follows the
code:

- The check is `is_numeric`, not "digits only", whatever its messages
  say. Signs, a decimal point and an exponent all pass
  (`DecimalExponentTokenAccepted`). A raw leading space passes too, because
  it is encoded to `+` before the check (`SpaceLedTokenAccepted`). A raw
  `+` fails, because it is encoded to `%2B` (`BadTokenStartFails`).
- The checks run on the url-encoded token and id, not on the raw values.
  The length bound therefore applies to the encoded token. For any token
  that passes, the encoded length equals the raw length
  (`VerifiedTokenHasRawLength`).
- The `is_int` arm of `__validate_digit` never applies on this path,
  because `urlencode` always returns a string. `ValidateDigit` is a
  predicate on strings.
- The options are rewritten before the token and id are encoded and
  validated. "Rewritten" means `force=true` is added when absent, and
  `force` is removed, whatever its value, when present. The order changes
  nothing, since the rewrite cannot fail.

## Model

| member | source | states |
|---|---|---|
| `UrlEncoding.UrlEncode` | src/TwilioAuthyApi/Authy.php:90-91 | every output character is a letter, a digit, or one of `-_.%+`; the output is at least as long as the input and at most three times as long |
| `UrlEncoding.EncodeByte` | src/TwilioAuthyApi/Authy.php:90 | an unreserved byte is copied and a space becomes `+`; every other byte becomes `%` and two upper-case hexadecimal digits whose value is the byte |
| `UrlEncoding.DecodeEncode` | src/TwilioAuthyApi/Authy.php:90-91 | `urldecode(urlencode(b)) == b` for every byte string |
| `UrlEncoding.EncodeInjective` | src/TwilioAuthyApi/Authy.php:90-91 | two different raw values never have the same encoding |
| `UrlEncoding.UnescapedEncoding` | src/TwilioAuthyApi/Authy.php:90-91 | the encoding has no `%` exactly when every byte is unreserved or a space, and exactly then it is as long as the input |
| `UrlEncoding.UnreservedEncodesAsItself` | src/TwilioAuthyApi/Authy.php:90-91 | unreserved bytes are copied one for one |
| `Numeric.SkipDigits` | src/TwilioAuthyApi/Authy.php:170 | the scanner's digit run: all digits up to the returned index, and no digit at it |
| `Numeric.ScanNumberIsNumericLiteral` | src/TwilioAuthyApi/Authy.php:170 | the `is_numeric` scanner accepts exactly the strings of the numeric-literal grammar, in both directions |
| `Numeric.IsNumericWithoutWhitespace` | src/TwilioAuthyApi/Authy.php:170 | on strings without whitespace, `is_numeric` is exactly the grammar, so PHP's whitespace rules have no effect |
| `Numeric.ScanNumberChars` | src/TwilioAuthyApi/Authy.php:170 | a numeric string contains only digits, signs, `e`/`E` and `.` |
| `Numeric.DigitsAreNumeric` | src/TwilioAuthyApi/Authy.php:170 | a non-empty run of digits is numeric |
| `Numeric.EmptyIsNotNumeric` | src/TwilioAuthyApi/Authy.php:170 | the empty string is not numeric |
| `Numeric.BadStartIsNotNumeric` | src/TwilioAuthyApi/Authy.php:170 | a string that starts with anything other than whitespace, a digit, a sign or a point is not numeric |
| `PhpArray.Lookup` | src/TwilioAuthyApi/Authy.php:84 | a key is found exactly when `array_key_exists` holds, and the value found is stored under that key |
| `PhpArray.Assign` | src/TwilioAuthyApi/Authy.php:85 | after `$q[$k] = $v` the key maps to `v` and every other key is unchanged; a new key is appended last |
| `PhpArray.Replace` | src/TwilioAuthyApi/Authy.php:85 | assigning to a key that is present changes only its value: every entry keeps its key and position, the key maps to the new value and every other key is unchanged |
| `PhpArray.LookupAppend` | src/TwilioAuthyApi/Authy.php:85 | after a new key is appended, it maps to its value and every other key reads as before |
| `PhpArray.Unset` | src/TwilioAuthyApi/Authy.php:87 | after `unset($q[$k])` the key is absent and every other key is unchanged |
| `PhpArray.UnsetRemovesEntry` | src/TwilioAuthyApi/Authy.php:87 | in an array with unique keys, `unset` removes exactly that entry and leaves the rest in order |
| `PhpArray.UnsetAppended` | src/TwilioAuthyApi/Authy.php:85-87 | unsetting a key that was just appended gives the original array back |
| `PhpArray.AssignUnsetKeepUnique` | src/TwilioAuthyApi/Authy.php:84-88 | assigning and unsetting keep keys unique |
| `Authy.UserAgent` | src/TwilioAuthyApi/Authy.php:146-156 | the User-Agent is non-empty and starts with `AuthyPHP/3.1 (` |
| `Authy.NewClient` | src/TwilioAuthyApi/Authy.php:25-31 | the base URI is the API URL followed by `/`; the headers carry the API key and the User-Agent; HTTP error statuses do not throw |
| `Authy.RegisterUser` | src/TwilioAuthyApi/Authy.php:51-65 | a POST to the four segments `protected/json/users/new`, whose only option `user` holds email, cellphone, country code and install-link flag in that order |
| `Authy.RegisterUserResult` | src/TwilioAuthyApi/Authy.php:66-70 | the result is present exactly when the body is an object with a non-null `user`, and it is that `user` |
| `Authy.UserPath` | src/TwilioAuthyApi/Authy.php:112-114 | `protected/json/<kind>/<enc(id)>` has exactly four segments, the last being the encoded id |
| `Authy.RequestSms` | src/TwilioAuthyApi/Authy.php:110-117 | a GET to `protected/json/sms/<enc(id)>` (four segments) with the caller's options untouched |
| `Authy.PhoneCall` | src/TwilioAuthyApi/Authy.php:132-138 | a GET to `protected/json/call/<enc(id)>` (four segments) with the caller's options untouched |
| `Authy.UserPathDeterminesId` | src/TwilioAuthyApi/Authy.php:112-114 | two different ids never share an SMS or call endpoint |
| `Authy.PhoneCallResult` | src/TwilioAuthyApi/Authy.php:140-143 | the result is present exactly when the body is an object whose `success` is truthy, and it is the whole body |
| `Authy.NoSlashInEncoding` | src/TwilioAuthyApi/Authy.php:90-91 | an encoded id or token never contains `/` |
| `Authy.ValidateDigit` | src/TwilioAuthyApi/Authy.php:168-173 | the check passes exactly when the string is numeric, and it fails with the message it was given |
| `Authy.ValidateVerify` | src/TwilioAuthyApi/Authy.php:158-166 | checks run in order (token numeric, then id numeric, then token length in [6, 10]); the first failure decides the error, and each outcome holds exactly under its condition |
| `Authy.RewriteForce` | src/TwilioAuthyApi/Authy.php:84-88 | `force` is present afterwards exactly when it was absent before; when absent, `force => "true"` is appended; every other key keeps its value |
| `Authy.VerifyToken` | src/TwilioAuthyApi/Authy.php:82-100 | fails with the token error exactly when the encoded token is not numeric; otherwise with the id error exactly when the encoded id is not numeric; otherwise with the length error exactly when the encoded token is outside [6, 10]; on success it is a GET to the five segments `protected/json/verify/<enc(token)>/<enc(id)>` with the rewritten options |
| `Authy.VerifyPath` | src/TwilioAuthyApi/Authy.php:94 | the verification path has exactly five segments, ending in the encoded token and the encoded id |
| `AuthyProperties.VerifyTokenSucceeds` | src/TwilioAuthyApi/Authy.php:90-97 | when both encodings `t` and `id` are numeric and `t` has 6 to 10 characters, the request is the GET to `protected/json/verify/<t>/<id>` with the rewritten options |
| `AuthyProperties.NumericEncodingIsUnescaped` | src/TwilioAuthyApi/Authy.php:90-92 | an encoding that passes the numeric check has no escape, so it is as long as the raw value |
| `AuthyProperties.VerifiedTokenHasRawLength` | src/TwilioAuthyApi/Authy.php:162-165 | a token that passes validation has 6 to 10 raw bytes, each unreserved or a space |
| `AuthyProperties.BadTokenStartFails` | src/TwilioAuthyApi/Authy.php:160 | an empty token, or one starting with something other than a digit, `-`, `.` or a space, fails with "Invalid Token. Only digits accepted." whatever the id is |
| `AuthyProperties.DigitTokenVerification` | src/TwilioAuthyApi/Authy.php:82-100 | for digit tokens and ids, the outcome depends only on the token's length: a GET to `protected/json/verify/<token>/<id>` for 6 to 10 digits, and the length error otherwise |
| `AuthyProperties.DefaultVerificationForces` | src/TwilioAuthyApi/Authy.php:84-85 | without options, a valid verification sends exactly `force=true` |
| `AuthyProperties.SpaceLedEncoding` | src/TwilioAuthyApi/Authy.php:90 | a space followed by digits encodes as `+` followed by the digits |
| `AuthyProperties.PlusDigitsAreNumeric` | src/TwilioAuthyApi/Authy.php:170 | `+` followed by digits is numeric |
| `AuthyProperties.SpaceLedTokenAccepted` | src/TwilioAuthyApi/Authy.php:90-92 | a space followed by digits passes validation, and its path segment is `+` followed by the digits |
| `AuthyProperties.DecimalExponentIsNumeric` | src/TwilioAuthyApi/Authy.php:170 | `1.5e10` is numeric |
| `AuthyProperties.DecimalExponentTokenAccepted` | src/TwilioAuthyApi/Authy.php:168-172 | the token `1.5e10` passes the "digits only" check |
| `AuthyProperties.ForceRemovedInPlace` | src/TwilioAuthyApi/Authy.php:86-87 | a present `force` is removed where it stood, and everything else stays in order |
| `AuthyProperties.ExplicitForceDropped` | src/TwilioAuthyApi/Authy.php:86-87 | an explicit `force` is dropped whatever its value, `"true"` included |
| `AuthyProperties.RewriteForceTwice` | src/TwilioAuthyApi/Authy.php:84-88 | the rewrite is a toggle: applied twice to options without `force`, it gives them back |
| `AuthyProperties.RewriteForceKeepsUnique` | src/TwilioAuthyApi/Authy.php:84-88 | the rewritten options are still a proper PHP array |
| `AuthyProperties.VerifyPathDeterminesInputs` | src/TwilioAuthyApi/Authy.php:94 | the verification path determines both the token and the id |
| `AuthyProperties.SlashInIdIsEscaped` | src/TwilioAuthyApi/Authy.php:112-114 | the id `4/2` is sent as the single segment `4%2F2` |
| `AuthyProperties.PhoneCallNarrowsSms` | src/TwilioAuthyApi/Authy.php:119-143 | `phoneCall` returns what `requestSms` returns, but only when `success` is truthy |
| `AuthyProperties.DefaultClientBase` | src/TwilioAuthyApi/Authy.php:25-27 | without an API URL, the base URI is `https://api.authy.com/` |
| `AuthyProperties.RegisterUserDefaults` | src/TwilioAuthyApi/Authy.php:51-61 | without the optional arguments, the user option carries country code 1 and asks for the install link |
| `AuthyProperties.RegisterUserScenarios` | src/TwilioAuthyApi/Authy.php:66-70 | `{"user":{"id":"999"}}` yields the user with id `"999"`; an error body, a null user or an undecodable body yields nothing |
| `AuthyProperties.PhoneCallScenarios` | src/TwilioAuthyApi/Authy.php:140-143 | `success` true, or the string `"false"`, yields the body; `false`, `"0"`, a missing `success` or a null body yields nothing |

## Left out

- The HTTP calls (`get`/`post` on the Guzzle client) and the client object
  itself are not modelled; a request is a value (verb, relative path, query).
  How Guzzle resolves the path against the base URI and serialises the
  nested `user[...]` query is library behaviour.
- `json_decode` is a foreign parser. The decoded body is an input, as a
  `Json` value. JSON numbers with a fraction are `real`s, with no
  floating-point rounding.
- The `curl` IPv4 option in `default_options` is transport configuration.
- The host calls `php_uname` and `phpversion` in the User-Agent become a
  `Host` parameter.
- The PHP warnings for reading `success` on a body that is not an object
  are not modelled. The model reads null there, as PHP does.
- Identifiers that PHP callers pass as integers are converted to decimal
  strings by `urlencode`. The model takes them as those strings.
- The class `AuthyFormatException` is not part of this model. Its cases are
  the `FormatError` datatype, carrying the three messages.
- PHP arrays with integer keys are not modelled. Options have string keys
  only.
- `Authy.SmsResult`: the identity; `requestSms` returns the decoded body
  unchanged, which the function's body states. It has no contract of its
  own.
- The constructor's optional `$http_handler`, which is passed to Guzzle
  only when it is not null, is transport configuration and is not
  modelled.
- `example.php` is a script that makes live calls. It has no logic of its
  own.
