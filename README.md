# elimisha-backend payment relay: a Dafny model of its decision logic

The relay in `index.js` forwards push-payment ("STK Push") requests to the
M-Pesa sandbox and acknowledges the provider's result callbacks. Apart from
HTTP plumbing, three pieces of pure logic remain. This project models each of
them as Dafny functions over datatypes and proves properties about them:

1. **Credential and password encoding.**
   - The token request carries `Authorization: Basic base64(key ":" secret)`.
   - The push-payment password is `base64(shortcode ++ passkey ++ timestamp)`.
   - The timestamp is moment's `YYYYMMDDHHmmss`.
   - `Buffer.from(string)` is UTF-8 (module `Utf8`, RFC 3629).
   - `.toString('base64')` is the encoding of section 4 of RFC 4648 (module `Base64`).
   - `format('YYYYMMDDHHmmss')` is zero-filled decimal fields (module `Timestamp`).
   - Each module has a strict decoder or parser, and both round trips are proved.
2. **Push-payment payload construction** (module `StkPush`). `BuildPayload`
   takes the request body, the configuration and a clock reading, and returns
   the payload record. It follows the JavaScript `||` defaulting exactly.
3. **Callback classification** (module `Callback`). `Handle` maps the callback
   body to a reply (400 or 200) and to the success or failure report the
   handler logs.

JavaScript values are modelled by `Json.JsValue`, with these operations:
- truthiness;
- property reads, which throw a TypeError on `null` or `undefined`;
- optional chaining.

The clock reading, the environment (`StkPush.Config`, where an unset variable
is `None`) and the request body are all parameters.

Where the code and its description differ, the model follows the code:
- The 400 test is `!stkCallback`, so it is a falsiness test, not a presence
  test. A `stkCallback` of `0`, `""`, `false` or `null` is rejected too. A
  truthy non-object `stkCallback` (say `"x"`) is acknowledged as a failure
  with an `undefined` result code.
- "A missing `Item` counts as empty" holds only for falsy values. A truthy
  `Item` that is not an array has no `find`, so the success branch throws
  (`Callback.NonArrayItemThrows`). A `null` item that the scan reaches before a
  match also throws, because `i.Name` fails on it (`Callback.Find`). The
  handler then sends no reply of its own; the outcome is `Callback.Threw`.
- The amount is not validated. Any falsy amount (absent, `0`, `""`, `false`,
  `null`) becomes 1, and any truthy value (a string, a negative number, an
  object) is passed on as it is.
- Reading `req.body.amount` or `callbackData.Body` on a `null` or missing body
  throws (`StkPush.BuildPayload`, `Callback.Handle`).
- The log line of either `/callback` branch converts each value it prints to a
  string, and that conversion throws a TypeError for a parsed object with its
  own `toString` key, or an array holding one (`Json.Printable`). So a result
  code such as `{"toString":1}` makes the failure branch throw, and an
  unprintable lookup or `CheckoutRequestID` makes the success branch throw,
  before the 200 reply (`Callback.UnprintableCodeThrows`,
  `Callback.UnprintableIdThrows`).
- An unset environment variable prints as `undefined` inside the template
  strings (`StkPush.Interpolate`). The header and the password then encode the
  text `undefined`.

## Model

| member | source | states |
|---|---|---|
| `Base64.Encode` | index.js:24 | The base64 text of n octets has 4·⌈n/3⌉ characters. |
| `Base64.EncodeAlphabet` | index.js:24 | Encoded text uses only the RFC 4648 section 4 alphabet and `=`. `=` appears only in the last group of four, and not at all when the length is a multiple of three. |
| `Base64.DecodeEncode` | index.js:24 | Decoding any encoded octet sequence gives it back. |
| `Base64.EncodeDecode` | index.js:45 | Only canonical text decodes: whatever the strict decoder accepts re-encodes to exactly the same text. |
| `Base64.Rfc4648Vectors` | index.js:24 | The encoder meets the test vectors of section 10 of RFC 4648: `""`, `"f"`, `"fo"`, `"foo"`, `"foob"`, `"fooba"` and `"foobar"` give `""`, `Zg==`, `Zm8=`, `Zm9v`, `Zm9vYg==`, `Zm9vYmE=` and `Zm9vYmFy`. |
| `Utf8.Encode` | index.js:24 | `Buffer.from` of a string of n characters takes between n and 4n octets. |
| `Utf8.Rfc3629Vectors` | index.js:24 | `Buffer.from` writes U+00E9 as `C3 A9`, U+20AC as `E2 82 AC` and U+1F600 as `F0 9F 98 80`, one value from each multi-octet range of RFC 3629. |
| `Utf8.DecodeEncode` | index.js:24 | Decoding the UTF-8 octets of a string gives the string back. |
| `Utf8.EncodeDecode` | index.js:45 | Only well-formed UTF-8 decodes, and it re-encodes to the same octets. |
| `Timestamp.Parse` | index.js:44 | Whatever parses is a valid date and time. |
| `Timestamp.ZeroFill` | index.js:44 | A zero-filled numeral is all digits and denotes the number filled. It is never empty and never narrower than the width. It is exactly as wide when the number has no more digits than the width, and otherwise it is the bare numeral without a leading `0` (`YYYY` of year 12345 is `12345`). |
| `Timestamp.ZeroFillDetermined` | index.js:44 | Those facts fix the zero-fill: any string meeting them is the zero-fill. |
| `Timestamp.Format` | index.js:44 | `YYYYMMDDHHmmss` is always at least 14 decimal digits, and exactly 14 for a valid reading. |
| `Timestamp.FormatExample` | index.js:44 | 09:05:03 on 16 October 2026 formats as `20261016090503`. |
| `Timestamp.FormatShape` | index.js:44 | A valid clock reading formats as exactly 14 decimal digits. The year, month, day, hour, minute and second are zero-filled at offsets 0, 4, 6, 8, 10 and 12. |
| `Timestamp.ParseFormat` | index.js:44 | Parsing the formatted timestamp gives the clock reading back. |
| `Timestamp.FormatParse` | index.js:44 | Every 14-digit string that parses is the formatting of what it parses to. |
| `Timestamp.ZeroFillValue` | index.js:44 | A numeral of w digits is the w-wide zero-fill of its own value. |
| `StkPush.Credentials` | index.js:24 | The credentials are the key, one colon, and the secret, at those positions. An unset variable takes the place of the text `undefined`. |
| `StkPush.AuthorizationHeader` | index.js:24-29 | The header is `"Basic "` followed by base64 text that the strict decoder turns back into the UTF-8 of the credentials. |
| `StkPush.AuthorizationHeaderDecodes` | index.js:24-29 | The text after `"Basic "` decodes, through base64 and then UTF-8, to `key ":" secret`. |
| `StkPush.FoobarVector` | index.js:24 | `Buffer.from("foobar").toString('base64')` is `Zm9vYmFy`. |
| `StkPush.SplitCredentials` | index.js:29 | Splitting credentials at the first colon (section 2 of RFC 7617) gives a user-id without a colon. Rejoining the two parts gives the input back. `None` only when there is no colon. |
| `StkPush.CredentialsSplit` | index.js:24 | A consumer key without a colon is recovered, together with the secret, from `key ":" secret`. |
| `StkPush.AuthorizationHeaderCredentials` | index.js:24-29 | The provider reads the configured key and secret back from the header, whenever the key has no colon. |
| `StkPush.PasswordText` | index.js:45 | The password text starts with the shortcode, continues with the passkey, and ends with the timestamp. |
| `StkPush.Password` | index.js:45 | The password decodes, through base64 and then UTF-8, to the password text. |
| `StkPush.BuildPayload` | index.js:47-59 | The payload throws exactly when the body is `null` or missing. `PartyA` always equals `PhoneNumber`. `PartyB` always equals `BusinessShortCode`. `Amount` is always truthy. |
| `StkPush.PayloadAmount` | index.js:52 | `Amount` is the requested amount when it is truthy, and 1 otherwise (absent, 0, `""`, `null`, `false`). |
| `StkPush.PayloadParties` | index.js:48-55 | `PartyA` and `PhoneNumber` are the requested phone when it is truthy, and the configured sandbox phone otherwise. `PartyB` and `BusinessShortCode` are the configured shortcode. |
| `StkPush.PayloadConstants` | index.js:51-58 | `TransactionType`, `CallBackURL`, `AccountReference` and `TransactionDesc` are the same fixed strings for every request, configuration and clock reading. |
| `StkPush.PayloadTimestamp` | index.js:44-50 | `Timestamp` is 14 digits and parses back to the clock reading. |
| `StkPush.PayloadPassword` | index.js:45-50 | `Password` decodes (base64, then UTF-8) to shortcode ++ passkey ++ the payload's own `Timestamp`. The last 14 characters of that text parse to the clock reading. |
| `StkPush.PasswordInjective` | index.js:45 | Under one configuration, two timestamps with the same password are equal. |
| `Json.Truthy` | index.js:95 | `null` and `undefined` are falsy; every array and object is truthy, even an empty one. |
| `Json.Get` | index.js:52 | A property read throws exactly on `null` or `undefined`, and otherwise reads what optional chaining reads. |
| `Json.OptGet` | index.js:104 | `v?.key` is the object's own `key` property when there is one. It is `undefined` in every other case, including a `null` or `undefined` `v`. |
| `Json.Printable` | index.js:110-116 | A template literal prints every value that is not an object or an array. An object prints exactly when it has no own `toString` key, and an array exactly when each of its items prints. |
| `Json.Or` | index.js:52 | JavaScript's logical or returns one of its two operands, and the result is truthy exactly when one operand is. |
| `Callback.Find` | index.js:105-107 | `find` returns the first item named `name`, and every item before it is non-null and differently named. It returns `None` exactly when every item is non-null and none is named `name`. It throws exactly when the scan reaches a `null` item first. |
| `Callback.Lookup` | index.js:104-107 | `find(...)?.Value` is the `Value` of the first matching item, and `undefined` when no item matches. It throws exactly when the metadata is not an array or a `null` item comes before the first match. |
| `Callback.CleanLookup` | index.js:104-107 | A lookup in an array without `null` items never throws. |
| `Callback.StkCallback` | index.js:93 | `Body?.stkCallback` is the `stkCallback` of an object `Body` of an object body when there is one, and `undefined` otherwise. |
| `Callback.IsSuccessCode` | index.js:103 | `ResultCode === 0` holds exactly for a falsy number, so `"0"`, `false` and `null` do not qualify. |
| `Callback.Metadata` | index.js:104 | The metadata list is always truthy. It is `CallbackMetadata?.Item` when that is truthy, and `[]` otherwise. |
| `Callback.Handle` | index.js:93-119 | A `null` or missing body throws. The reply is 400 `"Invalid callback data"` with no report exactly when `Body?.stkCallback` is falsy. Every other reply is 200 `"Callback received successfully"` with a report. The report is a success exactly when `ResultCode === 0`, and every value in it prints. A handler that throws had a truthy `stkCallback`. In the failure branch it throws exactly when the code or the description cannot be printed. |
| `Callback.SuccessReport` | index.js:103-114 | With a success code, three lookups that do not throw, and four printable logged values, the reply is 200. The report carries the lookups of `PhoneNumber`, `Amount` and `MpesaReceiptNumber`, plus the `CheckoutRequestID`. |
| `Callback.FailureReport` | index.js:115-119 | Any result code other than the number 0 gets a 200 reply when the code and the description print. The failure report carries both. |
| `Callback.MissingMetadataIsEmpty` | index.js:104-114 | With a falsy `CallbackMetadata?.Item`, the success report has `undefined` receipt, amount and phone. The handler does not throw when `CheckoutRequestID` prints. |
| `Callback.NonArrayItemThrows` | index.js:104-105 | With a success code and a truthy `Item` that is not an array, the handler throws. |
| `Callback.AnsweredExactlyWhen` | index.js:93-119 | A non-null body gets a reply exactly when one of three holds. Either `stkCallback` is falsy. Or the code is 0, the three lookups do not throw, and all four logged values print. Or the code is not 0 and the code and the description print. |
| `Callback.UnprintableCodeThrows` | index.js:99-116 | `{"Body":{"stkCallback":{"ResultCode":{"toString":1}}}}` throws in the failure log line. |
| `Callback.UnprintableIdThrows` | index.js:99-114 | A success whose `CheckoutRequestID` is `[{"toString":null}]` throws in the success log line. |
| `Callback.EmptyBodyRejected` | index.js:93-97 | `{}` gets 400 `{"error":"Invalid callback data"}`. |
| `Callback.SuccessExample` | index.js:99-119 | A success notification with the three metadata items gets a 200 reply. The report carries phone `"254700000000"`, amount 100, receipt `"R123"` and id `"abc123"`. |

## Left out

- The HTTP calls to the token and push-payment endpoints (index.js:25-33, 63-71) are not modelled. These are network I/O. The access token and the provider's response never enter the model, and neither does the `Bearer` header.
- The `/stk-push` replies are not modelled: the 200 reply that spreads the provider's response over `message` (index.js:75-78), and the 500 reply in the `catch` block (index.js:80-83). Both depend on what the external client returns or throws.
- Express setup, CORS, JSON body parsing, the port default and `app.listen` (index.js:8-12, 122-124) are framework plumbing. The parsed body is a parameter.
- The `dotenv`/`process.env` loading (index.js:7, 14-20) is replaced by the explicit `StkPush.Config` record.
- The clock read `moment()` (index.js:44) is replaced by a `Timestamp.DateTime` parameter. Time zones are not modelled. Years above 9999, which `YYYY` prints with more than four digits, are outside `Timestamp.Valid`, so the 14-digit lemmas do not cover them.
- All `console.log` and `console.error` output (index.js:39-42, 61, 73, 81, 91, 110-116) is left out. `Callback.Report` holds the values the success and failure log lines print, but not the text of those lines. The TypeError that turning one of those values into text can raise is modelled (`Json.Printable`).
- The HTTP-level effect of a TypeError escaping the async handler (index.js:88) is left out; the model stops at `Callback.Threw`. Under Express 5 the error handler answers 500. Under Express 4 the router ignores the promise the handler returns, so the rejection is unhandled, and on Node 15 and later that terminates the whole process. Every body for which `Callback.Handle` gives `Threw` reaches this case, for instance `{"Body":{"stkCallback":{"ResultCode":0,"CallbackMetadata":{"Item":[null]}}}}`.
- OTP send and verify are not part of this model, because they are not in `index.js`.
- JavaScript numbers are modelled as exact reals. Double rounding, `NaN` and `-0` are not modelled; JSON input cannot produce `NaN`, and `-0 === 0` holds as in the model.
- Duplicate keys in a JSON object are settled by the parser before the handler runs, so objects are modelled as maps.
- JavaScript strings with unpaired surrogates are not representable as Dafny strings. `Buffer.from` would encode them as U+FFFD.
- Property reads find only an object's own properties. None of the names the handlers read is an inherited prototype member, so this matches JavaScript for those names.
