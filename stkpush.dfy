/**
 * What the relay builds before it calls the provider: the HTTP Basic
 * `Authorization` header of the token request, and the push-payment payload
 * with its password and timestamp. The clock reading, the environment and the
 * request body are parameters.
 */
module StkPush {
  import opened Wrappers
  import opened Json
  import Base64
  import Utf8
  import Timestamp

  /** The environment variables the relay reads at start-up; `None` for one that is not set. */
  datatype Config = Config(
    consumerKey: Option<string>,
    consumerSecret: Option<string>,
    businessShortCode: Option<string>,
    passkey: Option<string>,
    sandboxPhone: Option<string>)

  /** An environment value inside a template literal: an unset variable prints as `undefined`. */
  function Interpolate(v: Option<string>): string {
    match v
    case Some(s) => s
    case None => "undefined"
  }

  /** An environment value used as a JavaScript value. */
  function EnvValue(v: Option<string>): JsValue {
    match v
    case Some(s) => Str(s)
    case None => Undefined
  }

  /** The user-id and password of the token request, joined by a colon. */
  function Credentials(cfg: Config): (r: string)
    ensures |r| == |Interpolate(cfg.consumerKey)| + 1 + |Interpolate(cfg.consumerSecret)|
    ensures r[..|Interpolate(cfg.consumerKey)|] == Interpolate(cfg.consumerKey)
    ensures r[|Interpolate(cfg.consumerKey)|] == ':'
    ensures r[|Interpolate(cfg.consumerKey)| + 1..] == Interpolate(cfg.consumerSecret)
  {
    Interpolate(cfg.consumerKey) + ":" + Interpolate(cfg.consumerSecret)
  }

  /**
   * The `Authorization` header of the token request: the scheme `Basic`, a
   * space, and text the strict base64 decoder turns back into the UTF-8 of the
   * credentials.
   */
  function AuthorizationHeader(cfg: Config): (h: string)
    ensures |h| >= 6 && h[..6] == "Basic "
    ensures Base64.Decode(h[6..]) == Some(Utf8.Encode(Credentials(cfg)))
  {
    var token := Base64.Encode(Utf8.Encode(Credentials(cfg)));
    Base64.DecodeEncode(Utf8.Encode(Credentials(cfg)));
    assert ("Basic " + token)[6..] == token;
    "Basic " + token
  }

  /**
   * How the receiving end of HTTP Basic authentication (section 2 of RFC 7617)
   * splits the credentials: at the first colon.
   */
  function SplitCredentials(s: string): (r: Option<(string, string)>)
    ensures r.Some? ==> r.value.0 + ":" + r.value.1 == s && ':' !in r.value.0
    ensures r.None? ==> ':' !in s
    decreases |s|
  {
    if |s| == 0 then None
    else if s[0] == ':' then Some(("", s[1..]))
    else
      match SplitCredentials(s[1..])
      case None => None
      case Some((user, pass)) => Some(([s[0]] + user, pass))
  }

  /** The text after `Basic ` decodes, through base64 and then UTF-8, to the credentials. */
  lemma AuthorizationHeaderDecodes(cfg: Config)
    ensures var h := AuthorizationHeader(cfg);
      && |h| >= 6 && Base64.Decode(h[6..]).Some?
      && Utf8.Decode(Base64.Decode(h[6..]).value) == Some(Credentials(cfg))
  {
    Utf8.DecodeEncode(Credentials(cfg));
  }

  /** A consumer key without a colon is recovered, with the secret, from the credentials. */
  lemma {:induction false} CredentialsSplit(key: string, secret: string)
    requires ':' !in key
    ensures SplitCredentials(key + ":" + secret) == Some((key, secret))
    decreases |key|
  {
    var s := key + ":" + secret;
    if |key| == 0 {
      assert s[1..] == secret;
    } else {
      assert s[1..] == key[1..] + ":" + secret;
      CredentialsSplit(key[1..], secret);
      assert [key[0]] + key[1..] == key;
    }
  }

  /** The token request names the configured consumer key and secret. */
  lemma AuthorizationHeaderCredentials(cfg: Config)
    requires ':' !in Interpolate(cfg.consumerKey)
    ensures var h := AuthorizationHeader(cfg);
      && |h| >= 6 && Base64.Decode(h[6..]).Some?
      && Utf8.Decode(Base64.Decode(h[6..]).value).Some?
      && SplitCredentials(Utf8.Decode(Base64.Decode(h[6..]).value).value)
         == Some((Interpolate(cfg.consumerKey), Interpolate(cfg.consumerSecret)))
  {
    AuthorizationHeaderDecodes(cfg);
    CredentialsSplit(Interpolate(cfg.consumerKey), Interpolate(cfg.consumerSecret));
  }

  /** The fixed fields of every payload. */
  const TransactionType: string := "CustomerPayBillOnline"
  const CallBackUrl: string := "https://elimisha-backend-kce7.onrender.com/callback"
  const AccountReference: string := "ElimishaApp"
  const TransactionDesc: string := "Loan Payment"

  /** The push-payment request body, field for field. */
  datatype Payload = Payload(
    businessShortCode: JsValue,
    password: string,
    timestamp: string,
    transactionType: string,
    amount: JsValue,
    partyA: JsValue,
    partyB: JsValue,
    phoneNumber: JsValue,
    callBackUrl: string,
    accountReference: string,
    transactionDesc: string)

  /** The text the password encodes: shortcode, passkey and timestamp, one after another. */
  function PasswordText(cfg: Config, timestamp: string): (r: string)
    ensures |r| == |Interpolate(cfg.businessShortCode)| + |Interpolate(cfg.passkey)| + |timestamp|
    ensures r[..|Interpolate(cfg.businessShortCode)|] == Interpolate(cfg.businessShortCode)
    ensures r[|Interpolate(cfg.businessShortCode)|..|r| - |timestamp|] == Interpolate(cfg.passkey)
    ensures r[|r| - |timestamp|..] == timestamp
  {
    Interpolate(cfg.businessShortCode) + Interpolate(cfg.passkey) + timestamp
  }

  /**
   * The push-payment password: base64 text that decodes through base64 and
   * then UTF-8 to the password text.
   */
  function Password(cfg: Config, timestamp: string): (r: string)
    ensures Base64.Decode(r) == Some(Utf8.Encode(PasswordText(cfg, timestamp)))
    ensures Utf8.Decode(Base64.Decode(r).value) == Some(PasswordText(cfg, timestamp))
  {
    var bytes := Utf8.Encode(PasswordText(cfg, timestamp));
    Base64.DecodeEncode(bytes);
    Utf8.DecodeEncode(PasswordText(cfg, timestamp));
    Base64.Encode(bytes)
  }

  /**
   * The payload of `/stk-push` for request body `body`, configuration `cfg` and
   * clock reading `now`; reading `amount` or `phone` off a `null` or missing
   * body throws.
   */
  function BuildPayload(body: JsValue, cfg: Config, now: Timestamp.DateTime): (r: Result<Payload>)
    ensures r.TypeError? <==> Nullish(body)
    ensures r.Ok? ==> r.value.partyA == r.value.phoneNumber
    ensures r.Ok? ==> r.value.partyB == r.value.businessShortCode
    ensures r.Ok? ==> Truthy(r.value.amount)
  {
    var timestamp := Timestamp.Format(now);
    var password := Password(cfg, timestamp);
    match Get(body, "amount")
    case TypeError => TypeError
    case Ok(amount) =>
      var phone := OptGet(body, "phone");
      Ok(Payload(
        businessShortCode := EnvValue(cfg.businessShortCode),
        password := password,
        timestamp := timestamp,
        transactionType := TransactionType,
        amount := Or(amount, Num(1.0)),
        partyA := Or(phone, EnvValue(cfg.sandboxPhone)),
        partyB := EnvValue(cfg.businessShortCode),
        phoneNumber := Or(phone, EnvValue(cfg.sandboxPhone)),
        callBackUrl := CallBackUrl,
        accountReference := AccountReference,
        transactionDesc := TransactionDesc))
  }

  /** `Amount` is the requested amount when truthy; absent, `0`, `""`, `null` or `false` become 1. */
  lemma PayloadAmount(body: JsValue, cfg: Config, now: Timestamp.DateTime)
    requires !Nullish(body)
    ensures var p := BuildPayload(body, cfg, now).value; var a := OptGet(body, "amount");
      && (Truthy(a) ==> p.amount == a)
      && (!Truthy(a) ==> p.amount == Num(1.0))
  {
  }

  /** Both party fields are the requested phone when truthy, the configured sandbox phone otherwise. */
  lemma PayloadParties(body: JsValue, cfg: Config, now: Timestamp.DateTime)
    requires !Nullish(body)
    ensures var p := BuildPayload(body, cfg, now).value; var phone := OptGet(body, "phone");
      && (Truthy(phone) ==> p.partyA == phone && p.phoneNumber == phone)
      && (!Truthy(phone) ==> p.partyA == EnvValue(cfg.sandboxPhone) && p.phoneNumber == EnvValue(cfg.sandboxPhone))
      && p.partyB == EnvValue(cfg.businessShortCode) && p.businessShortCode == EnvValue(cfg.businessShortCode)
  {
  }

  /** The fixed fields do not depend on the request, the configuration or the clock. */
  lemma PayloadConstants(body1: JsValue, cfg1: Config, now1: Timestamp.DateTime,
                         body2: JsValue, cfg2: Config, now2: Timestamp.DateTime)
    requires BuildPayload(body1, cfg1, now1).Ok? && BuildPayload(body2, cfg2, now2).Ok?
    ensures var p, q := BuildPayload(body1, cfg1, now1).value, BuildPayload(body2, cfg2, now2).value;
      && p.transactionType == q.transactionType == "CustomerPayBillOnline"
      && p.callBackUrl == q.callBackUrl == "https://elimisha-backend-kce7.onrender.com/callback"
      && p.accountReference == q.accountReference == "ElimishaApp"
      && p.transactionDesc == q.transactionDesc == "Loan Payment"
  {
  }

  /** The `Timestamp` field is fourteen digits that read back as the clock reading. */
  lemma PayloadTimestamp(body: JsValue, cfg: Config, now: Timestamp.DateTime)
    requires !Nullish(body) && Timestamp.Valid(now)
    ensures var t := BuildPayload(body, cfg, now).value.timestamp;
      && |t| == 14 && Timestamp.AllDigits(t) && Timestamp.Parse(t) == Some(now)
  {
    Timestamp.FormatShape(now);
    Timestamp.ParseFormat(now);
  }

  /**
   * The `Password` field decodes to the shortcode, the passkey and the very
   * `Timestamp` of the same payload, which closes it.
   */
  lemma PayloadPassword(body: JsValue, cfg: Config, now: Timestamp.DateTime)
    requires !Nullish(body) && Timestamp.Valid(now)
    ensures var p := BuildPayload(body, cfg, now).value;
      && Base64.Decode(p.password) == Some(Utf8.Encode(PasswordText(cfg, p.timestamp)))
      && Utf8.Decode(Base64.Decode(p.password).value)
         == Some(Interpolate(cfg.businessShortCode) + Interpolate(cfg.passkey) + p.timestamp)
      && var text := Utf8.Decode(Base64.Decode(p.password).value).value;
         |text| >= 14 && Timestamp.Parse(text[|text| - 14..]) == Some(now)
  {
    PayloadTimestamp(body, cfg, now);
  }

  /** Under one configuration, distinct timestamps never share a password. */
  lemma PasswordInjective(cfg: Config, t1: string, t2: string)
    requires Password(cfg, t1) == Password(cfg, t2)
    ensures t1 == t2
  {
    var prefix := Interpolate(cfg.businessShortCode) + Interpolate(cfg.passkey);
    assert PasswordText(cfg, t1) == PasswordText(cfg, t2);
    assert t1 == PasswordText(cfg, t1)[|prefix|..];
    assert t2 == PasswordText(cfg, t2)[|prefix|..];
  }

  /** The UTF-8 of "foobar", then the last vector of section 10 of RFC 4648. */
  lemma FoobarVector()
    ensures Base64.Encode(Utf8.Encode("foobar")) == "Zm9vYmFy"
  {
    assert Utf8.Encode("foobar") == [102, 111, 111, 98, 97, 114];
    Base64.Rfc4648Vectors();
  }
}
