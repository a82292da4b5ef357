/**
 * The `/callback` handler: it finds the provider's `Body.stkCallback`, answers
 * 400 when there is none, and otherwise acknowledges with 200, reporting a
 * success (with the receipt, amount and phone read off the metadata list) when
 * `ResultCode` is strictly the number 0 and a failure otherwise.
 */
module Callback {
  import opened Wrappers
  import opened Json

  /** What the handler logs about one payment. */
  datatype Report =
    | Success(phone: JsValue, amount: JsValue, receipt: JsValue, checkoutRequestId: JsValue)
    | Failure(resultCode: JsValue, resultDesc: JsValue)

  /** A JSON response with one field: `{ field: text }` under HTTP status `status`. */
  datatype Reply = Reply(status: nat, field: string, text: string)

  /**
   * How one call ends: a reply, with the report the handler logged if it got
   * that far, or a TypeError that escapes the handler and leaves the request
   * without a reply of its own.
   */
  datatype Outcome = Answered(reply: Reply, report: Option<Report>) | Threw

  const Rejection: Reply := Reply(400, "error", "Invalid callback data")
  const Acknowledgement: Reply := Reply(200, "message", "Callback received successfully")

  /** `item.Name === name`, for an item the read does not throw on. */
  predicate NameIs(item: JsValue, name: string) {
    !Nullish(item) && OptGet(item, "Name") == Str(name)
  }

  /** No item before index `k` is nullish or named `name`: `find` passes over them. */
  predicate PassesOver(items: seq<JsValue>, name: string, k: int)
    requires 0 <= k <= |items|
  {
    forall j :: 0 <= j < k ==> !Nullish(items[j]) && !NameIs(items[j], name)
  }

  /**
   * `items.find(i => i.Name === name)`: the first item named `name`, `None`
   * when there is none, and a TypeError when the scan reaches a `null` item first.
   */
  function Find(items: seq<JsValue>, name: string): (r: Result<Option<JsValue>>)
    ensures r == Ok(None) <==> PassesOver(items, name, |items|)
    ensures r.Ok? && r.value.Some? ==>
      exists k :: 0 <= k < |items| && items[k] == r.value.value && NameIs(items[k], name) && PassesOver(items, name, k)
    ensures r.TypeError? <==>
      exists k :: 0 <= k < |items| && Nullish(items[k]) && PassesOver(items, name, k)
    decreases |items|
  {
    if |items| == 0 then Ok(None)
    else if Nullish(items[0]) then
      assert PassesOver(items, name, 0);
      TypeError
    else if OptGet(items[0], "Name") == Str(name) then
      assert PassesOver(items, name, 0);
      Ok(Some(items[0]))
    else
      var r := Find(items[1..], name);
      assert forall k :: 0 <= k < |items| - 1 ==>
        (PassesOver(items[1..], name, k) <==> PassesOver(items, name, k + 1));
      assert forall k :: 0 <= k < |items| - 1 ==> items[1..][k] == items[k + 1];
      r
  }

  /**
   * `metadata.find(i => i.Name === name)?.Value`: the `Value` of the first item
   * named `name`, `undefined` when none is; a TypeError when `metadata` is not
   * an array (it has no `find`) or when the scan reaches a `null` item.
   */
  function Lookup(metadata: JsValue, name: string): (r: Result<JsValue>)
    ensures !metadata.Arr? ==> r.TypeError?
    ensures metadata.Arr? && PassesOver(metadata.items, name, |metadata.items|) ==> r == Ok(Undefined)
    ensures metadata.Arr? ==> forall k ::
      (0 <= k < |metadata.items| && NameIs(metadata.items[k], name) && PassesOver(metadata.items, name, k))
      ==> r == Ok(OptGet(metadata.items[k], "Value"))
    ensures metadata.Arr? ==> (r.TypeError? <==>
      exists k :: 0 <= k < |metadata.items| && Nullish(metadata.items[k]) && PassesOver(metadata.items, name, k))
  {
    if !metadata.Arr? then TypeError
    else
      match Find(metadata.items, name)
      case TypeError => TypeError
      case Ok(None) => Ok(Undefined)
      case Ok(Some(item)) => Ok(OptGet(item, "Value"))
  }

  /** `callbackData.Body?.stkCallback`, for a body the first read does not throw on. */
  function StkCallback(body: JsValue): (r: JsValue)
    requires !Nullish(body)
    ensures r != Undefined ==>
      (body.Obj? && "Body" in body.props && body.props["Body"].Obj? &&
       "stkCallback" in body.props["Body"].props && r == body.props["Body"].props["stkCallback"])
    ensures (body.Obj? && "Body" in body.props && body.props["Body"].Obj? &&
             "stkCallback" in body.props["Body"].props) ==>
      r == body.props["Body"].props["stkCallback"]
  {
    OptGet(OptGet(body, "Body"), "stkCallback")
  }

  /** `resultCode === 0`: strict equality with the number zero, so `"0"` and `false` do not qualify. */
  predicate IsSuccessCode(code: JsValue)
    ensures IsSuccessCode(code) <==> code.Num? && !Truthy(code)
  {
    code == Num(0.0)
  }

  /**
   * `stkCallback.CallbackMetadata?.Item || []`: the `Item` when it is truthy,
   * the empty array otherwise; either way something truthy.
   */
  function Metadata(stk: JsValue): (r: JsValue)
    requires !Nullish(stk)
    ensures Truthy(r)
    ensures Truthy(OptGet(OptGet(stk, "CallbackMetadata"), "Item")) ==> r == OptGet(OptGet(stk, "CallbackMetadata"), "Item")
    ensures !Truthy(OptGet(OptGet(stk, "CallbackMetadata"), "Item")) ==> r == Arr([])
  {
    Or(OptGet(OptGet(stk, "CallbackMetadata"), "Item"), Arr([]))
  }

  /** A lookup that did not throw and whose value a template literal can print. */
  predicate Logs(r: Result<JsValue>) {
    r.Ok? && Printable(r.value)
  }

  /** Every value a report holds prints in the log line. */
  predicate PrintableReport(report: Report) {
    match report
    case Success(phone, amount, receipt, checkoutRequestId) =>
      Printable(phone) && Printable(amount) && Printable(receipt) && Printable(checkoutRequestId)
    case Failure(resultCode, resultDesc) => Printable(resultCode) && Printable(resultDesc)
  }

  /**
   * The `/callback` handler, request body in, outcome out. Besides the reads
   * and the `find` scans, the log line of either branch throws when one of the
   * values it prints cannot be converted to a string.
   */
  function Handle(body: JsValue): (r: Outcome)
    ensures Nullish(body) ==> r == Threw
    ensures r == Answered(Rejection, None) <==> !Nullish(body) && !Truthy(StkCallback(body))
    ensures r.Answered? ==> r.reply == Rejection || r.reply == Acknowledgement
    ensures r.Answered? ==> (r.reply == Acknowledgement <==> r.report.Some?)
    ensures r.Answered? && r.report.Some? ==>
      (r.report.value.Success? <==> IsSuccessCode(OptGet(StkCallback(body), "ResultCode")))
    ensures r.Answered? && r.report.Some? ==> PrintableReport(r.report.value)
    ensures r.Threw? && !Nullish(body) ==> Truthy(StkCallback(body))
    ensures !Nullish(body) && Truthy(StkCallback(body)) && !IsSuccessCode(OptGet(StkCallback(body), "ResultCode")) ==>
      (r.Threw? <==>
        !Printable(OptGet(StkCallback(body), "ResultCode")) || !Printable(OptGet(StkCallback(body), "ResultDesc")))
  {
    match Get(body, "Body")
    case TypeError => Threw
    case Ok(envelope) =>
      var stk := OptGet(envelope, "stkCallback");
      if !Truthy(stk) then Answered(Rejection, None)
      else
        var code := OptGet(stk, "ResultCode");
        var desc := OptGet(stk, "ResultDesc");
        var checkoutRequestId := OptGet(stk, "CheckoutRequestID");
        if IsSuccessCode(code) then
          var metadata := Metadata(stk);
          match Lookup(metadata, "MpesaReceiptNumber")
          case TypeError => Threw
          case Ok(receipt) =>
            match Lookup(metadata, "Amount")
            case TypeError => Threw
            case Ok(amount) =>
              match Lookup(metadata, "PhoneNumber")
              case TypeError => Threw
              case Ok(phone) =>
                if Printable(phone) && Printable(amount) && Printable(receipt) && Printable(checkoutRequestId)
                then Answered(Acknowledgement, Some(Success(phone, amount, receipt, checkoutRequestId)))
                else Threw
        else if Printable(code) && Printable(desc) then Answered(Acknowledgement, Some(Failure(code, desc)))
        else Threw
  }

  /** A metadata list no `find` can throw on: an array without `null` items. */
  predicate CleanMetadata(metadata: JsValue) {
    metadata.Arr? && forall j :: 0 <= j < |metadata.items| ==> !Nullish(metadata.items[j])
  }

  lemma CleanLookup(metadata: JsValue, name: string)
    requires CleanMetadata(metadata)
    ensures Lookup(metadata, name).Ok?
  {
  }

  /**
   * With a success code and three lookups that succeed and print, the
   * handler acknowledges and reports each of receipt, amount and phone as the
   * lookup of its own name.
   */
  lemma SuccessReport(body: JsValue)
    requires !Nullish(body) && Truthy(StkCallback(body))
    requires IsSuccessCode(OptGet(StkCallback(body), "ResultCode"))
    requires Logs(Lookup(Metadata(StkCallback(body)), "PhoneNumber"))
    requires Logs(Lookup(Metadata(StkCallback(body)), "Amount"))
    requires Logs(Lookup(Metadata(StkCallback(body)), "MpesaReceiptNumber"))
    requires Printable(OptGet(StkCallback(body), "CheckoutRequestID"))
    ensures var stk := StkCallback(body); var metadata := Metadata(stk);
      Handle(body) == Answered(Acknowledgement, Some(Success(
        phone := Lookup(metadata, "PhoneNumber").value,
        amount := Lookup(metadata, "Amount").value,
        receipt := Lookup(metadata, "MpesaReceiptNumber").value,
        checkoutRequestId := OptGet(stk, "CheckoutRequestID"))))
  {
  }

  /**
   * Any code but the number 0 is a failure, acknowledged with its code and
   * description when both print.
   */
  lemma FailureReport(body: JsValue)
    requires !Nullish(body) && Truthy(StkCallback(body))
    requires !IsSuccessCode(OptGet(StkCallback(body), "ResultCode"))
    requires Printable(OptGet(StkCallback(body), "ResultCode")) && Printable(OptGet(StkCallback(body), "ResultDesc"))
    ensures var stk := StkCallback(body);
      Handle(body) == Answered(Acknowledgement, Some(Failure(OptGet(stk, "ResultCode"), OptGet(stk, "ResultDesc"))))
  {
  }

  /**
   * A missing `CallbackMetadata` or `Item` reads as an empty list: every lookup
   * yields `undefined`, which prints.
   */
  lemma MissingMetadataIsEmpty(body: JsValue)
    requires !Nullish(body) && Truthy(StkCallback(body))
    requires IsSuccessCode(OptGet(StkCallback(body), "ResultCode"))
    requires !Truthy(OptGet(OptGet(StkCallback(body), "CallbackMetadata"), "Item"))
    requires Printable(OptGet(StkCallback(body), "CheckoutRequestID"))
    ensures Handle(body) == Answered(Acknowledgement, Some(Success(Undefined, Undefined, Undefined,
      OptGet(StkCallback(body), "CheckoutRequestID"))))
  {
    var metadata := Metadata(StkCallback(body));
    assert metadata == Arr([]);
    assert PassesOver([], "MpesaReceiptNumber", 0) && PassesOver([], "Amount", 0) && PassesOver([], "PhoneNumber", 0);
  }

  /** A truthy `Item` that is not an array has no `find`: the success branch throws. */
  lemma NonArrayItemThrows(body: JsValue)
    requires !Nullish(body) && Truthy(StkCallback(body))
    requires IsSuccessCode(OptGet(StkCallback(body), "ResultCode"))
    requires !Metadata(StkCallback(body)).Arr?
    ensures Handle(body) == Threw
  {
  }

  /**
   * Whether the handler gets as far as its reply: a non-null body is answered
   * exactly when `stkCallback` is falsy, or the success branch's three lookups
   * succeed and all four logged values print, or the failure branch's code and
   * description print.
   */
  lemma AnsweredExactlyWhen(body: JsValue)
    requires !Nullish(body)
    ensures var stk := StkCallback(body);
      Handle(body).Answered? <==>
        !Truthy(stk) ||
        (IsSuccessCode(OptGet(stk, "ResultCode")) &&
          Logs(Lookup(Metadata(stk), "PhoneNumber")) && Logs(Lookup(Metadata(stk), "Amount")) &&
          Logs(Lookup(Metadata(stk), "MpesaReceiptNumber")) && Printable(OptGet(stk, "CheckoutRequestID"))) ||
        (!IsSuccessCode(OptGet(stk, "ResultCode")) &&
          Printable(OptGet(stk, "ResultCode")) && Printable(OptGet(stk, "ResultDesc")))
  {
  }

  /** An object with its own `toString` key as the result code: the failure log line throws. */
  lemma UnprintableCodeThrows()
    ensures Handle(Obj(map["Body" := Obj(map["stkCallback" := Obj(map["ResultCode" := Obj(map["toString" := Num(1.0)])])])]))
      == Threw
  {
    var code := Obj(map["toString" := Num(1.0)]);
    var stk := Obj(map["ResultCode" := code]);
    var body := Obj(map["Body" := Obj(map["stkCallback" := stk])]);
    assert StkCallback(body) == stk && OptGet(stk, "ResultCode") == code;
    assert !Printable(code);
  }

  /**
   * An array holding an object with its own `toString` key as the request id:
   * `join` converts that item, so the success log line throws although every
   * lookup yields `undefined`.
   */
  lemma UnprintableIdThrows()
    ensures Handle(Obj(map["Body" := Obj(map["stkCallback" := Obj(map[
      "ResultCode" := Num(0.0), "CheckoutRequestID" := Arr([Obj(map["toString" := Null])])])])]))
      == Threw
  {
    var id := Arr([Obj(map["toString" := Null])]);
    var stk := Obj(map["ResultCode" := Num(0.0), "CheckoutRequestID" := id]);
    var body := Obj(map["Body" := Obj(map["stkCallback" := stk])]);
    assert StkCallback(body) == stk && OptGet(stk, "ResultCode") == Num(0.0) && OptGet(stk, "CheckoutRequestID") == id;
    assert !Printable(id.items[0]);
  }

  /** The empty object is rejected. */
  lemma EmptyBodyRejected()
    ensures Handle(Obj(map[])) == Answered(Reply(400, "error", "Invalid callback data"), None)
  {
  }

  /** The metadata items of a successful payment notification. */
  const ExampleAmount: JsValue := Obj(map["Name" := Str("Amount"), "Value" := Num(100.0)])
  const ExampleReceipt: JsValue := Obj(map["Name" := Str("MpesaReceiptNumber"), "Value" := Str("R123")])
  const ExamplePhone: JsValue := Obj(map["Name" := Str("PhoneNumber"), "Value" := Str("254700000000")])
  const ExampleItems: seq<JsValue> := [ExampleAmount, ExampleReceipt, ExamplePhone]

  /** `stkCallback` of a successful payment notification. */
  const ExampleStk: JsValue := Obj(map[
    "ResultCode" := Num(0.0), "ResultDesc" := Str("ok"), "CheckoutRequestID" := Str("abc123"),
    "CallbackMetadata" := Obj(map["Item" := Arr(ExampleItems)])])

  lemma ExampleLookups()
    ensures Lookup(Arr(ExampleItems), "MpesaReceiptNumber") == Ok(Str("R123"))
    ensures Lookup(Arr(ExampleItems), "Amount") == Ok(Num(100.0))
    ensures Lookup(Arr(ExampleItems), "PhoneNumber") == Ok(Str("254700000000"))
  {
    assert OptGet(ExampleAmount, "Name") == Str("Amount") && OptGet(ExampleAmount, "Value") == Num(100.0);
    assert OptGet(ExampleReceipt, "Name") == Str("MpesaReceiptNumber") && OptGet(ExampleReceipt, "Value") == Str("R123");
    assert OptGet(ExamplePhone, "Name") == Str("PhoneNumber") && OptGet(ExamplePhone, "Value") == Str("254700000000");
    assert PassesOver(ExampleItems, "Amount", 0);
    assert PassesOver(ExampleItems, "MpesaReceiptNumber", 1);
    assert PassesOver(ExampleItems, "PhoneNumber", 2);
  }

  /** A successful payment notification with all three metadata items. */
  lemma SuccessExample()
    ensures Handle(Obj(map["Body" := Obj(map["stkCallback" := ExampleStk])]))
      == Answered(Reply(200, "message", "Callback received successfully"),
           Some(Success(Str("254700000000"), Num(100.0), Str("R123"), Str("abc123"))))
  {
    var body := Obj(map["Body" := Obj(map["stkCallback" := ExampleStk])]);
    ExampleFields(body);
    ExampleLookups();
    assert Printable(Str("254700000000")) && Printable(Num(100.0)) && Printable(Str("R123")) && Printable(Str("abc123"));
    SuccessReport(body);
  }

  lemma ExampleFields(body: JsValue)
    requires body == Obj(map["Body" := Obj(map["stkCallback" := ExampleStk])])
    ensures !Nullish(body) && StkCallback(body) == ExampleStk && Truthy(ExampleStk)
    ensures IsSuccessCode(OptGet(ExampleStk, "ResultCode"))
    ensures OptGet(ExampleStk, "CheckoutRequestID") == Str("abc123")
    ensures Metadata(ExampleStk) == Arr(ExampleItems) && CleanMetadata(Arr(ExampleItems))
  {
  }
}
