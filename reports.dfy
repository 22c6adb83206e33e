/** The report pipeline of `POST/GET/DELETE /api/reports`: the registry of
    report types and their fields, the type check made before anything
    else, the call to the Facebook reporting endpoint with its failure
    captured as data, the record appended whatever the outcome, and the
    index-based delete. */
module Reports {
  import opened Options
  import opened JsText
  import opened JsonValues
  import opened Records

  /** A registry of report types: names in declaration order (the order of
      `Object.keys`), each with its ordered field list. */
  type Registry = seq<(string, seq<string>)>

  const ReportTypes: Registry := [
    ("Copyright", ["job", "email", "name", "organization", "relationship", "relationship_other",
                   "owner_name", "owner_country", "address", "original_type", "original_urls",
                   "content_urls"]),
    ("Trademark", ["job", "email", "name", "organization", "relationship", "relationship_other",
                   "owner_name", "owner_country", "address", "phone", "tm", "tm_jurisdiction",
                   "tm_reg_number", "tm_url", "original_type", "content_urls"]),
    ("Counterfeit", ["job", "email", "name", "organization", "relationship", "relationship_other",
                     "owner_name", "owner_country", "address", "phone", "tm", "tm_jurisdiction",
                     "tm_reg_number", "tm_url", "original_type", "content_urls"]),
    ("Retraction", ["original_report_id", "content_urls", "retraction_reason"])
  ]

  /** `Object.keys(reg)`. */
  function Keys(reg: Registry): (ks: seq<string>)
    ensures |ks| == |reg|
    ensures forall i :: 0 <= i < |reg| ==> ks[i] == reg[i].0
  {
    if reg == [] then [] else [reg[0].0] + Keys(reg[1..])
  }

  /** `reg[name]` for an own key: the field list of the first entry so named. */
  function FieldsFor(reg: Registry, name: string): (r: Option<seq<string>>)
    ensures r.Some? <==> name in Keys(reg)
    ensures r.Some? ==> exists i :: 0 <= i < |reg| && reg[i] == (name, r.value)
  {
    if reg == [] then None
    else if reg[0].0 == name then Some(reg[0].1)
    else
      var r := FieldsFor(reg[1..], name);
      assert Keys(reg) == [reg[0].0] + Keys(reg[1..]);
      assert r.Some? ==> exists i :: 0 <= i < |reg| && reg[i] == (name, r.value) by {
        if r.Some? {
          var i :| 0 <= i < |reg[1..]| && reg[1..][i] == (name, r.value);
          assert reg[i + 1] == (name, r.value);
        }
      }
      r
  }

  /** The names every plain object inherits from `Object.prototype`: a
      lookup `REPORT_TYPES[name]` finds a truthy value for these too. */
  const InheritedNames: set<string> := {
    "constructor", "hasOwnProperty", "isPrototypeOf", "propertyIsEnumerable",
    "toLocaleString", "toString", "valueOf", "__proto__", "__defineGetter__",
    "__defineSetter__", "__lookupGetter__", "__lookupSetter__"
  }

  /** `REPORT_TYPES[type]` is truthy: the property key of the type (a
      string as itself, an array as the join of its items) is a registry
      key or one of the inherited names. Only a string or an array can
      pass: undefined, `null`, booleans, numbers and objects have keys
      that are neither. */
  predicate TypeAccepted(t: Option<Json>): (r: bool)
    ensures r <==>
      t.Some? && (t.value.JStr? || t.value.JArr?)
      && (JsString(t.value) in Keys(ReportTypes) || JsString(t.value) in InheritedNames)
  {
    var key := PropertyKey(t);
    if FieldsFor(ReportTypes, key).Some? || key in InheritedNames then
      AcceptedNamesStartWithLetter(key);
      true
    else
      false
  }

  /** Every registered type passes the check. */
  lemma RegisteredTypesAccepted(name: string)
    requires name in Keys(ReportTypes)
    ensures TypeAccepted(Some(JStr(name)))
  {
  }

  /** The names the check accepts start with a letter or `_`. */
  lemma AcceptedNamesStartWithLetter(name: string)
    requires name in Keys(ReportTypes) || name in InheritedNames
    ensures name != "" && !IsDigitIn(name[0], 10) && name[0] != '-'
    ensures name !in {"undefined", "null", "true", "false", "[object Object]"}
  {
    assert Keys(ReportTypes) == ["Copyright", "Trademark", "Counterfeit", "Retraction"];
  }

  /** A string passes the check exactly when it is a registry key or an
      inherited name. */
  lemma StringTypeAccepted()
    ensures forall name :: TypeAccepted(Some(JStr(name))) <==> name in Keys(ReportTypes) || name in InheritedNames
  {
  }

  /** The check reads arrays through their string: `["Copyright"]`,
      `[["Trademark"]]` and `["constructor"]` all pass, while `[]` does not. */
  lemma ArrayTypesAccepted()
    ensures TypeAccepted(Some(JArr([JStr("Copyright")])))
    ensures TypeAccepted(Some(JArr([JArr([JStr("Trademark")])])))
    ensures TypeAccepted(Some(JArr([JStr("constructor")])))
    ensures !TypeAccepted(Some(JArr([])))
  {
    assert JsString(JArr([JStr("Copyright")])) == "Copyright";
    assert JsString(JArr([JStr("Trademark")])) == "Trademark";
    assert JsString(JArr([JArr([JStr("Trademark")])])) == "Trademark";
    assert JsString(JArr([JStr("constructor")])) == "constructor";
    assert JsString(JArr([])) == "";
    assert Keys(ReportTypes) == ["Copyright", "Trademark", "Counterfeit", "Retraction"];
  }

  /** "constructor" is not a report type, yet the lookup accepts it. */
  lemma InheritedNameAccepted()
    ensures "constructor" !in Keys(ReportTypes)
    ensures TypeAccepted(Some(JStr("constructor")))
  {
    assert Keys(ReportTypes) == ["Copyright", "Trademark", "Counterfeit", "Retraction"];
  }

  /** What `sendFacebookReport` returns or throws: the parsed body of an ok
      response, or the message of the error it throws (the JSON text of a
      non-ok response's body, or the network or parse error). */
  datatype Outcome = Delivered(response: Json) | Failed(message: string)

  /** The JSON body posted to the Facebook endpoint: the draft with `type`
      upper-cased, then the access token added. */
  function FacebookPayload(draft: Obj, accessToken: string): (p: Obj)
    requires IsString(Get(draft, "type"))
    ensures p.Keys == draft.Keys + {"type", "access_token"}
    ensures p["type"] == JStr(ToUpper(draft["type"].s))
    ensures p["access_token"] == JStr(accessToken)
    ensures forall k :: k in draft && k != "type" && k != "access_token" ==> p[k] == draft[k]
  {
    draft["type" := JStr(ToUpper(draft["type"].s))]["access_token" := JStr(accessToken)]
  }

  /** The keys the pipeline writes over the draft. */
  const OutcomeKeys: set<string> := {"fb_response", "status", "error_message", "created_at"}

  /** The record appended to the report list: the draft as received (its
      `type` in its original case) extended with the outcome and the time.
      `fb_response` is the response body on success; on failure its value
      is `undefined`, so the saved record has no such key. */
  function StoredReport(draft: Obj, outcome: Outcome, now: string): (r: Obj)
    ensures forall k :: k in draft && k !in OutcomeKeys ==> k in r && r[k] == draft[k]
    ensures r.Keys == (draft.Keys - {"fb_response"}) + {"status", "error_message", "created_at"}
                      + (if outcome.Delivered? then {"fb_response"} else {})
    ensures outcome.Delivered? ==> r["fb_response"] == outcome.response
    ensures r["status"] == JStr(if outcome.Delivered? then "success" else "failed")
    ensures r["error_message"] == JStr(if outcome.Delivered? then "" else outcome.message)
    ensures r["created_at"] == JStr(now)
  {
    var base := match outcome
      case Delivered(body) => draft["fb_response" := body]
      case Failed(_) => draft - {"fb_response"};
    var status := if outcome.Delivered? then "success" else "failed";
    var message := if outcome.Delivered? then "" else outcome.message;
    base["status" := JStr(status)]["error_message" := JStr(message)]["created_at" := JStr(now)]
  }

  /** The error `type.toUpperCase()` throws when the type is not a string. */
  const UpperCaseError := "type.toUpperCase is not a function"

  /** The response to a failed call: 500 with the error message as details. */
  function FailureResponse(message: string): Response {
    Response(500, JObj(map["error" := JStr("Facebook API error"), "details" := JStr(message)]))
  }

  /** The index a DELETE names: `parseInt(id)` when it is a number within
      `0 <= index < length`; None otherwise. */
  function DeleteIndex(id: string, length: nat): (r: Option<nat>)
    ensures r.Some? <==> (ParseInt(id).Some? && 0 <= ParseInt(id).value < length)
    ensures r.Some? ==> r.value == ParseInt(id).value
  {
    match ParseInt(id)
    case None => None
    case Some(i) => if 0 <= i < length then Some(i) else None
  }

  /** `parseInt` reads a leading run of digits, so "1abc" names index 1. */
  lemma DeleteIndexReadsLeadingDigits()
    ensures DeleteIndex("1abc", 2) == Some(1)
  {
    assert Decimal(1) == "1";
    assert "1abc" == Decimal(1) + "abc";
    ParseIntDecimalPrefix(1, "abc");
  }

  /** The reports document, read and replaced whole by each request. */
  class ReportStore {
    var reports: seq<Obj>

    constructor (initial: seq<Obj>)
      ensures reports == initial
    {
      reports := initial;
    }

    /** `GET /api/reports`: the stored list as it is. */
    method List() returns (r: seq<Obj>)
      ensures r == reports
    {
      r := reports;
    }

    /** `POST /api/reports`. A type the lookup rejects gives 400 before the
        endpoint is called (`sent` is None) and nothing is stored. An
        accepted type that is not a string (an array) makes `toUpperCase`
        throw before the call: nothing is sent, and the failure is stored
        and answered like a failed call. Otherwise the payload is sent,
        exactly one record is appended whatever the outcome, and the
        response is the record (success) or 500 (failure). */
    method Submit(draft: Obj, send: Obj -> Outcome, accessToken: string, now: string)
      returns (resp: Response, sent: Option<Obj>)
      modifies this
      ensures !TypeAccepted(Get(draft, "type")) ==>
        resp == ErrorResponse(400, "Invalid report type") && sent == None && reports == old(reports)
      ensures TypeAccepted(Get(draft, "type")) && !IsString(Get(draft, "type")) ==>
        && sent == None
        && reports == old(reports) + [StoredReport(draft, Failed(UpperCaseError), now)]
        && resp == FailureResponse(UpperCaseError)
      ensures TypeAccepted(Get(draft, "type")) && IsString(Get(draft, "type")) ==>
        var payload := FacebookPayload(draft, accessToken);
        var record := StoredReport(draft, send(payload), now);
        && sent == Some(payload)
        && reports == old(reports) + [record]
        && resp == (match send(payload)
                    case Delivered(_) => Response(200, JObj(record))
                    case Failed(m) => FailureResponse(m))
    {
      if !TypeAccepted(Get(draft, "type")) {
        resp := ErrorResponse(400, "Invalid report type");
        sent := None;
        return;
      }
      var outcome: Outcome;
      if IsString(Get(draft, "type")) {
        var payload := FacebookPayload(draft, accessToken);
        sent := Some(payload);
        outcome := send(payload);
      } else {
        sent := None;
        outcome := Failed(UpperCaseError);
      }
      var newReport := StoredReport(draft, outcome, now);
      reports := reports + [newReport];
      match outcome {
        case Delivered(_) =>
          resp := Response(200, JObj(newReport));
        case Failed(m) =>
          resp := FailureResponse(m);
      }
    }

    /** `DELETE /api/reports?id=<index>`: a missing or empty id, or one that
        does not name an index in range, gives 400 and changes nothing;
        otherwise exactly that report is removed. */
    method Delete(id: Option<string>) returns (resp: Response)
      modifies this
      ensures (id.None? || id.value == "") ==>
        resp == ErrorResponse(400, "Report ID is required") && reports == old(reports)
      ensures id.Some? && id.value != "" && DeleteIndex(id.value, |old(reports)|).None? ==>
        resp == ErrorResponse(400, "Invalid report index") && reports == old(reports)
      ensures id.Some? && id.value != "" && DeleteIndex(id.value, |old(reports)|).Some? ==>
        && reports == RemoveAt(old(reports), DeleteIndex(id.value, |old(reports)|).value)
        && resp == Response(200, JObj(map["success" := JBool(true),
                                          "message" := JStr("Report deleted successfully")]))
    {
      if id.None? || id.value == "" {
        resp := ErrorResponse(400, "Report ID is required");
        return;
      }
      var index := DeleteIndex(id.value, |reports|);
      if index.None? {
        resp := ErrorResponse(400, "Invalid report index");
        return;
      }
      reports := RemoveAt(reports, index.value);
      resp := Response(200, JObj(map["success" := JBool(true),
                                     "message" := JStr("Report deleted successfully")]));
    }
  }
}
