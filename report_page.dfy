/** The report form of the home page: its own copy of the report-type
    registry, the projection of the user's default data onto the chosen
    type's fields, the two-column layout of those fields, their labels, and
    the body it posts to `/api/reports`. */
module ReportPage {
  import opened Options
  import opened JsText
  import opened JsonValues
  import opened JsonText
  import opened Reports

  /** The registry as the page declares it. */
  const ClientReportTypes: Registry := [
    ("Copyright", ["job", "email", "name", "organization", "relationship", "relationship_other",
                   "owner_name", "owner_country", "address", "original_type", "original_urls",
                   "content_urls"]),
    ("Trademark", ["job", "email", "name", "organization", "relationship", "relationship_other",
                   "owner_name", "owner_country", "address", "phone", "tm", "tm_jurisdiction",
                   "tm_reg_number", "tm_url", "original_type", "content_urls"]),
    ("Counterfeit", ["job", "email", "name", "organization", "relationship", "relationship_other",
                     "owner_name", "owner_country", "address", "phone", "tm", "tm_jurisdiction",
                     "tm_reg_number", "tm_url", "original_type", "content_urls"]),
    ("Retraction", ["original_report_id", "content_urls", "retraction_reason"])
  ]

  /** The page and the server declare the same registry, so every type the
      select offers is one the server accepts. */
  lemma ClientRegistryMatchesServer()
    ensures ClientReportTypes == ReportTypes
    ensures forall name :: name in Keys(ClientReportTypes) ==> TypeAccepted(Some(JStr(name)))
  {
  }

  /** `Object.fromEntries(Object.entries(defaults).filter(([k]) => fields.includes(k)))`. */
  function FilterDefaults(defaults: Obj, fields: seq<string>): (r: Obj)
    ensures forall k :: k in r <==> k in defaults && k in fields
    ensures forall k :: k in r ==> r[k] == defaults[k]
  {
    map k | k in defaults && k in fields :: defaults[k]
  }

  /** Filtering twice is filtering once. */
  lemma FilterDefaultsIdempotent(defaults: Obj, fields: seq<string>)
    ensures FilterDefaults(FilterDefaults(defaults, fields), fields) == FilterDefaults(defaults, fields)
  {
    var once := FilterDefaults(defaults, fields);
    var twice := FilterDefaults(once, fields);
    assert twice.Keys == once.Keys;
  }

  /** The form values set when a type is picked in the select: nothing for
      the empty choice, otherwise the defaults for the type's fields and the
      type itself. The select offers only registry keys. */
  function TypeSelected(value: string, defaults: Obj): (r: Option<Obj>)
    requires value == "" || value in Keys(ClientReportTypes)
    ensures r.Some? <==> value != ""
    ensures r.Some? ==> forall k :: k != "type" ==>
      (k in r.value <==> k in defaults && k in FieldsFor(ClientReportTypes, value).value)
    ensures r.Some? ==> forall k :: k in r.value && k != "type" ==> r.value[k] == defaults[k]
    ensures r.Some? ==> Get(r.value, "type") == Some(JStr(value))
  {
    if value == "" then None
    else Some(FilterDefaults(defaults, FieldsFor(ClientReportTypes, value).value)["type" := JStr(value)])
  }

  /** `Math.ceil(n / 2)`: the least number whose double reaches `n`. */
  function CeilHalf(n: nat): (h: nat)
    ensures h * 2 >= n && h * 2 <= n + 1
  {
    (n + 1) / 2
  }

  /** The fields shown in the left column: the first half of the list,
      rounded up. */
  function LeftColumn(fields: seq<string>): (left: seq<string>)
    ensures |left| == CeilHalf(|fields|) && left <= fields
  {
    fields[..CeilHalf(|fields|)]
  }

  /** The fields shown in the right column: what follows the left one. */
  function RightColumn(fields: seq<string>): (right: seq<string>)
    ensures LeftColumn(fields) + right == fields
  {
    fields[CeilHalf(|fields|)..]
  }

  /** The columns together are the field list in order, and the left one
      has the same number of fields as the right one or one more. */
  lemma ColumnsSplitFields(fields: seq<string>)
    ensures LeftColumn(fields) + RightColumn(fields) == fields
    ensures |LeftColumn(fields)| == |RightColumn(fields)| || |LeftColumn(fields)| == |RightColumn(fields)| + 1
    ensures |LeftColumn(fields)| * 2 >= |fields|
  {
  }

  /** `field.charAt(0).toUpperCase() + field.slice(1).replace("_", " ")`. */
  function FieldLabel(field: string): (text: string)
    ensures |text| == |field|
    ensures field != "" ==> text[0] == UpperChar(field[0])
  {
    if field == "" then "" else ToUpper([field[0]]) + ReplaceFirst(field[1..], "_", " ")
  }

  /** The label is the upper-cased first character followed by the rest
      with its first `_` replaced. */
  lemma FieldLabelParts(field: string)
    requires field != ""
    ensures FieldLabel(field) == [UpperChar(field[0])] + ReplaceFirst(field[1..], "_", " ")
  {
    assert ToUpper([field[0]]) == [UpperChar(field[0])];
  }

  /** Past the first character, the label holds the field's characters,
      except that an `_` may have become a space. */
  lemma FieldLabelTail(field: string, i: nat)
    requires 1 <= i < |field|
    ensures |FieldLabel(field)| == |field|
    ensures field[i] != '_' ==> FieldLabel(field)[i] == field[i]
    ensures field[i] == '_' ==> (FieldLabel(field)[i] == ' ' <==> '_' !in field[1..i])
    ensures field[i] == '_' ==> FieldLabel(field)[i] == ' ' || FieldLabel(field)[i] == '_'
  {
    var tail := field[1..];
    var replaced := ReplaceFirst(tail, "_", " ");
    var j := i - 1;
    assert |replaced| == |tail|
      && (tail[j] != '_' ==> replaced[j] == tail[j])
      && (tail[j] == '_' ==> (replaced[j] == ' ' <==> '_' !in tail[..j]))
      && (tail[j] == '_' ==> replaced[j] == ' ' || replaced[j] == '_') by {
      ReplaceFirstChar(tail, '_', ' ');
    }
    FieldLabelParts(field);
    assert field[i] == tail[j];
    assert field[1..i] == tail[..j];
    assert FieldLabel(field)[i] == replaced[j];
  }

  /** The label has the field's length, an upper-cased first character, and
      only the first `_` after that character turned into a space. */
  lemma FieldLabelShape(field: string)
    requires field != ""
    ensures |FieldLabel(field)| == |field|
    ensures FieldLabel(field)[0] == UpperChar(field[0])
    ensures forall i :: 1 <= i < |field| && field[i] != '_' ==> FieldLabel(field)[i] == field[i]
    ensures forall i :: 1 <= i < |field| && field[i] == '_' ==>
      (FieldLabel(field)[i] == ' ' <==> '_' !in field[1..i])
    ensures forall i :: 1 <= i < |field| && field[i] == '_' && FieldLabel(field)[i] != ' ' ==>
      FieldLabel(field)[i] == '_'
  {
    FieldLabelParts(field);
    forall i | 1 <= i < |field|
      ensures field[i] != '_' ==> FieldLabel(field)[i] == field[i]
      ensures field[i] == '_' ==> (FieldLabel(field)[i] == ' ' <==> '_' !in field[1..i])
      ensures field[i] == '_' ==> FieldLabel(field)[i] == ' ' || FieldLabel(field)[i] == '_'
    {
      FieldLabelTail(field, i);
    }
  }

  /** The JSON body `handleSubmit` posts: the form values with
      `original_urls` replaced by the JSON text of its comma split and `type`
      by the selected type. None when `original_urls` is not a string: the
      `split` call throws and nothing is posted. */
  function SubmitBody(values: Obj, reportType: string): (r: Option<Obj>)
    ensures r.Some? <==> IsString(Get(values, "original_urls"))
    ensures r.Some? ==>
      && IsString(Get(values, "original_urls"))
      && Get(r.value, "original_urls") == Some(JStr(StringifyList(Split(Get(values, "original_urls").value.s, ','))))
    ensures r.Some? ==> Get(r.value, "type") == Some(JStr(reportType))
    ensures r.Some? ==> r.value.Keys == values.Keys + {"type"}
    ensures r.Some? ==> forall k :: k in values && k != "original_urls" && k != "type" ==> r.value[k] == values[k]
  {
    match Get(values, "original_urls")
    case Some(JStr(urls)) =>
      Some(values["original_urls" := JStr(StringifyList(Split(urls, ',')))]["type" := JStr(reportType)])
    case _ => None
  }

  /** The posted `original_urls` text parses back to the comma split of what
      was typed, whose join with `,` is the typed text. */
  lemma SubmittedUrlsRoundTrip(values: Obj, reportType: string)
    requires IsString(Get(values, "original_urls"))
    ensures var typed := values["original_urls"].s;
      var parts := ParseList(SubmitBody(values, reportType).value["original_urls"].s);
      && parts == Some(Split(typed, ','))
      && Join(parts.value, ",") == typed
  {
    var typed := values["original_urls"].s;
    ParseStringified(Split(typed, ','));
    JoinSplit(typed, ',');
  }

  /** A type picked from the select is one the server accepts. */
  lemma SubmittedTypeAccepted(values: Obj, reportType: string)
    requires reportType in Keys(ClientReportTypes)
    requires IsString(Get(values, "original_urls"))
    ensures TypeAccepted(Get(SubmitBody(values, reportType).value, "type"))
  {
    ClientRegistryMatchesServer();
  }

  /** Copyright is the only type with an `original_urls` field. */
  lemma OriginalUrlsOnlyInCopyright()
    ensures forall i :: 0 <= i < |ClientReportTypes| && "original_urls" in ClientReportTypes[i].1 ==>
      ClientReportTypes[i].0 == "Copyright"
  {
    assert "original_urls" !in ClientReportTypes[1].1;
    assert "original_urls" !in ClientReportTypes[2].1;
    assert "original_urls" !in ClientReportTypes[3].1;
  }

  /** The form holds only the chosen type's fields and the type, and only
      Copyright has an `original_urls` field: for every other type the
      submit throws before anything is posted. */
  lemma OnlyCopyrightFormsSubmit(values: Obj, reportType: string)
    requires reportType in Keys(ClientReportTypes)
    requires forall k :: k in values ==> k == "type" || k in FieldsFor(ClientReportTypes, reportType).value
    requires reportType != "Copyright"
    ensures SubmitBody(values, reportType).None?
  {
    var fields := FieldsFor(ClientReportTypes, reportType).value;
    OriginalUrlsOnlyInCopyright();
    assert "original_urls" !in fields;
  }
}
