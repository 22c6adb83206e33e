/** The copyright editor: the URL list typed as comma-separated text, the
    text shown when a record is edited, and the request a submit sends. */
module CopyrightForm {
  import opened Options
  import opened JsText
  import opened JsonValues
  import opened Records

  /** `xs.map(url => url.trim())`. */
  function TrimAll(xs: seq<string>): (r: seq<string>)
    ensures |r| == |xs|
    ensures forall i :: 0 <= i < |xs| ==> r[i] == Trim(xs[i])
  {
    if xs == [] then [] else [Trim(xs[0])] + TrimAll(xs[1..])
  }

  /** `xs.filter(url => url)`: the non-empty strings, each as often as in
      `xs`, and in their order (NonEmptyAppend). */
  function NonEmpty(xs: seq<string>): (r: seq<string>)
    ensures |r| <= |xs|
    ensures "" !in r
    ensures forall i :: 0 <= i < |r| ==> r[i] in xs
    ensures forall x :: x != "" ==> multiset(r)[x] == multiset(xs)[x]
  {
    if xs == [] then []
    else
      var rest := NonEmpty(xs[1..]);
      assert xs == [xs[0]] + xs[1..];
      if xs[0] == "" then rest else [xs[0]] + rest
  }

  /** The filter of two lists one after the other is the filter of the
      first followed by the filter of the second. */
  lemma {:induction false} NonEmptyAppend(xs: seq<string>, ys: seq<string>)
    ensures NonEmpty(xs + ys) == NonEmpty(xs) + NonEmpty(ys)
  {
    if xs == [] {
      assert xs + ys == ys;
    } else {
      assert (xs + ys)[1..] == xs[1..] + ys;
      NonEmptyAppend(xs[1..], ys);
    }
  }

  /** The URL list of the text typed in the form. Every parsed URL is
      non-empty, trimmed and free of commas, and there are at most one more
      of them than there are commas. */
  function ParseUrls(text: string): (urls: seq<string>)
    ensures forall i :: 0 <= i < |urls| ==> WellFormedUrl(urls[i])
    ensures |urls| <= Occurrences(text, ',') + 1
  {
    var parts := Split(text, ',');
    var trimmed := TrimAll(parts);
    forall i | 0 <= i < |parts|
      ensures ',' !in trimmed[i]
    {
      TrimAddsNothing(parts[i], ',');
    }
    NonEmpty(trimmed)
  }

  /** The text the form shows for a URL list: empty exactly when there is
      no URL or a single empty one, and starting with the first URL. */
  function JoinUrls(urls: seq<string>): (text: string)
    ensures text == "" <==> |urls| == 0 || (|urls| == 1 && urls[0] == "")
    ensures |urls| >= 1 ==> urls[0] <= text
  {
    Join(urls, ", ")
  }

  /** A URL as the parser can produce it. */
  predicate WellFormedUrl(u: string) {
    u != "" && IsTrimmed(u) && ',' !in u
  }

  /** Leading spaces on every part but the first are dropped by the trim. */
  lemma {:induction false} TrimAllAfterSpace(s: string)
    ensures TrimAll(Split(" " + s, ',')) == TrimAll(Split(s, ','))
  {
    var parts := Split(s, ',');
    var spaced := Split(" " + s, ',');
    assert (" " + s)[1..] == s;
    assert spaced == [" " + parts[0]] + parts[1..];
    TrimSkipsLeadingSpace(parts[0]);
    assert TrimAll(spaced) == [Trim(" " + parts[0])] + TrimAll(parts[1..]);
    assert TrimAll(parts) == [Trim(parts[0])] + TrimAll(parts[1..]);
  }

  /** The shown text of two or more URLs: the first, a comma, and a space
      before the rest. */
  lemma JoinUrlsCons(urls: seq<string>)
    requires |urls| >= 2
    ensures JoinUrls(urls) == urls[0] + [','] + (" " + JoinUrls(urls[1..]))
  {
  }

  lemma TrimAllCons(x: string, xs: seq<string>)
    ensures TrimAll([x] + xs) == [Trim(x)] + TrimAll(xs)
  {
    assert ([x] + xs)[1..] == xs;
  }

  /** One step of the join: a trimmed, comma-free first URL, a comma and a
      space, then text whose trimmed parts are `rest`. */
  lemma TrimmedPartsStep(first: string, text: string, rest: seq<string>)
    requires IsTrimmed(first) && ',' !in first
    requires TrimAll(Split(text, ',')) == rest
    ensures TrimAll(Split(first + [','] + (" " + text), ',')) == [first] + rest
  {
    SplitAfterPrefix(first, " " + text, ',');
    var later := Split(" " + text, ',');
    TrimAllCons(first, later);
    TrimAllAfterSpace(text);
  }

  /** The parts of a non-empty joined list, once trimmed, are the list. */
  lemma {:induction false} TrimmedPartsOfJoin(urls: seq<string>)
    requires |urls| >= 1
    requires forall i :: 0 <= i < |urls| ==> WellFormedUrl(urls[i])
    ensures TrimAll(Split(JoinUrls(urls), ',')) == urls
  {
    if |urls| == 1 {
      SplitWithoutSeparator(urls[0], ',');
      assert JoinUrls(urls) == urls[0];
      TrimAllCons(urls[0], []);
      assert urls == [urls[0]];
    } else {
      JoinUrlsCons(urls);
      TrimmedPartsOfJoin(urls[1..]);
      TrimmedPartsStep(urls[0], JoinUrls(urls[1..]), urls[1..]);
      assert urls == [urls[0]] + urls[1..];
    }
  }

  /** Filtering a list without empty strings keeps it. */
  lemma {:induction false} NonEmptyKeeps(xs: seq<string>)
    requires forall i :: 0 <= i < |xs| ==> xs[i] != ""
    ensures NonEmpty(xs) == xs
  {
    if xs != [] {
      NonEmptyKeeps(xs[1..]);
      assert xs == [xs[0]] + xs[1..];
    }
  }

  /** Parsing the shown text of a list of well-formed URLs gives back the list. */
  lemma ParseJoinedUrls(urls: seq<string>)
    requires forall i :: 0 <= i < |urls| ==> WellFormedUrl(urls[i])
    ensures ParseUrls(JoinUrls(urls)) == urls
  {
    if |urls| == 0 {
      assert Split("", ',') == [""];
      assert TrimAll([""]) == [Trim("")];
    } else {
      TrimmedPartsOfJoin(urls);
      NonEmptyKeeps(urls);
    }
  }

  /** Showing a parsed list and parsing it again changes nothing. */
  lemma ParseJoinParse(text: string)
    ensures ParseUrls(JoinUrls(ParseUrls(text))) == ParseUrls(text)
  {
    ParseJoinedUrls(ParseUrls(text));
  }

  /** A request to `/api/copyrights`: its HTTP method and JSON body. */
  datatype Request = Request(verb: string, body: Obj)

  /** A list of strings as a JSON array. */
  function Strings(xs: seq<string>): (r: seq<Json>)
    ensures |r| == |xs|
    ensures forall i :: 0 <= i < |xs| ==> r[i] == JStr(xs[i])
  {
    if xs == [] then [] else [JStr(xs[0])] + Strings(xs[1..])
  }

  /** The strings of JSON values that are all strings. */
  function StringsOf(items: seq<Json>): (r: Option<seq<string>>)
    ensures r.Some? ==> items == Strings(r.value)
  {
    if items == [] then Some([])
    else if !items[0].JStr? then None
    else
      match StringsOf(items[1..])
      case None => None
      case Some(rest) => Some([items[0].s] + rest)
  }

  /** Reading back an array of strings gives the strings. */
  lemma {:induction false} StringsOfStrings(xs: seq<string>)
    ensures StringsOf(Strings(xs)) == Some(xs)
  {
    if xs != [] {
      StringsOfStrings(xs[1..]);
      assert Strings(xs)[1..] == Strings(xs[1..]);
      assert xs == [xs[0]] + xs[1..];
    }
  }

  /** The strings of a property that is an array of strings. */
  function UrlList(v: Option<Json>): (r: Option<seq<string>>)
    ensures r.Some? ==> v == Some(JArr(Strings(r.value)))
  {
    match v
    case Some(JArr(items)) => StringsOf(items)
    case _ => None
  }

  /** The values a submit starts from: with the current id added when it
      is truthy. */
  function SubmitData(currentId: Option<Json>, values: Obj): (r: Obj)
    ensures Truthy(currentId) ==> Get(r, "id") == currentId
    ensures forall k :: k != "id" || !Truthy(currentId) ==> Get(r, k) == Get(values, k)
  {
    if Truthy(currentId) then values["id" := currentId.value] else values
  }

  /** The JSON array the typed URL text is sent as. */
  function UrlArray(text: string): (j: Json)
    ensures UrlList(Some(j)) == Some(ParseUrls(text))
  {
    StringsOfStrings(ParseUrls(text));
    JArr(Strings(ParseUrls(text)))
  }

  /** `handleSubmit`: a PUT whose body carries the current id when the
      current copyright has a truthy id, a POST otherwise; the URLs are
      parsed into an array. None when `original_urls` is not a string: the
      `split` call throws and nothing is sent. */
  function SubmitRequest(currentId: Option<Json>, values: Obj): (r: Option<Request>)
    ensures r.Some? <==> IsString(Get(values, "original_urls"))
    ensures r.Some? ==> (r.value.verb == "PUT" <==> Truthy(currentId))
    ensures r.Some? ==> r.value.verb == "PUT" || r.value.verb == "POST"
    ensures r.Some? ==> r.value.body == SubmitData(currentId, values)["original_urls" := UrlArray(Get(values, "original_urls").value.s)]
  {
    if !IsString(Get(values, "original_urls")) then None
    else
      var body := SubmitData(currentId, values)["original_urls" := UrlArray(values["original_urls"].s)];
      Some(Request(if Truthy(currentId) then "PUT" else "POST", body))
  }

  /** The body a submit sends is the submit data with the URL array. */
  lemma SubmitBodyIsData(currentId: Option<Json>, values: Obj)
    requires IsString(Get(values, "original_urls"))
    ensures var body := SubmitRequest(currentId, values).value.body;
      && Get(body, "original_urls") == Some(UrlArray(values["original_urls"].s))
      && forall k :: k != "original_urls" ==> Get(body, k) == Get(SubmitData(currentId, values), k)
  {
    var data := SubmitData(currentId, values);
    var urls := UrlArray(values["original_urls"].s);
    assert SubmitRequest(currentId, values).value.body == data["original_urls" := urls];
    GetUpdated(data, "original_urls", urls);
  }

  /** The body a submit sends: the current id when it is truthy, the URLs
      parsed out of the typed text, and every other value as typed. */
  lemma SubmitBodyContents(currentId: Option<Json>, values: Obj)
    requires IsString(Get(values, "original_urls"))
    ensures var body := SubmitRequest(currentId, values).value.body;
      && (Truthy(currentId) ==> Get(body, "id") == currentId)
      && UrlList(Get(body, "original_urls")) == Some(ParseUrls(values["original_urls"].s))
      && forall k :: k != "original_urls" && (k != "id" || !Truthy(currentId)) ==> Get(body, k) == Get(values, k)
  {
    SubmitBodyIsData(currentId, values);
  }

  /** `handleEdit`: the record with its URL array shown as text. None when
      `original_urls` is not an array of strings. */
  function EditFormValues(copyright: Obj): (r: Option<Obj>)
    ensures r.Some? <==> UrlList(Get(copyright, "original_urls")).Some?
    ensures r.Some? ==>
      Get(r.value, "original_urls") == Some(JStr(JoinUrls(UrlList(Get(copyright, "original_urls")).value)))
    ensures r.Some? ==> forall k :: k != "original_urls" ==> Get(r.value, k) == Get(copyright, k)
  {
    match UrlList(Get(copyright, "original_urls"))
    case None => None
    case Some(urls) => Some(copyright["original_urls" := JStr(JoinUrls(urls))])
  }

  /** The fields the editor's form registers, each with a `required` rule. */
  const FormFields: set<string> := {"title", "original_urls"}

  /** A value that passes a bare `required` rule, which judges emptiness
      by the value's own type: anything but undefined, `null`, "" and `[]`. */
  predicate RequiredPasses(v: Option<Json>) {
    v.Some? && v.value != JNull && v.value != JStr("") && v.value != JArr([])
  }

  /** A string that is not empty. */
  predicate FilledString(v: Option<Json>) {
    v.Some? && v.value.JStr? && v.value.s != ""
  }

  /** What `onFinish` hands to `handleSubmit` when the form holds `store`:
      the values of the registered fields only, once both pass their
      `required` rule;
      None when validation fails and `handleSubmit` is not called. */
  function FinishValues(store: Obj): (r: Option<Obj>)
    ensures r.Some? <==> RequiredPasses(Get(store, "title")) && RequiredPasses(Get(store, "original_urls"))
    ensures r.Some? ==> r.value.Keys == FormFields
    ensures r.Some? ==> forall k :: k in r.value ==> k in store && r.value[k] == store[k]
  {
    if RequiredPasses(Get(store, "title")) && RequiredPasses(Get(store, "original_urls")) then
      Some(map k | k in FormFields :: store[k])
    else None
  }

  /** A record stored with a numeric title still passes validation: the
      form hands that number on with the URL text. */
  lemma NumericTitlePasses(store: Obj, n: int)
    requires Get(store, "title") == Some(JNum(n)) && FilledString(Get(store, "original_urls"))
    ensures FinishValues(store).Some?
    ensures FinishValues(store).value["title"] == JNum(n)
    ensures FinishValues(store).value["original_urls"] == store["original_urls"]
  {
  }

  /** The shown text of a list of non-empty URLs is empty only for the
      empty list. */
  lemma JoinUrlsEmpty(urls: seq<string>)
    requires forall i :: 0 <= i < |urls| ==> urls[i] != ""
    ensures JoinUrls(urls) == "" <==> |urls| == 0
  {
    if |urls| == 1 {
      assert JoinUrls(urls) == urls[0];
    } else if |urls| >= 2 {
      JoinUrlsCons(urls);
    }
  }

  /** The registered values of the edit form: the record's title and the
      shown text of its URLs, when both are filled. */
  lemma FinishAfterEdit(copyright: Obj)
    requires FilledString(Get(copyright, "title"))
    requires UrlList(Get(copyright, "original_urls")).Some?
    ensures var text := JoinUrls(UrlList(Get(copyright, "original_urls")).value);
      FinishValues(EditFormValues(copyright).value) ==
        if text == "" then None
        else Some(map["title" := copyright["title"], "original_urls" := JStr(text)])
  {
    var text := JoinUrls(UrlList(Get(copyright, "original_urls")).value);
    var store := EditFormValues(copyright).value;
    assert store == copyright["original_urls" := JStr(text)];
    assert Get(store, "title") == Get(copyright, "title");
    if text != "" {
      var v := FinishValues(store).value;
      assert v.Keys == {"title", "original_urls"};
      assert v == map["title" := copyright["title"], "original_urls" := JStr(text)];
    }
  }

  /** Two objects with equal properties are equal. */
  lemma SameProperties(a: Obj, b: Obj)
    requires forall k :: Get(a, k) == Get(b, k)
    ensures a == b
  {
    assert forall k :: k in a <==> Get(a, k).Some?;
    assert a.Keys == b.Keys;
  }

  /** A merge whose body holds only properties the record already has,
      with the same values, leaves the record as it was. */
  lemma MergeOfOwnValues(rec: Obj, body: Obj)
    requires forall k :: k in body && k != "id" ==> k in rec && rec[k] == body[k]
    ensures MergeUpdate(rec, body) == rec
  {
    var merged := MergeUpdate(rec, body);
    forall key
      ensures Get(merged, key) == Get(rec, key)
    {
    }
    SameProperties(merged, rec);
  }

  /** The body a submit of a title and URL text sends: the submit data
      with the URL array. */
  lemma SubmitOfText(id: Json, title: Json, text: string)
    requires Truthy(Some(id))
    ensures var values := map["title" := title, "original_urls" := JStr(text)];
      && SubmitRequest(Some(id), values).value.verb == "PUT"
      && SubmitRequest(Some(id), values).value.body == SubmitData(Some(id), values)["original_urls" := UrlArray(text)]
  {
    var values := map["title" := title, "original_urls" := JStr(text)];
    assert Get(values, "original_urls").value.s == text;
  }

  /** The submit data of a title and URL text under a truthy id. */
  lemma SubmitDataWithId(id: Json, title: Json, text: string)
    requires Truthy(Some(id))
    ensures var values := map["title" := title, "original_urls" := JStr(text)];
      SubmitData(Some(id), values) == values["id" := id]
  {
  }

  /** Two updates of a two-property display, written as one display. */
  lemma UpdatedDisplay(id: Json, title: Json, text: string, urls: Json)
    ensures var values := map["title" := title, "original_urls" := JStr(text)];
      values["id" := id]["original_urls" := urls] == map["title" := title, "original_urls" := urls, "id" := id]
  {
  }

  /** A submit of a title and URL text under a truthy id is a PUT of just
      the title, the URL array and the id. */
  lemma SubmitTitleAndUrls(id: Json, title: Json, text: string)
    requires Truthy(Some(id))
    ensures SubmitRequest(Some(id), map["title" := title, "original_urls" := JStr(text)]) ==
      Some(Request("PUT", map["title" := title, "original_urls" := UrlArray(text), "id" := id]))
  {
    SubmitOfText(id, title, text);
    SubmitDataWithId(id, title, text);
    UpdatedDisplay(id, title, text, UrlArray(text));
  }

  /** The URL array of the shown text of well-formed URLs is the record's
      own array. */
  lemma UrlArrayOfShown(copyright: Obj)
    requires UrlList(Get(copyright, "original_urls")).Some?
    requires forall i :: 0 <= i < |UrlList(Get(copyright, "original_urls")).value| ==>
      WellFormedUrl(UrlList(Get(copyright, "original_urls")).value[i])
    ensures "original_urls" in copyright
    ensures UrlArray(JoinUrls(UrlList(Get(copyright, "original_urls")).value)) == copyright["original_urls"]
  {
    var urls := UrlList(Get(copyright, "original_urls")).value;
    ParseJoinedUrls(urls);
  }

  /** An edited record with at least one URL passes validation, and its
      submit is a PUT of just the title, the URL array and the id. */
  lemma EditedRecordSubmit(copyright: Obj)
    requires Truthy(Get(copyright, "id"))
    requires FilledString(Get(copyright, "title"))
    requires UrlList(Get(copyright, "original_urls")).Some?
    requires forall i :: 0 <= i < |UrlList(Get(copyright, "original_urls")).value| ==>
      WellFormedUrl(UrlList(Get(copyright, "original_urls")).value[i])
    requires |UrlList(Get(copyright, "original_urls")).value| >= 1
    ensures FinishValues(EditFormValues(copyright).value).Some?
    ensures SubmitRequest(Get(copyright, "id"), FinishValues(EditFormValues(copyright).value).value) ==
      Some(Request("PUT", map["title" := copyright["title"], "original_urls" := copyright["original_urls"],
                              "id" := copyright["id"]]))
  {
    var urls := UrlList(Get(copyright, "original_urls")).value;
    var text := JoinUrls(urls);
    JoinUrlsEmpty(urls);
    FinishAfterEdit(copyright);
    UrlArrayOfShown(copyright);
    SubmitTitleAndUrls(copyright["id"], copyright["title"], text);
  }

  /** Opening a record with a title and well-formed URLs for editing and
      submitting the form unchanged: the form passes validation exactly
      when there is at least one URL, and then sends a PUT with just the
      title, the same URL array and the id. The server merges that body
      into the first record strictly equal in id; when the edited record
      `cs[k]` is the only one with its id, that is `k`, and the store is
      left as it was. */
  lemma EditThenSubmitKeepsRecord(copyright: Obj, cs: seq<Obj>, k: nat)
    requires Truthy(Get(copyright, "id"))
    requires FilledString(Get(copyright, "title"))
    requires UrlList(Get(copyright, "original_urls")).Some?
    requires forall i :: 0 <= i < |UrlList(Get(copyright, "original_urls")).value| ==>
      WellFormedUrl(UrlList(Get(copyright, "original_urls")).value[i])
    ensures var values := FinishValues(EditFormValues(copyright).value);
      values.Some? <==> |UrlList(Get(copyright, "original_urls")).value| >= 1
    ensures var values := FinishValues(EditFormValues(copyright).value);
      values.Some? ==>
        var request := SubmitRequest(Get(copyright, "id"), values.value);
        && request == Some(Request("PUT", map["title" := copyright["title"],
                                              "original_urls" := copyright["original_urls"],
                                              "id" := copyright["id"]]))
        && MergeUpdate(copyright, request.value.body) == copyright
        && (k < |cs| && cs[k] == copyright && ScalarId(copyright)
            && (forall i :: 0 <= i < |cs| && i != k ==> !StrictEquals(Get(cs[i], "id"), Get(copyright, "id")))
            ==> FindByField(cs, "id", Get(request.value.body, "id")) == Some(k)
                && cs[k := MergeUpdate(cs[k], request.value.body)] == cs)
  {
    var urls := UrlList(Get(copyright, "original_urls")).value;
    var values := FinishValues(EditFormValues(copyright).value);
    assert values.Some? <==> |urls| >= 1 by {
      JoinUrlsEmpty(urls);
      FinishAfterEdit(copyright);
    }
    if values.Some? {
      EditedRecordSubmit(copyright);
      EditedBodyMerge(copyright);
      if k < |cs| && cs[k] == copyright && ScalarId(copyright)
         && (forall i :: 0 <= i < |cs| && i != k ==> !StrictEquals(Get(cs[i], "id"), Get(copyright, "id"))) {
        StoreKeepsRecord(cs, k, SubmitRequest(Get(copyright, "id"), values.value).value.body);
      }
    }
  }

  /** The body an unchanged edit submits carries the record's id, and
      merging it into the record changes nothing. */
  lemma EditedBodyMerge(copyright: Obj)
    requires Truthy(Get(copyright, "id"))
    requires FilledString(Get(copyright, "title"))
    requires UrlList(Get(copyright, "original_urls")).Some?
    requires forall i :: 0 <= i < |UrlList(Get(copyright, "original_urls")).value| ==>
      WellFormedUrl(UrlList(Get(copyright, "original_urls")).value[i])
    requires |UrlList(Get(copyright, "original_urls")).value| >= 1
    ensures FinishValues(EditFormValues(copyright).value).Some?
    ensures SubmitRequest(Get(copyright, "id"), FinishValues(EditFormValues(copyright).value).value).Some?
    ensures var body := SubmitRequest(Get(copyright, "id"), FinishValues(EditFormValues(copyright).value).value).value.body;
      Get(body, "id") == Get(copyright, "id") && MergeUpdate(copyright, body) == copyright
  {
    EditedRecordSubmit(copyright);
    var body := map["title" := copyright["title"], "original_urls" := copyright["original_urls"],
                    "id" := copyright["id"]];
    MergeOfOwnValues(copyright, body);
  }

  /** Merging into the only record with a body's id a body that leaves
      that record as it was leaves the store as it was. */
  lemma StoreKeepsRecord(cs: seq<Obj>, k: nat, body: Obj)
    requires k < |cs| && Get(body, "id") == Get(cs[k], "id") && ScalarId(cs[k])
    requires forall i :: 0 <= i < |cs| && i != k ==> !StrictEquals(Get(cs[i], "id"), Get(cs[k], "id"))
    requires MergeUpdate(cs[k], body) == cs[k]
    ensures FindByField(cs, "id", Get(body, "id")) == Some(k)
    ensures cs[k := MergeUpdate(cs[k], body)] == cs
  {
    OnlyMatchFound(cs, "id", Get(cs[k], "id"), k);
  }

  /** An id that is strictly equal to itself: a string, number, boolean or
      `null`, as the server's generated ids are. */
  predicate ScalarId(rec: Obj) {
    StrictEquals(Get(rec, "id"), Get(rec, "id"))
  }

  /** The only strictly matching record is the one found. */
  lemma OnlyMatchFound(xs: seq<Obj>, key: string, v: Option<Json>, k: nat)
    requires k < |xs| && StrictEquals(Get(xs[k], key), v)
    requires forall i :: 0 <= i < |xs| && i != k ==> !StrictEquals(Get(xs[i], key), v)
    ensures FindByField(xs, key, v) == Some(k)
  {
  }

  /** Two records can share an id (two creates in one millisecond do).
      Editing the later one and submitting it unchanged then writes its
      title and URLs into the earlier one, which the server finds first,
      and the earlier record's own title is lost. */
  lemma EditOfLaterDuplicateOverwritesEarlier(a: Obj, b: Obj)
    requires Truthy(Get(b, "id")) && ScalarId(b)
    requires FilledString(Get(b, "title"))
    requires UrlList(Get(b, "original_urls")).Some?
    requires forall i :: 0 <= i < |UrlList(Get(b, "original_urls")).value| ==>
      WellFormedUrl(UrlList(Get(b, "original_urls")).value[i])
    requires |UrlList(Get(b, "original_urls")).value| >= 1
    requires Get(a, "id") == Get(b, "id") && Get(a, "title") != Get(b, "title")
    ensures FinishValues(EditFormValues(b).value).Some?
    ensures SubmitRequest(Get(b, "id"), FinishValues(EditFormValues(b).value).value).Some?
    ensures var body := SubmitRequest(Get(b, "id"), FinishValues(EditFormValues(b).value).value).value.body;
      && FindByField([a, b], "id", Get(body, "id")) == Some(0)
      && Get(MergeUpdate(a, body), "title") == Get(b, "title")
      && Get(MergeUpdate(a, body), "title") != Get(a, "title")
  {
    EditedRecordSubmit(b);
  }
}
