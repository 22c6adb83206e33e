/** JSON values as the route handlers see them after `JSON.parse`, and the
    JavaScript operations the handlers apply to them: property access,
    object spread, truthiness, strict equality and `Number(...)`. */
module JsonValues {
  import opened Options
  import opened JsText

  /** A JSON value. Numbers are integers in this model. */
  datatype Json =
    | JNull
    | JBool(b: bool)
    | JNum(n: int)
    | JStr(s: string)
    | JArr(items: seq<Json>)
    | JObj(fields: map<string, Json>)

  /** A JSON object: one record of a backing document, or a request body. */
  type Obj = map<string, Json>

  /** `o.k`; None is `undefined`. */
  function Get(o: Obj, k: string): Option<Json> {
    if k in o then Some(o[k]) else None
  }

  /** `{...o, k: v}` as it is stored: JSON has no `undefined`, so an
      undefined value leaves the key out. */
  function Put(o: Obj, k: string, v: Option<Json>): (r: Obj)
    ensures Get(r, k) == v
    ensures forall j :: j != k ==> Get(r, j) == Get(o, j)
  {
    match v
    case Some(x) => o[k := x]
    case None => o - {k}
  }

  /** Reading a property after setting one. */
  lemma GetUpdated(o: Obj, k: string, v: Json)
    ensures Get(o[k := v], k) == Some(v)
    ensures forall j :: j != k ==> Get(o[k := v], j) == Get(o, j)
  {
  }

  /** The falsy property values JSON can produce: `undefined`, `null`,
      `false`, `0` and the empty string. */
  const Falsy: set<Option<Json>> := {None, Some(JNull), Some(JBool(false)), Some(JNum(0)), Some(JStr(""))}

  /** JavaScript truthiness of a property value: every value but the
      falsy ones, so arrays and objects, even empty ones, are truthy. */
  predicate Truthy(v: Option<Json>): (r: bool)
    ensures r <==> v !in Falsy
  {
    match v
    case None => false
    case Some(j) =>
      match j
      case JNull => false
      case JBool(b) => b
      case JNum(n) => n != 0
      case JStr(s) => s != ""
      case _ => true
  }

  /** `a === b` on values that came out of `JSON.parse`: scalars compare by
      value, `undefined === undefined`, and two arrays or objects are never
      the same reference. */
  predicate StrictEquals(a: Option<Json>, b: Option<Json>) {
    a == b && !(a.Some? && (a.value.JArr? || a.value.JObj?))
  }

  /** Strict equality holds only between equal values; undefined and
      scalars equal to themselves are strictly equal, and an array or an
      object is strictly equal to nothing read from JSON, not even itself. */
  lemma StrictEqualsByValue(a: Option<Json>, b: Option<Json>)
    ensures StrictEquals(a, b) ==> a == b
    ensures a == b && (a.None? || a.value.JNull? || a.value.JBool? || a.value.JNum? || a.value.JStr?) ==>
      StrictEquals(a, b)
    ensures a.Some? && (a.value.JArr? || a.value.JObj?) ==> !StrictEquals(a, b)
  {
  }

  /** `String(n)` for an integer; `Number` reads it back as `n`. */
  function IntString(n: int): (r: string)
    ensures r != "" && (IsDigitIn(r[0], 10) || r[0] == '-')
    ensures StringToNumber(r) == Some(n)
  {
    if n < 0 then
      var m: nat := -n;
      NumberOfNegative(m);
      assert -(m as int) == n;
      "-" + Decimal(m)
    else
      NumberOfDecimal(n);
      Decimal(n)
  }

  /** `String(j)`: an array is the join with "," of its items' strings,
      with `null` items written as empty, and a plain object is
      "[object Object]". A number's string reads back as the number, a
      string is itself, and an array of one string is that string. */
  function JsString(j: Json): (r: string)
    ensures j.JNum? ==> StringToNumber(r) == Some(j.n)
    ensures j.JStr? ==> r == j.s
    ensures j.JArr? && |j.items| == 1 && j.items[0].JStr? ==> r == j.items[0].s
  {
    match j
    case JNull => "null"
    case JBool(b) => if b then "true" else "false"
    case JNum(n) => IntString(n)
    case JStr(s) => s
    case JArr(items) =>
      Join(seq(|items|, i requires 0 <= i < |items| => if items[i] == JNull then "" else JsString(items[i])), ",")
    case JObj(_) => "[object Object]"
  }

  /** The property key `o[v]` looks up: the string of `v`, and "undefined"
      when `v` is undefined. */
  function PropertyKey(v: Option<Json>): string {
    match v
    case None => "undefined"
    case Some(j) => JsString(j)
  }

  /** `Number(v)`; None is NaN. An array or object is first turned into its
      string, so `Number([])` is 0 and `Number(["7"])` is 7. */
  function ToNumber(v: Option<Json>): (r: Option<int>)
    ensures v.None? ==> r.None?
    ensures v.Some? && !v.value.JNull? && !v.value.JBool? ==> r == StringToNumber(JsString(v.value))
  {
    match v
    case None => None
    case Some(j) =>
      match j
      case JNull => Some(0)
      case JBool(b) => Some(if b then 1 else 0)
      case JNum(n) => Some(n)
      case JStr(s) => StringToNumber(s)
      case _ => StringToNumber(JsString(j))
  }

  /** An array converts to a number through its string: the empty array is
      0 and a one-string array is the number of that string, so `["7"]` is 7. */
  lemma ArrayToNumber(s: string)
    ensures ToNumber(Some(JArr([]))) == Some(0)
    ensures ToNumber(Some(JArr([JStr(s)]))) == StringToNumber(s)
    ensures ToNumber(Some(JArr([JStr("7")]))) == Some(7)
  {
    assert JsString(JArr([])) == "";
    assert JsString(JArr([JStr(s)])) == s;
    assert JsString(JArr([JStr("7")])) == "7";
    assert Decimal(7) == "7";
    NumberOfDecimal(7);
  }

  /** A plain object converts to NaN. */
  lemma ObjectToNumber(fields: map<string, Json>)
    ensures ToNumber(Some(JObj(fields))) == None
  {
    var t := "[object Object]";
    assert JsString(JObj(fields)) == t;
    assert IsTrimmed(t);
    assert Trim(t) == t;
    assert !IsDigitIn(t[0], 10);
    assert SignedDecimal(t) == None;
  }

  /** A string property value, if the value is a string. */
  predicate IsString(v: Option<Json>) {
    v.Some? && v.value.JStr?
  }
}

/** The array operations the handlers share: `findIndex` over a property,
    `splice(i, 1)`, the merge of an update body, and the JSON responses. */
module Records {
  import opened Options
  import opened JsonValues

  /** `xs.findIndex(x => x[key] === v)`, with -1 as None: the first record
      whose property is strictly equal to `v`. */
  function FindByField(xs: seq<Obj>, key: string, v: Option<Json>): (r: Option<nat>)
    ensures r.Some? ==> r.value < |xs| && StrictEquals(Get(xs[r.value], key), v)
    ensures r.Some? ==> forall j :: 0 <= j < r.value ==> !StrictEquals(Get(xs[j], key), v)
    ensures r.None? ==> forall j :: 0 <= j < |xs| ==> !StrictEquals(Get(xs[j], key), v)
  {
    if |xs| == 0 then None
    else if StrictEquals(Get(xs[0], key), v) then Some(0)
    else
      match FindByField(xs[1..], key, v)
      case None => None
      case Some(i) => Some(i + 1)
  }

  /** A record appended after records that do not match is the one found. */
  lemma FindAppended(xs: seq<Obj>, x: Obj, key: string, v: Option<Json>)
    requires forall j :: 0 <= j < |xs| ==> !StrictEquals(Get(xs[j], key), v)
    requires StrictEquals(Get(x, key), v)
    ensures FindByField(xs + [x], key, v) == Some(|xs|)
  {
    var all := xs + [x];
    assert forall j :: 0 <= j < |xs| ==> all[j] == xs[j];
    assert all[|xs|] == x;
  }

  /** `xs.splice(i, 1)`: exactly element `i` is gone and the others keep
      their order. */
  function RemoveAt<T>(xs: seq<T>, i: nat): (r: seq<T>)
    requires i < |xs|
    ensures |r| == |xs| - 1
    ensures forall j :: 0 <= j < i ==> r[j] == xs[j]
    ensures forall j :: i <= j < |r| ==> r[j] == xs[j + 1]
    ensures multiset(r) + multiset{xs[i]} == multiset(xs)
  {
    assert xs == xs[..i] + [xs[i]] + xs[i + 1..];
    xs[..i] + xs[i + 1..]
  }

  /** `{...rec, ...updateData}` where `{id, ...updateData} = body`: every
      property of the body except `id` overrides the record's, and the
      record keeps its own `id` and every property the body lacks. */
  function MergeUpdate(rec: Obj, body: Obj): (r: Obj)
    ensures Get(r, "id") == Get(rec, "id")
    ensures forall k :: k != "id" && k in body ==> Get(r, k) == Get(body, k)
    ensures forall k :: k !in body ==> Get(r, k) == Get(rec, k)
  {
    rec + (body - {"id"})
  }

  /** An HTTP response: a status code and a JSON body. */
  datatype Response = Response(status: int, body: Json)

  /** `NextResponse.json({ error: message }, { status })`. */
  function ErrorResponse(status: int, message: string): Response {
    Response(status, JObj(map["error" := JStr(message)]))
  }
}
