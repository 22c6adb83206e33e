/** The trademark list of `/api/trademarks`: ids one above the largest
    numeric id, updates that merge the body into the record, deletes by id. */
module Trademarks {
  import opened Options
  import opened JsText
  import opened JsonValues
  import opened Records

  /** `Number(t.id)` of one record. */
  function IdNumber(t: Obj): Option<int> {
    ToNumber(Get(t, "id"))
  }

  /** `Math.max(...ts.map(t => Number(t.id)), 0)`: NaN (None) as soon as one
      id is not a number, otherwise the largest id, and never below 0. */
  function MaxId(ts: seq<Obj>): (r: Option<int>)
    ensures r.Some? <==> forall i :: 0 <= i < |ts| ==> IdNumber(ts[i]).Some?
    ensures r.Some? ==> r.value >= 0
    ensures r.Some? ==> forall i :: 0 <= i < |ts| ==> IdNumber(ts[i]).value <= r.value
    ensures r.Some? ==> r.value == 0 || exists i :: 0 <= i < |ts| && IdNumber(ts[i]) == r
  {
    MaxOf(Ids(ts))
  }

  /** `ts.map(t => Number(t.id))`. */
  function Ids(ts: seq<Obj>): (r: seq<Option<int>>)
    ensures |r| == |ts| && forall i :: 0 <= i < |ts| ==> r[i] == IdNumber(ts[i])
  {
    if ts == [] then [] else [IdNumber(ts[0])] + Ids(ts[1..])
  }

  /** The `Math.max` of a list of numbers and 0, NaN (None) when one of
      them is NaN. */
  function MaxOf(ns: seq<Option<int>>): (r: Option<int>)
    ensures r.Some? <==> forall i :: 0 <= i < |ns| ==> ns[i].Some?
    ensures r.Some? ==> r.value >= 0
    ensures r.Some? ==> forall i :: 0 <= i < |ns| ==> ns[i].value <= r.value
    ensures r.Some? ==> r.value == 0 || exists i :: 0 <= i < |ns| && ns[i] == r
  {
    if ns == [] then Some(0)
    else
      var rest := MaxOf(ns[1..]);
      var first := ns[0];
      if first.None? || rest.None? then
        assert rest.None? ==> exists i :: 1 <= i < |ns| && ns[i].None? by {
          if rest.None? {
            var i :| 0 <= i < |ns[1..]| && ns[1..][i].None?;
            assert ns[i + 1].None?;
          }
        }
        None
      else
        var m := if first.value > rest.value then first.value else rest.value;
        assert forall i :: 1 <= i < |ns| ==> ns[i] == ns[1..][i - 1];
        assert m != 0 && m == rest.value ==> exists i :: 0 <= i < |ns| && ns[i] == Some(m) by {
          if m != 0 && m == rest.value {
            var i :| 0 <= i < |ns[1..]| && ns[1..][i] == rest;
            assert ns[i + 1] == Some(m);
          }
        }
        Some(m)
  }

  /** `String(max + 1)`; "NaN" when the maximum is NaN. Otherwise the id
      reads back as one more than the largest id. */
  function NewTrademarkId(ts: seq<Obj>): (r: string)
    ensures MaxId(ts).None? ==> r == "NaN"
    ensures MaxId(ts).Some? ==> StringToNumber(r) == Some(MaxId(ts).value + 1)
  {
    NextId(MaxId(ts))
  }

  /** `String(max + 1)` for a maximum that is NaN or at least 0. */
  function NextId(max: Option<int>): (r: string)
    requires max.Some? ==> max.value >= 0
    ensures max.None? ==> r == "NaN"
    ensures max.Some? ==> StringToNumber(r) == Some(max.value + 1)
  {
    match max
    case None => "NaN"
    case Some(m) => NumberOfDecimal(m + 1); Decimal(m + 1)
  }

  /** The record a POST appends: `{ id: newId, ...body, created_at }`, so an
      `id` in the body wins over the generated one. */
  function NewTrademark(ts: seq<Obj>, body: Obj, now: string): (r: Obj)
    ensures Get(r, "id") == (if "id" in body then Some(body["id"]) else Some(JStr(NewTrademarkId(ts))))
    ensures Get(r, "created_at") == Some(JStr(now))
    ensures forall k :: k != "id" && k != "created_at" ==> Get(r, k) == Get(body, k)
  {
    (map["id" := JStr(NewTrademarkId(ts))] + body)["created_at" := JStr(now)]
  }

  /** When every id is numeric, the generated id is held by no record. */
  lemma NewIdFresh(ts: seq<Obj>)
    requires MaxId(ts).Some?
    ensures forall i :: 0 <= i < |ts| ==> !StrictEquals(Get(ts[i], "id"), Some(JStr(NewTrademarkId(ts))))
  {
    var m := MaxId(ts).value;
    NumberOfDecimal(m + 1);
  }

  /** The record created without an `id` in the body is the one a later
      lookup by its id finds. */
  lemma CreatedTrademarkFound(ts: seq<Obj>, body: Obj, now: string)
    requires MaxId(ts).Some? && "id" !in body
    ensures var rec := NewTrademark(ts, body, now);
      FindByField(ts + [rec], "id", Get(rec, "id")) == Some(|ts|)
  {
    NewIdFresh(ts);
    var rec := NewTrademark(ts, body, now);
    FindAppended(ts, rec, "id", Get(rec, "id"));
  }

  /** The largest id of a list of one record with a non-negative numeric id is that id. */
  lemma MaxOfOne(t: Obj, n: nat)
    requires IdNumber(t) == Some(n)
    ensures MaxId([t]) == Some(n)
  {
    assert Ids([t]) == [Some(n)] by { assert [t][1..] == []; }
    MaxOfSingle(n);
  }

  /** The `Math.max` of one non-negative number and 0 is that number. */
  lemma MaxOfSingle(n: nat)
    ensures MaxOf([Some(n)]) == Some(n)
  {
    assert [Some(n)][1..] == [];
  }

  /** An id that is an array with no items counts as 0, so the next id is "1". */
  lemma EmptyArrayIdCounts(t: Obj)
    requires Get(t, "id").Some? && Get(t, "id").value.JArr? && |Get(t, "id").value.items| == 0
    ensures NewTrademarkId([t]) == "1"
  {
    EmptyArrayIdNumber(t);
    MaxOfOne(t, 0);
    SmallDecimals();
  }

  /** The number of an id that is an empty array. */
  lemma EmptyArrayIdNumber(t: Obj)
    requires Get(t, "id") == Some(JArr([]))
    ensures IdNumber(t) == Some(0)
  {
    ArrayToNumber("7");
  }

  /** An id that is the array `["7"]` counts as 7, so the next id is "8". */
  lemma StringArrayIdCounts(t: Obj)
    requires Get(t, "id") == Some(JArr([JStr("7")]))
    ensures NewTrademarkId([t]) == "8"
  {
    ArrayToNumber("7");
    MaxOfOne(t, 7);
    SmallDecimals();
  }

  /** The decimal strings of 1 and 8. */
  lemma SmallDecimals()
    ensures Decimal(1) == "1" && Decimal(8) == "8"
  {
  }

  /** One id that is not a number makes every later id "NaN": two creates
      then give two records the same id. */
  lemma NaNIdRepeats(ts: seq<Obj>, rec: Obj)
    requires exists i :: 0 <= i < |ts| && IdNumber(ts[i]).None?
    ensures NewTrademarkId(ts) == "NaN"
    ensures NewTrademarkId(ts + [rec]) == "NaN"
  {
    var i :| 0 <= i < |ts| && IdNumber(ts[i]).None?;
    assert (ts + [rec])[i] == ts[i];
  }

  /** The trademarks document, read and replaced whole by each request. */
  class TrademarkStore {
    var trademarks: seq<Obj>

    constructor (initial: seq<Obj>)
      ensures trademarks == initial
    {
      trademarks := initial;
    }

    /** `GET /api/trademarks`: the list as it is. */
    method List() returns (r: seq<Obj>)
      ensures r == trademarks
    {
      r := trademarks;
    }

    /** `POST /api/trademarks`: exactly one record is appended and returned. */
    method Create(body: Obj, now: string) returns (resp: Response)
      modifies this
      ensures trademarks == old(trademarks) + [NewTrademark(old(trademarks), body, now)]
      ensures resp == Response(200, JObj(NewTrademark(old(trademarks), body, now)))
    {
      var newTrademark := NewTrademark(trademarks, body, now);
      trademarks := trademarks + [newTrademark];
      resp := Response(200, JObj(newTrademark));
    }

    /** `PUT /api/trademarks`: the first record whose id is strictly equal
        to the body's gets the rest of the body merged in; 404 when there is
        none. Every id stays where it was. */
    method Update(body: Obj) returns (resp: Response)
      modifies this
      ensures FindByField(old(trademarks), "id", Get(body, "id")).None? ==>
        resp == ErrorResponse(404, "Trademark not found") && trademarks == old(trademarks)
      ensures FindByField(old(trademarks), "id", Get(body, "id")).Some? ==>
        var k := FindByField(old(trademarks), "id", Get(body, "id")).value;
        && trademarks == old(trademarks)[k := MergeUpdate(old(trademarks)[k], body)]
        && resp == Response(200, JObj(trademarks[k]))
      ensures |trademarks| == |old(trademarks)|
      ensures forall i :: 0 <= i < |trademarks| ==> Get(trademarks[i], "id") == Get(old(trademarks)[i], "id")
    {
      var index := FindByField(trademarks, "id", Get(body, "id"));
      if index.None? {
        resp := ErrorResponse(404, "Trademark not found");
        return;
      }
      trademarks := trademarks[index.value := MergeUpdate(trademarks[index.value], body)];
      resp := Response(200, JObj(trademarks[index.value]));
    }

    /** `DELETE /api/trademarks`: the first record with the body's id is
        removed; 404 when there is none. */
    method Delete(body: Obj) returns (resp: Response)
      modifies this
      ensures FindByField(old(trademarks), "id", Get(body, "id")).None? ==>
        resp == ErrorResponse(404, "Trademark not found") && trademarks == old(trademarks)
      ensures FindByField(old(trademarks), "id", Get(body, "id")).Some? ==>
        && trademarks == RemoveAt(old(trademarks), FindByField(old(trademarks), "id", Get(body, "id")).value)
        && resp == Response(200, JObj(map["success" := JBool(true)]))
    {
      var index := FindByField(trademarks, "id", Get(body, "id"));
      if index.None? {
        resp := ErrorResponse(404, "Trademark not found");
        return;
      }
      trademarks := RemoveAt(trademarks, index.value);
      resp := Response(200, JObj(map["success" := JBool(true)]));
    }
  }
}
