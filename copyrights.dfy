/** The copyright list of `/api/copyrights`: ids taken from the clock,
    updates that merge the body into the record, deletes by id. */
module Copyrights {
  import opened Options
  import opened JsText
  import opened JsonValues
  import opened Records

  /** The record a POST appends: `{ ...body, id: String(Date.now()),
      created_at }`, so the generated id wins over one in the body. */
  function NewCopyright(body: Obj, nowMs: nat, now: string): (r: Obj)
    ensures Get(r, "id") == Some(JStr(Decimal(nowMs)))
    ensures Get(r, "created_at") == Some(JStr(now))
    ensures forall k :: k != "id" && k != "created_at" ==> Get(r, k) == Get(body, k)
  {
    body["id" := JStr(Decimal(nowMs))]["created_at" := JStr(now)]
  }

  /** A clock reading above every stored numeric id gives an id that no
      record holds. */
  lemma NewIdFresh(cs: seq<Obj>, body: Obj, nowMs: nat, now: string)
    requires forall i :: 0 <= i < |cs| ==>
      ToNumber(Get(cs[i], "id")).None? || ToNumber(Get(cs[i], "id")).value < nowMs
    ensures forall i :: 0 <= i < |cs| ==>
      !StrictEquals(Get(cs[i], "id"), Get(NewCopyright(body, nowMs, now), "id"))
  {
    NumberOfDecimal(nowMs);
  }

  /** Two creates in the same millisecond give two records one id. */
  lemma SameMillisecondRepeatsId(a: Obj, b: Obj, nowMs: nat, now: string)
    ensures StrictEquals(Get(NewCopyright(a, nowMs, now), "id"), Get(NewCopyright(b, nowMs, now), "id"))
  {
  }

  /** The copyrights document, read and replaced whole by each request. */
  class CopyrightStore {
    var copyrights: seq<Obj>

    constructor (initial: seq<Obj>)
      ensures copyrights == initial
    {
      copyrights := initial;
    }

    /** `GET /api/copyrights`: the list as it is. */
    method List() returns (r: seq<Obj>)
      ensures r == copyrights
    {
      r := copyrights;
    }

    /** `POST /api/copyrights`: exactly one record is appended and returned. */
    method Create(body: Obj, nowMs: nat, now: string) returns (resp: Response)
      modifies this
      ensures copyrights == old(copyrights) + [NewCopyright(body, nowMs, now)]
      ensures resp == Response(200, JObj(NewCopyright(body, nowMs, now)))
    {
      var newCopyright := NewCopyright(body, nowMs, now);
      copyrights := copyrights + [newCopyright];
      resp := Response(200, JObj(newCopyright));
    }

    /** `PUT /api/copyrights`: the first record whose id is strictly equal
        to the body's gets the rest of the body merged in; 404 when there is
        none. Every id stays where it was. */
    method Update(body: Obj) returns (resp: Response)
      modifies this
      ensures FindByField(old(copyrights), "id", Get(body, "id")).None? ==>
        resp == ErrorResponse(404, "Copyright not found") && copyrights == old(copyrights)
      ensures FindByField(old(copyrights), "id", Get(body, "id")).Some? ==>
        var k := FindByField(old(copyrights), "id", Get(body, "id")).value;
        && copyrights == old(copyrights)[k := MergeUpdate(old(copyrights)[k], body)]
        && resp == Response(200, JObj(copyrights[k]))
      ensures |copyrights| == |old(copyrights)|
      ensures forall i :: 0 <= i < |copyrights| ==> Get(copyrights[i], "id") == Get(old(copyrights)[i], "id")
    {
      var index := FindByField(copyrights, "id", Get(body, "id"));
      if index.None? {
        resp := ErrorResponse(404, "Copyright not found");
        return;
      }
      copyrights := copyrights[index.value := MergeUpdate(copyrights[index.value], body)];
      resp := Response(200, JObj(copyrights[index.value]));
    }

    /** `DELETE /api/copyrights`: the first record with the body's id is
        removed; 404 when there is none. */
    method Delete(body: Obj) returns (resp: Response)
      modifies this
      ensures FindByField(old(copyrights), "id", Get(body, "id")).None? ==>
        resp == ErrorResponse(404, "Copyright not found") && copyrights == old(copyrights)
      ensures FindByField(old(copyrights), "id", Get(body, "id")).Some? ==>
        && copyrights == RemoveAt(old(copyrights), FindByField(old(copyrights), "id", Get(body, "id")).value)
        && resp == Response(200, JObj(map["success" := JBool(true)]))
    {
      var index := FindByField(copyrights, "id", Get(body, "id"));
      if index.None? {
        resp := ErrorResponse(404, "Copyright not found");
        return;
      }
      copyrights := RemoveAt(copyrights, index.value);
      resp := Response(200, JObj(map["success" := JBool(true)]));
    }
  }
}
