/** The user table of `POST/PUT/DELETE /api/users`: create with a unique
    email and the id `length + 1`, update found by id with an email check
    that excludes the user's own id, and delete by id. */
module Users {
  import opened Options
  import opened JsText
  import opened JsonValues
  import opened Records

  /** No two users carry strictly equal `email` values. */
  ghost predicate EmailsUnique(users: seq<Obj>) {
    forall i, j :: 0 <= i < j < |users| ==> !StrictEquals(Get(users[i], "email"), Get(users[j], "email"))
  }

  /** `users.some(user => user.email === email)`. */
  predicate EmailTaken(users: seq<Obj>, email: Option<Json>) {
    exists j :: 0 <= j < |users| && StrictEquals(Get(users[j], "email"), email)
  }

  /** `user.id === Number(userId)`; a NaN id matches no user. */
  predicate HasId(user: Obj, id: Option<int>) {
    id.Some? && StrictEquals(Get(user, "id"), Some(JNum(id.value)))
  }

  /** `users.findIndex(user => user.id === Number(userId))`. */
  function FindUser(users: seq<Obj>, id: Option<int>): (r: Option<nat>)
    ensures r.Some? ==> r.value < |users| && HasId(users[r.value], id)
    ensures r.Some? ==> forall j :: 0 <= j < r.value ==> !HasId(users[j], id)
    ensures r.None? ==> forall j :: 0 <= j < |users| ==> !HasId(users[j], id)
  {
    if id.None? then None else FindByField(users, "id", Some(JNum(id.value)))
  }

  /** `users.some(user => user.email === email && user.id !== Number(userId))`. */
  predicate EmailTakenByOther(users: seq<Obj>, email: Option<Json>, id: Option<int>) {
    exists j :: 0 <= j < |users| && StrictEquals(Get(users[j], "email"), email) && !HasId(users[j], id)
  }

  /** The record without its password, as every response sends it. */
  function WithoutPassword(user: Obj): (r: Obj)
    ensures "password" !in r
    ensures forall k :: k != "password" ==> Get(r, k) == Get(user, k)
  {
    user - {"password"}
  }

  /** bcrypt refuses to hash anything but a string. */
  predicate HashRejects(password: Option<Json>) {
    !IsString(password)
  }

  /** The user a successful POST appends. The two timestamps are two
      separate readings of the clock. */
  function NewUser(id: int, email: Option<Json>, passwordHash: string, name: Option<Json>,
                   role: Option<Json>, createdAt: string, updatedAt: string): (u: Obj)
    ensures Get(u, "id") == Some(JNum(id))
    ensures Get(u, "email") == email && Get(u, "name") == name && Get(u, "role") == role
    ensures Get(u, "password") == Some(JStr(passwordHash))
    ensures Get(u, "created_at") == Some(JStr(createdAt)) && Get(u, "updated_at") == Some(JStr(updatedAt))
    ensures forall k :: k !in {"id", "email", "password", "name", "role", "created_at", "updated_at"} ==> k !in u
  {
    var base := map["id" := JNum(id), "password" := JStr(passwordHash),
                    "created_at" := JStr(createdAt), "updated_at" := JStr(updatedAt)];
    var withEmail := Put(base, "email", email);
    var withName := Put(withEmail, "name", name);
    Put(withName, "role", role)
  }

  /** The record a successful PUT stores: `email`, `name`, `role` and
      `updated_at` overwritten from the body (an absent one is dropped), the
      password rehashed only when the body's password is truthy, and every
      other property kept. */
  function EditedUser(user: Obj, body: Obj, hash: string -> string, now: string): (r: Obj)
    requires !Truthy(Get(body, "password")) || IsString(Get(body, "password"))
    ensures Get(r, "email") == Get(body, "email")
    ensures Get(r, "name") == Get(body, "name")
    ensures Get(r, "role") == Get(body, "role")
    ensures Get(r, "updated_at") == Some(JStr(now))
    ensures Truthy(Get(body, "password")) ==> Get(r, "password") == Some(JStr(hash(body["password"].s)))
    ensures !Truthy(Get(body, "password")) ==> Get(r, "password") == Get(user, "password")
    ensures forall k :: k !in {"email", "name", "role", "updated_at", "password"} ==> Get(r, k) == Get(user, k)
  {
    var updated := Put(Put(Put(user, "email", Get(body, "email")), "name", Get(body, "name")),
                       "role", Get(body, "role"))["updated_at" := JStr(now)];
    if Truthy(Get(body, "password")) then updated["password" := JStr(hash(body["password"].s))]
    else updated
  }

  /** A POST appends a user whose email no one has, so uniqueness holds on. */
  lemma CreateKeepsEmailsUnique(users: seq<Obj>, user: Obj)
    requires EmailsUnique(users)
    requires !EmailTaken(users, Get(user, "email"))
    ensures EmailsUnique(users + [user])
  {
    var all := users + [user];
    forall i, j | 0 <= i < j < |all|
      ensures !StrictEquals(Get(all[i], "email"), Get(all[j], "email"))
    {
      if j == |users| {
        assert !StrictEquals(Get(users[i], "email"), Get(user, "email"));
      } else {
        assert all[i] == users[i] && all[j] == users[j];
      }
    }
  }

  /** A PUT that passes the email check keeps emails unique, provided no
      user other than the one found has the same id. */
  lemma UpdateKeepsEmailsUnique(users: seq<Obj>, id: Option<int>, updated: Obj)
    requires EmailsUnique(users)
    requires FindUser(users, id).Some?
    requires forall j :: 0 <= j < |users| && j != FindUser(users, id).value ==> !HasId(users[j], id)
    requires !EmailTakenByOther(users, Get(updated, "email"), id)
    ensures EmailsUnique(users[FindUser(users, id).value := updated])
  {
    var k := FindUser(users, id).value;
    var all := users[k := updated];
    forall i, j | 0 <= i < j < |all|
      ensures !StrictEquals(Get(all[i], "email"), Get(all[j], "email"))
    {
      if i == k {
        assert all[j] == users[j] && !HasId(users[j], id);
      } else if j == k {
        assert all[i] == users[i] && !HasId(users[i], id);
      }
    }
  }

  /** Ids are `length + 1`, so after a delete two users can share an id, and
      then a PUT whose email check passes can give two users one email. */
  lemma UpdateCanDuplicateEmailAfterIdCollision()
    ensures var users := [map["id" := JNum(2), "email" := JStr("b")],
                          map["id" := JNum(2), "email" := JStr("c")]];
            var body := map["email" := JStr("c")];
            var updated := EditedUser(users[0], body, s => s, "now");
            && EmailsUnique(users)
            && FindUser(users, Some(2)) == Some(0)
            && !EmailTakenByOther(users, Get(body, "email"), Some(2))
            && !EmailsUnique(users[0 := updated])
  {
    var users := [map["id" := JNum(2), "email" := JStr("b")],
                  map["id" := JNum(2), "email" := JStr("c")]];
    var body := map["email" := JStr("c")];
    var updated := EditedUser(users[0], body, s => s, "now");
    assert Get(users[0], "email") == Some(JStr("b"));
    assert Get(users[1], "email") == Some(JStr("c"));
    assert HasId(users[0], Some(2)) && HasId(users[1], Some(2));
    var after := users[0 := updated];
    assert Get(after[0], "email") == Some(JStr("c")) && after[1] == users[1];
  }

  /** The id a POST assigns is `length + 1`: once any user but the last is
      deleted from a table whose last user holds the id `length`, the next
      POST assigns an id that user still holds. */
  lemma CreateAfterDeleteRepeatsId(users: seq<Obj>, k: nat)
    requires k < |users| - 1
    requires HasId(users[|users| - 1], Some(|users|))
    ensures var after := RemoveAt(users, k);
      HasId(after[|after| - 1], Some(|after| + 1))
      && FindUser(after, Some(|after| + 1)).Some?
  {
    var after := RemoveAt(users, k);
    assert after[|after| - 1] == users[|users| - 1];
  }

  /** The users document, read and replaced whole by each request. */
  class UserStore {
    var users: seq<Obj>

    constructor (initial: seq<Obj>)
      ensures users == initial
    {
      users := initial;
    }

    /** `GET /api/users`: `{ users }`. */
    method List() returns (r: seq<Obj>)
      ensures r == users
    {
      r := users;
    }

    /** `POST /api/users`. A taken email gives 400; a password bcrypt cannot
        hash gives 500; otherwise one user with id `length + 1` and both
        timestamps is appended and returned without its password. The clock
        is read once for `created_at` and once more for `updated_at`. */
    method Create(body: Obj, hash: string -> string, createdAt: string, updatedAt: string)
      returns (resp: Response)
      modifies this
      ensures EmailTaken(old(users), Get(body, "email")) ==>
        resp == ErrorResponse(400, "Email already exists") && users == old(users)
      ensures !EmailTaken(old(users), Get(body, "email")) && HashRejects(Get(body, "password")) ==>
        resp == ErrorResponse(500, "Internal server error") && users == old(users)
      ensures !EmailTaken(old(users), Get(body, "email")) && !HashRejects(Get(body, "password")) ==>
        var user := NewUser(|old(users)| + 1, Get(body, "email"), hash(body["password"].s),
                            Get(body, "name"), Get(body, "role"), createdAt, updatedAt);
        users == old(users) + [user] && resp == Response(200, JObj(WithoutPassword(user)))
      ensures EmailsUnique(old(users)) ==> EmailsUnique(users)
    {
      var email := Get(body, "email");
      if EmailTaken(users, email) {
        resp := ErrorResponse(400, "Email already exists");
        return;
      }
      var password := Get(body, "password");
      if HashRejects(password) {
        resp := ErrorResponse(500, "Internal server error");
        return;
      }
      var hashed := hash(password.value.s);
      var newUser := NewUser(|users| + 1, email, hashed, Get(body, "name"), Get(body, "role"),
                             createdAt, updatedAt);
      if EmailsUnique(users) {
        CreateKeepsEmailsUnique(users, newUser);
      }
      users := users + [newUser];
      resp := Response(200, JObj(WithoutPassword(newUser)));
    }

    /** `PUT /api/users/<segment>`, where `segment` is the last path
        segment. An id that matches no user gives 404; an email held by a
        user with another id gives 400; a truthy password bcrypt cannot hash
        gives 500; otherwise only the user found changes. */
    method Update(segment: string, body: Obj, hash: string -> string, now: string)
      returns (resp: Response)
      modifies this
      ensures var id := StringToNumber(segment);
        FindUser(old(users), id).None? ==>
          resp == ErrorResponse(404, "User not found") && users == old(users)
      ensures var id := StringToNumber(segment);
        FindUser(old(users), id).Some? && EmailTakenByOther(old(users), Get(body, "email"), id) ==>
          resp == ErrorResponse(400, "Email already exists") && users == old(users)
      ensures var id := StringToNumber(segment);
        FindUser(old(users), id).Some? && !EmailTakenByOther(old(users), Get(body, "email"), id)
        && Truthy(Get(body, "password")) && HashRejects(Get(body, "password")) ==>
          resp == ErrorResponse(500, "Internal server error") && users == old(users)
      ensures var id := StringToNumber(segment);
        FindUser(old(users), id).Some? && !EmailTakenByOther(old(users), Get(body, "email"), id)
        && !(Truthy(Get(body, "password")) && HashRejects(Get(body, "password"))) ==>
          var k := FindUser(old(users), id).value;
          var user := EditedUser(old(users)[k], body, hash, now);
          users == old(users)[k := user] && resp == Response(200, JObj(WithoutPassword(user)))
    {
      var id := StringToNumber(segment);
      var userIndex := FindUser(users, id);
      if userIndex.None? {
        resp := ErrorResponse(404, "User not found");
        return;
      }
      if EmailTakenByOther(users, Get(body, "email"), id) {
        resp := ErrorResponse(400, "Email already exists");
        return;
      }
      var password := Get(body, "password");
      if Truthy(password) && HashRejects(password) {
        resp := ErrorResponse(500, "Internal server error");
        return;
      }
      var updatedUser := Put(Put(Put(users[userIndex.value], "email", Get(body, "email")),
                                 "name", Get(body, "name")), "role", Get(body, "role"))
                         ["updated_at" := JStr(now)];
      if Truthy(password) {
        updatedUser := updatedUser["password" := JStr(hash(password.value.s))];
      }
      users := users[userIndex.value := updatedUser];
      resp := Response(200, JObj(WithoutPassword(updatedUser)));
    }

    /** `DELETE /api/users/<segment>`: 404 when no user has the id, otherwise
        exactly the first such user is removed. */
    method Delete(segment: string) returns (resp: Response)
      modifies this
      ensures FindUser(old(users), StringToNumber(segment)).None? ==>
        resp == ErrorResponse(404, "User not found") && users == old(users)
      ensures FindUser(old(users), StringToNumber(segment)).Some? ==>
        && users == RemoveAt(old(users), FindUser(old(users), StringToNumber(segment)).value)
        && resp == Response(200, JObj(map["message" := JStr("User deleted successfully")]))
    {
      var userIndex := FindUser(users, StringToNumber(segment));
      if userIndex.None? {
        resp := ErrorResponse(404, "User not found");
        return;
      }
      users := RemoveAt(users, userIndex.value);
      resp := Response(200, JObj(map["message" := JStr("User deleted successfully")]));
    }
  }
}
