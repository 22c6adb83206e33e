/** `PUT /api/auth/update`: the bearer token check, then an update of the
    caller's own profile, with the current password demanded only when a new
    one is set. */
module AuthUpdate {
  import opened Options
  import opened JsText
  import opened JsonValues
  import opened Records
  import opened Users
  import opened AuthLogin

  /** What the token check yields: the `userId` claim, or the error. */
  datatype AuthResult = Authorized(userId: Option<Json>) | Rejected(message: string)

  /** `header?.replace("Bearer ", "")`: the first "Bearer " anywhere in the
      header is removed. A missing header gives no token, a header that
      starts with "Bearer " gives what follows, one with "Bearer " further
      in loses that first occurrence, and one without "Bearer " is the
      token as it is. */
  function BearerToken(header: Option<string>): (r: Option<string>)
    ensures r.None? <==> header.None?
    ensures header.Some? && "Bearer " <= header.value ==> r == Some(header.value[|"Bearer "|..])
    ensures header.Some? && IndexOf(header.value, "Bearer ").None? ==> r == header
    ensures header.Some? && IndexOf(header.value, "Bearer ").Some? ==>
      var i := IndexOf(header.value, "Bearer ").value;
      r == Some(header.value[..i] + header.value[i + |"Bearer "|..])
  {
    match header
    case None => None
    case Some(h) =>
      if "Bearer " <= h then
        var t := h[|"Bearer "|..];
        assert h == "Bearer " + t;
        ReplaceLeading("Bearer ", t, "");
        Some(ReplaceFirst(h, "Bearer ", ""))
      else
        Some(ReplaceFirst(h, "Bearer ", ""))
  }

  /** The token check. `verify` is `jwt.verify` with the server's secret,
      None when it throws. A missing header or an empty token is "No token
      provided"; a token that does not verify is "Invalid token". */
  function VerifyToken(header: Option<string>, verify: string -> Option<Obj>): (r: AuthResult)
    ensures (BearerToken(header).None? || BearerToken(header).value == "") <==>
      r == Rejected("No token provided")
    ensures BearerToken(header).Some? && BearerToken(header).value != "" ==>
      (r == Rejected("Invalid token") <==> verify(BearerToken(header).value).None?)
    ensures r.Authorized? ==> r.userId == Get(verify(BearerToken(header).value).value, "userId")
  {
    var token := BearerToken(header);
    if token.None? || token.value == "" then Rejected("No token provided")
    else
      match verify(token.value)
      case None => Rejected("Invalid token")
      case Some(decoded) => Authorized(Get(decoded, "userId"))
  }

  /** `a || b` on property values. */
  function Or(a: Option<Json>, b: Option<Json>): (r: Option<Json>)
    ensures Truthy(a) ==> r == a
    ensures !Truthy(a) ==> r == b
  {
    if Truthy(a) then a else b
  }

  /** The record the update stores: a falsy `name` or `email` keeps the
      stored one, a truthy `newPassword` is hashed in, `updated_at` is set
      and every other property is kept. */
  function ProfileUpdate(user: Obj, body: Obj, hash: string -> string, now: string): (r: Obj)
    requires !Truthy(Get(body, "newPassword")) || IsString(Get(body, "newPassword"))
    ensures Get(r, "name") == Or(Get(body, "name"), Get(user, "name"))
    ensures Get(r, "email") == Or(Get(body, "email"), Get(user, "email"))
    ensures Truthy(Get(body, "newPassword")) ==>
      Get(r, "password") == Some(JStr(hash(body["newPassword"].s)))
    ensures !Truthy(Get(body, "newPassword")) ==> Get(r, "password") == Get(user, "password")
    ensures Get(r, "updated_at") == Some(JStr(now))
    ensures forall k :: k !in {"name", "email", "password", "updated_at"} ==> Get(r, k) == Get(user, k)
  {
    var newPassword := Get(body, "newPassword");
    var password := if Truthy(newPassword) then Some(JStr(hash(newPassword.value.s)))
                    else Get(user, "password");
    Put(Put(Put(user, "name", Or(Get(body, "name"), Get(user, "name"))),
            "email", Or(Get(body, "email"), Get(user, "email"))),
        "password", password)["updated_at" := JStr(now)]
  }

  /** The current-password check: made only when a new password is set,
      None when `compare` throws. */
  function PasswordCheck(body: Obj, user: Obj, compare: (Option<Json>, Option<Json>) -> Option<bool>)
    : (r: Option<bool>)
    ensures !Truthy(Get(body, "newPassword")) ==> r == Some(true)
    ensures Truthy(Get(body, "newPassword")) ==> r == compare(Get(body, "currentPassword"), Get(user, "password"))
  {
    if Truthy(Get(body, "newPassword")) then compare(Get(body, "currentPassword"), Get(user, "password"))
    else Some(true)
  }

  /** The handler, over the same users document as `/api/users`. `compare`
      is `bcrypt.compare`, None when it throws; `hash` is `bcrypt.hash`. */
  method Update(store: UserStore, header: Option<string>, verify: string -> Option<Obj>, body: Obj,
                compare: (Option<Json>, Option<Json>) -> Option<bool>, hash: string -> string,
                now: string) returns (resp: Response)
    modifies store
    ensures VerifyToken(header, verify).Rejected? ==>
      resp == ErrorResponse(401, VerifyToken(header, verify).message) && store.users == old(store.users)
    ensures (VerifyToken(header, verify).Authorized? &&
             FindByField(old(store.users), "id", VerifyToken(header, verify).userId).None?) ==>
        resp == ErrorResponse(404, "User not found") && store.users == old(store.users)
    ensures (VerifyToken(header, verify).Authorized? &&
             FindByField(old(store.users), "id", VerifyToken(header, verify).userId).Some?) ==>
        var k := FindByField(old(store.users), "id", VerifyToken(header, verify).userId).value;
        var user := old(store.users)[k];
        var newPassword := Get(body, "newPassword");
        var check := PasswordCheck(body, user, compare);
        && (check.None? ==>
              resp == ErrorResponse(500, "Internal server error") && store.users == old(store.users))
        && (check == Some(false) ==>
              resp == ErrorResponse(401, "Current password is incorrect") && store.users == old(store.users))
        && (check == Some(true) && Truthy(newPassword) && !IsString(newPassword) ==>
              resp == ErrorResponse(500, "Internal server error") && store.users == old(store.users))
        && (check == Some(true) && !(Truthy(newPassword) && !IsString(newPassword)) ==>
              var updated := ProfileUpdate(user, body, hash, now);
              store.users == old(store.users)[k := updated]
              && resp == Response(200, JObj(WithoutPassword(updated))))
  {
    var authResult := VerifyToken(header, verify);
    if authResult.Rejected? {
      resp := ErrorResponse(401, authResult.message);
      return;
    }
    var userIndex := FindByField(store.users, "id", authResult.userId);
    if userIndex.None? {
      resp := ErrorResponse(404, "User not found");
      return;
    }
    var user := store.users[userIndex.value];
    var newPassword := Get(body, "newPassword");
    if Truthy(newPassword) {
      var isValidPassword := compare(Get(body, "currentPassword"), Get(user, "password"));
      if isValidPassword.None? {
        resp := ErrorResponse(500, "Internal server error");
        return;
      }
      if !isValidPassword.value {
        resp := ErrorResponse(401, "Current password is incorrect");
        return;
      }
      if !IsString(newPassword) {
        resp := ErrorResponse(500, "Internal server error");
        return;
      }
    }
    var updatedUser := ProfileUpdate(user, body, hash, now);
    store.users := store.users[userIndex.value := updatedUser];
    resp := Response(200, JObj(WithoutPassword(updatedUser)));
  }

  /** Unlike `PUT /api/users`, this update does not check that the new email
      is free: one user can take another's email. */
  lemma UpdateCanDuplicateEmail()
    ensures var users := [map["id" := JNum(1), "email" := JStr("a")],
                          map["id" := JNum(2), "email" := JStr("b")]];
            var updated := ProfileUpdate(users[0], map["email" := JStr("b")], s => s, "now");
            EmailsUnique(users) && !EmailsUnique(users[0 := updated])
  {
    var users := [map["id" := JNum(1), "email" := JStr("a")],
                  map["id" := JNum(2), "email" := JStr("b")]];
    var updated := ProfileUpdate(users[0], map["email" := JStr("b")], s => s, "now");
    assert Get(users[0], "email") != Get(users[1], "email");
    var after := users[0 := updated];
    assert Get(after[0], "email") == Some(JStr("b")) && after[1] == users[1];
  }

  /** A header `Bearer <token>` with a token that verifies is authorized
      with the token's `userId` claim. */
  lemma BearerHeaderAuthorizes(token: string, verify: string -> Option<Obj>)
    requires token != "" && verify(token).Some?
    ensures VerifyToken(Some("Bearer " + token), verify) == Authorized(Get(verify(token).value, "userId"))
  {
    ReplaceLeading("Bearer ", token, "");
    assert "" + token == token;
    assert BearerToken(Some("Bearer " + token)) == Some(token);
  }

  /** The token a login hands out, sent back as `Bearer <token>`, passes the
      check and names the user who logged in; the update then finds that
      user or one before it with the same id. */
  lemma LoginTokenAuthorizes(users: seq<Obj>, body: Obj,
                             compare: (Option<Json>, Option<Json>) -> Option<bool>,
                             sign: Obj -> string, verify: string -> Option<Obj>)
    requires Login(users, body, compare, sign).status == 200
    requires forall claims ::
      sign(claims) != "" && verify(sign(claims)).Some? &&
      Get(verify(sign(claims)).value, "userId") == Get(claims, "userId")
    ensures var k := FindByField(users, "email", Get(body, "email")).value;
      var token := Login(users, body, compare, sign).body.fields["token"].s;
      var auth := VerifyToken(Some("Bearer " + token), verify);
      && auth == Authorized(Get(users[k], "id"))
      && (StrictEquals(Get(users[k], "id"), Get(users[k], "id")) ==>
            FindByField(users, "id", auth.userId).Some?
            && FindByField(users, "id", auth.userId).value <= k)
  {
    var k := FindByField(users, "email", Get(body, "email")).value;
    LoginResponseShape(users, body, compare, sign);
    var claims := Claims(users[k]);
    var token := sign(claims);
    assert Login(users, body, compare, sign).body.fields["token"].s == token;
    assert sign(claims) != "" && verify(sign(claims)).Some?;
    BearerHeaderAuthorizes(token, verify);
    assert Get(claims, "userId") == Get(users[k], "id");
  }
}
