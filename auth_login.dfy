/** `POST /api/auth/login`: the first user with the given email, the
    password check, and the signed token with the public profile. An unknown
    email and a wrong password get the same answer. */
module AuthLogin {
  import opened Options
  import opened JsonValues
  import opened Records

  /** The claims signed into the token: id, email and role of the user. */
  function Claims(user: Obj): (c: Obj)
    ensures c.Keys <= {"userId", "email", "role"}
    ensures Get(c, "userId") == Get(user, "id")
    ensures Get(c, "email") == Get(user, "email")
    ensures Get(c, "role") == Get(user, "role")
  {
    Put(Put(Put(map[], "userId", Get(user, "id")), "email", Get(user, "email")), "role", Get(user, "role"))
  }

  /** The profile sent back: id, email, name and role, never the password. */
  function PublicProfile(user: Obj): (p: Obj)
    ensures p.Keys <= {"id", "email", "name", "role"}
    ensures forall k :: k in {"id", "email", "name", "role"} ==> Get(p, k) == Get(user, k)
  {
    Put(Put(Put(Put(map[], "id", Get(user, "id")), "email", Get(user, "email")),
            "name", Get(user, "name")), "role", Get(user, "role"))
  }

  const InvalidCredentials: Response := ErrorResponse(401, "Invalid email or password")

  /** The login handler. `compare` is `bcrypt.compareSync`, None when it
      throws (a password or hash that is not a string); `sign` is `jwt.sign`
      with the server's secret. */
  function Login(users: seq<Obj>, body: Obj, compare: (Option<Json>, Option<Json>) -> Option<bool>,
                 sign: Obj -> string): (r: Response)
    ensures r.status == 200 || r == InvalidCredentials || r == ErrorResponse(500, "Internal server error")
    ensures FindByField(users, "email", Get(body, "email")).None? ==> r == InvalidCredentials
    ensures var found := FindByField(users, "email", Get(body, "email"));
      found.Some? && compare(Get(body, "password"), Get(users[found.value], "password")) == Some(false) ==>
        r == InvalidCredentials
    ensures var found := FindByField(users, "email", Get(body, "email"));
      r == ErrorResponse(500, "Internal server error") <==>
        found.Some? && compare(Get(body, "password"), Get(users[found.value], "password")) == None
  {
    match FindByField(users, "email", Get(body, "email"))
    case None => InvalidCredentials
    case Some(k) =>
      match compare(Get(body, "password"), Get(users[k], "password"))
      case None => ErrorResponse(500, "Internal server error")
      case Some(valid) =>
        if !valid then InvalidCredentials
        else
          Response(200, JObj(map["token" := JStr(sign(Claims(users[k]))),
                                 "user" := JObj(PublicProfile(users[k]))]))
  }

  /** A login succeeds exactly when the first user with the email has a
      password that matches. */
  lemma LoginSucceedsExactly(users: seq<Obj>, body: Obj,
                             compare: (Option<Json>, Option<Json>) -> Option<bool>, sign: Obj -> string)
    ensures Login(users, body, compare, sign).status == 200 <==>
      exists k :: 0 <= k < |users|
        && StrictEquals(Get(users[k], "email"), Get(body, "email"))
        && (forall j :: 0 <= j < k ==> !StrictEquals(Get(users[j], "email"), Get(body, "email")))
        && compare(Get(body, "password"), Get(users[k], "password")) == Some(true)
  {
    var found := FindByField(users, "email", Get(body, "email"));
    if found.Some? {
      var k := found.value;
      forall k' | 0 <= k' < |users|
        && StrictEquals(Get(users[k'], "email"), Get(body, "email"))
        && (forall j :: 0 <= j < k' ==> !StrictEquals(Get(users[j], "email"), Get(body, "email")))
        ensures k' == k
      {
        if k' < k {
          assert false;
        } else if k < k' {
          assert false;
        }
      }
    }
  }

  /** An unknown email and a wrong password cannot be told apart. */
  lemma UnknownEmailLooksLikeWrongPassword(users: seq<Obj>, body: Obj, other: Obj,
                                           compare: (Option<Json>, Option<Json>) -> Option<bool>,
                                           sign: Obj -> string)
    requires forall j :: 0 <= j < |users| ==> !StrictEquals(Get(users[j], "email"), Get(body, "email"))
    requires FindByField(users, "email", Get(other, "email")).Some?
    requires compare(Get(other, "password"),
                     Get(users[FindByField(users, "email", Get(other, "email")).value], "password")) == Some(false)
    ensures Login(users, body, compare, sign) == Login(users, other, compare, sign) == InvalidCredentials
  {
    assert FindByField(users, "email", Get(body, "email")).None?;
  }

  /** A successful login answers with the token signed over the user's
      claims and the user's public profile, and nothing else. */
  lemma LoginResponseShape(users: seq<Obj>, body: Obj,
                           compare: (Option<Json>, Option<Json>) -> Option<bool>, sign: Obj -> string)
    requires Login(users, body, compare, sign).status == 200
    ensures var k := FindByField(users, "email", Get(body, "email")).value;
      var r := Login(users, body, compare, sign);
      && r.body.JObj? && r.body.fields.Keys == {"token", "user"}
      && r.body.fields["token"] == JStr(sign(Claims(users[k])))
      && r.body.fields["user"] == JObj(PublicProfile(users[k]))
      && "password" !in PublicProfile(users[k])
  {
  }
}
