/** The user routes: registration appends a row, login looks up the first
    row with the given name and password and hands its id back as the
    session cookie. */
module Users {
  import opened Http
  import opened Schema
  import opened Tables

  /** The validated body of a register or login request. */
  datatype Credentials = Credentials(name: string, password: string)

  /** `{ name: string, password: string }` */
  const CredentialsShape: Shape := [("name", KString), ("password", KString)]

  /** Validates a register or login body and extracts its two fields. */
  function ParseCredentials(body: Json): (r: Parsed<Credentials>)
    ensures r.Valid? <==> Conforms(body, CredentialsShape)
    ensures r.Valid? ==>
      && body.JObject?
      && "name" in body.fields && body.fields["name"] == JString(r.value.name)
      && "password" in body.fields && body.fields["password"] == JString(r.value.password)
    ensures r.Invalid? ==> r.issues != [] && r.issues == Issues(body, CredentialsShape)
  {
    var issues := Issues(body, CredentialsShape);
    if issues != [] then Invalid(issues)
    else
      assert FieldOk(body.fields, CredentialsShape[0]);
      assert FieldOk(body.fields, CredentialsShape[1]);
      Valid(Credentials(body.fields["name"].s, body.fields["password"].s))
  }

  /** The session cookie set on a successful login. */
  datatype Cookie = Cookie(name: string, value: string, path: string, maxAge: nat)

  const SessionCookieName: string := "userId"
  const SessionCookiePath: string := "/"
  /** Seven days, written in milliseconds. */
  const SessionMaxAge: nat := 1000 * 60 * 60 * 24 * 7

  function SessionCookie(userId: string): (c: Cookie)
    ensures c.name == "userId" && c.value == userId && c.path == "/"
    ensures c.maxAge == 604800000 && c.maxAge == 7 * 24 * 3600 * 1000
  {
    Cookie(SessionCookieName, userId, SessionCookiePath, SessionMaxAge)
  }

  /** The `where({ name, password })` filter of login: exact, case-sensitive
      equality of both fields. */
  predicate HasCredentials(u: User, name: string, password: string) {
    u.name == name && u.password == password
  }

  predicate NoUserWith(users: seq<User>, name: string, password: string) {
    forall k :: 0 <= k < |users| ==> !HasCredentials(users[k], name, password)
  }

  /** `.first()` of the login filter: the index of the first matching row. */
  function FirstUser(users: seq<User>, name: string, password: string): (r: Option<nat>)
    ensures r.Some? ==>
      && r.value < |users|
      && HasCredentials(users[r.value], name, password)
      && forall k :: 0 <= k < r.value ==> !HasCredentials(users[k], name, password)
    ensures r.None? <==> NoUserWith(users, name, password)
  {
    FirstUserFrom(users, name, password, 0)
  }

  function FirstUserFrom(users: seq<User>, name: string, password: string, from: nat): (r: Option<nat>)
    requires from <= |users|
    requires forall k :: 0 <= k < from ==> !HasCredentials(users[k], name, password)
    ensures r.Some? ==>
      && from <= r.value < |users|
      && HasCredentials(users[r.value], name, password)
      && forall k :: 0 <= k < r.value ==> !HasCredentials(users[k], name, password)
    ensures r.None? <==> NoUserWith(users, name, password)
    decreases |users| - from
  {
    if from == |users| then None
    else if HasCredentials(users[from], name, password) then Some(from)
    else FirstUserFrom(users, name, password, from + 1)
  }

  /** POST `/users`: validate the body, then append one user with the
      generated id `freshId` and the store's timestamp `now`; names need not
      be unique. Reply 201. */
  function Register(users: seq<User>, body: Json, freshId: string, now: string): (s: Step<User, ()>)
    requires FreshUserId(users, freshId)
    ensures !Conforms(body, CredentialsShape) ==>
      s.reply == Rejected(Issues(body, CredentialsShape)) && s.table == users
    ensures Conforms(body, CredentialsShape) ==>
      var c := ParseCredentials(body).value;
      && s.reply == Reply(StatusCreated, None)
      && s.table == users + [User(freshId, c.name, c.password, now)]
  {
    match ParseCredentials(body)
    case Invalid(issues) => Step(Rejected(issues), users)
    case Valid(c) => Step(Reply(StatusCreated, None), users + [User(freshId, c.name, c.password, now)])
  }

  /** POST `/users/login`: validate the body; if some row has exactly that
      name and password, reply 201 with the session cookie holding the first
      such row's id, otherwise 404 without a cookie. The reply carries no
      table: login only reads. */
  function Login(users: seq<User>, body: Json): (r: Reply<Cookie>)
    ensures !Conforms(body, CredentialsShape) ==> r == Rejected(Issues(body, CredentialsShape))
    ensures Conforms(body, CredentialsShape) ==>
      var c := ParseCredentials(body).value;
      && (NoUserWith(users, c.name, c.password) ==> r == Reply(StatusNotFound, None))
      && (!NoUserWith(users, c.name, c.password) ==>
            exists k :: 0 <= k < |users|
              && HasCredentials(users[k], c.name, c.password)
              && (forall j :: 0 <= j < k ==> !HasCredentials(users[j], c.name, c.password))
              && r == Reply(StatusCreated, Some(SessionCookie(users[k].id))))
  {
    match ParseCredentials(body)
    case Invalid(issues) => Rejected(issues)
    case Valid(c) =>
      match FirstUser(users, c.name, c.password)
      case Some(k) => Reply(StatusCreated, Some(SessionCookie(users[k].id)))
      case None => Reply(StatusNotFound, None)
  }
}
