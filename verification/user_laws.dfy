/** Properties relating registration and login. */
module UserLaws {
  import opened Http
  import opened Schema
  import opened Tables
  import opened Users

  /** After registering a name and password, logging in with them succeeds;
      the cookie holds the new user's id unless an earlier user already had
      the same name and password, in which case it holds that user's id. */
  lemma RegisterThenLogin(users: seq<User>, body: Json, freshId: string, now: string)
    requires FreshUserId(users, freshId)
    requires Conforms(body, CredentialsShape)
    ensures var c := ParseCredentials(body).value;
      var after := Register(users, body, freshId, now).table;
      && (NoUserWith(users, c.name, c.password) ==>
            Login(after, body) == Reply(StatusCreated, Some(SessionCookie(freshId))))
      && (!NoUserWith(users, c.name, c.password) ==> Login(after, body) == Login(users, body))
  {
    var c := ParseCredentials(body).value;
    var after := Register(users, body, freshId, now).table;
    assert HasCredentials(after[|users|], c.name, c.password);
    assert forall k :: 0 <= k < |users| ==> after[k] == users[k];
    if NoUserWith(users, c.name, c.password) {
      assert FirstUser(after, c.name, c.password) == Some(|users|);
    } else {
      var k := FirstUser(users, c.name, c.password).value;
      assert FirstUser(after, c.name, c.password) == Some(k);
    }
  }

  /** An unknown name and a known name with a wrong password get the same
      reply: 404 and no cookie. */
  lemma LoginFailuresIndistinguishable(users: seq<User>, unknown: Json, wrongPassword: Json)
    requires Conforms(unknown, CredentialsShape) && Conforms(wrongPassword, CredentialsShape)
    requires var c := ParseCredentials(unknown).value;
      forall k :: 0 <= k < |users| ==> users[k].name != c.name
    requires var c := ParseCredentials(wrongPassword).value;
      (exists k :: 0 <= k < |users| && users[k].name == c.name)
      && forall k :: 0 <= k < |users| && users[k].name == c.name ==> users[k].password != c.password
    ensures Login(users, unknown) == Login(users, wrongPassword) == Reply(StatusNotFound, None)
  {
  }

  /** Registration keeps user ids pairwise distinct. */
  lemma RegisterKeepsIdsUnique(users: seq<User>, body: Json, freshId: string, now: string)
    requires FreshUserId(users, freshId) && UniqueUserIds(users)
    ensures UniqueUserIds(Register(users, body, freshId, now).table)
  {
  }
}
