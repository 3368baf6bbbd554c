/** The toy authentication service: a fixed user table, a prefix "hasher",
    a token endpoint that hands back the user name as the bearer token, and a
    protected endpoint that reads the token back as a user name. Every
    function here only looks things up; failures are the 400 responses the
    handlers raise. */
module Auth {
  import opened Outcomes

  /** A row of the user table. */
  datatype UserInDb = UserInDb(username: string, email: string, fullname: string,
                               disabled: bool, hashedPassword: string)

  /** The body the token endpoint answers with. */
  datatype Token = Token(accessToken: string, tokenType: string)

  /** The fixed user table: two users, each stored under its own user name;
      johndoe is disabled and alice is not. */
  function FakeUsersDb(): (db: map<string, UserInDb>)
    ensures db.Keys == {"johndoe", "alice"}
    ensures forall name :: name in db ==> db[name].username == name
    ensures db["johndoe"].disabled && !db["alice"].disabled
  {
    map[
      "johndoe" := UserInDb("johndoe", "johndoe@gmail.com", "John Doe", true, "fakehashedsecret"),
      "alice" := UserInDb("alice", "alice20@gmail.com", "Alice Wonderson", false, "fakehashedsecret2")
    ]
  }

  const HasherPrefix: string := "fakehashed"

  /** The stored form of a password: the password behind a fixed prefix,
      from which it can be read back. */
  function FakePasswordHasher(password: string): (h: string)
    ensures |h| == |HasherPrefix| + |password|
    ensures h[..|HasherPrefix|] == HasherPrefix
    ensures h[|HasherPrefix|..] == password
  {
    HasherPrefix + password
  }

  /** Two passwords have the same stored form only if they are the same. */
  lemma FakePasswordHasherInjective(p: string, q: string)
    ensures FakePasswordHasher(p) == FakePasswordHasher(q) <==> p == q
  {
    if FakePasswordHasher(p) == FakePasswordHasher(q) {
      assert p == FakePasswordHasher(p)[|HasherPrefix|..];
    }
  }

  /** The user stored under the name, or nothing when the name is not a key
      of the table. */
  function GetUser(username: string): (r: Option<UserInDb>)
    ensures r.Some? <==> username in FakeUsersDb()
    ensures r.Some? ==> r.value == FakeUsersDb()[username]
  {
    if username in FakeUsersDb() then Some(FakeUsersDb()[username]) else None
  }

  /** Reads a token as a user name: the user of that name, or 400 when the
      token names no user. */
  function FakeDecodeToken(token: string): (r: Result<UserInDb>)
    ensures r.Err? <==> token !in FakeUsersDb()
    ensures r.Err? ==> r.error == BadRequest
    ensures r.Ok? ==> r.value == FakeUsersDb()[token] && r.value.username == token
  {
    match GetUser(token)
    case None => Err(BadRequest)
    case Some(user) => Ok(user)
  }

  /** The user a bearer token stands for (the handler's second check for a
      missing user can never fire, as the decoding already raised). */
  function GetCurrentUser(token: string): (r: Result<UserInDb>)
    ensures r.Err? <==> token !in FakeUsersDb()
    ensures r.Err? ==> r.error == BadRequest
    ensures r.Ok? ==> r.value == FakeUsersDb()[token]
  {
    match FakeDecodeToken(token)
    case Err(e) => Err(e)
    case Ok(user) => Ok(user)
  }

  /** Lets through a user who is not disabled, and answers 400 for one who is. */
  function GetCurrentActiveUser(user: UserInDb): (r: Result<UserInDb>)
    ensures r.Ok? <==> !user.disabled
    ensures r.Ok? ==> r.value == user
    ensures r.Err? ==> r.error == BadRequest
  {
    if user.disabled then Err(BadRequest) else Ok(user)
  }

  /** GET /users/me: the record of the user the token names, when that user
      exists and is not disabled; 400 otherwise. The record handed back is
      the stored row itself, stored password form included. */
  function ReadUsersMe(token: string): (r: Result<UserInDb>)
    ensures r.Ok? <==> token in FakeUsersDb() && !FakeUsersDb()[token].disabled
    ensures r.Ok? ==> r.value == FakeUsersDb()[token]
    ensures r.Err? ==> r.error == BadRequest
  {
    match GetCurrentUser(token)
    case Err(e) => Err(e)
    case Ok(user) => GetCurrentActiveUser(user)
  }

  /** POST /token: a token for a known user whose password's stored form is
      the one in the table; 400 otherwise. Whether the user is disabled plays
      no part here. */
  function Login(username: string, password: string): (r: Result<Token>)
    ensures r.Ok? <==>
      username in FakeUsersDb() && FakePasswordHasher(password) == FakeUsersDb()[username].hashedPassword
    ensures r.Ok? ==> r.value == Token(username, "Bearer")
    ensures r.Err? ==> r.error == BadRequest
  {
    match FakeDecodeToken(username)
    case Err(e) => Err(e)
    case Ok(user) =>
      if FakePasswordHasher(password) != user.hashedPassword then Err(BadRequest)
      else Ok(Token(user.username, "Bearer"))
  }

  /** A user who got a token can read their record with it exactly when they
      are not disabled. */
  lemma LoginThenReadUsersMe(username: string, password: string)
    requires Login(username, password).Ok?
    ensures ReadUsersMe(Login(username, password).value.accessToken) ==
      if FakeUsersDb()[username].disabled then Err(BadRequest) else Ok(FakeUsersDb()[username])
  {
  }

  /** The only password that logs a user in is the one behind its stored form. */
  lemma LoginNeedsStoredPassword(username: string, password: string, stored: string)
    requires username in FakeUsersDb()
    requires FakeUsersDb()[username].hashedPassword == FakePasswordHasher(stored)
    ensures Login(username, password).Ok? <==> password == stored
  {
    FakePasswordHasherInjective(password, stored);
  }

  /** alice, with password secret2, gets a token and can read her record. */
  lemma AliceLogsIn()
    ensures Login("alice", "secret2") == Ok(Token("alice", "Bearer"))
    ensures ReadUsersMe("alice") == Ok(FakeUsersDb()["alice"])
    ensures Login("alice", "secret").Err?
  {
    LoginNeedsStoredPassword("alice", "secret", "secret2");
  }

  /** johndoe, with password secret, gets a token, but is disabled and so is
      refused his record. */
  lemma JohnDoeIsInactive()
    ensures Login("johndoe", "secret") == Ok(Token("johndoe", "Bearer"))
    ensures ReadUsersMe("johndoe") == Err(BadRequest)
  {
  }
}
