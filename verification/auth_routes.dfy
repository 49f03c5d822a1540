/**
 * The authentication router (backend/src/routes/authRoutes.js): user
 * registration, the token it hands out, and the login placeholder.
 *
 * The handler is a function of the request body, the users collection and
 * the outcomes of the calls it makes (the two lookups, the insert, the
 * token signing), returning the response and the users collection
 * afterwards. bcrypt is the parameter `hash`.
 */
module AuthRoutes {
  import opened Opt
  import opened Js
  import opened Http
  import opened UserModel

  /** The fields of a register request's JSON body. */
  datatype RegisterBody = RegisterBody(username: Value, email: Value, password: Value)

  /** A signed token: its payload `{ userId }` and its lifetime in seconds. */
  datatype Token = Token(userId: ObjectId, expiresIn: nat)

  /** The user fields the register reply echoes back. */
  datatype UserSummary = UserSummary(id: ObjectId, username: string, email: string, profileImage: string)

  /** The bodies this router sends. */
  datatype AuthReply =
    | Message(message: string)
    | Registered(token: Token, user: UserSummary)
    | Text(text: string)

  /** The register handler's response and the users collection afterwards. */
  datatype RegisterOutcome = RegisterOutcome(response: Response<AuthReply>, users: UserStore)

  const MissingBody := "Request body is required"
  const MissingFields := "All fields are required"
  const ShortPassword := "Password must be at least 6 characters long"
  const ShortUsername := "Username must be at least 3 characters long"
  const EmailExists := "Email already exists"
  const UsernameExists := "Username already exists"
  const InternalError := "Internal Server error"

  const MinUsernameLength: nat := 3

  /** Fifteen days, the `expiresIn: "15d"` of every token. */
  const TokenLifetime: nat := 15 * 24 * 60 * 60

  /** The avatar service URL a user's name is appended to. */
  const AvatarBase := "https://api.dicebear.com/7.x/avataaars/svg?seed="

  /** `generateToken(userId)`: a token whose payload names the user and that expires after fifteen days. */
  function GenerateToken(userId: ObjectId): (t: Token)
    ensures t.userId == userId
    ensures t.expiresIn == 1296000
  {
    Token(userId, TokenLifetime)
  }

  /** The generated avatar of a user with this name. */
  function AvatarUrl(username: string): (url: string)
    ensures |url| == |AvatarBase| + |username|
    ensures url[..|AvatarBase|] == AvatarBase
    ensures url[|AvatarBase|..] == username
  {
    AvatarBase + username
  }

  function Summary(u: User): UserSummary {
    UserSummary(u.id, u.username, u.email, u.profileImage)
  }

  /**
   * The checks made on the body before any lookup, in the handler's order:
   * body present, the three fields truthy, the password's `.length` not
   * below 6, then the username's not below 3. A field that is not a string
   * has no `.length`, and a comparison with `undefined` is false, so such a
   * field passes its length check.
   */
  function RegisterRejection(body: Option<RegisterBody>): (m: Option<string>)
    ensures body.None? <==> m == Some(MissingBody)
    ensures body.Some? && !(Truthy(body.value.username) && Truthy(body.value.email) && Truthy(body.value.password))
      <==> m == Some(MissingFields)
    ensures m == Some(ShortPassword) <==>
      && body.Some?
      && Truthy(body.value.username) && Truthy(body.value.email) && Truthy(body.value.password)
      && ShorterThan(body.value.password, MinPasswordLength)
    ensures m == Some(ShortUsername) <==>
      && body.Some?
      && Truthy(body.value.username) && Truthy(body.value.email) && Truthy(body.value.password)
      && !ShorterThan(body.value.password, MinPasswordLength)
      && ShorterThan(body.value.username, MinUsernameLength)
    ensures m.None? || m == Some(MissingBody) || m == Some(MissingFields)
      || m == Some(ShortPassword) || m == Some(ShortUsername)
  {
    if body.None? then Some(MissingBody)
    else
      var b := body.value;
      if !Truthy(b.username) || !Truthy(b.email) || !Truthy(b.password) then Some(MissingFields)
      else if ShorterThan(b.password, MinPasswordLength) then Some(ShortPassword)
      else if ShorterThan(b.username, MinUsernameLength) then Some(ShortUsername)
      else None
  }

  /**
   * POST /api/auth/register. `emailQuery` and `usernameQuery` say whether
   * the two `findOne` lookups go through, `newId` and `now` are the id and
   * timestamp the new document receives, `hash` is bcrypt with a fresh
   * salt, `save` whether the insert goes through and `signing` whether
   * `jwt.sign` does. A value that cannot be cast to a string makes the
   * lookup throw. Every exception becomes a 500.
   */
  function Register(body: Option<RegisterBody>, users: UserStore,
                    emailQuery: ServiceCall, usernameQuery: ServiceCall,
                    newId: ObjectId, now: int, hash: string -> string,
                    save: ServiceCall, signing: ServiceCall): (r: RegisterOutcome)
    ensures r.response.status == 201 || r.response.status == 400 || r.response.status == 500
    ensures RegisterRejection(body).Some? ==>
      r.response == Response(400, Message(RegisterRejection(body).value)) && r.users == users
    ensures r.response.status == 400 ==> r.users == users && r.response.body.Message?
    ensures r.users != users ==>
      && newId !in users
      && newId in r.users
      && r.users == users[newId := r.users[newId]]
      && save.Succeeds?
    ensures r.response.status == 201 ==>
      && r.users != users
      && r.response.body == Registered(GenerateToken(newId), Summary(r.users[newId]))
  {
    var rejection := RegisterRejection(body);
    if rejection.Some? then
      RegisterOutcome(Response(400, Message(rejection.value)), users)
    else
      var fields := body.value;
      var email := CastToString(fields.email);
      var username := CastToString(fields.username);
      if emailQuery.Fails? || email.None? then
        RegisterOutcome(Response(500, Message(InternalError)), users)
      else if EmailTaken(users, email.value) then
        RegisterOutcome(Response(400, Message(EmailExists)), users)
      else if usernameQuery.Fails? || username.None? then
        RegisterOutcome(Response(500, Message(InternalError)), users)
      else if UsernameTaken(users, username.value) then
        RegisterOutcome(Response(400, Message(UsernameExists)), users)
      else
        var draft := NewUser(username, email, CastToString(fields.password), Some(AvatarUrl(username.value)));
        match SaveNewUser(draft, newId, now, hash)
        case None =>
          RegisterOutcome(Response(500, Message(InternalError)), users)
        case Some(user) =>
          if newId in users || save.Fails? then
            RegisterOutcome(Response(500, Message(InternalError)), users)
          else if signing.Fails? then
            RegisterOutcome(Response(500, Message(InternalError)), users[newId := user])
          else
            RegisterOutcome(Response(201, Registered(GenerateToken(newId), Summary(user))), users[newId := user])
  }

  /** POST /api/auth/login: a placeholder that answers the text "login" to any request. */
  function Login(body: Option<RegisterBody>, users: UserStore): (r: Response<AuthReply>)
    ensures r.status == 200 && r.body.Text?
  {
    Response(200, Text("login"))
  }

  // ---------------------------------------------------------------------
  // Properties

  /** The stored form of each field: what the lookups query for and what the document receives. */
  predicate CastsOk(b: RegisterBody) {
    CastToString(b.username).Some? && CastToString(b.email).Some? && CastToString(b.password).Some?
  }

  /**
   * Registration succeeds exactly when the body passes the input checks,
   * every field is a string, number or boolean, neither email nor username
   * is taken, the stored password text is at least six code units long,
   * the id is fresh and the insert and the signing go through. The new user
   * then holds the cast username and email, the hashed password and the
   * avatar generated from the username, and the token carries its id.
   */
  lemma RegisterSuccess(body: Option<RegisterBody>, users: UserStore,
                        emailQuery: ServiceCall, usernameQuery: ServiceCall,
                        newId: ObjectId, now: int, hash: string -> string,
                        save: ServiceCall, signing: ServiceCall)
    ensures var r := Register(body, users, emailQuery, usernameQuery, newId, now, hash, save, signing);
      r.response.status == 201 <==>
        && RegisterRejection(body).None?
        && CastsOk(body.value)
        && emailQuery.Succeeds? && usernameQuery.Succeeds?
        && !EmailTaken(users, CastToString(body.value.email).value)
        && !UsernameTaken(users, CastToString(body.value.username).value)
        && Utf16Length(CastToString(body.value.password).value) >= MinPasswordLength
        && newId !in users
        && save.Succeeds? && signing.Succeeds?
    ensures var r := Register(body, users, emailQuery, usernameQuery, newId, now, hash, save, signing);
      r.response.status == 201 ==>
        var u := r.users[newId];
        && u.id == newId
        && u.username == CastToString(body.value.username).value
        && u.email == CastToString(body.value.email).value
        && u.password == hash(CastToString(body.value.password).value)
        && u.profileImage == AvatarUrl(u.username)
        && u.createdAt == now
        && r.response.body.token.userId == u.id
        && r.response.body.user == UserSummary(u.id, u.username, u.email, u.profileImage)
        && |r.users| == |users| + 1
  {
  }

  /**
   * Registration never leaves two users with the same username or the same
   * email: the lookups query for exactly the strings the new document stores.
   */
  lemma RegisterKeepsUsersUnique(body: Option<RegisterBody>, users: UserStore,
                                 emailQuery: ServiceCall, usernameQuery: ServiceCall,
                                 newId: ObjectId, now: int, hash: string -> string,
                                 save: ServiceCall, signing: ServiceCall)
    requires UniqueUsers(users)
    ensures UniqueUsers(Register(body, users, emailQuery, usernameQuery, newId, now, hash, save, signing).users)
  {
    var r := Register(body, users, emailQuery, usernameQuery, newId, now, hash, save, signing);
    if r.users != users {
      var u := r.users[newId];
      var email := CastToString(body.value.email).value;
      var username := CastToString(body.value.username).value;
      assert u.email == email && u.username == username;
      assert !EmailTaken(users, email) && !UsernameTaken(users, username);
      forall a, b | a in r.users && b in r.users && a != b
        ensures r.users[a].username != r.users[b].username && r.users[a].email != r.users[b].email
      {
        if a == newId {
          assert b in users && r.users[b] == users[b];
        } else if b == newId {
          assert a in users && r.users[a] == users[a];
        }
      }
    }
  }

  /** Registration keeps every stored user under its own id with a username and an email. */
  lemma RegisterKeepsUsersWellFormed(body: Option<RegisterBody>, users: UserStore,
                                     emailQuery: ServiceCall, usernameQuery: ServiceCall,
                                     newId: ObjectId, now: int, hash: string -> string,
                                     save: ServiceCall, signing: ServiceCall)
    requires WellFormedUsers(users)
    ensures WellFormedUsers(Register(body, users, emailQuery, usernameQuery, newId, now, hash, save, signing).users)
  {
  }

  /** When both the password and the username are too short, the password is the one reported. */
  lemma PasswordCheckedBeforeUsername(username: string, email: Value, password: string)
    requires Truthy(email) && username != "" && password != ""
    requires Utf16Length(password) < MinPasswordLength && Utf16Length(username) < MinUsernameLength
    ensures RegisterRejection(Some(RegisterBody(String(username), email, String(password)))) == Some(ShortPassword)
  {
  }

  /** When both the email and the username are taken, the email is the one reported. */
  lemma EmailReportedBeforeUsername(body: RegisterBody, users: UserStore,
                                    usernameQuery: ServiceCall,
                                    newId: ObjectId, now: int, hash: string -> string,
                                    save: ServiceCall, signing: ServiceCall)
    requires RegisterRejection(Some(body)).None?
    requires CastToString(body.email).Some? && EmailTaken(users, CastToString(body.email).value)
    ensures Register(Some(body), users, Succeeds, usernameQuery, newId, now, hash, save, signing).response
      == Response(400, Message(EmailExists))
  {
  }

  /** A free email with a taken username is answered 400 "Username already exists" and stores nothing. */
  lemma UsernameTakenRejected(body: RegisterBody, users: UserStore,
                              newId: ObjectId, now: int, hash: string -> string,
                              save: ServiceCall, signing: ServiceCall)
    requires RegisterRejection(Some(body)).None?
    requires CastToString(body.email).Some? && !EmailTaken(users, CastToString(body.email).value)
    requires CastToString(body.username).Some? && UsernameTaken(users, CastToString(body.username).value)
    ensures var r := Register(Some(body), users, Succeeds, Succeeds, newId, now, hash, save, signing);
      r.response == Response(400, Message(UsernameExists)) && r.users == users
  {
  }

  /**
   * A failing `jwt.sign` comes after the insert: the user is stored although
   * the client receives a 500.
   */
  lemma SigningFailureKeepsUser(body: Option<RegisterBody>, users: UserStore,
                                newId: ObjectId, now: int, hash: string -> string, message: string)
    requires
      var r := Register(body, users, Succeeds, Succeeds, newId, now, hash, Succeeds, Succeeds);
      r.response.status == 201
    ensures
      var ok := Register(body, users, Succeeds, Succeeds, newId, now, hash, Succeeds, Succeeds);
      var r := Register(body, users, Succeeds, Succeeds, newId, now, hash, Succeeds, Fails(message));
      r.response.status == 500 && r.users == ok.users && newId in r.users
  {
  }

  /**
   * A numeric username has no `.length`, so it escapes the three-character
   * check: the number 12 is registered under the two-character name "12".
   */
  lemma NumericUsernameSkipsLengthCheck(email: string, password: string, users: UserStore,
                                        newId: ObjectId, now: int, hash: string -> string)
    requires email != "" && Utf16Length(password) >= MinPasswordLength
    requires !EmailTaken(users, email) && !UsernameTaken(users, "12") && newId !in users
    ensures var r := Register(Some(RegisterBody(Number(Int(12)), String(email), String(password))), users,
                              Succeeds, Succeeds, newId, now, hash, Succeeds, Succeeds);
      r.response.status == 201 && r.users[newId].username == "12"
  {
    assert CastToString(Number(Int(12))) == Some("12") by {
      DigitsOfTwelve();
    }
  }

  lemma DigitsOfTwelve()
    ensures IntToDecimal(12) == "12"
  {
    assert NatToDecimal(1) == "1";
    assert NatToDecimal(12) == NatToDecimal(1) + "2";
  }

  /**
   * A numeric password also has no `.length`, but the schema's `minlength`
   * sees its decimal text: the number 12 passes the handler's check and
   * then fails validation, a 500 that stores nothing.
   */
  lemma NumericShortPasswordFailsValidation(username: string, email: string, users: UserStore,
                                            newId: ObjectId, now: int, hash: string -> string,
                                            save: ServiceCall, signing: ServiceCall)
    requires Utf16Length(username) >= MinUsernameLength && email != ""
    requires !EmailTaken(users, email) && !UsernameTaken(users, username)
    ensures var r := Register(Some(RegisterBody(String(username), String(email), Number(Int(12)))), users,
                              Succeeds, Succeeds, newId, now, hash, save, signing);
      r.response == Response(500, Message(InternalError)) && r.users == users
  {
    DigitsOfTwelve();
    assert Utf16Length("12") == 2;
  }

  /** Different usernames get different avatars. */
  lemma AvatarUrlInjective(a: string, b: string)
    requires AvatarUrl(a) == AvatarUrl(b)
    ensures a == b
  {
    assert a == AvatarUrl(a)[|AvatarBase|..];
  }

  /** The login placeholder answers the same whatever the request and the stored users. */
  lemma LoginIgnoresCredentials(a: Option<RegisterBody>, b: Option<RegisterBody>, users: UserStore, others: UserStore)
    ensures Login(a, users) == Login(b, others)
  {
  }
}
