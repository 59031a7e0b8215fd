/**
 * The authentication handlers of handler/auth.go: the two user lookups, the
 * password check, Login and Register. bcrypt, net/mail.ParseAddress and JWT
 * signing are library code and enter as the functions of a `Primitives`
 * value; the clock enters as `now`, in Unix seconds.
 */
module Auth {
  import opened Wrappers
  import opened Records
  import opened Query
  import opened Responses
  import opened Store

  /** The claims Login puts in the token: username, user_id and exp. */
  datatype Claims = Claims(username: Bytes, userId: nat, exp: int)

  /** The cookie Login sets. */
  datatype Cookie = Cookie(name: string, value: string, expires: int, httpOnly: bool, secure: bool)

  /** The library calls the handlers rely on. */
  datatype Primitives = Primitives(
    /** `mail.ParseAddress(s)` returns no error. */
    parseAddress: Bytes -> bool,
    /** `bcrypt.GenerateFromPassword(p, bcrypt.DefaultCost)`; None is its error. */
    generateHash: Bytes -> Option<Bytes>,
    /** `bcrypt.CompareHashAndPassword(hash, password)` returns no error. */
    compareHash: (Bytes, Bytes) -> bool,
    /** HS256 `SignedString` with the SECRET setting; None is its error. */
    signToken: Claims -> Option<string>)

  /** bcrypt's own guarantee: a password verifies against every hash generated from it. */
  ghost predicate HashRoundTrips(prim: Primitives) {
    forall p :: prim.generateHash(p).Some? ==> prim.compareHash(prim.generateHash(p).value, p)
  }

  /** The fixed hash Login checks against when no user matches. */
  const DummyHash: Bytes := Ascii("$2a$10$7zFqzDbD3RrlkMTczbXG9OWZ0FLOXjIxXzSZ.QZxkVXjXcx7QZQiC")

  /** `time.Hour * 72`, in seconds: the token's lifetime. */
  const TokenLifetime: int := 72 * 60 * 60
  /** `24 * time.Hour`, in seconds: the cookie's lifetime. */
  const CookieLifetime: int := 24 * 60 * 60

  const MinPasswordLength: nat := 8
  const MinUsernameLength: nat := 3

  /** The one reply for an unknown identity and for a wrong password alike. */
  const InvalidCredentials := Response(StatusUnauthorized, "Invalid identity or password", NoData)
  const InternalError := Response(StatusInternalServerError, "Internal Server Error", NoData)

  /** CheckPasswordHash: does the password match the stored hash? */
  function CheckPasswordHash(prim: Primitives, password: Bytes, hash: Bytes): (ok: bool)
    ensures HashRoundTrips(prim) && prim.generateHash(password) == Some(hash) ==> ok
  {
    prim.compareHash(hash, password)
  }

  function EmailIs(e: Bytes): User -> bool {
    (u: User) => u.email == e
  }

  function UsernameIs(name: Bytes): User -> bool {
    (u: User) => u.username == name
  }

  /** getUserByEmail: the user with that email, none (not an error), or the storage error. */
  function GetUserByEmail(users: seq<User>, e: Bytes, outcome: Outcome): (r: Found<User>)
    ensures r.Failed? <==> outcome.Err?
    ensures r.Found? ==> r.row in users && r.row.email == e
    ensures r.Missing? <==> outcome.Ok? && forall u :: u in users ==> u.email != e
  {
    First(users, EmailIs(e), outcome)
  }

  /** getUserByUsername: the user with that username, none (not an error), or the storage error. */
  function GetUserByUsername(users: seq<User>, name: Bytes, outcome: Outcome): (r: Found<User>)
    ensures r.Failed? <==> outcome.Err?
    ensures r.Found? ==> r.row in users && r.row.username == name
    ensures r.Missing? <==> outcome.Ok? && forall u :: u in users ==> u.username != name
  {
    First(users, UsernameIs(name), outcome)
  }

  /** In a table with unique credentials, each user is found by its own email. */
  lemma FoundByEmail(users: seq<User>, k: nat)
    requires UniqueCredentials(users) && k < |users|
    ensures GetUserByEmail(users, users[k].email, Ok) == Found(users[k])
  {
    FirstOfUnique(users, EmailIs(users[k].email), k);
  }

  /** In a table with unique credentials, each user is found by its own username. */
  lemma FoundByUsername(users: seq<User>, k: nat)
    requires UniqueCredentials(users) && k < |users|
    ensures GetUserByUsername(users, users[k].username, Ok) == Found(users[k])
  {
    FirstOfUnique(users, UsernameIs(users[k].username), k);
  }

  /** `where(&model.User{Username: u})` with no condition, as GORM builds it for an empty username. */
  function AnyUser(): User -> bool {
    (u: User) => true
  }

  /**
   * getUserByUsername as written: GORM leaves zero-valued struct fields out of
   * the condition, so the empty username puts no condition on the query and
   * `First` returns the user with the smallest key.
   */
  function GetUserByUsernameAsWritten(users: seq<User>, name: Bytes, outcome: Outcome): (r: Found<User>)
    ensures name != [] ==> r == GetUserByUsername(users, name, outcome)
    ensures r.Failed? <==> outcome.Err?
  {
    if name == [] then First(users, AnyUser(), outcome) else GetUserByUsername(users, name, outcome)
  }

  /**
   * The discrepancy: when every user has a non-empty username (as Register
   * guarantees), the empty username matches nobody, yet the lookup as written
   * returns the first user, whose hash Login then checks the password against.
   */
  lemma EmptyUsernameMatchesFirstUser(users: seq<User>)
    requires users != [] && forall u :: u in users ==> u.username != []
    ensures GetUserByUsername(users, [], Ok) == Missing
    ensures GetUserByUsernameAsWritten(users, [], Ok) == Found(users[0])
  {
    assert AnyUser()(users[0]);
  }

  /**
   * The validation steps of Register, in order: the email must parse, the
   * password must have at least 8 bytes, the username at least 3. The first
   * rule broken gives its own 400 reply.
   */
  function ValidateRegistration(prim: Primitives, input: RegisterInput): (r: Option<Response>)
    ensures r.None? <==> && prim.parseAddress(input.email)
                         && |input.password| >= MinPasswordLength
                         && |input.username| >= MinUsernameLength
    ensures r.Some? ==> r.value.status == StatusBadRequest && r.value.data == NoData
    ensures !prim.parseAddress(input.email) ==> r.Some? && r.value.message == "Invalid email address"
    ensures prim.parseAddress(input.email) && |input.password| < MinPasswordLength ==>
              r.Some? && r.value.message == "Password must be at least 8 characters long"
    ensures prim.parseAddress(input.email) && |input.password| >= MinPasswordLength && |input.username| < MinUsernameLength ==>
              r.Some? && r.value.message == "Username must be at least 3 characters long"
  {
    if !prim.parseAddress(input.email) then
      Some(Response(StatusBadRequest, "Invalid email address", NoData))
    else if |input.password| < MinPasswordLength then
      Some(Response(StatusBadRequest, "Password must be at least 8 characters long", NoData))
    else if |input.username| < MinUsernameLength then
      Some(Response(StatusBadRequest, "Username must be at least 3 characters long", NoData))
    else None
  }

  /**
   * Login. The identity is looked up by email when it parses as an address and
   * by username otherwise. `checked` lists the (password, hash) pairs handed to
   * CheckPasswordHash, so that the dummy check on the unknown-identity path is
   * visible.
   */
  method Login(db: Database, prim: Primitives, body: Option<LoginInput>, now: int, outcome: Outcome)
    returns (resp: Response, cookie: Option<Cookie>, checked: seq<(Bytes, Bytes)>)
    // Whichever half of the credentials was wrong, the reply is the same.
    ensures resp.status == StatusUnauthorized ==> resp == InvalidCredentials
    ensures cookie.Some? <==> resp.status == StatusOK
    // A token is only issued to a stored user whose hash the password matches.
    ensures resp.status == StatusOK ==>
              && body.Some? && resp.data.LoginData?
              && exists u :: && u in db.users && u.id == resp.data.userId
                             && CheckPasswordHash(prim, body.value.password, u.password)
    ensures body.None? ==> resp == Response(StatusBadRequest, "Error on login request", NoData) && checked == []
    ensures body.Some? ==>
              var input := body.value;
              var found := if prim.parseAddress(input.identity) then GetUserByEmail(db.users, input.identity, outcome)
                           else GetUserByUsername(db.users, input.identity, outcome);
              match found
              case Failed(_) => resp == InternalError && checked == []
              case Missing => resp == InvalidCredentials && checked == [(input.password, DummyHash)]
              case Found(u) =>
                && checked == [(input.password, u.password)]
                && (!CheckPasswordHash(prim, input.password, u.password) ==> resp == InvalidCredentials)
                && (CheckPasswordHash(prim, input.password, u.password) ==>
                      match prim.signToken(Claims(u.username, u.id, now + TokenLifetime))
                      case None => resp == InternalError
                      case Some(t) =>
                        && resp == Response(StatusOK, "Success login", LoginData(u.id, u.username, u.email, t))
                        && cookie == Some(Cookie("jwt", t, now + CookieLifetime, false, false)))
  {
    cookie, checked := None, [];
    if body.None? {
      return Response(StatusBadRequest, "Error on login request", NoData), cookie, checked;
    }
    var input := body.value;
    var found;
    if prim.parseAddress(input.identity) {
      found := GetUserByEmail(db.users, input.identity, outcome);
    } else {
      found := GetUserByUsername(db.users, input.identity, outcome);
    }
    if found.Failed? {
      return InternalError, cookie, checked;
    } else if found.Missing? {
      var _ := CheckPasswordHash(prim, input.password, DummyHash);
      checked := checked + [(input.password, DummyHash)];
      return InvalidCredentials, cookie, checked;
    }
    var user := found.row;
    var matches := CheckPasswordHash(prim, input.password, user.password);
    checked := checked + [(input.password, user.password)];
    if !matches {
      return InvalidCredentials, cookie, checked;
    }
    var claims := Claims(user.username, user.id, now + TokenLifetime);
    var token := prim.signToken(claims);
    if token.None? {
      return InternalError, cookie, checked;
    }
    cookie := Some(Cookie("jwt", token.value, now + CookieLifetime, false, false));
    resp := Response(StatusOK, "Success login", LoginData(user.id, user.username, user.email, token.value));
  }

  /**
   * Register. Validation, then the email conflict check, then the username
   * conflict check, then hash-and-insert; each of the storage calls may fail
   * as its `Outcome` says. The stored row holds the hash, and the reply holds
   * id, username and email only.
   */
  method Register(db: Database, prim: Primitives, body: Option<RegisterInput>,
                  emailLookup: Outcome, usernameLookup: Outcome, create: Outcome)
    returns (resp: Response)
    requires db.Valid()
    modifies db`users, db`nextUserId
    ensures db.Valid()
    ensures resp.status != StatusOK ==> db.users == old(db.users) && db.nextUserId == old(db.nextUserId)
    ensures resp.status == StatusOK ==>
              && body.Some? && |db.users| == |old(db.users)| + 1
              && db.nextUserId == old(db.nextUserId) + 1
              && prim.generateHash(body.value.password) == Some(db.users[|old(db.users)|].password)
    ensures body.None? ==> resp == Response(StatusBadRequest, "Invalid request body", NoData)
    ensures body.Some? && ValidateRegistration(prim, body.value).Some? ==>
              resp == ValidateRegistration(prim, body.value).value
    ensures body.Some? && ValidateRegistration(prim, body.value).None? ==>
              var input := body.value;
              match GetUserByEmail(old(db.users), input.email, emailLookup)
              case Failed(_) => resp == InternalError
              case Found(_) => resp == Response(StatusConflict, "Email already exists", NoData)
              case Missing =>
                match GetUserByUsername(old(db.users), input.username, usernameLookup)
                case Failed(_) => resp == InternalError
                case Found(_) => resp == Response(StatusConflict, "Username already exists", NoData)
                case Missing =>
                  match prim.generateHash(input.password)
                  case None => resp == Response(StatusInternalServerError, "Error hashing password", NoData)
                  case Some(hash) =>
                    if create.Err? then resp == Response(StatusInternalServerError, "Error creating user", NoData)
                    else
                      var stored := User(old(db.nextUserId), input.username, input.email, hash);
                      && db.users == old(db.users) + [stored]
                      && resp == Response(StatusOK, "User created successfully", UserSummary(stored.id, stored.username, stored.email))
  {
    if body.None? {
      return Response(StatusBadRequest, "Invalid request body", NoData);
    }
    var input := body.value;
    var invalid := ValidateRegistration(prim, input);
    if invalid.Some? {
      return invalid.value;
    }
    var existing := GetUserByEmail(db.users, input.email, emailLookup);
    if existing.Failed? {
      return InternalError;
    }
    if existing.Found? {
      return Response(StatusConflict, "Email already exists", NoData);
    }
    existing := GetUserByUsername(db.users, input.username, usernameLookup);
    if existing.Failed? {
      return InternalError;
    }
    if existing.Found? {
      return Response(StatusConflict, "Username already exists", NoData);
    }
    var hash := prim.generateHash(input.password);
    if hash.None? {
      return Response(StatusInternalServerError, "Error hashing password", NoData);
    }
    var user := User(0, input.username, input.email, hash.value);
    assert !Clashes(db.users, user) by {
      forall i | 0 <= i < |db.users|
        ensures db.users[i].email != user.email && db.users[i].username != user.username
      {
        assert db.users[i] in db.users;
      }
    }
    var stored := db.InsertUser(user, create);
    if stored.None? {
      return Response(StatusInternalServerError, "Error creating user", NoData);
    }
    resp := Response(StatusOK, "User created successfully", UserSummary(stored.value.id, stored.value.username, stored.value.email));
  }
}
