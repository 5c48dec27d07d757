/**
  The `/api/auth` routes: registration and login as ordered chains of
  checks over the request body and the user file, and the two
  token-protected routes as projections of the user the token resolved to.

  A signed token is modelled by its payload only, and the clock readings a
  `new User(...)` takes are parameters.
 */
module AuthRoutes {
  import opened JsValues
  import opened Bcrypt
  import opened UserModel

  const MinUsernameLength := 3
  const MinPasswordLength := 6

  const MsgAllFieldsRequired := "Todos los campos son requeridos"
  const MsgUsernameTooShort := "El usuario debe tener al menos 3 caracteres"
  const MsgPasswordTooShort := "La contraseña debe tener al menos 6 caracteres"
  const MsgAlreadyRegistered := "El usuario o email ya está registrado"
  const MsgOneIdentifier := "Proporciona solo usuario O email, no ambos"
  const MsgPasswordRequired := "La contraseña es requerida"
  const MsgInvalidCredentials := "Credenciales inválidas"
  const MsgRegistered := "Usuario registrado exitosamente"
  const MsgLoggedIn := "Login exitoso"
  const MsgInternalError := "Error interno del servidor"

  /** The payload signed into a token: `{ userId, username }`. */
  datatype Token = Token(userId: string, username: string)

  /** The user as echoed to the client: never the password hash. */
  datatype PublicUser = PublicUser(id: string, username: string, email: string)

  /** The HTTP answer of `/register` and `/login`. */
  datatype Reply =
    | Registered(token: Token, user: PublicUser)
    | LoggedIn(token: Token, user: PublicUser)
    | BadRequest(message: string)
    | Unauthorized(message: string)
    | InternalError
  {
    function Status(): (code: int)
    {
      match this
      case Registered(_, _) => 201
      case LoggedIn(_, _) => 200
      case BadRequest(_) => 400
      case Unauthorized(_) => 401
      case InternalError => 500
    }

    function Message(): (text: string)
    {
      match this
      case Registered(_, _) => MsgRegistered
      case LoggedIn(_, _) => MsgLoggedIn
      case BadRequest(m) => m
      case Unauthorized(m) => m
      case InternalError => MsgInternalError
    }
  }

  /** The token both `/register` and `/login` issue for a stored user. */
  function TokenFor(r: Record): (t: Token)
  {
    Token(r.id, r.username)
  }

  /** The `user` object of a reply: id, username and email. */
  function PublicView(r: Record): (u: PublicUser)
  {
    PublicUser(r.id, r.username, r.email)
  }

  /** All three registration fields are present and non-empty. */
  predicate AllPresent(body: Body)
  {
    Truthy(body.username) && Truthy(body.email) && Truthy(body.password)
  }

  // ---------------------------------------------------------------- register

  /** The verdict of the checks `/register` runs before it creates anything. */
  datatype Screening = Rejected(reply: Reply) | Admitted(username: string, email: string, password: string)

  /**
    The validation chain of `/register`, first failing check wins: all
    fields present, username long enough, password long enough, then
    neither the email nor the username already stored. A lookup that
    throws ends in the catch-all 500.
   */
  function ScreenRegistration(body: Body, file: Backing): (s: Screening)
    ensures s.Admitted? ==> AllPresent(body) && body == Body(Str(s.username), Str(s.email), Str(s.password))
    ensures s.Rejected? ==> s.reply.BadRequest? || s.reply.InternalError?
  {
    if !Truthy(body.username) || !Truthy(body.email) || !Truthy(body.password) then
      Rejected(BadRequest(MsgAllFieldsRequired))
    else if |body.username.s| < MinUsernameLength then
      Rejected(BadRequest(MsgUsernameTooShort))
    else if |body.password.s| < MinPasswordLength then
      Rejected(BadRequest(MsgPasswordTooShort))
    else
      match (FindBy(file, Email, body.email.s), FindBy(file, Username, body.username.s))
      case (Found(byEmail), Found(byUsername)) =>
        if byEmail.Some? || byUsername.Some? then Rejected(BadRequest(MsgAlreadyRegistered))
        else Admitted(body.username.s, body.email.s, body.password.s)
      case _ => Rejected(InternalError)
  }

  /** What a request leaves behind: the reply and the user file. */
  datatype Outcome = Outcome(reply: Reply, file: Backing)

  /**
    The effect of one `/register` request on a file: the reply, and the
    file with the new record appended when the request was admitted.
    `clockId` and `clockTime` are the clock readings the new user takes,
    `salt` the salt `genSalt` drew.
   */
  function Registration(file: Backing, body: Body, clockId: string, clockTime: string, salt: string, scheme: Scheme): (o: Outcome)
    ensures o.reply.Registered? || o.file == file
    ensures o.reply.Status() in {201, 400, 500}
  {
    match ScreenRegistration(body, file)
    case Rejected(reply) => Outcome(reply, file)
    case Admitted(username, email, password) =>
      var record := Record(clockId, username, email, scheme.hash(password, salt), clockTime);
      Outcome(Registered(TokenFor(record), PublicView(record)), Appended(file, record))
  }

  /**
    The `/register` handler: screen the request, then build a `User`,
    save it and answer with its token and public fields. The file keeps
    the uniqueness of usernames and of emails.
   */
  method Register(db: Database, body: Body, clockId: string, clockTime: string, salt: string, scheme: Scheme)
    returns (reply: Reply)
    modifies db
    ensures Outcome(reply, db.file) == Registration(old(db.file), body, clockId, clockTime, salt, scheme)
    ensures Consistent(old(db.file)) ==> Consistent(db.file)
  {
    if Consistent(db.file) {
      RegistrationPreservesUniqueness(db.file, body, clockId, clockTime, salt, scheme);
    }
    var screening := ScreenRegistration(body, db.file);
    if screening.Rejected? {
      return screening.reply;
    }
    var user := new User(screening.username, screening.email, screening.password, clockId, clockTime);
    var _ := user.Save(db, scheme, salt);
    reply := Registered(Token(user.id, user.username), PublicUser(user.id, user.username, user.email));
  }

  /** A missing, `null` or empty field is refused before anything else. */
  lemma RegisterRequiresAllFields(file: Backing, body: Body, clockId: string, clockTime: string, salt: string, scheme: Scheme)
    requires !AllPresent(body)
    ensures Registration(file, body, clockId, clockTime, salt, scheme) == Outcome(BadRequest(MsgAllFieldsRequired), file)
  {
  }

  /** A short username is refused whatever the password, and the file is untouched. */
  lemma RegisterChecksUsernameBeforePassword(file: Backing, body: Body, clockId: string, clockTime: string, salt: string, scheme: Scheme)
    requires AllPresent(body) && |body.username.s| < MinUsernameLength
    ensures Registration(file, body, clockId, clockTime, salt, scheme) == Outcome(BadRequest(MsgUsernameTooShort), file)
  {
  }

  /** With a valid username, a password under six characters is refused and the file is untouched. */
  lemma RegisterChecksPasswordLength(file: Backing, body: Body, clockId: string, clockTime: string, salt: string, scheme: Scheme)
    requires AllPresent(body) && |body.username.s| >= MinUsernameLength && |body.password.s| < MinPasswordLength
    ensures Registration(file, body, clockId, clockTime, salt, scheme) == Outcome(BadRequest(MsgPasswordTooShort), file)
  {
  }

  /** A request whose email or username is already stored is refused and the file is untouched. */
  lemma RegisterRejectsTakenKeys(file: Backing, body: Body, clockId: string, clockTime: string, salt: string, scheme: Scheme, i: nat)
    requires AllPresent(body) && |body.username.s| >= MinUsernameLength && |body.password.s| >= MinPasswordLength
    requires FindAll(file).Some? && i < |FindAll(file).value|
    requires FindAll(file).value[i].email == body.email.s || FindAll(file).value[i].username == body.username.s
    ensures Registration(file, body, clockId, clockTime, salt, scheme) == Outcome(BadRequest(MsgAlreadyRegistered), file)
  {
  }

  /** A valid request against a file whose `users` is not an array ends in a 500, the file untouched. */
  lemma RegisterFailsOnMalformedStore(file: Backing, body: Body, clockId: string, clockTime: string, salt: string, scheme: Scheme)
    requires AllPresent(body) && |body.username.s| >= MinUsernameLength && |body.password.s| >= MinPasswordLength
    requires FindAll(file).None?
    ensures Registration(file, body, clockId, clockTime, salt, scheme) == Outcome(InternalError, file)
  {
  }

  /**
    Registration succeeds exactly when every check passes, and then the
    file gains one record at its end: the given username and email, the
    clock's id and time, and the hash of the password under the drawn
    salt; the reply carries that record's id, username and email (never
    its password) and a token for it.
   */
  lemma RegisterSucceedsExactlyWhen(file: Backing, body: Body, clockId: string, clockTime: string, salt: string, scheme: Scheme)
    ensures
      var o := Registration(file, body, clockId, clockTime, salt, scheme);
      o.reply.Registered? <==>
        && AllPresent(body) && |body.username.s| >= MinUsernameLength && |body.password.s| >= MinPasswordLength
        && FindAll(file).Some?
        && forall r :: r in FindAll(file).value ==> r.email != body.email.s && r.username != body.username.s
    ensures
      var o := Registration(file, body, clockId, clockTime, salt, scheme);
      o.reply.Registered? ==>
        var users := FindAll(file).value;
        var record := Record(clockId, body.username.s, body.email.s, scheme.hash(body.password.s, salt), clockTime);
        && FindAll(o.file) == Some(users + [record])
        && o.reply.user == PublicUser(record.id, record.username, record.email)
        && o.reply.token == Token(record.id, record.username)
        && o.reply.Status() == 201 && o.reply.Message() == MsgRegistered
  {
    var o := Registration(file, body, clockId, clockTime, salt, scheme);
    if AllPresent(body) && |body.username.s| >= MinUsernameLength && |body.password.s| >= MinPasswordLength && FindAll(file).Some? {
      var users := FindAll(file).value;
      var byEmail := FindBy(file, Email, body.email.s);
      var byUsername := FindBy(file, Username, body.username.s);
      if forall r :: r in users ==> r.email != body.email.s && r.username != body.username.s {
        assert byEmail.user.None? && byUsername.user.None?;
        var record := Record(clockId, body.username.s, body.email.s, scheme.hash(body.password.s, salt), clockTime);
        assert FindAll(o.file).value == users + [record];
      } else {
        var r :| r in users && (r.email == body.email.s || r.username == body.username.s);
        var i :| 0 <= i < |users| && users[i] == r;
        assert byEmail.user.Some? || byUsername.user.Some?;
      }
    }
  }

  /** Registration keeps usernames pairwise distinct and emails pairwise distinct. */
  lemma RegistrationPreservesUniqueness(file: Backing, body: Body, clockId: string, clockTime: string, salt: string, scheme: Scheme)
    requires Consistent(file)
    ensures Consistent(Registration(file, body, clockId, clockTime, salt, scheme).file)
  {
    var s := ScreenRegistration(body, file);
    if s.Admitted? {
      var users := FindAll(file).value;
      var record := Record(clockId, s.username, s.email, scheme.hash(s.password, salt), clockTime);
      var users' := FindAll(Appended(file, record)).value;
      assert users' == users + [record];
      assert FindBy(file, Email, s.email) == Found(None);
      assert FindBy(file, Username, s.username) == Found(None);
      forall i, j | 0 <= i < j < |users'|
        ensures users'[i].username != users'[j].username && users'[i].email != users'[j].email
      {
        if j == |users| {
          assert users'[i] == users[i];
        }
      }
    }
  }

  // ------------------------------------------------------------------- login

  /** The identifier login searches by: the username when one is given, else the email. */
  function LoginLookup(file: Backing, body: Body): (lookup: Lookup)
    requires Truthy(body.username) || Truthy(body.email)
    ensures lookup.TypeError? <==> FindAll(file).None?
    ensures Truthy(body.username) && lookup.Found? ==>
              FirstMatch(FindAll(file).value, Username, body.username.s, lookup.user)
    ensures !Truthy(body.username) && lookup.Found? ==>
              FirstMatch(FindAll(file).value, Email, body.email.s, lookup.user)
  {
    if Truthy(body.username) then FindBy(file, Username, body.username.s)
    else FindBy(file, Email, body.email.s)
  }

  /**
    The answer `/login` gives: exactly one identifier, then a password,
    then a stored user for the identifier, then a matching password.
    Only a stored user whose hash accepts the password logs in, and every
    authentication failure carries the same message.
   */
  function LoginReply(file: Backing, body: Body, scheme: Scheme): (r: Reply)
    ensures r.LoggedIn? ==>
              && Truthy(body.username) != Truthy(body.email) && Truthy(body.password)
              && LoginLookup(file, body).Found? && LoginLookup(file, body).user.Some?
              && var u := LoginLookup(file, body).user.value;
                 scheme.compare(body.password.s, u.password) && r == LoggedIn(TokenFor(u), PublicView(u))
    ensures r.Unauthorized? ==> r.message == MsgInvalidCredentials
    ensures r.Status() in {200, 400, 401, 500}
  {
    if Truthy(body.username) == Truthy(body.email) then
      BadRequest(MsgOneIdentifier)
    else if !Truthy(body.password) then
      BadRequest(MsgPasswordRequired)
    else
      match LoginLookup(file, body)
      case TypeError => InternalError
      case Found(None) => Unauthorized(MsgInvalidCredentials)
      case Found(Some(user)) =>
        if scheme.compare(body.password.s, user.password) then LoggedIn(TokenFor(user), PublicView(user))
        else Unauthorized(MsgInvalidCredentials)
  }

  /**
    The `/login` handler. It reads the file but has no `modifies` clause:
    a login never changes the store. The transient `User` it builds to
    compare the password takes clock readings that do not affect the answer.
   */
  method Login(db: Database, body: Body, scheme: Scheme, clockId: string, clockTime: string) returns (reply: Reply)
    ensures reply == LoginReply(db.file, body, scheme)
  {
    if (!Truthy(body.username) && !Truthy(body.email)) || (Truthy(body.username) && Truthy(body.email)) {
      return BadRequest(MsgOneIdentifier);
    }
    if !Truthy(body.password) {
      return BadRequest(MsgPasswordRequired);
    }
    var lookup: Lookup;
    if Truthy(body.username) {
      lookup := FindBy(db.file, Username, body.username.s);
    } else {
      lookup := FindBy(db.file, Email, body.email.s);
    }
    if lookup.TypeError? {
      return InternalError;
    }
    if lookup.user.None? {
      return Unauthorized(MsgInvalidCredentials);
    }
    var user := lookup.user.value;
    var instance := new User(user.username, user.email, user.password, clockId, clockTime);
    instance.id := user.id;
    var valid := instance.ComparePassword(scheme, body.password.s);
    if !valid {
      return Unauthorized(MsgInvalidCredentials);
    }
    reply := LoggedIn(Token(user.id, user.username), PublicUser(user.id, user.username, user.email));
  }

  /** Supplying both identifiers, or neither, is refused first, whatever the password. */
  lemma LoginNeedsExactlyOneIdentifier(file: Backing, body: Body, scheme: Scheme)
    requires Truthy(body.username) == Truthy(body.email)
    ensures LoginReply(file, body, scheme) == BadRequest(MsgOneIdentifier)
  {
  }

  /** With exactly one identifier, a missing password is refused next. */
  lemma LoginNeedsPassword(file: Backing, body: Body, scheme: Scheme)
    requires Truthy(body.username) != Truthy(body.email) && !Truthy(body.password)
    ensures LoginReply(file, body, scheme) == BadRequest(MsgPasswordRequired)
  {
  }

  /**
    Past the input checks, an unknown identifier and a wrong password give
    the same 401 reply, so the reply does not reveal which accounts exist.
   */
  lemma LoginHidesWhichCheckFailed(file: Backing, body: Body, scheme: Scheme)
    requires Truthy(body.username) != Truthy(body.email) && Truthy(body.password)
    requires LoginLookup(file, body).Found?
    ensures LoginReply(file, body, scheme).Unauthorized? <==>
              || LoginLookup(file, body).user.None?
              || !scheme.compare(body.password.s, LoginLookup(file, body).user.value.password)
    ensures LoginReply(file, body, scheme).Unauthorized? ==>
              LoginReply(file, body, scheme) == Unauthorized(MsgInvalidCredentials)
  {
  }

  /**
    Login answers 200 exactly when one identifier and a password are
    given, the file holds a users array, and the first record carrying
    that username (or, with no username, that email) has a hash the
    scheme accepts for the password; the reply then carries that
    record's token and public fields.
   */
  lemma LoginSucceedsExactlyWhen(file: Backing, body: Body, scheme: Scheme)
    ensures LoginReply(file, body, scheme).LoggedIn? <==>
      && Truthy(body.username) != Truthy(body.email) && Truthy(body.password)
      && FindAll(file).Some?
      && var users := FindAll(file).value;
         var key := if Truthy(body.username) then Username else Email;
         var value := if Truthy(body.username) then body.username.s else body.email.s;
         exists i :: 0 <= i < |users| && KeyOf(users[i], key) == value
                     && (forall j :: 0 <= j < i ==> KeyOf(users[j], key) != value)
                     && scheme.compare(body.password.s, users[i].password)
    ensures LoginReply(file, body, scheme).LoggedIn? ==>
      && LoginReply(file, body, scheme).Status() == 200
      && LoginReply(file, body, scheme).Message() == MsgLoggedIn
  {
  }

  /** A valid login against a file whose `users` is not an array ends in the catch-all 500. */
  lemma LoginFailsOnMalformedStore(file: Backing, body: Body, scheme: Scheme)
    requires Truthy(body.username) != Truthy(body.email) && Truthy(body.password)
    requires FindAll(file).None?
    ensures LoginReply(file, body, scheme) == InternalError
  {
  }

  /**
    Round trip: right after a successful registration, logging in with the
    same password and either the username or the email alone answers 200
    with the very token and user the registration returned. This needs the
    hashing scheme to be sound.
   */
  lemma {:induction false} LoginAfterRegistration(file: Backing, body: Body, clockId: string, clockTime: string, salt: string, scheme: Scheme)
    requires Sound(scheme)
    requires Registration(file, body, clockId, clockTime, salt, scheme).reply.Registered?
    ensures
      var o := Registration(file, body, clockId, clockTime, salt, scheme);
      LoginReply(o.file, Body(body.username, Undefined, body.password), scheme) == LoggedIn(o.reply.token, o.reply.user)
    ensures
      var o := Registration(file, body, clockId, clockTime, salt, scheme);
      LoginReply(o.file, Body(Undefined, body.email, body.password), scheme) == LoggedIn(o.reply.token, o.reply.user)
  {
    var s := ScreenRegistration(body, file);
    var record := Record(clockId, s.username, s.email, scheme.hash(s.password, salt), clockTime);
    FindByAfterAppend(file, record, Username, s.username);
    FindByAfterAppend(file, record, Email, s.email);
    assert scheme.compare(s.password, scheme.hash(s.password, salt));
  }

  // ------------------------------------------------------ protected routes

  /** The body of `/profile`: the resolved user's public fields and creation time. */
  datatype ProfileView = ProfileView(id: string, username: string, email: string, createdAt: string)

  /** The body of `/verify`. */
  datatype Verification = Verification(valid: bool, user: PublicUser)

  /** `/profile`: every stored field of the resolved user except the password hash. */
  function Profile(u: Record): (p: ProfileView)
    ensures PublicUser(p.id, p.username, p.email) == PublicView(u)
    ensures p.createdAt == u.createdAt
  {
    ProfileView(u.id, u.username, u.email, u.createdAt)
  }

  /** `/verify`: the token is valid, and the user is the resolved user's public view. */
  function Verify(u: Record): (v: Verification)
    ensures v.valid
    ensures v.user == PublicView(u)
    ensures v.user.id == Profile(u).id && v.user.username == Profile(u).username && v.user.email == Profile(u).email
  {
    Verification(true, PublicView(u))
  }

  /**
    When the clock's id was not yet taken, the user id a registration's
    token carries resolves, by `findById`, to the new record, so `/profile`
    and `/verify` echo the registered username and email.
   */
  lemma RegisteredTokenResolves(file: Backing, body: Body, clockId: string, clockTime: string, salt: string, scheme: Scheme)
    requires Registration(file, body, clockId, clockTime, salt, scheme).reply.Registered?
    requires forall r :: r in FindAll(file).value ==> r.id != clockId
    ensures
      var o := Registration(file, body, clockId, clockTime, salt, scheme);
      var found := FindBy(o.file, Id, o.reply.token.userId);
      && found.Found? && found.user.Some?
      && Profile(found.user.value) == ProfileView(clockId, body.username.s, body.email.s, clockTime)
      && Verify(found.user.value) == Verification(true, o.reply.user)
  {
    var s := ScreenRegistration(body, file);
    var record := Record(clockId, s.username, s.email, scheme.hash(s.password, salt), clockTime);
    FindByAfterAppend(file, record, Id, clockId);
  }

  /**
    Ids are clock readings and can repeat: when an earlier user already has
    the id, the newcomer's token resolves to that other account, since
    `findById` returns the first match.
   */
  lemma IdCollisionResolvesToOtherUser(file: Backing, body: Body, clockId: string, clockTime: string, salt: string, scheme: Scheme, i: nat)
    requires Registration(file, body, clockId, clockTime, salt, scheme).reply.Registered?
    requires i < |FindAll(file).value| && FindAll(file).value[i].id == clockId
    ensures
      var o := Registration(file, body, clockId, clockTime, salt, scheme);
      var found := FindBy(o.file, Id, o.reply.token.userId);
      && found.Found? && found.user.Some?
      && found.user.value.username != o.reply.user.username
  {
    var s := ScreenRegistration(body, file);
    var record := Record(clockId, s.username, s.email, scheme.hash(s.password, salt), clockTime);
    var users := FindAll(file).value;
    FindByAfterAppend(file, record, Id, clockId);
    var earlier := FindBy(file, Id, clockId);
    assert earlier.user.Some?;
    assert FindBy(file, Username, s.username) == Found(None);
    var k :| 0 <= k < |users| && users[k] == earlier.user.value;
  }
}
