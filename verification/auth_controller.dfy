/** Registration, login and logout (server/src/controllers/auth.controller.ts)
    over an in-memory user table. bcrypt is an abstract hash/compare pair, zod's
    email check an abstract predicate, jsonwebtoken the TokenScheme of Common;
    the DB-assigned user id, the bcrypt salt and the clock are parameters. */
module AuthController {
  import opened Common

  type UserId = string

  /** One row of the User table; `password` holds the bcrypt hash. */
  datatype User = User(id: UserId, name: string, email: string, password: string)

  /** JSON bodies of `/auth/register` and `/auth/login`: None for a field
      that is absent or not a string. */
  datatype RegisterBody = RegisterBody(name: Option<string>, email: Option<string>, password: Option<string>)
  datatype LoginBody = LoginBody(email: Option<string>, password: Option<string>)

  /** bcryptjs: `hash(password, rounds, salt)` and `compare(password, hash)`. */
  datatype Hasher = Hasher(
    hash: (string, int, seq<Byte>) -> string,
    compare: (string, string) -> bool)

  const SaltRounds: int := 10

  /** What the model assumes of bcrypt: a password matches its own hash. */
  ghost predicate HashSound(h: Hasher)
  {
    forall p: string, salt: seq<Byte> {:trigger h.hash(p, SaltRounds, salt)} ::
      h.compare(p, h.hash(p, SaltRounds, salt))
  }

  datatype Cookie = Cookie(name: string, value: string, httpOnly: bool, secure: bool, maxAge: int)

  /** What a handler does to the client's cookies: `res.cookie(...)`,
      `res.clearCookie(name)`, or nothing. */
  datatype CookieAction = KeepCookies | SetCookie(cookie: Cookie) | ClearCookie(name: string)

  datatype Body =
    | UserCreated(message: string, userId: UserId)
    | LoggedIn(message: string, name: string, email: string)
    | Message(message: string)
    | Error(error: string)

  datatype Reply = Reply(status: int, cookie: CookieAction, body: Body)

  /** A handler's reply together with the user table it leaves. */
  datatype Step = Step(reply: Reply, users: map<UserId, User>)

  /** The cookie's `maxAge`, 7 days in milliseconds (the token's own lifetime). */
  const CookieMaxAge: int := 7 * 24 * 60 * 60 * 1000

  const InvalidInput: Reply := Reply(400, KeepCookies, Error("Invalid input"))
  const UserExists: Reply := Reply(400, KeepCookies, Error("User already exists"))
  const InvalidCredentials: Reply := Reply(400, KeepCookies, Error("Invalid credentials"))
  const LoginFailed: Reply := Reply(400, KeepCookies, Error("Login failed"))

  /** `RegisterSchema`: name of at least 2 characters, a well-formed email,
      password of at least 6 characters. */
  predicate RegisterAccepts(body: RegisterBody, isEmail: string -> bool): (ok: bool)
    ensures ok ==> body.name.Some? && body.email.Some? && body.password.Some?
    ensures ok ==> |body.name.value| >= 2 && isEmail(body.email.value) && |body.password.value| >= 6
    ensures body.name.Some? && |body.name.value| == 1 ==> !ok
    ensures body.password.Some? && |body.password.value| == 5 ==> !ok
    ensures body.email.Some? && !isEmail(body.email.value) ==> !ok
    ensures (&& body.name.Some? && |body.name.value| >= 2
             && body.email.Some? && isEmail(body.email.value)
             && body.password.Some? && |body.password.value| >= 6) ==> ok
  {
    && body.name.Some? && |body.name.value| >= 2
    && body.email.Some? && isEmail(body.email.value)
    && body.password.Some? && |body.password.value| >= 6
  }

  /** `LoginSchema`: a well-formed email and any password string. */
  predicate LoginAccepts(body: LoginBody, isEmail: string -> bool): (ok: bool)
    ensures ok <==> body.email.Some? && isEmail(body.email.value) && body.password.Some?
    ensures body.email.Some? && isEmail(body.email.value) && body.password == Some("") ==> ok
    ensures forall reg: RegisterBody | reg.email == body.email && reg.password == body.password ::
              RegisterAccepts(reg, isEmail) ==> ok
  {
    body.email.Some? && isEmail(body.email.value) && body.password.Some?
  }

  predicate EmailTaken(users: map<UserId, User>, email: string)
  {
    exists id | id in users :: users[id].email == email
  }

  ghost predicate EmailsUnique(users: map<UserId, User>)
  {
    forall a, b | a in users && b in users && users[a].email == users[b].email :: a == b
  }

  /** The user table's invariant: rows stored under their ids, emails unique
      (the `@unique` constraint on `User.email`). */
  ghost predicate UsersValid(users: map<UserId, User>)
  {
    (forall id | id in users :: users[id].id == id) && EmailsUnique(users)
  }

  /** `prisma.user.findUnique({ where: { email } })` */
  ghost function FindByEmail(users: map<UserId, User>, email: string): (u: Option<User>)
    requires UsersValid(users)
    ensures u.Some? <==> EmailTaken(users, email)
    ensures u.Some? ==> u.value.id in users && users[u.value.id] == u.value && u.value.email == email
    ensures u.Some? ==> forall id | id in users && users[id].email == email :: id == u.value.id
  {
    if EmailTaken(users, email) then
      var id :| id in users && users[id].email == email;
      Some(users[id])
    else None
  }

  /** `register`: invalid input (400 "Invalid input"), then a taken email
      (400 "User already exists"); an insert that fails on a taken id lands
      in the catch (400 "Invalid input"). On success exactly one user is
      added, with the given name and email and the bcrypt hash of the
      password, and the reply is 201 with the new id. */
  function RegisterStep(users: map<UserId, User>, h: Hasher, isEmail: string -> bool,
                        body: RegisterBody, salt: seq<Byte>, id: UserId): (s: Step)
    ensures !RegisterAccepts(body, isEmail) ==> s.reply == InvalidInput
    ensures RegisterAccepts(body, isEmail) && EmailTaken(users, body.email.value) ==> s.reply == UserExists
    ensures s.reply.status == 201 <==>
              RegisterAccepts(body, isEmail) && !EmailTaken(users, body.email.value) && id !in users
    ensures s.reply.status != 201 ==> s.reply.status == 400 && s.users == users
    ensures s.reply.status == 201 ==>
              && s.reply.body == UserCreated("User created", id)
              && s.users.Keys == users.Keys + {id}
              && (forall k | k in users :: s.users[k] == users[k])
              && s.users[id] == User(id, body.name.value, body.email.value,
                                     h.hash(body.password.value, SaltRounds, salt))
    ensures UsersValid(users) ==> UsersValid(s.users)
  {
    if !RegisterAccepts(body, isEmail) then Step(InvalidInput, users)
    else
      var name, email, password := body.name.value, body.email.value, body.password.value;
      if EmailTaken(users, email) then Step(UserExists, users)
      else if id in users then Step(InvalidInput, users)
      else
        var u := User(id, name, email, h.hash(password, SaltRounds, salt));
        Step(Reply(201, KeepCookies, UserCreated("User created", id)), users[id := u])
  }

  /** The session cookie login sets for a user. */
  function SessionCookie(tokens: TokenScheme, u: User, now: int, production: bool): (c: Cookie)
    ensures c.name == "token" && c.httpOnly && c.secure == production
    ensures c.maxAge == TokenLifetime * 1000
    ensures TokensSound(tokens) ==>
              c.value != "" &&
              forall t | now <= t < now + TokenLifetime :: tokens.verify(c.value, t) == Some(Claims(u.id, u.name))
  {
    Cookie("token", tokens.sign(Claims(u.id, u.name), now, TokenLifetime), true, production, CookieMaxAge)
  }

  /** `login`: a malformed body gives 400 "Login failed"; an unknown email and
      a wrong password give the same 400 "Invalid credentials" with no cookie;
      otherwise the token for `{ userId, name }` (7 days) goes into an
      httpOnly cookie `token` and the reply carries only name and email. A
      function of the table: login never changes it. */
  ghost function Login(users: map<UserId, User>, h: Hasher, tokens: TokenScheme, isEmail: string -> bool,
                       body: LoginBody, now: int, production: bool): (r: Reply)
    requires UsersValid(users)
    ensures !LoginAccepts(body, isEmail) ==> r == LoginFailed
    ensures r.status == 200 <==>
              && LoginAccepts(body, isEmail)
              && exists id | id in users :: users[id].email == body.email.value &&
                                            h.compare(body.password.value, users[id].password)
    ensures LoginAccepts(body, isEmail) && r.status != 200 ==> r == InvalidCredentials
    ensures r.status == 200 ==>
              && var u := FindByEmail(users, body.email.value).value;
              && r.cookie == SetCookie(SessionCookie(tokens, u, now, production))
              && r.body == LoggedIn("Login successful", u.name, u.email)
  {
    if !LoginAccepts(body, isEmail) then LoginFailed
    else
      var email, password := body.email.value, body.password.value;
      match FindByEmail(users, email)
      case None => InvalidCredentials
      case Some(u) =>
        if !h.compare(password, u.password) then InvalidCredentials
        else Reply(200, SetCookie(SessionCookie(tokens, u, now, production)),
                   LoggedIn("Login successful", u.name, u.email))
  }

  /** `logout`: always 200, and clears the `token` cookie login sets. */
  function Logout(): (r: Reply)
    ensures r.status == 200
    ensures forall tokens, u, now, production ::
              r.cookie == ClearCookie(SessionCookie(tokens, u, now, production).name)
  {
    Reply(200, ClearCookie("token"), Message("Logged out"))
  }

  /** For well-formed bodies, an unknown email and a known email with a wrong
      password get the identical reply. */
  lemma IdenticalLoginFailures(users: map<UserId, User>, h: Hasher, tokens: TokenScheme, isEmail: string -> bool,
                              unknown: LoginBody, wrong: LoginBody, now: int, production: bool)
    requires UsersValid(users)
    requires LoginAccepts(unknown, isEmail) && LoginAccepts(wrong, isEmail)
    requires !EmailTaken(users, unknown.email.value)
    requires var u := FindByEmail(users, wrong.email.value);
             u.Some? && !h.compare(wrong.password.value, u.value.password)
    ensures Login(users, h, tokens, isEmail, unknown, now, production)
         == Login(users, h, tokens, isEmail, wrong, now, production)
         == InvalidCredentials
  {
  }

  /** A user who has just registered can log in with the same email and
      password, and the session is for the new id and name. */
  lemma RegisterThenLogin(users: map<UserId, User>, h: Hasher, tokens: TokenScheme, isEmail: string -> bool,
                          body: RegisterBody, salt: seq<Byte>, id: UserId, now: int, production: bool)
    requires HashSound(h) && UsersValid(users)
    requires RegisterStep(users, h, isEmail, body, salt, id).reply.status == 201
    ensures var s := RegisterStep(users, h, isEmail, body, salt, id);
            var r := Login(s.users, h, tokens, isEmail, LoginBody(body.email, body.password), now, production);
            && r.status == 200
            && r.cookie == SetCookie(Cookie("token", tokens.sign(Claims(id, body.name.value), now, TokenLifetime),
                                            true, production, CookieMaxAge))
  {
    var s := RegisterStep(users, h, isEmail, body, salt, id);
    var email, password := body.email.value, body.password.value;
    assert h.compare(password, h.hash(password, SaltRounds, salt));
    assert s.users[id].email == email;
    var u := FindByEmail(s.users, email);
    assert u.value.id == id;
  }

  /** The user table, which `register` changes in place. */
  class UserStore {
    var users: map<UserId, User>

    ghost predicate Valid()
      reads this
    {
      UsersValid(users)
    }

    constructor ()
      ensures Valid() && users == map[]
    {
      users := map[];
    }

    method Register(h: Hasher, isEmail: string -> bool, body: RegisterBody, salt: seq<Byte>, id: UserId)
      returns (reply: Reply)
      requires Valid()
      modifies this
      ensures Valid()
      ensures Step(reply, users) == RegisterStep(old(users), h, isEmail, body, salt, id)
    {
      if !RegisterAccepts(body, isEmail) {
        return InvalidInput;
      }
      var name, email, password := body.name.value, body.email.value, body.password.value;
      if exists k | k in users :: users[k].email == email {
        return UserExists;
      }
      if id in users {
        return InvalidInput;
      }
      var hashed := h.hash(password, SaltRounds, salt);
      users := users[id := User(id, name, email, hashed)];
      reply := Reply(201, KeepCookies, UserCreated("User created", id));
    }
  }
}
