/** `authenticateToken` (server/src/middleware/auth.middleware.ts): the gate
    in front of every authenticated route. */
module AuthMiddleware {
  import opened Common
  import AuthController

  /** The gate's three outcomes. */
  datatype Decision = Deny401 | Deny403 | Admit(claims: Claims)

  const AccessDenied: string := "Access denied. Please login."
  const InvalidToken: string := "Invalid token"

  /** The decision on `req.cookies.token` (None when the cookie is absent):
      an absent or empty token is refused with 401 before anything else; a
      token that does not verify (bad signature, malformed, expired) with 403;
      otherwise the verified claims are admitted. */
  function Decide(token: Option<string>, tokens: TokenScheme, now: int): (d: Decision)
    ensures d == Deny401 <==> token.None? || token.value == ""
    ensures d == Deny403 <==> token.Some? && token.value != "" && tokens.verify(token.value, now).None?
    ensures d.Admit? ==> token.Some? && tokens.verify(token.value, now) == Some(d.claims)
  {
    if token.None? || token.value == "" then Deny401
    else match tokens.verify(token.value, now)
      case None => Deny403
      case Some(claims) => Admit(claims)
  }

  /** One request passing through the middleware: the token cookie it
      arrived with, `req.user`, what was written to the response, and how many
      times `next()` was called. */
  class Exchange {
    const token: Option<string>
    var user: Option<Claims>
    var status: Option<int>
    var error: Option<string>
    var nextCalls: nat

    constructor (token: Option<string>)
      ensures this.token == token
      ensures user.None? && status.None? && error.None? && nextCalls == 0
    {
      this.token := token;
      user, status, error, nextCalls := None, None, None, 0;
    }
  }

  /** `authenticateToken(req, res, next)`: on 401 and 403 it writes the status
      and error and leaves `req.user` alone without calling `next`; on
      success it sets `req.user` to exactly the verified claims, writes
      nothing and calls `next` once. */
  method AuthenticateToken(ex: Exchange, tokens: TokenScheme, now: int)
    modifies ex
    ensures match Decide(ex.token, tokens, now)
      case Deny401 =>
        ex.status == Some(401) && ex.error == Some(AccessDenied) &&
        ex.user == old(ex.user) && ex.nextCalls == old(ex.nextCalls)
      case Deny403 =>
        ex.status == Some(403) && ex.error == Some(InvalidToken) &&
        ex.user == old(ex.user) && ex.nextCalls == old(ex.nextCalls)
      case Admit(claims) =>
        ex.user == Some(claims) && ex.nextCalls == old(ex.nextCalls) + 1 &&
        ex.status == old(ex.status) && ex.error == old(ex.error)
  {
    if ex.token.None? || ex.token.value == "" {
      ex.status, ex.error := Some(401), Some(AccessDenied);
      return;
    }
    var verified := tokens.verify(ex.token.value, now);
    if verified.None? {
      ex.status, ex.error := Some(403), Some(InvalidToken);
      return;
    }
    ex.user := verified;
    ex.nextCalls := ex.nextCalls + 1;
  }

  /** The cookie a successful login sets gets through the gate, for the
      logged-in user's id and name, at any time within the token's seven days. */
  lemma LoginCookieAdmitted(users: map<AuthController.UserId, AuthController.User>, h: AuthController.Hasher,
                            tokens: TokenScheme, isEmail: string -> bool, body: AuthController.LoginBody,
                            issued: int, production: bool, now: int)
    requires TokensSound(tokens)
    requires AuthController.UsersValid(users)
    requires AuthController.Login(users, h, tokens, isEmail, body, issued, production).status == 200
    requires issued <= now < issued + TokenLifetime
    ensures var r := AuthController.Login(users, h, tokens, isEmail, body, issued, production);
            var u := AuthController.FindByEmail(users, body.email.value).value;
            r.cookie.SetCookie? &&
            Decide(Some(r.cookie.cookie.value), tokens, now) == Admit(Claims(u.id, u.name))
  {
    var u := AuthController.FindByEmail(users, body.email.value).value;
    var t := tokens.sign(Claims(u.id, u.name), issued, TokenLifetime);
    assert t != "" && tokens.verify(t, now) == Some(Claims(u.id, u.name));
  }
}
