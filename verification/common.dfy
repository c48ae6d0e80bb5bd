/** Values shared by the controllers and the middleware: optional values,
    bytes, the claims a session token carries, and the signing library
    (jsonwebtoken) taken as an abstract pair of functions. */
module Common {

  datatype Option<+T> = None | Some(value: T)

  type Byte = b: int | 0 <= b < 256

  /** The payload `{ userId, name }` that login signs and the middleware attaches as `req.user`. */
  datatype Claims = Claims(userId: string, name: string)

  /** The caller's id as the controllers read it: `req.user?.userId`, then
      checked with `!userId`, which is true both when there is no user and
      when the id is the empty string. */
  function CallerId(user: Option<Claims>): (id: Option<string>)
    ensures user.None? ==> id.None?
    ensures user.Some? && user.value.userId == "" ==> id.None?
    ensures user.Some? && user.value.userId != "" ==> id == Some(user.value.userId)
    ensures id.Some? ==> id.value != ""
  {
    if user.Some? && user.value.userId != "" then Some(user.value.userId) else None
  }

  /** Lifetime of a session token, `expiresIn: '7d'`, in seconds. */
  const TokenLifetime: int := 7 * 24 * 60 * 60

  /** jsonwebtoken with the server secret folded in: `sign(claims, issuedAt, expiresIn)`
      and `verify(token, now)`, which fails (None) on a bad signature, a
      malformed token or an expired one. */
  datatype TokenScheme = TokenScheme(
    sign: (Claims, int, int) -> string,
    verify: (string, int) -> Option<Claims>)

  /** What the model assumes of the signing library: a token it issued is
      never empty and verifies to the claims it was signed with until it expires. */
  ghost predicate TokensSound(t: TokenScheme)
  {
    forall c: Claims, iat: int, ttl: int {:trigger t.sign(c, iat, ttl)} ::
      t.sign(c, iat, ttl) != "" &&
      forall now: int {:trigger t.verify(t.sign(c, iat, ttl), now)} ::
        iat <= now < iat + ttl ==> t.verify(t.sign(c, iat, ttl), now) == Some(c)
  }
}
