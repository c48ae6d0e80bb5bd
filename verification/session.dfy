/** The three pieces together: a user registers, logs in, passes the token
    gate with the cookie login set, saves an entry and reads it back. */
module Session {
  import opened Common
  import opened CipherRecord
  import opened AuthController
  import opened EntryController
  import opened AuthMiddleware

  /** Register, log in, pass the gate, create an entry: the listing then holds
      that entry with the text as it was typed. The user id the database
      assigns must be non-empty, because the entry handlers treat an empty id
      as no caller. */
  lemma SaveThenReadBack(users: map<UserId, User>, table: map<EntryId, Entry>,
                         h: Hasher, tokens: TokenScheme, isEmail: string -> bool, c: Cipher, key: seq<Byte>,
                         reg: RegisterBody, salt: seq<Byte>, uid: UserId, issued: int, production: bool,
                         now: int, body: EntryBody, iv: seq<Byte>, id: EntryId)
    requires HashSound(h) && TokensSound(tokens) && Inverse(c)
    requires UsersValid(users) && TableValid(table)
    requires RegisterStep(users, h, isEmail, reg, salt, uid).reply.status == 201 && uid != ""
    requires issued <= now < issued + TokenLifetime
    requires SchemaAccepts(body) && |key| == KeyLength && |iv| == IvLength && id !in table
    ensures var users' := RegisterStep(users, h, isEmail, reg, salt, uid).users;
            var login := Login(users', h, tokens, isEmail, LoginBody(reg.email, reg.password), issued, production);
            && login.status == 200 && login.cookie.SetCookie?
            && var gate := Decide(Some(login.cookie.cookie.value), tokens, now);
            && gate == Admit(Claims(uid, reg.name.value))
            && var created := CreateStep(table, c, key, body, Some(gate.claims), iv, id, now);
            && created.reply.status == 201
            && TableValid(created.table)
            && var listed := GetEntries(created.table, c, key, Some(gate.claims)).body.entries;
            && exists i :: 0 <= i < |listed| && listed[i] == Entry(id, uid, body.mood.value, body.content.value, now)
  {
    var s := RegisterStep(users, h, isEmail, reg, salt, uid);
    var loginBody := LoginBody(reg.email, reg.password);
    RegisterThenLogin(users, h, tokens, isEmail, reg, salt, uid, issued, production);
    LoginCookieAdmitted(s.users, h, tokens, isEmail, loginBody, issued, production, now);
    var u := FindByEmail(s.users, reg.email.value).value;
    assert u.id == uid && u.name == reg.name.value;
    var claims := Claims(uid, reg.name.value);
    CreateKeepsValid(table, c, key, body, Some(claims), iv, id, now);
    CreateThenList(table, c, key, body, Some(claims), iv, id, now);
  }
}
