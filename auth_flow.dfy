/**
 * How registration, login and the bearer guard fit together: the session that
 * `register` then `login` produce is the one the middleware hands to the handlers.
 */
module AuthFlow {
  import opened Wrappers
  import opened AuthMiddleware
  import opened Users

  /**
   * A token `login` issues, sent as "Bearer <token>", reaches the handler as the user it was
   * signed for, provided verification accepts what signing produced and a signed token has
   * no space (a JWT is base64url text joined by dots).
   */
  lemma IssuedTokenAuthenticates(p: Payload, sign: (Payload, nat) -> string, verify: string -> Option<Payload>)
    requires verify(sign(p, TokenLifetimeSeconds)) == Some(p)
    requires ' ' !in sign(p, TokenLifetimeSeconds)
    ensures Authenticate(Some("Bearer " + sign(p, TokenLifetimeSeconds)), verify) == Next(p)
  {
    var token := sign(p, TokenLifetimeSeconds);
    assert "Bearer " + token == "Bearer" + " " + token;
    AuthenticateSingleSpace("Bearer", token, verify);
  }

  /** Register a fresh username, then log in with the same password: the token carries the new id and name. */
  method RegisterThenLogin(
    t: UserTable, nome: string, user: string, senha: string, salt: string,
    hash: (string, string) -> string, compare: (string, string) -> bool, sign: (Payload, nat) -> string)
    returns (r: RegisterResult, token: Option<string>)
    requires t.Valid() && HashSound(hash, compare) && !Taken(t.rows, user)
    modifies t
    ensures t.Valid()
    ensures r == Registered
    ensures token == Some(sign(Payload(old(t.nextId), nome), TokenLifetimeSeconds))
  {
    ghost var before := t.rows;
    r := t.Register(nome, user, senha, salt, hash);
    LoginAfterRegister(t, before, old(t.nextId), nome, user, senha, salt, hash, compare, sign);
    token := t.Login(user, senha, compare, sign);
  }

  /** Registering the same username twice: the second attempt is refused and the first row stays as it was. */
  method RegisterTwice(
    t: UserTable, nome: string, nome2: string, user: string, senha: string, senha2: string,
    salt: string, salt2: string, hash: (string, string) -> string)
    returns (first: RegisterResult, second: RegisterResult)
    requires t.Valid() && !Taken(t.rows, user)
    modifies t
    ensures t.Valid()
    ensures first == Registered && second == DuplicateEntry
    ensures t.rows == old(t.rows) + [User(old(t.nextId), nome, user, hash(senha, salt))]
  {
    first := t.Register(nome, user, senha, salt, hash);
    assert t.rows[|t.rows| - 1] in t.rows;
    second := t.Register(nome2, user, senha2, salt2, hash);
  }
}
