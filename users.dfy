/**
 * The `usuarios` table (model `Usuario`): registration and login. bcrypt hashing and
 * comparison and JWT signing are abstract functions passed in by the caller.
 */
module Users {
  import opened Wrappers
  import opened AuthMiddleware

  /** A row of `usuarios`; its `senha` column holds the bcrypt hash, never the password. */
  datatype User = User(id: nat, nome: string, user: string, senha: string)

  /** `register` either inserts, or the unique index on `user` refuses with `ER_DUP_ENTRY`. */
  datatype RegisterResult = Registered | DuplicateEntry

  /** `expiresIn: '1h'`. */
  const TokenLifetimeSeconds: nat := 3600

  /** What bcrypt promises: a password matches every hash made of it, whatever the salt. */
  ghost predicate HashSound(hash: (string, string) -> string, compare: (string, string) -> bool) {
    forall senha, salt :: compare(senha, hash(senha, salt))
  }

  ghost predicate UniqueUsernames(rows: seq<User>) {
    forall i, j :: 0 <= i < j < |rows| ==> rows[i].user != rows[j].user
  }

  predicate Taken(rows: seq<User>, user: string) {
    exists u :: u in rows && u.user == user
  }

  /** `SELECT * FROM usuarios WHERE user = ?`, first row. */
  function FindByUsername(rows: seq<User>, user: string): (r: Option<User>)
    ensures r.Some? ==> r.value in rows && r.value.user == user
    ensures r.None? <==> !Taken(rows, user)
  {
    if rows == [] then None
    else if rows[0].user == user then Some(rows[0])
    else
      var r := FindByUsername(rows[1..], user);
      assert forall u :: u in rows ==> u == rows[0] || u in rows[1..];
      r
  }

  /** With usernames unique, the row found is the only row with that username. */
  lemma UniqueRowFound(rows: seq<User>, user: string, u: User)
    requires UniqueUsernames(rows) && u in rows && u.user == user
    ensures FindByUsername(rows, user) == Some(u)
  {
    var f := FindByUsername(rows, user).value;
    var i :| 0 <= i < |rows| && rows[i] == u;
    var j :| 0 <= j < |rows| && rows[j] == f;
    assert i == j;
  }

  class UserTable {
    var rows: seq<User>
    var nextId: nat

    ghost predicate Valid()
      reads this
    {
      && UniqueUsernames(rows)
      && (forall i, j :: 0 <= i < j < |rows| ==> rows[i].id < rows[j].id)
      && (forall u :: u in rows ==> u.id < nextId)
    }

    constructor ()
      ensures Valid() && rows == [] && nextId == 1
    {
      rows := [];
      nextId := 1;
    }

    /**
     * `register`: stores `hash(senha, salt)` under a fresh id; a username already present
     * is refused by the storage layer, which leaves the rows as they were but has already
     * used up that auto-increment value.
     */
    method Register(nome: string, user: string, senha: string, salt: string, hash: (string, string) -> string)
      returns (r: RegisterResult)
      requires Valid()
      modifies this
      ensures Valid()
      ensures r == DuplicateEntry <==> Taken(old(rows), user)
      ensures r == DuplicateEntry ==> rows == old(rows) && nextId == old(nextId) + 1
      ensures r == Registered ==>
        rows == old(rows) + [User(old(nextId), nome, user, hash(senha, salt))] && nextId == old(nextId) + 1
    {
      var hashedPassword := hash(senha, salt);
      var insertId := nextId;
      // The counter value is allocated before the unique index rejects the INSERT.
      nextId := nextId + 1;
      if Taken(rows, user) {
        return DuplicateEntry;
      }
      rows := rows + [User(insertId, nome, user, hashedPassword)];
      r := Registered;
    }

    /**
     * `login`: a token signed over `{id, nome}` with a one-hour lifetime when the username
     * exists and the password matches its hash; otherwise `None`, the same value for an
     * unknown username as for a wrong password. Reads the table only.
     */
    function Login(user: string, senha: string, compare: (string, string) -> bool, sign: (Payload, nat) -> string)
      : (token: Option<string>)
      reads this
      requires Valid()
      ensures token.Some? <==> exists u :: u in rows && u.user == user && compare(senha, u.senha)
      ensures forall u :: u in rows && u.user == user && compare(senha, u.senha) ==>
        token == Some(sign(Payload(u.id, u.nome), TokenLifetimeSeconds))
    {
      match FindByUsername(rows, user)
      case None => None
      case Some(usuarioEncontrado) =>
        var senhaCorreta := compare(senha, usuarioEncontrado.senha);
        if !senhaCorreta then None
        else
          var payload := Payload(usuarioEncontrado.id, usuarioEncontrado.nome);
          assert forall u :: u in rows && u.user == user ==> u == usuarioEncontrado by {
            forall u | u in rows && u.user == user ensures u == usuarioEncontrado {
              UniqueRowFound(rows, user, u);
            }
          }
          Some(sign(payload, TokenLifetimeSeconds))
    }
  }

  /** Round trip: right after registering a fresh username, logging in with that password succeeds. */
  lemma LoginAfterRegister(
    t: UserTable, old_rows: seq<User>, id: nat, nome: string, user: string, senha: string, salt: string,
    hash: (string, string) -> string, compare: (string, string) -> bool, sign: (Payload, nat) -> string)
    requires HashSound(hash, compare)
    requires t.Valid() && t.rows == old_rows + [User(id, nome, user, hash(senha, salt))]
    ensures t.Login(user, senha, compare, sign) == Some(sign(Payload(id, nome), TokenLifetimeSeconds))
  {
    assert t.rows[|old_rows|] in t.rows;
  }

  /** The two failures of `login` look alike: unknown username and wrong password both give `None`. */
  lemma LoginFailuresAlike(
    t: UserTable, user: string, senha: string, compare: (string, string) -> bool, sign: (Payload, nat) -> string)
    requires t.Valid()
    ensures !Taken(t.rows, user) ==> t.Login(user, senha, compare, sign) == None
    ensures forall u :: u in t.rows && u.user == user && !compare(senha, u.senha) ==>
      t.Login(user, senha, compare, sign) == None
  {
    forall u | u in t.rows && u.user == user && !compare(senha, u.senha)
      ensures t.Login(user, senha, compare, sign) == None
    {
      UniqueRowFound(t.rows, user, u);
    }
  }
}
