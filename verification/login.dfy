/**
  `pages/api/login.js`: checks an email and password and issues a one-hour token carrying the
  user's id, the email as supplied and the stored role. An unknown email and a wrong password
  are meant to give the same 401; whether the first one does depends on the backend reporting
  `rowCount` for a select.
*/
module Login {
  import opened Wrappers
  import JsText
  import opened Adapter
  import opened Store
  import opened Oracles
  import opened Http
  import Seqs
  import Auth
  import Signup

  /**
    The statement of `pages/api/login.js` line 11. It is written as a concatenation so that the
    verifier can read its first word; the text is the same.
  */
  const LoginSql: string := "select" + " id, password_hash, role from users where email=$1"

  const InvalidCredentials: string := "Invalid credentials"

  datatype LoginForm = LoginForm(email: Option<string>, password: Option<string>)

  lemma LoginSqlIsSelect()
    ensures Classify(LoginSql) == Select
  {
    assert LoginSql[..6] == "select";
    JsText.LowerOfSmall("select");
    ClassifySelect(LoginSql);
  }

  /** What the select resolves to on backend `b`. */
  function Lookup(b: Backend, db: Db, email: string): (q: QueryResult)
    ensures q.rows == Some(Seqs.Map(UsersByEmail(db, email), UserRow))
    ensures q.rowCount == (if b == Postgres then Some(|UsersByEmail(db, email)|) else None)
  {
    LoginSqlIsSelect();
    Query(b, LoginSql, Selected(Seqs.Map(UsersByEmail(db, email), UserRow)))
  }

  /** The claims of the token issued to user `u` who logged in with `email`. */
  function ClaimsFor(u: User, email: string): Claims {
    Claims(Int(u.id), email, Text(u.role))
  }

  /** The handler at time `now`. */
  function Handle(b: Backend, h: Hasher, j: Jwt, db: Db, req: Request<LoginForm>, now: int): (x: Exchange)
    ensures x.db == db
    ensures req.verb != "POST" ==> x == Exchange(MethodNotAllowed, db, [])
    ensures req.verb == "POST" && (Falsy(req.body.email) || Falsy(req.body.password)) ==>
      x == Exchange(Response(400, Message(MissingCredentials)), db, [])
    ensures x.response.status == 200 ==>
      && req.verb == "POST" && !Falsy(req.body.email) && !Falsy(req.body.password)
      && var users := UsersByEmail(db, req.body.email.value);
      && |users| > 0
      && h.compare(req.body.password.value, users[0].passwordHash)
      && x.response.body == TokenIssued(j.sign(ClaimsFor(users[0], req.body.email.value), now, TokenLifetime))
    ensures req.verb == "POST" && !Falsy(req.body.email) && !Falsy(req.body.password) ==>
      && x.issued == [LoginSql]
      && var users := UsersByEmail(db, req.body.email.value);
      && (|users| > 0 ==> (x.response.status == 200 <==> h.compare(req.body.password.value, users[0].passwordHash)))
      && (|users| > 0 && !h.compare(req.body.password.value, users[0].passwordHash) ==>
            x.response == Response(401, Message(InvalidCredentials)))
      && (|users| == 0 ==>
            x.response == (if b == Postgres then Response(401, Message(InvalidCredentials))
                           else ServerFailure(ReadOfUndefined("password_hash"))))
  {
    if req.verb != "POST" then Exchange(MethodNotAllowed, db, [])
    else if Falsy(req.body.email) || Falsy(req.body.password) then
      Exchange(Response(400, Message(MissingCredentials)), db, [])
    else
      var email := req.body.email.value;
      var q := Lookup(b, db, email);
      if q.rowCount == Some(0) then Exchange(Response(401, Message(InvalidCredentials)), db, [LoginSql])
      else if |q.rows.value| == 0 then Exchange(ServerFailure(ReadOfUndefined("password_hash")), db, [LoginSql])
      else
        var user := q.rows.value[0];
        var hash := Field(user, "password_hash");
        if !hash.Text? then Exchange(ServerFailure(IllegalArguments), db, [LoginSql])
        else if !h.compare(req.body.password.value, hash.s) then
          Exchange(Response(401, Message(InvalidCredentials)), db, [LoginSql])
        else
          var token := j.sign(Claims(Field(user, "id"), email, Field(user, "role")), now, TokenLifetime);
          Exchange(Response(200, TokenIssued(token)), db, [LoginSql])
  }

  /** Under SQLite an unknown email skips the 401 branch and fails reading `password_hash` of no row. */
  lemma LoginUnknownEmailOnSqlite(h: Hasher, j: Jwt, db: Db, email: string, password: string, now: int)
    requires email != "" && password != "" && !Registered(db, email)
    ensures Handle(Sqlite, h, j, db, Request("POST", None, LoginForm(Some(email), Some(password))), now).response
      == ServerFailure(ReadOfUndefined("password_hash"))
  {
  }

  /** When selects report `rowCount`, an unknown email gets the same 401 as a wrong password. */
  lemma LoginUnknownEmailOnPostgres(h: Hasher, j: Jwt, db: Db, email: string, password: string, now: int)
    requires email != "" && password != "" && !Registered(db, email)
    ensures Handle(Postgres, h, j, db, Request("POST", None, LoginForm(Some(email), Some(password))), now).response
      == Response(401, Message(InvalidCredentials))
  {
  }

  /**
    Round trip with the sign-up handler: after signing up with an email and password, logging in
    with the same pair succeeds with either result shape and the token carries the new user's id, that
    email and the normalised role.
  */
  lemma SignupThenLogin(b: Backend, h: Hasher, j: Jwt, db: Db, req: Request<Signup.SignupForm>, salt: int,
                        now: int)
    requires HasherSound(h)
    requires req.verb == "POST" && !Falsy(req.body.email) && !Falsy(req.body.password)
    requires !Registered(db, req.body.email.value)
    ensures var db1 := Signup.Handle(b, h, db, req, salt).db;
      var login := Request("POST", None, LoginForm(req.body.email, req.body.password));
      Handle(b, h, j, db1, login, now).response == Response(200, TokenIssued(j.sign(
        Claims(Int(db.lastUserId + 1), req.body.email.value, Text(Signup.NormaliseRole(req.body.role))),
        now, TokenLifetime)))
  {
    var password := req.body.password.value;
    assert h.compare(password, h.hash(password, BcryptCost, salt));
    LoginAfterSignup(b, h, j, db, req, salt, now);
  }

  /** The round trip above, for a hasher that accepts the one password involved. */
  lemma LoginAfterSignup(b: Backend, h: Hasher, j: Jwt, db: Db, req: Request<Signup.SignupForm>, salt: int,
                         now: int)
    requires req.verb == "POST" && !Falsy(req.body.email) && !Falsy(req.body.password)
    requires !Registered(db, req.body.email.value)
    requires h.compare(req.body.password.value, h.hash(req.body.password.value, BcryptCost, salt))
    ensures var db1 := Signup.Handle(b, h, db, req, salt).db;
      var login := Request("POST", None, LoginForm(req.body.email, req.body.password));
      Handle(b, h, j, db1, login, now).response == Response(200, TokenIssued(j.sign(
        Claims(Int(db.lastUserId + 1), req.body.email.value, Text(Signup.NormaliseRole(req.body.role))),
        now, TokenLifetime)))
  {
    var u := Signup.NewUser(db, req, h, salt);
    var db1 := Signup.Handle(b, h, db, req, salt).db;
    assert db1 == db.(users := db.users + [u], lastUserId := u.id) by {
      Signup.SignupStoresUser(b, h, db, req, salt);
    }
    var login := Request("POST", None, LoginForm(req.body.email, req.body.password));
    assert login == Request("POST", None, LoginForm(Some(u.email), Some(req.body.password.value)));
    assert ClaimsFor(u, u.email)
        == Claims(Int(db.lastUserId + 1), req.body.email.value, Text(Signup.NormaliseRole(req.body.role)));
    LoginAfterInsert(b, h, j, db, u, req.body.password.value, now);
  }

  /** Logging in right after `u` was inserted into `db` with a hash that `password` matches. */
  lemma LoginAfterInsert(b: Backend, h: Hasher, j: Jwt, db: Db, u: User, password: string, now: int)
    requires u.id > 0 && u.email != "" && password != "" && !Registered(db, u.email)
    requires h.compare(password, u.passwordHash)
    ensures var db1 := db.(users := db.users + [u], lastUserId := u.id);
      Handle(b, h, j, db1, Request("POST", None, LoginForm(Some(u.email), Some(password))), now).response
        == Response(200, TokenIssued(j.sign(ClaimsFor(u, u.email), now, TokenLifetime)))
  {
    var db1 := db.(users := db.users + [u], lastUserId := u.id);
    UsersByEmailAfterInsert(db, u, u.id);
    LoginKnownUser(b, h, j, db1, u, password, now);
  }

  /** A user found by email whose password matches gets a token for that user's claims. */
  lemma LoginKnownUser(b: Backend, h: Hasher, j: Jwt, db: Db, u: User, password: string, now: int)
    requires u.email != "" && password != ""
    requires UsersByEmail(db, u.email) == [u] && h.compare(password, u.passwordHash)
    ensures Handle(b, h, j, db, Request("POST", None, LoginForm(Some(u.email), Some(password))), now).response
      == Response(200, TokenIssued(j.sign(ClaimsFor(u, u.email), now, TokenLifetime)))
  {
  }

  /**
    Round trip with the authentication helper: a token from a successful login, sent back as a
    bearer header within the hour, authenticates as the claims it was issued with.
  */
  lemma LoginThenAuthenticate(b: Backend, h: Hasher, j: Jwt, db: Db, req: Request<LoginForm>, now: int, later: int)
    requires JwtSound(j)
    requires Handle(b, h, j, db, req, now).response.status == 200
    requires now <= later < now + TokenLifetime
    ensures var u := UsersByEmail(db, req.body.email.value)[0];
      var token := Handle(b, h, j, db, req, now).response.body.token;
      Auth.Authenticate(j, Some("Bearer " + token), later) ==
        Auth.AuthOutcome(Some(Payload(ClaimsFor(u, req.body.email.value), now, now + TokenLifetime)), None)
  {
    var u := UsersByEmail(db, req.body.email.value)[0];
    Auth.BearerRoundTrip(j, ClaimsFor(u, req.body.email.value), now, later);
  }
}
