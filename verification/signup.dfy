/**
  `pages/api/signup.js`: registers a user. The requested role is kept only when it is `admin`
  or `employee` (so anyone may register as an admin); the password is stored as a bcrypt hash;
  a taken email is rejected by the UNIQUE constraint and reported as a server error.
*/
module Signup {
  import opened Wrappers
  import opened Adapter
  import opened Store
  import opened Oracles
  import opened Http
  import JsText

  /**
    The statement of `pages/api/signup.js` line 17. It is written as a concatenation so that the
    verifier can read its first word and its RETURNING keyword; the text is the same.
  */
  const SignupSql: string :=
    "insert" + " into users(email, password_hash, role) values($1, $2, $3) " + "returning" + " id, role"

  /** `validRoles.includes(role)` for `validRoles = ['admin', 'employee']`. */
  predicate ValidRole(role: string) {
    role == "admin" || role == "employee"
  }

  datatype SignupForm = SignupForm(email: Option<string>, password: Option<string>, role: Option<string>)

  /** `role && validRoles.includes(role) ? role : 'employee'`. */
  function NormaliseRole(role: Option<string>): (r: string)
    ensures ValidRole(r)
    ensures role.Some? && ValidRole(role.value) ==> r == role.value
    ensures role.None? || !ValidRole(role.value) ==> r == "employee"
  {
    if role.Some? && role.value != "" && ValidRole(role.value) then role.value else "employee"
  }

  /** Normalising an already normalised role changes nothing. */
  lemma NormaliseRoleIdempotent(role: Option<string>)
    ensures NormaliseRole(Some(NormaliseRole(role))) == NormaliseRole(role)
  {
  }

  lemma SignupSqlIsReturningInsert()
    ensures Classify(SignupSql) == Insert(true)
  {
    assert SignupSql[..6] == "insert";
    assert SignupSql[65..74] == "returning";
    JsText.LowerOfSmall("insert");
    JsText.LowerOfSmall("returning");
    ClassifyInsertReturning(SignupSql, 65);
  }

  /**
    `{ id: insert.rows[0].id, role: insert.rows[0].role }` for the inserted user `u`, read from
    what the backend returns for the RETURNING clause.
  */
  function Reply(b: Backend, u: User): (body: Body)
    ensures body == SignedUp(Int(u.id), if b == Postgres then Text(u.role) else Undefined)
  {
    SignupSqlIsReturningInsert();
    var q := Query(b, SignupSql, EngineAnswer([IdRoleRow(u)], 1, u.id));
    var row := q.rows.value[0];
    SignedUp(Field(row, "id"), Field(row, "role"))
  }

  /** The user a successful sign-up of `req` on `db` stores. */
  function NewUser(db: Db, req: Request<SignupForm>, h: Hasher, salt: int): User
    requires req.body.email.Some? && req.body.password.Some?
  {
    User(db.lastUserId + 1, req.body.email.value, h.hash(req.body.password.value, BcryptCost, salt),
         NormaliseRole(req.body.role))
  }

  /** The handler, with `salt` standing for bcrypt's random salt. */
  function Handle(b: Backend, h: Hasher, db: Db, req: Request<SignupForm>, salt: int): (x: Exchange)
    ensures req.verb != "POST" ==> x == Exchange(MethodNotAllowed, db, [])
    ensures req.verb == "POST" && (Falsy(req.body.email) || Falsy(req.body.password)) ==>
      x == Exchange(Response(400, Message(MissingCredentials)), db, [])
    ensures x.response.status == 201 <==>
      req.verb == "POST" && !Falsy(req.body.email) && !Falsy(req.body.password) && !Registered(db, req.body.email.value)
    ensures x.response.status == 201 ==>
      var u := NewUser(db, req, h, salt);
      && x.db == db.(users := db.users + [u], lastUserId := u.id)
      && x.response.body.SignedUp? && x.response.body.id == Int(u.id)
      && x.issued == [SignupSql]
    ensures req.verb == "POST" && !Falsy(req.body.email) && !Falsy(req.body.password) && Registered(db, req.body.email.value) ==>
      x == Exchange(ServerFailure(Violated(UniqueEmail)), db, [SignupSql])
    ensures x.response.status != 201 ==> x.db == db
  {
    if req.verb != "POST" then Exchange(MethodNotAllowed, db, [])
    else if Falsy(req.body.email) || Falsy(req.body.password) then
      Exchange(Response(400, Message(MissingCredentials)), db, [])
    else
      var role := NormaliseRole(req.body.role);
      var hash := h.hash(req.body.password.value, BcryptCost, salt);
      match InsertUser(db, req.body.email.value, hash, Some(role))
      case Failure(v) => Exchange(ServerFailure(Violated(v)), db, [SignupSql])
      case Success(ins) =>
        var u := User(ins.id, req.body.email.value, hash, role);
        Exchange(Response(201, Reply(b, u)), ins.db, [SignupSql])
  }

  /** A second sign-up with an email that is already registered fails with 500 and adds nobody. */
  lemma SignupTwice(b: Backend, h: Hasher, db: Db, req: Request<SignupForm>, req2: Request<SignupForm>,
                    salt: int, salt2: int)
    requires Handle(b, h, db, req, salt).response.status == 201
    requires req2.verb == "POST" && req2.body.email == req.body.email && !Falsy(req2.body.password)
    ensures var db1 := Handle(b, h, db, req, salt).db;
      Handle(b, h, db1, req2, salt2) == Exchange(ServerFailure(Violated(UniqueEmail)), db1, [SignupSql])
  {
    var db1 := Handle(b, h, db, req, salt).db;
    var u := NewUser(db, req, h, salt);
    assert u in db1.users;
  }

  /** Sign-up keeps the schema's constraints. */
  lemma SignupPreservesValid(b: Backend, h: Hasher, db: Db, req: Request<SignupForm>, salt: int)
    requires Valid(db)
    ensures Valid(Handle(b, h, db, req, salt).db)
  {
    if Handle(b, h, db, req, salt).response.status == 201 {
      var u := NewUser(db, req, h, salt);
      var r := InsertUser(db, u.email, u.passwordHash, Some(u.role));
      assert r.Success? && r.value.db == Handle(b, h, db, req, salt).db;
    }
  }

  /** The state after a successful sign-up, stated for callers that reason about later calls. */
  lemma SignupStoresUser(b: Backend, h: Hasher, db: Db, req: Request<SignupForm>, salt: int)
    requires Handle(b, h, db, req, salt).response.status == 201
    ensures req.body.email.Some? && req.body.email.value != ""
    ensures req.body.password.Some? && req.body.password.value != ""
    ensures !Registered(db, req.body.email.value)
    ensures var u := NewUser(db, req, h, salt);
      Handle(b, h, db, req, salt).db == db.(users := db.users + [u], lastUserId := u.id)
  {
  }

  /** What is stored for the new user is the hash of the password, with the normalised role. */
  lemma SignupStoresHash(b: Backend, h: Hasher, db: Db, req: Request<SignupForm>, salt: int)
    requires Handle(b, h, db, req, salt).response.status == 201
    ensures var x := Handle(b, h, db, req, salt);
      && |x.db.users| == |db.users| + 1
      && x.db.users[|db.users|].email == req.body.email.value
      && x.db.users[|db.users|].passwordHash == h.hash(req.body.password.value, BcryptCost, salt)
      && ValidRole(x.db.users[|db.users|].role)
      && x.db.requests == db.requests
  {
  }

  /**
    Under SQLite the emulated RETURNING clause yields only the id, so the response carries no
    `role` even though the statement asked for it.
  */
  lemma SignupOmitsRoleOnSqlite(h: Hasher, db: Db, req: Request<SignupForm>, salt: int)
    requires req.verb == "POST" && !Falsy(req.body.email) && !Falsy(req.body.password)
    requires !Registered(db, req.body.email.value)
    ensures Handle(Sqlite, h, db, req, salt).response.body == SignedUp(Int(db.lastUserId + 1), Undefined)
  {
  }

  /** With the result shape the handler was written against, the response reports the stored role. */
  lemma SignupReportsRoleOnPostgres(h: Hasher, db: Db, req: Request<SignupForm>, salt: int)
    requires req.verb == "POST" && !Falsy(req.body.email) && !Falsy(req.body.password)
    requires !Registered(db, req.body.email.value)
    ensures Handle(Postgres, h, db, req, salt).response.body ==
      SignedUp(Int(db.lastUserId + 1), Text(NormaliseRole(req.body.role)))
  {
  }
}
