/**
  `pages/api/requests.js`: any authenticated caller may file a leave request, which is stored as
  `pending` and owned by the token's `sub`, or list the requests they own. The token's role is
  never looked at.
*/
module EmployeeRequests {
  import opened Wrappers
  import opened Adapter
  import opened Store
  import opened Oracles
  import opened Http
  import opened Auth
  import Seqs
  import JsText

  /**
    The statement of `pages/api/requests.js` line 11. It is written as a concatenation so that
    the verifier can read its first word and its RETURNING keyword; the text is the same.
  */
  const CreateSql: string :=
    "insert" + " into leave_requests(user_id,start_date,end_date,reason,status) values($1,$2,$3,$4,$5) "
    + "returning" + " id"

  /** The statement of `pages/api/requests.js` line 16, concatenated as above. */
  const OwnSql: string := "select" + " * from leave_requests where user_id=$1"

  /** The fields `pages/api/requests.js` line 9 destructures from the body. */
  datatype LeaveForm = LeaveForm(startDate: Option<string>, endDate: Option<string>, reason: Option<string>)

  lemma CreateSqlIsReturningInsert()
    ensures Classify(CreateSql) == Insert(true)
  {
    assert CreateSql[..6] == "insert";
    assert CreateSql[93..102] == "returning";
    JsText.LowerOfSmall("insert");
    JsText.LowerOfSmall("returning");
    ClassifyInsertReturning(CreateSql, 93);
  }

  lemma OwnSqlIsSelect()
    ensures Classify(OwnSql) == Select
  {
    assert OwnSql[..6] == "select";
    JsText.LowerOfSmall("select");
    ClassifySelect(OwnSql);
  }

  /** The request that a successful create by `sub` appends. */
  function Filed(db: Db, sub: int, form: LeaveForm): LeaveRequest
    requires form.startDate.Some? && form.endDate.Some?
  {
    LeaveRequest(db.lastRequestId + 1, sub, form.startDate.value, form.endDate.value, form.reason, Pending)
  }

  /**
    `{ id: result.rows[0].id }` for a new request `id`, read from what the backend returns for the
    RETURNING clause: both result shapes report the id.
  */
  function Reply(b: Backend, id: int): (body: Body)
    ensures body == Created(Int(id))
  {
    CreateSqlIsReturningInsert();
    var q := Query(b, CreateSql, EngineAnswer([map["id" := Int(id)]], 1, id));
    Created(Field(q.rows.value[0], "id"))
  }

  /**
    The POST branch for the caller `sub`: insert with status `pending`, answer 201 with the id the
    RETURNING clause reports, or 500 when the engine refuses the row.
  */
  function Create(b: Backend, db: Db, sub: Value, form: LeaveForm): (x: Exchange)
    ensures x.issued == [CreateSql]
    ensures x.response.status == 201 <==>
      sub.Int? && sub.i in UserIds(db) && form.startDate.Some? && form.endDate.Some?
    ensures x.response.status == 201 ==>
      var lr := Filed(db, sub.i, form);
      && x.db == db.(requests := db.requests + [lr], lastRequestId := lr.id)
      && x.response.body == Created(Int(lr.id))
    ensures x.response.status != 201 ==> x.db == db && x.response.status == 500
    ensures (sub.Null? || sub.Undefined?) ==>
      x.response == ServerFailure(Violated(NotNull("leave_requests.user_id")))
  {
    match InsertRequest(db, sub, form.startDate, form.endDate, form.reason, Some(Pending))
    case Failure(v) => Exchange(ServerFailure(Violated(v)), db, [CreateSql])
    case Success(ins) => Exchange(Response(201, Reply(b, ins.id)), ins.db, [CreateSql])
  }

  /**
    The GET branch for the caller `sub`: every stored request whose owner is `sub`, as `select *`
    shows it, each as often as it is stored, and nothing else.
  */
  function ListOwn(b: Backend, db: Db, sub: Value): (x: Exchange)
    ensures x.db == db && x.issued == [OwnSql] && x.response.status == 200
    ensures x.response.body.Rows?
    ensures forall row :: row in x.response.body.rows <==>
      exists lr :: lr in db.requests && Int(lr.userId) == sub && row == RequestRow(lr)
    ensures forall lr ::
      multiset(x.response.body.rows)[RequestRow(lr)] == if Int(lr.userId) == sub then multiset(db.requests)[lr] else 0
  {
    OwnSqlIsSelect();
    var rows := OwnRows(db, sub);
    var q := Query(b, OwnSql, Selected(rows));
    Exchange(Response(200, Rows(q.rows.value)), db, [OwnSql])
  }

  /** What the handler does once `auth` has returned a payload whose subject is `sub`. */
  function Serve(b: Backend, db: Db, sub: Value, req: Request<LeaveForm>): Exchange {
    if req.verb == "POST" then Create(b, db, sub, req.body)
    else if req.verb == "GET" then ListOwn(b, db, sub)
    else Exchange(MethodNotAllowed, db, [])
  }

  /** The handler at time `now`. */
  function Handle(b: Backend, j: Jwt, db: Db, req: Request<LeaveForm>, now: int): (x: Exchange)
    ensures var a := Authenticate(j, req.authorization, now);
      a.user.None? ==> x == Exchange(a.written.value, db, [])
    ensures var a := Authenticate(j, req.authorization, now);
      a.user.Some? ==> x == Serve(b, db, a.user.value.claims.sub, req)
  {
    var a := Authenticate(j, req.authorization, now);
    if a.user.None? then Exchange(a.written.value, db, [])
    else Serve(b, db, a.user.value.claims.sub, req)
  }

  /** Without a verified token the handler answers 401, neither reads nor writes, and leaves the table alone. */
  lemma UnauthenticatedIsInert(b: Backend, j: Jwt, db: Db, req: Request<LeaveForm>, now: int)
    requires Authenticate(j, req.authorization, now).user.None?
    ensures var x := Handle(b, j, db, req, now);
      x.response.status == 401 && x.db == db && x.issued == []
  {
  }

  /** Methods other than POST and GET are refused with 405 after authentication, with no storage access. */
  lemma OtherMethodsRefused(b: Backend, j: Jwt, db: Db, req: Request<LeaveForm>, now: int)
    requires Authenticate(j, req.authorization, now).user.Some?
    requires req.verb != "POST" && req.verb != "GET"
    ensures Handle(b, j, db, req, now) == Exchange(MethodNotAllowed, db, [])
  {
  }

  /**
    A create appends exactly one request, owned by the caller, in the `pending` state, holding
    the dates and reason exactly as sent; nothing already stored changes. The dates are not
    compared with each other and may be empty.
  */
  lemma CreateAppendsOne(b: Backend, db: Db, sub: Value, form: LeaveForm)
    requires Create(b, db, sub, form).response.status == 201
    ensures var db' := Create(b, db, sub, form).db;
      && |db'.requests| == |db.requests| + 1
      && db'.requests[..|db.requests|] == db.requests
      && db'.users == db.users
      && var lr := db'.requests[|db.requests|];
         && Int(lr.userId) == sub && lr.status == Pending
         && lr.startDate == form.startDate.value && lr.endDate == form.endDate.value
         && lr.reason == form.reason
         && Create(b, db, sub, form).response.body == Created(Int(lr.id))
  {
    var lr := Filed(db, sub.i, form);
    assert (db.requests + [lr])[..|db.requests|] == db.requests;
  }

  /** The listing never shows a request owned by someone else. */
  lemma ListOwnIsOwnersOnly(b: Backend, db: Db, sub: Value, row: Record)
    requires row in ListOwn(b, db, sub).response.body.rows
    ensures Field(row, "user_id") == sub
  {
    var lr :| lr in db.requests && Int(lr.userId) == sub && row == RequestRow(lr);
    RequestRowOwner(lr);
  }

  /**
    There is no role check: two tokens for the same subject get the same treatment, whatever
    role each carries.
  */
  lemma RoleIgnored(b: Backend, j1: Jwt, j2: Jwt, db: Db, req1: Request<LeaveForm>, req2: Request<LeaveForm>,
                    now: int)
    requires req1.verb == req2.verb && req1.body == req2.body
    requires Authenticate(j1, req1.authorization, now).user.Some?
    requires Authenticate(j2, req2.authorization, now).user.Some?
    requires Authenticate(j1, req1.authorization, now).user.value.claims.sub
          == Authenticate(j2, req2.authorization, now).user.value.claims.sub
    ensures Handle(b, j1, db, req1, now) == Handle(b, j2, db, req2, now)
  {
  }

  /** The request a caller has just filed shows up in that caller's listing, still pending. */
  lemma CreateThenList(b: Backend, db: Db, sub: Value, form: LeaveForm)
    requires Create(b, db, sub, form).response.status == 201
    ensures var lr := Filed(db, sub.i, form);
      RequestRow(lr) in ListOwn(b, Create(b, db, sub, form).db, sub).response.body.rows
      && Field(RequestRow(lr), "status") == Text("pending")
  {
    var lr := Filed(db, sub.i, form);
    assert lr in Create(b, db, sub, form).db.requests;
  }

  /** The handler keeps the schema's constraints. */
  lemma HandlePreservesValid(b: Backend, j: Jwt, db: Db, req: Request<LeaveForm>, now: int)
    requires Valid(db)
    ensures Valid(Handle(b, j, db, req, now).db)
  {
    var a := Authenticate(j, req.authorization, now);
    if a.user.Some? && req.verb == "POST" {
      var sub := a.user.value.claims.sub;
      var r := InsertRequest(db, sub, req.body.startDate, req.body.endDate, req.body.reason, Some(Pending));
      if r.Success? {
        assert Create(b, db, sub, req.body).db == r.value.db;
      }
    }
  }
}
