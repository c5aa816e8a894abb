/**
  `pages/api/admin/requests.js`: only a token whose role is `admin` gets past the gate. GET lists
  the pending requests joined with their owners' emails; POST sets the status of the request with
  the given id to `approved` when the action is `approve` and to `rejected` for any other action,
  whatever the request's current status and whether or not such a request exists.
*/
module AdminRequests {
  import opened Wrappers
  import JsText
  import opened Adapter
  import opened Store
  import opened Oracles
  import opened Http
  import opened Auth
  import EmployeeRequests
  import Seqs

  /**
    The statement of `pages/api/admin/requests.js` line 11. It is written as a concatenation so
    that the verifier can read its first word; the text is the same.
  */
  const PendingSql: string :=
    "select" + " lr.*, u.email from leave_requests lr join users u on lr.user_id = u.id where lr.status = $1"

  /** The statement of `pages/api/admin/requests.js` line 18, concatenated as above. */
  const ResolveSql: string := "update" + " leave_requests set status=$1 where id=$2"

  const Forbidden: string := "Forbidden"

  /** The fields `pages/api/admin/requests.js` line 16 destructures from the body; `id` is bound to the statement as sent. */
  datatype Decision = Decision(id: Value, action: Option<string>)

  lemma PendingSqlIsSelect()
    ensures Classify(PendingSql) == Select
  {
    assert PendingSql[..6] == "select";
    JsText.LowerOfSmall("select");
    ClassifySelect(PendingSql);
  }

  /** The update is neither a select nor an insert, so the adapter reports only `rowCount`. */
  lemma ResolveSqlIsOther()
    ensures Classify(ResolveSql) == Other
  {
    assert ResolveSql[..6] == "update";
    JsText.LowerOfSmall("update");
    ClassifyOther(ResolveSql);
  }

  /** `action === 'approve' ? 'approved' : 'rejected'`: only the exact word approves; anything else, or nothing, rejects. */
  function Decide(action: Option<string>): (st: Status)
    ensures st != Pending
    ensures st == Approved <==> action == Some("approve")
    ensures st == Rejected <==> action != Some("approve")
  {
    if action == Some("approve") then Approved else Rejected
  }

  /**
    The GET branch: the pending requests, each with its owner's email. In a valid state there is
    one row per pending request and no row twice.
  */
  function ListPending(b: Backend, db: Db): (x: Exchange)
    ensures x.db == db && x.issued == [PendingSql] && x.response.status == 200
    ensures x.response.body.Rows?
    ensures forall row :: row in x.response.body.rows <==>
      exists lr, u :: lr in db.requests && u in db.users && lr.status == Pending && u.id == lr.userId
                      && row == PendingRow(lr, u.email)
    ensures Valid(db) ==>
      && |x.response.body.rows| == |Seqs.Filter(db.requests, IsPending)|
      && Seqs.Distinct(x.response.body.rows)
  {
    PendingSqlIsSelect();
    assert Valid(db) ==> && |PendingRows(db.requests, db.users)| == |Seqs.Filter(db.requests, IsPending)|
                         && Seqs.Distinct(PendingRows(db.requests, db.users)) by {
      if Valid(db) {
        PendingOncePerRequest(db);
      }
    }
    var q := Query(b, PendingSql, Selected(PendingRows(db.requests, db.users)));
    Exchange(Response(200, Rows(q.rows.value)), db, [PendingSql])
  }

  /**
    The POST branch: every request whose id equals the one sent gets the decided status and
    nothing else changes; the answer is 200 with that status even when no request matched.
  */
  function Resolve(db: Db, d: Decision): (x: Exchange)
    ensures x.issued == [ResolveSql]
    ensures x.response == Response(200, Resolved(Decide(d.action).Name()))
    ensures x.db.users == db.users && x.db.lastUserId == db.lastUserId && x.db.lastRequestId == db.lastRequestId
    ensures |x.db.requests| == |db.requests|
    ensures forall k :: 0 <= k < |db.requests| ==>
      x.db.requests[k] == if Int(db.requests[k].id) == d.id then db.requests[k].(status := Decide(d.action))
                          else db.requests[k]
  {
    var st := Decide(d.action);
    Exchange(Response(200, Resolved(st.Name())), UpdateStatus(db, d.id, st), [ResolveSql])
  }

  /** What the handler does once `auth` has returned a payload whose role is `role`. */
  function Serve(b: Backend, db: Db, role: Value, req: Request<Decision>): Exchange {
    if role != Text("admin") then Exchange(Response(403, Message(Forbidden)), db, [])
    else if req.verb == "GET" then ListPending(b, db)
    else if req.verb == "POST" then Resolve(db, req.body)
    else Exchange(MethodNotAllowed, db, [])
  }

  /** The handler at time `now`. */
  function Handle(b: Backend, j: Jwt, db: Db, req: Request<Decision>, now: int): (x: Exchange)
    ensures var a := Authenticate(j, req.authorization, now);
      a.user.None? ==> x == Exchange(a.written.value, db, [])
    ensures var a := Authenticate(j, req.authorization, now);
      a.user.Some? ==> x == Serve(b, db, a.user.value.claims.role, req)
  {
    var a := Authenticate(j, req.authorization, now);
    if a.user.None? then Exchange(a.written.value, db, [])
    else Serve(b, db, a.user.value.claims.role, req)
  }

  /** Without a verified token the handler stops at 401 before the role check and before any storage access. */
  lemma UnauthenticatedIsInert(b: Backend, j: Jwt, db: Db, req: Request<Decision>, now: int)
    requires Authenticate(j, req.authorization, now).user.None?
    ensures var x := Handle(b, j, db, req, now);
      x.response.status == 401 && x.db == db && x.issued == []
  {
  }

  /** A verified caller whose role is not `admin` gets 403 for every method, and the table is neither read nor written. */
  lemma NonAdminForbidden(b: Backend, j: Jwt, db: Db, req: Request<Decision>, now: int)
    requires Authenticate(j, req.authorization, now).user.Some?
    requires Authenticate(j, req.authorization, now).user.value.claims.role != Text("admin")
    ensures Handle(b, j, db, req, now) == Exchange(Response(403, Message(Forbidden)), db, [])
  {
  }

  /** An admin using a method other than GET or POST gets 405 with no storage access. */
  lemma AdminOtherMethodsRefused(b: Backend, j: Jwt, db: Db, req: Request<Decision>, now: int)
    requires Authenticate(j, req.authorization, now).user.Some?
    requires Authenticate(j, req.authorization, now).user.value.claims.role == Text("admin")
    requires req.verb != "GET" && req.verb != "POST"
    ensures Handle(b, j, db, req, now) == Exchange(MethodNotAllowed, db, [])
  {
  }

  /** An approved or rejected request never appears in the pending list. */
  lemma ResolvedNeverListed(b: Backend, db: Db, lr: LeaveRequest, email: string)
    requires lr.status != Pending
    ensures PendingRow(lr, email) !in ListPending(b, db).response.body.rows
  {
    var row := PendingRow(lr, email);
    if row in ListPending(b, db).response.body.rows {
      PendingRowsArePending(db, row);
    }
  }

  /** Resolving an id that no request has still answers 200 with the decided status, and changes nothing. */
  lemma ResolveUnknownId(db: Db, d: Decision)
    requires forall lr :: lr in db.requests ==> Int(lr.id) != d.id
    ensures Resolve(db, d) == Exchange(Response(200, Resolved(Decide(d.action).Name())), db, [ResolveSql])
  {
    var x := Resolve(db, d);
    assert x.db.requests == db.requests;
  }

  /**
    The current status is not checked, so a decided request can be decided again either way;
    but no request that has left `pending` is ever put back.
  */
  lemma ReResolve(db: Db, d: Decision, k: nat)
    requires k < |db.requests| && Int(db.requests[k].id) == d.id
    ensures Resolve(db, d).db.requests[k].status == Decide(d.action)
    ensures Resolve(db, d).db.requests[k].status != Pending
  {
  }

  lemma NeverBackToPending(db: Db, d: Decision, k: nat)
    requires k < |db.requests| && db.requests[k].status != Pending
    ensures Resolve(db, d).db.requests[k].status != Pending
  {
  }

  /** After a decision on `id`, no request with that id is pending, so it drops out of the admin's list. */
  lemma ResolveLeavesPendingList(b: Backend, db: Db, d: Decision, row: Record)
    requires row in ListPending(b, Resolve(db, d).db).response.body.rows
    ensures Field(row, "id") != d.id
  {
    var db' := Resolve(db, d).db;
    var l, u :| l in db'.requests && u in db'.users && l.status == Pending && u.id == l.userId
                && row == PendingRow(l, u.email);
    var k :| 0 <= k < |db'.requests| && db'.requests[k] == l;
    assert db.requests[k] == l;
    PendingRowId(l, u.email);
  }

  /** After a decision on a request, its owner's own list shows it with the decided status. */
  lemma ResolveShownToOwner(b: Backend, db: Db, d: Decision, lr: LeaveRequest)
    requires lr in db.requests && Int(lr.id) == d.id
    ensures RequestRow(lr.(status := Decide(d.action)))
      in EmployeeRequests.ListOwn(b, Resolve(db, d).db, Int(lr.userId)).response.body.rows
  {
    var db' := Resolve(db, d).db;
    var k :| 0 <= k < |db.requests| && db.requests[k] == lr;
    assert db'.requests[k] == lr.(status := Decide(d.action));
    assert db'.requests[k] in db'.requests;
  }

  /** The handler keeps the schema's constraints. */
  lemma HandlePreservesValid(b: Backend, j: Jwt, db: Db, req: Request<Decision>, now: int)
    requires Valid(db)
    ensures Valid(Handle(b, j, db, req, now).db)
  {
  }
}
