/**
  The two tables of the schema in `lib/db.js` and the effect of each statement the handlers
  issue. Ids are AUTOINCREMENT keys: a new row gets one more than the largest id ever issued,
  so ids are never reused. `email` is UNIQUE, `leave_requests.user_id` references `users(id)`
  with foreign keys switched on, and start and end dates are NOT NULL while `reason` is not.
  Time stamps are not modelled.
*/
module Store {
  import opened Wrappers
  import opened Seqs
  import opened Adapter

  /** The values the handlers write into `leave_requests.status`. */
  datatype Status = Pending | Approved | Rejected {
    function Name(): string {
      match this
      case Pending => "pending"
      case Approved => "approved"
      case Rejected => "rejected"
    }
  }

  /** Column defaults of the schema. */
  const DefaultRole: string := "employee"
  const DefaultStatus: Status := Pending

  datatype User = User(id: int, email: string, passwordHash: string, role: string)

  datatype LeaveRequest = LeaveRequest(
    id: int, userId: int, startDate: string, endDate: string, reason: Option<string>, status: Status)

  /** Both tables, in insertion order, with the AUTOINCREMENT counter of each. */
  datatype Db = Db(users: seq<User>, requests: seq<LeaveRequest>, lastUserId: nat, lastRequestId: nat)

  /** A freshly created database file. */
  const Fresh: Db := Db([], [], 0, 0)

  /** The constraint a rejected statement violated. */
  datatype Violation = UniqueEmail | NotNull(column: string) | ForeignKey

  /** A successful insert: the new state and the id of the new row. */
  datatype Inserted = Inserted(db: Db, id: int)

  function UserIds(db: Db): set<int> {
    set u | u in db.users :: u.id
  }

  predicate Registered(db: Db, email: string) {
    exists u | u in db.users :: u.email == email
  }

  /** The constraints of the schema, which every reachable state satisfies. */
  predicate Valid(db: Db) {
    && (forall i :: 0 <= i < |db.users| ==> 1 <= db.users[i].id <= db.lastUserId)
    && (forall i, j :: 0 <= i < j < |db.users| ==> db.users[i].id != db.users[j].id)
    && (forall i, j :: 0 <= i < j < |db.users| ==> db.users[i].email != db.users[j].email)
    && (forall i :: 0 <= i < |db.requests| ==> 1 <= db.requests[i].id <= db.lastRequestId)
    && (forall i, j :: 0 <= i < j < |db.requests| ==> db.requests[i].id != db.requests[j].id)
    && (forall i :: 0 <= i < |db.requests| ==> db.requests[i].userId in UserIds(db))
  }

  lemma FreshIsValid()
    ensures Valid(Fresh)
  {
  }

  /** `insert into users(email, password_hash, role) values(...)`; an absent role takes the default. */
  function InsertUser(db: Db, email: string, hash: string, role: Option<string>): (r: Result<Inserted, Violation>)
    ensures r.Failure? <==> Registered(db, email)
    ensures r.Failure? ==> r.error == UniqueEmail
    ensures r.Success? ==>
      && r.value.id == db.lastUserId + 1
      && r.value.db == db.(users := db.users + [User(r.value.id, email, hash, role.GetOr(DefaultRole))],
                           lastUserId := r.value.id)
    ensures r.Success? && Valid(db) ==> r.value.id !in UserIds(db) && Valid(r.value.db)
  {
    if Registered(db, email) then Failure(UniqueEmail)
    else
      var id := db.lastUserId + 1;
      var db' := db.(users := db.users + [User(id, email, hash, role.GetOr(DefaultRole))], lastUserId := id);
      assert UserIds(db') == UserIds(db) + {id};
      Success(Inserted(db', id))
  }

  /**
    `insert into leave_requests(user_id, start_date, end_date, reason, status) values(...)`.
    An undefined or null parameter binds as NULL; NOT NULL columns are checked in column order
    before the foreign key. An absent status takes the default.
  */
  function InsertRequest(db: Db, userId: Value, start: Option<string>, end: Option<string>,
                         reason: Option<string>, status: Option<Status>): (r: Result<Inserted, Violation>)
    ensures r.Success? <==> userId.Int? && userId.i in UserIds(db) && start.Some? && end.Some?
    ensures (userId.Null? || userId.Undefined?) ==> r == Failure(NotNull("leave_requests.user_id"))
    ensures r.Success? ==>
      && r.value.id == db.lastRequestId + 1
      && r.value.db == db.(requests := db.requests + [LeaveRequest(r.value.id, userId.i, start.value, end.value,
                                                                   reason, status.GetOr(DefaultStatus))],
                           lastRequestId := r.value.id)
    ensures r.Success? && Valid(db) ==> (forall lr :: lr in db.requests ==> lr.id != r.value.id) && Valid(r.value.db)
  {
    if userId.Null? || userId.Undefined? then Failure(NotNull("leave_requests.user_id"))
    else if start.None? then Failure(NotNull("leave_requests.start_date"))
    else if end.None? then Failure(NotNull("leave_requests.end_date"))
    else if !(userId.Int? && userId.i in UserIds(db)) then Failure(ForeignKey)
    else
      var id := db.lastRequestId + 1;
      var db' := db.(requests := db.requests + [LeaveRequest(id, userId.i, start.value, end.value,
                                                             reason, status.GetOr(DefaultStatus))],
                     lastRequestId := id);
      assert UserIds(db') == UserIds(db);
      Success(Inserted(db', id))
  }

  /** `select id, password_hash, role from users where email = ?`. */
  function UsersByEmail(db: Db, email: string): (r: seq<User>)
    ensures forall u :: u in r <==> u in db.users && u.email == email
    ensures |r| == 0 <==> !Registered(db, email)
  {
    var r := Filter(db.users, (u: User) => u.email == email);
    assert |r| > 0 ==> r[0] in r;
    r
  }

  /** Under the UNIQUE constraint an email selects at most one user. */
  lemma AtMostOneUserPerEmail(db: Db, email: string)
    requires Valid(db)
    ensures |UsersByEmail(db, email)| <= 1
  {
    FilterAtMostOne(db.users, (u: User) => u.email == email);
  }

  /** After a user with a fresh email is appended, that email selects exactly that user. */
  lemma UsersByEmailAfterInsert(db: Db, u: User, last: nat)
    requires !Registered(db, u.email)
    ensures UsersByEmail(db.(users := db.users + [u], lastUserId := last), u.email) == [u]
  {
    var p := (v: User) => v.email == u.email;
    FilterAppend(db.users, [u], p);
    FilterNone(db.users, p);
    assert Filter([u], p) == [u] by {
      assert [u][1..] == [];
    }
  }

  /** The columns the login select reads. */
  function UserRow(u: User): Record {
    map["id" := Int(u.id), "password_hash" := Text(u.passwordHash), "role" := Text(u.role)]
  }

  /** The columns a `returning id, role` clause asks for. */
  function IdRoleRow(u: User): Record {
    map["id" := Int(u.id), "role" := Text(u.role)]
  }

  /** A leave request as `select *` returns it. */
  function RequestRow(lr: LeaveRequest): Record {
    map["id" := Int(lr.id), "user_id" := Int(lr.userId), "start_date" := Text(lr.startDate),
        "end_date" := Text(lr.endDate), "reason" := (if lr.reason.Some? then Text(lr.reason.value) else Null),
        "status" := Text(lr.status.Name())]
  }

  /** Different requests give different rows: `select *` shows every column. */
  lemma RequestRowInjective(a: LeaveRequest, b: LeaveRequest)
    requires RequestRow(a) == RequestRow(b)
    ensures a == b
  {
    assert RequestRow(a)["id"] == RequestRow(b)["id"];
    assert RequestRow(a)["user_id"] == RequestRow(b)["user_id"];
    assert RequestRow(a)["start_date"] == RequestRow(b)["start_date"];
    assert RequestRow(a)["end_date"] == RequestRow(b)["end_date"];
    assert RequestRow(a)["reason"] == RequestRow(b)["reason"];
    assert RequestRow(a)["status"] == RequestRow(b)["status"];
  }

  /** A request's row names its owner. */
  lemma RequestRowOwner(lr: LeaveRequest)
    ensures Field(RequestRow(lr), "user_id") == Int(lr.userId)
  {
  }

  /** A leave request joined with its owner's email. */
  function PendingRow(lr: LeaveRequest, email: string): Record {
    RequestRow(lr)["email" := Text(email)]
  }

  /** The joined row carries the request's own id. */
  lemma PendingRowId(lr: LeaveRequest, email: string)
    ensures Field(PendingRow(lr, email), "id") == Int(lr.id)
  {
  }

  /** `select * from leave_requests where user_id = ?`, in storage order. */
  function OwnRequests(db: Db, userId: Value): (r: seq<LeaveRequest>)
    ensures forall lr :: lr in r <==> lr in db.requests && Int(lr.userId) == userId
    ensures forall lr :: multiset(r)[lr] == if Int(lr.userId) == userId then multiset(db.requests)[lr] else 0
  {
    var p := (lr: LeaveRequest) => Int(lr.userId) == userId;
    forall lr ensures multiset(Filter(db.requests, p))[lr] == if p(lr) then multiset(db.requests)[lr] else 0 {
      FilterCount(db.requests, p, lr);
    }
    Filter(db.requests, p)
  }

  /** The rows `select * from leave_requests where user_id = ?` returns: each owned request once per copy stored. */
  function OwnRows(db: Db, userId: Value): (rows: seq<Record>)
    ensures forall row :: row in rows <==> exists lr :: lr in db.requests && Int(lr.userId) == userId && row == RequestRow(lr)
    ensures forall lr ::
      multiset(rows)[RequestRow(lr)] == if Int(lr.userId) == userId then multiset(db.requests)[lr] else 0
  {
    var own := OwnRequests(db, userId);
    RequestRowsOf(own);
    Map(own, RequestRow)
  }

  /** Showing requests as rows keeps each one, as often as it occurs, and adds nothing. */
  lemma RequestRowsOf(own: seq<LeaveRequest>)
    ensures forall row :: row in Map(own, RequestRow) <==> exists lr :: lr in own && row == RequestRow(lr)
    ensures forall lr :: multiset(Map(own, RequestRow))[RequestRow(lr)] == multiset(own)[lr]
  {
    var rows := Map(own, RequestRow);
    forall row | row in rows ensures exists lr :: lr in own && row == RequestRow(lr) {
      var k :| 0 <= k < |rows| && rows[k] == row;
      assert own[k] in own;
    }
    forall lr | lr in own ensures RequestRow(lr) in rows {
      var k :| 0 <= k < |own| && own[k] == lr;
      assert rows[k] == RequestRow(lr);
    }
    forall a, a' | RequestRow(a) == RequestRow(a') ensures a == a' {
      RequestRowInjective(a, a');
    }
    forall lr ensures multiset(rows)[RequestRow(lr)] == multiset(own)[lr] {
      MapCount(own, RequestRow, lr);
    }
  }

  /** The users the join pairs with request `lr`: those whose id is its owner. */
  function Owners(lr: LeaveRequest, users: seq<User>): seq<User> {
    Filter(users, (u: User) => u.id == lr.userId)
  }

  /** The rows the join produces for one request: one per user whose id is its owner. */
  function OwnerRows(lr: LeaveRequest, users: seq<User>): (r: seq<Record>)
    ensures |r| == |Owners(lr, users)|
    ensures forall row :: row in r <==> exists u :: u in users && u.id == lr.userId && row == PendingRow(lr, u.email)
  {
    var owners := Owners(lr, users);
    var r := Map(owners, (u: User) => PendingRow(lr, u.email));
    assert forall row :: row in r ==> exists u :: u in owners && row == PendingRow(lr, u.email);
    assert forall u :: u in owners ==> PendingRow(lr, u.email) in r by {
      forall u | u in owners ensures PendingRow(lr, u.email) in r {
        var k :| 0 <= k < |owners| && owners[k] == u;
        assert r[k] == PendingRow(lr, u.email);
      }
    }
    r
  }

  /**
    In a valid state every stored request has exactly one owner, so the join yields exactly one
    row for it.
  */
  lemma OneOwner(db: Db, lr: LeaveRequest)
    requires Valid(db) && lr in db.requests
    ensures |Owners(lr, db.users)| == 1
    ensures |OwnerRows(lr, db.users)| == 1
  {
    var owners := Owners(lr, db.users);
    var k :| 0 <= k < |db.requests| && db.requests[k] == lr;
    var u :| u in db.users && u.id == lr.userId;
    assert u in owners;
    FilterAtMostOne(db.users, (u: User) => u.id == lr.userId);
  }

  /**
    `select lr.*, u.email from leave_requests lr join users u on lr.user_id = u.id
    where lr.status = 'pending'`, in storage order.
  */
  function PendingRows(requests: seq<LeaveRequest>, users: seq<User>): (r: seq<Record>)
    ensures forall row :: row in r <==>
      exists lr, u :: lr in requests && u in users && lr.status == Pending && u.id == lr.userId
                      && row == PendingRow(lr, u.email)
    decreases |requests|
  {
    if |requests| == 0 then []
    else
      var here := if requests[0].status == Pending then OwnerRows(requests[0], users) else [];
      var rest := PendingRows(requests[1..], users);
      assert forall lr :: lr in requests <==> lr == requests[0] || lr in requests[1..];
      here + rest
  }

  predicate IsPending(lr: LeaveRequest) {
    lr.status == Pending
  }

  /** When every request has exactly one owner, the pending join gives one row per pending request. */
  lemma {:induction false} PendingRowsCount(requests: seq<LeaveRequest>, users: seq<User>)
    requires forall lr :: lr in requests ==> |Owners(lr, users)| == 1
    ensures |PendingRows(requests, users)| == |Filter(requests, IsPending)|
    decreases |requests|
  {
    if |requests| > 0 {
      assert requests[0] in requests;
      PendingRowsCount(requests[1..], users);
    }
  }

  /** A row of the pending join carries the id of some request it was built from. */
  lemma PendingRowFrom(requests: seq<LeaveRequest>, users: seq<User>, row: Record)
    requires row in PendingRows(requests, users)
    ensures exists k :: 0 <= k < |requests| && Field(row, "id") == Int(requests[k].id)
  {
    var l, u :| l in requests && u in users && l.status == Pending && u.id == l.userId
                && row == PendingRow(l, u.email);
    var k :| 0 <= k < |requests| && requests[k] == l;
    PendingRowId(l, u.email);
  }

  /** The rows joined for a request differ from every row joined for requests with other ids. */
  lemma PendingRowsOtherIds(lr: LeaveRequest, tail: seq<LeaveRequest>, users: seq<User>)
    requires forall l :: l in tail ==> l.id != lr.id
    ensures forall row :: row in OwnerRows(lr, users) ==> row !in PendingRows(tail, users)
  {
    forall row | row in OwnerRows(lr, users) ensures row !in PendingRows(tail, users) {
      var u :| u in users && u.id == lr.userId && row == PendingRow(lr, u.email);
      PendingRowId(lr, u.email);
      if row in PendingRows(tail, users) {
        PendingRowFrom(tail, users, row);
        assert false;
      }
    }
  }

  /** With distinct request ids, the pending join never gives the same row twice. */
  lemma {:induction false} PendingRowsDistinct(requests: seq<LeaveRequest>, users: seq<User>)
    requires forall lr :: lr in requests ==> |Owners(lr, users)| == 1
    requires forall i, j :: 0 <= i < j < |requests| ==> requests[i].id != requests[j].id
    ensures Distinct(PendingRows(requests, users))
    decreases |requests|
  {
    if |requests| > 0 {
      var lr := requests[0];
      var tail := requests[1..];
      assert forall l :: l in tail ==> l in requests && l.id != lr.id by {
        forall l | l in tail ensures l in requests && l.id != lr.id {
          var k :| 0 <= k < |tail| && tail[k] == l;
          assert requests[k + 1] == l;
        }
      }
      assert forall i, j :: 0 <= i < j < |tail| ==> tail[i].id != tail[j].id by {
        forall i, j | 0 <= i < j < |tail| ensures tail[i].id != tail[j].id {
          assert tail[i] == requests[i + 1] && tail[j] == requests[j + 1];
        }
      }
      assert lr in requests;
      PendingRowsDistinct(tail, users);
      PendingRowsOtherIds(lr, tail, users);
      var here := if IsPending(lr) then OwnerRows(lr, users) else [];
      DistinctConcat(here, PendingRows(tail, users));
    }
  }

  /** In a valid state the pending join lists every pending request exactly once. */
  lemma PendingOncePerRequest(db: Db)
    requires Valid(db)
    ensures |PendingRows(db.requests, db.users)| == |Filter(db.requests, IsPending)|
    ensures Distinct(PendingRows(db.requests, db.users))
  {
    forall lr | lr in db.requests ensures |Owners(lr, db.users)| == 1 {
      OneOwner(db, lr);
    }
    PendingRowsCount(db.requests, db.users);
    PendingRowsDistinct(db.requests, db.users);
  }

  /** Every row the pending query returns is in the `pending` state. */
  lemma PendingRowsArePending(db: Db, row: Record)
    requires row in PendingRows(db.requests, db.users)
    ensures Field(row, "status") == Text("pending")
  {
  }

  /** `update leave_requests set status = ? where id = ?`: the table after the update. */
  function SetStatus(requests: seq<LeaveRequest>, id: Value, st: Status): (r: seq<LeaveRequest>)
    ensures |r| == |requests|
    ensures forall k :: 0 <= k < |r| ==>
      r[k] == (if Int(requests[k].id) == id then requests[k].(status := st) else requests[k])
  {
    Map(requests, (lr: LeaveRequest) => if Int(lr.id) == id then lr.(status := st) else lr)
  }

  /** The state after the status update; only `status` columns change, and the constraints still hold. */
  function UpdateStatus(db: Db, id: Value, st: Status): (db': Db)
    ensures db'.users == db.users && db'.lastUserId == db.lastUserId && db'.lastRequestId == db.lastRequestId
    ensures |db'.requests| == |db.requests|
    ensures Valid(db) ==> Valid(db')
  {
    var db' := db.(requests := SetStatus(db.requests, id, st));
    assert forall k :: 0 <= k < |db.requests| ==>
      db'.requests[k].id == db.requests[k].id && db'.requests[k].userId == db.requests[k].userId;
    db'
  }

  /** The engine's answer to a select that found `rows`. */
  function Selected(rows: seq<Record>): EngineAnswer {
    EngineAnswer(rows, |rows|, 0)
  }
}
