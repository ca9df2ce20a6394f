/** The admin-request lifecycle as pure steps over a snapshot of the two collections:
    submitting a request, approving or rejecting it, and suspending or activating an
    account. Each step returns the handler's reply and the collections afterwards. */
module AdminWorkflow {
  import opened AdminTypes
  import JsText
  import Listing

  /** A snapshot of the two collections. */
  datatype Db = Db(requests: map<Id, AdminRequest>, users: map<Id, User>)

  /** A handler's reply and the collections it leaves behind. */
  datatype Step<+T> = Step(reply: Reply<T>, db: Db)

  /** `!reason || reason.trim() === ""`: the reason is absent, or all white space. */
  function ReasonMissing(reason: Option<string>): (missing: bool)
    ensures missing <==> reason.None? || JsText.IsBlank(reason.value)
  {
    reason.None? || JsText.Trim(reason.value) == ""
  }

  /** `findOne({ user, status: "pending" })` finds something. */
  predicate HasPending(requests: map<Id, AdminRequest>, user: Id) {
    exists id :: id in requests && requests[id].user == user && requests[id].status == Pending
  }

  /** `findOne({ _id: id, status: "pending" })` finds something. */
  predicate IsPending(requests: map<Id, AdminRequest>, id: Id) {
    id in requests && requests[id].status == Pending
  }

  /** No user has two pending requests. */
  ghost predicate AtMostOnePending(requests: map<Id, AdminRequest>) {
    forall a: Id, b: Id :: IsPending(requests, a) && IsPending(requests, b) && a != b ==> requests[a].user != requests[b].user
  }

  /** A request carries a decision stamp exactly when it is no longer pending. */
  ghost predicate Stamped(r: AdminRequest) {
    if r.status == Pending then r.processedBy.None? && r.processedAt.None?
    else r.processedBy.Some? && r.processedAt.Some?
  }

  /** The invariant the handlers keep when run one at a time. */
  ghost predicate Consistent(db: Db) {
    && AtMostOnePending(db.requests)
    && forall id :: id in db.requests ==> Stamped(db.requests[id])
  }

  /** From `before` to `after` no request disappears, a decided request never changes,
      and a request still pending afterwards was not touched. */
  ghost predicate Settles(before: map<Id, AdminRequest>, after: map<Id, AdminRequest>) {
    forall id :: id in before ==>
      && id in after
      && (before[id].status != Pending ==> after[id] == before[id])
      && (after[id].status == Pending ==> after[id] == before[id])
  }

  /** The decision on a request: its new status and who made it when. */
  function Decide(r: AdminRequest, outcome: RequestStatus, admin: Id, now: Time): (d: AdminRequest)
    ensures d.status == outcome && d.processedBy == Some(admin) && d.processedAt == Some(now)
    ensures d.user == r.user && d.reason == r.reason && d.experience == r.experience && d.createdAt == r.createdAt
    ensures outcome != Pending ==> Stamped(d)
  {
    r.(status := outcome, processedBy := Some(admin), processedAt := Some(now))
  }

  /** requestAdminAccess. */
  function Submit(db: Db, caller: Id, reason: Option<string>, experience: Option<string>, newId: Id, now: Time)
    : (s: Step<AdminRequest>)
    requires newId !in db.requests
    ensures s.reply.Ok? || s.reply.BadRequest?
    ensures s.reply.BadRequest? <==> ReasonMissing(reason) || HasPending(db.requests, caller)
    ensures s.reply.BadRequest? ==> s.db == db
    ensures s.reply.Ok? ==>
      && s.reply.body == AdminRequest(caller, reason.value, experience, Pending, None, None, now)
      && s.db == Db(db.requests[newId := s.reply.body], db.users)
  {
    if ReasonMissing(reason) || HasPending(db.requests, caller) then Step(BadRequest, db)
    else
      var request := AdminRequest(caller, reason.value, experience, Pending, None, None, now);
      Step(Ok(request), Db(db.requests[newId := request], db.users))
  }

  /** approveRequest. A requester whose account is gone is simply not promoted. */
  function Approve(db: Db, id: Id, admin: Id, now: Time): (s: Step<()>)
    ensures s.reply.Ok? || s.reply.NotFound?
    ensures s.reply.NotFound? <==> !IsPending(db.requests, id)
    ensures s.reply.NotFound? ==> s.db == db
    ensures s.reply.Ok? ==>
      var requester := db.requests[id].user;
      && s.db.requests == db.requests[id := Decide(db.requests[id], Approved, admin, now)]
      && s.db.users.Keys == db.users.Keys
      && (requester in db.users ==> s.db.users[requester] == db.users[requester].(role := Admin))
      && (forall u :: u in db.users && u != requester ==> s.db.users[u] == db.users[u])
  {
    if !IsPending(db.requests, id) then Step(NotFound, db)
    else
      var request := db.requests[id];
      var users := if request.user in db.users
        then db.users[request.user := db.users[request.user].(role := Admin)]
        else db.users;
      Step(Ok(()), Db(db.requests[id := Decide(request, Approved, admin, now)], users))
  }

  /** rejectRequest: one conditional update; no account changes. */
  function Reject(db: Db, id: Id, admin: Id, now: Time): (s: Step<()>)
    ensures s.reply.Ok? || s.reply.NotFound?
    ensures s.reply.NotFound? <==> !IsPending(db.requests, id)
    ensures s.reply.NotFound? ==> s.db == db
    ensures s.reply.Ok? ==>
      && s.db.requests == db.requests[id := Decide(db.requests[id], Rejected, admin, now)]
      && s.db.users == db.users
  {
    if !IsPending(db.requests, id) then Step(NotFound, db)
    else Step(Ok(()), Db(db.requests[id := Decide(db.requests[id], Rejected, admin, now)], db.users))
  }

  /** The status an action asks for: "suspend" and "activate" only. */
  function ActionStatus(action: Option<string>): (status: Option<AccountStatus>)
    ensures status == Some(Suspended) <==> action == Some("suspend")
    ensures status == Some(Active) <==> action == Some("activate")
  {
    if action == Some("suspend") then Some(Suspended)
    else if action == Some("activate") then Some(Active)
    else None
  }

  /** updateUserStatus: the action is checked before the account is looked up. */
  function UpdateStatus(db: Db, userId: Id, action: Option<string>): (s: Step<()>)
    ensures s.reply.Ok? || s.reply.BadRequest? || s.reply.NotFound?
    ensures s.reply.BadRequest? <==> action != Some("suspend") && action != Some("activate")
    ensures s.reply.NotFound? <==> !s.reply.BadRequest? && userId !in db.users
    ensures !s.reply.Ok? ==> s.db == db
    ensures s.reply.Ok? ==>
      && s.db.requests == db.requests
      && s.db.users == db.users[userId := db.users[userId].(status := ActionStatus(action))]
      && s.db.users[userId].status == Some(if action == Some("suspend") then Suspended else Active)
  {
    var status := ActionStatus(action);
    if status.None? then Step(BadRequest, db)
    else if userId !in db.users then Step(NotFound, db)
    else Step(Ok(()), Db(db.requests, db.users[userId := db.users[userId].(status := status)]))
  }

  /** Adding a pending request for a user who has none keeps the invariant, and touches
      no existing request. */
  lemma AddPendingKeeps(db: Db, newId: Id, request: AdminRequest)
    requires newId !in db.requests
    requires request.status == Pending && Stamped(request)
    requires !HasPending(db.requests, request.user)
    ensures Consistent(db) ==> Consistent(Db(db.requests[newId := request], db.users))
    ensures Settles(db.requests, db.requests[newId := request])
  {
    // The new request is the only pending one of its user, since none existed before.
    assert forall k: Id :: IsPending(db.requests, k) ==> db.requests[k].user != request.user;
  }

  /** A new pending request goes only to a caller without one, so the invariant holds on;
      existing requests are untouched. */
  lemma SubmitKeeps(db: Db, caller: Id, reason: Option<string>, experience: Option<string>, newId: Id, now: Time)
    requires newId !in db.requests
    ensures var after := Submit(db, caller, reason, experience, newId, now).db;
      && (Consistent(db) ==> Consistent(after))
      && Settles(db.requests, after.requests)
  {
    var s := Submit(db, caller, reason, experience, newId, now);
    if s.reply.Ok? {
      AddPendingKeeps(db, newId, s.reply.body);
    }
  }

  /** Approving stamps the one request it decides and removes a pending request, so the
      invariant holds on; the decided request stays decided. */
  lemma ApproveKeeps(db: Db, id: Id, admin: Id, now: Time)
    ensures var after := Approve(db, id, admin, now).db;
      && (Consistent(db) ==> Consistent(after))
      && Settles(db.requests, after.requests)
  {
  }

  /** Rejecting keeps the invariant in the same way as approving. */
  lemma RejectKeeps(db: Db, id: Id, admin: Id, now: Time)
    ensures var after := Reject(db, id, admin, now).db;
      && (Consistent(db) ==> Consistent(after))
      && Settles(db.requests, after.requests)
  {
  }

  // ---------------------------------------------------------------- sequences of calls

  /** One handler call, with the clock reading it sees. */
  datatype Call =
    | RequestAccess(caller: Id, reason: Option<string>, experience: Option<string>, now: Time)
    | ApproveCall(id: Id, admin: Id, now: Time)
    | RejectCall(id: Id, admin: Id, now: Time)
    | StatusCall(userId: Id, action: Option<string>)

  /** The collections after one call; a new request gets an identifier no request uses. */
  function Apply(db: Db, call: Call): Db {
    match call
    case RequestAccess(caller, reason, experience, now) =>
      Submit(db, caller, reason, experience, Listing.NextId(db.requests.Keys), now).db
    case ApproveCall(id, admin, now) => Approve(db, id, admin, now).db
    case RejectCall(id, admin, now) => Reject(db, id, admin, now).db
    case StatusCall(userId, action) => UpdateStatus(db, userId, action).db
  }

  /** The collections after the calls, one at a time. */
  function Run(db: Db, calls: seq<Call>): Db
    decreases |calls|
  {
    if calls == [] then db else Run(Apply(db, calls[0]), calls[1..])
  }

  lemma SettlesTransitive(a: map<Id, AdminRequest>, b: map<Id, AdminRequest>, c: map<Id, AdminRequest>)
    requires Settles(a, b) && Settles(b, c)
    ensures Settles(a, c)
  {
  }

  /** Every call keeps the invariant and settles the requests. */
  lemma ApplyKeeps(db: Db, call: Call)
    ensures Consistent(db) ==> Consistent(Apply(db, call))
    ensures Settles(db.requests, Apply(db, call).requests)
  {
    match call
    case RequestAccess(caller, reason, experience, now) =>
      SubmitKeeps(db, caller, reason, experience, Listing.NextId(db.requests.Keys), now);
    case ApproveCall(id, admin, now) => ApproveKeeps(db, id, admin, now);
    case RejectCall(id, admin, now) => RejectKeeps(db, id, admin, now);
    case StatusCall(userId, action) =>
  }

  /** Any sequence of calls keeps the invariant: in particular, no user ever has two
      pending requests. */
  lemma {:induction false} RunKeepsConsistent(db: Db, calls: seq<Call>)
    requires Consistent(db)
    ensures Consistent(Run(db, calls))
    decreases |calls|
  {
    if calls != [] {
      ApplyKeeps(db, calls[0]);
      RunKeepsConsistent(Apply(db, calls[0]), calls[1..]);
    }
  }

  /** Over any sequence of calls, requests are never removed and a decision, once made,
      is final. */
  lemma {:induction false} RunSettles(db: Db, calls: seq<Call>)
    ensures Settles(db.requests, Run(db, calls).requests)
    decreases |calls|
  {
    if calls != [] {
      var next := Apply(db, calls[0]);
      ApplyKeeps(db, calls[0]);
      RunSettles(next, calls[1..]);
      SettlesTransitive(db.requests, next.requests, Run(next, calls[1..]).requests);
    }
  }

  /** No request is decided twice: once approved or rejected, every later approve or
      reject of it, after any calls, is NotFound and changes nothing. */
  lemma DecidedStaysDecided(db: Db, calls: seq<Call>, id: Id, admin: Id, now: Time)
    requires id in db.requests && db.requests[id].status != Pending
    ensures var later := Run(db, calls);
      && id in later.requests && later.requests[id] == db.requests[id]
      && Approve(later, id, admin, now) == Step(NotFound, later)
      && Reject(later, id, admin, now) == Step(NotFound, later)
  {
    RunSettles(db, calls);
  }
}
