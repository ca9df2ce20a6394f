/** The handlers that change the collections, as methods of a controller that owns
    them. Each call is atomic; the caller's identity, the clock and new identifiers are
    handed in. */
module Controller {
  import opened AdminTypes
  import opened AdminWorkflow
  import JsText

  class AdminController {
    /** The admin-request collection, by identifier. */
    var requests: map<Id, AdminRequest>
    /** The user collection, by identifier. */
    var users: map<Id, User>

    function Snapshot(): Db
      reads this
    {
      Db(requests, users)
    }

    /** A controller over the given accounts and no admin requests yet. */
    constructor (accounts: map<Id, User>)
      ensures requests == map[] && users == accounts
      ensures Consistent(Snapshot())
    {
      requests := map[];
      users := accounts;
    }

    /** requestAdminAccess: validate the reason, refuse a second pending request, then
        store a new pending request under the fresh identifier `newId`. */
    method RequestAdminAccess(caller: Id, reason: Option<string>, experience: Option<string>, newId: Id, now: Time)
      returns (reply: Reply<AdminRequest>)
      requires newId !in requests
      modifies this
      ensures Step(reply, Snapshot()) == Submit(old(Snapshot()), caller, reason, experience, newId, now)
      ensures Consistent(old(Snapshot())) ==> Consistent(Snapshot())
    {
      if reason.None? || JsText.Trim(reason.value) == "" {
        return BadRequest;
      }
      if HasPending(requests, caller) {
        return BadRequest;
      }
      var request := AdminRequest(caller, reason.value, experience, Pending, None, None, now);
      requests := requests[newId := request];
      reply := Ok(request);
      SubmitKeeps(old(Snapshot()), caller, reason, experience, newId, now);
    }

    /** approveRequest: find the pending request, promote its requester, then record the
        decision on the request. */
    method ApproveRequest(id: Id, admin: Id, now: Time) returns (reply: Reply<()>)
      modifies this
      ensures Step(reply, Snapshot()) == Approve(old(Snapshot()), id, admin, now)
      ensures Consistent(old(Snapshot())) ==> Consistent(Snapshot())
    {
      if !(id in requests && requests[id].status == Pending) {
        return NotFound;
      }
      var request := requests[id];
      if request.user in users {
        users := users[request.user := users[request.user].(role := Admin)];
      }
      request := request.(status := Approved);
      request := request.(processedBy := Some(admin));
      request := request.(processedAt := Some(now));
      requests := requests[id := request];
      reply := Ok(());
      ApproveKeeps(old(Snapshot()), id, admin, now);
    }

    /** rejectRequest: a single conditional update of a pending request. */
    method RejectRequest(id: Id, admin: Id, now: Time) returns (reply: Reply<()>)
      modifies this
      ensures Step(reply, Snapshot()) == Reject(old(Snapshot()), id, admin, now)
      ensures Consistent(old(Snapshot())) ==> Consistent(Snapshot())
      ensures users == old(users)
    {
      if id in requests && requests[id].status == Pending {
        requests := requests[id := requests[id].(status := Rejected, processedBy := Some(admin), processedAt := Some(now))];
        reply := Ok(());
      } else {
        reply := NotFound;
      }
      RejectKeeps(old(Snapshot()), id, admin, now);
    }

    /** updateUserStatus: check the action, then set the account's status. */
    method UpdateUserStatus(userId: Id, action: Option<string>) returns (reply: Reply<()>)
      modifies this
      ensures Step(reply, Snapshot()) == UpdateStatus(old(Snapshot()), userId, action)
      ensures requests == old(requests)
    {
      if action != Some("suspend") && action != Some("activate") {
        return BadRequest;
      }
      var status := if action == Some("suspend") then Suspended else Active;
      if userId !in users {
        return NotFound;
      }
      users := users[userId := users[userId].(status := Some(status))];
      reply := Ok(());
    }
  }
}
