/** The workflow end to end: a request is submitted, listed, approved, and then gone from
    the pending listing, with its requester promoted and a second approval refused. */
module AdminScenario {
  import opened AdminTypes
  import opened AdminWorkflow
  import opened AdminViews
  import JsText

  /** A caller with a pending request cannot submit another one. */
  lemma SubmitBlocksSecond(db: Db, caller: Id, reason: Option<string>, experience: Option<string>,
                           newId: Id, now: Time, reason2: Option<string>, experience2: Option<string>,
                           newId2: Id, now2: Time)
    requires newId !in db.requests && newId2 !in db.requests && newId2 != newId
    requires !ReasonMissing(reason) && !HasPending(db.requests, caller)
    ensures var after := Submit(db, caller, reason, experience, newId, now).db;
      Submit(after, caller, reason2, experience2, newId2, now2) == Step(BadRequest, after)
  {
    var after := Submit(db, caller, reason, experience, newId, now).db;
    assert after.requests[newId].user == caller && after.requests[newId].status == Pending;
  }

  /** A fresh request of a caller whose account exists shows in the pending listing. */
  lemma SubmittedIsListed(db: Db, caller: Id, reason: string, experience: Option<string>, newId: Id, now: Time)
    requires caller in db.users && newId !in db.requests
    requires !HasPending(db.requests, caller) && !JsText.IsBlank(reason)
    requires !DanglingRequester(db.requests, db.users)
    ensures var s := Submit(db, caller, Some(reason), experience, newId, now);
      && s.reply.Ok? && s.reply.body.status == Pending
      && PendingRequests(s.db.requests, s.db.users).Ok?
      && exists i :: 0 <= i < |PendingRequests(s.db.requests, s.db.users).body| &&
                     PendingRequests(s.db.requests, s.db.users).body[i].id == newId
  {
    var after := Submit(db, caller, Some(reason), experience, newId, now).db;
    assert !DanglingRequester(after.requests, after.users);
    PendingRequestsFailure(after.requests, after.users);
    PendingRequestsExact(after.requests, after.users);
    assert IsPending(after.requests, newId);
  }

  /** Approving a pending request promotes its requester, drops it from the pending
      listing, and leaves nothing for a second approval to find. */
  lemma ApprovedLeavesListing(db: Db, id: Id, admin: Id, now: Time)
    requires IsPending(db.requests, id) && db.requests[id].user in db.users
    requires !DanglingRequester(db.requests, db.users)
    ensures var s := Approve(db, id, admin, now);
      && s.reply.Ok? && s.db.users[db.requests[id].user].role == Admin
      && PendingRequests(s.db.requests, s.db.users).Ok?
      && (forall i :: 0 <= i < |PendingRequests(s.db.requests, s.db.users).body| ==>
            PendingRequests(s.db.requests, s.db.users).body[i].id != id)
      && Approve(s.db, id, admin, now).reply.NotFound?
  {
    var after := Approve(db, id, admin, now).db;
    assert !DanglingRequester(after.requests, after.users) by {
      forall other | other in after.requests && after.requests[other].status == Pending
        ensures after.requests[other].user in after.users
      {
        assert other != id && after.requests[other] == db.requests[other];
      }
    }
    PendingRequestsFailure(after.requests, after.users);
    PendingRequestsExact(after.requests, after.users);
    assert after.requests[id].status == Approved;
  }

  /** Submit {reason: "need access", experience: "5 years"}; the pending listing shows it;
      approve it; the requester is an admin, the listing no longer shows it, and approving
      it again is NotFound. */
  lemma SubmitListApprove(db: Db, caller: Id, admin: Id, newId: Id, t0: Time, t1: Time)
    requires caller in db.users
    requires newId !in db.requests
    requires !HasPending(db.requests, caller)
    requires !DanglingRequester(db.requests, db.users)
    ensures var s1 := Submit(db, caller, Some("need access"), Some("5 years"), newId, t0);
      && s1.reply.Ok? && s1.reply.body.status == Pending
      && var l1 := PendingRequests(s1.db.requests, s1.db.users);
      && l1.Ok? && (exists i :: 0 <= i < |l1.body| && l1.body[i].id == newId)
      && var s2 := Approve(s1.db, newId, admin, t1);
      && s2.reply.Ok? && s2.db.users[caller].role == Admin
      && var l2 := PendingRequests(s2.db.requests, s2.db.users);
      && l2.Ok? && (forall i :: 0 <= i < |l2.body| ==> l2.body[i].id != newId)
      && Approve(s2.db, newId, admin, t1).reply.NotFound?
  {
    var reason := "need access";
    assert !JsText.IsBlank(reason) by {
      assert !JsText.IsWhiteSpace(reason[0]);
    }
    SubmittedIsListed(db, caller, reason, Some("5 years"), newId, t0);
    var s1 := Submit(db, caller, Some(reason), Some("5 years"), newId, t0);
    assert !DanglingRequester(s1.db.requests, s1.db.users) by {
      PendingRequestsFailure(s1.db.requests, s1.db.users);
    }
    ApprovedLeavesListing(s1.db, newId, admin, t1);
  }
}
