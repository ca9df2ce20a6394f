# Admin workflow of excel-analytics, in Dafny

This project models the admin controller of the excel-analytics backend
(`backend/controllers/adminControl.js`). Users ask for admin rights, and
administrators approve or reject those requests. Administrators can also list
accounts, look at one account's uploaded spreadsheets and charts, and suspend
or reactivate an account.

The two MongoDB collections the controller works on are two maps from document
identifiers to documents. One map holds admin requests and the other holds user
accounts. They are the fields of the class `Controller.AdminController`. Each
handler that writes is a method of that class. The method returns a reply
(`Ok`, `BadRequest`, `NotFound`) and updates the maps. Its postcondition ties the
reply and the new maps to a pure step function in `AdminWorkflow`. Those step
functions state the guards, the effects and what stays unchanged. Lemmas then
prove:
- the invariant "at most one pending request per user, and a decision stamp
  exactly on decided requests" survives every call and every sequence of calls;
- a decision is final.

The read handlers are pure functions in `AdminViews`:
- The pending-requests listing scans the requests and keeps the pending ones.
  It sorts them newest first and reshapes each one together with its
  requester's account.
- The users listing scans the accounts and sorts them newest first, with no
  filter. It then reshapes each account.
- The files and charts handlers look up one account by its identifier. They
  reshape that account's record list in its stored order.

An account's role is "user", "admin" or any other role name the store holds.
The users listing shows the role as stored.

Files:
- `types.dfy`: the documents and replies.
- `text.dfy`: JavaScript's `String.prototype.trim`.
- `listing.dfy`: how a collection is scanned and sorted.
- `views.dfy`: the read handlers.
- `workflow.dfy`: the step functions, the invariant and sequences of calls.
- `controller.dfy`: the class.
- `scenario.dfy`: the submit, list, approve walk-through.

Things passed in as parameters:
- the caller's identity, which the routes' `verifyToken` middleware provides;
- the clock reading (`new Date()`);
- the identifier of a new request (the ObjectId). In a sequence of calls, a new
  request gets `Listing.NextId`, an identifier no request uses.

Each call is atomic, and calls run one at a time.

## Model

| member | source | states |
|---|---|---|
| `JsText.TrimStart` | backend/controllers/adminControl.js:11 | the leading half of `trim`: a suffix of the string, everything cut off is white space, and it does not start with white space |
| `JsText.TrimEnd` | backend/controllers/adminControl.js:11 | the trailing half of `trim`: a prefix of the string, everything cut off is white space, and it does not end with white space |
| `JsText.Trim` | backend/controllers/adminControl.js:11 | `reason.trim()` is the infix of the reason with only white space around it, and it neither starts nor ends with white space. That determines it. It is empty exactly when every character is ECMAScript white space or a line terminator |
| `AdminWorkflow.ReasonMissing` | backend/controllers/adminControl.js:11 | `!reason \|\| reason.trim() === ""` holds exactly when the reason is absent or all white space |
| `AdminWorkflow.HasPending` | backend/controllers/adminControl.js:16-21 | the `findOne({ user, status: "pending" })` lookup. With a non-blank reason, `Submit` refuses exactly when it holds, and `AddPendingKeeps` uses its absence to keep one pending request per user |
| `AdminWorkflow.IsPending` | backend/controllers/adminControl.js:80-85 | the `findOne({ _id, status: "pending" })` lookup, also the filter of line 112. `Approve` and `Reject` answer NotFound exactly when it fails |
| `AdminWorkflow.Decide` | backend/controllers/adminControl.js:93-95 | the decision sets the status to the outcome, `processedBy` to the caller and `processedAt` to now (also lines 114-116). The requester, reason, experience and creation time stay, and a decided request carries a stamp |
| `AdminWorkflow.Submit` | backend/controllers/adminControl.js:6-37 | BadRequest exactly when the reason is absent or blank, or the caller already has a pending request, and then nothing changes; otherwise exactly one new request: pending, with the caller, reason, experience and creation time, and no stamp. Existing requests and all accounts stay as they were |
| `AdminWorkflow.AddPendingKeeps` | backend/controllers/adminControl.js:16-32 | adding a pending request for a user with none keeps "at most one pending request per user" and touches no existing request |
| `AdminWorkflow.SubmitKeeps` | backend/controllers/adminControl.js:15-32 | a submission, accepted or refused, keeps the invariant and never changes or removes an existing request |
| `AdminScenario.SubmitBlocksSecond` | backend/controllers/adminControl.js:16-23 | right after an accepted submission, a second submission by the same caller is BadRequest and changes nothing |
| `AdminWorkflow.Approve` | backend/controllers/adminControl.js:74-98 | NotFound exactly when the id is absent or not pending, and then nothing changes; otherwise the request becomes approved with processedBy = caller and processedAt = now, the requester's role becomes admin when the account exists, and no other request or account changes |
| `AdminWorkflow.ApproveKeeps` | backend/controllers/adminControl.js:80-96 | approving keeps the invariant, and the only request it changes is the pending one it decides |
| `AdminWorkflow.Reject` | backend/controllers/adminControl.js:106-125 | NotFound exactly when the id is absent or not pending, and then nothing changes; otherwise only that request changes (rejected, processedBy, processedAt) and no account changes |
| `AdminWorkflow.RejectKeeps` | backend/controllers/adminControl.js:111-123 | rejecting keeps the invariant, and the only request it changes is the pending one it decides |
| `AdminWorkflow.ActionStatus` | backend/controllers/adminControl.js:206-211 | "suspend" gives suspended, "activate" gives active, and no other action gives a status |
| `AdminWorkflow.UpdateStatus` | backend/controllers/adminControl.js:201-218 | BadRequest exactly for an action other than "suspend"/"activate", checked first; then NotFound exactly for an unknown account; on either error nothing changes; otherwise Ok, and only that account's status changes (suspended or active) and no request changes |
| `AdminWorkflow.ApplyKeeps` | backend/controllers/adminControl.js:6-223 | each handler call keeps the invariant, and no existing request is removed or, once decided, changed |
| `AdminWorkflow.RunKeepsConsistent` | backend/controllers/adminControl.js:15-23 | from a consistent store, after any sequence of calls, no user has two pending requests and exactly the decided requests carry a stamp |
| `AdminWorkflow.RunSettles` | backend/controllers/adminControl.js:80-87 | over any sequence of calls, requests are never removed, a decided request never changes, and a request still pending was never touched |
| `AdminWorkflow.DecidedStaysDecided` | backend/controllers/adminControl.js:111-123 | once a request is approved or rejected, after any later calls it is unchanged, and approving or rejecting it again is NotFound and changes nothing |
| `Controller.AdminController.constructor` | backend/controllers/adminControl.js:4 | a controller over the given accounts with no requests, and the invariant holds |
| `Controller.AdminController.RequestAdminAccess` | backend/controllers/adminControl.js:6-37 | the reply and the new maps are those of `Submit`, so the invariant is kept |
| `Controller.AdminController.ApproveRequest` | backend/controllers/adminControl.js:74-98 | the reply and the new maps are those of `Approve`, so the invariant is kept |
| `Controller.AdminController.RejectRequest` | backend/controllers/adminControl.js:106-125 | the reply and the new maps are those of `Reject`; the accounts are unchanged |
| `Controller.AdminController.UpdateUserStatus` | backend/controllers/adminControl.js:201-218 | the reply and the new maps are those of `UpdateStatus`; the requests are unchanged |
| `Listing.Scan` | backend/controllers/adminControl.js:47 | reading a whole collection (also line 134) yields one entry per document. `ScanDocs`, `ScanCovers` and `ScanAscending` state which entries, and in what order |
| `Listing.MinKey` | backend/controllers/adminControl.js:47 | the least identifier of a non-empty set, the point from which a collection scan proceeds |
| `Listing.NextId` | backend/controllers/adminControl.js:26-32 | an identifier above every identifier in use, so a new request never overwrites one |
| `Listing.ScanDocs` | backend/controllers/adminControl.js:47 | every entry a collection scan yields is a document of the collection under its own identifier |
| `Listing.ScanCovers` | backend/controllers/adminControl.js:134 | a collection scan yields every document |
| `Listing.ScanAscending` | backend/controllers/adminControl.js:47 | a collection scan yields identifiers in strictly ascending order, so none twice |
| `Listing.Insert` | backend/controllers/adminControl.js:49 | one step of the newest-first sort adds one entry. `InsertAdds`, `InsertOrdered` and `InsertDistinct` state where it goes |
| `Listing.NewestFirst` | backend/controllers/adminControl.js:49 | `.sort({ createdAt: -1 })` (also line 135) keeps the length. `NewestFirstPermutes`, `NewestFirstOrdered` and `NewestFirstDistinct` state that it is a newest-first permutation |
| `Listing.InsertAdds` | backend/controllers/adminControl.js:49 | inserting adds exactly the one entry |
| `Listing.InsertOrdered` | backend/controllers/adminControl.js:49 | inserting into a newest-first sequence keeps it newest first |
| `Listing.InsertDistinct` | backend/controllers/adminControl.js:49 | inserting an entry with a new identifier keeps identifiers distinct |
| `Listing.NewestFirstPermutes` | backend/controllers/adminControl.js:49 | `.sort({ createdAt: -1 })` is a permutation of what it sorts |
| `Listing.NewestFirstOrdered` | backend/controllers/adminControl.js:135 | the sorted sequence has non-increasing creation times |
| `Listing.NewestFirstDistinct` | backend/controllers/adminControl.js:135 | sorting keeps distinct identifiers distinct |
| `AdminViews.DisplayFirstName` | backend/controllers/adminControl.js:60 | `firstName \|\| username`: a non-empty first name is shown, an absent or empty one shows the username |
| `AdminViews.DisplayLastName` | backend/controllers/adminControl.js:61 | `lastName \|\| ""`: an absent last name shows as the empty string |
| `AdminViews.OnlyPending` | backend/controllers/adminControl.js:47 | the `status: "pending"` filter never lengthens its input. `OnlyPendingKeeps` states exactly what it keeps |
| `AdminViews.OnlyPendingKeeps` | backend/controllers/adminControl.js:47 | `find({ status: "pending" })` keeps exactly the pending entries |
| `AdminViews.OnlyPendingDistinct` | backend/controllers/adminControl.js:47 | the filter keeps identifiers distinct |
| `AdminViews.PendingRows` | backend/controllers/adminControl.js:47-49 | the pending requests as the store returns them, at most one row per request. `PendingRowsArePending`, `PendingRowsCover` and `PendingRowsOrdered` state which rows, in what order |
| `AdminViews.FormatRequest` | backend/controllers/adminControl.js:52-64 | the reshaping of one request and its requester. It takes the id, reason, experience, status and creation time from the request, and the requester's id, email and names after their fallbacks. `PendingRequestsExact` states that every listed view is this reshaping of a pending request |
| `AdminViews.PendingRowsArePending` | backend/controllers/adminControl.js:47-49 | every pending row is a pending request under its own identifier |
| `AdminViews.PendingRowsCover` | backend/controllers/adminControl.js:47-49 | every pending request has a row |
| `AdminViews.PendingRowsOrdered` | backend/controllers/adminControl.js:49 | the pending rows name each request once, newest first |
| `AdminViews.PendingRequests` | backend/controllers/adminControl.js:45-70 | the pending listing either succeeds, with one view per pending row, or is a server error |
| `AdminViews.PendingRequestsFailure` | backend/controllers/adminControl.js:52-69 | the pending listing fails exactly when some pending request's requester account no longer exists |
| `AdminViews.PendingRequestsExact` | backend/controllers/adminControl.js:52-64 | a successful pending listing holds exactly the pending requests. Each view has the request's id, reason, experience, status and creation time. It also has the requester's id, email and the first/last names after their fallbacks |
| `AdminViews.PendingRequestsOrder` | backend/controllers/adminControl.js:47-49 | a successful pending listing names each request once, newest first |
| `AdminViews.UserRows` | backend/controllers/adminControl.js:134-135 | the accounts as the store returns them, one row per account. `UserRowsAreAccounts` and `UserRowsCover` state which rows, and `AllUsersOrder` their order |
| `AdminViews.FormatUser` | backend/controllers/adminControl.js:138-145 | the reshaping of one account: its id, the names after their fallbacks, email, role and optional status. `AllUsersExact` states that every listed view is this reshaping of an account |
| `AdminViews.UserRowsAreAccounts` | backend/controllers/adminControl.js:134 | every user row is an account under its own identifier |
| `AdminViews.UserRowsCover` | backend/controllers/adminControl.js:134 | every account has a row |
| `AdminViews.AllUsers` | backend/controllers/adminControl.js:132-147 | the user listing has exactly one view per account |
| `AdminViews.AllUsersExact` | backend/controllers/adminControl.js:138-145 | the user listing shows every account and nothing else. Each view has the id, the first/last names after their fallbacks, the email, the role and the optional status |
| `AdminViews.AllUsersOrder` | backend/controllers/adminControl.js:134-135 | the user listing names each account once, newest account first |
| `AdminViews.FormatFile` | backend/controllers/adminControl.js:164-170 | the reshaping of one spreadsheet record. `UserFiles` states each field it carries |
| `AdminViews.FormatChart` | backend/controllers/adminControl.js:187-192 | the reshaping of one chart record. `UserCharts` states each field it carries |
| `AdminViews.UserFiles` | backend/controllers/adminControl.js:155-172 | NotFound exactly for an unknown account. Otherwise it gives one view per spreadsheet record, in order: name, size, upload time, rows and columns. An account without records gives an empty list |
| `AdminViews.UserCharts` | backend/controllers/adminControl.js:178-194 | NotFound exactly for an unknown account. Otherwise it gives one view per chart record, in order: type, creation time, source file and configuration. An account without records gives an empty list |
| `AdminScenario.SubmittedIsListed` | backend/controllers/adminControl.js:26-64 | an accepted request from an existing account shows in the pending listing |
| `AdminScenario.ApprovedLeavesListing` | backend/controllers/adminControl.js:80-96 | approving a pending request promotes its requester and removes it from the pending listing. A second approval of it is NotFound |
| `AdminScenario.SubmitListApprove` | backend/controllers/adminControl.js:6-98 | submit "need access" / "5 years", and the listing shows it. Approve it: the requester is admin, the listing no longer shows it, and approving again is NotFound |

## Left out

- HTTP routing, the `verifyToken` and `isAdmin` middleware, JSON bodies, status
  codes beyond the reply kind, and message strings
  (backend/routes/adminRoute.js:1-24). The caller is taken as authenticated and
  authorised.
- The `catch` blocks that answer 500 after a store or I/O failure, and the
  logging. The one 500 the model keeps is the pending listing's failure when a
  requester's account is gone. That failure comes from the handler's own logic:
  the populated user is null and reading its `_id` throws.
- Concurrency. Two simultaneous submissions can both pass the pending check
  (lines 16-32). A failure between the two writes of an approval can leave one
  write without the other (lines 90-96). Calls here run one at a time and each
  is atomic.
- Request bodies whose `reason` or `action` is not a string. A truthy
  non-string reason makes `reason.trim` throw (a 500). A falsy one, such as
  `null`, `0` or `false`, is refused with 400 by the `!reason` test on line 11,
  as an absent reason is here. `reason`, `experience` and `action`
  are modelled as optional strings.
- Identifiers that cannot be cast to an ObjectId (a 500 in the store). Identifiers
  here are abstract naturals.
- The store's order for documents with equal `createdAt`. MongoDB leaves it
  unspecified. The model scans a collection in ascending identifier order and
  sorts stably, so ties keep that order.
- `AdminViews.AllUsers`: the status shown is the account's own optional status.
  The query at line 134 selects only firstName, lastName, email, username and
  role, so the deployed listing would leave `status` out for every account.
  That field selection is not modelled.
- `AdminWorkflow.Submit`: the default `pending` status, the empty decision stamp
  and the creation timestamp come from the AdminRequest schema
  (backend/models/Admin.js). That file is not part of this model. They are taken as
  the schema's defaults.
- Chart configurations are kept as opaque text, not as structured objects.
