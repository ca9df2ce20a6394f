/** The read handlers: the pending-request listing, the user listing, and one user's
    files and charts. Each reads the collections, orders them as the store query asks,
    and reshapes every document into the fixed form the front end expects. */
module AdminViews {
  import opened AdminTypes
  import opened Listing

  /** The requester as shown beside a pending request. */
  datatype Requester = Requester(id: Id, firstName: string, lastName: string, email: string)

  datatype RequestView = RequestView(
    id: Id, reason: string, experience: Option<string>, status: RequestStatus, createdAt: Time, user: Requester)

  datatype UserView = UserView(
    id: Id, firstName: string, lastName: string, email: string, role: Role, status: Option<AccountStatus>)

  datatype FileView = FileView(fileName: string, fileSize: nat, uploadedAt: Time, rows: nat, columns: nat)

  datatype ChartView = ChartView(chartType: string, createdAt: Time, fromExcelFile: string, chartConfig: string)

  /** `firstName || username`: an absent or empty first name shows the username. */
  function DisplayFirstName(u: User): (name: string)
    ensures u.firstName.GetOr("") != "" ==> name == u.firstName.value
    ensures u.firstName.GetOr("") == "" ==> name == u.username
  {
    if u.firstName.Some? && u.firstName.value != "" then u.firstName.value else u.username
  }

  /** `lastName || ""`: an absent last name shows as empty. */
  function DisplayLastName(u: User): (name: string)
    ensures name == u.lastName.GetOr("")
  {
    if u.lastName.Some? && u.lastName.value != "" then u.lastName.value else ""
  }

  function RequestCreated(r: AdminRequest): Time { r.createdAt }

  function UserCreated(u: User): Time { u.createdAt }

  // ---------------------------------------------------------------- pending requests

  /** `find({ status: "pending" })` over a scanned collection. */
  function OnlyPending(s: seq<Entry<AdminRequest>>): (r: seq<Entry<AdminRequest>>)
    ensures |r| <= |s|
  {
    if s == [] then []
    else if s[0].doc.status == Pending then [s[0]] + OnlyPending(s[1..])
    else OnlyPending(s[1..])
  }

  /** The filter keeps exactly the pending entries. */
  lemma {:induction false} OnlyPendingKeeps(s: seq<Entry<AdminRequest>>)
    ensures forall x :: x in OnlyPending(s) <==> x in s && x.doc.status == Pending
  {
    if s != [] {
      OnlyPendingKeeps(s[1..]);
      assert s == [s[0]] + s[1..];
    }
  }

  /** The filter keeps distinct identifiers distinct. */
  lemma {:induction false} OnlyPendingDistinct(s: seq<Entry<AdminRequest>>)
    requires DistinctIds(s)
    ensures DistinctIds(OnlyPending(s))
  {
    if s != [] {
      var rest := s[1..];
      assert forall i, j :: 0 <= i < j < |rest| ==> rest[i].id != rest[j].id by {
        forall i, j | 0 <= i < j < |rest| ensures rest[i].id != rest[j].id {
          assert rest[i] == s[i + 1] && rest[j] == s[j + 1];
        }
      }
      OnlyPendingDistinct(rest);
      OnlyPendingKeeps(rest);
      var tail := OnlyPending(rest);
      if s[0].doc.status == Pending {
        var r := [s[0]] + tail;
        forall i, j | 0 <= i < j < |r| ensures r[i].id != r[j].id {
          if i == 0 {
            assert r[j] == tail[j - 1] && tail[j - 1] in rest;
            var k :| 0 <= k < |rest| && rest[k] == r[j];
            assert s[k + 1] == r[j];
          } else {
            assert r[i] == tail[i - 1] && r[j] == tail[j - 1];
          }
        }
      }
    }
  }

  /** The pending requests, newest first (`.sort({ createdAt: -1 })`). */
  function PendingRows(requests: map<Id, AdminRequest>): (rows: seq<Entry<AdminRequest>>)
    ensures |rows| <= |requests|
  {
    NewestFirst(OnlyPending(Scan(requests)), RequestCreated)
  }

  /** Every pending row is a pending request, under its own identifier. */
  lemma PendingRowsArePending(requests: map<Id, AdminRequest>)
    ensures forall i :: 0 <= i < |PendingRows(requests)| ==>
      var e := PendingRows(requests)[i];
      e.id in requests && requests[e.id] == e.doc && e.doc.status == Pending
  {
    var scan := Scan(requests);
    var pending := OnlyPending(scan);
    var rows := PendingRows(requests);
    NewestFirstPermutes(pending, RequestCreated);
    forall i | 0 <= i < |rows|
      ensures rows[i].id in requests && requests[rows[i].id] == rows[i].doc && rows[i].doc.status == Pending
    {
      assert rows[i] in multiset(pending);
      assert rows[i] in scan && rows[i].doc.status == Pending by {
        OnlyPendingKeeps(scan);
      }
      var j :| 0 <= j < |scan| && scan[j] == rows[i];
      ScanDocs(requests);
    }
  }

  /** Every pending request has a row. */
  lemma PendingRowsCover(requests: map<Id, AdminRequest>)
    ensures forall id :: id in requests && requests[id].status == Pending ==> id in IdsOf(PendingRows(requests))
  {
    var scan := Scan(requests);
    var pending := OnlyPending(scan);
    var rows := PendingRows(requests);
    ScanCovers(requests);
    NewestFirstPermutes(pending, RequestCreated);
    forall id | id in requests && requests[id].status == Pending ensures id in IdsOf(rows) {
      assert id in IdsOf(scan);
      var j :| 0 <= j < |scan| && scan[j].id == id;
      assert scan[j].doc.status == Pending by {
        ScanDocs(requests);
      }
      assert scan[j] in pending by {
        assert scan[j] in scan;
        OnlyPendingKeeps(scan);
      }
      assert scan[j] in multiset(rows);
      var k :| 0 <= k < |rows| && rows[k] == scan[j];
    }
  }

  /** No request has two rows, and the rows are newest first. */
  lemma PendingRowsOrdered(requests: map<Id, AdminRequest>)
    ensures DistinctIds(PendingRows(requests))
    ensures NewestFirstOrder(PendingRows(requests), RequestCreated)
  {
    var scan := Scan(requests);
    ScanAscending(requests);
    OnlyPendingDistinct(scan);
    NewestFirstOrdered(OnlyPending(scan), RequestCreated);
    NewestFirstDistinct(OnlyPending(scan), RequestCreated);
  }

  /** One row of the pending listing, with its populated requester. */
  function FormatRequest(e: Entry<AdminRequest>, requester: User): RequestView {
    RequestView(e.id, e.doc.reason, e.doc.experience, e.doc.status, e.doc.createdAt,
      Requester(e.doc.user, DisplayFirstName(requester), DisplayLastName(requester), requester.email))
  }

  /** getPendingRequests. Populating a requester whose account is gone yields null, and
      reading its `_id` throws, so such a request turns the whole listing into a 500. */
  function PendingRequests(requests: map<Id, AdminRequest>, users: map<Id, User>): (r: Reply<seq<RequestView>>)
    ensures r.Ok? || r.ServerError?
    ensures r.Ok? ==> |r.body| == |PendingRows(requests)|
  {
    var rows := PendingRows(requests);
    if forall i :: 0 <= i < |rows| ==> rows[i].doc.user in users then
      Ok(seq(|rows|, i requires 0 <= i < |rows| => FormatRequest(rows[i], users[rows[i].doc.user])))
    else ServerError
  }

  /** Some pending request names an account that no longer exists. */
  ghost predicate DanglingRequester(requests: map<Id, AdminRequest>, users: map<Id, User>) {
    exists id :: id in requests && requests[id].status == Pending && requests[id].user !in users
  }

  /** The pending listing fails exactly when a pending request's requester is gone. */
  lemma PendingRequestsFailure(requests: map<Id, AdminRequest>, users: map<Id, User>)
    ensures PendingRequests(requests, users).ServerError? <==> DanglingRequester(requests, users)
  {
    var rows := PendingRows(requests);
    if DanglingRequester(requests, users) {
      var id :| id in requests && requests[id].status == Pending && requests[id].user !in users;
      assert exists k :: 0 <= k < |rows| && rows[k].doc.user !in users by {
        PendingRowsCover(requests);
        assert id in IdsOf(rows);
        var k :| 0 <= k < |rows| && rows[k].id == id;
        PendingRowsArePending(requests);
        assert rows[k].doc.user !in users;
      }
    } else {
      PendingRowsArePending(requests);
      forall i | 0 <= i < |rows| ensures rows[i].doc.user in users {
        assert rows[i].id in requests;
      }
    }
  }

  /** A successful pending listing shows every pending request, each from its own document
      and requester, and nothing else. */
  lemma PendingRequestsExact(requests: map<Id, AdminRequest>, users: map<Id, User>)
    requires PendingRequests(requests, users).Ok?
    ensures var vs := PendingRequests(requests, users).body;
      && (forall i :: 0 <= i < |vs| ==>
            && vs[i].id in requests && requests[vs[i].id].status == Pending
            && requests[vs[i].id].user in users
            && vs[i] == FormatRequest(Entry(vs[i].id, requests[vs[i].id]), users[requests[vs[i].id].user]))
      && (forall id :: id in requests && requests[id].status == Pending ==>
            exists i :: 0 <= i < |vs| && vs[i].id == id)
  {
    var rows := PendingRows(requests);
    var vs := PendingRequests(requests, users).body;
    assert forall i :: 0 <= i < |vs| ==> vs[i] == FormatRequest(rows[i], users[rows[i].doc.user]);
    assert forall i :: 0 <= i < |vs| ==>
      && vs[i].id in requests && requests[vs[i].id].status == Pending
      && requests[vs[i].id].user in users
      && vs[i] == FormatRequest(Entry(vs[i].id, requests[vs[i].id]), users[requests[vs[i].id].user])
    by {
      PendingRowsArePending(requests);
      forall i | 0 <= i < |vs| ensures rows[i] == Entry(vs[i].id, requests[vs[i].id]) {
        assert rows[i].id == vs[i].id;
      }
    }
    forall id | id in requests && requests[id].status == Pending ensures exists i :: 0 <= i < |vs| && vs[i].id == id {
      PendingRowsCover(requests);
      assert id in IdsOf(rows);
      var k :| 0 <= k < |rows| && rows[k].id == id;
      assert vs[k].id == id;
    }
  }

  /** A successful pending listing names each request once, newest first. */
  lemma PendingRequestsOrder(requests: map<Id, AdminRequest>, users: map<Id, User>)
    requires PendingRequests(requests, users).Ok?
    ensures var vs := PendingRequests(requests, users).body;
      forall i, j :: 0 <= i < j < |vs| ==> vs[i].id != vs[j].id && vs[i].createdAt >= vs[j].createdAt
  {
    var rows := PendingRows(requests);
    var vs := PendingRequests(requests, users).body;
    PendingRowsOrdered(requests);
    forall i, j | 0 <= i < j < |vs| ensures vs[i].id != vs[j].id && vs[i].createdAt >= vs[j].createdAt {
      assert vs[i].id == rows[i].id && vs[j].id == rows[j].id;
      assert vs[i].createdAt == RequestCreated(rows[i].doc) && vs[j].createdAt == RequestCreated(rows[j].doc);
    }
  }

  // ---------------------------------------------------------------- users

  /** Every account, newest first (`.sort({ createdAt: -1 })`). */
  function UserRows(users: map<Id, User>): (rows: seq<Entry<User>>)
    ensures |rows| == |users|
  {
    NewestFirst(Scan(users), UserCreated)
  }

  /** Every user row is an account, under its own identifier. */
  lemma UserRowsAreAccounts(users: map<Id, User>)
    ensures forall i :: 0 <= i < |UserRows(users)| ==>
      UserRows(users)[i].id in users && users[UserRows(users)[i].id] == UserRows(users)[i].doc
  {
    var scan := Scan(users);
    var rows := UserRows(users);
    ScanDocs(users);
    NewestFirstPermutes(scan, UserCreated);
    forall i | 0 <= i < |rows| ensures rows[i].id in users && users[rows[i].id] == rows[i].doc {
      assert rows[i] in multiset(scan);
      var j :| 0 <= j < |scan| && scan[j] == rows[i];
    }
  }

  /** Every account has a row. */
  lemma UserRowsCover(users: map<Id, User>)
    ensures forall id :: id in users ==> id in IdsOf(UserRows(users))
  {
    var scan := Scan(users);
    var rows := UserRows(users);
    ScanCovers(users);
    NewestFirstPermutes(scan, UserCreated);
    forall id | id in users ensures id in IdsOf(rows) {
      assert id in IdsOf(scan);
      var j :| 0 <= j < |scan| && scan[j].id == id;
      assert scan[j] in multiset(rows);
      var k :| 0 <= k < |rows| && rows[k] == scan[j];
    }
  }

  function FormatUser(e: Entry<User>): UserView {
    UserView(e.id, DisplayFirstName(e.doc), DisplayLastName(e.doc), e.doc.email, e.doc.role, e.doc.status)
  }

  /** getAllUsers: every account, newest first, in its public form. */
  function AllUsers(users: map<Id, User>): (vs: seq<UserView>)
    ensures |vs| == |users|
  {
    var rows := UserRows(users);
    seq(|rows|, i requires 0 <= i < |rows| => FormatUser(rows[i]))
  }

  /** The user listing shows every account, each from its own document, and nothing else. */
  lemma AllUsersExact(users: map<Id, User>)
    ensures var vs := AllUsers(users);
      && (forall i :: 0 <= i < |vs| ==> vs[i].id in users && vs[i] == FormatUser(Entry(vs[i].id, users[vs[i].id])))
      && (forall id :: id in users ==> exists i :: 0 <= i < |vs| && vs[i].id == id)
  {
    var rows := UserRows(users);
    var vs := AllUsers(users);
    assert forall i :: 0 <= i < |vs| ==> vs[i].id in users && vs[i] == FormatUser(Entry(vs[i].id, users[vs[i].id])) by {
      UserRowsAreAccounts(users);
      forall i | 0 <= i < |vs| ensures rows[i] == Entry(vs[i].id, users[vs[i].id]) {
        assert rows[i].id == vs[i].id;
      }
    }
    forall id | id in users ensures exists i :: 0 <= i < |vs| && vs[i].id == id {
      UserRowsCover(users);
      assert id in IdsOf(rows);
      var k :| 0 <= k < |rows| && rows[k].id == id;
      assert vs[k].id == id;
    }
  }

  /** The user listing names each account once, newest account first. */
  lemma AllUsersOrder(users: map<Id, User>)
    ensures var vs := AllUsers(users);
      forall i, j :: 0 <= i < j < |vs| ==>
        vs[i].id in users && vs[j].id in users &&
        vs[i].id != vs[j].id && users[vs[i].id].createdAt >= users[vs[j].id].createdAt
  {
    var scan := Scan(users);
    var rows := UserRows(users);
    var vs := AllUsers(users);
    ScanAscending(users);
    NewestFirstOrdered(scan, UserCreated);
    NewestFirstDistinct(scan, UserCreated);
    UserRowsAreAccounts(users);
    forall i, j | 0 <= i < j < |vs|
      ensures vs[i].id in users && vs[j].id in users
      ensures vs[i].id != vs[j].id && users[vs[i].id].createdAt >= users[vs[j].id].createdAt
    {
      assert vs[i].id == rows[i].id && vs[j].id == rows[j].id;
      assert UserCreated(rows[i].doc) >= UserCreated(rows[j].doc);
    }
  }

  // ---------------------------------------------------------------- files and charts

  function FormatFile(f: ExcelRecord): FileView {
    FileView(f.filename, f.filesize, f.uploadedAt, f.rows, f.columns)
  }

  function FormatChart(c: ChartRecord): ChartView {
    ChartView(c.chartType, c.createdAt, c.fromExcelFile, c.chartConfig)
  }

  /** getUserFiles: 404 for an unknown account; otherwise its spreadsheet records, in order,
      one view per record, and none when the account has no record list. */
  function UserFiles(users: map<Id, User>, userId: Id): (r: Reply<seq<FileView>>)
    ensures r.NotFound? <==> userId !in users
    ensures r.Ok? <==> userId in users
    ensures r.Ok? ==>
      var files := users[userId].excelRecords.GetOr([]);
      && |r.body| == |files|
      && (forall i :: 0 <= i < |files| ==>
            && r.body[i].fileName == files[i].filename && r.body[i].fileSize == files[i].filesize
            && r.body[i].uploadedAt == files[i].uploadedAt
            && r.body[i].rows == files[i].rows && r.body[i].columns == files[i].columns)
    ensures r.Ok? && users[userId].excelRecords.None? ==> r.body == []
  {
    if userId !in users then NotFound
    else
      var files := users[userId].excelRecords.GetOr([]);
      Ok(seq(|files|, i requires 0 <= i < |files| => FormatFile(files[i])))
  }

  /** getUserCharts: 404 for an unknown account; otherwise its chart records, in order,
      one view per record, and none when the account has no record list. */
  function UserCharts(users: map<Id, User>, userId: Id): (r: Reply<seq<ChartView>>)
    ensures r.NotFound? <==> userId !in users
    ensures r.Ok? <==> userId in users
    ensures r.Ok? ==>
      var charts := users[userId].chartRecords.GetOr([]);
      && |r.body| == |charts|
      && (forall i :: 0 <= i < |charts| ==>
            && r.body[i].chartType == charts[i].chartType && r.body[i].createdAt == charts[i].createdAt
            && r.body[i].fromExcelFile == charts[i].fromExcelFile
            && r.body[i].chartConfig == charts[i].chartConfig)
    ensures r.Ok? && users[userId].chartRecords.None? ==> r.body == []
  {
    if userId !in users then NotFound
    else
      var charts := users[userId].chartRecords.GetOr([]);
      Ok(seq(|charts|, i requires 0 <= i < |charts| => FormatChart(charts[i])))
  }
}
