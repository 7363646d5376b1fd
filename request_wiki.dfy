/**
 * The wiki-request workflow: a request is submitted as `pending`, and is then either
 * approved (which provisions the wiki and registers it) or declined. Comments can be
 * attached to any request.
 */
module RequestWiki {
  import opened Wrappers
  import opened Php
  import opened Assoc
  import opened Database
  import opened Globals
  import opened MirahezeFunctions

  /**
   * The `$data` array handed to `submit`. An absent key is `None`; for `private` an
   * absent key and a `null` value are both `Null`, since `isset` treats them alike.
   */
  datatype RequestData = RequestData(
    dbname: Option<string>,
    sitename: Option<string>,
    language: Option<string>,
    category: Option<string>,
    reason: Option<string>,
    private: Value)

  /** The fields `submit` requires, in the order it checks them. */
  const RequiredFields: seq<string> := ["dbname", "sitename", "language", "category", "reason"]

  /** `$data[$field]` for a required field name (unknown names read as absent). */
  function Field(data: RequestData, name: string): Option<string> {
    if name == "dbname" then data.dbname
    else if name == "sitename" then data.sitename
    else if name == "language" then data.language
    else if name == "category" then data.category
    else if name == "reason" then data.reason
    else None
  }

  /** `empty($data[$field])`: absent, `""` or `"0"`. */
  predicate Blank(v: Option<string>) {
    v.None? || EmptyString(v.value)
  }

  /** Every required field is filled in. */
  predicate Complete(data: RequestData) {
    !Blank(data.dbname) && !Blank(data.sitename) && !Blank(data.language)
    && !Blank(data.category) && !Blank(data.reason)
  }

  /** The required-field loop of `submit`: it passes exactly when the request is complete. */
  method CheckRequired(data: RequestData) returns (ok: bool)
    ensures ok <==> Complete(data)
  {
    var i := 0;
    while i < |RequiredFields|
      invariant 0 <= i <= |RequiredFields|
      invariant forall j :: 0 <= j < i ==> !Blank(Field(data, RequiredFields[j]))
    {
      if Blank(Field(data, RequiredFields[i])) {
        return false;
      }
      i := i + 1;
    }
    assert !Blank(Field(data, RequiredFields[0])) && !Blank(Field(data, RequiredFields[1]));
    assert !Blank(Field(data, RequiredFields[2])) && !Blank(Field(data, RequiredFields[3]));
    assert !Blank(Field(data, RequiredFields[4]));
    ok := true;
  }

  /** The pending-request lookup of `submit` (`cw_dbname = ? AND cw_status = 'pending'`). */
  method FindPending(db: Db, dbname: string) returns (found: bool)
    ensures found <==> HasPendingFor(db.requests, dbname)
  {
    var i := 0;
    while i < |db.requests|
      invariant 0 <= i <= |db.requests|
      invariant forall j :: 0 <= j < i ==> !(db.requests[j].status == Pending && db.requests[j].dbname == dbname)
    {
      if db.requests[i].status == Pending && db.requests[i].dbname == dbname {
        return true;
      }
      i := i + 1;
    }
    found := false;
  }

  /**
   * The row `submit` inserts: the sanitised name and its URL, `cw_private` set whenever
   * `private` is set at all (even to `false`), status `pending`, an empty comment.
   */
  function NewRequestRow(data: RequestData, dbname: string, url: string, user: int, now: nat): RequestRow
    requires Complete(data)
  {
    RequestRow(dbname, data.sitename.value, data.language.value, data.private != Null,
      data.category.value, url, user, data.reason.value, Pending, now, "")
  }

  /** The database name a complete request asks for, after sanitising. */
  function RequestedName(data: RequestData): string
    requires Complete(data)
  {
    SanitizeDBname(data.dbname.value)
  }

  /**
   * `submit`: inserts a pending request and returns its id, or returns nothing (the
   * source's `false`) when a required field is empty, the wiki already exists, or a
   * pending request for the same name exists.
   */
  method Submit(db: Db, g: Globals, data: RequestData, user: int) returns (id: Option<nat>)
    requires db.Valid()
    modifies db`requests, db`clock
    ensures db.Valid()
    ensures id.Some? <==>
              && Complete(data) && !Has(db.wikis, RequestedName(data))
              && !HasPendingFor(old(db.requests), RequestedName(data))
    ensures id.None? ==> db.requests == old(db.requests) && db.clock == old(db.clock)
    ensures id.Some? ==>
              && id.value == |old(db.requests)| + 1 && db.clock == old(db.clock) + 1
              && db.requests == old(db.requests) + [NewRequestRow(data, RequestedName(data),
                   GenerateWikiURL(g.createWikiSubdomain, RequestedName(data)), user, old(db.clock))]
    ensures id.Some? ==>
              && GetRequest(db, id.value) == Some(NewRequestRow(data, RequestedName(data),
                   GenerateWikiURL(g.createWikiSubdomain, RequestedName(data)), user, old(db.clock)))
              && PendingRequest(db.requests, id.value)
    ensures forall k :: GetRequest(db, k).Some? && k != id.GetOr(0) ==> old(GetRequest(db, k)) == GetRequest(db, k)
  {
    var complete := CheckRequired(data);
    if !complete {
      return None;
    }
    var dbname := SanitizeDBname(data.dbname.value);
    if WikiExists(db, dbname) {
      return None;
    }
    var pending := FindPending(db, dbname);
    if pending {
      return None;
    }
    var url := GenerateWikiURL(g.createWikiSubdomain, dbname);
    var now := db.Now();
    db.requests := db.requests + [NewRequestRow(data, dbname, url, user, now)];
    id := Some(|db.requests|);
  }

  /** A complete request that passes the checks is stored private even when `private` is `false`. */
  lemma PrivateWhenSetToFalse(data: RequestData, dbname: string, url: string, user: int, now: nat)
    requires Complete(data) && data.private == Bool(false)
    ensures NewRequestRow(data, dbname, url, user, now).private
  {
  }

  /** The registry entry `createWikiFromRequest` adds for a request. */
  function RequestedWiki(r: RequestRow): NewWiki {
    NewWiki(r.dbname, r.sitename, r.language, Some(r.private), Some(r.category), r.url, Some([]))
  }

  /** The registry row an approved request becomes: the request's fields, open, empty settings. */
  lemma RequestedWikiRow(r: RequestRow, now: nat)
    ensures var w := NewWikiRow(RequestedWiki(r), now);
      w.sitename == r.sitename && w.language == r.language && w.private == r.private
      && w.category == r.category && w.url == r.url && w.settings == []
      && !w.closed && !w.inactive && w.creation == Some(now)
  {
  }

  /**
   * `createWikiFromRequest`: create the database, load the tables, register the wiki;
   * it stops at the first step that fails.
   */
  method CreateWikiFromRequest(db: Db, r: RequestRow, server: Provision) returns (ok: bool)
    requires db.Valid()
    modifies db`wikis, db`databases, db`populated, db`clock
    ensures db.Valid()
    ensures ok <==>
              && !DatabaseTaken(old(db.databases), r.dbname) && server.createSucceeds && server.tablesSqlFound
              && server.populateSucceeds && !Has(old(db.wikis), r.dbname)
    ensures db.databases == AfterCreate(old(db.databases), r.dbname, server)
    ensures db.populated == AfterPopulate(old(db.databases), old(db.populated), r.dbname, server)
    ensures ok ==> db.wikis == old(db.wikis) + [(r.dbname, NewWikiRow(RequestedWiki(r), old(db.clock)))]
    ensures !ok ==> db.wikis == old(db.wikis)
  {
    var created := CreateWikiDB(db, r.dbname, server);
    if !created {
      return false;
    }
    var populated := PopulateWikiDB(db, r.dbname, server);
    if !populated {
      return false;
    }
    ok := AddWiki(db, RequestedWiki(r));
  }

  /** Only one row changed, and it stopped being pending: at most one pending request per name still. */
  lemma ResolveKeepsValid(db: Db, requests: seq<RequestRow>, id: int, row: RequestRow)
    requires db.Valid()
    requires PendingRequest(db.requests, id) && row.status != Pending && row.timestamp == db.requests[id - 1].timestamp
    requires requests == db.requests[id - 1 := row]
    ensures forall i, j :: 0 <= i < j < |requests| && requests[i].status == Pending && requests[j].status == Pending
                           ==> requests[i].dbname != requests[j].dbname
    ensures forall i, j :: 0 <= i < j < |requests| ==> requests[i].timestamp < requests[j].timestamp
    ensures forall i :: 0 <= i < |requests| ==> requests[i].timestamp < db.clock
  {
    forall i, j | 0 <= i < j < |requests| && requests[i].status == Pending && requests[j].status == Pending
      ensures requests[i].dbname != requests[j].dbname
    {
      assert i != id - 1 && j != id - 1;
      assert requests[i] == db.requests[i] && requests[j] == db.requests[j];
    }
  }

  /**
   * `approve`: a pending request is provisioned and registered, then marked `approved`
   * with the comment. No pending request with that id, or a failing step, gives `false`
   * and leaves the request pending and the registry unchanged.
   */
  method Approve(db: Db, id: int, comment: string, server: Provision) returns (ok: bool)
    requires db.Valid()
    modifies db`requests, db`wikis, db`databases, db`populated, db`clock
    ensures db.Valid()
    ensures !PendingRequest(old(db.requests), id) ==>
              !ok && db.databases == old(db.databases) && db.populated == old(db.populated)
    ensures PendingRequest(old(db.requests), id) ==>
              var name := old(db.requests)[id - 1].dbname;
              && db.databases == AfterCreate(old(db.databases), name, server)
              && db.populated == AfterPopulate(old(db.databases), old(db.populated), name, server)
    ensures ok <==>
              && PendingRequest(old(db.requests), id)
              && !DatabaseTaken(old(db.databases), old(db.requests)[id - 1].dbname)
              && server.createSucceeds && server.tablesSqlFound && server.populateSucceeds
              && !Has(old(db.wikis), old(db.requests)[id - 1].dbname)
    ensures !ok ==> db.requests == old(db.requests) && db.wikis == old(db.wikis)
    ensures ok ==> var r := old(db.requests)[id - 1];
      && db.requests == old(db.requests)[id - 1 := r.(status := Approved, comment := comment)]
      && db.wikis == old(db.wikis) + [(r.dbname, NewWikiRow(RequestedWiki(r), old(db.clock)))]
    ensures GetRequest(db, id) == if ok then Some(old(db.requests)[id - 1].(status := Approved, comment := comment))
                                  else old(GetRequest(db, id))
    ensures forall k :: k != id ==> GetRequest(db, k) == old(GetRequest(db, k))
  {
    if !PendingRequest(db.requests, id) {
      return false;
    }
    var r := db.requests[id - 1];
    var created := CreateWikiFromRequest(db, r, server);
    if !created {
      return false;
    }
    var row := r.(status := Approved, comment := comment);
    ResolveKeepsValid(db, db.requests[id - 1 := row], id, row);
    db.requests := db.requests[id - 1 := row];
    ok := true;
  }

  /**
   * Once the database of a pending request exists (say the first approval created it and
   * then failed to load the tables), approving the same request again always fails:
   * `createWikiDB` refuses an existing database. The name is a sanitised one, as
   * `submit` stores, so it matches itself under `LIKE`.
   */
  method ApproveAfterPopulateFailure(db: Db, id: int, first: Provision, second: Provision)
    returns (firstOk: bool, secondOk: bool)
    requires db.Valid() && PendingRequest(db.requests, id)
    requires SanitizedName(db.requests[id - 1].dbname)
    requires !DatabaseTaken(db.databases, db.requests[id - 1].dbname)
    requires first.createSucceeds && !first.populateSucceeds
    modifies db`requests, db`wikis, db`databases, db`populated, db`clock
    ensures !firstOk && !secondOk
    ensures db.requests == old(db.requests) && db.wikis == old(db.wikis)
    ensures db.requests[id - 1].dbname in db.databases
  {
    firstOk := Approve(db, id, "", first);
    TakenWhenPresent(db.databases, db.requests[id - 1].dbname);
    secondOk := Approve(db, id, "", second);
  }

  /**
   * `decline`: a pending request becomes `declined` with the reason as its comment.
   * The update is conditional on `pending`, so a resolved request never changes again;
   * the result is the database layer's success flag, which is always `true`.
   */
  method Decline(db: Db, id: int, reason: string) returns (ok: bool)
    requires db.Valid()
    modifies db`requests
    ensures db.Valid()
    ensures ok
    ensures db.requests == if PendingRequest(old(db.requests), id)
      then old(db.requests)[id - 1 := old(db.requests)[id - 1].(status := Declined, comment := reason)]
      else old(db.requests)
    ensures forall i :: 0 <= i < |db.requests| && old(db.requests)[i].status != Pending
                        ==> db.requests[i] == old(db.requests)[i]
    ensures GetRequest(db, id) == if PendingRequest(old(db.requests), id)
      then Some(old(db.requests)[id - 1].(status := Declined, comment := reason))
      else old(GetRequest(db, id))
    ensures forall k :: old(GetRequest(db, k)).Some? && old(GetRequest(db, k)).value.status != Pending
                        ==> GetRequest(db, k) == old(GetRequest(db, k))
  {
    if PendingRequest(db.requests, id) {
      var row := db.requests[id - 1].(status := Declined, comment := reason);
      ResolveKeepsValid(db, db.requests[id - 1 := row], id, row);
      db.requests := db.requests[id - 1 := row];
    }
    ok := true;
  }

  /** `getRequest`: the request with this id, or nothing (the source's `false`). */
  function GetRequest(db: Db, id: int): (r: Option<RequestRow>)
    reads db
    ensures r.Some? <==> 1 <= id <= |db.requests|
    ensures r.Some? ==> r.value == db.requests[id - 1]
  {
    if 1 <= id <= |db.requests| then Some(db.requests[id - 1]) else None
  }

  /**
   * `addComment`: appends a comment stamped with the current time. It does not look at
   * the request (not even whether it exists) and always reports success.
   */
  method AddComment(db: Db, id: int, user: int, comment: string) returns (ok: bool)
    requires db.Valid()
    modifies db`comments, db`clock
    ensures db.Valid()
    ensures ok
    ensures db.comments == old(db.comments) + [CommentRow(id, comment, user, old(db.clock))]
    ensures db.clock == old(db.clock) + 1
  {
    var now := db.Now();
    db.comments := db.comments + [CommentRow(id, comment, user, now)];
    ok := true;
  }

  /** One element of `getComments`' result. */
  datatype CommentView = CommentView(user: int, comment: string, timestamp: nat)

  /** The comments on request `id`, in table order. */
  function CommentsFor(comments: seq<CommentRow>, id: int): seq<CommentView>
  {
    if comments == [] then []
    else
      var last := comments[|comments| - 1];
      CommentsFor(comments[..|comments| - 1], id)
        + (if last.requestId == id then [CommentView(last.user, last.comment, last.timestamp)] else [])
  }

  /** `getComments`: the comments on a request, `ORDER BY cw_timestamp ASC`. */
  method GetComments(db: Db, id: int) returns (result: seq<CommentView>)
    ensures result == CommentsFor(db.comments, id)
  {
    result := [];
    var i := 0;
    while i < |db.comments|
      invariant 0 <= i <= |db.comments|
      invariant result == CommentsFor(db.comments[..i], id)
    {
      var c := db.comments[i];
      assert db.comments[..i + 1][..i] == db.comments[..i];
      if c.requestId == id {
        result := result + [CommentView(c.user, c.comment, c.timestamp)];
      }
      i := i + 1;
    }
    assert db.comments[..i] == db.comments;
  }

  /** Every listed comment is a stored comment on that request. */
  lemma {:induction false} CommentsForSound(comments: seq<CommentRow>, id: int)
    ensures forall k :: 0 <= k < |CommentsFor(comments, id)| ==>
      var v := CommentsFor(comments, id)[k];
      CommentRow(id, v.comment, v.user, v.timestamp) in comments
  {
    if comments != [] {
      var init := comments[..|comments| - 1];
      CommentsForSound(init, id);
      assert forall c :: c in init ==> c in comments;
    }
  }

  /** Every stored comment on the request is listed. */
  lemma {:induction false} CommentsForComplete(comments: seq<CommentRow>, id: int, i: nat)
    requires i < |comments| && comments[i].requestId == id
    ensures CommentView(comments[i].user, comments[i].comment, comments[i].timestamp) in CommentsFor(comments, id)
  {
    var init := comments[..|comments| - 1];
    if i < |comments| - 1 {
      CommentsForComplete(init, id, i);
    }
  }

  /** With timestamps increasing in insertion order, the listing is oldest first. */
  lemma {:induction false} CommentsForOrdered(comments: seq<CommentRow>, id: int)
    requires forall i, j :: 0 <= i < j < |comments| ==> comments[i].timestamp < comments[j].timestamp
    ensures forall k, l :: 0 <= k < l < |CommentsFor(comments, id)| ==>
      CommentsFor(comments, id)[k].timestamp < CommentsFor(comments, id)[l].timestamp
  {
    if comments != [] {
      var n := |comments| - 1;
      var init := comments[..n];
      CommentsForOrdered(init, id);
      CommentsForSound(init, id);
      var prev := CommentsFor(init, id);
      forall k | 0 <= k < |prev| ensures prev[k].timestamp < comments[n].timestamp {
        var c := CommentRow(id, prev[k].comment, prev[k].user, prev[k].timestamp);
        assert c in init;
        var x :| 0 <= x < |init| && init[x] == c;
        assert comments[x] == c;
      }
    }
  }
}
