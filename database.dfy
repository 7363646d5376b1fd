/**
 * The farm's central database (the `createwiki` database every helper reaches through
 * one connection) and the database server behind it.
 *
 * Tables are ordered sequences of rows, in insertion order:
 *   - `cw_wikis`:       the registry, keyed by `wiki_dbname`;
 *   - `cw_requests`:    wiki requests; `cw_id` is auto-incremented, so request `id` is row `id - 1`;
 *   - `cw_comments`:    comments on requests, append-only;
 *   - `mw_namespaces`:  custom namespaces, keyed by (`ns_dbname`, `ns_namespace_id`);
 *   - `mw_permissions`: group overrides, keyed by (`perm_dbname`, `perm_group`).
 * JSON columns (`wiki_settings`, `ns_aliases`, `perm_*`) hold the decoded PHP value directly.
 * The database server is the set of databases it hosts and the subset that has had the
 * MediaWiki tables loaded; `clock` stands for `wfTimestampNow()`.
 */
module Database {
  import opened Wrappers
  import opened Php
  import opened Assoc

  /** A wiki's settings overlay: setting name to value, as the decoded `wiki_settings` array. */
  type Settings = seq<(string, Value)>

  /** One `cw_wikis` row (without its key, `wiki_dbname`). `creation` is empty for imported rows. */
  datatype WikiRow = WikiRow(
    sitename: string,
    language: string,
    private: bool,
    closed: bool,
    inactive: bool,
    category: string,
    url: string,
    creation: Option<nat>,
    settings: Settings)

  datatype Status = Pending | Approved | Declined

  /** The string stored in `cw_status`. */
  function StatusName(s: Status): (r: string)
    ensures r == "pending" <==> s == Pending
    ensures r == "approved" <==> s == Approved
    ensures r == "declined" <==> s == Declined
  {
    match s
    case Pending => "pending"
    case Approved => "approved"
    case Declined => "declined"
  }

  /** One `cw_requests` row (without `cw_id`). */
  datatype RequestRow = RequestRow(
    dbname: string,
    sitename: string,
    language: string,
    private: bool,
    category: string,
    url: string,
    user: int,
    reason: string,
    status: Status,
    timestamp: nat,
    comment: string)

  /** One `cw_comments` row; `requestId` is its `cw_id` column. */
  datatype CommentRow = CommentRow(requestId: int, comment: string, user: int, timestamp: nat)

  /** One `mw_namespaces` row (without its key). */
  datatype NamespaceRow = NamespaceRow(
    name: string,
    searchable: bool,
    subpages: bool,
    content: bool,
    protection: string,
    aliases: seq<string>)

  /** One `mw_permissions` row (without its key). */
  datatype GroupRow = GroupRow(permissions: seq<(string, Value)>, addgroups: seq<string>, removegroups: seq<string>)

  /**
   * What the database server does when asked: whether `CREATE DATABASE` succeeds
   * (connection and query raise no exception), whether a `tables.sql` file is found
   * under `maintenance/` or `maintenance/postgres/`, and whether sourcing it succeeds.
   */
  datatype Provision = Provision(createSucceeds: bool, tablesSqlFound: bool, populateSucceeds: bool)

  /** A custom namespace id is even and at least 3000. */
  predicate CustomNamespaceId(id: int) {
    id >= 3000 && id % 2 == 0
  }

  /** Within every group row, each right is listed once. */
  ghost predicate RightsDistinct(permissions: seq<((string, string), GroupRow)>) {
    forall i :: 0 <= i < |permissions| ==> Distinct(permissions[i].1.permissions)
  }

  /**
   * Keys are unique in the keyed tables, in every settings overlay and in every group's
   * rights; every stored namespace id is a custom one.
   */
  ghost predicate TablesValid(
    wikis: seq<(string, WikiRow)>,
    namespaces: seq<((string, int), NamespaceRow)>,
    permissions: seq<((string, string), GroupRow)>)
  {
    && Distinct(wikis)
    && (forall i :: 0 <= i < |wikis| ==> Distinct(wikis[i].1.settings))
    && Distinct(namespaces)
    && (forall i :: 0 <= i < |namespaces| ==> CustomNamespaceId(namespaces[i].0.1))
    && Distinct(permissions)
    && RightsDistinct(permissions)
  }

  /**
   * Timestamps increase in insertion order and lie in the past; there is at most one
   * pending request per database name.
   */
  ghost predicate LogsValid(requests: seq<RequestRow>, comments: seq<CommentRow>, clock: nat) {
    && (forall i :: 0 <= i < |requests| ==> requests[i].timestamp < clock)
    && (forall i, j :: 0 <= i < j < |requests| ==> requests[i].timestamp < requests[j].timestamp)
    && (forall i, j :: 0 <= i < j < |requests| && requests[i].status == Pending && requests[j].status == Pending
          ==> requests[i].dbname != requests[j].dbname)
    && (forall i :: 0 <= i < |comments| ==> comments[i].timestamp < clock)
    && (forall i, j :: 0 <= i < j < |comments| ==> comments[i].timestamp < comments[j].timestamp)
  }

  class Db {
    var wikis: seq<(string, WikiRow)>
    var requests: seq<RequestRow>
    var comments: seq<CommentRow>
    var namespaces: seq<((string, int), NamespaceRow)>
    var permissions: seq<((string, string), GroupRow)>
    /** Databases that exist on the server. */
    var databases: set<string>
    /** Databases whose MediaWiki tables have been loaded. */
    var populated: set<string>
    /** The next value `wfTimestampNow()` returns. */
    var clock: nat

    /**
     * What every operation keeps: the keyed tables are well formed, and so are the
     * request and comment logs.
     */
    ghost predicate Valid()
      reads this
    {
      TablesValid(wikis, namespaces, permissions) && LogsValid(requests, comments, clock)
    }

    /** An empty farm: no tables rows, no databases. */
    constructor()
      ensures Valid()
      ensures wikis == [] && requests == [] && comments == [] && namespaces == [] && permissions == []
      ensures databases == {} && populated == {} && clock == 0
    {
      wikis, requests, comments, namespaces, permissions := [], [], [], [], [];
      databases, populated, clock := {}, {}, 0;
    }

    /** `wfTimestampNow()`: the current time, strictly later than every earlier call. */
    method Now() returns (t: nat)
      modifies this`clock
      ensures t == old(clock) && clock == old(clock) + 1
    {
      t := clock;
      clock := clock + 1;
    }
  }

  /** A pending request with this id exists (`cw_id = id AND cw_status = 'pending'`). */
  predicate PendingRequest(requests: seq<RequestRow>, id: int) {
    1 <= id <= |requests| && requests[id - 1].status == Pending
  }

  /** Some pending request is for this database name. */
  predicate HasPendingFor(requests: seq<RequestRow>, dbname: string) {
    exists i :: 0 <= i < |requests| && requests[i].status == Pending && requests[i].dbname == dbname
  }
}
