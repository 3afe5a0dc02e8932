/**
 * The "Authentication Logs" page: the bulk delete, the search over four
 * columns and the status filter, the paged listing and the statistics box.
 */
module LogsView {
  import opened Wrappers
  import opened Text
  import opened Schema
  import opened Database
  import opened Paging

  /** `(auth_code LIKE %s OR name LIKE %s OR email LIKE %s OR phone LIKE %s)`,
      added only when `!empty($search)`. */
  predicate SearchMatches(search: string, e: LogEntry) {
    PhpEmpty(search) ||
    Contains(e.authCode, search) || Contains(e.name, search) || Contains(e.email, search) || Contains(e.phone, search)
  }

  /** `status = %s`, added only when `!empty($status_filter)`. */
  predicate StatusMatches(status: string, e: LogEntry) {
    PhpEmpty(status) || e.status == status
  }

  predicate Selected(search: string, status: string, r: LogRow) {
    SearchMatches(search, r.entry) && StatusMatches(status, r.entry)
  }

  /** The rows the where-clause keeps, in table order. */
  function SelectedLogs(t: Tables, search: string, status: string): (r: seq<LogRow>)
    ensures forall l :: l in r <==> l in t.logs && Selected(search, status, l)
  {
    Filter(t.logs, (l: LogRow) => Selected(search, status, l))
  }

  /** `$total_items`: the count query uses the same where-clause as the page. */
  function TotalItems(t: Tables, search: string, status: string): nat {
    |SelectedLogs(t, search, status)|
  }

  /** The rows of the requested page, newest first. */
  function LogsPage(t: Tables, search: string, status: string, requested: Option<int>): (r: seq<LogRow>)
    ensures |r| <= PerPage
    ensures forall l :: l in r ==> l in t.logs && Selected(search, status, l)
    ensures forall i :: 0 <= i < |r| ==>
              Offset(CurrentPage(requested)) + i < |SelectedLogs(t, search, status)| &&
              r[i] == SelectedLogs(t, search, status)[|SelectedLogs(t, search, status)| - 1 - (Offset(CurrentPage(requested)) + i)]
    ensures Offset(CurrentPage(requested)) + PerPage <= |SelectedLogs(t, search, status)| ==> |r| == PerPage
  {
    NewestPage(SelectedLogs(t, search, status), CurrentPage(requested));
    Page(NewestFirst(SelectedLogs(t, search, status)), CurrentPage(requested))
  }

  /** Filtering by a status never shows more rows than not filtering. */
  lemma StatusNarrows(t: Tables, search: string, status: string)
    ensures TotalItems(t, search, status) <= TotalItems(t, search, "")
  {
    FilterMonotone(t.logs, (l: LogRow) => Selected(search, "", l), (l: LogRow) => Selected(search, status, l));
  }

  /** A row appears in a search for the text of its own code. */
  lemma FindsOwnCode(t: Tables, r: LogRow)
    requires r in t.logs
    ensures r in SelectedLogs(t, r.entry.authCode, "")
  {
    assert r.entry.authCode[0..|r.entry.authCode|] == r.entry.authCode;
    ContainsAt(r.entry.authCode, r.entry.authCode, 0);
  }

  datatype LogStats = LogStats(total: nat, successful: nat, failed: nat)

  function Stats(t: Tables): LogStats {
    LogStats(|t.logs|,
             |Filter(t.logs, (l: LogRow) => l.entry.status == Success)|,
             |Filter(t.logs, (l: LogRow) => l.entry.status == Failed)|)
  }

  /** `successful_auths + failed_auths <= total_logs`, and each equals the
      listing's count for that status filter. */
  lemma StatsBounded(t: Tables)
    ensures Stats(t).successful + Stats(t).failed <= Stats(t).total
    ensures Stats(t).successful == TotalItems(t, "", Success) && Stats(t).failed == TotalItems(t, "", Failed)
  {
    var success := (l: LogRow) => l.entry.status == Success;
    var failed := (l: LogRow) => l.entry.status == Failed;
    var either := (l: LogRow) => success(l) || failed(l);
    FilterPartition(t.logs, either, success, failed);
    FilterMonotone(t.logs, (l: LogRow) => true, either);
    FilterAll(t.logs, (l: LogRow) => true);
    FilterExt(t.logs, success, (l: LogRow) => Selected("", Success, l));
    FilterExt(t.logs, failed, (l: LogRow) => Selected("", Failed, l));
  }

  /** The bulk action: 'delete' with a non-empty id list removes those log
      rows and reports the number of ids submitted; anything else does nothing. */
  method BulkDelete(db: Db, action: string, ids: seq<int>) returns (reported: Option<nat>)
    requires db.Valid()
    modifies db
    ensures db.Valid()
    ensures action == "delete" && ids != [] ==>
              db.State() == Schema.DeleteLogs(old(db.State()), set i | i in ids) && reported == Some(|ids|)
    ensures !(action == "delete" && ids != []) ==> db.State() == old(db.State()) && reported == None
    ensures db.codes == old(db.codes)
  {
    reported := None;
    if ids != [] {
      if action == "delete" {
        var _ := db.DeleteLogs(set i | i in ids);
        reported := Some(|ids|);
      }
    }
  }
}
