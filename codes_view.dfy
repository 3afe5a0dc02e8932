/**
 * The "Manage Codes" page: the bulk delete, the search and status filter
 * (each code's status joined from the grouped success rows of the log), the
 * paged listing and the statistics box.
 */
module CodesView {
  import opened Wrappers
  import opened Text
  import opened Schema
  import opened Database
  import opened Paging

  // ---------------------------------------------------------------------------
  // Filter
  // ---------------------------------------------------------------------------

  /** `c.auth_code LIKE '%search%'`, added only when `!empty($search)`. */
  predicate SearchMatches(search: string, value: string) {
    PhpEmpty(search) || Contains(value, search)
  }

  /** `l.auth_code IS NOT NULL` for 'used', `IS NULL` for 'unused', nothing otherwise. */
  predicate StatusMatches(logs: seq<LogRow>, status: string, value: string) {
    if status == "used" then IsUsed(logs, value)
    else if status == "unused" then !IsUsed(logs, value)
    else true
  }

  /** The where-clause: both conditions joined with AND. */
  predicate Selected(logs: seq<LogRow>, search: string, status: string, c: CodeRow) {
    SearchMatches(search, c.value) && StatusMatches(logs, status, c.value)
  }

  /** The code rows the where-clause keeps, in table order. */
  function SelectedCodes(t: Tables, search: string, status: string): (r: seq<CodeRow>)
    ensures forall c :: c in r <==> c in t.codes && Selected(t.logs, search, status, c)
  {
    Filter(t.codes, (c: CodeRow) => Selected(t.logs, search, status, c))
  }

  /** A listed row with its `actual_status`. */
  datatype Listing = Listing(row: CodeRow, status: string)

  /** `CASE WHEN l.auth_code IS NOT NULL THEN 'used' ELSE 'unused' END`. */
  function Listed(logs: seq<LogRow>, c: CodeRow): (l: Listing)
    ensures l.row == c && (l.status == "used" <==> IsUsed(logs, c.value))
    ensures l.status == "used" || l.status == "unused"
  {
    Listing(c, if IsUsed(logs, c.value) then "used" else "unused")
  }

  /** `$total_items`: the count query uses the same join and where-clause. */
  function TotalItems(t: Tables, search: string, status: string): nat {
    |SelectedCodes(t, search, status)|
  }

  /** The rows of the requested page, newest first. */
  function CodesPage(t: Tables, search: string, status: string, requested: Option<int>): (r: seq<Listing>)
    ensures |r| <= PerPage
    ensures forall l :: l in r ==> l.row in t.codes && Selected(t.logs, search, status, l.row) &&
                                    (l.status == "used" <==> IsUsed(t.logs, l.row.value))
    ensures forall i :: 0 <= i < |r| ==>
              Offset(CurrentPage(requested)) + i < |SelectedCodes(t, search, status)| &&
              r[i] == Listed(t.logs, SelectedCodes(t, search, status)[|SelectedCodes(t, search, status)| - 1 - (Offset(CurrentPage(requested)) + i)])
    ensures Offset(CurrentPage(requested)) + PerPage <= |SelectedCodes(t, search, status)| ==> |r| == PerPage
  {
    NewestPage(SelectedCodes(t, search, status), CurrentPage(requested));
    ListAll(t.logs, Page(NewestFirst(SelectedCodes(t, search, status)), CurrentPage(requested)))
  }

  /** Each row with its `actual_status`, in order. */
  function ListAll(logs: seq<LogRow>, rows: seq<CodeRow>): (r: seq<Listing>)
    ensures |r| == |rows|
    ensures forall i :: 0 <= i < |r| ==> r[i] == Listed(logs, rows[i])
    ensures forall l :: l in r ==> l.row in rows && (l.status == "used" <==> IsUsed(logs, l.row.value))
  {
    if rows == [] then [] else [Listed(logs, rows[0])] + ListAll(logs, rows[1..])
  }

  /** The used and unused selections split every search result in two. */
  lemma UsedUnusedPartition(t: Tables, search: string, other: string)
    requires other != "used" && other != "unused"
    ensures TotalItems(t, search, "used") + TotalItems(t, search, "unused") == TotalItems(t, search, other)
  {
    FilterPartition(t.codes,
      (c: CodeRow) => Selected(t.logs, search, other, c),
      (c: CodeRow) => Selected(t.logs, search, "used", c),
      (c: CodeRow) => Selected(t.logs, search, "unused", c));
  }

  /** An empty or "0" search restricts nothing: PHP's `empty` drops the condition. */
  lemma EmptySearchKeepsAll(t: Tables, search: string)
    requires PhpEmpty(search)
    ensures SelectedCodes(t, search, "") == t.codes
  {
    FilterAll(t.codes, (c: CodeRow) => Selected(t.logs, search, "", c));
  }

  /** The grouped join yields at most one row per code: a code with several
      success rows is still listed once. */
  lemma ListedOnce(t: Tables, search: string, status: string)
    requires WellFormed(t)
    ensures Distinct(SelectedCodes(t, search, status), (c: CodeRow) => c.id)
    ensures Distinct(SelectedCodes(t, search, status), (c: CodeRow) => c.value)
  {
    FilterDistinct(t.codes, (c: CodeRow) => Selected(t.logs, search, status, c), (c: CodeRow) => c.id);
    FilterDistinct(t.codes, (c: CodeRow) => Selected(t.logs, search, status, c), (c: CodeRow) => c.value);
  }

  // ---------------------------------------------------------------------------
  // Statistics
  // ---------------------------------------------------------------------------

  datatype CodeStats = CodeStats(total: nat, unused: nat, used: nat)

  /** The statistics query: every code once, split by the same join. */
  function Stats(t: Tables): CodeStats {
    CodeStats(|t.codes|,
              |Filter(t.codes, (c: CodeRow) => !IsUsed(t.logs, c.value))|,
              |Filter(t.codes, (c: CodeRow) => IsUsed(t.logs, c.value))|)
  }

  /** `used_codes + unused_codes == total_codes`, and both agree with the
      listing's used and unused filters on an empty search. */
  lemma StatsAddUp(t: Tables)
    ensures Stats(t).used + Stats(t).unused == Stats(t).total
    ensures Stats(t).used == TotalItems(t, "", "used") && Stats(t).unused == TotalItems(t, "", "unused")
  {
    var all := (c: CodeRow) => true;
    FilterAll(t.codes, all);
    FilterPartition(t.codes, all, (c: CodeRow) => IsUsed(t.logs, c.value), (c: CodeRow) => !IsUsed(t.logs, c.value));
    FilterExt(t.codes, (c: CodeRow) => IsUsed(t.logs, c.value), (c: CodeRow) => Selected(t.logs, "", "used", c));
    FilterExt(t.codes, (c: CodeRow) => !IsUsed(t.logs, c.value), (c: CodeRow) => Selected(t.logs, "", "unused", c));
  }

  // ---------------------------------------------------------------------------
  // Bulk delete
  // ---------------------------------------------------------------------------

  /** The bulk action: 'delete' with a non-empty id list removes those code
      rows and reports the number of ids submitted; anything else does nothing. */
  method BulkDelete(db: Db, action: string, ids: seq<int>) returns (reported: Option<nat>)
    requires db.Valid()
    modifies db
    ensures db.Valid()
    ensures action == "delete" && ids != [] ==>
              db.State() == Schema.DeleteCodes(old(db.State()), set i | i in ids) && reported == Some(|ids|)
    ensures !(action == "delete" && ids != []) ==> db.State() == old(db.State()) && reported == None
    ensures db.logs == old(db.logs)
  {
    reported := None;
    if ids != [] {
      if action == "delete" {
        var _ := db.DeleteCodes(set i | i in ids);
        reported := Some(|ids|);
      }
    }
  }

  /** The reported count is the number of ids posted, not the rows removed:
      an id with no row is still counted. */
  lemma ReportCountsIds(t: Tables, ids: set<int>)
    requires forall c :: c in t.codes ==> c.id !in ids
    ensures Schema.DeleteCodes(t, ids) == t
  {
    FilterAll(t.codes, (c: CodeRow) => c.id !in ids);
  }
}
