/**
 * The admin AJAX handlers that change state or derive it: the CSV import, the
 * purchase-location list, the popup auto-close mapping, the row deletes and
 * the used/unused column of the export. Nonce and capability checks, the file
 * upload checks and the JSON transport are not part of this model; a handler
 * that gets past them is modelled from that point on.
 */
module Admin {
  import opened Wrappers
  import opened Text
  import opened Schema
  import opened Provision
  import opened Database

  // ---------------------------------------------------------------------------
  // CSV import (`ajax_import_codes`)
  // ---------------------------------------------------------------------------

  /** The import loop over the rows `fgetcsv` returns. Unlike the upload page it
      keeps no list of failed codes: a refused insert is only counted as skipped. */
  method ImportCodes(db: Db, lines: seq<seq<string>>, sanitize: string -> string, now: int)
    returns (imported: nat, skipped: nat)
    requires db.Valid()
    modifies db
    ensures db.Valid()
    ensures var r := ImportAll(old(db.State()), CsvCodes(lines, sanitize), now);
            db.State() == r.tables && imported == r.tally.imported && skipped == r.tally.skipped
  {
    ghost var t0 := db.State();
    ghost var errors: seq<string> := [];
    var done, passed := 0, 0;
    var row := 0;
    while row < |lines|
      invariant 0 <= row <= |lines|
      invariant db.Valid()
      invariant Step(db.State(), Tally(done, passed, errors)) == ImportAll(t0, CsvCodes(lines[..row], sanitize), now)
    {
      var data := lines[row];
      row := row + 1;
      // Skip header row
      if row == 1 {
        continue;
      }
      CsvCodesSnoc(lines, row - 1, sanitize);
      ImportAllSnoc(t0, CsvCodes(lines[..row - 1], sanitize), CsvCandidate(data, sanitize), now);
      if |data| < 1 {
        passed := passed + 1;
        continue;
      }
      var code := sanitize(Trim(data[0]));
      if PhpEmpty(code) {
        passed := passed + 1;
        continue;
      }
      var present := CountWithValue(db.codes, code);
      if present > 0 {
        passed := passed + 1;
        continue;
      }
      var result := db.InsertCode(code, now);
      if result {
        done := done + 1;
      } else {
        passed := passed + 1;
        errors := errors + [code];
      }
    }
    assert lines[..row] == lines;
    imported, skipped := done, passed;
  }

  // ---------------------------------------------------------------------------
  // Purchase locations (`verifyplus_purchase_locations`)
  // ---------------------------------------------------------------------------

  /** `array_search`: the index of the first entry equal to `x`, or `|s|` when there is none. */
  function IndexOf(s: seq<string>, x: string): (i: nat)
    ensures i <= |s|
    ensures i < |s| <==> x in s
    ensures i < |s| ==> s[i] == x
    ensures forall k :: 0 <= k < i ==> s[k] != x
  {
    if s == [] then 0
    else if s[0] == x then 0
    else 1 + IndexOf(s[1..], x)
  }

  /** `unset($locations[$key])` followed by `array_values`: the first entry equal
      to `x` goes, the others keep their order. */
  function RemoveFirst(s: seq<string>, x: string): (r: seq<string>)
    ensures x in s ==> |r| == |s| - 1 && multiset(r) + multiset{x} == multiset(s)
    ensures x !in s ==> r == s
  {
    var i := IndexOf(s, x);
    if i == |s| then s
    else
      assert s == s[..i] + [s[i]] + s[i + 1..];
      s[..i] + s[i + 1..]
  }

  /** No location is listed twice. */
  predicate NoDuplicates(s: seq<string>) {
    forall i, j :: 0 <= i < j < |s| ==> s[i] != s[j]
  }

  /** The stored option list. */
  class Options {
    var purchaseLocations: seq<string>

    constructor (locations: seq<string>)
      ensures purchaseLocations == locations
    {
      purchaseLocations := locations;
    }

    /** `ajax_add_purchase_location`, from the sanitised location on. */
    method AddPurchaseLocation(location: string) returns (resp: Response)
      modifies this
      ensures PhpEmpty(location) ==>
                resp == Err("Location cannot be empty") && purchaseLocations == old(purchaseLocations)
      ensures !PhpEmpty(location) && location in old(purchaseLocations) ==>
                resp == Err("Location already exists") && purchaseLocations == old(purchaseLocations)
      ensures !PhpEmpty(location) && location !in old(purchaseLocations) ==>
                resp == Ok("Purchase location added successfully") &&
                purchaseLocations == old(purchaseLocations) + [location]
    {
      if PhpEmpty(location) {
        return Err("Location cannot be empty");
      }
      if location in purchaseLocations {
        return Err("Location already exists");
      }
      purchaseLocations := purchaseLocations + [location];
      resp := Ok("Purchase location added successfully");
    }

    /** `ajax_delete_purchase_location`, from the sanitised location on: the
        search walks the list to the first equal entry. */
    method DeletePurchaseLocation(location: string) returns (resp: Response)
      modifies this
      ensures location in old(purchaseLocations) ==>
                resp == Ok("Purchase location deleted successfully") &&
                purchaseLocations == RemoveFirst(old(purchaseLocations), location)
      ensures location !in old(purchaseLocations) ==>
                resp == Err("Location not found") && purchaseLocations == old(purchaseLocations)
    {
      var locations := purchaseLocations;
      var key := 0;
      while key < |locations| && locations[key] != location
        invariant 0 <= key <= |locations|
        invariant forall k :: 0 <= k < key ==> locations[k] != location
      {
        key := key + 1;
      }
      if key < |locations| {
        assert key == IndexOf(locations, location) by {
          var i := IndexOf(locations, location);
          assert !(i < key) && !(key < i);
        }
        purchaseLocations := locations[..key] + locations[key + 1..];
        resp := Ok("Purchase location deleted successfully");
      } else {
        resp := Err("Location not found");
      }
    }
  }

  /** Deleting a location just added gives the list back. */
  lemma {:induction false} RemoveAdded(s: seq<string>, x: string)
    requires x !in s
    ensures RemoveFirst(s + [x], x) == s
  {
    var i := IndexOf(s + [x], x);
    assert (s + [x])[|s|] == x;
    assert forall k :: 0 <= k < |s| ==> (s + [x])[k] == s[k];
    assert (s + [x])[..i] == s;
  }

  /** Adding through the handler never creates a duplicate. */
  lemma AppendNoDuplicates(s: seq<string>, x: string)
    requires NoDuplicates(s) && x !in s
    ensures NoDuplicates(s + [x])
  {
    forall i, j | 0 <= i < j < |s + [x]| ensures (s + [x])[i] != (s + [x])[j] {
      assert (s + [x])[i] == s[i];
      if j < |s| {
        assert (s + [x])[j] == s[j];
      }
    }
  }

  /** In a list without duplicates, deleting a location removes it altogether
      and keeps the list free of duplicates. */
  lemma RemoveFirstNoDuplicates(s: seq<string>, x: string)
    requires NoDuplicates(s)
    ensures NoDuplicates(RemoveFirst(s, x))
    ensures x !in RemoveFirst(s, x)
  {
    var i := IndexOf(s, x);
    if i < |s| {
      var r := s[..i] + s[i + 1..];
      assert RemoveFirst(s, x) == r;
      RemoveAt(s, i);
      forall a, b | 0 <= a < b < |r| ensures r[a] != r[b] {
        assert r[a] == s[Skip(a, i)] && r[b] == s[Skip(b, i)];
      }
      forall k | 0 <= k < |r| ensures r[k] != x {
        assert r[k] == s[Skip(k, i)] && s[i] == x;
      }
    }
  }

  /** The position in the original list of position `k` after removing position `i`. */
  function Skip(k: nat, i: nat): (k': nat)
    ensures k' != i && (k < i ==> k' == k) && (k >= i ==> k' == k + 1)
  {
    if k < i then k else k + 1
  }

  lemma RemoveAt(s: seq<string>, i: nat)
    requires i < |s|
    ensures var r := s[..i] + s[i + 1..];
            |r| == |s| - 1 && forall k :: 0 <= k < |r| ==> r[k] == s[Skip(k, i)]
  {
  }

  // ---------------------------------------------------------------------------
  // Popup auto-close (`ajax_save_popup_settings`)
  // ---------------------------------------------------------------------------

  /** The two stored keys `popup_auto_close` and `popup_auto_close_delay`. */
  datatype AutoCloseSetting = AutoCloseSetting(enabled: bool, delay: int)

  /** The stored setting for the submitted number of seconds (`intval`, or
      absent): auto-close is on exactly for a positive number, which becomes
      the delay; otherwise the delay falls back to five seconds. */
  function AutoClose(submitted: Option<int>): (s: AutoCloseSetting)
    ensures s.enabled <==> submitted.Some? && submitted.value > 0
    ensures s.enabled ==> s.delay == submitted.value
    ensures !s.enabled ==> s.delay == 5
    ensures s.delay > 0
  {
    var seconds := if submitted.Some? then submitted.value else 0;
    AutoCloseSetting(seconds > 0, if seconds > 0 then seconds else 5)
  }

  /** The number the settings form pre-fills, as written: `intval` of the
      stored flag, which is a boolean. */
  function DisplayedAutoCloseAsWritten(stored: Option<AutoCloseSetting>): (n: int)
    ensures n == 0 || n == 1
  {
    if stored.Some? && stored.value.enabled then 1 else 0
  }

  /** Re-saving the form unchanged turns a ten-second auto-close into one second. */
  lemma ResaveAsWrittenShortensDelay()
    ensures AutoClose(Some(10)).delay == 10
    ensures AutoClose(Some(DisplayedAutoCloseAsWritten(Some(AutoClose(Some(10)))))).delay == 1
  {
  }

  /** The number the form should pre-fill: the delay while auto-close is on, 0 otherwise. */
  function DisplayedAutoClose(stored: Option<AutoCloseSetting>): (n: int)
    ensures n >= 0
    ensures n > 0 <==> stored.Some? && stored.value.enabled && stored.value.delay > 0
  {
    if stored.Some? && stored.value.enabled && stored.value.delay > 0 then stored.value.delay else 0
  }

  /** With the corrected form, saving what it shows keeps the stored setting. */
  lemma ResaveKeepsSetting(submitted: Option<int>)
    ensures AutoClose(Some(DisplayedAutoClose(Some(AutoClose(submitted))))) == AutoClose(submitted)
  {
  }

  // ---------------------------------------------------------------------------
  // Row deletes
  // ---------------------------------------------------------------------------

  /** `ajax_delete_code`: deletes the code row with that id, and only it. */
  method DeleteCode(db: Db, id: int) returns (resp: Response)
    requires db.Valid()
    modifies db
    ensures db.Valid()
    ensures db.State() == Schema.DeleteCodes(old(db.State()), {id})
    ensures resp.Ok? <==> exists c :: c in old(db.codes) && c.id == id
    ensures resp == if resp.Ok? then Ok("Code deleted successfully") else Err("Failed to delete code")
  {
    DeleteCodesAffects(db.State(), {id});
    var affected := db.DeleteCodes({id});
    if affected > 0 {
      resp := Ok("Code deleted successfully");
    } else {
      resp := Err("Failed to delete code");
    }
  }

  /** `ajax_delete_log`: deletes the log row with that id, and only it. */
  method DeleteLog(db: Db, id: int) returns (resp: Response)
    requires db.Valid()
    modifies db
    ensures db.Valid()
    ensures db.State() == Schema.DeleteLogs(old(db.State()), {id})
    ensures resp.Ok? <==> exists l :: l in old(db.logs) && l.id == id
    ensures resp == if resp.Ok? then Ok("Log deleted successfully") else Err("Failed to delete log")
  {
    DeleteLogsAffects(db.State(), {id});
    var affected := db.DeleteLogs({id});
    if affected > 0 {
      resp := Ok("Log deleted successfully");
    } else {
      resp := Err("Failed to delete log");
    }
  }

  /** `ajax_delete_all_logs`: `DELETE FROM auth_logs` does not fail here. */
  method DeleteAllLogs(db: Db) returns (resp: Response)
    requires db.Valid()
    modifies db
    ensures db.Valid()
    ensures db.logs == [] && db.codes == old(db.codes)
    ensures db.nextCodeId == old(db.nextCodeId) && db.nextLogId == old(db.nextLogId)
    ensures resp == Ok("All logs deleted successfully")
  {
    db.DeleteAllLogs();
    resp := Ok("All logs deleted successfully");
  }

  /** `ajax_delete_all_codes`: `DELETE FROM auth_codes` does not fail here. */
  method DeleteAllCodes(db: Db) returns (resp: Response)
    requires db.Valid()
    modifies db
    ensures db.Valid()
    ensures db.codes == [] && db.logs == old(db.logs)
    ensures db.nextCodeId == old(db.nextCodeId) && db.nextLogId == old(db.nextLogId)
    ensures resp == Ok("All codes deleted successfully")
  {
    db.DeleteAllCodes();
    resp := Ok("All codes deleted successfully");
  }

  // ---------------------------------------------------------------------------
  // Export (`ajax_export_codes`)
  // ---------------------------------------------------------------------------

  /** The status column of the reports: derived from the log, never stored. */
  function StatusOf(logs: seq<LogRow>, v: string): (s: string)
    ensures s == "used" || s == "unused"
    ensures s == "used" <==> IsUsed(logs, v)
  {
    if IsUsed(logs, v) then "used" else "unused"
  }

  datatype ExportRow = ExportRow(code: string, status: string, createdAt: int)

  datatype Exported = ExportError(message: string) | ExportCsv(rows: seq<ExportRow>)

  /** The rows of the export, newest first (`ORDER BY created_at DESC`, with
      rows inserted in time order), or an error for an empty code table. */
  function ExportCodes(t: Tables): (r: Exported)
    ensures r.ExportError? <==> t.codes == []
    ensures r.ExportError? ==> r.message == "No codes found to export"
    ensures r.ExportCsv? ==>
              |r.rows| == |t.codes| &&
              forall i :: 0 <= i < |r.rows| ==>
                var c := t.codes[|t.codes| - 1 - i];
                r.rows[i].code == c.value && r.rows[i].createdAt == c.createdAt &&
                (r.rows[i].status == "used" <==> IsUsed(t.logs, c.value)) &&
                (r.rows[i].status == "used" || r.rows[i].status == "unused")
  {
    if t.codes == [] then ExportError("No codes found to export")
    else
      var n := |t.codes|;
      ExportCsv(seq(n, i requires 0 <= i < n =>
        ExportRow(t.codes[n - 1 - i].value, StatusOf(t.logs, t.codes[n - 1 - i].value), t.codes[n - 1 - i].createdAt)))
  }
}
