/**
 * The `$wpdb` handle as the plugin uses it: an object holding the two tables,
 * whose insert and delete calls change them in place. Every call keeps the
 * schema's guarantees (`Schema.WellFormed`).
 */
module Database {
  import opened Schema

  class Db {
    var codes: seq<CodeRow>
    var logs: seq<LogRow>
    var nextCodeId: nat
    var nextLogId: nat

    /** The tables as a value. */
    function State(): Tables
      reads this
    {
      Tables(codes, logs, nextCodeId, nextLogId)
    }

    ghost predicate Valid()
      reads this
    {
      WellFormed(State())
    }

    /** Freshly created tables (`dbDelta` on activation): both empty. */
    constructor ()
      ensures Valid() && codes == [] && logs == []
    {
      codes, logs := [], [];
      nextCodeId, nextLogId := 1, 1;
    }

    method Set(t: Tables)
      requires WellFormed(t)
      modifies this
      ensures Valid() && State() == t
    {
      codes, logs, nextCodeId, nextLogId := t.codes, t.logs, t.nextCodeId, t.nextLogId;
    }

    /** `$wpdb->insert($table_codes, ...)`; `ok` is the call's truth value. */
    method InsertCode(value: string, now: int) returns (ok: bool)
      requires Valid()
      modifies this
      ensures Valid()
      ensures State() == Schema.InsertCode(old(State()), value, now).tables
      ensures ok == Schema.InsertCode(old(State()), value, now).ok
    {
      var r := Schema.InsertCode(State(), value, now);
      InsertCodeWellFormed(State(), value, now);
      Set(r.tables);
      ok := r.ok;
    }

    /** `$wpdb->insert($table_logs, ...)`; `ok` is the call's truth value. */
    method InsertLog(e: LogEntry, now: int) returns (ok: bool)
      requires Valid()
      modifies this
      ensures Valid()
      ensures State() == Schema.InsertLog(old(State()), e, now).tables
      ensures ok == Schema.InsertLog(old(State()), e, now).ok
    {
      var r := Schema.InsertLog(State(), e, now);
      InsertLogWellFormed(State(), e, now);
      Set(r.tables);
      ok := r.ok;
    }

    /** `DELETE FROM auth_codes WHERE id IN (...)`, returning the number of rows affected. */
    method DeleteCodes(ids: set<int>) returns (affected: nat)
      requires Valid()
      modifies this
      ensures Valid()
      ensures State() == Schema.DeleteCodes(old(State()), ids)
      ensures affected == |old(codes)| - |codes|
    {
      var before := |codes|;
      DeleteCodesWellFormed(State(), ids);
      Set(Schema.DeleteCodes(State(), ids));
      affected := before - |codes|;
    }

    /** `DELETE FROM auth_logs WHERE id IN (...)`, returning the number of rows affected. */
    method DeleteLogs(ids: set<int>) returns (affected: nat)
      requires Valid()
      modifies this
      ensures Valid()
      ensures State() == Schema.DeleteLogs(old(State()), ids)
      ensures affected == |old(logs)| - |logs|
    {
      var before := |logs|;
      DeleteLogsWellFormed(State(), ids);
      Set(Schema.DeleteLogs(State(), ids));
      affected := before - |logs|;
    }

    /** `DELETE FROM auth_codes`: every row goes, the counter stays. */
    method DeleteAllCodes()
      requires Valid()
      modifies this
      ensures Valid()
      ensures codes == [] && logs == old(logs)
      ensures nextCodeId == old(nextCodeId) && nextLogId == old(nextLogId)
    {
      codes := [];
    }

    /** `DELETE FROM auth_logs`: every row goes, the counter stays. */
    method DeleteAllLogs()
      requires Valid()
      modifies this
      ensures Valid()
      ensures logs == [] && codes == old(codes)
      ensures nextCodeId == old(nextCodeId) && nextLogId == old(nextLogId)
    {
      logs := [];
    }
  }
}
