/**
 * The dashboard's statistics: row counts of both tables, success and failure
 * counts, the codes with no success row, and `used = total - unused`.
 */
module Dashboard {
  import opened Text
  import opened Schema

  datatype DashStats = DashStats(totalCodes: nat, totalLogs: nat, successful: nat, failed: nat, unused: nat, used: int)

  /** The codes with no success row of equal `auth_code`. */
  function UnusedCodes(t: Tables): seq<CodeRow> {
    Filter(t.codes, (c: CodeRow) => !IsUsed(t.logs, c.value))
  }

  function SuccessRows(logs: seq<LogRow>): seq<LogRow> {
    Filter(logs, (l: LogRow) => l.entry.status == Success)
  }

  /** The dashboard query, then `$used_codes = $total_codes - $unused_codes`. */
  function Stats(t: Tables): DashStats {
    var unused := |UnusedCodes(t)|;
    DashStats(|t.codes|, |t.logs|, |SuccessRows(t.logs)|,
              |Filter(t.logs, (l: LogRow) => l.entry.status == Failed)|,
              unused, |t.codes| - unused)
  }

  /** The subtraction is the number of codes that do have a success row. */
  lemma UsedIsCodesWithSuccess(t: Tables)
    ensures Stats(t).used == |Filter(t.codes, (c: CodeRow) => IsUsed(t.logs, c.value))|
    ensures 0 <= Stats(t).used <= Stats(t).totalCodes
  {
    FilterAll(t.codes, (c: CodeRow) => true);
    FilterPartition(t.codes, (c: CodeRow) => true, (c: CodeRow) => IsUsed(t.logs, c.value), (c: CodeRow) => !IsUsed(t.logs, c.value));
  }

  /** A new row is a success row for `v` exactly when it carries `v`, or else `v` already had one. */
  lemma IsUsedSnoc(logs: seq<LogRow>, row: LogRow, v: string)
    ensures IsUsed(logs + [row], v) <==> IsUsed(logs, v) || IsSuccessFor(row, v)
  {
    if IsUsed(logs + [row], v) && !IsSuccessFor(row, v) {
      var r :| r in logs + [row] && IsSuccessFor(r, v);
      assert r in logs;
    }
    if IsSuccessFor(row, v) {
      assert row in logs + [row];
    }
  }

  /** A success row for `a` takes `a` out of the unused codes if it was
      there, and changes nothing else. */
  lemma {:induction false} UnusedAfterSuccess(codes: seq<CodeRow>, logs: seq<LogRow>, row: LogRow)
    requires Distinct(codes, (c: CodeRow) => c.value)
    requires row.entry.status == Success
    ensures var a := row.entry.authCode;
            |Filter(codes, (c: CodeRow) => !IsUsed(logs + [row], c.value))| ==
              |Filter(codes, (c: CodeRow) => !IsUsed(logs, c.value))| - if a in Values(codes) && !IsUsed(logs, a) then 1 else 0
  {
    var a := row.entry.authCode;
    if codes != [] {
      var rest := codes[1..];
      DistinctTail(codes, (c: CodeRow) => c.value);
      UnusedAfterSuccess(rest, logs, row);
      IsUsedSnoc(logs, row, codes[0].value);
      ValuesCons(codes);
      if codes[0].value == a {
        assert a !in Values(rest);
      }
    }
  }

  /** Every success row adds one to `successful_auths`. */
  lemma SuccessRowsSnoc(logs: seq<LogRow>, row: LogRow)
    ensures |SuccessRows(logs + [row])| == |SuccessRows(logs)| + if row.entry.status == Success then 1 else 0
  {
    FilterAppend(logs, [row], (l: LogRow) => l.entry.status == Success);
  }
}
