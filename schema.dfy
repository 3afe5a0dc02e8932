/**
 * The two tables of the plugin, `auth_codes` and `auth_logs`, as values:
 * their rows, the constraints the schema puts on them (primary keys, the
 * UNIQUE KEY on `auth_code`, column widths), the SQL queries the plugin runs
 * against them, and the inserts and deletes it performs.
 *
 * A table is the sequence of its rows in primary-key order. An insert takes
 * the next auto-increment id; a DELETE does not reset the counter.
 */
module Schema {
  import opened Text
  import opened Wrappers

  /** A row of `auth_codes`. */
  datatype CodeRow = CodeRow(id: nat, value: string, createdAt: int)

  /** What one attempt records, before the database assigns its id and timestamp. */
  datatype LogEntry = LogEntry(
    authCode: string,
    name: string,
    email: string,
    phone: string,
    purchaseLocation: string,
    status: string,
    ipAddress: string,
    userAgent: string)

  /** A row of `auth_logs`. */
  datatype LogRow = LogRow(id: nat, entry: LogEntry, createdAt: int)

  /** Both tables and their auto-increment counters. */
  datatype Tables = Tables(codes: seq<CodeRow>, logs: seq<LogRow>, nextCodeId: nat, nextLogId: nat)

  const Success: string := "success"
  const Failed: string := "failed"

  /** Column widths of the schema: `varchar(255)` for codes, names, e-mails and
      purchase locations, `varchar(50)` for phones, `varchar(20)` for the status
      and `varchar(45)` for IP addresses; the `text` column `user_agent` holds
      at most 65,535 bytes, counted here as characters. */
  const CodeWidth: nat := 255
  const TextWidth: nat := 255
  const PhoneWidth: nat := 50
  const StatusWidth: nat := 20
  const IpWidth: nat := 45
  const UserAgentWidth: nat := 65535

  /** `$wpdb->insert` refuses a row with a value longer than its column. */
  predicate CodeFits(value: string) {
    |value| <= CodeWidth
  }

  predicate EntryFits(e: LogEntry) {
    |e.authCode| <= CodeWidth && |e.name| <= TextWidth && |e.email| <= TextWidth &&
    |e.phone| <= PhoneWidth && |e.purchaseLocation| <= TextWidth &&
    |e.status| <= StatusWidth && |e.ipAddress| <= IpWidth && |e.userAgent| <= UserAgentWidth
  }

  // ---------------------------------------------------------------------------
  // Sequences as tables
  // ---------------------------------------------------------------------------

  /** The rows of `s` that satisfy `keep`, in order: `SELECT ... WHERE keep`. */
  function Filter<T(!new)>(s: seq<T>, keep: T -> bool): (r: seq<T>)
    ensures |r| <= |s|
    ensures forall x :: x in r <==> x in s && keep(x)
  {
    if s == [] then [] else (if keep(s[0]) then [s[0]] else []) + Filter(s[1..], keep)
  }

  /** No two rows of `s` share a `key`. */
  ghost predicate Distinct<T(!new), K>(s: seq<T>, key: T -> K) {
    forall i, j :: 0 <= i < j < |s| ==> key(s[i]) != key(s[j])
  }

  lemma DistinctCons<T(!new), K>(x: T, s: seq<T>, key: T -> K)
    requires Distinct(s, key)
    requires forall y :: y in s ==> key(y) != key(x)
    ensures Distinct([x] + s, key)
  {
    forall i, j | 0 <= i < j < |[x] + s|
      ensures key(([x] + s)[i]) != key(([x] + s)[j])
    {
      assert ([x] + s)[j] == s[j - 1];
      if i > 0 {
        assert ([x] + s)[i] == s[i - 1];
      }
    }
  }

  lemma DistinctTail<T(!new), K>(s: seq<T>, key: T -> K)
    requires Distinct(s, key) && s != []
    ensures Distinct(s[1..], key)
    ensures forall y :: y in s[1..] ==> key(y) != key(s[0])
  {
    forall i, j | 0 <= i < j < |s[1..]|
      ensures key(s[1..][i]) != key(s[1..][j])
    {
      assert s[1..][i] == s[i + 1] && s[1..][j] == s[j + 1];
    }
    forall y | y in s[1..]
      ensures key(y) != key(s[0])
    {
      var j :| 0 <= j < |s[1..]| && s[1..][j] == y;
      assert s[j + 1] == y;
    }
  }

  lemma DistinctSnoc<T(!new), K>(s: seq<T>, x: T, key: T -> K)
    requires Distinct(s, key)
    requires forall y :: y in s ==> key(y) != key(x)
    ensures Distinct(s + [x], key)
  {
    forall i, j | 0 <= i < j < |s + [x]|
      ensures key((s + [x])[i]) != key((s + [x])[j])
    {
      assert (s + [x])[i] == s[i];
      if j < |s| {
        assert (s + [x])[j] == s[j];
      }
    }
  }

  /** Deleting rows never makes two remaining rows collide on a key. */
  lemma {:induction false} FilterDistinct<T(!new), K>(s: seq<T>, keep: T -> bool, key: T -> K)
    requires Distinct(s, key)
    ensures Distinct(Filter(s, keep), key)
  {
    if s != [] {
      var tail := s[1..];
      assert Distinct(tail, key) by {
        forall i, j | 0 <= i < j < |tail| ensures key(tail[i]) != key(tail[j]) {
          assert tail[i] == s[i + 1] && tail[j] == s[j + 1];
        }
      }
      FilterDistinct(tail, keep, key);
      if keep(s[0]) {
        forall y | y in Filter(tail, keep) ensures key(y) != key(s[0]) {
          var j :| 0 <= j < |tail| && tail[j] == y;
          assert s[j + 1] == y;
        }
        DistinctCons(s[0], Filter(tail, keep), key);
      }
    }
  }

  /** Splitting a selection by a second condition partitions it. */
  lemma {:induction false} FilterPartition<T(!new)>(s: seq<T>, keep: T -> bool, yes: T -> bool, no: T -> bool)
    requires forall x :: no(x) <==> keep(x) && !yes(x)
    requires forall x :: yes(x) ==> keep(x)
    ensures |Filter(s, yes)| + |Filter(s, no)| == |Filter(s, keep)|
  {
    if s != [] {
      FilterPartition(s[1..], keep, yes, no);
    }
  }

  /** A selection shrinks when its condition gets stronger. */
  lemma {:induction false} FilterMonotone<T(!new)>(s: seq<T>, weak: T -> bool, strong: T -> bool)
    requires forall x :: strong(x) ==> weak(x)
    ensures |Filter(s, strong)| <= |Filter(s, weak)|
  {
    if s != [] {
      FilterMonotone(s[1..], weak, strong);
    }
  }

  lemma {:induction false} FilterAppend<T(!new)>(s: seq<T>, t: seq<T>, keep: T -> bool)
    ensures Filter(s + t, keep) == Filter(s, keep) + Filter(t, keep)
  {
    if s == [] {
      assert s + t == t;
    } else {
      assert (s + t)[1..] == s[1..] + t;
      FilterAppend(s[1..], t, keep);
    }
  }

  /** A condition every row meets selects the whole table. */
  lemma {:induction false} FilterAll<T(!new)>(s: seq<T>, keep: T -> bool)
    requires forall x :: x in s ==> keep(x)
    ensures Filter(s, keep) == s
  {
    if s != [] {
      FilterAll(s[1..], keep);
    }
  }

  /** Two conditions that agree on every row select the same rows. */
  lemma {:induction false} FilterExt<T(!new)>(s: seq<T>, p: T -> bool, q: T -> bool)
    requires forall x :: x in s ==> (p(x) <==> q(x))
    ensures Filter(s, p) == Filter(s, q)
  {
    if s != [] {
      FilterExt(s[1..], p, q);
    }
  }

  /** A selection is shorter than its input exactly when some row fails the condition. */
  lemma {:induction false} FilterShorter<T(!new)>(s: seq<T>, keep: T -> bool)
    ensures |Filter(s, keep)| < |s| <==> exists x :: x in s && !keep(x)
  {
    if s != [] {
      FilterShorter(s[1..], keep);
      if exists x :: x in s[1..] && !keep(x) {
        var x :| x in s[1..] && !keep(x);
        assert x in s;
      }
      if exists x :: x in s && !keep(x) {
        var x :| x in s && !keep(x);
        assert x == s[0] || x in s[1..];
      }
    }
  }

  // ---------------------------------------------------------------------------
  // Schema constraints
  // ---------------------------------------------------------------------------

  /** The code values present in `auth_codes`. */
  function Values(codes: seq<CodeRow>): set<string> {
    set r | r in codes :: r.value
  }

  lemma ValuesCons(codes: seq<CodeRow>)
    requires codes != []
    ensures Values(codes) == {codes[0].value} + Values(codes[1..])
  {
    assert forall c :: c in codes <==> c == codes[0] || c in codes[1..];
  }

  /** What the schema guarantees of both tables: unique primary keys below
      the auto-increment counter, the UNIQUE KEY on `auth_code`, and every
      stored value within its column. */
  ghost predicate WellFormed(t: Tables) {
    Distinct(t.codes, (r: CodeRow) => r.id) &&
    Distinct(t.codes, (r: CodeRow) => r.value) &&
    Distinct(t.logs, (r: LogRow) => r.id) &&
    (forall r :: r in t.codes ==> r.id < t.nextCodeId && CodeFits(r.value)) &&
    (forall r :: r in t.logs ==> r.id < t.nextLogId && EntryFits(r.entry))
  }

  // ---------------------------------------------------------------------------
  // Queries
  // ---------------------------------------------------------------------------

  /** `SELECT * FROM auth_codes WHERE <hit>`, first row. */
  function FirstCode(codes: seq<CodeRow>, hit: CodeRow -> bool): (r: Option<CodeRow>)
    ensures r.Some? ==> r.value in codes && hit(r.value)
    ensures r.None? ==> forall c :: c in codes ==> !hit(c)
  {
    if codes == [] then None
    else if hit(codes[0]) then Some(codes[0])
    else FirstCode(codes[1..], hit)
  }

  /** `SELECT * FROM auth_codes WHERE auth_code = %s`. */
  function FindExact(codes: seq<CodeRow>, v: string): Option<CodeRow> {
    FirstCode(codes, (c: CodeRow) => c.value == v)
  }

  /** `SELECT * FROM auth_codes WHERE LOWER(auth_code) = LOWER(%s)`. */
  function FindFolded(codes: seq<CodeRow>, v: string): Option<CodeRow> {
    FirstCode(codes, (c: CodeRow) => Lower(c.value) == Lower(v))
  }

  /** `SELECT COUNT(*) FROM auth_codes WHERE auth_code = %s`. */
  function CountWithValue(codes: seq<CodeRow>, v: string): (n: nat)
    ensures n > 0 <==> v in Values(codes)
  {
    var hits := Filter(codes, (c: CodeRow) => c.value == v);
    assert |hits| > 0 ==> hits[0] in hits && hits[0].value in Values(codes);
    assert v in Values(codes) ==> |hits| > 0 by {
      if v in Values(codes) {
        var c :| c in codes && c.value == v;
        assert c in hits;
      }
    }
    |hits|
  }

  /** A log row recording a successful redemption of exactly the string `v`. */
  predicate IsSuccessFor(r: LogRow, v: string) {
    r.entry.status == Success && r.entry.authCode == v
  }

  /** `SELECT COUNT(*) FROM auth_logs WHERE auth_code = %s AND status = 'success'`. */
  function SuccessCount(logs: seq<LogRow>, v: string): (n: nat)
    ensures n <= |logs|
  {
    if logs == [] then 0
    else SuccessCount(logs[..|logs| - 1], v) + (if IsSuccessFor(logs[|logs| - 1], v) then 1 else 0)
  }

  /** The derived status: a code value is used iff some success row carries it
      (the `LEFT JOIN ... GROUP BY auth_code ... IS NOT NULL` of the reports). */
  predicate IsUsed(logs: seq<LogRow>, v: string) {
    exists r :: r in logs && IsSuccessFor(r, v)
  }

  /** The engine's `COUNT(*) > 0` test and the reports' join derive the same status. */
  lemma {:induction false} SuccessCountPositive(logs: seq<LogRow>, v: string)
    ensures SuccessCount(logs, v) > 0 <==> IsUsed(logs, v)
  {
    if logs != [] {
      var init := logs[..|logs| - 1];
      var last := logs[|logs| - 1];
      SuccessCountPositive(init, v);
      assert logs == init + [last];
      if IsUsed(logs, v) && !IsSuccessFor(last, v) {
        var r :| r in logs && IsSuccessFor(r, v);
        assert r in init;
      }
    }
  }

  // ---------------------------------------------------------------------------
  // Inserts and deletes
  // ---------------------------------------------------------------------------

  datatype Inserted = Inserted(tables: Tables, ok: bool)

  /** `$wpdb->insert` into `auth_codes`: refused when the value is already
      present (UNIQUE KEY) or longer than its column; otherwise the row is
      appended with the next id. */
  function InsertCode(t: Tables, value: string, now: int): (r: Inserted)
    ensures r.ok <==> value !in Values(t.codes) && CodeFits(value)
    ensures Values(r.tables.codes) == if r.ok then Values(t.codes) + {value} else Values(t.codes)
    ensures r.tables.logs == t.logs && r.tables.nextLogId == t.nextLogId && t.codes <= r.tables.codes
  {
    if value in Values(t.codes) || !CodeFits(value) then Inserted(t, false)
    else
      var row := CodeRow(t.nextCodeId, value, now);
      assert Values(t.codes + [row]) == Values(t.codes) + {value} by {
        assert forall x :: x in t.codes + [row] <==> x in t.codes || x == row;
      }
      Inserted(t.(codes := t.codes + [row], nextCodeId := t.nextCodeId + 1), true)
  }

  /** `$wpdb->insert` into `auth_logs`: refused when a field is longer than its column. */
  function InsertLog(t: Tables, e: LogEntry, now: int): (r: Inserted)
    ensures r.ok <==> EntryFits(e)
    ensures r.ok ==> r.tables.logs == t.logs + [LogRow(t.nextLogId, e, now)]
    ensures !r.ok ==> r.tables == t
    ensures r.tables.codes == t.codes
  {
    if EntryFits(e) then
      Inserted(t.(logs := t.logs + [LogRow(t.nextLogId, e, now)], nextLogId := t.nextLogId + 1), true)
    else Inserted(t, false)
  }

  /** `DELETE FROM auth_codes WHERE id IN (ids)`. */
  function DeleteCodes(t: Tables, ids: set<int>): (r: Tables)
    ensures forall c :: c in r.codes <==> c in t.codes && c.id !in ids
    ensures r.logs == t.logs
  {
    t.(codes := Filter(t.codes, (c: CodeRow) => c.id !in ids))
  }

  /** `DELETE FROM auth_logs WHERE id IN (ids)`. */
  function DeleteLogs(t: Tables, ids: set<int>): (r: Tables)
    ensures forall l :: l in r.logs <==> l in t.logs && l.id !in ids
    ensures r.codes == t.codes
  {
    t.(logs := Filter(t.logs, (l: LogRow) => l.id !in ids))
  }

  /** A DELETE affects a row exactly when some row carries one of the ids. */
  lemma DeleteCodesAffects(t: Tables, ids: set<int>)
    ensures |DeleteCodes(t, ids).codes| < |t.codes| <==> exists c :: c in t.codes && c.id in ids
  {
    FilterShorter(t.codes, (c: CodeRow) => c.id !in ids);
  }

  lemma DeleteLogsAffects(t: Tables, ids: set<int>)
    ensures |DeleteLogs(t, ids).logs| < |t.logs| <==> exists l :: l in t.logs && l.id in ids
  {
    FilterShorter(t.logs, (l: LogRow) => l.id !in ids);
  }

  lemma InsertCodeWellFormed(t: Tables, value: string, now: int)
    requires WellFormed(t)
    ensures WellFormed(InsertCode(t, value, now).tables)
  {
    if value !in Values(t.codes) && CodeFits(value) {
      var row := CodeRow(t.nextCodeId, value, now);
      DistinctSnoc(t.codes, row, (r: CodeRow) => r.id);
      DistinctSnoc(t.codes, row, (r: CodeRow) => r.value);
    }
  }

  lemma InsertLogWellFormed(t: Tables, e: LogEntry, now: int)
    requires WellFormed(t)
    ensures WellFormed(InsertLog(t, e, now).tables)
  {
    if EntryFits(e) {
      DistinctSnoc(t.logs, LogRow(t.nextLogId, e, now), (r: LogRow) => r.id);
    }
  }

  lemma DeleteCodesWellFormed(t: Tables, ids: set<int>)
    requires WellFormed(t)
    ensures WellFormed(DeleteCodes(t, ids))
  {
    FilterDistinct(t.codes, (c: CodeRow) => c.id !in ids, (r: CodeRow) => r.id);
    FilterDistinct(t.codes, (c: CodeRow) => c.id !in ids, (r: CodeRow) => r.value);
  }

  lemma DeleteLogsWellFormed(t: Tables, ids: set<int>)
    requires WellFormed(t)
    ensures WellFormed(DeleteLogs(t, ids))
  {
    FilterDistinct(t.logs, (l: LogRow) => l.id !in ids, (r: LogRow) => r.id);
  }
}
