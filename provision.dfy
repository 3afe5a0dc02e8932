/**
 * The provisioning step shared by the three import loops (the CSV and the
 * manual upload of the upload page, and the AJAX CSV import): a candidate code
 * that is empty or already present is skipped; otherwise it is inserted, and a
 * refused insert is skipped and reported as an error.
 */
module Provision {
  import opened Text
  import opened Schema

  /** The counters of an import run; `errors` lists the codes whose insert failed. */
  datatype Tally = Tally(imported: nat, skipped: nat, errors: seq<string>)

  const NoTally := Tally(0, 0, [])

  datatype Step = Step(tables: Tables, tally: Tally)

  /** The codes an import of `codes` adds when none of them is present yet. */
  function Accepted(codes: seq<string>): set<string> {
    set c | c in codes && !PhpEmpty(c) && CodeFits(c)
  }

  /** The candidate code of one CSV line: its first cell, trimmed then sanitised.
      A line without cells is skipped exactly like an empty code. */
  function CsvCandidate(line: seq<string>, sanitize: string -> string): string {
    if |line| < 1 then "" else sanitize(Trim(line[0]))
  }

  /** The candidates of a CSV file: every line but the first, which is the header. */
  function CsvCodes(lines: seq<seq<string>>, sanitize: string -> string): (codes: seq<string>)
    ensures |codes| == if |lines| == 0 then 0 else |lines| - 1
  {
    if |lines| <= 1 then []
    else seq(|lines| - 1, k requires 0 <= k < |lines| - 1 => CsvCandidate(lines[k + 1], sanitize))
  }

  lemma CsvCodesSnoc(lines: seq<seq<string>>, n: nat, sanitize: string -> string)
    requires 1 <= n < |lines|
    ensures CsvCodes(lines[..n + 1], sanitize) == CsvCodes(lines[..n], sanitize) + [CsvCandidate(lines[n], sanitize)]
  {
    var a := CsvCodes(lines[..n + 1], sanitize);
    var b := CsvCodes(lines[..n], sanitize) + [CsvCandidate(lines[n], sanitize)];
    assert |a| == |b| == n;
    forall k | 0 <= k < n ensures a[k] == b[k] {
      assert lines[..n + 1][k + 1] == lines[k + 1];
      if k < n - 1 {
        assert lines[..n][k + 1] == lines[k + 1];
      }
    }
  }

  /** One pass of a loop body for the candidate `code`. */
  function ImportOne(t: Tables, code: string, now: int, tally: Tally): (r: Step)
    ensures r.tally.imported + r.tally.skipped == tally.imported + tally.skipped + 1
    ensures r.tables.logs == t.logs && t.codes <= r.tables.codes
    ensures r.tally.imported == tally.imported + (|r.tables.codes| - |t.codes|)
    ensures Values(r.tables.codes) ==
              if PhpEmpty(code) || !CodeFits(code) then Values(t.codes) else Values(t.codes) + {code}
    ensures r.tally.errors == if !PhpEmpty(code) && code !in Values(t.codes) && !CodeFits(code)
                              then tally.errors + [code] else tally.errors
  {
    if PhpEmpty(code) then
      Step(t, tally.(skipped := tally.skipped + 1))
    else if CountWithValue(t.codes, code) > 0 then
      Step(t, tally.(skipped := tally.skipped + 1))
    else
      var ins := InsertCode(t, code, now);
      if ins.ok then Step(ins.tables, tally.(imported := tally.imported + 1))
      else Step(ins.tables, Tally(tally.imported, tally.skipped + 1, tally.errors + [code]))
  }

  /** The tables and counters after the loop has processed `codes` in order. */
  function ImportAll(t: Tables, codes: seq<string>, now: int): (r: Step)
    ensures r.tally.imported + r.tally.skipped == |codes|
    ensures r.tables.logs == t.logs && t.codes <= r.tables.codes
    ensures r.tally.imported == |r.tables.codes| - |t.codes|
    ensures Values(r.tables.codes) == Values(t.codes) + Accepted(codes)
    decreases |codes|
  {
    if codes == [] then Step(t, NoTally)
    else
      var init := codes[..|codes| - 1];
      var prev := ImportAll(t, init, now);
      var code := codes[|codes| - 1];
      assert codes == init + [code];
      AcceptedSnoc(init, code);
      ImportOne(prev.tables, code, now, prev.tally)
  }

  lemma AcceptedSnoc(codes: seq<string>, code: string)
    ensures Accepted(codes + [code]) ==
              if PhpEmpty(code) || !CodeFits(code) then Accepted(codes) else Accepted(codes) + {code}
  {
    assert forall c :: c in codes + [code] <==> c in codes || c == code;
  }

  /** Only a non-empty, over-long candidate of the input is ever reported as
      failed, and each failure was also counted as skipped. */
  lemma {:induction false} ImportAllErrorsSound(t: Tables, codes: seq<string>, now: int)
    ensures var r := ImportAll(t, codes, now);
            |r.tally.errors| <= r.tally.skipped &&
            forall e :: e in r.tally.errors ==> e in codes && !PhpEmpty(e) && !CodeFits(e)
    decreases |codes|
  {
    if codes != [] {
      var init := codes[..|codes| - 1];
      assert codes == init + [codes[|codes| - 1]];
      ImportAllErrorsSound(t, init, now);
    }
  }

  lemma ImportAllSnoc(t: Tables, codes: seq<string>, code: string, now: int)
    ensures var prev := ImportAll(t, codes, now);
            ImportAll(t, codes + [code], now) == ImportOne(prev.tables, code, now, prev.tally)
  {
    assert (codes + [code])[..|codes|] == codes;
  }

  /** Every well-formed step keeps the schema's guarantees. */
  lemma {:induction false} ImportAllWellFormed(t: Tables, codes: seq<string>, now: int)
    requires WellFormed(t)
    ensures WellFormed(ImportAll(t, codes, now).tables)
    decreases |codes|
  {
    if codes != [] {
      var init := codes[..|codes| - 1];
      ImportAllWellFormed(t, init, now);
      InsertCodeWellFormed(ImportAll(t, init, now).tables, codes[|codes| - 1], now);
    }
  }

  /** In a well-formed table every over-long, non-empty candidate is reported as an error. */
  lemma {:induction false} ImportAllErrors(t: Tables, codes: seq<string>, now: int, e: string)
    requires WellFormed(t)
    requires e in codes && !PhpEmpty(e) && !CodeFits(e)
    ensures e in ImportAll(t, codes, now).tally.errors
    decreases |codes|
  {
    var init := codes[..|codes| - 1];
    var code := codes[|codes| - 1];
    assert codes == init + [code];
    var prev := ImportAll(t, init, now);
    ImportAllWellFormed(t, init, now);
    if e in init {
      ImportAllErrors(t, init, now, e);
    } else {
      assert e == code;
      assert e !in Values(prev.tables.codes);
    }
  }

  /** Running an import again over codes that are all present, empty or
      over-long changes nothing and imports nothing. */
  lemma {:induction false} ImportAllNothingNew(t: Tables, codes: seq<string>, now: int)
    requires forall c :: c in codes ==> PhpEmpty(c) || !CodeFits(c) || c in Values(t.codes)
    ensures ImportAll(t, codes, now).tables == t
    ensures ImportAll(t, codes, now).tally.imported == 0
    decreases |codes|
  {
    if codes != [] {
      var init := codes[..|codes| - 1];
      assert forall c :: c in init ==> c in codes;
      ImportAllNothingNew(t, init, now);
    }
  }

  /** Provisioning is idempotent: a second run with the same input adds no row. */
  lemma ImportTwice(t: Tables, codes: seq<string>, now: int, later: int)
    ensures var once := ImportAll(t, codes, now).tables;
            ImportAll(once, codes, later).tables == once &&
            ImportAll(once, codes, later).tally.imported == 0
  {
    var once := ImportAll(t, codes, now).tables;
    assert forall c :: c in codes ==> PhpEmpty(c) || !CodeFits(c) || c in Values(once.codes) by {
      forall c | c in codes && !PhpEmpty(c) && CodeFits(c) ensures c in Values(once.codes) {
        assert c in Accepted(codes);
      }
    }
    ImportAllNothingNew(once, codes, later);
  }
}
