/**
 * The upload page's two import loops (`handle_csv_upload`,
 * `handle_manual_upload`). The CSV arrives already parsed by `fgetcsv`, one
 * sequence of fields per line; `sanitize_text_field` is a parameter, since the
 * loop applies it to each cell. The notices are what `add_settings_error`
 * queues for the page.
 */
module Upload {
  import opened Text
  import opened Schema
  import opened Provision
  import opened Database

  /** The notices the page shows after an upload. */
  datatype Notice =
    | ImportedNotice(imported: nat, skipped: nat)  // 'upload_success'
    | NothingImported                              // 'upload_no_imports' (a warning)
    | ImportFailed(code: string)                   // 'upload_error', one per failed insert
    | NoCodesEntered                               // 'no_codes'

  /** The summary notice, then one error notice per failed insert. */
  function UploadNotices(tally: Tally): (ns: seq<Notice>)
    ensures |ns| == 1 + |tally.errors|
    ensures ns[0].ImportedNotice? <==> tally.imported > 0
    ensures forall k :: 1 <= k < |ns| ==> ns[k] == ImportFailed(tally.errors[k - 1])
  {
    [if tally.imported > 0 then ImportedNotice(tally.imported, tally.skipped) else NothingImported] +
    seq(|tally.errors|, k requires 0 <= k < |tally.errors| => ImportFailed(tally.errors[k]))
  }

  /** The part of both loop bodies after the candidate is known: skip an
      empty or present code, otherwise insert it and count the outcome. */
  method ImportCandidate(db: Db, code: string, now: int, tally: Tally) returns (next: Tally)
    requires db.Valid()
    modifies db
    ensures db.Valid()
    ensures Step(db.State(), next) == ImportOne(old(db.State()), code, now, tally)
  {
    if PhpEmpty(code) {
      return tally.(skipped := tally.skipped + 1);
    }
    var present := CountWithValue(db.codes, code);
    if present > 0 {
      return tally.(skipped := tally.skipped + 1);
    }
    var result := db.InsertCode(code, now);
    if result {
      next := tally.(imported := tally.imported + 1);
    } else {
      next := Tally(tally.imported, tally.skipped + 1, tally.errors + [code]);
    }
  }

  /** `handle_csv_upload` from the first `fgetcsv` on. */
  method HandleCsvUpload(db: Db, lines: seq<seq<string>>, sanitize: string -> string, now: int)
    returns (tally: Tally, notices: seq<Notice>)
    requires db.Valid()
    modifies db
    ensures db.Valid()
    ensures Step(db.State(), tally) == ImportAll(old(db.State()), CsvCodes(lines, sanitize), now)
    ensures notices == UploadNotices(tally)
  {
    ghost var t0 := db.State();
    tally := NoTally;
    var row := 0;
    while row < |lines|
      invariant 0 <= row <= |lines|
      invariant db.Valid()
      invariant Step(db.State(), tally) == ImportAll(t0, CsvCodes(lines[..row], sanitize), now)
    {
      var data := lines[row];
      row := row + 1;
      // Skip header row
      if row == 1 {
        continue;
      }
      CsvCodesSnoc(lines, row - 1, sanitize);
      ImportAllSnoc(t0, CsvCodes(lines[..row - 1], sanitize), CsvCandidate(data, sanitize), now);
      if |data| < 1 {
        tally := tally.(skipped := tally.skipped + 1);
        continue;
      }
      var code := sanitize(Trim(data[0]));
      tally := ImportCandidate(db, code, now, tally);
    }
    assert lines[..row] == lines;
    notices := UploadNotices(tally);
  }

  /** The lines of the manual text box, each trimmed: `explode("\n")` then `trim`. */
  function TrimmedLines(text: string): (lines: seq<string>)
    ensures forall c :: c in lines ==> Unpadded(c) && '\n' !in c
  {
    var pieces := Split(text, '\n');
    var lines := seq(|pieces|, k requires 0 <= k < |pieces| => Trim(pieces[k]));
    assert forall c :: c in lines ==> Unpadded(c) && '\n' !in c by {
      forall c | c in lines ensures Unpadded(c) && '\n' !in c {
        var k :| 0 <= k < |lines| && lines[k] == c;
        assert pieces[k] in pieces;
        TrimChars(pieces[k]);
      }
    }
    lines
  }

  /** The codes of the manual text box: the trimmed lines that `array_filter`
      keeps, which drops "" and "0". */
  function ManualCodes(text: string): (codes: seq<string>)
    ensures forall c :: c in codes ==> !PhpEmpty(c) && Unpadded(c) && '\n' !in c
  {
    Filter(TrimmedLines(text), (c: string) => !PhpEmpty(c))
  }

  /** `handle_manual_upload` from the sanitised text on. A text with no usable
      line is refused with nothing changed. */
  method HandleManualUpload(db: Db, text: string, now: int) returns (tally: Tally, notices: seq<Notice>)
    requires db.Valid()
    modifies db
    ensures db.Valid()
    ensures |ManualCodes(text)| == 0 ==> db.State() == old(db.State()) && tally == NoTally && notices == [NoCodesEntered]
    ensures |ManualCodes(text)| > 0 ==>
              Step(db.State(), tally) == ImportAll(old(db.State()), ManualCodes(text), now) &&
              notices == UploadNotices(tally)
  {
    var codes := ManualCodes(text);
    if |codes| == 0 {
      tally := NoTally;
      notices := [NoCodesEntered];
      return;
    }
    ghost var t0 := db.State();
    tally := NoTally;
    var i := 0;
    while i < |codes|
      invariant 0 <= i <= |codes|
      invariant db.Valid()
      invariant Step(db.State(), tally) == ImportAll(t0, codes[..i], now)
    {
      var code := codes[i];
      ImportAllSnoc(t0, codes[..i], code, now);
      assert codes[..i + 1] == codes[..i] + [code];
      i := i + 1;
      tally := ImportCandidate(db, code, now, tally);
    }
    assert codes[..i] == codes;
    notices := UploadNotices(tally);
  }

  /** The success notice appears exactly when the upload added a row. */
  lemma SuccessNoticeIffRowsAdded(t: Tables, codes: seq<string>, now: int)
    ensures var r := ImportAll(t, codes, now);
            UploadNotices(r.tally)[0].ImportedNotice? <==> |r.tables.codes| > |t.codes|
  {
  }

  /** Every CSV line after the header is counted once, as imported or as skipped. */
  lemma CsvCounts(t: Tables, lines: seq<seq<string>>, sanitize: string -> string, now: int)
    requires |lines| >= 1
    ensures var r := ImportAll(t, CsvCodes(lines, sanitize), now);
            r.tally.imported + r.tally.skipped == |lines| - 1
  {
  }
}
