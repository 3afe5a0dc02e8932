/**
 * How the engine and the admin side meet on the same two tables: every
 * report derives "used" the way the engine's check does, a redemption moves
 * exactly one code from unused to used, and since "used" lives only in the
 * log, deleting log rows makes a code redeemable again while deleting a code
 * row does not.
 */
module Lifecycle {
  import opened Text
  import opened Schema
  import opened Provision
  import opened Auth
  import opened AuthLaws
  import Admin
  import Dashboard

  /** The export's status and the engine agree: on a non-empty table, an
      exact submission of a stored code is refused as already used exactly
      when the export lists that code as 'used'. */
  lemma ExportAgreesWithEngine(t: Tables, c: CodeRow, sub: Submission, msgs: Messages, req: Request)
    requires c in t.codes && sub.authCode == c.value
    requires Unpadded(sub.authCode) && !PhpEmpty(sub.authCode)
    ensures Authenticated(t, sub, msgs, req).result.logMessage == AlreadyUsed <==> Admin.StatusOf(t.logs, c.value) == "used"
  {
    TrimUnpadded(sub.authCode);
    assert Known(t.codes, Key(sub));
    assert |t.codes| > 0 && Seeded(t, req.now) == t;
    AuthenticatedBranches(t, sub, msgs, req);
    if !IsUsed(t.logs, c.value) {
      LookupFinds(t.codes, Key(sub));
      SuccessCountPositive(t.logs, Key(sub));
      assert Authenticated(t, sub, msgs, req) == Logged(t, EntryFor(sub, Success, req), Redeemed, msgs, req.now);
    }
  }

  /** A redemption of a stored code moves it from unused to used on the
      dashboard and adds one success; a redemption through a case variant
      adds the success but leaves every stored code's status as it was. */
  lemma RedeemMovesOneCode(t: Tables, sub: Submission, msgs: Messages, req: Request)
    requires WellFormed(t) && |t.codes| > 0 && Unpadded(sub.authCode)
    requires Authenticated(t, sub, msgs, req).result.success
    ensures var after := Dashboard.Stats(Authenticated(t, sub, msgs, req).tables);
            var before := Dashboard.Stats(t);
            after.unused == before.unused - (if sub.authCode in Values(t.codes) then 1 else 0) &&
            after.used == before.used + (if sub.authCode in Values(t.codes) then 1 else 0) &&
            after.successful == before.successful + 1 &&
            after.totalCodes == before.totalCodes
  {
    var e := EntryFor(sub, Success, req);
    var row := LogRow(t.nextLogId, e, req.now);
    SuccessRecordsOneRow(t, sub, msgs, req);
    SucceedsIff(t, sub, msgs, req);
    TrimUnpadded(sub.authCode);
    Dashboard.UnusedAfterSuccess(t.codes, t.logs, row);
    Dashboard.SuccessRowsSnoc(t.logs, row);
  }

  /** Deleting every success row of a code (one `ajax_delete_log` at a time,
      a bulk delete, or `ajax_delete_all_logs`) makes it redeemable again. */
  lemma LogDeleteRestoresCode(t: Tables, ids: set<int>, sub: Submission, msgs: Messages, req: Request)
    requires sub.authCode in Values(t.codes) && Unpadded(sub.authCode) && !PhpEmpty(sub.authCode)
    requires EntryFits(EntryFor(sub, Success, req))
    requires forall r :: r in t.logs && IsSuccessFor(r, sub.authCode) ==> r.id in ids
    ensures Authenticated(DeleteLogs(t, ids), sub, msgs, req).result.success
  {
    var t2 := DeleteLogs(t, ids);
    TrimUnpadded(sub.authCode);
    var c :| c in t.codes && c.value == sub.authCode;
    assert c in t2.codes && Lower(c.value) == Lower(Key(sub));
    RedeemsFresh(t2, sub, msgs, req);
  }

  /** Deleting a used code and importing it again brings it back as used:
      the import finds no row, inserts it, and the engine refuses it. */
  lemma ReimportedCodeStaysUsed(t: Tables, ids: set<int>, v: string, now: int, sub: Submission, msgs: Messages, req: Request)
    requires IsUsed(t.logs, v) && !PhpEmpty(v) && CodeFits(v) && Unpadded(v)
    requires sub.authCode == v
    ensures var t2 := ImportAll(DeleteCodes(t, ids), [v], now).tables;
            v in Values(t2.codes) && Admin.StatusOf(t2.logs, v) == "used" &&
            Authenticated(t2, sub, msgs, req) == Outcome(t2, AuthResult(false, msgs.error, AlreadyUsed))
  {
    var t2 := ImportAll(DeleteCodes(t, ids), [v], now).tables;
    assert v in Accepted([v]);
    var c :| c in t2.codes && c.value == v;
    TrimUnpadded(v);
    assert Known(t2.codes, Key(sub));
    SuccessCountPositive(t2.logs, v);
    AuthenticatedBranches(t2, sub, msgs, req);
  }
}
