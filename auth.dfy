/**
 * The redemption engine (`VerifyPlus_Handler::authenticate_code` and its
 * helpers): a submitted code is looked up exactly, then case-insensitively;
 * it is refused when empty, unknown or already redeemed, and otherwise one
 * success row is appended to `auth_logs`. "Used" is never stored on the code
 * row: it is read back from the log.
 *
 * `AuthenticatedAsWritten` is the engine as the code stands: `log_attempt`
 * reports success even when the insert is refused. The methods `LogAttempt`
 * and `AuthenticateCode` follow it. `Authenticated` is the corrected engine,
 * which reports a redemption only when its log row was written; the
 * properties of the engine are stated about it, and
 * `AuthLaws.AsWrittenAgreesWhenRecorded` carries them over to the code as
 * written whenever the row fits.
 */
module Auth {
  import opened Wrappers
  import opened Text
  import opened Schema
  import opened Database
  import opened AuthChecks

  /** The form fields after `sanitize_text_field` / `sanitize_email`; a field
      that was not posted is "". */
  datatype Submission = Submission(authCode: string, name: string, email: string, phone: string, purchaseLocation: string)

  /** The options `verifyplus_success_message` and `verifyplus_error_message`. */
  datatype Messages = Messages(success: string, error: string)

  /** What the request offers besides the form: `$_SERVER`, PHP's public
      address test, and `current_time('mysql')`. */
  datatype Request = Request(server: map<string, string>, isPublicIp: string -> bool, now: int)

  /** The array `authenticate_code` returns. */
  datatype AuthResult = AuthResult(success: bool, message: string, logMessage: string)

  /** The tables after a call, and what it returned. */
  datatype Outcome = Outcome(tables: Tables, result: AuthResult)

  const EmptyCode: string := "Empty auth code"
  const NotFound: string := "Code not found"
  const AlreadyUsed: string := "Code already used"
  const Redeemed: string := "Authentication successful"
  /** The reason the corrected engine gives when the success row could not be written. */
  const NotRecorded: string := "Authentication not recorded"

  /** The codes `create_test_codes` inserts into an empty table. */
  const TestCodes: seq<string> := ["TEST001", "DEMO123", "SAMPLE456", "AUTH789", "CODE999"]

  // ---------------------------------------------------------------------------
  // Seeding (`create_test_codes`)
  // ---------------------------------------------------------------------------

  /** The tables after inserting `codes` one by one; a refused insert is ignored. */
  function InsertEach(t: Tables, codes: seq<string>, now: int): (r: Tables)
    ensures r.logs == t.logs && r.nextLogId == t.nextLogId && t.codes <= r.codes
    ensures Values(r.codes) == Values(t.codes) + set c | c in codes && CodeFits(c)
    decreases |codes|
  {
    if codes == [] then t
    else
      var init := codes[..|codes| - 1];
      var code := codes[|codes| - 1];
      assert codes == init + [code];
      FittingSnoc(init, code);
      InsertCode(InsertEach(t, init, now), code, now).tables
  }

  lemma FittingSnoc(codes: seq<string>, code: string)
    ensures (set c | c in codes + [code] && CodeFits(c)) ==
              (set c | c in codes && CodeFits(c)) + if CodeFits(code) then {code} else {}
  {
    assert forall c :: c in codes + [code] <==> c in codes || c == code;
  }

  /** The loop of `create_test_codes`, over any list of codes. */
  method InsertCodes(db: Db, codes: seq<string>, now: int)
    requires db.Valid()
    modifies db
    ensures db.Valid()
    ensures db.State() == InsertEach(old(db.State()), codes, now)
  {
    ghost var t0 := db.State();
    var i := 0;
    while i < |codes|
      invariant 0 <= i <= |codes|
      invariant db.Valid()
      invariant db.State() == InsertEach(t0, codes[..i], now)
    {
      assert codes[..i + 1][..i] == codes[..i];
      var _ := db.InsertCode(codes[i], now);
      i := i + 1;
    }
    assert codes[..i] == codes;
  }

  /** `create_test_codes`. */
  method CreateTestCodes(db: Db, now: int)
    requires db.Valid()
    modifies db
    ensures db.Valid()
    ensures db.State() == InsertEach(old(db.State()), TestCodes, now)
  {
    InsertCodes(db, TestCodes, now);
  }

  /** The code table after the engine's emptiness check: seeded only when it
      holds no row. */
  function Seeded(t: Tables, now: int): Tables {
    if |t.codes| == 0 then InsertEach(t, TestCodes, now) else t
  }

  /** An empty code table gets exactly the five test codes, and the log is
      untouched; a non-empty one is left as it is. */
  lemma SeedOnlyWhenEmpty(t: Tables, now: int)
    ensures Seeded(t, now).logs == t.logs
    ensures |t.codes| == 0 ==> Values(Seeded(t, now).codes) == {"TEST001", "DEMO123", "SAMPLE456", "AUTH789", "CODE999"}
    ensures |t.codes| > 0 ==> Seeded(t, now) == t
  {
    if |t.codes| == 0 {
      assert Values(t.codes) == {};
      assert forall c :: c in TestCodes ==> CodeFits(c);
      var fitting := set c | c in TestCodes && CodeFits(c);
      assert fitting == {"TEST001", "DEMO123", "SAMPLE456", "AUTH789", "CODE999"} by {
        assert TestCodes[0] in TestCodes && TestCodes[1] in TestCodes && TestCodes[2] in TestCodes;
        assert TestCodes[3] in TestCodes && TestCodes[4] in TestCodes;
      }
    }
  }

  // ---------------------------------------------------------------------------
  // Lookup
  // ---------------------------------------------------------------------------

  /** `WHERE auth_code = %s`, and only when that finds nothing,
      `WHERE LOWER(auth_code) = LOWER(%s)`. */
  function Lookup(codes: seq<CodeRow>, key: string): Option<CodeRow> {
    var exact := FindExact(codes, key);
    if exact.Some? then exact else FindFolded(codes, key)
  }

  /** A row is found exactly when some stored value equals the key up to
      case; an exact match wins over a case variant. */
  lemma LookupFinds(codes: seq<CodeRow>, key: string)
    ensures Lookup(codes, key).Some? <==> exists c :: c in codes && Lower(c.value) == Lower(key)
    ensures Lookup(codes, key).Some? ==> Lookup(codes, key).value in codes && Lower(Lookup(codes, key).value.value) == Lower(key)
    ensures key in Values(codes) ==> Lookup(codes, key).Some? && Lookup(codes, key).value.value == key
  {
    if key in Values(codes) {
      var c :| c in codes && c.value == key;
      assert FindExact(codes, key).Some?;
    }
  }

  // ---------------------------------------------------------------------------
  // Results and the log row
  // ---------------------------------------------------------------------------

  /** `handle_failed_attempt`: no row is written; the visitor sees the error option. */
  function FailedAttempt(msgs: Messages, reason: string): (r: AuthResult)
    ensures !r.success && r.message == msgs.error && r.logMessage == reason
  {
    AuthResult(false, msgs.error, reason)
  }

  /** `$_SERVER['HTTP_USER_AGENT']`, or "" when it is unset. */
  function UserAgent(server: map<string, string>): string {
    if "HTTP_USER_AGENT" in server then server["HTTP_USER_AGENT"] else ""
  }

  /** The row `log_attempt` inserts: the submitted code as posted (not trimmed again). */
  function EntryFor(sub: Submission, status: string, req: Request): LogEntry {
    LogEntry(sub.authCode, sub.name, sub.email, sub.phone, sub.purchaseLocation, status,
             ClientIp(req.server, req.isPublicIp), UserAgent(req.server))
  }

  /** `log_attempt`, corrected: the insert, then a success result only when
      the status is 'success' and the row was written. */
  function Logged(t: Tables, e: LogEntry, reason: string, msgs: Messages, now: int): Outcome {
    var ins := InsertLog(t, e, now);
    if e.status == Success && !ins.ok then Outcome(ins.tables, AuthResult(false, msgs.error, NotRecorded))
    else if e.status == Success then Outcome(ins.tables, AuthResult(true, msgs.success, reason))
    else Outcome(ins.tables, AuthResult(false, msgs.error, reason))
  }

  /** A success result always comes with its row in the log; a refused
      insert changes nothing. */
  lemma LoggedRecords(t: Tables, e: LogEntry, reason: string, msgs: Messages, now: int)
    ensures var o := Logged(t, e, reason, msgs, now);
            o.result.success <==> e.status == Success && EntryFits(e)
    ensures var o := Logged(t, e, reason, msgs, now);
            o.tables == if EntryFits(e) then t.(logs := t.logs + [LogRow(t.nextLogId, e, now)], nextLogId := t.nextLogId + 1) else t
    ensures var o := Logged(t, e, reason, msgs, now);
            o.result.message == if o.result.success then msgs.success else msgs.error
  {
  }

  /** `log_attempt` as written: the insert, whose result is ignored, then a
      result computed from the status alone. */
  function LoggedAsWritten(t: Tables, e: LogEntry, reason: string, msgs: Messages, now: int): Outcome {
    var ins := InsertLog(t, e, now);
    if e.status == Success then Outcome(ins.tables, AuthResult(true, msgs.success, reason))
    else Outcome(ins.tables, AuthResult(false, msgs.error, reason))
  }

  /** `log_attempt`, writing through `$wpdb`. */
  method LogAttempt(db: Db, sub: Submission, status: string, reason: string, msgs: Messages, req: Request)
    returns (result: AuthResult)
    requires db.Valid()
    modifies db
    ensures db.Valid()
    ensures Outcome(db.State(), result) == LoggedAsWritten(old(db.State()), EntryFor(sub, status, req), reason, msgs, req.now)
  {
    var ip := GetClientIp(req.server, req.isPublicIp);
    var userAgent := if "HTTP_USER_AGENT" in req.server then req.server["HTTP_USER_AGENT"] else "";
    var entry := LogEntry(sub.authCode, sub.name, sub.email, sub.phone, sub.purchaseLocation, status, ip, userAgent);
    var _ := db.InsertLog(entry, req.now);
    if status == Success {
      result := AuthResult(true, msgs.success, reason);
    } else {
      result := AuthResult(false, msgs.error, reason);
    }
  }

  // ---------------------------------------------------------------------------
  // The engine
  // ---------------------------------------------------------------------------

  /** The corrected `authenticate_code`, on sanitised fields: a redemption
      counts only when its success row was written. */
  function Authenticated(t: Tables, sub: Submission, msgs: Messages, req: Request): Outcome {
    if PhpEmpty(sub.authCode) then Outcome(t, FailedAttempt(msgs, EmptyCode))
    else
      var seeded := Seeded(t, req.now);
      var key := Trim(sub.authCode);
      if Lookup(seeded.codes, key).None? then Outcome(seeded, FailedAttempt(msgs, NotFound))
      else if SuccessCount(seeded.logs, key) > 0 then Outcome(seeded, FailedAttempt(msgs, AlreadyUsed))
      else Logged(seeded, EntryFor(sub, Success, req), Redeemed, msgs, req.now)
  }

  /** `authenticate_code` as written: the same checks, then `log_attempt`
      as written. */
  function AuthenticatedAsWritten(t: Tables, sub: Submission, msgs: Messages, req: Request): Outcome {
    if PhpEmpty(sub.authCode) then Outcome(t, FailedAttempt(msgs, EmptyCode))
    else
      var seeded := Seeded(t, req.now);
      var key := Trim(sub.authCode);
      if Lookup(seeded.codes, key).None? then Outcome(seeded, FailedAttempt(msgs, NotFound))
      else if SuccessCount(seeded.logs, key) > 0 then Outcome(seeded, FailedAttempt(msgs, AlreadyUsed))
      else LoggedAsWritten(seeded, EntryFor(sub, Success, req), Redeemed, msgs, req.now)
  }

  /** `authenticate_code`. The `SHOW TABLES` probe is taken to find the table. */
  method AuthenticateCode(db: Db, sub: Submission, msgs: Messages, req: Request) returns (result: AuthResult)
    requires db.Valid()
    modifies db
    ensures db.Valid()
    ensures Outcome(db.State(), result) == AuthenticatedAsWritten(old(db.State()), sub, msgs, req)
  {
    if PhpEmpty(sub.authCode) {
      return FailedAttempt(msgs, EmptyCode);
    }
    var totalCodes := |db.codes|;
    if totalCodes == 0 {
      CreateTestCodes(db, req.now);
    }
    var key := Trim(sub.authCode);
    var record := FindExact(db.codes, key);
    if record.None? {
      record := FindFolded(db.codes, key);
    }
    if record.None? {
      return FailedAttempt(msgs, NotFound);
    }
    var logExists := SuccessCount(db.logs, key);
    if logExists > 0 {
      return FailedAttempt(msgs, AlreadyUsed);
    }
    result := LogAttempt(db, sub, Success, Redeemed, msgs, req);
  }
}
