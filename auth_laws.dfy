/**
 * What the redemption engine guarantees: the outcome of each branch, the
 * condition for a success, that failures write nothing, and that a code is
 * redeemed at most once under sequential calls. Also the limits of those
 * guarantees: a padded submission and a case variant of a stored code.
 */
module AuthLaws {
  import opened Wrappers
  import opened Text
  import opened Schema
  import opened AuthChecks
  import opened Auth

  /** The lookup key: the submitted code, trimmed. */
  function Key(sub: Submission): string {
    Trim(sub.authCode)
  }

  /** The code table holds a value equal to `key` up to case. */
  predicate Known(codes: seq<CodeRow>, key: string) {
    exists c :: c in codes && Lower(c.value) == Lower(key)
  }

  /** Each branch of `authenticate_code`: which reason it gives, and what it
      leaves in the tables. */
  lemma AuthenticatedBranches(t: Tables, sub: Submission, msgs: Messages, req: Request)
    ensures var o := Authenticated(t, sub, msgs, req);
            PhpEmpty(sub.authCode) ==> o == Outcome(t, AuthResult(false, msgs.error, EmptyCode))
    ensures var o := Authenticated(t, sub, msgs, req);
            var seeded := Seeded(t, req.now);
            !PhpEmpty(sub.authCode) && !Known(seeded.codes, Key(sub)) ==>
              o == Outcome(seeded, AuthResult(false, msgs.error, NotFound))
    ensures var o := Authenticated(t, sub, msgs, req);
            var seeded := Seeded(t, req.now);
            !PhpEmpty(sub.authCode) && Known(seeded.codes, Key(sub)) && IsUsed(seeded.logs, Key(sub)) ==>
              o == Outcome(seeded, AuthResult(false, msgs.error, AlreadyUsed))
    ensures var o := Authenticated(t, sub, msgs, req);
            var seeded := Seeded(t, req.now);
            var e := EntryFor(sub, Success, req);
            !PhpEmpty(sub.authCode) && Known(seeded.codes, Key(sub)) && !IsUsed(seeded.logs, Key(sub)) && EntryFits(e) ==>
              o.result == AuthResult(true, msgs.success, Redeemed) &&
              o.tables == seeded.(logs := seeded.logs + [LogRow(seeded.nextLogId, e, req.now)], nextLogId := seeded.nextLogId + 1)
  {
    var seeded := Seeded(t, req.now);
    if !PhpEmpty(sub.authCode) {
      SeededBranches(t, seeded, sub, msgs, req);
    }
  }

  /** The branches after the emptiness check, on the seeded table. */
  lemma SeededBranches(t: Tables, seeded: Tables, sub: Submission, msgs: Messages, req: Request)
    requires !PhpEmpty(sub.authCode) && seeded == Seeded(t, req.now)
    ensures Lookup(seeded.codes, Key(sub)).None? ==> Authenticated(t, sub, msgs, req) == Outcome(seeded, AuthResult(false, msgs.error, NotFound))
    ensures Lookup(seeded.codes, Key(sub)).Some? && SuccessCount(seeded.logs, Key(sub)) > 0 ==>
              Authenticated(t, sub, msgs, req) == Outcome(seeded, AuthResult(false, msgs.error, AlreadyUsed))
    ensures Lookup(seeded.codes, Key(sub)).Some? && SuccessCount(seeded.logs, Key(sub)) == 0 ==>
              Authenticated(t, sub, msgs, req) == Logged(seeded, EntryFor(sub, Success, req), Redeemed, msgs, req.now)
    ensures Lookup(seeded.codes, Key(sub)).Some? <==> Known(seeded.codes, Key(sub))
    ensures SuccessCount(seeded.logs, Key(sub)) > 0 <==> IsUsed(seeded.logs, Key(sub))
  {
    LookupFinds(seeded.codes, Key(sub));
    SuccessCountPositive(seeded.logs, Key(sub));
  }

  /** A submission succeeds exactly when it is non-empty, matches a stored
      code up to case, has no success row yet under its trimmed form, and
      its row fits the log table. */
  lemma SucceedsIff(t: Tables, sub: Submission, msgs: Messages, req: Request)
    ensures var seeded := Seeded(t, req.now);
            Authenticated(t, sub, msgs, req).result.success <==>
              !PhpEmpty(sub.authCode) && Known(seeded.codes, Key(sub)) && !IsUsed(seeded.logs, Key(sub)) &&
              EntryFits(EntryFor(sub, Success, req))
  {
    AuthenticatedBranches(t, sub, msgs, req);
  }

  /** A failed attempt writes no log row (the only table change it can make is
      the seeding of an empty code table), and the visitor sees the error option. */
  lemma FailureWritesNothing(t: Tables, sub: Submission, msgs: Messages, req: Request)
    requires !Authenticated(t, sub, msgs, req).result.success
    ensures var o := Authenticated(t, sub, msgs, req);
            o.tables.logs == t.logs && o.tables.nextLogId == t.nextLogId &&
            (o.tables == t || o.tables == Seeded(t, req.now)) &&
            o.result.message == msgs.error
  {
    var seeded := Seeded(t, req.now);
    AuthenticatedBranches(t, sub, msgs, req);
    if !PhpEmpty(sub.authCode) && Known(seeded.codes, Key(sub)) && !IsUsed(seeded.logs, Key(sub)) {
      SucceedsIff(t, sub, msgs, req);
      LoggedRecords(seeded, EntryFor(sub, Success, req), Redeemed, msgs, req.now);
    }
  }

  /** A success appends exactly one row: the submitted code with status
      'success'; the code table is only ever touched by seeding. */
  lemma SuccessRecordsOneRow(t: Tables, sub: Submission, msgs: Messages, req: Request)
    requires Authenticated(t, sub, msgs, req).result.success
    ensures var o := Authenticated(t, sub, msgs, req);
            var e := EntryFor(sub, Success, req);
            o.tables.logs == t.logs + [LogRow(t.nextLogId, e, req.now)] &&
            o.tables.codes == Seeded(t, req.now).codes &&
            IsUsed(o.tables.logs, sub.authCode) &&
            o.result == AuthResult(true, msgs.success, Redeemed)
  {
    var seeded := Seeded(t, req.now);
    var e := EntryFor(sub, Success, req);
    LoggedRecords(seeded, e, Redeemed, msgs, req.now);
    assert LogRow(t.nextLogId, e, req.now) in t.logs + [LogRow(t.nextLogId, e, req.now)];
  }

  /** Failed guesses never count towards the hourly limit, since they are not logged. */
  lemma FailuresDoNotExhaustRateLimit(t: Tables, sub: Submission, msgs: Messages, req: Request,
                                      settings: RateSettings, identifier: string, oneHourAgo: int)
    requires !Authenticated(t, sub, msgs, req).result.success
    ensures var o := Authenticated(t, sub, msgs, req);
            WithinRateLimit(settings, o.tables.logs, identifier, oneHourAgo) == WithinRateLimit(settings, t.logs, identifier, oneHourAgo)
  {
    FailureWritesNothing(t, sub, msgs, req);
  }

  /** At most once: after a success for an unpadded code, the next
      submission of the same code is refused as already used. */
  lemma AtMostOnce(t: Tables, sub: Submission, msgs: Messages, req: Request,
                   again: Submission, msgs2: Messages, req2: Request)
    requires Unpadded(sub.authCode) && again.authCode == sub.authCode
    requires Authenticated(t, sub, msgs, req).result.success
    ensures var t2 := Authenticated(t, sub, msgs, req).tables;
            Authenticated(t2, again, msgs2, req2) == Outcome(t2, AuthResult(false, msgs2.error, AlreadyUsed))
  {
    var seeded := Seeded(t, req.now);
    var t2 := Authenticated(t, sub, msgs, req).tables;
    SucceedsIff(t, sub, msgs, req);
    SuccessRecordsOneRow(t, sub, msgs, req);
    TrimUnpadded(sub.authCode);
    var c :| c in seeded.codes && Lower(c.value) == Lower(Key(sub));
    assert |t2.codes| > 0 && Seeded(t2, req2.now) == t2;
    AuthenticatedBranches(t2, again, msgs2, req2);
  }

  /** The engine only adds: every code row and every log row stays, so a
      code that is used stays used. */
  lemma AuthenticatedKeepsRows(t: Tables, sub: Submission, msgs: Messages, req: Request, v: string)
    ensures var o := Authenticated(t, sub, msgs, req);
            t.codes <= o.tables.codes && t.logs <= o.tables.logs
    ensures IsUsed(t.logs, v) ==> IsUsed(Authenticated(t, sub, msgs, req).tables.logs, v)
  {
    var o := Authenticated(t, sub, msgs, req);
    assert t.codes <= Seeded(t, req.now).codes;
    if o.result.success {
      SuccessRecordsOneRow(t, sub, msgs, req);
    } else {
      FailureWritesNothing(t, sub, msgs, req);
    }
    if IsUsed(t.logs, v) {
      var r :| r in t.logs && IsSuccessFor(r, v);
      var i :| 0 <= i < |t.logs| && t.logs[i] == r;
      assert o.tables.logs[i] == r;
    }
  }

  /** One submission handled by the engine. */
  datatype Call = Call(sub: Submission, msgs: Messages, req: Request)

  /** The tables after the engine has handled `calls`, one after another. */
  function AfterCalls(t: Tables, calls: seq<Call>): Tables
    decreases |calls|
  {
    if calls == [] then t
    else AfterCalls(Authenticated(t, calls[0].sub, calls[0].msgs, calls[0].req).tables, calls[1..])
  }

  /** Whatever is submitted, no code row and no success row is ever lost. */
  lemma {:induction false} AfterCallsKeepsRows(t: Tables, calls: seq<Call>, v: string)
    ensures t.codes <= AfterCalls(t, calls).codes
    ensures IsUsed(t.logs, v) ==> IsUsed(AfterCalls(t, calls).logs, v)
    decreases |calls|
  {
    if calls != [] {
      var t1 := Authenticated(t, calls[0].sub, calls[0].msgs, calls[0].req).tables;
      AuthenticatedKeepsRows(t, calls[0].sub, calls[0].msgs, calls[0].req, v);
      AfterCallsKeepsRows(t1, calls[1..], v);
    }
  }

  /** At most once over any run: after a success for an unpadded code, and
      whatever the engine handles in between, the same code is refused as
      already used, by the corrected engine and by the code as written. */
  lemma NeverRedeemedAgain(t: Tables, sub: Submission, msgs: Messages, req: Request,
                           between: seq<Call>, again: Submission, msgs2: Messages, req2: Request)
    requires Unpadded(sub.authCode) && again.authCode == sub.authCode
    requires Authenticated(t, sub, msgs, req).result.success
    ensures var t2 := AfterCalls(Authenticated(t, sub, msgs, req).tables, between);
            Authenticated(t2, again, msgs2, req2) == Outcome(t2, AuthResult(false, msgs2.error, AlreadyUsed))
    ensures var t2 := AfterCalls(Authenticated(t, sub, msgs, req).tables, between);
            AuthenticatedAsWritten(t2, again, msgs2, req2) == Outcome(t2, AuthResult(false, msgs2.error, AlreadyUsed))
  {
    var seeded := Seeded(t, req.now);
    var t1 := Authenticated(t, sub, msgs, req).tables;
    var t2 := AfterCalls(t1, between);
    SucceedsIff(t, sub, msgs, req);
    SuccessRecordsOneRow(t, sub, msgs, req);
    TrimUnpadded(sub.authCode);
    AfterCallsKeepsRows(t1, between, Key(sub));
    var c :| c in seeded.codes && Lower(c.value) == Lower(Key(sub));
    var i :| 0 <= i < |t1.codes| && t1.codes[i] == c;
    assert t2.codes[i] == c;
    RefusedOnceUsed(t2, again, msgs2, req2);
  }

  /** A stored code that already has a success row under the submitted key
      is refused as already used, and nothing is written. */
  lemma RefusedOnceUsed(t: Tables, sub: Submission, msgs: Messages, req: Request)
    requires !PhpEmpty(sub.authCode) && Known(t.codes, Key(sub)) && IsUsed(t.logs, Key(sub))
    ensures Authenticated(t, sub, msgs, req) == Outcome(t, AuthResult(false, msgs.error, AlreadyUsed))
    ensures AuthenticatedAsWritten(t, sub, msgs, req) == Outcome(t, AuthResult(false, msgs.error, AlreadyUsed))
  {
    assert |t.codes| > 0 && Seeded(t, req.now) == t;
    AuthenticatedBranches(t, sub, msgs, req);
    AsWrittenVersusCorrected(t, sub, msgs, req);
  }

  /** No unpadded code string has two success rows. */
  ghost predicate OncePerCode(logs: seq<LogRow>) {
    forall v :: Unpadded(v) ==> SuccessCount(logs, v) <= 1
  }

  lemma SuccessCountSnoc(logs: seq<LogRow>, r: LogRow, v: string)
    ensures SuccessCount(logs + [r], v) == SuccessCount(logs, v) + if IsSuccessFor(r, v) then 1 else 0
  {
    assert (logs + [r])[..|logs|] == logs;
  }

  /** Every call keeps `OncePerCode`, whatever is submitted. */
  lemma AuthenticatedKeepsOncePerCode(t: Tables, sub: Submission, msgs: Messages, req: Request)
    requires OncePerCode(t.logs)
    ensures OncePerCode(Authenticated(t, sub, msgs, req).tables.logs)
  {
    var o := Authenticated(t, sub, msgs, req);
    if o.result.success {
      var e := EntryFor(sub, Success, req);
      var r := LogRow(t.nextLogId, e, req.now);
      SuccessRecordsOneRow(t, sub, msgs, req);
      SucceedsIff(t, sub, msgs, req);
      SuccessCountPositive(t.logs, Key(sub));
      forall v | Unpadded(v) ensures SuccessCount(o.tables.logs, v) <= 1 {
        SuccessCountSnoc(t.logs, r, v);
        if IsSuccessFor(r, v) {
          TrimUnpadded(v);
          SuccessCountPositive(t.logs, v);
        }
      }
    } else {
      FailureWritesNothing(t, sub, msgs, req);
    }
  }

  /** A known, unused code on a non-empty table is redeemed, whatever the
      table holds besides. */
  lemma RedeemsFresh(t: Tables, sub: Submission, msgs: Messages, req: Request)
    requires !PhpEmpty(sub.authCode) && |t.codes| > 0 && Known(t.codes, Key(sub)) && !IsUsed(t.logs, Key(sub))
    requires EntryFits(EntryFor(sub, Success, req))
    ensures var o := Authenticated(t, sub, msgs, req);
            o.result.success &&
            o.tables == t.(logs := t.logs + [LogRow(t.nextLogId, EntryFor(sub, Success, req), req.now)], nextLogId := t.nextLogId + 1)
  {
    AuthenticatedBranches(t, sub, msgs, req);
  }

  /** A table holding one code and no log row. */
  function OneCode(value: string): Tables {
    Tables([CodeRow(1, value, 0)], [], 2, 1)
  }

  /** A request with no server variables and no public address. */
  function Bare(now: int): Request {
    Request(map[], (ip: string) => false, now)
  }

  lemma BareClientIp(now: int)
    ensures ClientIp(Bare(now).server, Bare(now).isPublicIp) == "0.0.0.0"
  {
    var server: map<string, string> := map[];
    assert IpKeys[1..][1..][1..] == [];
    assert Candidates(server, IpKeys) == [];
  }

  /** A submission whose trimmed key differs from what it stores as its
      code is redeemed twice in a row, since its own success row does not
      count for the key. */
  lemma PaddedRedeemsTwice(t: Tables, sub: Submission, msgs: Messages, req1: Request, req2: Request)
    requires Key(sub) != sub.authCode && !PhpEmpty(sub.authCode)
    requires |t.codes| > 0 && Known(t.codes, Key(sub)) && !IsUsed(t.logs, Key(sub))
    requires EntryFits(EntryFor(sub, Success, req1)) && EntryFits(EntryFor(sub, Success, req2))
    ensures var o1 := Authenticated(t, sub, msgs, req1);
            var o2 := Authenticated(o1.tables, sub, msgs, req2);
            o1.result.success && o2.result.success &&
            SuccessCount(o2.tables.logs, sub.authCode) == SuccessCount(t.logs, sub.authCode) + 2
  {
    RedeemsFresh(t, sub, msgs, req1);
    var r1 := LogRow(t.nextLogId, EntryFor(sub, Success, req1), req1.now);
    var t1 := t.(logs := t.logs + [r1], nextLogId := t.nextLogId + 1);
    SuccessCountPositive(t.logs, Key(sub));
    SuccessCountSnoc(t.logs, r1, Key(sub));
    SuccessCountPositive(t1.logs, Key(sub));
    RedeemsFresh(t1, sub, msgs, req2);
    var r2 := LogRow(t1.nextLogId, EntryFor(sub, Success, req2), req2.now);
    SuccessCountSnoc(t.logs, r1, sub.authCode);
    SuccessCountSnoc(t1.logs, r2, sub.authCode);
  }

  /** The used check is keyed on the trimmed code but the row stores it as
      posted: " X" is redeemed twice, since its success row does not count
      for "X". Sanitising trims, so a posted form never reaches this. */
  lemma PaddedCodeRedeemedTwice(msgs: Messages)
    ensures var sub := Submission(" X", "", "", "", "");
            var o1 := Authenticated(OneCode("X"), sub, msgs, Bare(1));
            var o2 := Authenticated(o1.tables, sub, msgs, Bare(2));
            o1.result.success && o2.result.success && SuccessCount(o2.tables.logs, " X") == 2
  {
    PaddedSetup();
    PaddedRedeemsTwice(OneCode("X"), Submission(" X", "", "", "", ""), msgs, Bare(1), Bare(2));
  }

  lemma PaddedSetup()
    ensures var sub := Submission(" X", "", "", "", "");
            Key(sub) == "X" && Known(OneCode("X").codes, "X") &&
            EntryFits(EntryFor(sub, Success, Bare(1))) && EntryFits(EntryFor(sub, Success, Bare(2)))
  {
    assert TrimStart(" X") == "X";
    TrimUnpadded("X");
    assert OneCode("X").codes[0] in OneCode("X").codes;
    BareClientIp(1);
    BareClientIp(2);
  }

  /** Under exact `=`, a case variant of a stored code is found by the
      fallback but used under its own spelling: after "abc" redeems the stored
      "ABC", "ABC" itself is still unused and redeems again. */
  lemma CaseVariantRedeemsAgain(t: Tables, variant: Submission, stored: Submission, msgs: Messages, req1: Request, req2: Request)
    requires stored.authCode in Values(t.codes) && variant.authCode != stored.authCode
    requires Lower(variant.authCode) == Lower(stored.authCode)
    requires Unpadded(variant.authCode) && Unpadded(stored.authCode)
    requires !PhpEmpty(variant.authCode) && !PhpEmpty(stored.authCode)
    requires !IsUsed(t.logs, variant.authCode) && !IsUsed(t.logs, stored.authCode)
    requires EntryFits(EntryFor(variant, Success, req1)) && EntryFits(EntryFor(stored, Success, req2))
    ensures var o1 := Authenticated(t, variant, msgs, req1);
            var o2 := Authenticated(o1.tables, stored, msgs, req2);
            o1.result.success && !IsUsed(o1.tables.logs, stored.authCode) && o2.result.success
  {
    TrimUnpadded(variant.authCode);
    TrimUnpadded(stored.authCode);
    var c :| c in t.codes && c.value == stored.authCode;
    assert Lower(c.value) == Lower(Key(variant)) && Lower(c.value) == Lower(Key(stored));
    RedeemsFresh(t, variant, msgs, req1);
    var row := LogRow(t.nextLogId, EntryFor(variant, Success, req1), req1.now);
    var t1 := t.(logs := t.logs + [row], nextLogId := t.nextLogId + 1);
    SuccessCountPositive(t.logs, stored.authCode);
    SuccessCountSnoc(t.logs, row, stored.authCode);
    SuccessCountPositive(t1.logs, stored.authCode);
    assert c in t1.codes;
    RedeemsFresh(t1, stored, msgs, req2);
  }

  // ---------------------------------------------------------------------------
  // The ignored insert result
  // ---------------------------------------------------------------------------

  /** The code as written and the corrected engine leave the same tables;
      they differ only where the corrected one reports "not recorded", which
      the code as written reports as a redemption. */
  lemma AsWrittenVersusCorrected(t: Tables, sub: Submission, msgs: Messages, req: Request)
    ensures AuthenticatedAsWritten(t, sub, msgs, req).tables == Authenticated(t, sub, msgs, req).tables
    ensures var o := Authenticated(t, sub, msgs, req);
            AuthenticatedAsWritten(t, sub, msgs, req).result ==
              if o.result.logMessage == NotRecorded then AuthResult(true, msgs.success, Redeemed) else o.result
  {
    assert EmptyCode != NotRecorded && NotFound != NotRecorded && AlreadyUsed != NotRecorded && Redeemed != NotRecorded;
  }

  /** Whenever the success row fits the log table, the code as written is the
      corrected engine, so every property proved of `Authenticated` holds of it. */
  lemma AsWrittenAgreesWhenRecorded(t: Tables, sub: Submission, msgs: Messages, req: Request)
    requires EntryFits(EntryFor(sub, Success, req))
    ensures AuthenticatedAsWritten(t, sub, msgs, req) == Authenticated(t, sub, msgs, req)
  {
    AsWrittenVersusCorrected(t, sub, msgs, req);
    SucceedsIff(t, sub, msgs, req);
    AuthenticatedBranches(t, sub, msgs, req);
  }

  /** As written, a submission succeeds exactly when it is non-empty, matches
      a stored code up to case and has no success row under its trimmed form,
      whether or not its row can be written. */
  lemma AsWrittenSucceedsIff(t: Tables, sub: Submission, msgs: Messages, req: Request)
    ensures var seeded := Seeded(t, req.now);
            AuthenticatedAsWritten(t, sub, msgs, req).result.success <==>
              !PhpEmpty(sub.authCode) && Known(seeded.codes, Key(sub)) && !IsUsed(seeded.logs, Key(sub))
  {
    var seeded := Seeded(t, req.now);
    LookupFinds(seeded.codes, Key(sub));
    SuccessCountPositive(seeded.logs, Key(sub));
  }

  /** As written, a success whose row does not fit the log table leaves the
      log unchanged, so the code stays redeemable. */
  lemma AsWrittenSuccessMayBeUnrecorded(t: Tables, sub: Submission, msgs: Messages, req: Request)
    requires AuthenticatedAsWritten(t, sub, msgs, req).result.success
    requires !EntryFits(EntryFor(sub, Success, req))
    ensures AuthenticatedAsWritten(t, sub, msgs, req).tables.logs == t.logs
  {
    AsWrittenVersusCorrected(t, sub, msgs, req);
    var o := Authenticated(t, sub, msgs, req);
    if o.result.success {
      SucceedsIff(t, sub, msgs, req);
    }
    FailureWritesNothing(t, sub, msgs, req);
  }

  /** As written, a known, unused code whose success row does not fit the
      log table is reported redeemed and the tables stay as they were. */
  lemma UnrecordedAsWritten(t: Tables, sub: Submission, msgs: Messages, req: Request)
    requires !PhpEmpty(sub.authCode) && |t.codes| > 0 && Known(t.codes, Key(sub)) && !IsUsed(t.logs, Key(sub))
    requires !EntryFits(EntryFor(sub, Success, req))
    ensures var o := AuthenticatedAsWritten(t, sub, msgs, req);
            o.result.success && o.tables == t
  {
    assert Seeded(t, req.now) == t;
    AsWrittenVersusCorrected(t, sub, msgs, req);
    SuccessIsRecorded(t, sub, msgs, req);
  }

  /** A phone of 51 characters: both calls report success as written, and the
      log stays empty. */
  lemma LongPhoneRedeemedTwiceAsWritten(msgs: Messages)
    ensures var sub := Submission("X", "", "", seq(51, _ => '1'), "");
            var o1 := AuthenticatedAsWritten(OneCode("X"), sub, msgs, Bare(1));
            var o2 := AuthenticatedAsWritten(o1.tables, sub, msgs, Bare(2));
            o1.result.success && o2.result.success && o2.tables.logs == []
  {
    var sub := Submission("X", "", "", seq(51, _ => '1'), "");
    var t := OneCode("X");
    TrimUnpadded("X");
    assert Known(t.codes, "X") by {
      assert t.codes[0] in t.codes;
    }
    assert !EntryFits(EntryFor(sub, Success, Bare(1)));
    assert !EntryFits(EntryFor(sub, Success, Bare(2)));
    UnrecordedAsWritten(t, sub, msgs, Bare(1));
    UnrecordedAsWritten(t, sub, msgs, Bare(2));
  }

  /** Corrected: a reported success always leaves the code used, and the
      long-phone submission is refused as not recorded. */
  lemma SuccessIsRecorded(t: Tables, sub: Submission, msgs: Messages, req: Request)
    ensures var o := Authenticated(t, sub, msgs, req);
            o.result.success ==> IsUsed(o.tables.logs, sub.authCode)
    ensures var o := Authenticated(t, sub, msgs, req);
            var seeded := Seeded(t, req.now);
            !PhpEmpty(sub.authCode) && Known(seeded.codes, Key(sub)) && !IsUsed(seeded.logs, Key(sub)) &&
            !EntryFits(EntryFor(sub, Success, req)) ==>
              o == Outcome(seeded, AuthResult(false, msgs.error, NotRecorded))
  {
    var o := Authenticated(t, sub, msgs, req);
    var seeded := Seeded(t, req.now);
    if o.result.success {
      SuccessRecordsOneRow(t, sub, msgs, req);
    }
    LookupFinds(seeded.codes, Key(sub));
    SuccessCountPositive(seeded.logs, Key(sub));
  }

  // ---------------------------------------------------------------------------
  // Schema
  // ---------------------------------------------------------------------------

  lemma {:induction false} InsertEachWellFormed(t: Tables, codes: seq<string>, now: int)
    requires WellFormed(t)
    ensures WellFormed(InsertEach(t, codes, now))
    decreases |codes|
  {
    if codes != [] {
      var init := codes[..|codes| - 1];
      InsertEachWellFormed(t, init, now);
      InsertCodeWellFormed(InsertEach(t, init, now), codes[|codes| - 1], now);
    }
  }

  /** Every call keeps the schema's guarantees. */
  lemma AuthenticatedWellFormed(t: Tables, sub: Submission, msgs: Messages, req: Request)
    requires WellFormed(t)
    ensures WellFormed(Authenticated(t, sub, msgs, req).tables)
  {
    var seeded := Seeded(t, req.now);
    var e := EntryFor(sub, Success, req);
    assert WellFormed(seeded) by {
      if |t.codes| == 0 {
        InsertEachWellFormed(t, TestCodes, req.now);
      }
    }
    InsertLogWellFormed(seeded, e, req.now);
    var o := Authenticated(t, sub, msgs, req);
    assert o.tables == t || o.tables == seeded || o.tables == InsertLog(seeded, e, req.now).tables;
  }
}
