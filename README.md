# VerifyPlus: one-time code redemption

VerifyPlus is a WordPress plugin. It lets a visitor redeem a product
authentication code once. The codes live in the `auth_codes` table. Every
redemption writes a row to the `auth_logs` table. A code's "used" status is
never stored on the code row: it is derived from the log, as "a success row
with this code exists".

This project models that core:

- the redemption engine, `VerifyPlus_Handler::authenticate_code`, with its
  helpers:
  - `handle_failed_attempt`, `log_attempt` and `create_test_codes`;
  - `get_client_ip`, `validate_phone` and `check_rate_limit`;
- the three provisioning loops: the CSV upload and the manual upload of the
  upload page, and the AJAX CSV import;
- the admin handlers that change or derive state:
  - adding and deleting purchase locations;
  - the popup auto-close setting;
  - deleting one code, one log row, all codes or all logs;
  - the used/unused column of the export;
- the reports: the "Manage Codes" and "Authentication Logs" pages, with
  their filters, pagination, statistics and bulk deletes, and the dashboard
  counters.

Both tables are values of `Schema.Tables`. Each table is a sequence of rows in
primary-key order, with its auto-increment counter. The schema's guarantees
are `Schema.WellFormed`:

- unique ids;
- the UNIQUE KEY on `auth_code`;
- column widths: code 255, phone 50, IP 45, status 20, the other text
  columns 255, and 65,535 for the `text` column `user_agent`.

An insert whose value is too long for its column is refused. WordPress's
`$wpdb` checks each value against its column's length before it writes
(`process_fields` and `strip_invalid_text`), and `insert` then returns false
without writing the row. `$wpdb` is the class `Database.Db`. Its insert and
delete methods change the tables in place and keep `WellFormed`.

Where the source changes the tables step by step, the handler is a
module-level method that takes the `Db` object and changes it in place. Each
such method is proved equal to a function on `Tables`:

- `Auth.AuthenticateCode` is proved equal to `Auth.AuthenticatedAsWritten`,
  the engine as the code stands;
- the import loops are proved equal to `Provision.ImportAll`;
- the scan of `get_client_ip` is proved equal to `AuthChecks.ClientIp`.

The properties are lemmas about those functions. The engine's properties are
stated about `Auth.Authenticated`, the corrected engine of the first finding
below. `AuthLaws.AsWrittenAgreesWhenRecorded` proves that the two engines are
equal whenever the success row fits its columns. The properties are:

- at most one redemption per code;
- failures write nothing;
- provisioning is idempotent;
- paging shows every row once;
- the statistics add up.

PHP is modelled as follows:

- `empty()` on a string holds for "" and "0" (`Text.PhpEmpty`).
- `trim` strips " \t\n\r\0\x0B" (`Text.Trim`).
- `explode` is `Text.Split`.
- `LIKE '%x%'` is `Text.Contains`.
- `LOWER` is ASCII lower-casing (`Text.Lower`).
- SQL `=` is exact string equality.
- Timestamps are integers.

## Model

| member | source | states |
|---|---|---|
| Text.Trim | includes/class-auth.php:138 | the result is never longer than the input and has no leading or trailing character from PHP's trim set |
| Text.TrimIdempotent | includes/class-auth.php:138 | trimming twice is trimming once |
| Text.Split | admin/views/upload.php:143 | explode yields at least one part and no part contains the separator |
| Text.JoinSplit | admin/views/upload.php:143 | joining the parts of explode with the separator gives the input back |
| Text.PhpEmpty | includes/class-auth.php:104-105 | definition: PHP `empty()` on a string holds for "" and "0" only |
| Text.Lower | includes/class-auth.php:148-150 | MySQL `LOWER()` keeps the length and lower-cases each ASCII capital, leaving every other character as it is |
| Text.Contains | admin/views/codes.php:50-53 | definition: `LIKE '%x%'` with `x` escaped holds when `x` occurs in the column; `Text.ContainsAt` proves that any occurrence makes it hold |
| Schema.FirstCode | includes/class-auth.php:141-152 | a row is returned only if it is in the table and matches; none is returned only if no row matches |
| Schema.CountWithValue | admin/views/upload.php:86-94 | the count is positive exactly when the value is present in `auth_codes` |
| Schema.SuccessCount | includes/class-auth.php:168-171 | the engine's `COUNT(*)` of success rows for the code never exceeds the number of log rows; `Schema.SuccessCountPositive` ties it to `IsUsed` |
| Schema.IsUsed | includes/class-auth.php:168-171 | definition: a code value is used when some log row has status 'success' and exactly that `auth_code` |
| Schema.SuccessCountPositive | includes/class-auth.php:168-178 | the engine's `COUNT(*) > 0` over success rows and the reports' `LEFT JOIN ... IS NOT NULL` derive the same used status |
| Schema.InsertCode | includes/class-activator.php:49-75 | the insert succeeds exactly when the value is new (UNIQUE KEY) and fits its column; the set of stored values grows by exactly that value; the log is untouched |
| Schema.InsertLog | includes/class-auth.php:245 | the insert succeeds exactly when every field fits its column, the `text` column `user_agent` included; it then appends one row with the next id, and otherwise changes nothing |
| Schema.DeleteCodes | admin/views/codes.php:24-28 | exactly the code rows whose id is listed are removed; the log is untouched |
| Schema.DeleteLogs | admin/views/logs.php:24-28 | exactly the log rows whose id is listed are removed; the codes are untouched |
| Schema.DeleteCodesAffects | includes/class-admin.php:844-846 | a delete affects rows exactly when some code row has one of the ids |
| Schema.DeleteLogsAffects | includes/class-admin.php:633-635 | a delete affects rows exactly when some log row has one of the ids |
| Schema.InsertCodeWellFormed | includes/class-activator.php:49-75 | a code insert keeps unique ids, unique values and column widths |
| Schema.InsertLogWellFormed | includes/class-activator.php:49-75 | a log insert keeps unique ids and column widths |
| Schema.DeleteCodesWellFormed | includes/class-activator.php:49-75 | deleting codes keeps the schema's guarantees |
| Schema.DeleteLogsWellFormed | includes/class-activator.php:49-75 | deleting log rows keeps the schema's guarantees |
| Database.Db.constructor | includes/class-activator.php:49-75 | freshly created tables are empty and well formed |
| Database.Db.InsertCode | admin/views/upload.php:97-104 | `$wpdb->insert` into `auth_codes` changes the object exactly as `Schema.InsertCode` and returns whether it succeeded |
| Database.Db.InsertLog | includes/class-auth.php:245 | `$wpdb->insert` into `auth_logs` changes the object exactly as `Schema.InsertLog` and returns whether it succeeded |
| Database.Db.DeleteCodes | includes/class-admin.php:844 | `$wpdb->delete` on codes removes the listed ids and reports how many rows went |
| Database.Db.DeleteLogs | includes/class-admin.php:633 | `$wpdb->delete` on logs removes the listed ids and reports how many rows went |
| Database.Db.DeleteAllCodes | includes/class-admin.php:690 | `DELETE FROM auth_codes` empties the code table and leaves the log |
| Database.Db.DeleteAllLogs | includes/class-admin.php:664 | `DELETE FROM auth_logs` empties the log and leaves the codes |
| Provision.CsvCodes | admin/views/upload.php:65-78 | every CSV line but the header gives one candidate: its first cell trimmed and sanitised, or "" for a line without cells |
| Provision.ImportOne | admin/views/upload.php:80-111 | one loop pass counts the candidate once, as imported or skipped; it adds the code exactly when it is non-empty and fits (an existing code adds nothing new); it reports an error exactly for a new, non-empty, over-long code |
| Provision.ImportAll | admin/views/upload.php:65-112 | after the loop, imported plus skipped is the number of candidates; imported is the number of new rows; the stored values are the old ones plus every non-empty candidate that fits; the log is untouched |
| Provision.Accepted | admin/views/upload.php:86-104 | definition, independent of the loop: the non-empty candidates that fit the code column, which `Provision.ImportAll` proves are exactly what the loop adds |
| Provision.ImportAllErrorsSound | admin/views/upload.php:106-110 | every reported failure is a non-empty, over-long candidate of the input, and was counted as skipped |
| Provision.ImportAllErrors | admin/views/upload.php:97-110 | on a well-formed table, every non-empty, over-long candidate is reported as failed |
| Provision.ImportAllWellFormed | admin/views/upload.php:65-112 | an import keeps the schema's guarantees |
| Provision.ImportAllNothingNew | admin/views/upload.php:86-94 | candidates that are all present, empty or over-long change nothing and import nothing |
| Provision.ImportTwice | admin/views/upload.php:86-94 | importing the same codes a second time adds no row and imports nothing |
| Upload.UploadNotices | admin/views/upload.php:117-132 | the page shows one summary notice, which is the success notice exactly when a code was imported, then one error notice per failed code, in order |
| Upload.ImportCandidate | admin/views/upload.php:80-111 | the shared loop body changes the tables and counters exactly as `Provision.ImportOne` |
| Upload.HandleCsvUpload | admin/views/upload.php:30-133 | the CSV loop leaves the tables and counters that `Provision.ImportAll` gives for the file's candidates, and queues `UploadNotices` of them |
| Upload.TrimmedLines | admin/views/upload.php:143 | every line of the text box, after trim, is unpadded and holds no newline |
| Upload.ManualCodes | admin/views/upload.php:143 | `array_filter` keeps only non-empty trimmed lines |
| Upload.HandleManualUpload | admin/views/upload.php:135-206 | a text with no usable line changes nothing and gives only the "no codes" notice; otherwise the tables and counters are those of `Provision.ImportAll` over the lines, with the notices of `UploadNotices` |
| Upload.SuccessNoticeIffRowsAdded | admin/views/upload.php:117-124 | the success notice appears exactly when the upload added a row |
| Upload.CsvCounts | admin/views/upload.php:65-112 | every line after the header is counted once, as imported or as skipped |
| Admin.ImportCodes | includes/class-admin.php:521-567 | the AJAX import loop leaves the tables and the imported and skipped counts that `Provision.ImportAll` gives for the file's candidates |
| Admin.IndexOf | includes/class-admin.php:412 | `array_search` gives the first position holding the location, or reports that none does |
| Admin.RemoveFirst | includes/class-admin.php:412-415 | removing an existing location drops exactly one copy of it; removing a missing one changes nothing |
| Admin.Options.AddPurchaseLocation | includes/class-admin.php:377-392 | an empty location and a duplicate are refused with their messages and leave the list; any other location is appended |
| Admin.Options.DeletePurchaseLocation | includes/class-admin.php:409-419 | a listed location loses its first occurrence, with the others in order; an unlisted one gives "Location not found" and leaves the list |
| Admin.RemoveAdded | includes/class-admin.php:377-419 | deleting a location just added gives the previous list back |
| Admin.AppendNoDuplicates | includes/class-admin.php:385-390 | adding through the handler never creates a duplicate |
| Admin.RemoveFirstNoDuplicates | includes/class-admin.php:409-415 | in a list without duplicates, a delete removes the location altogether and keeps the list free of duplicates |
| Admin.AutoClose | includes/class-admin.php:306 | auto-close is on exactly for a positive number of seconds, which becomes the delay; otherwise the delay is 5; the delay is always positive |
| Admin.DisplayedAutoCloseAsWritten | admin/views/settings.php:465 | as written, the form always pre-fills 0 or 1 |
| Admin.ResaveAsWrittenShortensDelay | admin/views/settings.php:465 | as written, re-saving a 10-second setting unchanged stores a 1-second delay |
| Admin.DisplayedAutoClose | includes/class-admin.php:331-332 | the corrected form pre-fills a positive number exactly when auto-close is on |
| Admin.ResaveKeepsSetting | includes/class-admin.php:306-332 | with the corrected form, saving what it shows keeps the stored setting |
| Admin.DeleteCode | includes/class-admin.php:839-854 | only the code row with that id is removed; the reply is success exactly when such a row existed |
| Admin.DeleteLog | includes/class-admin.php:631-644 | only the log row with that id is removed; the reply is success exactly when such a row existed |
| Admin.DeleteAllLogs | includes/class-admin.php:664-670 | the log is emptied, the codes and both auto-increment counters stay, and the reply is success |
| Admin.DeleteAllCodes | includes/class-admin.php:690-696 | the code table is emptied, the log and both auto-increment counters stay, and the reply is success |
| Admin.StatusOf | includes/class-admin.php:441-453 | the export's status is "used" exactly when a success row carries the code, and "unused" otherwise |
| Admin.ExportCodes | includes/class-admin.php:441-457 | an empty code table is an error; otherwise every code appears once, newest first, with its creation time and its derived status |
| AuthChecks.Entries | includes/class-auth.php:270-272 | a set server variable gives, for each comma-separated part in order, that part trimmed; an unset one gives none |
| AuthChecks.FirstIndex | includes/class-auth.php:271-275 | the first position whose entry passes the test, with no earlier one passing |
| AuthChecks.ClientIpChoice | includes/class-auth.php:266-281 | the address returned is the earliest public candidate in variable order; the fallback is used only when no candidate is public |
| AuthChecks.ClientIpAmong | includes/class-auth.php:266-281 | definition, branch for branch: the first public candidate of the scanned variables, otherwise `REMOTE_ADDR` or "0.0.0.0"; its contract is `AuthChecks.ClientIpChoice` |
| AuthChecks.ClientIp | includes/class-auth.php:266-281 | definition: the scan over `HTTP_CLIENT_IP`, `HTTP_X_FORWARDED_FOR` and `REMOTE_ADDR`, in that order; `AuthChecks.GetClientIp` is proved equal to it |
| AuthChecks.ScanEntries | includes/class-auth.php:271-276 | the inner loop returns the first part that is public once trimmed, and every part before it is not public |
| AuthChecks.ScanIpKeys | includes/class-auth.php:268-280 | the nested loops return the address `ClientIpAmong` specifies |
| AuthChecks.GetClientIp | includes/class-auth.php:266-281 | `get_client_ip` returns `ClientIp` |
| AuthChecks.ValidatePhone | includes/class-auth.php:336-339 | an accepted phone has 1 to 18 characters, all digits, '+' or a final newline; without that newline it matches the pattern in full |
| AuthChecks.ValidPhoneFits | includes/class-auth.php:336-339 | a phone the validator accepts always fits the 50-character phone column |
| AuthChecks.WithinRateLimit | includes/class-auth.php:347-367 | definition, branch for branch: true when rate limiting is off; otherwise true while fewer than the stored maximum (10 by default) rows of the address fall after the window start; its properties are `DefaultLimitIsTen`, `RateLimitMonotone` and `OtherRowsDoNotCount` |
| AuthChecks.DefaultLimitIsTen | includes/class-auth.php:357 | with no maximum stored, nine attempts in the window are allowed and ten are not |
| AuthChecks.RateLimitMonotone | includes/class-auth.php:347-367 | more logged attempts can only exhaust the limit, never restore it |
| AuthChecks.OtherRowsDoNotCount | includes/class-auth.php:360-364 | rows of other addresses and rows before the window do not change the verdict |
| Auth.InsertEach | includes/class-auth.php:299-307 | inserting codes one by one adds exactly the codes that fit, and never touches the log |
| Auth.InsertCodes | includes/class-auth.php:299-307 | the insert loop changes the tables exactly as `InsertEach` |
| Auth.CreateTestCodes | includes/class-auth.php:286-308 | `create_test_codes` inserts the five fixed test codes |
| Auth.SeedOnlyWhenEmpty | includes/class-auth.php:113-134 | an empty code table gets exactly TEST001, DEMO123, SAMPLE456, AUTH789 and CODE999; a non-empty one is left alone; the log is untouched either way |
| Auth.Seeded | includes/class-auth.php:113-134 | definition, branch for branch: the five test codes are inserted only when the code table is empty; its contract is `Auth.SeedOnlyWhenEmpty` |
| Auth.LookupFinds | includes/class-auth.php:140-152 | a row is found exactly when a stored value equals the key up to case; an exact match wins over a case variant |
| Auth.Lookup | includes/class-auth.php:140-152 | definition, branch for branch: the exact `=` query, and the `LOWER` query only when that finds nothing; its contract is `Auth.LookupFinds` |
| Auth.EntryFor | includes/class-auth.php:230-243 | definition: the row `log_attempt` builds, with the code as posted, the client address and the user agent ("" when unset) |
| Auth.FailedAttempt | includes/class-auth.php:197-209 | a failure reports no success, the configured error message and the internal reason |
| Auth.Logged | includes/class-auth.php:223-258 | corrected definition, branch for branch: the insert, then a success only when the status is 'success' and the row was written; its contract is `Auth.LoggedRecords` |
| Auth.LoggedAsWritten | includes/class-auth.php:223-258 | as-written definition, branch for branch: the insert with its result ignored, then a success exactly for status 'success'; `Auth.LogAttempt` is proved equal to it |
| Auth.LoggedRecords | includes/class-auth.php:223-258 | the corrected `log_attempt` reports success exactly for a success row that was written; a refused row changes nothing |
| Auth.LogAttempt | includes/class-auth.php:223-258 | as written: the row is inserted if it fits, and the result is a success exactly for status 'success', whether or not the row was written |
| Auth.AuthenticateCode | includes/class-auth.php:88-189 | as written: the method changes the tables and returns the result as `AuthenticatedAsWritten` specifies |
| Auth.AuthenticatedAsWritten | includes/class-auth.php:88-189 | as-written definition, branch for branch: empty code, seeding, lookup, used check, then `LoggedAsWritten`; `Auth.AuthenticateCode` is proved equal to it and `AuthLaws.AsWrittenSucceedsIff` states when it succeeds |
| Auth.Authenticated | includes/class-auth.php:88-189 | corrected definition, branch for branch: the same checks, then `Logged`; its contract is `AuthLaws.AuthenticatedBranches` and `AuthLaws.SucceedsIff` |
| AuthLaws.AsWrittenVersusCorrected | includes/class-auth.php:245-258 | the code as written and the corrected engine leave the same tables; they differ only where the corrected engine says "not recorded" and the code as written reports a redemption |
| AuthLaws.AsWrittenAgreesWhenRecorded | includes/class-auth.php:88-258 | whenever the success row fits its columns, the code as written equals the corrected engine, so the corrected engine's properties hold for it |
| AuthLaws.AsWrittenSucceedsIff | includes/class-auth.php:104-189 | as written: a call succeeds exactly when the code is non-empty, known up to case and unused under its trimmed form |
| AuthLaws.AuthenticatedBranches | includes/class-auth.php:104-189 | corrected: an empty code, an unknown code and a used code each fail with their reason, and only seeding can change the tables; a known, unused code whose row fits succeeds and appends exactly one success row |
| AuthLaws.SucceedsIff | includes/class-auth.php:104-189 | corrected: a call succeeds exactly when the code is non-empty, known up to case, unused under its trimmed form, and its row fits |
| AuthLaws.FailureWritesNothing | includes/class-auth.php:197-209 | corrected: a failed attempt writes no log row and shows the error message; at most it seeds an empty code table |
| AuthLaws.SuccessRecordsOneRow | includes/class-auth.php:184-189 | corrected: a success appends exactly one success row for the submitted code and leaves the codes as seeding left them |
| AuthLaws.FailuresDoNotExhaustRateLimit | includes/class-auth.php:347-367 | corrected: since failures are not logged, they never change the rate-limit verdict for any address |
| AuthLaws.AtMostOnce | includes/class-auth.php:166-178 | corrected: after a success, the next submission of the same unpadded code fails as already used and writes nothing |
| AuthLaws.AuthenticatedKeepsRows | includes/class-auth.php:104-258 | corrected: a call only adds, so the old code rows and log rows are a prefix of the new ones, and a used code stays used |
| AuthLaws.AfterCallsKeepsRows | includes/class-auth.php:104-258 | over any sequence of calls, no code row and no success row is lost |
| AuthLaws.RefusedOnceUsed | includes/class-auth.php:166-178 | a known code with a success row under the submitted key is refused as already used, with the tables unchanged, by both engines |
| AuthLaws.NeverRedeemedAgain | includes/class-auth.php:166-178 | after a success for an unpadded code, and any sequence of calls in between, the same code is refused as already used, by the corrected engine and by the code as written |
| AuthLaws.AuthenticatedKeepsOncePerCode | includes/class-auth.php:166-189 | corrected: every call keeps "no unpadded code has two success rows" |
| AuthLaws.RedeemsFresh | includes/class-auth.php:138-189 | corrected: a known, unused code on a non-empty table is redeemed and appends exactly its row |
| AuthLaws.PaddedRedeemsTwice | includes/class-auth.php:138-184 | corrected: a submission whose trimmed key differs from the stored code string is redeemed twice in a row |
| AuthLaws.PaddedCodeRedeemedTwice | includes/class-auth.php:138-184 | corrected: in the concrete case, " X" against the stored "X" succeeds twice |
| AuthLaws.CaseVariantRedeemsAgain | includes/class-auth.php:148-171 | corrected: after a case variant redeems a stored code, the stored spelling is still unused and redeems again |
| AuthLaws.AsWrittenSuccessMayBeUnrecorded | includes/class-auth.php:245-258 | as written, a reported success whose row does not fit leaves the log unchanged |
| AuthLaws.UnrecordedAsWritten | includes/class-auth.php:245-258 | as written, a known, unused code whose row does not fit is reported redeemed with the tables unchanged |
| AuthLaws.LongPhoneRedeemedTwiceAsWritten | includes/class-auth.php:245-258 | as written, a 51-character phone lets the same code be reported redeemed twice while the log stays empty |
| AuthLaws.SuccessIsRecorded | includes/class-auth.php:245-258 | corrected: a reported success always leaves the code used, and an unrecordable redemption is refused as not recorded |
| AuthLaws.InsertEachWellFormed | includes/class-auth.php:299-307 | seeding keeps the schema's guarantees |
| AuthLaws.AuthenticatedWellFormed | includes/class-auth.php:88-189 | corrected: every call keeps the schema's guarantees |
| Paging.CurrentPage | admin/views/codes.php:38 | the page is the requested one when it is at least 1, and 1 otherwise |
| Paging.Offset | admin/views/codes.php:40 | the offset is a multiple of 50 whose quotient is the page minus one |
| Paging.TotalPages | admin/views/codes.php:113 | `ceil(total / 50)` pages hold every row, and none of them is wholly past the end |
| Paging.Page | admin/views/codes.php:81-91 | a page holds the rows starting at the offset, in order: 50 of them, or all the rest when fewer remain |
| Paging.NewestFirst | admin/views/codes.php:87 | `ORDER BY created_at DESC` lists the rows in reverse insertion order |
| Paging.FirstPagesPrefix | admin/views/codes.php:81-91 | the first k pages together are exactly the first 50k rows |
| Paging.PagesShowEveryRow | admin/views/codes.php:81-113 | paging through all `total_pages` pages shows every selected row once, in order |
| Paging.PageOfRow | admin/views/codes.php:81-113 | row i is row i mod 50 of page i div 50 + 1, and that page exists |
| Paging.PastLastPage | admin/views/codes.php:81-113 | a page past the last one is empty |
| CodesView.SelectedCodes | admin/views/codes.php:50-71 | a code is selected exactly when it matches the search and the used/unused filter |
| CodesView.Listed | admin/views/codes.php:84-85 | `actual_status` is "used" exactly when a success row carries the code, and "unused" otherwise |
| CodesView.CodesPage | admin/views/codes.php:81-91 | the page holds at most 50 listings, each a selected code with its derived status; listing i is the selected code at position offset + i counted from the newest; a page before the last one is full |
| CodesView.ListAll | admin/views/codes.php:84-91 | listing i is row i of the page with its status, so the order of the page is kept |
| CodesView.UsedUnusedPartition | admin/views/codes.php:62-78 | for any search, the used and unused counts add up to the unfiltered count |
| CodesView.EmptySearchKeepsAll | admin/views/codes.php:50-53 | an empty or "0" search restricts nothing |
| CodesView.ListedOnce | admin/views/codes.php:55-60 | the grouped join lists each code once, even with several success rows |
| CodesView.StatsAddUp | admin/views/codes.php:96-111 | used plus unused is the total, and each agrees with the listing's filter on an empty search |
| CodesView.Stats | admin/views/codes.php:96-111 | definition: the total, unused and used counts of the statistics query; `CodesView.StatsAddUp` proves they add up |
| CodesView.BulkDelete | admin/views/codes.php:16-33 | 'delete' with ids removes those codes and reports the number of ids; anything else changes nothing; the log is untouched |
| CodesView.ReportCountsIds | admin/views/codes.php:26-27 | ids with no row delete nothing, although they are still counted in the notice |
| LogsView.SelectedLogs | admin/views/logs.php:49-66 | a log row is selected exactly when the search matches one of its four columns and the status filter matches |
| LogsView.LogsPage | admin/views/logs.php:76-78 | the page holds at most 50 selected rows; row i is the selected row at position offset + i counted from the newest; a page before the last one is full |
| LogsView.StatusNarrows | admin/views/logs.php:58-61 | a status filter never shows more rows than no filter |
| LogsView.FindsOwnCode | admin/views/logs.php:49-56 | a row appears in a search for its own code |
| LogsView.StatsBounded | admin/views/logs.php:83-94 | successful plus failed is at most the total, and each equals the listing's count for that status |
| LogsView.Stats | admin/views/logs.php:83-94 | definition: the total, successful and failed counts; `LogsView.StatsBounded` relates them |
| LogsView.BulkDelete | admin/views/logs.php:16-33 | 'delete' with ids removes those log rows and reports the number of ids; anything else changes nothing; the codes are untouched |
| Dashboard.Stats | admin/views/dashboard.php:23-41 | definition: the dashboard's counts, with used as total minus unused; `Dashboard.UsedIsCodesWithSuccess` proves used is the number of codes with a success row |
| Dashboard.UsedIsCodesWithSuccess | admin/views/dashboard.php:36-41 | `total - unused` is the number of codes with a success row, between 0 and the total |
| Dashboard.IsUsedSnoc | admin/views/dashboard.php:29-31 | a new row makes a code used exactly when it is a success row for it, or the code was used already |
| Dashboard.UnusedAfterSuccess | admin/views/dashboard.php:29-31 | a success row takes its code out of the unused count if it was there, and changes nothing else |
| Dashboard.SuccessRowsSnoc | admin/views/dashboard.php:27 | every success row adds one to `successful_auths` |
| Lifecycle.ExportAgreesWithEngine | includes/class-admin.php:441-453 | corrected: the export says "used" exactly when the engine refuses the code as already used |
| Lifecycle.RedeemMovesOneCode | admin/views/dashboard.php:23-41 | corrected: a redemption of a stored code moves one code from unused to used and adds one success; a case variant adds the success only |
| Lifecycle.LogDeleteRestoresCode | includes/class-admin.php:631-670 | corrected: deleting every success row of a code makes it redeemable again |
| Lifecycle.ReimportedCodeStaysUsed | includes/class-admin.php:839-854 | corrected: deleting a used code and importing it again brings it back as used, and the engine refuses it |

## Left out

- Concurrency: two simultaneous submissions of the same code can both pass the
  used check before either row is written. The model runs calls one after the
  other, so `AuthLaws.AtMostOnce` and `AuthLaws.NeverRedeemedAgain` hold only
  for sequential calls.
- Collation: MySQL's default collation compares case- and accent-insensitively.
  The model takes SQL `=` and `LIKE` as exact; `LOWER` is ASCII only.
- Sanitisation: `sanitize_text_field`, `sanitize_email` and
  `sanitize_textarea_field` are not modelled. The engine and the manual
  upload take already-sanitised strings; the CSV loops take the sanitiser as
  a parameter.
- `filter_var` with the public-range flags is the `isPublicIp` parameter.
  `validate_email` is `filter_var` alone and is not modelled.
- The clock is a parameter: `current_time('mysql')` is an integer `now`, and
  `check_rate_limit`'s window start is the `oneHourAgo` parameter. The source
  computes that start with `date()` in UTC and compares it with rows written
  in local time; the model does not capture that offset.
- `check_rate_limit` is not called by the engine. It is modelled on its own as
  `WithinRateLimit`, and `AuthLaws.FailuresDoNotExhaustRateLimit` relates the
  two.
- The `SHOW TABLES` probe of `authenticate_code` is taken to find the table.
- `wp_cache_get` / `wp_cache_set` are left out: every statistic is computed
  fresh, so up to five minutes of cached staleness is not modelled.
- Ordering: `ORDER BY created_at DESC` is modelled as reverse insertion order.
  Rows with equal timestamps may come back in another order in MySQL.
- The `used_at` column of the listings and the export is not modelled. It is
  an arbitrary row of the `GROUP BY`.
- The CSV text of the export is not modelled: its header, quoting and
  download headers are output only.
- Messages: `sprintf` formatting and translation are not modelled. Notices
  carry their counts or codes instead of text, and `ajax_import_codes` returns
  its counts instead of its JSON message.
- Nonce, capability and uploaded-file checks are left out, as are the JSON
  transport of the AJAX handlers and `fgetcsv` parsing. Lines arrive as
  sequences of fields.
- `in_array` and `array_search` are loose comparisons in PHP. The model
  compares exactly; the two differ only for numeric strings such as "1e1" and
  "10".
- A failed `DELETE FROM` in `ajax_delete_all_logs` or `ajax_delete_all_codes`
  (a database error) is not modelled. The model's delete always succeeds.
- The debug handler `ajax_add_test_log` and the rest of the settings pages are
  not part of this model.
- Schema.InsertCode and Schema.InsertLog do not model the id ceiling, and
  neither do `Database.Db.InsertCode` and `Database.Db.InsertLog`. Both `id`
  columns are `mediumint(9)` (includes/class-activator.php:51-61). Once a
  table's counter passes 8,388,607, MySQL refuses every insert into it, and a
  DELETE does not reset the counter. The model's counters are unbounded, so it
  never refuses an insert for that reason. Under the code as written, an
  exhausted log counter would let every stored code be redeemed without limit,
  because `log_attempt` ignores the refused insert.
- Schema.InsertLog bounds the `text` column `user_agent` by 65,535 characters.
  MySQL counts bytes, so a user agent with multi-byte characters can be
  refused while shorter than the model's bound.
- Auth.LogAttempt and Auth.AuthenticateCode follow the code as written, so
  they promise no more than it does: a success whose row was refused is
  still reported. The at-most-once and recording properties are proved of the
  corrected engine `Auth.Authenticated`. They carry over to the code as written
  only when the success row fits its columns
  (`AuthLaws.AsWrittenAgreesWhenRecorded`).
- Only the trimmed, exactly-matching submission is protected.
  `AuthLaws.AtMostOnce` requires an unpadded code, because the used check is
  keyed on the trimmed code while the row stores the code as posted.
  `AuthLaws.PaddedCodeRedeemedTwice` shows the gap; sanitising trims, so a
  posted form does not reach it. `AuthLaws.CaseVariantRedeemsAgain` shows the
  same gap for a case variant under exact `=`.
- Purging the log: deleting the success rows of a code makes it redeemable
  again, because "used" lives only in the log
  (`Lifecycle.LogDeleteRestoresCode`).
- The manual upload's `if (empty($code)) continue;` cannot be taken, because
  `array_filter` already removed such lines. The shared loop body
  `Upload.ImportCandidate` counts an empty candidate as skipped, and that
  branch is never reached from `Upload.HandleManualUpload`.

## Findings

| source | as written | input that shows it | evidently intended | confidence | as-written member | corrected member |
|---|---|---|---|---|---|---|
| includes/class-auth.php:245-258 | `log_attempt` ignores the result of `$wpdb->insert` and reports success for status 'success' | a stored, unused code submitted with a 51-character phone (wider than the `varchar(50)` column): the row is refused, success is reported, and the same code is accepted again on every later submission | a success is reported only when its log row was written, so the code becomes used | not executed | AuthLaws.LongPhoneRedeemedTwiceAsWritten | AuthLaws.SuccessIsRecorded |
| admin/views/settings.php:465 | the auto-close field is pre-filled with `intval` of the stored flag `popup_auto_close`, a boolean, so it shows 1 or 0 | auto-close saved as 10 seconds; reopening the settings and saving unchanged stores a 1-second delay | the field shows the stored delay `popup_auto_close_delay` while auto-close is on | not executed | Admin.ResaveAsWrittenShortensDelay | Admin.ResaveKeepsSetting |
