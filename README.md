# secret_codes, modelled in Dafny

The Odoo addon `secret_codes` manages anti-counterfeit codes. Each record pairs a
twelve-digit secret code (printed under a scratch panel) with an eight-digit public
code and a batch code. The addon does six things:

- **Generation.** It generates codes in batches, inline or through a time-boxed
  background job.
- **Validation API.** An HTTP endpoint validates a secret code. It counts failed and
  successful searches, refuses a code after three successful searches, and logs every
  search.
- **Lead intake.** A second endpoint registers product-offer leads. Leads that share
  an email or a mobile number form a subscription group, which carries a count, a
  rating capped at five and a string of stars.
- **Remote sync.** It mirrors codes, search logs and leads from a remote Frappe
  instance. This runs page by page, skipping rows it already has. The code sync is a
  cron job with a persisted page cursor.
- **Export wizard.** It selects codes by "next N after the last printed" or by a range
  of public codes, marks them printed and lists them.
- **Bulk wizard.** It activates or deactivates the next N inactive codes, or the
  inactive codes of a range.

The model represents:

- **Tables** as sequences of records: the codes table, the lead table, the log table
  and the job table. A record's id is its index.
- **Randomness** (`secrets.randbelow`) as a supplied stream of draws below 10^12.
- **The clock** as a `now` parameter, and the 50-second and 900-second caps as stop
  flags or a page deadline.
- **The remote side** as a list of rows cut into pages, plus a per-page count of
  failed fetches.

Every operation is a function or a method over these values. Methods with loops are
proved against the function that specifies them.

Modules, one file each:

- **Foundations**
  - `Wrappers`: `Option` and `Result`.
  - `Text`: Python's `str(n)`, `zfill`, `int()`, `strip`, `lower`, slicing, and byte-wise string order.
  - `Remote`: the scalar values a remote row carries, `int(v or 0)`, `_to_bool`, the selection normalisers, paging, the rows a page collects, and the bounded fetch retry.
- **Codes and generation**
  - `Codes`: the code record, the unique constraints, the mask, the next batch code and the public-code seed.
  - `Generation`: the chunk generator and the bulk insert.
  - `Jobs`: the background job runner and its cron transaction.
  - `GenerateWizard`: `action_generate`.
- **Remote sync**
  - `CodesSync`: the code sync cron, its page apply and its cursor.
  - `Logs`: the search-log table and `sync_frappe_logs`.
  - `Leads`: the lead table, the group metrics, the `create`/`write` hooks and the SQL recompute.
  - `LeadsSync`: `sync_frappe_product_offer_leads`.
- **Endpoints**
  - `Api`: the API-key gate, the validation endpoint and the lead intake endpoint.
- **Wizards**
  - `Selection`: what the two wizards share. This covers code normalisation, range checks, filtered and ordered record queries, and writes to a list of records.
  - `ExportWizard` and `BulkWizard`: the two wizards.

## Model

| member | source | states |
|---|---|---|
| Codes.Masked | models/models.py:85-92 | empty in, empty out; same length; the last four characters kept (all of a code of at most four); every earlier character is `*` |
| Codes.MaxBatchNumber | models/models.py:209-220 | the largest numeric suffix among `B<digits>` batch codes, reached by one of them, or 0 |
| Codes.NextBatchCode | models/models.py:209-222 | a `B<digits>` code of at least seven characters whose number is the largest batch number plus one |
| Codes.NextBatchCodeFresh | models/models.py:209-222 | the next batch code is different from every stored batch code |
| Codes.FirstBatchCode | models/models.py:219-222 | with no `B<digits>` batch code stored, the next one is `B000001` |
| Codes.MaxPublicValue | models/models.py:225-235 | absent exactly when no public code is all digits; otherwise the largest value among them, reached by one |
| Codes.PublicSeed | models/models.py:225-238 | at least every numeric public code's value and equal to one of them, or `PUBLIC_CODE_START - 1` = 10099999 when none exists |
| Codes.PublicCodeOfShape | models/models.py:272-273 | `str(n).zfill(8)` is all digits with value n, and exactly eight long below 10^8 |
| Text.NatToDigits | models/models.py:222 | `str(n)` is all digits, with a leading zero only for 0 |
| Text.ZFill | models/models.py:222 | `zfill` gives length max(len, width), ends with the input, and is zeros before it |
| Text.DigitsRoundTrip | models/secret_code_job.py:64-66 | `int(str(n)) == n` for non-negative n |
| Text.ParseIntRoundTrip | models/secret_code_job.py:64-66 | `int(str(n)) == n` for every integer, so the job's `last_public_code` reads back as the number stored |
| Text.ParseIntStrips | models/secret_code_job.py:64 | `int(s)` reads the numeral left after stripping whitespace, and fails otherwise |
| Text.PadNatValue | wizard/export_codes_wizard.py:42 | zero padding keeps the value: `int(str(n).zfill(w)) == n` |
| Text.PadNatInjective | models/models.py:273 | padded numerals are equal exactly when their values are, so consecutive public codes are distinct |
| Text.PadNatLength | models/models.py:273 | a number below 10^w padded to w characters is exactly w digits long |
| Text.DigitsValueBound | wizard/bulk_actions_wizard.py:125-130 | a numeral of n digits is below 10^n |
| Text.LexLeDigits | wizard/bulk_actions_wizard.py:125-130 | for digit strings of equal length, string order and numeric order agree, in both directions |
| Text.StripIdempotent | wizard/export_codes_wizard.py:40 | stripping twice is stripping once |
| Text.StripShape | wizard/export_codes_wizard.py:40 | a stripped string neither starts nor ends with whitespace |
| Text.CleanedIdempotent | wizard/export_codes_wizard.py:40 | `(v or '').strip()` applied to its own result changes nothing |
| Text.Lower | models/models.py:342 | `lower()` keeps the length and lower-cases each letter in place |
| Text.Prefix | models/secret_code_log.py:111 | `s[:n] if len(s) > n else s` is the first min(len, n) characters |
| Text.LexLeTotal | wizard/export_codes_wizard.py:189-193 | string order is total |
| Text.LexLeAntisymmetric | wizard/export_codes_wizard.py:189-193 | string order is antisymmetric |
| Text.LexLeTransitive | wizard/export_codes_wizard.py:189-193 | string order is transitive |
| Generation.Keep | models/models.py:256 | the set comprehension keeps exactly the codes outside the collision set, stays distinct and shrinks |
| Generation.SecretCodeOfShape | models/models.py:244 | a draw below 10^12 formatted with `:012d` is a twelve-digit code |
| Generation.GenerateChunk | models/models.py:241-264 | (corrected) `size` distinct twelve-digit codes, none already generated and none stored; `generated` grows by exactly those codes; an exhausted stream gives an empty chunk |
| Generation.ChunkAsWrittenCanReturnStoredCode | models/models.py:249-261 | as written, with stored codes 000000000000 and 000000000001 and draws 0, 1, the chunk is the stored 000000000001 |
| Generation.DrawUntil | models/models.py:243-247 | the draw loop never uses more draws than the stream holds |
| Generation.InsertCodes | models/models.py:267-302 | returns seed + k; the table gains exactly the new rows, or the insert fails as a whole on a unique violation |
| Generation.NewRowsShape | models/models.py:271-290 | row i carries secret code i, the batch, public code seed+i+1 (eight digits below 10^8), inactive, pending, both flags false and both counters 0 |
| Generation.NewRowsFit | models/models.py:55-58 | rows for distinct unstored secret codes numbered above every numeric public code never break a unique constraint |
| Generation.FitsKeepsUnique | models/models.py:55-58 | rows that fit keep both codes unique |
| Generation.NewRowsAppend | models/models.py:271-273 | inserting a+b from seed n is inserting a from n, then b from n+len(a) |
| Generation.SecretsOfNewRows | models/models.py:271-277 | the inserted rows carry the given secret codes, in order |
| Generation.RunGrows | wizard/generate_wizard.py:47-57 | a chunk inserted where a run of chunks stopped extends that run: consecutive numbering from the first seed, and distinct codes |
| Generation.SeedBoundGrows | wizard/generate_wizard.py:54-56 | after inserting k rows from seed n, n+k bounds every numeric public code |
| Jobs.FirstOpen | models/secret_code_job.py:34-40 | the lowest index whose job is pending or running, or none when no job is open |
| Jobs.InsertChunk | models/secret_code_job.py:53-67 | a chunk of 1..min(5000, remaining) fresh distinct codes inserted after the seed; no chunk leaves the table unchanged; an unreadable `last_public_code` or a unique violation raises with its message |
| Jobs.ChunkLoop | models/secret_code_job.py:47-75 | the loop advances the job as the chunks inserted say; it stops complete, with no codes (stream exhausted), on an error with its message, or out of time with progress made and codes still to go; the table stays unique |
| Jobs.ProgressKeepsNumbering | models/secret_code_job.py:63-67 | `int(last_public_code) - count_generated` is the same before and after a run |
| Jobs.NumberedParses | models/secret_code_job.py:66-67 | after chunks totalling k codes, `last_public_code` reads back as the seed plus k |
| Jobs.AdvanceJob | models/secret_code_job.py:42-79 | what the runner writes before it returns or re-raises: the job is done, failed with "Failed to generate unique secret codes." (returned), failed with the exception's message (re-raised, and then rolled back by `CronRun`), or left running when time is up |
| Jobs.RunPendingJobs | models/secret_code_job.py:33-79 | with no open job nothing changes; otherwise only the lowest open job and the code table change, as `AdvanceJob` says |
| Jobs.CronRun | models/secret_code_job.py:33-79 | a re-raised error rolls the run back (jobs and code table as before); otherwise as `RunPendingJobs`; a job newly stored as failed always carries "Failed to generate unique secret codes." |
| GenerateWizard.DefaultBatchCode | wizard/generate_wizard.py:13-18 | the wizard's default batch code is a `B<digits>` code numbered one above the table's largest batch number, and no stored record carries it |
| GenerateWizard.QueuedJob | wizard/generate_wizard.py:25-31 | the queued job: pending, nothing generated, count_total = count, and `last_public_code` reads back as the seed |
| GenerateWizard.ActionGenerate | wizard/generate_wizard.py:20-60 | background (flag set or count > 5000): one job appended, table untouched; inline: one consecutive run of distinct fresh codes from the seed, at most count, exactly count unless the stream ran dry |
| GenerateWizard.GenerateAndInsert | wizard/generate_wizard.py:47-57 | one inline pass extends the run by a chunk of at most `remaining` codes, empty only when the stream ran dry |
| Remote.IntOrZero | models/models.py:468-469 | `int(v or 0)`: a falsy value gives 0, an integer itself, and an error exactly for a truthy non-numeral string |
| Remote.ToBoolOfText | models/models.py:448-457 | a value and its text convert to the same flag |
| Remote.NoneToBool | models/models.py:450-451 | `None` is false |
| Remote.TrueToBool | models/models.py:452-457 | `True` is true |
| Remote.FalseToBool | models/models.py:452-457 | `False` is false |
| Remote.IntToBoolOfText | models/models.py:454-455 | an integer-parseable value is true exactly when nonzero |
| Remote.WordToBool | models/models.py:456-457 | any other word is true exactly when its lower-case form is in {true, yes, y, 1} |
| Remote.Choice | models/models.py:339-349 | a falsy value is absent; otherwise the stripped, lower-cased text is kept only when allowed |
| Remote.NormalizeDatetime | models/secret_code_log.py:107-111 | falsy gives absent; otherwise the stripped text, cut to its first 19 characters when longer |
| Remote.Page | models/models.py:375-379 | the rows at offset (page-1)*size, at most size of them, empty exactly past the end, full when enough rows remain |
| Remote.PageOfIndex | models/models.py:378 | every row lies on the page its index belongs to |
| Remote.FetchPage | models/secret_code_log.py:126-147 | the retry loop fails for good exactly when three attempts fail, and otherwise returns the page |
| Remote.CollectError | models/models.py:435-471 | a page of the codes or the log sync raises exactly when a row it does not skip cannot be converted |
| Remote.CollectRows | models/models.py:435-471 | a page that does not raise takes the conversion of every row it does not skip, and nothing else |
| Remote.CollectAllSkipped | models/secret_code_log.py:163-170 | a page whose rows are all skipped collects nothing |
| CodesSync.NormalizeStatus | models/models.py:339-343 | active exactly when the stripped, lower-cased value is "active"; otherwise inactive |
| CodesSync.NormalizeValidateStatus | models/models.py:345-349 | validated exactly when the stripped, lower-cased value is "validated"; otherwise pending |
| CodesSync.NormalizeStatusOfName | models/models.py:339-343 | a status sent under its own name is kept |
| CodesSync.NormalizeValidateStatusOfName | models/models.py:345-349 | a validation status sent under its own name is kept |
| CodesSync.RemoteRow | models/models.py:459-470 | the row keeps the remote secret and batch codes and `str(public_code)`; it raises exactly when one of the counters cannot be read by `int()` |
| CodesSync.CodesPage | models/models.py:423-484 | one page as the loop does it equals the page-apply specification |
| CodesSync.InsertIgnoringKeeps | models/models.py:473-484 | `ON CONFLICT DO NOTHING` only appends rows of the page, never changes a stored row, and keeps both codes unique |
| CodesSync.InsertIgnoringBlocks | models/models.py:473-484 | after the insert every row of the page conflicts: it was inserted or a stored code refused it |
| CodesSync.InsertAllBlocked | models/models.py:473-484 | rows that all conflict insert nothing |
| CodesSync.PageCovers | models/models.py:423-484 | after a page every eligible row is accounted for: stored, or refused by a stored code |
| CodesSync.PageIdle | models/models.py:423-484 | a page whose eligible rows are all accounted for changes nothing |
| CodesSync.ApplyPageIdempotent | models/models.py:423-484 | applying a page twice gives the table of applying it once |
| CodesSync.ApplyPageKeeps | models/models.py:473-484 | a page never changes a stored row and keeps the codes unique |
| CodesSync.ShortPageIsTail | models/models.py:504-505 | a page shorter than 1000 rows is the rest of the list |
| CodesSync.RunGrows | models/models.py:364-515 | the loop never changes a stored row and keeps the codes unique; a raise falls back to the last commit |
| CodesSync.RunCursor | models/models.py:366-515 | the cursor the loop leaves: reset to 1 at the end of the list, moved on by the page cap when stopped by it, and moved on by whole batches of pages on a raise |
| CodesSync.RunCovers | models/models.py:364-515 | a loop that reaches the end of the list accounts for every eligible row from its first page on |
| CodesSync.RunIdle | models/models.py:364-515 | a loop over rows that are all accounted for leaves the table as it is and does not raise |
| CodesSync.ApplyCursorPage | models/models.py:375-484 | one fetched page at the cursor, applied, equals the specification of that page |
| CodesSync.RunPages | models/models.py:355-515 | the loop with its own variables for the cursor, the counters and the last commit equals the loop specification |
| CodesSync.LastCodeExistsCheck | models/models.py:163-203 | the freshness check equals its specification: the newest remote code is stored, and false after three failed fetches |
| CodesSync.SyncCodesCron | models/models.py:308-522 | the cron run equals its specification over the cursor, the cron flags and the table |
| CodesSync.CronKeeps | models/models.py:351-520 | skipped exactly when the newest remote code is stored, and then nothing changes; the table only grows (a raise falls back to a commit) and stays unique; a sweep resets the cursor to 1 and switches the cron off; the page cap moves the cursor on by the cap and re-arms the cron |
| CodesSync.SecondCronAddsNothing | models/models.py:423-484 | after a sweep from page 1 every eligible remote row is accounted for, and the next run adds nothing and does not raise |
| Logs.NormalizeLogStatus | models/secret_code_log.py:101-105 | validated exactly when the stripped, lower-cased value is "validated"; everything else is stored as rejected |
| Logs.NormalizeLogStatusOfName | models/secret_code_log.py:101-105 | a status sent under its own name is kept |
| Logs.NewLogRow | models/secret_code_log.py:173-188 | the log keeps the remote name and searched code; it raises exactly when `int(is_matched or 0)` does |
| Logs.PageRowsNames | models/secret_code_log.py:155-188 | a page's logs carry fresh names and non-empty searched codes, and every row not skipped has its name among them |
| Logs.ApplyLogPage | models/secret_code_log.py:155-191 | one page appends its logs, or raises and appends nothing |
| Logs.SyncLogsFrom | models/secret_code_log.py:113-193 | the page loop from a given page: it pauses past the deadline, raises after three failed fetches, finishes at the first empty page, raises on a bad row, and otherwise appends the page; whatever ends it, the logs stored before the run are kept in place as a prefix |
| Logs.SyncLogsAppends | models/secret_code_log.py:113-193 | a run only appends logs with fresh names and searched codes |
| Logs.SyncLogs | models/secret_code_log.py:80-193 | the page loop with its retry loop equals the loop specification from page 1 |
| Logs.SyncStoresEveryName | models/secret_code_log.py:155-193 | a run that reaches the empty page has stored the name of every eligible remote row |
| Logs.SyncIdle | models/secret_code_log.py:163-166 | with every eligible name stored, a run creates nothing |
| Logs.SecondSyncAddsNothing | models/secret_code_log.py:155-170 | a second run over unchanged remote data, after one that finished, adds nothing |
| Logs.SyncLogsFinishes | models/secret_code_log.py:113-153 | with no failed fetch, time for every page and readable rows, the run reaches the empty page |
| Leads.SourceOf | models/product_offer_lead.py:252 | a known source is kept; any other falls back to PRODUCT_VERIFICATION |
| Leads.Clamped | models/product_offer_lead.py:86-87 | the rating clamped to 0..5, unchanged inside that range |
| Leads.Stars | models/product_offer_lead.py:83-90 | five characters: the clamped rating in filled stars, then empty stars |
| Leads.StarsRoundTrip | models/product_offer_lead.py:83-90 | the star string reads back as the clamped rating |
| Leads.SqlStarsAgree | models/product_offer_lead.py:150-157 | the SQL star string for a count is the star string of min(5, count) |
| Leads.CountAppend | models/product_offer_lead.py:111-112 | appending leads adds their count |
| Leads.CountNothing | models/product_offer_lead.py:101-109 | no lead matches two null keys |
| Leads.UpdateMetricsFor | models/product_offer_lead.py:100-119 | the search, count and write equal the group update specification |
| Leads.UpdatedGroup | models/product_offer_lead.py:100-119 | every member of the group carries the group's size, a rating of min(5, size) and the stars of that rating; every other lead is unchanged |
| Leads.UpdatedKeepsLeads | models/product_offer_lead.py:114-119 | the update changes metrics only |
| Leads.UpdatedIdempotent | models/product_offer_lead.py:100-119 | refreshing a group twice is refreshing it once |
| Leads.UpdatePairs | models/product_offer_lead.py:66-68 | the loop over a set of pairs is the updates in the order it took, which covers the set |
| Leads.UpdateAllUntouched | models/product_offer_lead.py:66-68 | a lead that no pair's search finds keeps its metrics |
| Leads.UpdateAllLastWins | models/product_offer_lead.py:66-68 | whatever the order, a lead ends with the group size of the last pair that found it |
| Leads.CreateLeads | models/product_offer_lead.py:61-69 | the new leads are appended; unless skipped, the pairs of the new leads are refreshed |
| Leads.WriteLeads | models/product_offer_lead.py:71-81 | fields are written; unless skipped, a write naming email or mobile refreshes the old and new pairs, and any other write refreshes nothing |
| Leads.WriteWithoutKeys | models/product_offer_lead.py:75-77 | a write naming neither key keeps metrics and keys, and changes only the chosen leads |
| Leads.CreateOneLead | models/product_offer_lead.py:61-69 | a lead created alone joins its group, and it and every member carry the group's size counting the new lead |
| Leads.RecomputeShape | models/product_offer_lead.py:137-157 | each count is the number of leads sharing a non-null email or mobile (0 with both null, at least 1 otherwise); rating min(5, count); stars from the rating; nothing else changes |
| Leads.RecomputeIdempotent | models/product_offer_lead.py:137-157 | running the recompute twice is running it once |
| Leads.UpdateAgreesWithRecompute | models/product_offer_lead.py:100-157 | for a lead with given keys, refreshing its own pair gives it what the full recompute gives it |
| LeadsSync.NewLeadValsShape | models/product_offer_lead.py:243-253 | a lead takes the row's name and secret code; an empty email or mobile becomes null; an unknown source falls back; `creation` is cut to 19 characters |
| LeadsSync.PageValsAllSkipped | models/product_offer_lead.py:234-241 | a page whose rows are all skipped creates nothing |
| LeadsSync.PageValsNames | models/product_offer_lead.py:226-254 | a page's leads carry fresh names and secret codes, and every row not skipped has its name among them |
| LeadsSync.LeadPageVals | models/product_offer_lead.py:226-254 | one page's collection of values equals its specification |
| LeadsSync.SyncLeadsFrom | models/product_offer_lead.py:184-259 | the page loop from a given page: it pauses past the deadline, raises after three failed fetches, finishes at the first empty page (not at a short one), and otherwise creates the page's leads; whatever ends it, the leads stored before the run are kept in place as a prefix |
| LeadsSync.SyncLeadsAppends | models/product_offer_lead.py:184-259 | a run only appends leads with fresh names and secret codes |
| LeadsSync.CreatePageLeads | models/product_offer_lead.py:256-257 | a page created through the create hook appends the page's leads, with only metrics differing |
| LeadsSync.SyncLeads | models/product_offer_lead.py:161-261 | the loop from page 1 is followed by the full recompute unless a fetch failed for good |
| LeadsSync.SyncStoresEveryName | models/product_offer_lead.py:226-259 | a run that reaches the empty page has stored the name of every eligible remote row |
| LeadsSync.SecondSyncChangesNothing | models/product_offer_lead.py:233-261 | a second run over unchanged remote data, after one that finished, changes nothing |
| LeadsSync.SyncLeadsFinishes | models/product_offer_lead.py:184-224 | with no failed fetch and time for every page, the run reaches the empty page |
| Api.RequireApiKey | controllers/controllers.py:11-26 | passes exactly when a key is configured and the presented key equals it; 500 `api_key_not_configured` exactly when none is configured; otherwise 401 `invalid_api_key` |
| Api.HeaderDecides | controllers/controllers.py:20-25 | a non-empty header decides alone; the payload's key is ignored |
| Api.PayloadKeyDecides | controllers/controllers.py:20-25 | without a header (or with an empty one) the payload's key decides |
| Api.Find | controllers/controllers.py:171-172 | `search(..., limit=1)` is the first record holding the code, or none exactly when no record holds it |
| Api.FindStored | controllers/controllers.py:171-172 | the lookup finds a record exactly when the code is stored in that column |
| Api.UniqueFind | models/models.py:55-58 | under the unique constraint a stored secret code finds its own record |
| Api.Lookup | controllers/controllers.py:171-172 | the scan equals the lookup specification |
| Api.Classify | controllers/controllers.py:113-114 | the missing-code verdict comes exactly from an empty code, and every verdict names a record of the table |
| Api.ClassifyFormat | controllers/controllers.py:119-146 | refused for format exactly when the code is present and malformed; the public-code match is the lookup of the code as sent |
| Api.ClassifyFound | controllers/controllers.py:171-283 | not found exactly when well-formed and no secret code matches; otherwise the found record decides: inactive exactly when its status is inactive, validated exactly when active with success+1 <= 3 and no limit flag |
| Api.Decide | controllers/controllers.py:119-172 | the decision made with the two scans equals the classification |
| Api.LogsFor | controllers/controllers.py:113-281 | no log without a code and exactly one otherwise, for the code as sent, marked validated exactly on success |
| Api.ResponseFor | controllers/controllers.py:113-283 | status 200 and the record's data exactly on success |
| Api.GetSecretCodeBySecretCode | controllers/controllers.py:102-283 | the gate's error changes nothing; otherwise the response, the table and the log table after the request are those of the verdict |
| Api.WriteVerdict | controllers/controllers.py:211-265 | the write of the branch taken equals its specification |
| Api.WrittenKeepsCodes | controllers/controllers.py:126-283 | only the record found changes; a rejected request changes nothing; codes and uniqueness are kept |
| Api.BranchWrites | controllers/controllers.py:211-265 | inactive: fail+1 only; at the limit: fail+1 and the flag set; success: success+1 and validated; status and codes untouched |
| Api.SuccessAttemptLogged | controllers/controllers.py:260-283 | the validation log's `success_attempt` is the new success count, and the response is the record as written |
| Api.CountersBounded | controllers/controllers.py:211-265 | counters never decrease, a success count <= 3 stays <= 3, a set limit flag stays set, and the status never changes |
| Api.RejectedLookupsChangeNothing | controllers/controllers.py:126-209 | a malformed or unknown code changes no record; its log is matched exactly when it is a public code; 404 exactly when well-formed and not a public code |
| Api.InactiveBeforeLimit | controllers/controllers.py:211-235 | an inactive code is refused as inactive before the limit check, and its limit flag is kept |
| Api.ThreeSuccesses | controllers/controllers.py:235-265 | an active code validates exactly while it has fewer than three successes and no flag; from three on it is refused and flagged |
| Api.PaddedCodeNotFound | controllers/controllers.py:119-172 | a well-formed code sent with surrounding whitespace passes the format check but finds no twelve-digit record, and changes nothing |
| Api.Key | controllers/controllers.py:85-86 | `value or False` is null exactly for the empty string |
| Api.MaxCount | controllers/controllers.py:69 | the largest count among the leads found, reached by one of them, or absent exactly when none is found |
| Api.FindMaxCount | controllers/controllers.py:66-69 | the scan equals the specification |
| Api.WriteRepeat | controllers/controllers.py:71-76 | the write of the repeat count equals its specification |
| Api.CreateFirst | controllers/controllers.py:92 | the creation through the `create` hook appends the lead and refreshes its pair |
| Api.CreateProductOfferLead | controllers/controllers.py:35-93 | the gate's error changes nothing; otherwise the response and the lead table are those of the intake |
| Api.RegisterLead | controllers/controllers.py:57-93 | the search, then the repeat write or the creation, equals the specification |
| Api.IntakeChecks | controllers/controllers.py:40-55 | neither email nor mobile gives 400 `email_or_mobile_required`; otherwise a missing code gives 400 `secret_code_required`; neither changes anything |
| Api.ResubscribedShape | controllers/controllers.py:71-76 | every lead found gets the count and a rating of min(5, count); every other lead is unchanged |
| Api.RepeatSubscription | controllers/controllers.py:58-80 | with a match, `already_registered`, nothing created, and every match gets the largest count plus one, which raises each count |
| Api.FirstSubscription | controllers/controllers.py:82-93 | without a match, `created` and exactly one new lead with the cleaned values, the source only when known, and a count of one |
| Selection.NormalizeCodeShape | wizard/export_codes_wizard.py:39-43 | digits stay digits with the same value and at least eight characters; anything else is the stripped input; empty exactly when the stripped input is |
| Selection.NormalizeCodePadded | wizard/bulk_actions_wizard.py:26-30 | a numeral below 10^8 normalises to exactly eight digits of the same value |
| Selection.NormalizeCodeIdempotent | wizard/export_codes_wizard.py:39-43 | normalising twice is normalising once |
| Selection.RangeError | wizard/export_codes_wizard.py:166-173 | no error exactly when both ends are given and, for two numerals, from <= to |
| Selection.Rows | wizard/bulk_actions_wizard.py:125-130 | `search(domain)` holds exactly the records that pass the filter, in ascending id |
| Selection.MaxKey | wizard/export_codes_wizard.py:45-57 | `ORDER BY key DESC LIMIT 1`: absent exactly when nothing passes; otherwise the largest key, reached |
| Selection.LimitedRowsFacts | wizard/bulk_actions_wizard.py:46 | `order='id asc', limit=n` gives the first min(n, count) passing records, and every one left out has a higher id |
| Selection.Sort | wizard/export_codes_wizard.py:182 | ordering is a permutation |
| Selection.SortSorted | wizard/export_codes_wizard.py:182 | the ordered ids are sorted by the order |
| Selection.BeforeTransitive | wizard/export_codes_wizard.py:182-193 | both orders are transitive (and strict and total by the lemmas beside it) |
| Selection.Take | wizard/export_codes_wizard.py:78 | `LIMIT n` is the first min(n, len) elements |
| Selection.QueryFacts | wizard/export_codes_wizard.py:176-193 | a query returns each passing record exactly once, sorted, as many as are counted |
| Selection.LimitedQueryFacts | wizard/export_codes_wizard.py:70-78 | a limited query returns passing records in order, min(limit, count) of them, and every one left out comes after every one returned |
| Selection.WriteAll | wizard/export_codes_wizard.py:200-201 | exactly the listed records are written and no other record changes |
| Selection.WriteRecords | wizard/bulk_actions_wizard.py:135-136 | the record-by-record write equals the specification |
| ExportWizard.TargetErrors | wizard/export_codes_wizard.py:147-173 | in order: both modes at once, a count below one, a count above the unprinted numeric codes, then the range checks; every other request gets its records |
| ExportWizard.NextRecordsFacts | wizard/export_codes_wizard.py:67-95 | unprinted numerals above the largest printed one, ascending in value, min(N, candidates) of them, none left out below one returned; never more candidates than unprinted numerals |
| ExportWizard.RangeTargets | wizard/export_codes_wizard.py:175-193 | a range of numerals selects every numeric code with a value in it, printed or not, ascending; any other range selects the codes between its ends in string order, ascending |
| ExportWizard.ActionExport | wizard/export_codes_wizard.py:195-215 | a validation error changes nothing; otherwise exactly the targets are marked printed and the export lists them in order |
| ExportWizard.ExportRows | wizard/export_codes_wizard.py:209-213 | one line per record, in order, with its batch, secret and public codes |
| ExportWizard.ExportListsCodes | wizard/export_codes_wizard.py:199-213 | marking records printed keeps their codes, so the listing shows them as they were |
| ExportWizard.ExportAdvancesLastPrinted | wizard/export_codes_wizard.py:195-201 | after a "next N" export the largest printed numeral is the last one exported |
| ExportWizard.PreviewMatchesExport | wizard/export_codes_wizard.py:115-135 | the preview names the first and last code exported, shows the export's error for too large a count, and names a valid range's ends |
| BulkWizard.LastPrinted | wizard/bulk_actions_wizard.py:92-96 | absent exactly when nothing is printed; otherwise the printed record with the latest write date, the highest id among equals |
| BulkWizard.TargetErrors | wizard/bulk_actions_wizard.py:83-123 | in order: both modes at once, a count below one, then the range checks; no check on how many inactive records exist |
| BulkWizard.NextRecordsFacts | wizard/bulk_actions_wizard.py:89-109 | inactive records with an id above the last printed one, ascending, min(N, candidates) of them, none left out below one returned |
| BulkWizard.RangeRecordsFacts | wizard/bulk_actions_wizard.py:125-130 | exactly the inactive records whose code lies between the ends in string order |
| BulkWizard.PaddedRangeIsNumeric | wizard/bulk_actions_wizard.py:125-130 | with eight-digit codes and eight-digit ends, the string range selects the same records as the value range would |
| BulkWizard.ApplyStatus | wizard/bulk_actions_wizard.py:132-137 | a validation error changes nothing; otherwise the targets get the status and the result is their number |
| BulkWizard.StatusWrites | wizard/bulk_actions_wizard.py:132-154 | targets were inactive and now have the status, every other record is unchanged, and deactivating changes no status |
| BulkWizard.ActivatedNotSelectedAgain | wizard/bulk_actions_wizard.py:98-109 | activated records are never picked by a following "next N" |
| BulkWizard.ChangeRange | wizard/bulk_actions_wizard.py:139-165 | the update and its message "Updated N code(s) to ACTIVE." / "INACTIVE." |
| BulkWizard.PreviewMatchesUpdate | wizard/bulk_actions_wizard.py:55-71 | the preview names the first and last record updated, "No inactive codes found." when there are none, and a valid range's ends |

Lookups in the validation endpoint use the code as sent, not the stripped code that
the format check reads. `Api.PaddedCodeNotFound` states the consequence: a
well-formed code sent with surrounding whitespace is always answered "not found".

## Left out

- Bus notifications (`_notify_live_refresh`) and the cron's log lines have no effect on the data, so they are not modelled.
- The network:
  - a fetch is a page of a supplied list;
  - the per-page count of failed attempts is an input;
  - timeouts and backoff sleeps are not modelled.
- The code sync's retry loop never gives up, so failures are invisible and its `response is None` branch is not modelled.
- Rollback of the manual syncs when they raise is the caller's business. The model records what the sync itself wrote up to the raise.
- The job runner's rollback is modelled by `Jobs.CronRun`. `Jobs.AdvanceJob` and `Jobs.RunPendingJobs` state what the runner writes before the raise: a 'failed' state with the exception's message, and the chunks inserted so far. None of that survives the transaction. Only a job failed for running out of codes stays stored as failed.
- The inline path of `action_generate` never raises in the model: its inserts cannot break a unique constraint (`Generation.NewRowsFit`). A rollback on that path is therefore not modelled.
- The cron's commits are modelled as the last committed table. A raise falls back to it: `Extends` in `CodesSync.CronKeeps`.
- The cron reads `now` once per run, where the source reads it once per page.
- The page cursor is assumed to be at least 1. The source would request a negative offset for a smaller stored value.
- Clocks: `time.monotonic` caps are stop flags (`timeUp`) or a page deadline, and every ORM write date is the `now` parameter.
- Randomness is a finite stream of draws. Where the source would loop forever on an exhausted stream, the model returns an empty chunk.
- Python set iteration order is not promised. The loops over pairs in `create` and `write` take an order given as a ghost result, and `Leads.UpdateAllLastWins` holds for every order.
- The validation endpoint reads only string JSON values for `secret_code`; other JSON types are not modelled.
- Payload decoding (`_get_payload`), `_json_response`, the `whatsapp` link, the ids in the lead responses and the `read()` projection of the response are out of scope. Responses are a status and a message, or the record.
- `_to_float`, latitude and longitude are floats and are left out. The log sync's latitude/longitude defaults are not stored.
- `subscription_rating` is the integer min(5, count), which is all the code ever writes. The `round()` of the star computation is the identity on integers.
- `\d` in the format regex matches Unicode digits. The model accepts ASCII digits only.
- Whitespace and case are ASCII only. `Text.Strip` removes only ASCII whitespace, where Python's `str.strip()` also removes Unicode whitespace such as U+00A0, U+2003 and U+3000. `Text.Lower` lower-cases only ASCII letters, where `str.lower()` also lower-cases other letters. So `" validated\u00a0"` or a non-ASCII status word is read otherwise than the source reads it. This affects `CodesSync.NormalizeStatus`, `CodesSync.NormalizeValidateStatus`, `Logs.NormalizeLogStatus`, `Remote.Choice`, `Remote.NormalizeDatetime`, `Remote.ToBool`, the cleaned intake values of the lead endpoint and `Selection.NormalizeCode`.
- Remote rows of the three syncs carry only null, booleans, integers and strings (`Remote.Value`). A JSON float, list or object in a remote field is not modelled. For example `int(1.5)` is 1 where `int(rec.get(...) or 0)` reads a counter or `is_matched`, and `_to_bool(0.5)` is false. A remote JSON number is always an integer here.
- `int()` of strings with underscores or non-ASCII digits is not modelled.
- The text of the error raised by `int()` is a fixed message with the input, not Python's exact repr.
- Record ties:
  - the export wizard breaks ties between equal values, and the string order breaks ties between equal codes, by id here, where the database leaves them unordered;
  - `search(limit=1)` on a duplicated code is modelled as the lowest id.
- String order is byte-wise (C collation), not the database's collation.
- The bulk wizard's range search returns its records in the default order of `secret_codes`, `write_date desc`. The model returns them by id, since only the set and its number are used.
- A NULL `is_printed` is read as false. This makes the export's count and selection agree, where the source's `is_printed = false` count would skip NULLs.
- Each wizard is modelled for one wizard record. `_compute_range_preview`'s loop over several wizards is not modelled.
- `_compute_last_exported_code` only shows a string and is not modelled.
- `_onchange_range_preview` only re-runs the preview and is not modelled.
- The workbook encoding, the download action and the missing-`xlsxwriter` error of `action_export` are out of scope. The export is the list of rows it writes.
- `_compute_is_last_updated` is a display flag and is not modelled.
- `action_view_secret_code` and the view and location wizards are UI actions; `models/dashboard.py`, `models/export_history.py` and the JavaScript under `static/` are not part of this model.
- Concurrent requests (read-modify-write races on the counters) are not modelled.
- Codes.MaxBatchNumber: the batch number is an unbounded natural. PostgreSQL's `CAST(SUBSTRING(batch_code FROM 2) AS BIGINT)` raises "bigint out of range" once a stored `B<digits>` code has a number above 9223372036854775807. The model returns that number instead of the error.
- Codes.PublicSeed: the value of a numeric public code is unbounded. `CAST(public_code AS BIGINT)` raises once a stored all-digit public code is above 9223372036854775807. The model returns the value instead of the error.
- ExportWizard.LastPrintedValue: not bounded to BIGINT. The same `CAST(public_code AS BIGINT)` in the export wizard's queries raises on such a code, where the model compares unbounded values.
- ExportWizard.RangeTargets: not bounded to BIGINT. Its numeric branch casts every numeric public code and both ends to BIGINT, so a numeral above 9223372036854775807 raises there.
- CodesSync.RemoteRow: the remote codes are copied unchecked, so a numeral outside BIGINT can reach the table, which is how the casts above could raise. The counters `searched_count_success` and `searched_count_fail` are `fields.Integer` columns (PostgreSQL `int4`). The sync's raw INSERT raises on a remote counter outside -2147483648..2147483647, where the model stores any integer. The validation endpoint's counter increments are unbounded in the same way.
- ExportWizard.NextRecordsFacts: "next N" may return fewer than N records even after the availability check. The check counts every unprinted numeral, while the selection only takes those above the largest printed one. The lemma proves only that the candidates never outnumber the unprinted numerals.

## Findings

| source | as written | input that shows it | evidently intended | confidence | as-written member | corrected member |
|---|---|---|---|---|---|---|
| models/models.py:249-261 | replacement codes drawn after a collision are only checked against the collisions of the first query, not against the stored codes | stored codes 000000000000 and 000000000001, size 1, draws 0 then 1: the chunk is [000000000001], a stored code, and the insert that follows fails on the unique constraint | no code of a chunk is already stored | not executed | Generation.ChunkAsWrittenCanReturnStoredCode | Generation.GenerateChunk |
