/**
 * `sync_frappe_secret_codes_cron` of models/models.py: the scheduled copy
 * of the remote "Secret Codes" list into the code table. Pages of 1000 rows
 * are read from a cursor kept in the configuration (`next_page`); each page
 * inserts the rows whose secret code is new, with `ON CONFLICT DO NOTHING`;
 * the work is committed every `pages_per_batch` pages. An empty or short
 * page ends the sweep: the cursor goes back to 1 and the cron switches
 * itself off. A run also stops after `max_pages_this_run` pages, with the
 * cursor left where it is and the cron re-armed; and it does nothing at all
 * when the newest remote code is already stored.
 *
 * A fetch of this sync retries until it succeeds, so it never fails here.
 * A row whose counter `int()` cannot read raises: the run's uncommitted
 * work is then rolled back to the last commit.
 */
module CodesSync {
  import opened Wrappers
  import opened Text
  import opened Remote
  import opened Codes

  const CodesPageSize: nat := 1000
  const PagesPerBatch: nat := 100
  const MaxPagesPerRun: nat := 500

  /** A remote code row; an empty text stands for a missing or empty field. */
  datatype RemoteCode = RemoteCode(
    batchCode: string,
    secretCode: string,
    publicCode: Value,
    status: Value,
    validateStatus: Value,
    isPrinted: Value,
    limitReached: Value,
    successCount: Value,
    failCount: Value)

  const StatusWords: set<string> := {"active", "inactive"}
  const ValidateStatusWords: set<string> := {"validated", "pending"}

  /** `_normalize_status(value, "inactive")`. */
  function NormalizeStatus(v: Value): (s: Status)
    ensures s == Active <==> Truthy(v) && Lower(Strip(StrOf(v))) == "active"
  {
    match Choice(v, StatusWords)
    case Some(w) => if w == "active" then Active else Inactive
    case None => Inactive
  }

  /** `_normalize_validate_status(value, "pending")`. */
  function NormalizeValidateStatus(v: Value): (s: ValidateStatus)
    ensures s == Validated <==> Truthy(v) && Lower(Strip(StrOf(v))) == "validated"
  {
    match Choice(v, ValidateStatusWords)
    case Some(w) => if w == "validated" then Validated else Pending
    case None => Pending
  }

  function StatusName(s: Status): string
  {
    match s
    case Active => "active"
    case Inactive => "inactive"
  }

  function ValidateStatusName(s: ValidateStatus): string
  {
    match s
    case Validated => "validated"
    case Pending => "pending"
  }

  /** A status sent under its own name is kept. */
  lemma NormalizeStatusOfName(s: Status)
    ensures NormalizeStatus(Str(StatusName(s))) == s
  {
    ChoiceOfWord(StatusName(s), StatusWords);
  }

  /** A validation status sent under its own name is kept. */
  lemma NormalizeValidateStatusOfName(t: ValidateStatus)
    ensures NormalizeValidateStatus(Str(ValidateStatusName(t))) == t
  {
    ChoiceOfWord(ValidateStatusName(t), ValidateStatusWords);
  }

  /**
   * The row inserted for a remote code, stamped `now`; `int()` of either
   * counter may raise, the success counter first.
   */
  function RemoteRow(rec: RemoteCode, now: nat): (r: Result<CodeRecord>)
    ensures r.Err? <==> IntOrZero(rec.successCount).Err? || IntOrZero(rec.failCount).Err?
    ensures r.Ok? ==> r.value.secretCode == rec.secretCode && r.value.batchCode == rec.batchCode
    ensures r.Ok? ==> r.value.publicCode == StrOf(rec.publicCode)
  {
    match IntOrZero(rec.successCount)
    case Err(e) => Err(e)
    case Ok(success) =>
      match IntOrZero(rec.failCount)
      case Err(e) => Err(e)
      case Ok(fail) =>
        Ok(CodeRecord(
          batchCode := rec.batchCode,
          secretCode := rec.secretCode,
          publicCode := StrOf(rec.publicCode),
          status := NormalizeStatus(rec.status),
          validateStatus := NormalizeValidateStatus(rec.validateStatus),
          limitReached := ToBool(rec.limitReached),
          isPrinted := ToBool(rec.isPrinted),
          successCount := success,
          failCount := fail,
          writeDate := now))
  }

  /** The conversion of every row of the list (a row's conversion depends on the row alone). */
  function Conversions(remote: seq<RemoteCode>, now: nat): seq<Result<CodeRecord>>
  {
    seq(|remote|, k requires 0 <= k < |remote| => RemoteRow(remote[k], now))
  }

  /** `cs` holds one conversion per row of `rs`; a successful one carries the row's secret code. */
  predicate Converts(rs: seq<RemoteCode>, cs: seq<Result<CodeRecord>>)
  {
    |cs| == |rs| && forall k | 0 <= k < |rs| :: cs[k].Ok? ==> cs[k].value.secretCode == rs[k].secretCode
  }

  lemma ConversionsConvert(remote: seq<RemoteCode>, now: nat)
    ensures Converts(remote, Conversions(remote, now))
  {
  }

  /** Converting a page is taking the page of the conversions. */
  lemma ConversionsPage(remote: seq<RemoteCode>, now: nat, page: nat)
    requires page >= 1
    ensures Page(Conversions(remote, now), page, CodesPageSize) == Conversions(Page(remote, page, CodesPageSize), now)
  {
    var cs := Page(Conversions(remote, now), page, CodesPageSize);
    PageSameLength(Conversions(remote, now), remote, page, CodesPageSize);
    forall j | 0 <= j < |cs| ensures cs[j] == Conversions(Page(remote, page, CodesPageSize), now)[j] {
      PageEntry(remote, page, CodesPageSize, (page - 1) * CodesPageSize + j);
    }
  }

  /** The page of a converted list is converted. */
  lemma ConvertsPage(remote: seq<RemoteCode>, cs: seq<Result<CodeRecord>>, page: nat)
    requires page >= 1 && Converts(remote, cs)
    ensures Converts(Page(remote, page, CodesPageSize), Page(cs, page, CodesPageSize))
  {
    PageSameLength(remote, cs, page, CodesPageSize);
    var rs := Page(remote, page, CodesPageSize);
    forall j | 0 <= j < |rs| ensures Page(cs, page, CodesPageSize)[j].Ok? ==>
      Page(cs, page, CodesPageSize)[j].value.secretCode == rs[j].secretCode
    {
      PageEntry(remote, page, CodesPageSize, (page - 1) * CodesPageSize + j);
      PageEntry(cs, page, CodesPageSize, (page - 1) * CodesPageSize + j);
    }
  }

  // ---------------------------------------------------------------
  // One page
  // ---------------------------------------------------------------

  /** A row the sync would insert into an empty table: it has a secret code, a batch code and a public code. */
  predicate Eligible(rec: RemoteCode)
  {
    rec.secretCode != [] && rec.batchCode != [] && Truthy(rec.publicCode)
  }

  /** The page skips a row without a secret code, with a secret code already stored, or without a batch or public code. */
  predicate Skipped(rec: RemoteCode, existing: set<string>)
  {
    rec.secretCode == [] || rec.secretCode in existing || rec.batchCode == [] || !Truthy(rec.publicCode)
  }

  /** Which rows of a page the page skips. */
  function Skips(rs: seq<RemoteCode>, existing: set<string>): (r: seq<bool>)
    ensures |r| == |rs| && forall j | 0 <= j < |rs| :: r[j] == Skipped(rs[j], existing)
  {
    seq(|rs|, j requires 0 <= j < |rs| => Skipped(rs[j], existing))
  }

  /** The `rows` of one page, checked against the secret codes stored before the page. */
  function PageRows(rs: seq<RemoteCode>, cs: seq<Result<CodeRecord>>, existing: set<string>): Result<seq<CodeRecord>>
    requires |cs| == |rs|
  {
    Collect(Skips(rs, existing), cs)
  }

  /** A row the table's unique constraints refuse: its secret or its public code is stored. */
  predicate Conflicts(store: Store, row: CodeRecord)
  {
    row.secretCode in SecretCodes(store) || row.publicCode in PublicCodes(store)
  }

  /** The rows inserted one by one, each dropped when it conflicts (`ON CONFLICT DO NOTHING`). */
  function InsertIgnoring(store: Store, rows: seq<CodeRecord>): (r: Store)
    ensures |store| <= |r| <= |store| + |rows|
  {
    if rows == [] then store
    else
      var n := |rows| - 1;
      var s := InsertIgnoring(store, rows[..n]);
      if Conflicts(s, rows[n]) then s else s + [rows[n]]
  }

  /** One page: its rows, then the insert; a row that raises leaves the table as it was. */
  function ApplyPage(store: Store, rs: seq<RemoteCode>, cs: seq<Result<CodeRecord>>): Result<Store>
    requires |cs| == |rs|
  {
    match PageRows(rs, cs, SecretCodes(store))
    case Err(e) => Err(e)
    case Ok(rows) => Ok(InsertIgnoring(store, rows))
  }

  /** `b` starts with `a`. */
  predicate Extends(a: Store, b: Store)
  {
    |a| <= |b| && b[..|a|] == a
  }

  lemma ExtendsTrans(a: Store, b: Store, c: Store)
    requires Extends(a, b) && Extends(b, c)
    ensures Extends(a, c)
  {
    assert c[..|a|] == c[..|b|][..|a|];
  }

  /** A longer table holds every code of a shorter one. */
  lemma ExtendsCodes(a: Store, b: Store)
    requires Extends(a, b)
    ensures SecretCodes(a) <= SecretCodes(b) && PublicCodes(a) <= PublicCodes(b)
  {
    forall r | r in a ensures r in b {
      var k :| 0 <= k < |a| && a[k] == r;
      assert b[..|a|][k] == b[k];
    }
  }

  lemma ExtendsUnique(a: Store, b: Store)
    requires Extends(a, b) && Unique(b)
    ensures Unique(a)
  {
    forall i, j | 0 <= i < j < |a| ensures a[i].secretCode != a[j].secretCode && a[i].publicCode != a[j].publicCode {
      assert b[..|a|][i] == b[i] && b[..|a|][j] == b[j];
    }
  }

  /** A row that does not conflict keeps the codes unique. */
  lemma AppendUnique(store: Store, row: CodeRecord)
    requires Unique(store) && !Conflicts(store, row)
    ensures Unique(store + [row])
  {
    forall i | 0 <= i < |store| ensures store[i].secretCode != row.secretCode && store[i].publicCode != row.publicCode {
      assert store[i] in store;
    }
  }

  /** The insert never changes a stored row, only appends rows of the page, and keeps the codes unique. */
  lemma {:induction false} InsertIgnoringKeeps(store: Store, rows: seq<CodeRecord>)
    ensures Extends(store, InsertIgnoring(store, rows))
    ensures forall k | |store| <= k < |InsertIgnoring(store, rows)| :: InsertIgnoring(store, rows)[k] in rows
    ensures Unique(store) ==> Unique(InsertIgnoring(store, rows))
  {
    if rows != [] {
      var n := |rows| - 1;
      var s := InsertIgnoring(store, rows[..n]);
      InsertIgnoringKeeps(store, rows[..n]);
      assert forall k | |store| <= k < |s| :: s[k] in rows[..n] && s[k] in rows;
      if !Conflicts(s, rows[n]) {
        assert (s + [rows[n]])[..|store|] == s[..|store|];
        if Unique(store) {
          AppendUnique(s, rows[n]);
        }
      }
    }
  }

  /** After the insert every row of the page conflicts: it was inserted, or a stored code refused it. */
  lemma {:induction false} InsertIgnoringBlocks(store: Store, rows: seq<CodeRecord>)
    ensures forall j | 0 <= j < |rows| :: Conflicts(InsertIgnoring(store, rows), rows[j])
  {
    if rows != [] {
      var n := |rows| - 1;
      var s := InsertIgnoring(store, rows[..n]);
      var r := InsertIgnoring(store, rows);
      InsertIgnoringBlocks(store, rows[..n]);
      assert Extends(s, r) by {
        if !Conflicts(s, rows[n]) {
          assert r[..|s|] == s;
        }
      }
      ExtendsCodes(s, r);
      assert forall j | 0 <= j < n :: rows[..n][j] == rows[j];
      if !Conflicts(s, rows[n]) {
        assert rows[n] in r;
      }
    }
  }

  /** Rows that all conflict insert nothing. */
  lemma {:induction false} InsertAllBlocked(store: Store, rows: seq<CodeRecord>)
    requires forall j | 0 <= j < |rows| :: Conflicts(store, rows[j])
    ensures InsertIgnoring(store, rows) == store
  {
    if rows != [] {
      var n := |rows| - 1;
      assert forall j | 0 <= j < n :: rows[..n][j] == rows[j];
      InsertAllBlocked(store, rows[..n]);
    }
  }

  /** A page whose unskipped rows all convert to conflicting rows does not raise, and takes only such rows. */
  lemma PageRowsBlocked(rs: seq<RemoteCode>, cs: seq<Result<CodeRecord>>, store: Store)
    requires |cs| == |rs|
    requires forall j | 0 <= j < |rs| && !Skipped(rs[j], SecretCodes(store)) :: cs[j].Ok? && Conflicts(store, cs[j].value)
    ensures PageRows(rs, cs, SecretCodes(store)).Ok?
    ensures forall row | row in PageRows(rs, cs, SecretCodes(store)).value :: Conflicts(store, row)
  {
    var skips := Skips(rs, SecretCodes(store));
    CollectError(skips, cs);
    CollectRows(skips, cs);
  }

  /** An eligible row is accounted for: its secret code is stored, or its converted row's public code is. */
  predicate Covered(store: Store, rec: RemoteCode, c: Result<CodeRecord>)
  {
    rec.secretCode in SecretCodes(store) || (c.Ok? && c.value.publicCode in PublicCodes(store))
  }

  /** After a page that does not raise, every eligible row of the page is accounted for. */
  lemma PageCovers(store: Store, rs: seq<RemoteCode>, cs: seq<Result<CodeRecord>>)
    requires Converts(rs, cs) && ApplyPage(store, rs, cs).Ok?
    ensures forall j | 0 <= j < |rs| && Eligible(rs[j]) :: Covered(ApplyPage(store, rs, cs).value, rs[j], cs[j])
  {
    var rows := PageRows(rs, cs, SecretCodes(store)).value;
    var after := InsertIgnoring(store, rows);
    CollectRows(Skips(rs, SecretCodes(store)), cs);
    InsertIgnoringBlocks(store, rows);
    InsertIgnoringKeeps(store, rows);
    ExtendsCodes(store, after);
    forall j | 0 <= j < |rs| && Eligible(rs[j]) ensures Covered(after, rs[j], cs[j]) {
      if rs[j].secretCode !in SecretCodes(store) {
        var k :| 0 <= k < |rows| && rows[k] == cs[j].value;
        assert Conflicts(after, rows[k]);
      }
    }
  }

  /** A page whose eligible rows are all accounted for changes nothing. */
  lemma PageIdle(store: Store, rs: seq<RemoteCode>, cs: seq<Result<CodeRecord>>)
    requires Converts(rs, cs)
    requires forall j | 0 <= j < |rs| && Eligible(rs[j]) :: Covered(store, rs[j], cs[j])
    ensures ApplyPage(store, rs, cs) == Ok(store)
  {
    PageRowsBlocked(rs, cs, store);
    var rows := PageRows(rs, cs, SecretCodes(store)).value;
    forall j | 0 <= j < |rows| ensures Conflicts(store, rows[j]) {
      assert rows[j] in rows;
    }
    InsertAllBlocked(store, rows);
  }

  /** Applying a page twice gives the table of applying it once. */
  lemma ApplyPageIdempotent(store: Store, rs: seq<RemoteCode>, cs: seq<Result<CodeRecord>>)
    requires Converts(rs, cs) && ApplyPage(store, rs, cs).Ok?
    ensures ApplyPage(ApplyPage(store, rs, cs).value, rs, cs) == ApplyPage(store, rs, cs)
  {
    PageCovers(store, rs, cs);
    PageIdle(ApplyPage(store, rs, cs).value, rs, cs);
  }

  /** A page never changes a stored row and keeps the codes unique. */
  lemma ApplyPageKeeps(store: Store, rs: seq<RemoteCode>, cs: seq<Result<CodeRecord>>)
    requires |cs| == |rs| && ApplyPage(store, rs, cs).Ok?
    ensures Extends(store, ApplyPage(store, rs, cs).value)
    ensures Unique(store) ==> Unique(ApplyPage(store, rs, cs).value)
  {
    InsertIgnoringKeeps(store, PageRows(rs, cs, SecretCodes(store)).value);
  }

  /** One page, as the cron body does it: collect the rows, then insert them one by one. */
  method CodesPage(store: Store, records: seq<RemoteCode>, now: nat) returns (result: Result<Store>)
    ensures result == ApplyPage(store, records, Conversions(records, now))
  {
    // `existing_codes`: only the page's own codes are ever looked up in it
    var existing := SecretCodes(store);
    ghost var cs := Conversions(records, now);
    ghost var skips := Skips(records, existing);
    var rows: seq<CodeRecord> := [];
    for i := 0 to |records|
      invariant Collect(skips[..i], cs[..i]) == Ok(rows)
    {
      var rec := records[i];
      assert skips[..i + 1][..i] == skips[..i] && cs[..i + 1][..i] == cs[..i];
      if !Skipped(rec, existing) {
        var row := RemoteRow(rec, now);
        assert cs[i] == row;
        if row.Err? {
          CollectErrorStays(skips, cs, i + 1);
          return Err(row.error);
        }
        rows := rows + [row.value];
      }
    }
    assert skips[..|records|] == skips && cs[..|records|] == cs;
    var stored := store;
    for k := 0 to |rows|
      invariant stored == InsertIgnoring(store, rows[..k])
    {
      assert rows[..k + 1][..k] == rows[..k];
      if !Conflicts(stored, rows[k]) {
        stored := stored + [rows[k]];
      }
    }
    assert rows[..|rows|] == rows;
    return Ok(stored);
  }

  // ---------------------------------------------------------------
  // The page loop
  // ---------------------------------------------------------------

  /**
   * The loop's variables: the table and the cursor as they stand, the
   * pages done in this run and since the last commit, and the table and
   * the cursor as of the last commit.
   */
  datatype Pass = Pass(store: Store, page: nat, done: nat, inBatch: nat, saved: Store, savedPage: nat)

  /** The loop's variables when it starts at cursor `page`: the starting state is committed. */
  function Start(store: Store, page: nat): Pass
  {
    Pass(store, page, 0, 0, store, page)
  }

  /** Why the page loop ended: an empty or short page, the page limit, a row that raised. */
  datatype RunEnd = EndOfList | PageLimit | RowError(error: string)

  datatype RunResult = RunResult(store: Store, page: nat, end: RunEnd)

  /** The page applied at the cursor. */
  function ApplyPageAt(store: Store, remote: seq<RemoteCode>, cs: seq<Result<CodeRecord>>, page: nat): Result<Store>
    requires page >= 1 && |cs| == |remote|
  {
    PageSameLength(cs, remote, page, CodesPageSize);
    ApplyPage(store, Page(remote, page, CodesPageSize), Page(cs, page, CodesPageSize))
  }

  /** After a full page: the cursor and the counters advance, and every `perBatch` pages the work is committed. */
  function Advance(p: Pass, store: Store, perBatch: nat): Pass
  {
    if p.inBatch + 1 >= perBatch then Pass(store, p.page + 1, p.done + 1, 0, store, p.page + 1)
    else Pass(store, p.page + 1, p.done + 1, p.inBatch + 1, p.saved, p.savedPage)
  }

  /**
   * The page loop from `p` on, over the list `remote` whose rows convert
   * to `cs`: it stops after `maxPages` pages (0: no limit) with the cursor
   * where it is; at an empty page, or after a short one, with the cursor
   * back at 1; and at a row that raises, with the table and the cursor of
   * the last commit.
   */
  function RunFrom(p: Pass, remote: seq<RemoteCode>, cs: seq<Result<CodeRecord>>, maxPages: nat, perBatch: nat): RunResult
    requires p.page >= 1 && |cs| == |remote|
    decreases |remote| - (p.page - 1) * CodesPageSize
  {
    if maxPages != 0 && p.done >= maxPages then RunResult(p.store, p.page, PageLimit)
    else if Page(remote, p.page, CodesPageSize) == [] then RunResult(p.store, 1, EndOfList)
    else
      match ApplyPageAt(p.store, remote, cs, p.page)
      case Err(e) => RunResult(p.saved, p.savedPage, RowError(e))
      case Ok(s) =>
        if |Page(remote, p.page, CodesPageSize)| < CodesPageSize then RunResult(s, 1, EndOfList)
        else RunFrom(Advance(p, s, perBatch), remote, cs, maxPages, perBatch)
  }

  /** The page is applied and the loop moves on to the next one. */
  predicate Continues(p: Pass, remote: seq<RemoteCode>, cs: seq<Result<CodeRecord>>, maxPages: nat)
    requires p.page >= 1 && |cs| == |remote|
  {
    && !(maxPages != 0 && p.done >= maxPages)
    && |Page(remote, p.page, CodesPageSize)| == CodesPageSize
    && ApplyPageAt(p.store, remote, cs, p.page).Ok?
  }

  lemma RunNext(p: Pass, remote: seq<RemoteCode>, cs: seq<Result<CodeRecord>>, maxPages: nat, perBatch: nat)
    requires p.page >= 1 && |cs| == |remote| && Continues(p, remote, cs, maxPages)
    ensures RunFrom(p, remote, cs, maxPages, perBatch) ==
      RunFrom(Advance(p, ApplyPageAt(p.store, remote, cs, p.page).value, perBatch), remote, cs, maxPages, perBatch)
  {
  }

  /** A page that is not full is the rest of the list. */
  lemma ShortPageIsTail<T>(rows: seq<T>, page: nat)
    requires page >= 1 && |Page(rows, page, CodesPageSize)| < CodesPageSize
    ensures (page - 1) * CodesPageSize + |Page(rows, page, CodesPageSize)| >= |rows|
  {
  }

  /** The table of a committed state is a prefix of the current one, and a page only extends the table. */
  predicate Grows(p: Pass)
  {
    Extends(p.saved, p.store)
  }

  /** The table the loop ends with: it extends the last commit, and the current table unless a row raised. */
  predicate Grown(p: Pass, r: RunResult)
  {
    && Extends(p.saved, r.store)
    && (!r.end.RowError? ==> Extends(p.store, r.store))
    && (Unique(p.store) ==> Unique(r.store))
  }

  /** A full page keeps the committed table a prefix of the current one. */
  lemma AdvanceGrows(p: Pass, s: Store, perBatch: nat)
    requires Grows(p) && Extends(p.store, s)
    ensures Grows(Advance(p, s, perBatch))
    ensures Extends(p.saved, Advance(p, s, perBatch).saved)
  {
    ExtendsTrans(p.saved, p.store, s);
    assert Extends(s, s);
  }

  /** The tables of one full page and of the rest of the loop chain up. */
  lemma GrownStep(p: Pass, q: Pass, r: RunResult)
    requires Grows(p) && Grown(q, r)
    requires Extends(p.store, q.store) && Extends(p.saved, q.saved)
    requires Unique(p.store) ==> Unique(q.store)
    ensures Grown(p, r)
  {
    ExtendsTrans(p.saved, q.saved, r.store);
    if !r.end.RowError? {
      ExtendsTrans(p.store, q.store, r.store);
    }
  }

  /** Where the loop stops, it keeps the table as `Grown` says. */
  lemma HaltGrown(p: Pass, remote: seq<RemoteCode>, cs: seq<Result<CodeRecord>>, maxPages: nat, perBatch: nat)
    requires p.page >= 1 && |cs| == |remote| && Grows(p) && !Continues(p, remote, cs, maxPages)
    ensures Grown(p, RunFrom(p, remote, cs, maxPages, perBatch))
  {
    assert Extends(p.store, p.store) && Extends(p.saved, p.saved);
    if Unique(p.store) {
      ExtendsUnique(p.saved, p.store);
    }
    if !(maxPages != 0 && p.done >= maxPages) && Page(remote, p.page, CodesPageSize) != [] {
      var applied := ApplyPageAt(p.store, remote, cs, p.page);
      if applied.Ok? {
        PageSameLength(cs, remote, p.page, CodesPageSize);
        ApplyPageKeeps(p.store, Page(remote, p.page, CodesPageSize), Page(cs, p.page, CodesPageSize));
        ExtendsTrans(p.saved, p.store, applied.value);
      }
    }
  }

  /** The loop never changes a stored row and keeps the codes unique; a raise falls back to a commit. */
  lemma {:induction false} RunGrows(p: Pass, remote: seq<RemoteCode>, cs: seq<Result<CodeRecord>>, maxPages: nat, perBatch: nat)
    requires p.page >= 1 && |cs| == |remote| && Grows(p)
    ensures Grown(p, RunFrom(p, remote, cs, maxPages, perBatch))
    decreases |remote| - (p.page - 1) * CodesPageSize
  {
    if Continues(p, remote, cs, maxPages) {
      var s := ApplyPageAt(p.store, remote, cs, p.page).value;
      PageSameLength(cs, remote, p.page, CodesPageSize);
      ApplyPageKeeps(p.store, Page(remote, p.page, CodesPageSize), Page(cs, p.page, CodesPageSize));
      AdvanceGrows(p, s, perBatch);
      RunNext(p, remote, cs, maxPages, perBatch);
      RunGrows(Advance(p, s, perBatch), remote, cs, maxPages, perBatch);
      GrownStep(p, Advance(p, s, perBatch), RunFrom(p, remote, cs, maxPages, perBatch));
    } else {
      HaltGrown(p, remote, cs, maxPages, perBatch);
    }
  }

  /** `x` is a multiple of `m`. */
  predicate MultipleOf(x: nat, m: nat)
    decreases x
  {
    x == 0 || (m > 0 && x >= m && MultipleOf(x - m, m))
  }

  /**
   * What the loop keeps of its counters: the cursor is `inBatch` pages
   * past the last commit, the commit lies a multiple of `perBatch` pages
   * past the start, and the page count, no larger than the limit, is the
   * cursor's distance from the start.
   */
  predicate Counted(p: Pass, start: nat, maxPages: nat, perBatch: nat)
  {
    && p.inBatch < perBatch
    && p.savedPage + p.inBatch == p.page
    && start <= p.savedPage
    && MultipleOf(p.savedPage - start, perBatch)
    && p.page == start + p.done
    && (maxPages != 0 ==> p.done <= maxPages)
  }

  /** Where the cursor ends: at 1 after a sweep, `maxPages` past the start at the limit, on a commit after a raise. */
  predicate Cursor(r: RunResult, start: nat, maxPages: nat, perBatch: nat)
  {
    && (r.end == EndOfList ==> r.page == 1)
    && (r.end == PageLimit ==> r.page == start + maxPages)
    && (r.end.RowError? ==> start <= r.page && MultipleOf(r.page - start, perBatch))
  }

  /** A full page keeps the counters as `Counted` says. */
  lemma AdvanceCounted(p: Pass, s: Store, start: nat, maxPages: nat, perBatch: nat)
    requires Counted(p, start, maxPages, perBatch) && !(maxPages != 0 && p.done >= maxPages)
    ensures Counted(Advance(p, s, perBatch), start, maxPages, perBatch)
  {
    if p.inBatch + 1 >= perBatch {
      assert p.page + 1 - start == (p.savedPage - start) + perBatch;
    }
  }

  /** Where the loop stops, the cursor is as `Cursor` says. */
  lemma HaltCursor(p: Pass, remote: seq<RemoteCode>, cs: seq<Result<CodeRecord>>, maxPages: nat, perBatch: nat, start: nat)
    requires p.page >= 1 && |cs| == |remote| && Counted(p, start, maxPages, perBatch)
    requires !Continues(p, remote, cs, maxPages)
    ensures Cursor(RunFrom(p, remote, cs, maxPages, perBatch), start, maxPages, perBatch)
  {
  }

  /** The cursor the loop leaves, for a loop started at cursor `start`. */
  lemma {:induction false} RunCursor(p: Pass, remote: seq<RemoteCode>, cs: seq<Result<CodeRecord>>, maxPages: nat,
                                     perBatch: nat, start: nat)
    requires p.page >= 1 && |cs| == |remote| && Counted(p, start, maxPages, perBatch)
    ensures Cursor(RunFrom(p, remote, cs, maxPages, perBatch), start, maxPages, perBatch)
    decreases |remote| - (p.page - 1) * CodesPageSize
  {
    if Continues(p, remote, cs, maxPages) {
      var s := ApplyPageAt(p.store, remote, cs, p.page).value;
      AdvanceCounted(p, s, start, maxPages, perBatch);
      RunNext(p, remote, cs, maxPages, perBatch);
      RunCursor(Advance(p, s, perBatch), remote, cs, maxPages, perBatch, start);
    } else {
      HaltCursor(p, remote, cs, maxPages, perBatch, start);
    }
  }

  /** Every eligible row from index `from` on is accounted for in `store`. */
  predicate CoversFrom(store: Store, remote: seq<RemoteCode>, cs: seq<Result<CodeRecord>>, from: nat)
    requires |cs| == |remote|
  {
    forall k | from <= k < |remote| && Eligible(remote[k]) :: Covered(store, remote[k], cs[k])
  }

  /** A row accounted for stays so as the table grows. */
  lemma CoveredGrows(a: Store, b: Store, rec: RemoteCode, c: Result<CodeRecord>)
    requires Extends(a, b) && Covered(a, rec, c)
    ensures Covered(b, rec, c)
  {
    ExtendsCodes(a, b);
  }

  /** After a page that does not raise, its eligible rows are accounted for. */
  lemma PageCoversAt(store: Store, remote: seq<RemoteCode>, cs: seq<Result<CodeRecord>>, page: nat)
    requires page >= 1 && Converts(remote, cs) && ApplyPageAt(store, remote, cs, page).Ok?
    ensures forall k | (page - 1) * CodesPageSize <= k < (page - 1) * CodesPageSize + |Page(remote, page, CodesPageSize)|
      && Eligible(remote[k]) :: Covered(ApplyPageAt(store, remote, cs, page).value, remote[k], cs[k])
  {
    var offset := (page - 1) * CodesPageSize;
    var rs, pcs := Page(remote, page, CodesPageSize), Page(cs, page, CodesPageSize);
    ConvertsPage(remote, cs, page);
    PageCovers(store, rs, pcs);
    forall k | offset <= k < offset + |rs| && Eligible(remote[k])
      ensures Covered(ApplyPageAt(store, remote, cs, page).value, remote[k], cs[k])
    {
      PageEntry(remote, page, CodesPageSize, k);
      PageEntry(cs, page, CodesPageSize, k);
    }
  }

  /** The rows of a full page and of the rest of the list, accounted for in the end. */
  lemma CoversJoin(p: Pass, s: Store, final: Store, remote: seq<RemoteCode>, cs: seq<Result<CodeRecord>>)
    requires p.page >= 1 && Converts(remote, cs) && ApplyPageAt(p.store, remote, cs, p.page) == Ok(s)
    requires |Page(remote, p.page, CodesPageSize)| == CodesPageSize && Extends(s, final)
    requires CoversFrom(final, remote, cs, p.page * CodesPageSize)
    ensures CoversFrom(final, remote, cs, (p.page - 1) * CodesPageSize)
  {
    PageCoversAt(p.store, remote, cs, p.page);
    forall k | (p.page - 1) * CodesPageSize <= k < p.page * CodesPageSize && k < |remote| && Eligible(remote[k])
      ensures Covered(final, remote[k], cs[k])
    {
      CoveredGrows(s, final, remote[k], cs[k]);
    }
  }

  /** Where the loop stops at the end of the list, the rest of the list is accounted for. */
  lemma HaltCovers(p: Pass, remote: seq<RemoteCode>, cs: seq<Result<CodeRecord>>, maxPages: nat, perBatch: nat)
    requires p.page >= 1 && Converts(remote, cs) && !Continues(p, remote, cs, maxPages)
    ensures RunFrom(p, remote, cs, maxPages, perBatch).end == EndOfList ==>
      CoversFrom(RunFrom(p, remote, cs, maxPages, perBatch).store, remote, cs, (p.page - 1) * CodesPageSize)
  {
    if !(maxPages != 0 && p.done >= maxPages) && Page(remote, p.page, CodesPageSize) != [] {
      if ApplyPageAt(p.store, remote, cs, p.page).Ok? {
        ShortPageIsTail(remote, p.page);
        PageCoversAt(p.store, remote, cs, p.page);
      }
    }
  }

  /** One full page, then the rest of the sweep: the rows from the page on are accounted for. */
  lemma CoversStep(p: Pass, remote: seq<RemoteCode>, cs: seq<Result<CodeRecord>>, maxPages: nat, perBatch: nat)
    requires p.page >= 1 && Converts(remote, cs) && Grows(p) && Continues(p, remote, cs, maxPages)
    requires var q := Advance(p, ApplyPageAt(p.store, remote, cs, p.page).value, perBatch);
      var r := RunFrom(q, remote, cs, maxPages, perBatch);
      r.end == EndOfList ==> CoversFrom(r.store, remote, cs, (q.page - 1) * CodesPageSize)
    ensures var q := Advance(p, ApplyPageAt(p.store, remote, cs, p.page).value, perBatch);
      var r := RunFrom(q, remote, cs, maxPages, perBatch);
      r.end == EndOfList ==> CoversFrom(r.store, remote, cs, (p.page - 1) * CodesPageSize)
  {
    var s := ApplyPageAt(p.store, remote, cs, p.page).value;
    var q := Advance(p, s, perBatch);
    var r := RunFrom(q, remote, cs, maxPages, perBatch);
    if r.end == EndOfList {
      PageSameLength(cs, remote, p.page, CodesPageSize);
      ApplyPageKeeps(p.store, Page(remote, p.page, CodesPageSize), Page(cs, p.page, CodesPageSize));
      AdvanceGrows(p, s, perBatch);
      RunGrows(q, remote, cs, maxPages, perBatch);
      assert (q.page - 1) * CodesPageSize == p.page * CodesPageSize;
      CoversJoin(p, s, r.store, remote, cs);
    }
  }

  /** A sweep that reaches the end of the list accounts for every eligible row from its starting page on. */
  lemma {:induction false} RunCovers(p: Pass, remote: seq<RemoteCode>, cs: seq<Result<CodeRecord>>, maxPages: nat, perBatch: nat)
    requires p.page >= 1 && Converts(remote, cs) && Grows(p)
    ensures RunFrom(p, remote, cs, maxPages, perBatch).end == EndOfList ==>
      CoversFrom(RunFrom(p, remote, cs, maxPages, perBatch).store, remote, cs, (p.page - 1) * CodesPageSize)
    decreases |remote| - (p.page - 1) * CodesPageSize
  {
    if Continues(p, remote, cs, maxPages) {
      var s := ApplyPageAt(p.store, remote, cs, p.page).value;
      PageSameLength(cs, remote, p.page, CodesPageSize);
      ApplyPageKeeps(p.store, Page(remote, p.page, CodesPageSize), Page(cs, p.page, CodesPageSize));
      AdvanceGrows(p, s, perBatch);
      RunNext(p, remote, cs, maxPages, perBatch);
      RunCovers(Advance(p, s, perBatch), remote, cs, maxPages, perBatch);
      CoversStep(p, remote, cs, maxPages, perBatch);
    } else {
      HaltCovers(p, remote, cs, maxPages, perBatch);
    }
  }

  /** A full page whose rows are all accounted for changes nothing, and the rest stays accounted for. */
  lemma PageIdleAt(store: Store, remote: seq<RemoteCode>, cs: seq<Result<CodeRecord>>, page: nat)
    requires page >= 1 && Converts(remote, cs) && CoversFrom(store, remote, cs, (page - 1) * CodesPageSize)
    ensures ApplyPageAt(store, remote, cs, page) == Ok(store)
  {
    var offset := (page - 1) * CodesPageSize;
    var rs, pcs := Page(remote, page, CodesPageSize), Page(cs, page, CodesPageSize);
    ConvertsPage(remote, cs, page);
    forall j | 0 <= j < |rs| && Eligible(rs[j]) ensures Covered(store, rs[j], pcs[j]) {
      PageEntry(remote, page, CodesPageSize, offset + j);
      PageEntry(cs, page, CodesPageSize, offset + j);
    }
    PageIdle(store, rs, pcs);
  }

  /** A loop over rows that are all accounted for leaves the table as it is and raises nothing. */
  lemma {:induction false} RunIdle(p: Pass, remote: seq<RemoteCode>, cs: seq<Result<CodeRecord>>, maxPages: nat, perBatch: nat)
    requires p.page >= 1 && Converts(remote, cs) && CoversFrom(p.store, remote, cs, (p.page - 1) * CodesPageSize)
    ensures RunFrom(p, remote, cs, maxPages, perBatch).store == p.store
    ensures !RunFrom(p, remote, cs, maxPages, perBatch).end.RowError?
    decreases |remote| - (p.page - 1) * CodesPageSize
  {
    if !(maxPages != 0 && p.done >= maxPages) && Page(remote, p.page, CodesPageSize) != [] {
      PageIdleAt(p.store, remote, cs, p.page);
      if |Page(remote, p.page, CodesPageSize)| == CodesPageSize {
        RunNext(p, remote, cs, maxPages, perBatch);
        var q := Advance(p, p.store, perBatch);
        assert (q.page - 1) * CodesPageSize == (p.page - 1) * CodesPageSize + CodesPageSize;
        RunIdle(q, remote, cs, maxPages, perBatch);
      }
    }
  }

  /** One page at the cursor: the fetch (which retries until it succeeds) and the page's insert. */
  method ApplyCursorPage(current: Store, ghost remote: seq<RemoteCode>, records: seq<RemoteCode>, page: nat, now: nat)
    returns (applied: Result<Store>)
    requires page >= 1 && records == Page(remote, page, CodesPageSize)
    ensures applied == ApplyPageAt(current, remote, Conversions(remote, now), page)
  {
    ConversionsPage(remote, now, page);
    applied := CodesPage(current, records, now);
  }

  /** The loop, with the source's own variables for the cursor, the counters and the last commit. */
  method RunPages(store: Store, startPage: nat, remote: seq<RemoteCode>, now: nat, maxPages: nat, perBatch: nat)
    returns (r: RunResult)
    requires startPage >= 1
    ensures r == RunFrom(Start(store, startPage), remote, Conversions(remote, now), maxPages, perBatch)
  {
    ghost var cs := Conversions(remote, now);
    var current, nextPage, pagesDone, inBatch, saved, savedPage := store, startPage, 0, 0, store, startPage;
    var stop: Option<RunResult> := None;
    while stop.None?
      invariant nextPage >= 1
      invariant stop.None? ==>
        RunFrom(Pass(current, nextPage, pagesDone, inBatch, saved, savedPage), remote, cs, maxPages, perBatch) ==
        RunFrom(Start(store, startPage), remote, cs, maxPages, perBatch)
      invariant stop.Some? ==> stop.value == RunFrom(Start(store, startPage), remote, cs, maxPages, perBatch)
      decreases if stop.None? then 1 else 0, |remote| - (nextPage - 1) * CodesPageSize
    {
      ghost var p := Pass(current, nextPage, pagesDone, inBatch, saved, savedPage);
      if maxPages != 0 && pagesDone >= maxPages {
        stop := Some(RunResult(current, nextPage, PageLimit));
      } else {
        var records := Page(remote, nextPage, CodesPageSize);
        if records == [] {
          stop := Some(RunResult(current, 1, EndOfList));
        } else {
          var applied := ApplyCursorPage(current, remote, records, nextPage, now);
          if applied.Err? {
            // the transaction rolls back to the last commit
            stop := Some(RunResult(saved, savedPage, RowError(applied.error)));
          } else if |records| < CodesPageSize {
            stop := Some(RunResult(applied.value, 1, EndOfList));
          } else {
            RunNext(p, remote, cs, maxPages, perBatch);
            current, nextPage, pagesDone := applied.value, nextPage + 1, pagesDone + 1;
            if inBatch + 1 >= perBatch {
              // commit
              saved, savedPage, inBatch := current, nextPage, 0;
            } else {
              inBatch := inBatch + 1;
            }
          }
        }
      }
    }
    r := stop.value;
  }

  // ---------------------------------------------------------------
  // The cron
  // ---------------------------------------------------------------

  /** What the cron reads and writes besides the table: the cursor and its own schedule. */
  datatype CronState = CronState(store: Store, nextPage: nat, active: bool, nextcallNow: bool)

  datatype CronEnd = AlreadySynced | Swept | Limited | CronRaised(error: string)

  /** The newest remote row, as the `modified desc` request for one row returns it. */
  function Newest(remote: seq<RemoteCode>): seq<RemoteCode>
  {
    if remote == [] then [] else [remote[|remote| - 1]]
  }

  /**
   * `_last_frappe_code_exists_in_odoo`: the newest remote row has a secret
   * code that is stored; a fetch that fails `MaxRetries` times answers no.
   */
  function LastCodeExists(store: Store, remote: seq<RemoteCode>, lastFailures: nat): bool
  {
    lastFailures < MaxRetries && remote != [] && remote[|remote| - 1].secretCode != [] &&
    remote[|remote| - 1].secretCode in SecretCodes(store)
  }

  method LastCodeExistsCheck(store: Store, remote: seq<RemoteCode>, lastFailures: nat) returns (exists_: bool)
    ensures exists_ == LastCodeExists(store, remote, lastFailures)
  {
    var fetched := FetchPage(Newest(remote), 1, 1, p => lastFailures);
    if fetched.None? || fetched.value == [] {
      return false;
    }
    var lastCode := fetched.value[0].secretCode;
    if lastCode == [] {
      return false;
    }
    return lastCode in SecretCodes(store);
  }

  /** `pages_per_batch or FRAPPE_PAGES_PER_BATCH`. */
  function PerBatch(pagesPerBatch: nat): nat
  {
    if pagesPerBatch == 0 then PagesPerBatch else pagesPerBatch
  }

  /** `FRAPPE_MAX_PAGES_PER_RUN if max_pages_this_run is None else max_pages_this_run`. */
  function MaxPages(maxPagesThisRun: Option<nat>): nat
  {
    if maxPagesThisRun.None? then MaxPagesPerRun else maxPagesThisRun.value
  }

  /**
   * One cron run: nothing when the newest code is stored; otherwise the
   * page loop from the stored cursor. A finished sweep switches the cron
   * off, a limited one re-arms it to run now, and a raise leaves the
   * committed table and cursor and the schedule as they were.
   */
  function CronOutcome(st: CronState, remote: seq<RemoteCode>, cs: seq<Result<CodeRecord>>, lastFailures: nat,
                       pagesPerBatch: nat, maxPagesThisRun: Option<nat>): (CronState, CronEnd)
    requires st.nextPage >= 1 && |cs| == |remote|
  {
    if LastCodeExists(st.store, remote, lastFailures) then (st, AlreadySynced)
    else
      var r := RunFrom(Start(st.store, st.nextPage), remote, cs, MaxPages(maxPagesThisRun), PerBatch(pagesPerBatch));
      match r.end
      case EndOfList => (CronState(r.store, 1, false, st.nextcallNow), Swept)
      case PageLimit => (CronState(r.store, r.page, true, true), Limited)
      case RowError(e) => (CronState(r.store, r.page, st.active, st.nextcallNow), CronRaised(e))
  }

  /** `sync_frappe_secret_codes_cron`. */
  method SyncCodesCron(st: CronState, remote: seq<RemoteCode>, now: nat, lastFailures: nat,
                       pagesPerBatch: nat, maxPagesThisRun: Option<nat>) returns (after: CronState, end: CronEnd)
    requires st.nextPage >= 1
    ensures (after, end) == CronOutcome(st, remote, Conversions(remote, now), lastFailures, pagesPerBatch, maxPagesThisRun)
  {
    var perBatch := PerBatch(pagesPerBatch);
    var maxPages := MaxPages(maxPagesThisRun);
    var synced := LastCodeExistsCheck(st.store, remote, lastFailures);
    if synced {
      return st, AlreadySynced;
    }
    var r := RunPages(st.store, st.nextPage, remote, now, maxPages, perBatch);
    match r.end
    case EndOfList =>
      after, end := CronState(r.store, 1, false, st.nextcallNow), Swept;
    case PageLimit =>
      after, end := CronState(r.store, r.page, true, true), Limited;
    case RowError(e) =>
      after, end := CronState(r.store, r.page, st.active, st.nextcallNow), CronRaised(e);
  }

  /**
   * What a cron run leaves: the table only grows, except that a raise
   * falls back to a commit (a prefix of it), and it keeps the codes unique;
   * a sweep resets the cursor to 1 and switches the cron off; a run stopped
   * by the limit moves the cursor `maxPages` pages on and re-arms the
   * cron; a raise leaves the cursor a multiple of `perBatch` pages on.
   */
  lemma CronKeeps(st: CronState, remote: seq<RemoteCode>, cs: seq<Result<CodeRecord>>, lastFailures: nat,
                  pagesPerBatch: nat, maxPagesThisRun: Option<nat>)
    requires st.nextPage >= 1 && |cs| == |remote|
    ensures var (after, end) := CronOutcome(st, remote, cs, lastFailures, pagesPerBatch, maxPagesThisRun);
      && (end == AlreadySynced <==> LastCodeExists(st.store, remote, lastFailures))
      && (end == AlreadySynced ==> after == st)
      && (!end.CronRaised? ==> Extends(st.store, after.store))
      && (end.CronRaised? ==> Extends(after.store, st.store) || Extends(st.store, after.store))
      && (Unique(st.store) ==> Unique(after.store))
      && (end == Swept ==> after.nextPage == 1 && !after.active)
      && (end == Limited ==> after.nextPage == st.nextPage + MaxPages(maxPagesThisRun) && after.active && after.nextcallNow)
      && (end.CronRaised? ==>
            && st.nextPage <= after.nextPage && MultipleOf(after.nextPage - st.nextPage, PerBatch(pagesPerBatch))
            && after.active == st.active && after.nextcallNow == st.nextcallNow)
  {
    if !LastCodeExists(st.store, remote, lastFailures) {
      var p := Start(st.store, st.nextPage);
      assert Extends(p.store, p.store);
      RunGrows(p, remote, cs, MaxPages(maxPagesThisRun), PerBatch(pagesPerBatch));
      RunCursor(p, remote, cs, MaxPages(maxPagesThisRun), PerBatch(pagesPerBatch), st.nextPage);
    }
  }

  /**
   * A sweep from the first page accounts for every eligible remote row;
   * the next run, whatever its settings, then adds nothing and does not
   * raise.
   */
  lemma SecondCronAddsNothing(st: CronState, remote: seq<RemoteCode>, cs: seq<Result<CodeRecord>>, lastFailures: nat,
                              pagesPerBatch: nat, maxPagesThisRun: Option<nat>, st2: CronState, lastFailures2: nat,
                              pagesPerBatch2: nat, maxPagesThisRun2: Option<nat>)
    requires st.nextPage == 1 && Converts(remote, cs)
    requires CronOutcome(st, remote, cs, lastFailures, pagesPerBatch, maxPagesThisRun).1 == Swept
    requires st2 == CronOutcome(st, remote, cs, lastFailures, pagesPerBatch, maxPagesThisRun).0
    ensures CoversFrom(st2.store, remote, cs, 0)
    ensures CronOutcome(st2, remote, cs, lastFailures2, pagesPerBatch2, maxPagesThisRun2).0.store == st2.store
    ensures !CronOutcome(st2, remote, cs, lastFailures2, pagesPerBatch2, maxPagesThisRun2).1.CronRaised?
  {
    assert Extends(st.store, st.store);
    RunCovers(Start(st.store, 1), remote, cs, MaxPages(maxPagesThisRun), PerBatch(pagesPerBatch));
    RunIdle(Start(st2.store, 1), remote, cs, MaxPages(maxPagesThisRun2), PerBatch(pagesPerBatch2));
  }
}
