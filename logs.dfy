/**
 * The log table of models/secret_code_log.py and its manual sync from the
 * remote "Secret Code Logs" list: pages of 100 rows from page 1, rows
 * deduplicated by their remote `name` (stored as `frappe_name`), until the
 * first empty page.
 */
module Logs {
  import opened Wrappers
  import opened Text
  import opened Remote

  const LogPageSize: nat := 100

  datatype LogStatus = LogValidated | LogRejected

  /** A `secret_code_log` record (latitude and longitude are not modelled). */
  datatype LogRecord = LogRecord(
    frappeName: Option<string>,
    frappeCreation: Option<string>,
    searchedCode: string,
    publicCode: Option<string>,
    status: LogStatus,
    isMatched: bool,
    failReason: Option<string>,
    successAttempt: int,
    message: Option<string>,
    description: Option<string>,
    searchIpAddress: Option<string>,
    searchDeviceDetails: Option<string>,
    searchCity: Option<string>,
    searchCountry: Option<string>)

  type LogTable = seq<LogRecord>

  /** A remote log row; an empty text stands for a missing or empty field. */
  datatype RemoteLog = RemoteLog(
    name: string,
    searchedCode: string,
    publicCode: string,
    creation: Value,
    status: Value,
    isMatched: Value,
    searchIpAddress: Option<string>,
    searchDeviceDetails: Option<string>,
    searchCity: Option<string>,
    searchCountry: Option<string>)

  const LogStatusWords: set<string> := {"validated", "rejected"}

  function LogStatusName(s: LogStatus): string
  {
    match s
    case LogValidated => "validated"
    case LogRejected => "rejected"
  }

  /** `_normalize_status` followed by `or "rejected"`: only a stripped, lower-cased "validated" validates. */
  function NormalizeLogStatus(v: Value): (s: LogStatus)
    ensures s == LogValidated <==> Truthy(v) && Lower(Strip(StrOf(v))) == "validated"
  {
    match Choice(v, LogStatusWords)
    case Some(w) => if w == "validated" then LogValidated else LogRejected
    case None => LogRejected
  }

  /** A status sent under its own name is kept. */
  lemma NormalizeLogStatusOfName(s: LogStatus)
    ensures NormalizeLogStatus(Str(LogStatusName(s))) == s
  {
    ChoiceOfWord(LogStatusName(s), LogStatusWords);
  }

  /** The `frappe_name`s already stored. */
  function FrappeNames(logs: LogTable): set<string>
  {
    set r | r in logs && r.frappeName.Some? :: r.frappeName.value
  }

  lemma FrappeNamesAppend(a: LogTable, b: LogTable)
    ensures FrappeNames(a + b) == FrappeNames(a) + FrappeNames(b)
  {
    assert forall r :: r in a + b <==> r in a || r in b;
  }

  /** A row the sync would keep: it has a name and a searched code. */
  predicate Eligible(rec: RemoteLog)
  {
    rec.name != [] && rec.searchedCode != []
  }

  /** The sync skips a row without a name, with a name already stored, or without a searched code. */
  predicate Skipped(rec: RemoteLog, stored: set<string>)
  {
    rec.name == [] || rec.name in stored || rec.searchedCode == []
  }

  /** The record created for a remote row; `int(is_matched or 0)` may raise. */
  function NewLogRow(rec: RemoteLog): (r: Result<LogRecord>)
    ensures r.Err? <==> IntOrZero(rec.isMatched).Err?
    ensures r.Ok? ==> r.value.frappeName == Some(rec.name) && r.value.searchedCode == rec.searchedCode
  {
    match IntOrZero(rec.isMatched)
    case Err(e) => Err(e)
    case Ok(n) =>
      Ok(LogRecord(
        frappeName := Some(rec.name),
        frappeCreation := NormalizeDatetime(rec.creation),
        searchedCode := rec.searchedCode,
        publicCode := if rec.publicCode == [] then None else Some(rec.publicCode),
        status := NormalizeLogStatus(rec.status),
        isMatched := n != 0,
        failReason := None,
        successAttempt := 0,
        message := None,
        description := None,
        searchIpAddress := rec.searchIpAddress,
        searchDeviceDetails := rec.searchDeviceDetails,
        searchCity := rec.searchCity,
        searchCountry := rec.searchCountry))
  }

  /**
   * The conversion of every row of the list. A row's conversion depends on
   * the row alone, so the page loop reads its page's conversions from here.
   */
  function Conversions(remote: seq<RemoteLog>): seq<Result<LogRecord>>
  {
    seq(|remote|, k requires 0 <= k < |remote| => NewLogRow(remote[k]))
  }

  /** `cs` holds one conversion per row of `rs`; a successful one carries the row's name and searched code. */
  predicate Converts(rs: seq<RemoteLog>, cs: seq<Result<LogRecord>>)
  {
    && |cs| == |rs|
    && forall k | 0 <= k < |rs| :: cs[k].Ok? ==>
      cs[k].value.frappeName == Some(rs[k].name) && cs[k].value.searchedCode == rs[k].searchedCode
  }

  lemma ConversionsConvert(remote: seq<RemoteLog>)
    ensures Converts(remote, Conversions(remote))
  {
  }

  /** Converting a page is taking the page of the conversions. */
  lemma ConversionsPage(remote: seq<RemoteLog>, page: nat)
    requires page >= 1
    ensures Page(Conversions(remote), page, LogPageSize) == Conversions(Page(remote, page, LogPageSize))
  {
    var cs := Page(Conversions(remote), page, LogPageSize);
    PageSameLength(Conversions(remote), remote, page, LogPageSize);
    forall j | 0 <= j < |cs| ensures cs[j] == Conversions(Page(remote, page, LogPageSize))[j] {
      PageEntry(remote, page, LogPageSize, (page - 1) * LogPageSize + j);
    }
  }

  /** The page of a converted list is converted. */
  lemma ConvertsPage(remote: seq<RemoteLog>, cs: seq<Result<LogRecord>>, page: nat)
    requires page >= 1 && Converts(remote, cs)
    ensures Converts(Page(remote, page, LogPageSize), Page(cs, page, LogPageSize))
  {
    PageSameLength(remote, cs, page, LogPageSize);
    var rs := Page(remote, page, LogPageSize);
    forall j | 0 <= j < |rs| ensures Page(cs, page, LogPageSize)[j].Ok? ==>
      Page(cs, page, LogPageSize)[j].value.frappeName == Some(rs[j].name) &&
      Page(cs, page, LogPageSize)[j].value.searchedCode == rs[j].searchedCode
    {
      PageEntry(remote, page, LogPageSize, (page - 1) * LogPageSize + j);
      PageEntry(cs, page, LogPageSize, (page - 1) * LogPageSize + j);
    }
  }

  /** Which rows of a page the page skips. */
  function Skips(rs: seq<RemoteLog>, stored: set<string>): (r: seq<bool>)
    ensures |r| == |rs| && forall j | 0 <= j < |rs| :: r[j] == Skipped(rs[j], stored)
  {
    seq(|rs|, j requires 0 <= j < |rs| => Skipped(rs[j], stored))
  }

  /** The `create_vals` of one page, checked against the names stored before the page. */
  function PageRows(rs: seq<RemoteLog>, cs: seq<Result<LogRecord>>, stored: set<string>): Result<LogTable>
    requires |cs| == |rs|
  {
    Collect(Skips(rs, stored), cs)
  }

  /**
   * The rows of a page carry fresh names and searched codes, and every row
   * that is not skipped has its name among them.
   */
  lemma PageRowsNames(rs: seq<RemoteLog>, cs: seq<Result<LogRecord>>, stored: set<string>)
    requires Converts(rs, cs) && PageRows(rs, cs, stored).Ok?
    ensures forall row | row in PageRows(rs, cs, stored).value ::
      row.frappeName.Some? && row.frappeName.value !in stored && row.searchedCode != []
    ensures forall j | 0 <= j < |rs| && !Skipped(rs[j], stored) :: rs[j].name in FrappeNames(PageRows(rs, cs, stored).value)
  {
    var rows := PageRows(rs, cs, stored).value;
    CollectRows(Skips(rs, stored), cs);
    forall j | 0 <= j < |rs| && !Skipped(rs[j], stored) ensures rs[j].name in FrappeNames(rows) {
      assert cs[j].value in rows && cs[j].value.frappeName == Some(rs[j].name);
    }
  }

  /** One page: convert the rows it does not skip, one by one, then create them all. */
  method ApplyLogPage(logs: LogTable, records: seq<RemoteLog>) returns (logsAfter: LogTable, error: Option<string>)
    ensures var r := PageRows(records, Conversions(records), FrappeNames(logs));
      && (r.Ok? ==> error.None? && logsAfter == logs + r.value)
      && (r.Err? ==> error == Some(r.error) && logsAfter == logs)
  {
    // `existing_names`: only the page's own names are ever looked up in it
    var existing := FrappeNames(logs);
    ghost var cs := Conversions(records);
    ghost var skips := Skips(records, existing);
    var createVals: LogTable := [];
    for i := 0 to |records|
      invariant Collect(skips[..i], cs[..i]) == Ok(createVals)
    {
      var rec := records[i];
      assert skips[..i + 1][..i] == skips[..i] && cs[..i + 1][..i] == cs[..i];
      if !Skipped(rec, existing) {
        var row := NewLogRow(rec);
        assert cs[i] == row;
        if row.Err? {
          CollectErrorStays(skips, cs, i + 1);
          return logs, Some(row.error);
        }
        createVals := createVals + [row.value];
      }
    }
    assert skips[..|records|] == skips && cs[..|records|] == cs;
    return logs + createVals, None;
  }

  /**
   * `sync_frappe_logs` from page `page` on, over the list `remote` whose
   * rows convert to `cs`. The runtime cap is reached before page
   * `deadline + 1`. The run stops at the cap, when a fetch fails
   * `MaxRetries` times, at the first empty page, or when a row raises;
   * otherwise it creates the page's rows and goes on with the next page.
   */
  function SyncLogsFrom(logs: LogTable, remote: seq<RemoteLog>, cs: seq<Result<LogRecord>>, page: nat,
                        failures: map<nat, nat>, deadline: nat): (r: (LogTable, SyncEnd))
    requires page >= 1 && |cs| == |remote|
    ensures |logs| <= |r.0| && r.0[..|logs|] == logs
    decreases |remote| - (page - 1) * LogPageSize
  {
    if page > deadline then (logs, Paused)
    else if Failures(failures, page) >= MaxRetries then (logs, FetchFailed)
    else
      var records := Page(remote, page, LogPageSize);
      if records == [] then (logs, Finished)
      else
        match PageRowsAt(remote, cs, page, FrappeNames(logs))
        case Err(e) => (logs, Raised(e))
        case Ok(rows) =>
          SyncLogsFrom(logs + rows, remote, cs, page + 1, failures, deadline)
  }

  /** The rows page `page` creates, when it does not raise. */
  function PageRowsAt(remote: seq<RemoteLog>, cs: seq<Result<LogRecord>>, page: nat, stored: set<string>): Result<LogTable>
    requires page >= 1 && |cs| == |remote|
  {
    PageSameLength(cs, remote, page, LogPageSize);
    PageRows(Page(remote, page, LogPageSize), Page(cs, page, LogPageSize), stored)
  }

  /** The page is applied and the run moves on to the next one. */
  predicate Continues(logs: LogTable, remote: seq<RemoteLog>, cs: seq<Result<LogRecord>>, page: nat,
                      failures: map<nat, nat>, deadline: nat)
    requires page >= 1 && |cs| == |remote|
  {
    && page <= deadline
    && Failures(failures, page) < MaxRetries
    && Page(remote, page, LogPageSize) != []
    && PageRowsAt(remote, cs, page, FrappeNames(logs)).Ok?
  }

  /** One iteration of the page loop: where it stops, or how it goes on. */
  lemma SyncLogsStep(logs: LogTable, remote: seq<RemoteLog>, cs: seq<Result<LogRecord>>, page: nat,
                     failures: map<nat, nat>, deadline: nat)
    requires page >= 1 && |cs| == |remote|
    ensures var r := SyncLogsFrom(logs, remote, cs, page, failures, deadline);
      var records := Page(remote, page, LogPageSize);
      && (page > deadline ==> r == (logs, Paused))
      && (page <= deadline && Failures(failures, page) >= MaxRetries ==> r == (logs, FetchFailed))
      && (page <= deadline && Failures(failures, page) < MaxRetries && records == [] ==> r == (logs, Finished))
      && (page <= deadline && Failures(failures, page) < MaxRetries && records != [] &&
          PageRowsAt(remote, cs, page, FrappeNames(logs)).Err?
          ==> r == (logs, Raised(PageRowsAt(remote, cs, page, FrappeNames(logs)).error)))
    ensures Continues(logs, remote, cs, page, failures, deadline) ==>
      SyncLogsFrom(logs, remote, cs, page, failures, deadline) ==
      SyncLogsFrom(logs + PageRowsAt(remote, cs, page, FrappeNames(logs)).value, remote, cs, page + 1, failures, deadline)
  {
  }

  /** A page that is applied hands the run on to the next page. */
  lemma SyncLogsNext(logs: LogTable, remote: seq<RemoteLog>, cs: seq<Result<LogRecord>>, page: nat,
                     failures: map<nat, nat>, deadline: nat)
    requires page >= 1 && |cs| == |remote| && Continues(logs, remote, cs, page, failures, deadline)
    ensures SyncLogsFrom(logs, remote, cs, page, failures, deadline) ==
      SyncLogsFrom(logs + PageRowsAt(remote, cs, page, FrappeNames(logs)).value, remote, cs, page + 1, failures, deadline)
  {
  }

  /** A page that is not applied ends the run with the table as it was. */
  lemma SyncLogsHalts(logs: LogTable, remote: seq<RemoteLog>, cs: seq<Result<LogRecord>>, page: nat,
                      failures: map<nat, nat>, deadline: nat)
    requires page >= 1 && |cs| == |remote| && !Continues(logs, remote, cs, page, failures, deadline)
    ensures SyncLogsFrom(logs, remote, cs, page, failures, deadline).0 == logs
  {
  }

  /** A run that reaches the empty page applied every nonempty page it fetched. */
  lemma FinishedContinues(logs: LogTable, remote: seq<RemoteLog>, cs: seq<Result<LogRecord>>, page: nat,
                          failures: map<nat, nat>, deadline: nat)
    requires page >= 1 && |cs| == |remote| && Page(remote, page, LogPageSize) != []
    requires SyncLogsFrom(logs, remote, cs, page, failures, deadline).1 == Finished
    ensures Continues(logs, remote, cs, page, failures, deadline)
  {
  }

  /** Every row past `logs` in `after` has a name not in `logs` and a searched code. */
  predicate FreshRows(logs: LogTable, after: LogTable)
  {
    forall k | |logs| <= k < |after| ::
      after[k].frappeName.Some? && after[k].frappeName.value !in FrappeNames(logs) && after[k].searchedCode != []
  }

  lemma FreshRowsTrans(a: LogTable, b: LogTable, c: LogTable)
    requires |a| <= |b| && b[..|a|] == a && |b| <= |c| && c[..|b|] == b
    requires FreshRows(a, b) && FreshRows(b, c)
    ensures FreshRows(a, c)
  {
    FrappeNamesPrefix(a, b);
    forall k | |a| <= k < |b| ensures c[k] == b[k] {
      assert c[..|b|][k] == c[k];
    }
  }

  lemma FrappeNamesPrefix(a: LogTable, b: LogTable)
    requires |a| <= |b| && b[..|a|] == a
    ensures FrappeNames(a) <= FrappeNames(b)
  {
    assert b == a + b[|a|..];
    FrappeNamesAppend(a, b[|a|..]);
  }

  /** A page's rows are fresh rows. */
  lemma PageRowsFresh(logs: LogTable, remote: seq<RemoteLog>, cs: seq<Result<LogRecord>>, page: nat)
    requires page >= 1 && Converts(remote, cs) && PageRowsAt(remote, cs, page, FrappeNames(logs)).Ok?
    ensures FreshRows(logs, logs + PageRowsAt(remote, cs, page, FrappeNames(logs)).value)
  {
    var rows := PageRowsAt(remote, cs, page, FrappeNames(logs)).value;
    ConvertsPage(remote, cs, page);
    PageRowsNames(Page(remote, page, LogPageSize), Page(cs, page, LogPageSize), FrappeNames(logs));
    forall k | |logs| <= k < |logs + rows| ensures (logs + rows)[k] in rows {
      assert (logs + rows)[k] == rows[k - |logs|];
    }
  }

  /** After the page rows and what follows them, the first rows are still there and the names have only grown. */
  lemma AppendsStep(logs: LogTable, rows: LogTable, after: LogTable)
    requires FreshRows(logs, logs + rows)
    requires |logs + rows| <= |after| && after[..|logs + rows|] == logs + rows && FreshRows(logs + rows, after)
    ensures |logs| <= |after| && after[..|logs|] == logs
    ensures FrappeNames(logs) <= FrappeNames(after)
    ensures FreshRows(logs, after)
  {
    assert after[..|logs|] == after[..|logs + rows|][..|logs|];
    assert (logs + rows)[..|logs|] == logs;
    FreshRowsTrans(logs, logs + rows, after);
    FrappeNamesPrefix(logs, after);
  }

  /** A run only appends, and what it appends are rows with a fresh name and a searched code. */
  lemma {:induction false} SyncLogsAppends(logs: LogTable, remote: seq<RemoteLog>, cs: seq<Result<LogRecord>>, page: nat,
                                          failures: map<nat, nat>, deadline: nat, after: LogTable)
    requires page >= 1 && Converts(remote, cs)
    requires SyncLogsFrom(logs, remote, cs, page, failures, deadline).0 == after
    ensures |logs| <= |after| && after[..|logs|] == logs
    ensures FrappeNames(logs) <= FrappeNames(after)
    ensures FreshRows(logs, after)
    decreases |remote| - (page - 1) * LogPageSize
  {
    if Continues(logs, remote, cs, page, failures, deadline) {
      var rows := PageRowsAt(remote, cs, page, FrappeNames(logs)).value;
      SyncLogsNext(logs, remote, cs, page, failures, deadline);
      PageRowsFresh(logs, remote, cs, page);
      SyncLogsAppends(logs + rows, remote, cs, page + 1, failures, deadline, after);
      AppendsStep(logs, rows, after);
    } else {
      SyncLogsHalts(logs, remote, cs, page, failures, deadline);
      assert after[..|logs|] == logs;
    }
  }

  /** `sync_frappe_logs`: the page loop with its retry loop. */
  method SyncLogs(logs: LogTable, remote: seq<RemoteLog>, failures: map<nat, nat>, deadline: nat)
    returns (logsAfter: LogTable, end: SyncEnd)
    ensures (logsAfter, end) == SyncLogsFrom(logs, remote, Conversions(remote), 1, failures, deadline)
  {
    ghost var cs := Conversions(remote);
    var page: nat := 1;
    var stop: Option<SyncEnd> := None;
    logsAfter := logs;
    while stop.None?
      invariant page >= 1
      invariant stop.None? ==>
        SyncLogsFrom(logsAfter, remote, cs, page, failures, deadline) == SyncLogsFrom(logs, remote, cs, 1, failures, deadline)
      invariant stop.Some? ==> (logsAfter, stop.value) == SyncLogsFrom(logs, remote, cs, 1, failures, deadline)
      decreases if stop.None? then 1 else 0, |remote| - (page - 1) * LogPageSize
    {
      SyncLogsStep(logsAfter, remote, cs, page, failures, deadline);
      if page > deadline {
        stop := Some(Paused);
      } else {
        var fetched := FetchPage(remote, page, LogPageSize, p => Failures(failures, p));
        if fetched.None? {
          stop := Some(FetchFailed);
        } else if fetched.value == [] {
          stop := Some(Finished);
        } else {
          ConversionsPage(remote, page);
          var next, error := ApplyLogPage(logsAfter, fetched.value);
          if error.Some? {
            stop := Some(Raised(error.value));
          } else {
            logsAfter, page := next, page + 1;
          }
        }
      }
    }
    end := stop.value;
  }

  /** A run that reaches the empty page has stored the name of every eligible row it passed. */
  lemma {:induction false} SyncStoresEveryName(logs: LogTable, remote: seq<RemoteLog>, cs: seq<Result<LogRecord>>,
                                              page: nat, failures: map<nat, nat>, deadline: nat, final: LogTable)
    requires page >= 1 && Converts(remote, cs)
    requires SyncLogsFrom(logs, remote, cs, page, failures, deadline) == (final, Finished)
    ensures forall k | (page - 1) * LogPageSize <= k < |remote| && Eligible(remote[k]) ::
      remote[k].name in FrappeNames(final)
    decreases |remote| - (page - 1) * LogPageSize
  {
    if Page(remote, page, LogPageSize) != [] {
      var rows := FinishedStep(logs, remote, cs, page, failures, deadline, final);
      SyncStoresEveryName(logs + rows, remote, cs, page + 1, failures, deadline, final);
      NamesThroughPage(logs, rows, remote, cs, page, page + 1, final);
    }
  }

  /** A run that reaches the empty page past a nonempty page applied that page and went on from the next. */
  lemma FinishedStep(logs: LogTable, remote: seq<RemoteLog>, cs: seq<Result<LogRecord>>, page: nat,
                     failures: map<nat, nat>, deadline: nat, final: LogTable) returns (rows: LogTable)
    requires page >= 1 && Converts(remote, cs) && Page(remote, page, LogPageSize) != []
    requires SyncLogsFrom(logs, remote, cs, page, failures, deadline) == (final, Finished)
    ensures PageRowsAt(remote, cs, page, FrappeNames(logs)) == Ok(rows)
    ensures SyncLogsFrom(logs + rows, remote, cs, page + 1, failures, deadline) == (final, Finished)
    ensures |logs + rows| <= |final| && final[..|logs + rows|] == logs + rows
  {
    FinishedContinues(logs, remote, cs, page, failures, deadline);
    rows := PageRowsAt(remote, cs, page, FrappeNames(logs)).value;
    SyncLogsNext(logs, remote, cs, page, failures, deadline);
    SyncLogsAppends(logs + rows, remote, cs, page + 1, failures, deadline, final);
  }

  /** The names stored by a page and by the rest of the run cover every eligible row from the page on. */
  lemma NamesThroughPage(logs: LogTable, rows: LogTable, remote: seq<RemoteLog>, cs: seq<Result<LogRecord>>,
                         page: nat, next: nat, final: LogTable)
    requires page >= 1 && next == page + 1 && Converts(remote, cs)
    requires PageRowsAt(remote, cs, page, FrappeNames(logs)) == Ok(rows)
    requires |logs + rows| <= |final| && final[..|logs + rows|] == logs + rows
    requires forall k | (next - 1) * LogPageSize <= k < |remote| && Eligible(remote[k]) ::
      remote[k].name in FrappeNames(final)
    ensures forall k | (page - 1) * LogPageSize <= k < |remote| && Eligible(remote[k]) ::
      remote[k].name in FrappeNames(final)
  {
    ConvertsPage(remote, cs, page);
    PageNamesStored(logs, rows, Page(remote, page, LogPageSize), Page(cs, page, LogPageSize), final);
    PageThenRest(remote, page, FrappeNames(final));
  }

  /** The names of a page's eligible rows and of every later eligible row cover every eligible row from the page on. */
  lemma PageThenRest(remote: seq<RemoteLog>, page: nat, names: set<string>)
    requires page >= 1
    requires forall j | 0 <= j < |Page(remote, page, LogPageSize)| && Eligible(Page(remote, page, LogPageSize)[j]) ::
      Page(remote, page, LogPageSize)[j].name in names
    requires forall k | page * LogPageSize <= k < |remote| && Eligible(remote[k]) :: remote[k].name in names
    ensures forall k | (page - 1) * LogPageSize <= k < |remote| && Eligible(remote[k]) :: remote[k].name in names
  {
    var records := Page(remote, page, LogPageSize);
    var offset := (page - 1) * LogPageSize;
    assert records == [] || offset + |records| == page * LogPageSize || offset + |records| == |remote|;
    forall k | offset <= k < |remote| && Eligible(remote[k])
      ensures remote[k].name in names
    {
      if k < offset + |records| {
        PageEntry(remote, page, LogPageSize, k);
      } else {
        assert page * LogPageSize <= k;
      }
    }
  }

  /** After a page is applied, and whatever follows, the names of its eligible rows are stored. */
  lemma PageNamesStored(logs: LogTable, rows: LogTable, records: seq<RemoteLog>, rcs: seq<Result<LogRecord>>,
                        final: LogTable)
    requires Converts(records, rcs) && PageRows(records, rcs, FrappeNames(logs)) == Ok(rows)
    requires |logs + rows| <= |final| && final[..|logs + rows|] == logs + rows
    ensures forall j | 0 <= j < |records| && Eligible(records[j]) :: records[j].name in FrappeNames(final)
  {
    PageRowsNames(records, rcs, FrappeNames(logs));
    FrappeNamesAppend(logs, rows);
    FrappeNamesPrefix(logs + rows, final);
  }

  /** With every eligible name stored, a run creates nothing, whatever the fetches and the clock do. */
  lemma {:induction false} SyncIdle(logs: LogTable, remote: seq<RemoteLog>, cs: seq<Result<LogRecord>>, page: nat,
                                   failures: map<nat, nat>, deadline: nat)
    requires page >= 1 && |cs| == |remote|
    requires forall k | 0 <= k < |remote| && Eligible(remote[k]) :: remote[k].name in FrappeNames(logs)
    ensures SyncLogsFrom(logs, remote, cs, page, failures, deadline).0 == logs
    decreases |remote| - (page - 1) * LogPageSize
  {
    if Continues(logs, remote, cs, page, failures, deadline) {
      IdleStep(logs, remote, cs, page, failures, deadline);
      SyncIdle(logs, remote, cs, page + 1, failures, deadline);
    } else {
      SyncLogsHalts(logs, remote, cs, page, failures, deadline);
    }
  }

  /** A page whose eligible names are all stored is skipped whole, and the run goes on unchanged. */
  lemma IdleStep(logs: LogTable, remote: seq<RemoteLog>, cs: seq<Result<LogRecord>>, page: nat,
                 failures: map<nat, nat>, deadline: nat)
    requires page >= 1 && |cs| == |remote| && Continues(logs, remote, cs, page, failures, deadline)
    requires forall k | 0 <= k < |remote| && Eligible(remote[k]) :: remote[k].name in FrappeNames(logs)
    ensures SyncLogsFrom(logs, remote, cs, page, failures, deadline) ==
      SyncLogsFrom(logs, remote, cs, page + 1, failures, deadline)
  {
    var records := Page(remote, page, LogPageSize);
    var offset := (page - 1) * LogPageSize;
    assert forall j | 0 <= j < |records| :: records[j] == remote[offset + j];
    PageSameLength(cs, remote, page, LogPageSize);
    CollectAllSkipped(Skips(records, FrappeNames(logs)), Page(cs, page, LogPageSize));
    SyncLogsNext(logs, remote, cs, page, failures, deadline);
    assert logs + [] == logs;
  }

  /** A second run over unchanged remote data, after one that reached the empty page, adds nothing. */
  lemma SecondSyncAddsNothing(logs: LogTable, remote: seq<RemoteLog>, failures: map<nat, nat>, deadline: nat,
                              failures2: map<nat, nat>, deadline2: nat)
    requires SyncLogsFrom(logs, remote, Conversions(remote), 1, failures, deadline).1 == Finished
    ensures var once := SyncLogsFrom(logs, remote, Conversions(remote), 1, failures, deadline).0;
      SyncLogsFrom(once, remote, Conversions(remote), 1, failures2, deadline2).0 == once
  {
    var cs := Conversions(remote);
    var once := SyncLogsFrom(logs, remote, cs, 1, failures, deadline).0;
    ConversionsConvert(remote);
    SyncStoresEveryName(logs, remote, cs, 1, failures, deadline, once);
    SyncIdle(once, remote, cs, 1, failures2, deadline2);
  }

  /**
   * Without failed fetches, with time for every page up to the first empty
   * one, and with every `is_matched` readable, the run reaches the empty page.
   */
  lemma SyncLogsFinishes(logs: LogTable, remote: seq<RemoteLog>, failures: map<nat, nat>, deadline: nat)
    requires 1 <= deadline && |remote| <= (deadline - 1) * LogPageSize
    requires forall p | p in failures :: failures[p] < MaxRetries
    requires forall k | 0 <= k < |remote| :: IntOrZero(remote[k].isMatched).Ok?
    ensures SyncLogsFrom(logs, remote, Conversions(remote), 1, failures, deadline).1 == Finished
  {
    var cs := Conversions(remote);
    assert forall k | 0 <= k < |cs| :: cs[k].Ok?;
    SyncFinishes(logs, remote, cs, 1, failures, deadline);
  }

  /** The page loop reaches the empty page when every fetch succeeds in time and every row converts. */
  lemma {:induction false} SyncFinishes(logs: LogTable, remote: seq<RemoteLog>, cs: seq<Result<LogRecord>>, page: nat,
                                       failures: map<nat, nat>, deadline: nat)
    requires 1 <= page <= deadline && |remote| <= (deadline - 1) * LogPageSize && |cs| == |remote|
    requires forall p | p in failures :: failures[p] < MaxRetries
    requires forall k | 0 <= k < |cs| :: cs[k].Ok?
    ensures SyncLogsFrom(logs, remote, cs, page, failures, deadline).1 == Finished
    decreases |remote| - (page - 1) * LogPageSize
  {
    if Page(remote, page, LogPageSize) == [] {
      assert Failures(failures, page) < MaxRetries;
      assert SyncLogsFrom(logs, remote, cs, page, failures, deadline) == (logs, Finished);
    } else {
      var rows := ReadableStep(logs, remote, cs, page, failures, deadline);
      SyncFinishes(logs + rows, remote, cs, page + 1, failures, deadline);
    }
  }

  /** A nonempty page fetched in time whose rows all convert is applied, and the run goes on from the next. */
  lemma ReadableStep(logs: LogTable, remote: seq<RemoteLog>, cs: seq<Result<LogRecord>>, page: nat,
                     failures: map<nat, nat>, deadline: nat) returns (rows: LogTable)
    requires 1 <= page <= deadline && |cs| == |remote| && Page(remote, page, LogPageSize) != []
    requires forall p | p in failures :: failures[p] < MaxRetries
    requires forall k | 0 <= k < |cs| :: cs[k].Ok?
    ensures SyncLogsFrom(logs, remote, cs, page, failures, deadline) ==
      SyncLogsFrom(logs + rows, remote, cs, page + 1, failures, deadline)
  {
    assert Failures(failures, page) < MaxRetries;
    PageReadable(remote, cs, page, FrappeNames(logs));
    rows := PageRowsAt(remote, cs, page, FrappeNames(logs)).value;
    SyncLogsNext(logs, remote, cs, page, failures, deadline);
  }

  /** A page of rows that all convert does not raise. */
  lemma PageReadable(remote: seq<RemoteLog>, cs: seq<Result<LogRecord>>, page: nat, stored: set<string>)
    requires page >= 1 && |cs| == |remote|
    requires forall k | 0 <= k < |cs| :: cs[k].Ok?
    ensures PageRowsAt(remote, cs, page, stored).Ok?
  {
    PageSameLength(cs, remote, page, LogPageSize);
    var pcs := Page(cs, page, LogPageSize);
    forall j | 0 <= j < |pcs| ensures pcs[j].Ok? {
      PageEntry(cs, page, LogPageSize, (page - 1) * LogPageSize + j);
    }
    CollectError(Skips(Page(remote, page, LogPageSize), stored), pcs);
  }
}
