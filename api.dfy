/**
 * The two endpoints of controllers/controllers.py and the API-key gate in
 * front of them: lead intake (`/secret_codes/product_offer_lead`) and code
 * validation (`/secret_codes/get_secret_code_by_secret_code`). A response
 * is a status with a message, or with the record read back after a
 * successful validation; the payload comes already decoded.
 */
module Api {
  import opened Wrappers
  import opened Text
  import opened Codes
  import opened Logs
  import opened Leads

  const MaxSearchesSuccess: int := 3

  datatype Body = Message(text: string) | CodeData(code: CodeRecord)

  datatype Response = Response(status: int, body: Body)

  // ---------------------------------------------------------------
  // `_require_api_key`
  // ---------------------------------------------------------------

  /** The configured `secret_codes.api_key`, the `X-API-Key` header and the payload's `api_key`. */
  datatype Credentials = Credentials(configured: Option<string>, header: Option<string>, payloadKey: Option<string>)

  /** The key the request presents: the header when it is set, else the payload's. */
  function Presented(c: Credentials): Option<string>
  {
    if Given(c.header) then c.header else c.payloadKey
  }

  /** `None` lets the request through; otherwise the error response. */
  function RequireApiKey(c: Credentials): (r: Option<Response>)
    ensures r.None? <==> Given(c.configured) && Presented(c) == c.configured
    ensures r == Some(Response(500, Message("api_key_not_configured"))) <==> !Given(c.configured)
    ensures r.Some? && Given(c.configured) ==> r == Some(Response(401, Message("invalid_api_key")))
  {
    if !Given(c.configured) then Some(Response(500, Message("api_key_not_configured")))
    else if Presented(c) != c.configured then Some(Response(401, Message("invalid_api_key")))
    else None
  }

  /** A header, once set, decides alone: the payload's key is not looked at. */
  lemma HeaderDecides(c: Credentials, payloadKey: Option<string>)
    requires Given(c.header)
    ensures RequireApiKey(c) == RequireApiKey(c.(payloadKey := payloadKey))
    ensures Given(c.configured) ==> (RequireApiKey(c).None? <==> c.header == c.configured)
  {
  }

  /** Without a header, an empty one included, the payload's key decides. */
  lemma PayloadKeyDecides(c: Credentials)
    requires !Given(c.header)
    ensures RequireApiKey(c) == RequireApiKey(c.(header := None))
    ensures Given(c.configured) ==> (RequireApiKey(c).None? <==> c.payloadKey == c.configured)
  {
  }

  // ---------------------------------------------------------------
  // Lookups
  // ---------------------------------------------------------------

  datatype Column = SecretColumn | PublicColumn

  function ColumnOf(r: CodeRecord, col: Column): string
  {
    match col
    case SecretColumn => r.secretCode
    case PublicColumn => r.publicCode
  }

  /**
   * `search([(column, '=', code)], limit=1)`: the first record holding
   * `code` in the column (the unique constraints leave at most one).
   */
  function Find(store: Store, col: Column, code: string): (r: Option<nat>)
    ensures r.Some? ==> r.value < |store| && ColumnOf(store[r.value], col) == code
    ensures r.Some? ==> forall j | 0 <= j < r.value :: ColumnOf(store[j], col) != code
    ensures r.None? <==> forall j | 0 <= j < |store| :: ColumnOf(store[j], col) != code
    decreases |store|
  {
    if store == [] then None
    else if ColumnOf(store[0], col) == code then Some(0)
    else
      var rest := Find(store[1..], col, code);
      assert forall j | 1 <= j < |store| :: store[1..][j - 1] == store[j];
      if rest.None? then None else Some(rest.value + 1)
  }

  /** The lookup finds a record exactly when the code is stored in the column. */
  lemma FindStored(store: Store, code: string)
    ensures Find(store, SecretColumn, code).Some? <==> code in SecretCodes(store)
    ensures Find(store, PublicColumn, code).Some? <==> code in PublicCodes(store)
  {
    if code in SecretCodes(store) {
      var r :| r in store && r.secretCode == code;
      var j :| 0 <= j < |store| && store[j] == r;
      assert ColumnOf(store[j], SecretColumn) == code;
    }
    if code in PublicCodes(store) {
      var r :| r in store && r.publicCode == code;
      var j :| 0 <= j < |store| && store[j] == r;
      assert ColumnOf(store[j], PublicColumn) == code;
    }
    var f := Find(store, SecretColumn, code);
    if f.Some? {
      assert store[f.value] in store;
    }
    var g := Find(store, PublicColumn, code);
    if g.Some? {
      assert store[g.value] in store;
    }
  }

  /** The first record holding the code is the one found. */
  lemma FindFirst(store: Store, col: Column, code: string, i: nat)
    requires i < |store| && ColumnOf(store[i], col) == code
    requires forall j | 0 <= j < i :: ColumnOf(store[j], col) != code
    ensures Find(store, col, code) == Some(i)
  {
  }

  /** The lookup, as a scan over the table. */
  method Lookup(store: Store, col: Column, code: string) returns (r: Option<nat>)
    ensures r == Find(store, col, code)
  {
    var i := 0;
    while i < |store|
      invariant i <= |store|
      invariant forall j | 0 <= j < i :: ColumnOf(store[j], col) != code
    {
      if ColumnOf(store[i], col) == code {
        FindFirst(store, col, code, i);
        return Some(i);
      }
      i := i + 1;
    }
    return None;
  }

  /** Under the unique constraint the lookup of a stored secret code finds its record. */
  lemma UniqueFind(store: Store, i: nat)
    requires i < |store| && Unique(store)
    ensures Find(store, SecretColumn, store[i].secretCode) == Some(i)
  {
    FindFirst(store, SecretColumn, store[i].secretCode, i);
  }

  // ---------------------------------------------------------------
  // `get_secret_code_by_secret_code`
  // ---------------------------------------------------------------

  /** The payload's `secret_code`, `city` and `country`, the remote address and the `User-Agent` header. */
  datatype Search = Search(secretCode: string, city: Option<string>, country: Option<string>,
                           ip: Option<string>, userAgent: Option<string>)

  /** Sixteen hexadecimal digits, in either case. */
  predicate IsHex16(s: string)
  {
    |s| == 16 && forall i | 0 <= i < |s| :: IsHexDigit(s[i])
  }

  /** The format check, on the input stripped of surrounding whitespace. */
  predicate WellFormed(input: string)
  {
    IsHex16(Strip(input)) || IsSecretCode(Strip(input))
  }

  /** The branch a validation request takes, with the record it concerns. */
  datatype Verdict =
    | MissingCode
    | BadFormat(publicMatch: Option<nat>)
    | NotFound(publicMatch: Option<nat>)
    | InactiveCode(index: nat)
    | LimitReached(index: nat)
    | Validates(index: nat)

  /** The verdict concerns a record of the table (or none). */
  predicate Targets(store: Store, v: Verdict)
  {
    match v
    case MissingCode => true
    case BadFormat(m) => m.Some? ==> m.value < |store|
    case NotFound(m) => m.Some? ==> m.value < |store|
    case InactiveCode(i) => i < |store|
    case LimitReached(i) => i < |store|
    case Validates(i) => i < |store|
  }

  /**
   * The ordered checks: a code is required; then its format; then the
   * lookups, both with the input as sent (not stripped); then the
   * record's status; then the limit of three successful searches.
   * `wellFormed` is the format check's answer, `WellFormed(code)`.
   */
  function Classify(store: Store, code: string, wellFormed: bool): (v: Verdict)
    ensures v == MissingCode <==> code == []
    ensures Targets(store, v)
  {
    if code == [] then MissingCode
    else if !wellFormed then BadFormat(Find(store, PublicColumn, code))
    else
      match Find(store, SecretColumn, code)
      case None => NotFound(Find(store, PublicColumn, code))
      case Some(i) =>
        if store[i].status == Inactive then InactiveCode(i)
        else if store[i].successCount + 1 > MaxSearchesSuccess || store[i].limitReached then LimitReached(i)
        else Validates(i)
  }

  /** The request is refused for its format exactly when the code, stripped, has neither form. */
  lemma ClassifyFormat(store: Store, code: string, ok: bool)
    ensures var v := Classify(store, code, ok);
      && (v.BadFormat? <==> code != [] && !ok)
      && (v.BadFormat? || v.NotFound? ==> v.publicMatch == Find(store, PublicColumn, code))
  {
  }

  /**
   * A well-formed code is looked up: not found, or found and refused as
   * inactive, refused at the limit, or validated.
   */
  lemma ClassifyFound(store: Store, code: string, ok: bool)
    ensures var v := Classify(store, code, ok);
      && (v.NotFound? <==> code != [] && ok && Find(store, SecretColumn, code).None?)
      && (v.InactiveCode? || v.LimitReached? || v.Validates? ==>
            && code != [] && ok
            && Find(store, SecretColumn, code) == Some(v.index)
            && (v.InactiveCode? <==> store[v.index].status == Inactive)
            && (v.Validates? <==> store[v.index].status == Active && store[v.index].successCount + 1 <= MaxSearchesSuccess
                                    && !store[v.index].limitReached))
  {
  }

  /** The decision, with the two lookups as scans. */
  method Decide(store: Store, code: string) returns (v: Verdict)
    ensures v == Classify(store, code, WellFormed(code))
  {
    if code == [] {
      return MissingCode;
    }
    if !WellFormed(code) {
      var publicMatch := Lookup(store, PublicColumn, code);
      return BadFormat(publicMatch);
    }
    var publicMatch := Lookup(store, PublicColumn, code);
    var secret := Lookup(store, SecretColumn, code);
    if secret.None? {
      return NotFound(publicMatch);
    }
    var i := secret.value;
    var nextSuccess := store[i].successCount + 1;
    if store[i].status == Inactive {
      return InactiveCode(i);
    }
    if nextSuccess > MaxSearchesSuccess || store[i].limitReached {
      return LimitReached(i);
    }
    return Validates(i);
  }

  /** The record a verdict writes, at time `now`: a failure, a failure at the limit, or a success. */
  function Written(store: Store, v: Verdict, now: nat): Store
    requires Targets(store, v)
  {
    match v
    case InactiveCode(i) => store[i := store[i].(failCount := store[i].failCount + 1, writeDate := now)]
    case LimitReached(i) => store[i := store[i].(failCount := store[i].failCount + 1, limitReached := true, writeDate := now)]
    case Validates(i) =>
      store[i := store[i].(successCount := store[i].successCount + 1, validateStatus := Validated, writeDate := now)]
    case _ => store
  }

  /** The log every request past the first check creates. */
  function SearchLog(s: Search, publicCode: Option<string>, status: LogStatus, matched: bool, failReason: Option<string>,
                     successAttempt: int, message: string, description: string): LogRecord
  {
    LogRecord(
      frappeName := None,
      frappeCreation := None,
      searchedCode := s.secretCode,
      publicCode := publicCode,
      status := status,
      isMatched := matched,
      failReason := failReason,
      successAttempt := successAttempt,
      message := Some(message),
      description := Some(description),
      searchIpAddress := s.ip,
      searchDeviceDetails := s.userAgent,
      searchCity := s.city,
      searchCountry := s.country)
  }

  /** The public code of the record a verdict names. */
  function MatchedCode(store: Store, m: Option<nat>): Option<string>
    requires m.Some? ==> m.value < |store|
  {
    if m.Some? then Some(store[m.value].publicCode) else None
  }

  /** The logs a request appends: none without a code, one otherwise, for the code as sent. */
  function LogsFor(store: Store, s: Search, v: Verdict): (r: seq<LogRecord>)
    requires Targets(store, v)
    ensures |r| == (if v == MissingCode then 0 else 1)
    ensures forall l | l in r :: l.searchedCode == s.secretCode
    ensures forall l | l in r :: l.status == LogValidated <==> v.Validates?
  {
    match v
    case MissingCode => []
    case BadFormat(m) =>
      if m.Some? then
        [SearchLog(s, MatchedCode(store, m), LogRejected, true, Some("searched_by_public_code"), 0,
                   "searched_by_public_code", "Searched by public code with invalid format.")]
      else
        [SearchLog(s, None, LogRejected, false, Some("invalid_code_format"), 0,
                   "invalid_code_format", "Invalid secret code format.")]
    case NotFound(m) =>
      if m.Some? then
        [SearchLog(s, MatchedCode(store, m), LogRejected, true, Some("search_public_code"), 0,
                   "search_public_code", "Secret code not found; public code matched.")]
      else
        [SearchLog(s, None, LogRejected, false, Some("not_found"), 0, "Secret code not found", "Secret code not found.")]
    case InactiveCode(i) =>
      [SearchLog(s, Some(store[i].publicCode), LogRejected, true, Some("inactive"), 0,
                 "Secret code is inactive", "Secret code is inactive.")]
    case LimitReached(i) =>
      [SearchLog(s, Some(store[i].publicCode), LogRejected, true, Some("search_limit_reached"), 0,
                 "Search limit reached", "Search limit reached.")]
    case Validates(i) =>
      [SearchLog(s, Some(store[i].publicCode), LogValidated, true, None, store[i].successCount + 1,
                 "validated", "Secret code validated.")]
  }

  /** The response to a verdict; a validation answers with the record as written. */
  function ResponseFor(store: Store, v: Verdict, now: nat): (r: Response)
    requires Targets(store, v)
    ensures r.status == 200 <==> v.Validates?
    ensures r.body.CodeData? <==> v.Validates?
  {
    match v
    case MissingCode => Response(400, Message("Secret code is required."))
    case BadFormat(m) =>
      if m.Some? then Response(400, Message("searched_by_public_code")) else Response(400, Message("invalid_code_format"))
    case NotFound(m) =>
      if m.Some? then Response(400, Message("search_public_code")) else Response(404, Message("Secret code not found"))
    case InactiveCode(_) => Response(403, Message("Secret code is inactive"))
    case LimitReached(_) => Response(403, Message("Search limit reached"))
    case Validates(i) => Response(200, CodeData(Written(store, v, now)[i]))
  }

  /**
   * The endpoint: the gate, then the checks, then the write and the log of
   * the branch taken. It returns the response, the table and the log
   * table after the request.
   */
  method GetSecretCodeBySecretCode(store: Store, logs: LogTable, creds: Credentials, s: Search, now: nat)
    returns (response: Response, storeAfter: Store, logsAfter: LogTable)
    ensures RequireApiKey(creds).Some? ==>
      response == RequireApiKey(creds).value && storeAfter == store && logsAfter == logs
    ensures RequireApiKey(creds).None? ==>
      var v := Classify(store, s.secretCode, WellFormed(s.secretCode));
      && response == ResponseFor(store, v, now)
      && storeAfter == Written(store, v, now)
      && logsAfter == logs + LogsFor(store, s, v)
  {
    var authError := RequireApiKey(creds);
    if authError.Some? {
      return authError.value, store, logs;
    }
    var v := Decide(store, s.secretCode);
    storeAfter := WriteVerdict(store, v, now);
    logsAfter := logs + LogsFor(store, s, v);
    response := ResponseFor(store, v, now);
  }

  /** The write of the branch taken, on the record the verdict names. */
  method WriteVerdict(store: Store, v: Verdict, now: nat) returns (storeAfter: Store)
    requires Targets(store, v)
    ensures storeAfter == Written(store, v, now)
  {
    storeAfter := store;
    match v {
      case InactiveCode(i) =>
        storeAfter := store[i := store[i].(failCount := store[i].failCount + 1, writeDate := now)];
      case LimitReached(i) =>
        storeAfter := store[i := store[i].(failCount := store[i].failCount + 1, limitReached := true, writeDate := now)];
      case Validates(i) =>
        storeAfter := store[i := store[i].(successCount := store[i].successCount + 1, validateStatus := Validated,
                                           writeDate := now)];
      case _ =>
    }
  }

  /** A request with no table write: a missing, malformed or unknown code. */
  predicate Rejected(v: Verdict)
  {
    v.MissingCode? || v.BadFormat? || v.NotFound?
  }

  /**
   * The writes keep every code: only the record a verdict finds changes,
   * and a rejected request changes nothing; the table stays unique.
   */
  lemma WrittenKeepsCodes(store: Store, v: Verdict, now: nat)
    requires Targets(store, v)
    ensures var w := Written(store, v, now);
      && |w| == |store|
      && (Rejected(v) ==> w == store)
      && (!Rejected(v) ==> forall j | 0 <= j < |store| && j != v.index :: w[j] == store[j])
      && (forall j | 0 <= j < |store| :: w[j].secretCode == store[j].secretCode && w[j].publicCode == store[j].publicCode)
      && (Unique(store) ==> Unique(w))
  {
    var w := Written(store, v, now);
    assert forall j | 0 <= j < |store| :: w[j].secretCode == store[j].secretCode && w[j].publicCode == store[j].publicCode;
  }

  /**
   * Field by field: an inactive code only counts a failure (its limit
   * flag untouched), a refusal at the limit counts a failure and sets the
   * flag, and a success counts the success and validates the code.
   */
  lemma BranchWrites(store: Store, v: Verdict, now: nat)
    requires Targets(store, v) && !Rejected(v)
    ensures var i := v.index; var r := store[i]; var w := Written(store, v, now)[i];
      && w.writeDate == now
      && w.status == r.status && w.secretCode == r.secretCode && w.publicCode == r.publicCode
      && w.batchCode == r.batchCode && w.isPrinted == r.isPrinted
      && (v.InactiveCode? ==> w.failCount == r.failCount + 1 && w.successCount == r.successCount
                               && w.limitReached == r.limitReached && w.validateStatus == r.validateStatus)
      && (v.LimitReached? ==> w.failCount == r.failCount + 1 && w.successCount == r.successCount
                               && w.limitReached && w.validateStatus == r.validateStatus)
      && (v.Validates? ==> w.failCount == r.failCount && w.successCount == r.successCount + 1
                            && w.limitReached == r.limitReached && w.validateStatus == Validated)
  {
  }

  /** The validation log records the attempt as the new success count. */
  lemma SuccessAttemptLogged(store: Store, s: Search, v: Verdict, now: nat)
    requires Targets(store, v) && v.Validates?
    ensures LogsFor(store, s, v)[0].successAttempt == Written(store, v, now)[v.index].successCount
    ensures ResponseFor(store, v, now) == Response(200, CodeData(Written(store, v, now)[v.index]))
  {
  }

  /**
   * Counters never go down and the status never changes; a success count
   * within the limit stays within it, and a reached limit stays reached.
   */
  lemma CountersBounded(store: Store, code: string, ok: bool, now: nat)
    ensures var w := Written(store, Classify(store, code, ok), now);
      forall j | 0 <= j < |store| ::
        && w[j].successCount >= store[j].successCount
        && w[j].failCount >= store[j].failCount
        && (store[j].successCount <= MaxSearchesSuccess ==> w[j].successCount <= MaxSearchesSuccess)
        && (store[j].limitReached ==> w[j].limitReached)
        && w[j].status == store[j].status
  {
    ClassifyFound(store, code, ok);
  }

  /** A malformed or unknown code changes no record; it is logged as matched exactly when it is a public code. */
  lemma RejectedLookupsChangeNothing(store: Store, s: Search, ok: bool, now: nat)
    requires s.secretCode != [] && (!ok || s.secretCode !in SecretCodes(store))
    ensures var v := Classify(store, s.secretCode, ok);
      && Rejected(v)
      && Written(store, v, now) == store
      && ResponseFor(store, v, now).status in {400, 404}
      && (LogsFor(store, s, v)[0].isMatched <==> s.secretCode in PublicCodes(store))
      && (ResponseFor(store, v, now).status == 404 <==> ok && s.secretCode !in PublicCodes(store))
  {
    ClassifyFormat(store, s.secretCode, ok);
    ClassifyFound(store, s.secretCode, ok);
    FindStored(store, s.secretCode);
  }

  /** The status check precedes the limit check: an inactive code is refused as inactive and its flag kept. */
  lemma InactiveBeforeLimit(store: Store, s: Search, now: nat, i: nat)
    requires i < |store| && store[i].secretCode == s.secretCode && s.secretCode != []
    requires Unique(store) && store[i].status == Inactive
    ensures Classify(store, s.secretCode, true) == InactiveCode(i)
    ensures Written(store, Classify(store, s.secretCode, true), now)[i].limitReached == store[i].limitReached
  {
    UniqueFind(store, i);
  }

  /** An active code validates while it has fewer than three successes and no limit flag; the fourth search is refused. */
  lemma ThreeSuccesses(store: Store, s: Search, now: nat, i: nat)
    requires i < |store| && store[i].secretCode == s.secretCode && s.secretCode != []
    requires Unique(store) && store[i].status == Active
    ensures Classify(store, s.secretCode, true) == Validates(i) <==>
      store[i].successCount < MaxSearchesSuccess && !store[i].limitReached
    ensures store[i].successCount >= MaxSearchesSuccess ==>
      Classify(store, s.secretCode, true) == LimitReached(i) &&
      Written(store, Classify(store, s.secretCode, true), now)[i].limitReached
  {
    UniqueFind(store, i);
  }

  /**
   * The lookups use the input as sent: a well-formed code sent with
   * surrounding whitespace finds no record in a table of twelve-digit
   * secret codes.
   */
  lemma PaddedCodeNotFound(store: Store, s: Search, ok: bool, now: nat)
    requires s.secretCode != Strip(s.secretCode)
    requires forall j | 0 <= j < |store| :: IsSecretCode(store[j].secretCode)
    ensures Rejected(Classify(store, s.secretCode, ok))
    ensures Written(store, Classify(store, s.secretCode, ok), now) == store
  {
    var f := Find(store, SecretColumn, s.secretCode);
    if f.Some? {
      StripDigits(store[f.value].secretCode);
    }
    ClassifyFound(store, s.secretCode, ok);
  }

  // ---------------------------------------------------------------
  // `create_product_offer_lead`
  // ---------------------------------------------------------------

  /** The payload's `email`, `mobile_number`, `secret_code`, `verification_log` and `source`. */
  datatype LeadRequest = LeadRequest(email: Option<string>, mobile: Option<string>, secretCode: Option<string>,
                                     verificationLog: Option<string>, source: Option<string>)

  /** `value or False`. */
  function Key(s: string): (r: Option<string>)
    ensures r.None? <==> s == []
    ensures Searched(r) == r
  {
    if s == [] then None else Some(s)
  }

  /** The search domain: the given email, the given mobile, or either. */
  function IntakePair(req: LeadRequest): Pair
  {
    Pair(Key(Cleaned(req.email)), Key(Cleaned(req.mobile)))
  }

  /** The values of the lead created for a first subscription; an unknown source takes the field's default. */
  function IntakeVals(req: LeadRequest): LeadVals
  {
    LeadVals(
      frappeName := None,
      frappeCreation := None,
      secretCode := Cleaned(req.secretCode),
      verificationLog := req.verificationLog,
      email := Key(Cleaned(req.email)),
      mobile := Key(Cleaned(req.mobile)),
      source := if req.source.Some? then SourceOf(req.source.value) else ProductVerification)
  }

  /** The largest `subscribed_count` among the leads the search finds; `None` when it finds none. */
  function MaxCount(leads: LeadTable, p: Pair): (m: Option<int>)
    ensures m.None? <==> forall i | 0 <= i < |leads| :: !InGroup(leads[i], p)
    ensures m.Some? ==> exists i | 0 <= i < |leads| :: InGroup(leads[i], p) && leads[i].subscribedCount == m.value
    ensures m.Some? ==> forall i | 0 <= i < |leads| && InGroup(leads[i], p) :: leads[i].subscribedCount <= m.value
  {
    if leads == [] then None
    else
      var k := |leads| - 1;
      var m := MaxCount(leads[..k], p);
      assert forall i | 0 <= i < k :: leads[..k][i] == leads[i];
      if !InGroup(leads[k], p) then m
      else if m.None? || m.value < leads[k].subscribedCount then Some(leads[k].subscribedCount)
      else m
  }

  /** A repeat subscription: every lead found gets `count` and the rating and stars it implies; no other lead changes. */
  function Resubscribed(leads: LeadTable, p: Pair, count: int): (r: LeadTable)
    ensures |r| == |leads|
  {
    seq(|leads|, i requires 0 <= i < |leads| => if InGroup(leads[i], p) then WithMetrics(leads[i], count) else leads[i])
  }

  /** The response and the lead table a lead request leaves. */
  function Intake(leads: LeadTable, req: LeadRequest): (Response, LeadTable)
  {
    var email, mobile := Cleaned(req.email), Cleaned(req.mobile);
    if email == [] && mobile == [] then (Response(400, Message("email_or_mobile_required")), leads)
    else if Cleaned(req.secretCode) == [] then (Response(400, Message("secret_code_required")), leads)
    else Registered(leads, IntakePair(req), IntakeVals(req))
  }

  /** Past the checks: a repeat subscription of the group `p`, or a new lead with `vals`. */
  function Registered(leads: LeadTable, p: Pair, vals: LeadVals): (Response, LeadTable)
  {
    match MaxCount(leads, p)
    case Some(m) => (Response(200, Message("already_registered")), Resubscribed(leads, p, m + 1))
    case None => (Response(200, Message("created")), UpdateAll(leads + NewLeads([vals]), [p]))
  }

  /** The largest count among the leads found, as a scan. */
  method FindMaxCount(leads: LeadTable, p: Pair) returns (m: Option<int>)
    ensures m == MaxCount(leads, p)
  {
    m := None;
    for i := 0 to |leads|
      invariant m == MaxCount(leads[..i], p)
    {
      assert leads[..i + 1][..i] == leads[..i];
      if InGroup(leads[i], p) && (m.None? || m.value < leads[i].subscribedCount) {
        m := Some(leads[i].subscribedCount);
      }
    }
    assert leads[..|leads|] == leads;
  }

  /** The repeat subscription's write, lead by lead. */
  method WriteRepeat(leads: LeadTable, p: Pair, count: int) returns (after: LeadTable)
    ensures after == Resubscribed(leads, p, count)
  {
    after := leads;
    for i := 0 to |leads|
      invariant |after| == |leads|
      invariant forall j | 0 <= j < i :: after[j] == Resubscribed(leads, p, count)[j]
      invariant forall j | i <= j < |leads| :: after[j] == leads[j]
    {
      if InGroup(leads[i], p) {
        after := after[i := WithMetrics(leads[i], count)];
      }
    }
  }

  /** A one-element set is enumerated by that element alone. */
  lemma EnumeratesOne(order: seq<Pair>, p: Pair)
    requires Enumerates(order, {p})
    ensures order == [p]
  {
    assert |order| == 1;
    assert order[0] in order;
  }

  /** The creation of a first subscription's lead, through the `create` hook. */
  method CreateFirst(leads: LeadTable, vals: LeadVals) returns (after: LeadTable)
    ensures after == UpdateAll(leads + NewLeads([vals]), [Pair(vals.email, vals.mobile)])
  {
    ghost var order;
    after, order := CreateLeads(leads, [vals], false);
    assert PairsOf([vals]) == {Pair(vals.email, vals.mobile)};
    EnumeratesOne(order, Pair(vals.email, vals.mobile));
  }

  /** The endpoint: the gate, then the intake. */
  method CreateProductOfferLead(leads: LeadTable, creds: Credentials, req: LeadRequest)
    returns (response: Response, after: LeadTable)
    ensures RequireApiKey(creds).Some? ==> response == RequireApiKey(creds).value && after == leads
    ensures RequireApiKey(creds).None? ==> (response, after) == Intake(leads, req)
  {
    var authError := RequireApiKey(creds);
    if authError.Some? {
      return authError.value, leads;
    }
    var email := Cleaned(req.email);
    var mobile := Cleaned(req.mobile);
    var secretCode := Cleaned(req.secretCode);
    if email == [] && mobile == [] {
      return Response(400, Message("email_or_mobile_required")), leads;
    }
    if secretCode == [] {
      return Response(400, Message("secret_code_required")), leads;
    }
    var source := if req.source.Some? then SourceOf(req.source.value) else ProductVerification;
    response, after := RegisterLead(leads, Pair(Key(email), Key(mobile)),
                                    LeadVals(None, None, secretCode, req.verificationLog, Key(email), Key(mobile), source));
  }

  /** The search for the group, then the repeat write or the creation. */
  method RegisterLead(leads: LeadTable, p: Pair, vals: LeadVals) returns (response: Response, after: LeadTable)
    requires p == Pair(vals.email, vals.mobile)
    ensures (response, after) == Registered(leads, p, vals)
  {
    var current := FindMaxCount(leads, p);
    if current.Some? {
      after := WriteRepeat(leads, p, current.value + 1);
      return Response(200, Message("already_registered")), after;
    }
    after := CreateFirst(leads, vals);
    return Response(200, Message("created")), after;
  }

  /** The input checks come first, in this order, and change nothing. */
  lemma IntakeChecks(leads: LeadTable, req: LeadRequest)
    ensures Cleaned(req.email) == [] && Cleaned(req.mobile) == [] ==>
      Intake(leads, req) == (Response(400, Message("email_or_mobile_required")), leads)
    ensures (Cleaned(req.email) != [] || Cleaned(req.mobile) != []) && Cleaned(req.secretCode) == [] ==>
      Intake(leads, req) == (Response(400, Message("secret_code_required")), leads)
  {
  }

  /** The repeat write gives every lead found the same count, with the rating and stars it implies. */
  lemma ResubscribedShape(leads: LeadTable, p: Pair, count: int)
    ensures var r := Resubscribed(leads, p, count);
      && (forall i | 0 <= i < |leads| && InGroup(leads[i], p) ::
            && r[i].subscribedCount == count
            && r[i].rating == Min(MaxRating, count)
            && FilledCount(r[i].stars) == Clamped(r[i].rating)
            && Unmetered(r[i]) == Unmetered(leads[i]))
      && (forall i | 0 <= i < |leads| && !InGroup(leads[i], p) :: r[i] == leads[i])
  {
    StarsRoundTrip(Min(MaxRating, count));
  }

  /**
   * A repeat subscription creates nothing: every lead found gets the
   * largest count among them plus one, which raises each of their counts;
   * no other lead changes.
   */
  lemma RepeatSubscription(leads: LeadTable, req: LeadRequest)
    requires Cleaned(req.email) != [] || Cleaned(req.mobile) != []
    requires Cleaned(req.secretCode) != []
    requires exists i | 0 <= i < |leads| :: InGroup(leads[i], IntakePair(req))
    ensures var p := IntakePair(req);
      && Intake(leads, req).0 == Response(200, Message("already_registered"))
      && MaxCount(leads, p).Some?
      && Intake(leads, req).1 == Resubscribed(leads, p, MaxCount(leads, p).value + 1)
      && (forall i | 0 <= i < |leads| && InGroup(leads[i], p) ::
            Intake(leads, req).1[i].subscribedCount > leads[i].subscribedCount)
  {
    var p := IntakePair(req);
    ResubscribedShape(leads, p, MaxCount(leads, p).value + 1);
  }

  /** No lead is found: the count is zero. */
  lemma {:induction false} CountNone(leads: LeadTable, p: Pair)
    requires forall i | 0 <= i < |leads| :: !InGroup(leads[i], p)
    ensures GroupSize(leads, p) == 0
  {
    if leads != [] {
      var k := |leads| - 1;
      assert forall i | 0 <= i < k :: leads[..k][i] == leads[i];
      CountNone(leads[..k], p);
    }
  }

  /**
   * A first subscription creates exactly one lead, with the cleaned values,
   * the source only when it is one of the three, and a count of one; no
   * other lead changes.
   */
  lemma FirstSubscription(leads: LeadTable, req: LeadRequest)
    requires Cleaned(req.email) != [] || Cleaned(req.mobile) != []
    requires Cleaned(req.secretCode) != []
    requires forall i | 0 <= i < |leads| :: !InGroup(leads[i], IntakePair(req))
    ensures var (response, after) := Intake(leads, req);
      && response == Response(200, Message("created"))
      && |after| == |leads| + 1
      && after[..|leads|] == leads
      && after[|leads|] == WithMetrics(NewLead(IntakeVals(req)), 1)
      && after[|leads|].secretCode == Cleaned(req.secretCode)
      && (req.source.Some? && req.source.value in SourceNames ==> SourceName(after[|leads|].source) == req.source.value)
      && (req.source.None? || req.source.value !in SourceNames ==> after[|leads|].source == ProductVerification)
  {
    var p := IntakePair(req);
    var v := IntakeVals(req);
    CreateOneLead(leads, v);
    CountNone(leads, p);
    var after := Intake(leads, req).1;
    assert forall i | 0 <= i < |leads| :: after[i] == leads[i];
    assert after[..|leads|] == leads;
  }
}
