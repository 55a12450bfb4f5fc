/**
 * `sync_frappe_product_offer_leads` of models/product_offer_lead.py: pages
 * of 100 remote "Product Offer Leads" from page 1, rows deduplicated by
 * their remote `name` (stored as `frappe_name`), until the first empty
 * page; each page's new leads go through the create hook, and a run that
 * is not ended by a failed fetch closes with the full metrics recompute.
 *
 * The page loop is specified on the leads' values (`SyncLeadsFrom`
 * appends the new leads with their default metrics); the metrics the
 * create hook writes in between are then replaced by the recompute.
 */
module LeadsSync {
  import opened Wrappers
  import opened Text
  import opened Remote
  import opened Leads

  const LeadPageSize: nat := 100

  /** A remote lead row; an empty text stands for a missing or empty field. */
  datatype RemoteLead = RemoteLead(
    name: string,
    secretCode: string,
    verificationLog: Option<string>,
    email: string,
    mobile: string,
    source: string,
    creation: Value)

  /** The `frappe_name`s already stored. */
  function LeadNames(leads: LeadTable): set<string>
  {
    set l | l in leads && l.frappeName.Some? :: l.frappeName.value
  }

  lemma LeadNamesAppend(a: LeadTable, b: LeadTable)
    ensures LeadNames(a + b) == LeadNames(a) + LeadNames(b)
  {
    assert forall l :: l in a + b <==> l in a || l in b;
  }

  /** Metrics do not touch names. */
  lemma LeadNamesSameKeys(a: LeadTable, b: LeadTable)
    requires SameExceptMetrics(a, b)
    ensures LeadNames(a) == LeadNames(b)
  {
    forall x | x in LeadNames(a) ensures x in LeadNames(b) {
      var i :| 0 <= i < |a| && a[i].frappeName == Some(x);
      assert Unmetered(a[i]) == Unmetered(b[i]);
    }
    forall x | x in LeadNames(b) ensures x in LeadNames(a) {
      var i :| 0 <= i < |b| && b[i].frappeName == Some(x);
      assert Unmetered(a[i]) == Unmetered(b[i]);
    }
  }

  /** A row the sync would keep: it has a name and a secret code. */
  predicate Eligible(rec: RemoteLead)
  {
    rec.name != [] && rec.secretCode != []
  }

  /** The sync skips a row without a name, with a name already stored, or without a secret code. */
  predicate Skipped(rec: RemoteLead, stored: set<string>)
  {
    rec.name == [] || rec.name in stored || rec.secretCode == []
  }

  /** The values of the lead created for a remote row. */
  function NewLeadVals(rec: RemoteLead): LeadVals
  {
    LeadVals(
      frappeName := Some(rec.name),
      frappeCreation := NormalizeDatetime(rec.creation),
      secretCode := rec.secretCode,
      verificationLog := rec.verificationLog,
      email := if rec.email == [] then None else Some(rec.email),
      mobile := if rec.mobile == [] then None else Some(rec.mobile),
      source := SourceOf(rec.source))
  }

  /** A row's lead takes the row's name, keys and source, and `creation` cut to 19 characters. */
  lemma NewLeadValsShape(rec: RemoteLead)
    ensures var v := NewLeadVals(rec);
      && v.frappeName == Some(rec.name) && v.secretCode == rec.secretCode
      && (v.email.None? <==> rec.email == []) && (v.mobile.None? <==> rec.mobile == [])
      && (rec.source in SourceNames ==> SourceName(v.source) == rec.source)
      && (rec.source !in SourceNames ==> v.source == ProductVerification)
      && (v.frappeCreation.None? <==> !Truthy(rec.creation))
      && (v.frappeCreation.Some? ==> |v.frappeCreation.value| <= 19)
  {
  }

  /** The values of every row of the list (a row's values depend on the row alone). */
  function Conversions(remote: seq<RemoteLead>): seq<LeadVals>
  {
    seq(|remote|, k requires 0 <= k < |remote| => NewLeadVals(remote[k]))
  }

  /** `cs` holds one lead per row of `rs`, carrying the row's name and secret code. */
  predicate Converts(rs: seq<RemoteLead>, cs: seq<LeadVals>)
  {
    && |cs| == |rs|
    && forall k | 0 <= k < |rs| :: cs[k].frappeName == Some(rs[k].name) && cs[k].secretCode == rs[k].secretCode
  }

  lemma ConversionsConvert(remote: seq<RemoteLead>)
    ensures Converts(remote, Conversions(remote))
  {
  }

  /** Converting a page is taking the page of the conversions. */
  lemma ConversionsPage(remote: seq<RemoteLead>, page: nat)
    requires page >= 1
    ensures Page(Conversions(remote), page, LeadPageSize) == Conversions(Page(remote, page, LeadPageSize))
  {
    var cs := Page(Conversions(remote), page, LeadPageSize);
    PageSameLength(Conversions(remote), remote, page, LeadPageSize);
    forall j | 0 <= j < |cs| ensures cs[j] == Conversions(Page(remote, page, LeadPageSize))[j] {
      PageEntry(remote, page, LeadPageSize, (page - 1) * LeadPageSize + j);
    }
  }

  /** The page of a converted list is converted. */
  lemma ConvertsPage(remote: seq<RemoteLead>, cs: seq<LeadVals>, page: nat)
    requires page >= 1 && Converts(remote, cs)
    ensures Converts(Page(remote, page, LeadPageSize), Page(cs, page, LeadPageSize))
  {
    PageSameLength(remote, cs, page, LeadPageSize);
    var rs := Page(remote, page, LeadPageSize);
    forall j | 0 <= j < |rs| ensures
      Page(cs, page, LeadPageSize)[j].frappeName == Some(rs[j].name) &&
      Page(cs, page, LeadPageSize)[j].secretCode == rs[j].secretCode
    {
      PageEntry(remote, page, LeadPageSize, (page - 1) * LeadPageSize + j);
      PageEntry(cs, page, LeadPageSize, (page - 1) * LeadPageSize + j);
    }
  }

  /** The `create_vals` of one page, checked against the names stored before the page. */
  function PageVals(rs: seq<RemoteLead>, cs: seq<LeadVals>, stored: set<string>): (r: seq<LeadVals>)
    requires |cs| == |rs|
    ensures |r| <= |rs|
  {
    if rs == [] then []
    else
      var n := |rs| - 1;
      PageVals(rs[..n], cs[..n], stored) + (if Skipped(rs[n], stored) then [] else [cs[n]])
  }

  function ValsNames(vals: seq<LeadVals>): set<string>
  {
    set v | v in vals && v.frappeName.Some? :: v.frappeName.value
  }

  lemma ValsNamesAppend(a: seq<LeadVals>, b: seq<LeadVals>)
    ensures ValsNames(a + b) == ValsNames(a) + ValsNames(b)
  {
    assert forall v :: v in a + b <==> v in a || v in b;
  }

  /** The names of the created leads are the names in their values. */
  lemma LeadNamesNew(vals: seq<LeadVals>)
    ensures LeadNames(NewLeads(vals)) == ValsNames(vals)
  {
    var ls := NewLeads(vals);
    forall x | x in ValsNames(vals) ensures x in LeadNames(ls) {
      var v :| v in vals && v.frappeName == Some(x);
      var k :| 0 <= k < |vals| && vals[k] == v;
      assert ls[k].frappeName == Some(x);
    }
  }

  /** A page whose rows are all skipped creates nothing. */
  lemma {:induction false} PageValsAllSkipped(rs: seq<RemoteLead>, cs: seq<LeadVals>, stored: set<string>)
    requires |cs| == |rs|
    requires forall j | 0 <= j < |rs| :: Skipped(rs[j], stored)
    ensures PageVals(rs, cs, stored) == []
  {
    if rs != [] {
      var n := |rs| - 1;
      assert forall j | 0 <= j < n :: rs[..n][j] == rs[j];
      PageValsAllSkipped(rs[..n], cs[..n], stored);
    }
  }

  /**
   * The leads of a page carry fresh names and secret codes, and every row
   * that is not skipped has its name among them.
   */
  lemma {:induction false} PageValsNames(rs: seq<RemoteLead>, cs: seq<LeadVals>, stored: set<string>)
    requires Converts(rs, cs)
    ensures forall v | v in PageVals(rs, cs, stored) ::
      v.frappeName.Some? && v.frappeName.value !in stored && v.secretCode != []
    ensures forall j | 0 <= j < |rs| && !Skipped(rs[j], stored) :: rs[j].name in ValsNames(PageVals(rs, cs, stored))
  {
    if rs != [] {
      var n := |rs| - 1;
      assert forall j | 0 <= j < n :: rs[..n][j] == rs[j] && cs[..n][j] == cs[j];
      PageValsNames(rs[..n], cs[..n], stored);
      var vals := PageVals(rs[..n], cs[..n], stored);
      if !Skipped(rs[n], stored) {
        ValsNamesAppend(vals, [cs[n]]);
        assert cs[n] in [cs[n]];
      } else {
        assert PageVals(rs, cs, stored) == vals + [];
      }
    }
  }

  /** One page: collect the values of the rows it does not skip. */
  method LeadPageVals(leads: LeadTable, records: seq<RemoteLead>) returns (vals: seq<LeadVals>)
    ensures vals == PageVals(records, Conversions(records), LeadNames(leads))
  {
    // `existing_names`: only the page's own names are ever looked up in it
    var existing := LeadNames(leads);
    ghost var cs := Conversions(records);
    vals := [];
    for i := 0 to |records|
      invariant vals == PageVals(records[..i], cs[..i], existing)
    {
      var rec := records[i];
      assert records[..i + 1][..i] == records[..i] && cs[..i + 1][..i] == cs[..i];
      if !Skipped(rec, existing) {
        vals := vals + [NewLeadVals(rec)];
      }
    }
    assert records[..|records|] == records && cs[..|records|] == cs;
  }

  /**
   * The page loop from page `page` on, over the list `remote` whose rows
   * convert to `cs`, on lead values: the new leads are appended with their
   * default metrics. The runtime cap is reached before page `deadline + 1`.
   */
  function SyncLeadsFrom(leads: LeadTable, remote: seq<RemoteLead>, cs: seq<LeadVals>, page: nat,
                         failures: map<nat, nat>, deadline: nat): (r: (LeadTable, SyncEnd))
    requires page >= 1 && |cs| == |remote|
    ensures |leads| <= |r.0| && r.0[..|leads|] == leads
    decreases |remote| - (page - 1) * LeadPageSize
  {
    if page > deadline then (leads, Paused)
    else if Failures(failures, page) >= MaxRetries then (leads, FetchFailed)
    else if Page(remote, page, LeadPageSize) == [] then (leads, Finished)
    else SyncLeadsFrom(leads + NewLeads(PageValsAt(remote, cs, page, LeadNames(leads))), remote, cs, page + 1, failures, deadline)
  }

  /** The values page `page` creates. */
  function PageValsAt(remote: seq<RemoteLead>, cs: seq<LeadVals>, page: nat, stored: set<string>): seq<LeadVals>
    requires page >= 1 && |cs| == |remote|
  {
    PageSameLength(cs, remote, page, LeadPageSize);
    PageVals(Page(remote, page, LeadPageSize), Page(cs, page, LeadPageSize), stored)
  }

  /** The leads page `page` appends to `leads`. */
  function PageLeads(leads: LeadTable, remote: seq<RemoteLead>, cs: seq<LeadVals>, page: nat): LeadTable
    requires page >= 1 && |cs| == |remote|
  {
    NewLeads(PageValsAt(remote, cs, page, LeadNames(leads)))
  }

  /** The page is applied and the run moves on to the next one. */
  predicate Continues(remote: seq<RemoteLead>, page: nat, failures: map<nat, nat>, deadline: nat)
    requires page >= 1
  {
    page <= deadline && Failures(failures, page) < MaxRetries && Page(remote, page, LeadPageSize) != []
  }

  /** One iteration of the page loop: where it stops, or how it goes on. */
  lemma SyncLeadsStep(leads: LeadTable, remote: seq<RemoteLead>, cs: seq<LeadVals>, page: nat,
                      failures: map<nat, nat>, deadline: nat)
    requires page >= 1 && |cs| == |remote|
    ensures var r := SyncLeadsFrom(leads, remote, cs, page, failures, deadline);
      && (page > deadline ==> r == (leads, Paused))
      && (page <= deadline && Failures(failures, page) >= MaxRetries ==> r == (leads, FetchFailed))
      && (page <= deadline && Failures(failures, page) < MaxRetries && Page(remote, page, LeadPageSize) == []
          ==> r == (leads, Finished))
    ensures Continues(remote, page, failures, deadline) ==>
      SyncLeadsFrom(leads, remote, cs, page, failures, deadline) ==
      SyncLeadsFrom(leads + PageLeads(leads, remote, cs, page), remote, cs, page + 1, failures, deadline)
  {
  }

  /** A page that is applied hands the run on to the next page. */
  lemma SyncLeadsNext(leads: LeadTable, remote: seq<RemoteLead>, cs: seq<LeadVals>, page: nat,
                      failures: map<nat, nat>, deadline: nat)
    requires page >= 1 && |cs| == |remote| && Continues(remote, page, failures, deadline)
    ensures SyncLeadsFrom(leads, remote, cs, page, failures, deadline) ==
      SyncLeadsFrom(leads + PageLeads(leads, remote, cs, page), remote, cs, page + 1, failures, deadline)
  {
  }

  /** A page that is not applied ends the run with the table as it was. */
  lemma SyncLeadsHalts(leads: LeadTable, remote: seq<RemoteLead>, cs: seq<LeadVals>, page: nat,
                       failures: map<nat, nat>, deadline: nat)
    requires page >= 1 && |cs| == |remote| && !Continues(remote, page, failures, deadline)
    ensures SyncLeadsFrom(leads, remote, cs, page, failures, deadline).0 == leads
  {
  }

  /** Every lead past `leads` in `after` has a name not in `leads` and a secret code. */
  predicate FreshLeads(leads: LeadTable, after: LeadTable)
  {
    forall k | |leads| <= k < |after| ::
      after[k].frappeName.Some? && after[k].frappeName.value !in LeadNames(leads) && after[k].secretCode != []
  }

  lemma LeadNamesPrefix(a: LeadTable, b: LeadTable)
    requires |a| <= |b| && b[..|a|] == a
    ensures LeadNames(a) <= LeadNames(b)
  {
    assert b == a + b[|a|..];
    LeadNamesAppend(a, b[|a|..]);
  }

  lemma FreshLeadsTrans(a: LeadTable, b: LeadTable, c: LeadTable)
    requires |a| <= |b| && b[..|a|] == a && |b| <= |c| && c[..|b|] == b
    requires FreshLeads(a, b) && FreshLeads(b, c)
    ensures FreshLeads(a, c)
  {
    LeadNamesPrefix(a, b);
    forall k | |a| <= k < |b| ensures c[k] == b[k] {
      assert c[..|b|][k] == c[k];
    }
  }

  /** A page's leads are fresh leads. */
  lemma PageFresh(leads: LeadTable, remote: seq<RemoteLead>, cs: seq<LeadVals>, page: nat)
    requires page >= 1 && Converts(remote, cs)
    ensures FreshLeads(leads, leads + PageLeads(leads, remote, cs, page))
  {
    var vals := PageValsAt(remote, cs, page, LeadNames(leads));
    var rows := NewLeads(vals);
    ConvertsPage(remote, cs, page);
    PageValsNames(Page(remote, page, LeadPageSize), Page(cs, page, LeadPageSize), LeadNames(leads));
    forall k | |leads| <= k < |leads + rows| ensures vals[k - |leads|] in vals && (leads + rows)[k] == NewLead(vals[k - |leads|]) {
      assert (leads + rows)[k] == rows[k - |leads|];
    }
  }

  /** After the page leads and what follows them, the first leads are still there and the names have only grown. */
  lemma AppendsStep(leads: LeadTable, rows: LeadTable, after: LeadTable)
    requires FreshLeads(leads, leads + rows)
    requires |leads + rows| <= |after| && after[..|leads + rows|] == leads + rows && FreshLeads(leads + rows, after)
    ensures |leads| <= |after| && after[..|leads|] == leads
    ensures LeadNames(leads) <= LeadNames(after)
    ensures FreshLeads(leads, after)
  {
    assert after[..|leads|] == after[..|leads + rows|][..|leads|];
    assert (leads + rows)[..|leads|] == leads;
    FreshLeadsTrans(leads, leads + rows, after);
    LeadNamesPrefix(leads, after);
  }

  /** A run only appends, and what it appends are leads with a fresh name and a secret code. */
  lemma {:induction false} SyncLeadsAppends(leads: LeadTable, remote: seq<RemoteLead>, cs: seq<LeadVals>, page: nat,
                                           failures: map<nat, nat>, deadline: nat, after: LeadTable)
    requires page >= 1 && Converts(remote, cs)
    requires SyncLeadsFrom(leads, remote, cs, page, failures, deadline).0 == after
    ensures |leads| <= |after| && after[..|leads|] == leads
    ensures LeadNames(leads) <= LeadNames(after)
    ensures FreshLeads(leads, after)
    decreases |remote| - (page - 1) * LeadPageSize
  {
    if Continues(remote, page, failures, deadline) {
      var rows := PageLeads(leads, remote, cs, page);
      SyncLeadsNext(leads, remote, cs, page, failures, deadline);
      PageFresh(leads, remote, cs, page);
      SyncLeadsAppends(leads + rows, remote, cs, page + 1, failures, deadline, after);
      AppendsStep(leads, rows, after);
    } else {
      SyncLeadsHalts(leads, remote, cs, page, failures, deadline);
      assert after[..|leads|] == leads;
    }
  }

  /** One page through the create hook: the new leads, then the refresh of their pairs. */
  lemma CreateKeepsLeads(leads: LeadTable, spec: LeadTable, vals: seq<LeadVals>, order: seq<Pair>, after: LeadTable)
    requires SameExceptMetrics(leads, spec) && after == UpdateAll(leads + NewLeads(vals), order)
    ensures SameExceptMetrics(after, spec + NewLeads(vals))
  {
    UpdateAllKeepsLeads(leads + NewLeads(vals), order);
  }

  /** One fetched page: its leads' values, created through the create hook when there are any. */
  method CreatePageLeads(leads: LeadTable, ghost spec: LeadTable, ghost remote: seq<RemoteLead>, ghost cs: seq<LeadVals>,
                         page: nat, records: seq<RemoteLead>) returns (after: LeadTable)
    requires page >= 1 && cs == Conversions(remote) && records == Page(remote, page, LeadPageSize)
    requires SameExceptMetrics(leads, spec)
    ensures SameExceptMetrics(after, spec + PageLeads(spec, remote, cs, page))
  {
    ConversionsPage(remote, page);
    LeadNamesSameKeys(leads, spec);
    var vals := LeadPageVals(leads, records);
    assert NewLeads(vals) == PageLeads(spec, remote, cs, page);
    if vals != [] {
      ghost var order;
      after, order := CreateLeads(leads, vals, false);
      CreateKeepsLeads(leads, spec, vals, order, after);
    } else {
      after := leads;
      assert spec + NewLeads(vals) == spec;
    }
  }

  /**
   * `sync_frappe_product_offer_leads`: the page loop with its retry loop,
   * each page's leads created through the create hook, then the recompute
   * unless a fetch failed for good. When a fetch fails the leads created so
   * far stay, with whatever metrics the hook gave them.
   */
  method SyncLeads(leads: LeadTable, remote: seq<RemoteLead>, failures: map<nat, nat>, deadline: nat)
    returns (leadsAfter: LeadTable, end: SyncEnd)
    ensures var r := SyncLeadsFrom(leads, remote, Conversions(remote), 1, failures, deadline);
      && end == r.1
      && (end != FetchFailed ==> leadsAfter == Recompute(r.0))
      && (end == FetchFailed ==> SameExceptMetrics(leadsAfter, r.0))
  {
    ghost var cs := Conversions(remote);
    ghost var spec := leads;
    var page: nat := 1;
    var stop: Option<SyncEnd> := None;
    leadsAfter := leads;
    while stop.None?
      invariant page >= 1 && SameExceptMetrics(leadsAfter, spec)
      invariant stop.None? ==>
        SyncLeadsFrom(spec, remote, cs, page, failures, deadline) == SyncLeadsFrom(leads, remote, cs, 1, failures, deadline)
      invariant stop.Some? ==> (spec, stop.value) == SyncLeadsFrom(leads, remote, cs, 1, failures, deadline)
      decreases if stop.None? then 1 else 0, |remote| - (page - 1) * LeadPageSize
    {
      SyncLeadsStep(spec, remote, cs, page, failures, deadline);
      if page > deadline {
        stop := Some(Paused);
      } else {
        var fetched := FetchPage(remote, page, LeadPageSize, p => Failures(failures, p));
        if fetched.None? {
          stop := Some(FetchFailed);
        } else if fetched.value == [] {
          stop := Some(Finished);
        } else {
          leadsAfter := CreatePageLeads(leadsAfter, spec, remote, cs, page, fetched.value);
          spec, page := spec + PageLeads(spec, remote, cs, page), page + 1;
        }
      }
    }
    end := stop.value;
    if end != FetchFailed {
      RecomputeSameKeys(leadsAfter, spec);
      leadsAfter := Recompute(leadsAfter);
    }
  }

  /** A run that reaches the empty page has stored the name of every eligible row it passed. */
  lemma {:induction false} SyncStoresEveryName(leads: LeadTable, remote: seq<RemoteLead>, cs: seq<LeadVals>,
                                              page: nat, failures: map<nat, nat>, deadline: nat, final: LeadTable)
    requires page >= 1 && Converts(remote, cs)
    requires SyncLeadsFrom(leads, remote, cs, page, failures, deadline) == (final, Finished)
    ensures forall k | (page - 1) * LeadPageSize <= k < |remote| && Eligible(remote[k]) ::
      remote[k].name in LeadNames(final)
    decreases |remote| - (page - 1) * LeadPageSize
  {
    if Page(remote, page, LeadPageSize) != [] {
      var rows := FinishedStep(leads, remote, cs, page, failures, deadline, final);
      SyncStoresEveryName(leads + rows, remote, cs, page + 1, failures, deadline, final);
      NamesThroughPage(leads, rows, remote, cs, page, page + 1, final);
    }
  }

  /** A run that reaches the empty page past a nonempty page applied that page and went on from the next. */
  lemma FinishedStep(leads: LeadTable, remote: seq<RemoteLead>, cs: seq<LeadVals>, page: nat,
                     failures: map<nat, nat>, deadline: nat, final: LeadTable) returns (rows: LeadTable)
    requires page >= 1 && Converts(remote, cs) && Page(remote, page, LeadPageSize) != []
    requires SyncLeadsFrom(leads, remote, cs, page, failures, deadline) == (final, Finished)
    ensures rows == PageLeads(leads, remote, cs, page)
    ensures SyncLeadsFrom(leads + rows, remote, cs, page + 1, failures, deadline) == (final, Finished)
    ensures |leads + rows| <= |final| && final[..|leads + rows|] == leads + rows
  {
    assert Continues(remote, page, failures, deadline);
    rows := PageLeads(leads, remote, cs, page);
    SyncLeadsNext(leads, remote, cs, page, failures, deadline);
    SyncLeadsAppends(leads + rows, remote, cs, page + 1, failures, deadline, final);
  }

  /** The names stored by a page and by the rest of the run cover every eligible row from the page on. */
  lemma NamesThroughPage(leads: LeadTable, rows: LeadTable, remote: seq<RemoteLead>, cs: seq<LeadVals>,
                         page: nat, next: nat, final: LeadTable)
    requires page >= 1 && next == page + 1 && Converts(remote, cs)
    requires rows == PageLeads(leads, remote, cs, page)
    requires |leads + rows| <= |final| && final[..|leads + rows|] == leads + rows
    requires forall k | (next - 1) * LeadPageSize <= k < |remote| && Eligible(remote[k]) ::
      remote[k].name in LeadNames(final)
    ensures forall k | (page - 1) * LeadPageSize <= k < |remote| && Eligible(remote[k]) ::
      remote[k].name in LeadNames(final)
  {
    ConvertsPage(remote, cs, page);
    PageNamesStored(leads, rows, Page(remote, page, LeadPageSize), Page(cs, page, LeadPageSize), final);
    PageThenRest(remote, page, LeadNames(final));
  }

  /** The names of a page's eligible rows and of every later eligible row cover every eligible row from the page on. */
  lemma PageThenRest(remote: seq<RemoteLead>, page: nat, names: set<string>)
    requires page >= 1
    requires forall j | 0 <= j < |Page(remote, page, LeadPageSize)| && Eligible(Page(remote, page, LeadPageSize)[j]) ::
      Page(remote, page, LeadPageSize)[j].name in names
    requires forall k | page * LeadPageSize <= k < |remote| && Eligible(remote[k]) :: remote[k].name in names
    ensures forall k | (page - 1) * LeadPageSize <= k < |remote| && Eligible(remote[k]) :: remote[k].name in names
  {
    var records := Page(remote, page, LeadPageSize);
    var offset := (page - 1) * LeadPageSize;
    assert records == [] || offset + |records| == page * LeadPageSize || offset + |records| == |remote|;
    forall k | offset <= k < |remote| && Eligible(remote[k])
      ensures remote[k].name in names
    {
      if k < offset + |records| {
        PageEntry(remote, page, LeadPageSize, k);
      } else {
        assert page * LeadPageSize <= k;
      }
    }
  }

  /** After a page is applied, and whatever follows, the names of its eligible rows are stored. */
  lemma PageNamesStored(leads: LeadTable, rows: LeadTable, records: seq<RemoteLead>, rcs: seq<LeadVals>,
                        final: LeadTable)
    requires Converts(records, rcs) && rows == NewLeads(PageVals(records, rcs, LeadNames(leads)))
    requires |leads + rows| <= |final| && final[..|leads + rows|] == leads + rows
    ensures forall j | 0 <= j < |records| && Eligible(records[j]) :: records[j].name in LeadNames(final)
  {
    PageValsNames(records, rcs, LeadNames(leads));
    LeadNamesNew(PageVals(records, rcs, LeadNames(leads)));
    LeadNamesAppend(leads, rows);
    LeadNamesPrefix(leads + rows, final);
  }

  /** With every eligible name stored, a run creates nothing, whatever the fetches and the clock do. */
  lemma {:induction false} SyncIdle(leads: LeadTable, remote: seq<RemoteLead>, cs: seq<LeadVals>, page: nat,
                                   failures: map<nat, nat>, deadline: nat)
    requires page >= 1 && |cs| == |remote|
    requires forall k | 0 <= k < |remote| && Eligible(remote[k]) :: remote[k].name in LeadNames(leads)
    ensures SyncLeadsFrom(leads, remote, cs, page, failures, deadline).0 == leads
    decreases |remote| - (page - 1) * LeadPageSize
  {
    if Continues(remote, page, failures, deadline) {
      IdleStep(leads, remote, cs, page, failures, deadline);
      SyncIdle(leads, remote, cs, page + 1, failures, deadline);
    } else {
      SyncLeadsHalts(leads, remote, cs, page, failures, deadline);
    }
  }

  /** A page whose eligible names are all stored is skipped whole, and the run goes on unchanged. */
  lemma IdleStep(leads: LeadTable, remote: seq<RemoteLead>, cs: seq<LeadVals>, page: nat,
                 failures: map<nat, nat>, deadline: nat)
    requires page >= 1 && |cs| == |remote| && Continues(remote, page, failures, deadline)
    requires forall k | 0 <= k < |remote| && Eligible(remote[k]) :: remote[k].name in LeadNames(leads)
    ensures SyncLeadsFrom(leads, remote, cs, page, failures, deadline) ==
      SyncLeadsFrom(leads, remote, cs, page + 1, failures, deadline)
  {
    var records := Page(remote, page, LeadPageSize);
    var offset := (page - 1) * LeadPageSize;
    assert forall j | 0 <= j < |records| :: records[j] == remote[offset + j];
    PageSameLength(cs, remote, page, LeadPageSize);
    PageValsAllSkipped(records, Page(cs, page, LeadPageSize), LeadNames(leads));
    SyncLeadsNext(leads, remote, cs, page, failures, deadline);
    assert leads + NewLeads([]) == leads;
  }

  /**
   * A second run over unchanged remote data, after one that reached the
   * empty page, creates nothing, and unless a fetch fails for good its
   * recompute leaves the table exactly as the first run left it.
   */
  lemma SecondSyncChangesNothing(leads: LeadTable, remote: seq<RemoteLead>, failures: map<nat, nat>, deadline: nat,
                                 failures2: map<nat, nat>, deadline2: nat)
    requires SyncLeadsFrom(leads, remote, Conversions(remote), 1, failures, deadline).1 == Finished
    ensures var once := Recompute(SyncLeadsFrom(leads, remote, Conversions(remote), 1, failures, deadline).0);
      var twice := SyncLeadsFrom(once, remote, Conversions(remote), 1, failures2, deadline2);
      twice.0 == once && (twice.1 != FetchFailed ==> Recompute(twice.0) == once)
  {
    var cs := Conversions(remote);
    var first := SyncLeadsFrom(leads, remote, cs, 1, failures, deadline).0;
    var once := Recompute(first);
    ConversionsConvert(remote);
    SyncStoresEveryName(leads, remote, cs, 1, failures, deadline, first);
    RecomputeShape(first);
    LeadNamesSameKeys(once, first);
    SyncIdle(once, remote, cs, 1, failures2, deadline2);
    RecomputeIdempotent(first);
  }

  /** Without failed fetches and with time for every page up to the first empty one, the run reaches the empty page. */
  lemma {:induction false} SyncLeadsFinishes(leads: LeadTable, remote: seq<RemoteLead>, cs: seq<LeadVals>, page: nat,
                                            failures: map<nat, nat>, deadline: nat)
    requires 1 <= page <= deadline && |remote| <= (deadline - 1) * LeadPageSize && |cs| == |remote|
    requires forall p | p in failures :: failures[p] < MaxRetries
    ensures SyncLeadsFrom(leads, remote, cs, page, failures, deadline).1 == Finished
    decreases |remote| - (page - 1) * LeadPageSize
  {
    assert Failures(failures, page) < MaxRetries;
    if Page(remote, page, LeadPageSize) != [] {
      SyncLeadsNext(leads, remote, cs, page, failures, deadline);
      SyncLeadsFinishes(leads + PageLeads(leads, remote, cs, page), remote, cs, page + 1, failures, deadline);
    }
  }
}
