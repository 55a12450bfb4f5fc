/**
 * The lead table of models/product_offer_lead.py and the subscription
 * metrics kept on it. Leads that share an email or a mobile number form a
 * group; each lead carries the size of its group (`subscribed_count`), that
 * size capped at five (`subscription_rating`) and the rating drawn as five
 * stars. The create and write hooks refresh the groups they touch, one
 * (email, mobile) pair at a time; the full recompute refreshes every lead.
 */
module Leads {
  import opened Wrappers
  import opened Text

  datatype Source = ProductVerification | QrScan | Manual

  const SourceNames: set<string> := {"PRODUCT_VERIFICATION", "QR_SCAN", "MANUAL"}

  function SourceName(s: Source): string
  {
    match s
    case ProductVerification => "PRODUCT_VERIFICATION"
    case QrScan => "QR_SCAN"
    case Manual => "MANUAL"
  }

  /** A source outside the selection falls back to `PRODUCT_VERIFICATION`. */
  function SourceOf(name: string): (s: Source)
    ensures name in SourceNames ==> SourceName(s) == name
    ensures name !in SourceNames ==> s == ProductVerification
  {
    if name == "QR_SCAN" then QrScan
    else if name == "MANUAL" then Manual
    else ProductVerification
  }

  /** A `product_offer_lead` record; `None` is a null field. */
  datatype Lead = Lead(
    frappeName: Option<string>,
    frappeCreation: Option<string>,
    secretCode: string,
    verificationLog: Option<string>,
    email: Option<string>,
    mobile: Option<string>,
    source: Source,
    subscribedCount: int,
    rating: int,
    stars: string)

  type LeadTable = seq<Lead>

  const MaxRating: int := 5
  const FilledStar: char := '\U{2605}'
  const EmptyStar: char := '\U{2606}'

  // ---------------------------------------------------------------
  // Stars
  // ---------------------------------------------------------------

  /** The rating clamped to 0..5. */
  function Clamped(rating: int): (n: int)
    ensures 0 <= n <= MaxRating
    ensures 0 <= rating <= MaxRating ==> n == rating
  {
    Max(0, Min(MaxRating, rating))
  }

  /** `_compute_subscription_rating_stars`: the clamped rating as filled stars, then empty stars up to five. */
  function Stars(rating: int): (r: string)
    ensures |r| == MaxRating
    ensures forall i | 0 <= i < |r| :: r[i] == (if i < Clamped(rating) then FilledStar else EmptyStar)
  {
    var n := Clamped(rating);
    Repeat(FilledStar, n) + Repeat(EmptyStar, MaxRating - n)
  }

  /** How many filled stars a string shows. */
  function FilledCount(s: string): (n: nat)
    ensures n <= |s|
  {
    if s == [] then 0 else (if s[0] == FilledStar then 1 else 0) + FilledCount(s[1..])
  }

  lemma {:induction false} FilledCountRepeat(c: char, n: nat)
    ensures FilledCount(Repeat(c, n)) == if c == FilledStar then n else 0
  {
    if n > 0 {
      assert Repeat(c, n)[1..] == Repeat(c, n - 1);
      FilledCountRepeat(c, n - 1);
    }
  }

  lemma {:induction false} FilledCountAppend(a: string, b: string)
    ensures FilledCount(a + b) == FilledCount(a) + FilledCount(b)
  {
    if a != [] {
      assert (a + b)[1..] == a[1..] + b;
      FilledCountAppend(a[1..], b);
    } else {
      assert a + b == b;
    }
  }

  /** The stars read back as the clamped rating. */
  lemma StarsRoundTrip(rating: int)
    ensures FilledCount(Stars(rating)) == Clamped(rating)
  {
    var n := Clamped(rating);
    FilledCountAppend(Repeat(FilledStar, n), Repeat(EmptyStar, MaxRating - n));
    FilledCountRepeat(FilledStar, n);
    FilledCountRepeat(EmptyStar, MaxRating - n);
  }

  /** The stars the full recompute writes in SQL, from the count. */
  function SqlStars(count: int): string
  {
    Repeat(FilledStar, Min(MaxRating, count)) + Repeat(EmptyStar, MaxRating - Min(MaxRating, count))
  }

  /** For a count, the SQL stars are the stars of the capped rating. */
  lemma SqlStarsAgree(count: nat)
    ensures SqlStars(count) == Stars(Min(MaxRating, count))
  {
  }

  // ---------------------------------------------------------------
  // Groups
  // ---------------------------------------------------------------

  /** A text field the ORM treats as set: present and non-empty. */
  predicate Given(o: Option<string>)
  {
    o.Some? && o.value != []
  }

  /** The (email, mobile) pair the hooks refresh metrics for. */
  datatype Pair = Pair(email: Option<string>, mobile: Option<string>)

  function PairOf(l: Lead): Pair
  {
    Pair(l.email, l.mobile)
  }

  /** `q` has the non-null `email`, or the non-null `mobile`. */
  predicate Matches(q: Lead, email: Option<string>, mobile: Option<string>)
  {
    (email.Some? && q.email == email) || (mobile.Some? && q.mobile == mobile)
  }

  /** How many leads match. */
  function CountMatching(leads: LeadTable, email: Option<string>, mobile: Option<string>): (n: nat)
    ensures n <= |leads|
  {
    if leads == [] then 0
    else
      var k := |leads| - 1;
      CountMatching(leads[..k], email, mobile) + (if Matches(leads[k], email, mobile) then 1 else 0)
  }

  /** Only a given key joins the search domain of `_update_subscription_metrics_for`. */
  function Searched(o: Option<string>): (r: Option<string>)
    ensures r.Some? <==> Given(o)
    ensures r.Some? ==> r == o
  {
    if Given(o) then o else None
  }

  /** `q` is found by the search for pair `p`. */
  predicate InGroup(q: Lead, p: Pair)
  {
    Matches(q, Searched(p.email), Searched(p.mobile))
  }

  /** The number of leads the search for `p` finds. */
  function GroupSize(leads: LeadTable, p: Pair): nat
  {
    CountMatching(leads, Searched(p.email), Searched(p.mobile))
  }

  /** A lead with its metrics set from a group size. */
  function WithMetrics(l: Lead, count: int): Lead
  {
    l.(subscribedCount := count, rating := Min(MaxRating, count), stars := Stars(Min(MaxRating, count)))
  }

  /** A lead with its three metric fields blanked: what no metric update changes. */
  function Unmetered(l: Lead): Lead
  {
    l.(subscribedCount := 0, rating := 0, stars := [])
  }

  /** Two tables hold the same leads, up to their metrics. */
  predicate SameExceptMetrics(a: LeadTable, b: LeadTable)
  {
    |a| == |b| && forall i | 0 <= i < |a| :: Unmetered(a[i]) == Unmetered(b[i])
  }

  lemma SameExceptMetricsTrans(a: LeadTable, b: LeadTable, c: LeadTable)
    requires SameExceptMetrics(a, b) && SameExceptMetrics(b, c)
    ensures SameExceptMetrics(a, c)
  {
  }

  /** Counting looks at emails and mobiles only. */
  lemma {:induction false} CountSameKeys(a: LeadTable, b: LeadTable, email: Option<string>, mobile: Option<string>)
    requires SameExceptMetrics(a, b)
    ensures CountMatching(a, email, mobile) == CountMatching(b, email, mobile)
  {
    if a != [] {
      var k := |a| - 1;
      assert Unmetered(a[k]) == Unmetered(b[k]);
      assert a[k].email == b[k].email && a[k].mobile == b[k].mobile;
      CountSameKeys(a[..k], b[..k], email, mobile);
    }
  }

  /** No lead matches two null keys. */
  lemma {:induction false} CountNothing(leads: LeadTable)
    ensures CountMatching(leads, None, None) == 0
  {
    if leads != [] {
      CountNothing(leads[..|leads| - 1]);
    }
  }

  /** A matching lead is counted. */
  lemma {:induction false} CountHolds(leads: LeadTable, email: Option<string>, mobile: Option<string>, i: nat)
    requires i < |leads| && Matches(leads[i], email, mobile)
    ensures CountMatching(leads, email, mobile) >= 1
  {
    var k := |leads| - 1;
    if i < k {
      CountHolds(leads[..k], email, mobile, i);
    }
  }

  /** Appending leads adds their count. */
  lemma {:induction false} CountAppend(a: LeadTable, b: LeadTable, email: Option<string>, mobile: Option<string>)
    ensures CountMatching(a + b, email, mobile) == CountMatching(a, email, mobile) + CountMatching(b, email, mobile)
    decreases |b|
  {
    if b != [] {
      var k := |b| - 1;
      assert (a + b)[..|a + b| - 1] == a + b[..k];
      CountAppend(a, b[..k], email, mobile);
    } else {
      assert a + b == a;
    }
  }

  // ---------------------------------------------------------------
  // `_update_subscription_metrics_for`
  // ---------------------------------------------------------------

  /**
   * The table after `_update_subscription_metrics_for(email, mobile)`:
   * without a given key nothing happens; otherwise every lead the search
   * finds gets the number of leads found, and no other lead changes.
   */
  function Updated(leads: LeadTable, p: Pair): (r: LeadTable)
    ensures |r| == |leads|
  {
    if !Given(p.email) && !Given(p.mobile) then leads
    else
      var count := GroupSize(leads, p);
      seq(|leads|, i requires 0 <= i < |leads| => if InGroup(leads[i], p) then WithMetrics(leads[i], count) else leads[i])
  }

  /** `_update_subscription_metrics_for`: search the group, count it, write the metrics on every member. */
  method UpdateMetricsFor(leads: LeadTable, p: Pair) returns (after: LeadTable)
    ensures after == Updated(leads, p)
  {
    if !Given(p.email) && !Given(p.mobile) {
      return leads;
    }
    var count := GroupSize(leads, p);
    after := leads;
    for i := 0 to |leads|
      invariant |after| == |leads|
      invariant forall j | 0 <= j < i :: after[j] == Updated(leads, p)[j]
      invariant forall j | i <= j < |leads| :: after[j] == leads[j]
    {
      if InGroup(leads[i], p) {
        after := after[i := WithMetrics(leads[i], count)];
      }
    }
  }

  /** A metrics update changes metrics only. */
  lemma UpdatedKeepsLeads(leads: LeadTable, p: Pair)
    ensures SameExceptMetrics(Updated(leads, p), leads)
  {
  }

  /**
   * After the update every member of the group carries the size of the
   * group as it now stands, the rating is that size capped at five and the
   * stars show the rating; every other lead is as it was.
   */
  lemma UpdatedGroup(leads: LeadTable, p: Pair)
    ensures var r := Updated(leads, p);
      && (forall i | 0 <= i < |leads| && InGroup(leads[i], p) ::
            r[i] == WithMetrics(leads[i], GroupSize(r, p)) && r[i].rating == Min(MaxRating, r[i].subscribedCount)
            && r[i].stars == Stars(r[i].rating))
      && (forall i | 0 <= i < |leads| && !InGroup(leads[i], p) :: r[i] == leads[i])
  {
    UpdatedKeepsLeads(leads, p);
    CountSameKeys(Updated(leads, p), leads, Searched(p.email), Searched(p.mobile));
  }

  /** Refreshing the same group twice is refreshing it once. */
  lemma UpdatedIdempotent(leads: LeadTable, p: Pair)
    ensures Updated(Updated(leads, p), p) == Updated(leads, p)
  {
    var r := Updated(leads, p);
    UpdatedKeepsLeads(leads, p);
    CountSameKeys(r, leads, Searched(p.email), Searched(p.mobile));
    if Given(p.email) || Given(p.mobile) {
      forall i | 0 <= i < |r| ensures Updated(r, p)[i] == r[i] {
        assert Unmetered(r[i]) == Unmetered(leads[i]);
      }
    }
  }

  // ---------------------------------------------------------------
  // The create and write hooks
  // ---------------------------------------------------------------

  /** `order` lists the elements of `s` once each. */
  ghost predicate Enumerates(order: seq<Pair>, s: set<Pair>)
  {
    |order| == |s| && forall x :: x in order <==> x in s
  }

  /** The updates for `order`, one after the other. */
  function UpdateAll(leads: LeadTable, order: seq<Pair>): (r: LeadTable)
    ensures |r| == |leads|
  {
    if order == [] then leads
    else Updated(UpdateAll(leads, order[..|order| - 1]), order[|order| - 1])
  }

  /**
   * The loop over a set of pairs. Python visits a set in an order it does
   * not promise; `order` is the order this run took.
   */
  method UpdatePairs(leads: LeadTable, pairs: set<Pair>) returns (after: LeadTable, ghost order: seq<Pair>)
    ensures Enumerates(order, pairs)
    ensures after == UpdateAll(leads, order)
  {
    var todo := pairs;
    after, order := leads, [];
    while todo != {}
      invariant todo <= pairs && |order| + |todo| == |pairs|
      invariant forall x :: x in order <==> x in pairs && x !in todo
      invariant after == UpdateAll(leads, order)
      decreases |todo|
    {
      var p :| p in todo;
      after := UpdateMetricsFor(after, p);
      assert (order + [p])[..|order|] == order;
      order, todo := order + [p], todo - {p};
    }
  }

  /** A series of updates changes metrics only. */
  lemma {:induction false} UpdateAllKeepsLeads(leads: LeadTable, order: seq<Pair>)
    ensures SameExceptMetrics(UpdateAll(leads, order), leads)
  {
    if order != [] {
      var n := |order| - 1;
      UpdateAllKeepsLeads(leads, order[..n]);
      UpdatedKeepsLeads(UpdateAll(leads, order[..n]), order[n]);
    }
  }

  /** A lead that no pair's search finds keeps its metrics. */
  lemma {:induction false} UpdateAllUntouched(leads: LeadTable, order: seq<Pair>, i: nat)
    requires i < |leads|
    requires forall k | 0 <= k < |order| :: !InGroup(leads[i], order[k])
    ensures UpdateAll(leads, order)[i] == leads[i]
  {
    if order != [] {
      var n := |order| - 1;
      UpdateAllUntouched(leads, order[..n], i);
    }
  }

  /**
   * Whatever the order, a lead ends with the metrics of the last pair whose
   * search found it, counted on the table as it is then (group sizes never
   * change, since updates touch metrics only).
   */
  lemma {:induction false} UpdateAllLastWins(leads: LeadTable, order: seq<Pair>, i: nat, k: nat)
    requires i < |leads| && k < |order| && InGroup(leads[i], order[k])
    requires forall k' | k < k' < |order| :: !InGroup(leads[i], order[k'])
    ensures UpdateAll(leads, order)[i] == WithMetrics(leads[i], GroupSize(leads, order[k]))
  {
    var n := |order| - 1;
    var before := UpdateAll(leads, order[..n]);
    UpdateAllKeepsLeads(leads, order[..n]);
    assert Unmetered(before[i]) == Unmetered(leads[i]);
    if k < n {
      UpdateAllLastWins(leads, order[..n], i, k);
      assert !InGroup(leads[i], order[n]);
    } else {
      CountSameKeys(before, leads, Searched(order[k].email), Searched(order[k].mobile));
    }
  }

  /** The values a new lead is created with; the metrics take their defaults. */
  datatype LeadVals = LeadVals(
    frappeName: Option<string>,
    frappeCreation: Option<string>,
    secretCode: string,
    verificationLog: Option<string>,
    email: Option<string>,
    mobile: Option<string>,
    source: Source)

  function NewLead(v: LeadVals): Lead
  {
    Lead(v.frappeName, v.frappeCreation, v.secretCode, v.verificationLog, v.email, v.mobile, v.source, 0, 0, Stars(0))
  }

  function NewLeads(vals: seq<LeadVals>): (r: LeadTable)
    ensures |r| == |vals|
  {
    seq(|vals|, k requires 0 <= k < |vals| => NewLead(vals[k]))
  }

  function PairsOf(vals: seq<LeadVals>): set<Pair>
  {
    set v | v in vals :: Pair(v.email, v.mobile)
  }

  /**
   * `create`: the new leads are appended; unless `skip_subscription_update`
   * is set, the metrics of every (email, mobile) pair among them are
   * refreshed.
   */
  method CreateLeads(leads: LeadTable, vals: seq<LeadVals>, skip: bool) returns (after: LeadTable, ghost order: seq<Pair>)
    ensures skip ==> after == leads + NewLeads(vals) && order == []
    ensures !skip ==> Enumerates(order, PairsOf(vals)) && after == UpdateAll(leads + NewLeads(vals), order)
  {
    var created := leads + NewLeads(vals);
    if skip {
      return created, [];
    }
    after, order := UpdatePairs(created, PairsOf(vals));
  }

  /** The fields a `write` may set; `None` leaves a field out of `vals`. */
  datatype LeadWrite = LeadWrite(
    email: Option<Option<string>>,
    mobile: Option<Option<string>>,
    secretCode: Option<string>,
    verificationLog: Option<Option<string>>,
    source: Option<Source>)

  function Written(l: Lead, w: LeadWrite): Lead
  {
    l.(email := if w.email.Some? then w.email.value else l.email,
       mobile := if w.mobile.Some? then w.mobile.value else l.mobile,
       secretCode := if w.secretCode.Some? then w.secretCode.value else l.secretCode,
       verificationLog := if w.verificationLog.Some? then w.verificationLog.value else l.verificationLog,
       source := if w.source.Some? then w.source.value else l.source)
  }

  /** The table after the plain write of `w` on the leads `ids`. */
  function WrittenTable(leads: LeadTable, ids: set<nat>, w: LeadWrite): (r: LeadTable)
    ensures |r| == |leads|
  {
    seq(|leads|, i requires 0 <= i < |leads| => if i in ids then Written(leads[i], w) else leads[i])
  }

  function PairsAt(leads: LeadTable, ids: set<nat>): set<Pair>
  {
    set i | i in ids && i < |leads| :: PairOf(leads[i])
  }

  /**
   * `write`: the fields are written; unless `skip_subscription_update` is
   * set, a write that names `email` or `mobile_number` refreshes the pairs
   * the leads had before and the pairs they have after.
   */
  method WriteLeads(leads: LeadTable, ids: set<nat>, w: LeadWrite, skip: bool)
    returns (after: LeadTable, ghost order: seq<Pair>)
    requires forall i | i in ids :: i < |leads|
    ensures var written := WrittenTable(leads, ids, w);
      && (skip || (w.email.None? && w.mobile.None?) ==> after == written && order == [])
      && (!skip && (w.email.Some? || w.mobile.Some?) ==>
            Enumerates(order, PairsAt(leads, ids) + PairsAt(written, ids)) && after == UpdateAll(written, order))
  {
    var oldPairs := PairsAt(leads, ids);
    var written := WrittenTable(leads, ids, w);
    if skip || (w.email.None? && w.mobile.None?) {
      return written, [];
    }
    after, order := UpdatePairs(written, oldPairs + PairsAt(written, ids));
  }

  /** A write that names neither key leaves the metrics alone and changes only the written fields of the chosen leads. */
  lemma WriteWithoutKeys(leads: LeadTable, ids: set<nat>, w: LeadWrite)
    requires w.email.None? && w.mobile.None?
    ensures var r := WrittenTable(leads, ids, w);
      forall i | 0 <= i < |leads| ::
        r[i].subscribedCount == leads[i].subscribedCount && r[i].rating == leads[i].rating &&
        r[i].stars == leads[i].stars && PairOf(r[i]) == PairOf(leads[i]) && (i !in ids ==> r[i] == leads[i])
  {
  }

  /**
   * A lead created alone with a given key, outside `skip_subscription_update`,
   * joins its group: it and every lead its search finds carry the group's
   * size, which counts the new lead.
   */
  lemma CreateOneLead(leads: LeadTable, v: LeadVals)
    requires Given(v.email) || Given(v.mobile)
    ensures var p := Pair(v.email, v.mobile);
      var r := UpdateAll(leads + NewLeads([v]), [p]);
      && |r| == |leads| + 1
      && r[|leads|] == WithMetrics(NewLead(v), GroupSize(leads, p) + 1)
      && (forall i | 0 <= i < |leads| && InGroup(leads[i], p) :: r[i] == WithMetrics(leads[i], GroupSize(leads, p) + 1))
      && (forall i | 0 <= i < |leads| && !InGroup(leads[i], p) :: r[i] == leads[i])
  {
    var p := Pair(v.email, v.mobile);
    var created := leads + NewLeads([v]);
    assert [p][..0] == [];
    assert UpdateAll(created, [p]) == Updated(created, p);
    CountAppend(leads, NewLeads([v]), Searched(p.email), Searched(p.mobile));
    assert NewLeads([v]) == [NewLead(v)];
    assert NewLeads([v])[..0] == [];
    assert created[|leads|] == NewLead(v);
    assert InGroup(NewLead(v), p);
  }

  // ---------------------------------------------------------------
  // `_recompute_subscription_metrics`
  // ---------------------------------------------------------------

  /**
   * The two SQL updates: each lead's count is the number of leads sharing
   * its non-null email or its non-null mobile; the rating is the count
   * capped at five and the stars are drawn from the count.
   */
  function Recompute(leads: LeadTable): (r: LeadTable)
    ensures |r| == |leads|
  {
    seq(|leads|, i requires 0 <= i < |leads| =>
      var count := CountMatching(leads, leads[i].email, leads[i].mobile);
      leads[i].(subscribedCount := count, rating := Min(MaxRating, count), stars := SqlStars(count)))
  }

  /**
   * After the recompute each lead's count is its peers' number (at least one,
   * itself, when a key is non-null, and 0 when both are null), the rating is
   * the count capped at five, and the stars show the rating; nothing but the
   * metrics changed.
   */
  lemma RecomputeShape(leads: LeadTable)
    ensures var r := Recompute(leads);
      && SameExceptMetrics(r, leads)
      && (forall i | 0 <= i < |r| ::
            && r[i].subscribedCount == CountMatching(leads, leads[i].email, leads[i].mobile)
            && r[i].rating == Min(MaxRating, r[i].subscribedCount)
            && 0 <= r[i].rating <= MaxRating
            && r[i].stars == Stars(r[i].rating))
      && (forall i | 0 <= i < |r| && leads[i].email.None? && leads[i].mobile.None? :: r[i].subscribedCount == 0)
      && (forall i | 0 <= i < |r| && (leads[i].email.Some? || leads[i].mobile.Some?) :: r[i].subscribedCount >= 1)
  {
    var r := Recompute(leads);
    forall i | 0 <= i < |r| ensures r[i].stars == Stars(r[i].rating)
    {
      SqlStarsAgree(r[i].subscribedCount);
    }
    CountNothing(leads);
    forall i | 0 <= i < |r| && (leads[i].email.Some? || leads[i].mobile.Some?) ensures r[i].subscribedCount >= 1
    {
      CountHolds(leads, leads[i].email, leads[i].mobile, i);
    }
  }

  /** The recompute reads only emails and mobiles, so tables that agree up to metrics recompute alike. */
  lemma RecomputeSameKeys(a: LeadTable, b: LeadTable)
    requires SameExceptMetrics(a, b)
    ensures Recompute(a) == Recompute(b)
  {
    forall i | 0 <= i < |a| ensures Recompute(a)[i] == Recompute(b)[i]
    {
      assert Unmetered(a[i]) == Unmetered(b[i]);
      CountSameKeys(a, b, a[i].email, a[i].mobile);
    }
  }

  /** Running the recompute twice is running it once. */
  lemma RecomputeIdempotent(leads: LeadTable)
    ensures Recompute(Recompute(leads)) == Recompute(leads)
  {
    RecomputeShape(leads);
    RecomputeSameKeys(Recompute(leads), leads);
  }

  /**
   * For a lead whose keys are each null or non-empty, and one of them given,
   * refreshing its own pair gives it what the full recompute gives it.
   */
  lemma UpdateAgreesWithRecompute(leads: LeadTable, i: nat)
    requires i < |leads|
    requires leads[i].email.None? || Given(leads[i].email)
    requires leads[i].mobile.None? || Given(leads[i].mobile)
    requires Given(leads[i].email) || Given(leads[i].mobile)
    ensures Updated(leads, PairOf(leads[i]))[i] == Recompute(leads)[i]
  {
    var p := PairOf(leads[i]);
    assert Searched(p.email) == leads[i].email && Searched(p.mobile) == leads[i].mobile;
    assert InGroup(leads[i], p);
    SqlStarsAgree(GroupSize(leads, p));
  }
}
