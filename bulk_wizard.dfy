/**
 * The bulk activate/deactivate wizard of wizard/bulk_actions_wizard.py:
 * either the next N inactive records after the most recently written
 * printed record, or the inactive records whose public code lies in a
 * range in string order. The chosen records get the new status.
 */
module BulkWizard {
  import opened Wrappers
  import opened Text
  import opened Codes
  import opened Selection

  /**
   * The printed record searched with `order='write_date desc, id desc',
   * limit=1`: the latest written, the highest id among equals.
   */
  function LastPrinted(store: Store): (k: Option<nat>)
    ensures k.None? <==> forall j | 0 <= j < |store| :: !store[j].isPrinted
    ensures k.Some? ==> k.value < |store| && store[k.value].isPrinted
    ensures k.Some? ==> forall j | 0 <= j < |store| && store[j].isPrinted ::
      store[j].writeDate < store[k.value].writeDate || (store[j].writeDate == store[k.value].writeDate && j <= k.value)
  {
    if store == [] then None
    else
      var n := |store| - 1;
      var rest := LastPrinted(store[..n]);
      assert forall j | 0 <= j < n :: store[..n][j] == store[j];
      if !store[n].isPrinted then rest
      else if rest.None? || store[rest.value].writeDate <= store[n].writeDate then Some(n)
      else rest
  }

  /** Inactive records after the given one (all of them when there is none). */
  function InactiveAfter(store: Store, last: Option<nat>): nat -> bool
  {
    (j: nat) => j < |store| && store[j].status == Inactive && (last.None? || j > last.value)
  }

  /** Inactive records whose public code lies between the ends in string order. */
  function InactiveBetween(store: Store, lo: string, hi: string): nat -> bool
  {
    (j: nat) => j < |store| && store[j].status == Inactive && LexLe(lo, store[j].publicCode) && LexLe(store[j].publicCode, hi)
  }

  /** `_get_next_records`: the first `limit` inactive records after the last printed one, by id. */
  function NextRecords(store: Store, limit: int): (r: seq<nat>)
    ensures Within(store, r)
  {
    var rows := Rows(store, InactiveAfter(store, LastPrinted(store)));
    assert forall k | 0 <= k < |Take(rows, limit)| :: Take(rows, limit)[k] == rows[k];
    Take(rows, limit)
  }

  /** The inactive records of a checked range. */
  function RangeRecords(store: Store, from: string, to: string): seq<nat>
  {
    Rows(store, InactiveBetween(store, from, to))
  }

  /** `_get_target_records`: the records to update, or the validation error it raises. */
  function TargetRecords(store: Store, req: Request): (r: Result<seq<nat>>)
    requires Refers(store, req)
    ensures r.Ok? ==> Within(store, r.value)
  {
    if req.count != 0 && RangeGiven(req) then Err("Use either range or count, not both.")
    else if req.count != 0 then
      if req.count < 1 then Err("Activate next N must be at least 1.")
      else Ok(NextRecords(store, req.count))
    else
      var from, to := FromCode(store, req), ToCode(store, req);
      match RangeError(from, to)
      case Some(e) => Err(e)
      case None => Ok(RangeRecords(store, from, to))
  }

  /**
   * The order of the checks: both modes at once; then a count below
   * one; then, for a range, the range checks. There is no check that
   * enough inactive records exist.
   */
  lemma TargetErrors(store: Store, req: Request)
    requires Refers(store, req)
    ensures var r := TargetRecords(store, req);
      && (req.count != 0 && RangeGiven(req) ==> r == Err("Use either range or count, not both."))
      && (req.count < 0 && !RangeGiven(req) ==> r == Err("Activate next N must be at least 1."))
      && (req.count > 0 && !RangeGiven(req) ==> r == Ok(NextRecords(store, req.count)))
      && (req.count == 0 ==> var from, to := FromCode(store, req), ToCode(store, req);
                             match RangeError(from, to)
                             case Some(e) => r == Err(e)
                             case None => r == Ok(RangeRecords(store, from, to)))
  {
  }

  /**
   * "Next N": inactive records with an id above the last printed record's
   * id, ascending, as many as asked for or as there are; every candidate
   * left out has a higher id than every record returned.
   */
  lemma NextRecordsFacts(store: Store, limit: int)
    ensures var last := LastPrinted(store); var r := NextRecords(store, limit);
      && Increasing(r)
      && (forall k | 0 <= k < |r| :: store[r[k]].status == Inactive)
      && (last.Some? ==> forall k | 0 <= k < |r| :: r[k] > last.value)
      && |r| == (if limit <= 0 then 0 else Min(limit, Count(store, InactiveAfter(store, last))))
      && (forall x: nat, y: nat | x in r && InactiveAfter(store, last)(y) && y !in r :: x < y)
  {
    LimitedRowsFacts(store, InactiveAfter(store, LastPrinted(store)), limit);
  }

  /** A range selects exactly the inactive records whose code lies between its ends in string order. */
  lemma RangeRecordsFacts(store: Store, from: string, to: string)
    ensures var r := RangeRecords(store, from, to);
      && Increasing(r)
      && forall x: nat :: x in r <==>
           x < |store| && store[x].status == Inactive && LexLe(from, store[x].publicCode) && LexLe(store[x].publicCode, to)
  {
  }

  /**
   * On a table of eight-digit public codes, a range of eight-digit ends
   * compared as strings selects the same records as a comparison of
   * values would.
   */
  lemma PaddedRangeIsNumeric(store: Store, from: string, to: string)
    requires forall j | 0 <= j < |store| :: IsNumericCode(store[j].publicCode) && |store[j].publicCode| == PublicCodeLength
    requires AllDigits(from) && AllDigits(to) && |from| == PublicCodeLength && |to| == PublicCodeLength
    ensures forall x: nat :: x in RangeRecords(store, from, to) <==>
      x < |store| && store[x].status == Inactive && DigitsValue(from) <= CodeValue(store[x].publicCode) <= DigitsValue(to)
  {
    forall x: nat | x < |store|
      ensures LexLe(from, store[x].publicCode) <==> DigitsValue(from) <= CodeValue(store[x].publicCode)
      ensures LexLe(store[x].publicCode, to) <==> CodeValue(store[x].publicCode) <= DigitsValue(to)
    {
      LexLeDigits(from, store[x].publicCode);
      LexLeDigits(store[x].publicCode, to);
    }
  }

  /** `_apply_status`: the targets get the status (and `now` as write date); the result is how many. */
  method ApplyStatus(store: Store, req: Request, status: Status, now: nat) returns (result: Result<nat>, storeAfter: Store)
    requires Refers(store, req)
    ensures TargetRecords(store, req).Err? ==> result == Err(TargetRecords(store, req).error) && storeAfter == store
    ensures TargetRecords(store, req).Ok? ==>
      var ts := TargetRecords(store, req).value;
      result == Ok(|ts|) && storeAfter == WriteAll(store, ts, SetStatus(status), now)
  {
    var targets := TargetRecords(store, req);
    if targets.Err? {
      return Err(targets.error), store;
    }
    var ts := targets.value;
    storeAfter := WriteRecords(store, ts, SetStatus(status), now);
    result := Ok(|ts|);
  }

  /**
   * Every target is inactive before the write, so after it the targets
   * have the new status and every other record is as it was; in
   * particular deactivating changes no record's status.
   */
  lemma StatusWrites(store: Store, req: Request, status: Status, now: nat)
    requires Refers(store, req) && TargetRecords(store, req).Ok?
    ensures var ts := TargetRecords(store, req).value; var after := WriteAll(store, ts, SetStatus(status), now);
      && (forall j | 0 <= j < |store| && j in ts :: store[j].status == Inactive && after[j].status == status)
      && (forall j | 0 <= j < |store| && j !in ts :: after[j] == store[j])
      && (status == Inactive ==> forall j | 0 <= j < |store| :: after[j].status == store[j].status)
  {
    TargetsInactive(store, req);
  }

  /** Both modes select inactive records only. */
  lemma TargetsInactive(store: Store, req: Request)
    requires Refers(store, req) && TargetRecords(store, req).Ok?
    ensures forall j | j in TargetRecords(store, req).value :: j < |store| && store[j].status == Inactive
  {
    if req.count != 0 {
      LimitedRowsFacts(store, InactiveAfter(store, LastPrinted(store)), req.count);
      var r := NextRecords(store, req.count);
      assert forall j | j in r :: exists k | 0 <= k < |r| :: r[k] == j;
    } else {
      RangeRecordsFacts(store, FromCode(store, req), ToCode(store, req));
    }
  }

  /** Activated records are no longer inactive, so a following "next N" never returns them. */
  lemma ActivatedNotSelectedAgain(store: Store, ts: seq<nat>, limit: int, now: nat)
    requires Within(store, ts)
    ensures forall x | x in ts :: x !in NextRecords(WriteAll(store, ts, SetStatus(Active), now), limit)
  {
    var after := WriteAll(store, ts, SetStatus(Active), now);
    NextRecordsFacts(after, limit);
    var r := NextRecords(after, limit);
    assert forall k | 0 <= k < |r| :: after[r[k]].status == Inactive;
  }

  /** The notification of `action_activate_range` and `action_deactivate_range`. */
  function Notice(updated: nat, status: Status): string
  {
    "Updated " + IntToString(updated) + " code(s) to " + (if status == Active then "ACTIVE" else "INACTIVE") + "."
  }

  /** `action_activate_range` / `action_deactivate_range`: the update and its notification. */
  method ChangeRange(store: Store, req: Request, status: Status, now: nat) returns (result: Result<string>, storeAfter: Store)
    requires Refers(store, req)
    ensures TargetRecords(store, req).Err? ==> result == Err(TargetRecords(store, req).error) && storeAfter == store
    ensures TargetRecords(store, req).Ok? ==>
      var ts := TargetRecords(store, req).value;
      result == Ok(Notice(|ts|, status)) && storeAfter == WriteAll(store, ts, SetStatus(status), now)
  {
    var updated;
    updated, storeAfter := ApplyStatus(store, req, status, now);
    if updated.Err? {
      return Err(updated.error), storeAfter;
    }
    result := Ok(Notice(updated.value, status));
  }

  /** `_compute_range_preview`, for one wizard. */
  function RangePreview(store: Store, req: Request): string
    requires Refers(store, req)
  {
    if req.count > 0 then
      var records := NextRecords(store, req.count);
      if records == [] then "No inactive codes found."
      else store[records[0]].publicCode + " → " + store[records[|records| - 1]].publicCode
    else EndsPreview(FromCode(store, req), ToCode(store, req))
  }

  /**
   * The preview agrees with the update: for a count it names the first
   * and last record updated, and for a valid range it names its ends.
   */
  lemma PreviewMatchesUpdate(store: Store, req: Request)
    requires Refers(store, req)
    ensures var p := RangePreview(store, req); var r := TargetRecords(store, req);
      && (req.count > 0 && !RangeGiven(req) ==>
            r.Ok? && Within(store, r.value) &&
            p == if r.value == [] then "No inactive codes found."
                 else store[r.value[0]].publicCode + " → " + store[r.value[|r.value| - 1]].publicCode)
      && (req.count == 0 && r.Ok? ==> p == FromCode(store, req) + " → " + ToCode(store, req))
  {
  }
}
