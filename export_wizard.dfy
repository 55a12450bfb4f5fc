/**
 * The export wizard of wizard/export_codes_wizard.py: either the next N
 * unprinted numeric codes after the largest printed one, or a range of
 * public codes (numeric when both ends are numerals, by string
 * comparison otherwise). The chosen records are marked printed and
 * listed in the export.
 */
module ExportWizard {
  import opened Wrappers
  import opened Text
  import opened Codes
  import opened Selection

  /** A record with a numeral for its public code (`public_code ~ '^[0-9]+$'`). */
  predicate Numeric(store: Store, j: nat)
  {
    j < |store| && IsNumericCode(store[j].publicCode)
  }

  /** Printed records with a numeral. */
  function PrintedNumeral(store: Store): nat -> bool
  {
    (j: nat) => Numeric(store, j) && store[j].isPrinted
  }

  /** The value of each record's public code. */
  function ValueOf(store: Store): nat -> nat
  {
    (j: nat) => if j < |store| then NumKey(store[j]) else 0
  }

  /** `_get_last_printed_public_code`, by value: the largest numeral among printed records. */
  function LastPrintedValue(store: Store): Option<nat>
  {
    MaxKey(|store|, PrintedNumeral(store), ValueOf(store))
  }

  /** `_get_unprinted_numeric_count`: unprinted records with a numeral. */
  function Unprinted(store: Store): nat -> bool
  {
    (j: nat) => Numeric(store, j) && !store[j].isPrinted
  }

  /** The candidates for "next N": unprinted numerals above the largest printed one, if any. */
  function NextCandidate(store: Store, last: Option<nat>): nat -> bool
  {
    (j: nat) => Numeric(store, j) && !store[j].isPrinted && (last.None? || NumKey(store[j]) > last.value)
  }

  /** `_get_next_records`: the first `limit` candidates, in ascending numeric order. */
  function NextRecords(store: Store, limit: int): seq<nat>
  {
    Take(Query(store, NextCandidate(store, LastPrintedValue(store)), ByValue), limit)
  }

  /** Numerals whose value lies between the two ends, inclusive. */
  function NumericBetween(store: Store, lo: nat, hi: nat): nat -> bool
  {
    (j: nat) => Numeric(store, j) && lo <= NumKey(store[j]) <= hi
  }

  /** Public codes between the two ends in string order, inclusive. */
  function CodeBetween(store: Store, lo: string, hi: string): nat -> bool
  {
    (j: nat) => j < |store| && LexLe(lo, store[j].publicCode) && LexLe(store[j].publicCode, hi)
  }

  function AvailableMessage(available: nat): string
  {
    "Only " + IntToString(available) + " unprinted codes available."
  }

  /** `_get_target_records`: the records to export, or the validation error it raises. */
  function TargetRecords(store: Store, req: Request): (r: Result<seq<nat>>)
    requires Refers(store, req)
    ensures r.Ok? ==> Within(store, r.value)
  {
    if req.count != 0 && RangeGiven(req) then Err("Use either range or count, not both.")
    else if req.count != 0 then
      if req.count < 1 then Err("Export next N must be at least 1.")
      else if req.count > Count(store, Unprinted(store)) then Err(AvailableMessage(Count(store, Unprinted(store))))
      else
        LimitedQueryFacts(store, NextCandidate(store, LastPrintedValue(store)), ByValue, req.count);
        Ok(NextRecords(store, req.count))
    else
      var from, to := FromCode(store, req), ToCode(store, req);
      match RangeError(from, to)
      case Some(e) => Err(e)
      case None => Ok(RangeRecords(store, from, to))
  }

  /** The records of a checked range: by value between numerals, by string order otherwise. */
  function RangeRecords(store: Store, from: string, to: string): (r: seq<nat>)
    ensures Within(store, r)
  {
    if NumericRange(from, to) then
      QueryFacts(store, NumericBetween(store, DigitsValue(from), DigitsValue(to)), ByValue);
      Query(store, NumericBetween(store, DigitsValue(from), DigitsValue(to)), ByValue)
    else
      QueryFacts(store, CodeBetween(store, from, to), ByCode);
      Query(store, CodeBetween(store, from, to), ByCode)
  }

  /**
   * The order of the checks: both modes at once; then, for a count, a
   * count below one and a count above what is unprinted; for a range,
   * the range checks. Every other request is answered with records.
   */
  lemma TargetErrors(store: Store, req: Request)
    requires Refers(store, req)
    ensures var r := TargetRecords(store, req); var available := Count(store, Unprinted(store));
      && (req.count != 0 && RangeGiven(req) ==> r == Err("Use either range or count, not both."))
      && (req.count < 0 && !RangeGiven(req) ==> r == Err("Export next N must be at least 1."))
      && (req.count > available && !RangeGiven(req) ==> r == Err(AvailableMessage(available)))
      && (1 <= req.count <= available && !RangeGiven(req) ==> r == Ok(NextRecords(store, req.count)))
      && (req.count == 0 ==> var from, to := FromCode(store, req), ToCode(store, req);
                             match RangeError(from, to)
                             case Some(e) => r == Err(e)
                             case None => r == Ok(RangeRecords(store, from, to)))
  {
  }

  /**
   * "Next N": unprinted numerals above the largest printed one, in
   * ascending value, as many as asked for or as there are; any candidate
   * left out is not below any returned one. There are never more
   * candidates than unprinted numerals.
   */
  lemma NextRecordsFacts(store: Store, limit: int)
    ensures var last := LastPrintedValue(store); var r := NextRecords(store, limit);
      && Within(store, r)
      && (forall k | 0 <= k < |r| :: Numeric(store, r[k]) && !store[r[k]].isPrinted)
      && (last.Some? ==> forall k | 0 <= k < |r| :: NumKey(store[r[k]]) > last.value)
      && (forall i, j | 0 <= i < j < |r| :: NumKey(store[r[i]]) <= NumKey(store[r[j]]))
      && |r| == (if limit <= 0 then 0 else Min(limit, Count(store, NextCandidate(store, last))))
      && (forall x: nat, y: nat | x in r && y < |store| && NextCandidate(store, last)(y) && y !in r ::
            NumKey(store[x]) <= NumKey(store[y]))
      && Count(store, NextCandidate(store, last)) <= Count(store, Unprinted(store))
  {
    var last := LastPrintedValue(store);
    var keep := NextCandidate(store, last);
    LimitedQueryFacts(store, keep, ByValue, limit);
    var r := NextRecords(store, limit);
    assert forall k | 0 <= k < |r| :: r[k] in r;
    CountSubset(store, keep, Unprinted(store));
  }

  /** A filter that passes fewer records counts fewer. */
  lemma CountSubset(store: Store, small: nat -> bool, large: nat -> bool)
    requires forall j: nat | j < |store| :: small(j) ==> large(j)
    ensures Count(store, small) <= Count(store, large)
  {
    FilterSubset(Ids(|store|), small, large);
  }

  lemma {:induction false} FilterSubset(xs: seq<nat>, small: nat -> bool, large: nat -> bool)
    requires forall j | j in xs :: small(j) ==> large(j)
    ensures |Filter(xs, small)| <= |Filter(xs, large)|
  {
    if xs != [] {
      FilterSubset(xs[1..], small, large);
    }
  }

  /**
   * A range of numerals selects every numeric code whose value lies in
   * it, printed or not, in ascending value; any other range selects the
   * codes between its ends in string order.
   */
  lemma RangeTargets(store: Store, from: string, to: string)
    ensures var r := RangeRecords(store, from, to);
      && (NumericRange(from, to) ==>
            && (forall x: nat :: x in r <==> Numeric(store, x) && DigitsValue(from) <= NumKey(store[x]) <= DigitsValue(to))
            && (forall i, j | 0 <= i < j < |r| :: NumKey(store[r[i]]) <= NumKey(store[r[j]])))
      && (!NumericRange(from, to) ==>
            && (forall x: nat :: x in r <==> x < |store| && LexLe(from, store[x].publicCode) && LexLe(store[x].publicCode, to))
            && (forall i, j | 0 <= i < j < |r| :: LexLe(store[r[i]].publicCode, store[r[j]].publicCode)))
  {
    if NumericRange(from, to) {
      QueryFacts(store, NumericBetween(store, DigitsValue(from), DigitsValue(to)), ByValue);
    } else {
      QueryFacts(store, CodeBetween(store, from, to), ByCode);
      var r := RangeRecords(store, from, to);
      forall i, j | 0 <= i < j < |r|
        ensures LexLe(store[r[i]].publicCode, store[r[j]].publicCode)
      {
        assert Before(store, ByCode, r[i], r[j]);
        LexLeTotal(store[r[i]].publicCode, store[r[j]].publicCode);
      }
    }
  }

  /** One line of the export: batch, secret and public code. */
  datatype ExportRow = ExportRow(batchCode: string, secretCode: string, publicCode: string)

  /**
   * `action_export`: the targets are marked printed (and stamped with
   * `now`), and the export lists them in order. A validation error
   * changes nothing.
   */
  method ActionExport(store: Store, req: Request, now: nat) returns (result: Result<seq<ExportRow>>, storeAfter: Store)
    requires Refers(store, req)
    ensures TargetRecords(store, req).Err? ==> result == Err(TargetRecords(store, req).error) && storeAfter == store
    ensures TargetRecords(store, req).Ok? ==>
      var ts := TargetRecords(store, req).value;
      && storeAfter == WriteAll(store, ts, MarkPrinted, now)
      && result == Ok(ExportRows(storeAfter, ts))
  {
    var targets := TargetRecords(store, req);
    if targets.Err? {
      return Err(targets.error), store;
    }
    var ts := targets.value;
    storeAfter := WriteRecords(store, ts, MarkPrinted, now);
    var rows := ListRows(storeAfter, ts);
    result := Ok(rows);
  }

  /** The lines of the export: one per record, in the order of the records. */
  function ExportRows(store: Store, ts: seq<nat>): (rows: seq<ExportRow>)
    requires Within(store, ts)
    ensures |rows| == |ts|
    ensures forall k | 0 <= k < |ts| ::
      rows[k] == ExportRow(store[ts[k]].batchCode, store[ts[k]].secretCode, store[ts[k]].publicCode)
  {
    if ts == [] then []
    else ExportRows(store, ts[..|ts| - 1]) + [ExportRow(store[ts[|ts| - 1]].batchCode, store[ts[|ts| - 1]].secretCode,
                                                        store[ts[|ts| - 1]].publicCode)]
  }

  /** The workbook's rows, written record by record. */
  method ListRows(store: Store, ts: seq<nat>) returns (rows: seq<ExportRow>)
    requires Within(store, ts)
    ensures rows == ExportRows(store, ts)
  {
    rows := [];
    for k := 0 to |ts|
      invariant rows == ExportRows(store, ts[..k])
    {
      assert ts[..k + 1][..k] == ts[..k];
      var rec := store[ts[k]];
      rows := rows + [ExportRow(rec.batchCode, rec.secretCode, rec.publicCode)];
    }
    assert ts[..|ts|] == ts;
  }

  /** Marking records printed keeps their codes, so the export lists the codes as they were. */
  lemma ExportListsCodes(store: Store, ts: seq<nat>, now: nat)
    requires Within(store, ts)
    ensures ExportRows(WriteAll(store, ts, MarkPrinted, now), ts) == ExportRows(store, ts)
  {
    var after := WriteAll(store, ts, MarkPrinted, now);
    assert forall k | 0 <= k < |ts| :: after[ts[k]].batchCode == store[ts[k]].batchCode;
  }

  /**
   * After a "next N" export, the largest printed numeral is the last one
   * exported, so the next "next N" continues after it.
   */
  lemma ExportAdvancesLastPrinted(store: Store, limit: int, now: nat)
    requires NextRecords(store, limit) != []
    ensures var ts := NextRecords(store, limit);
      Within(store, ts) &&
      LastPrintedValue(WriteAll(store, ts, MarkPrinted, now)) == Some(NumKey(store[ts[|ts| - 1]]))
  {
    NextRecordsFacts(store, limit);
    var ts := NextRecords(store, limit);
    var after := WriteAll(store, ts, MarkPrinted, now);
    var t := ts[|ts| - 1];
    assert t in ts;
    forall j: nat | j < |after| && PrintedNumeral(after)(j)
      ensures ValueOf(after)(j) <= ValueOf(after)(t)
    {
      if j in ts {
        var k :| 0 <= k < |ts| && ts[k] == j;
        if k < |ts| - 1 {
          assert NumKey(store[ts[k]]) <= NumKey(store[t]);
        }
      } else {
        assert PrintedNumeral(store)(j);
        assert ValueOf(store)(j) <= LastPrintedValue(store).value;
      }
    }
    MaxKeyIs(|after|, PrintedNumeral(after), ValueOf(after), t);
  }

  /** `_compute_range_preview`, for one wizard. */
  function RangePreview(store: Store, req: Request): string
    requires Refers(store, req)
  {
    if req.count > 0 then
      var available := Count(store, Unprinted(store));
      if req.count > available then AvailableMessage(available)
      else
        var records := NextRecords(store, req.count);
        if records == [] then "No codes found."
        else
          LimitedQueryFacts(store, NextCandidate(store, LastPrintedValue(store)), ByValue, req.count);
          store[records[0]].publicCode + " → " + store[records[|records| - 1]].publicCode
    else EndsPreview(FromCode(store, req), ToCode(store, req))
  }

  /**
   * The preview agrees with the export: for a valid count it names the
   * first and last code exported, for a count beyond what is unprinted it
   * shows the export's error, and for a valid range it names its ends.
   */
  lemma PreviewMatchesExport(store: Store, req: Request)
    requires Refers(store, req)
    ensures var p := RangePreview(store, req); var r := TargetRecords(store, req);
      && (req.count > 0 && !RangeGiven(req) && r.Ok? ==>
            Within(store, r.value) &&
            p == if r.value == [] then "No codes found."
                 else store[r.value[0]].publicCode + " → " + store[r.value[|r.value| - 1]].publicCode)
      && (req.count > Count(store, Unprinted(store)) && !RangeGiven(req) ==> r == Err(p))
      && (req.count == 0 && r.Ok? ==> p == FromCode(store, req) + " → " + ToCode(store, req))
  {
  }
}
