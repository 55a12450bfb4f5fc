/**
 * What the export and bulk-action wizards share: their input fields, the
 * normalisation of a typed or chosen public code, the checks on a range,
 * and the three parts of a record query (a filter over the table's ids,
 * an order, a limit).
 */
module Selection {
  import opened Wrappers
  import opened Text
  import opened Codes

  // ---------------------------------------------------------------
  // The wizards' fields
  // ---------------------------------------------------------------

  /**
   * The "next N" count, and each end of the range either as a chosen
   * record (its id) or as typed text.
   */
  datatype Request = Request(count: int, fromRecord: Option<nat>, toRecord: Option<nat>,
                             fromText: Option<string>, toText: Option<string>)

  /** Chosen records are records of the table. */
  predicate Refers(store: Store, req: Request)
  {
    (req.fromRecord.Some? ==> req.fromRecord.value < |store|) &&
    (req.toRecord.Some? ==> req.toRecord.value < |store|)
  }

  /** A text field is set and not empty. */
  predicate Filled(t: Option<string>)
  {
    t.Some? && t.value != []
  }

  /** Some end of the range is filled in. */
  predicate RangeGiven(req: Request)
  {
    Filled(req.fromText) || Filled(req.toText) || req.fromRecord.Some? || req.toRecord.Some?
  }

  /** `_normalize_code`: stripped; an all-digit code is rewritten as its number padded to eight digits. */
  function NormalizeCode(value: Option<string>): (r: string)
  {
    var v := Cleaned(value);
    if AllDigits(v) then PadNat(DigitsValue(v), PublicCodeLength) else v
  }

  /**
   * A normalised code is the stripped input, or, for digits, a numeral
   * of at least eight digits with the same value.
   */
  lemma NormalizeCodeShape(value: Option<string>)
    ensures var v := Cleaned(value); var r := NormalizeCode(value);
      && (AllDigits(r) <==> AllDigits(v))
      && (AllDigits(v) ==> DigitsValue(r) == DigitsValue(v) && |r| >= PublicCodeLength)
      && (!AllDigits(v) ==> r == v)
      && (r == [] <==> v == [])
  {
    var v := Cleaned(value);
    if AllDigits(v) {
      PadNatValue(DigitsValue(v), PublicCodeLength);
    }
  }

  /** A numeral below 10^8 normalises to exactly eight digits, the form of a generated public code. */
  lemma NormalizeCodePadded(value: Option<string>)
    requires AllDigits(Cleaned(value)) && DigitsValue(Cleaned(value)) < Pow10(PublicCodeLength)
    ensures AllDigits(NormalizeCode(value)) && |NormalizeCode(value)| == PublicCodeLength
    ensures DigitsValue(NormalizeCode(value)) == DigitsValue(Cleaned(value))
  {
    PadNatLength(DigitsValue(Cleaned(value)), PublicCodeLength);
    NormalizeCodeShape(value);
  }

  /** Normalising twice is normalising once. */
  lemma NormalizeCodeIdempotent(value: Option<string>)
    ensures NormalizeCode(Some(NormalizeCode(value))) == NormalizeCode(value)
  {
    var v := Cleaned(value);
    var r := NormalizeCode(value);
    if AllDigits(v) {
      PadNatValue(DigitsValue(v), PublicCodeLength);
      CleanedDigits(r);
    } else {
      CleanedIdempotent(value);
    }
  }

  /** The code an end of the range names: the chosen record's public code, else the text. */
  function EndCode(store: Store, record: Option<nat>, text: Option<string>): Option<string>
    requires record.Some? ==> record.value < |store|
  {
    if record.Some? then Some(store[record.value].publicCode) else text
  }

  function FromCode(store: Store, req: Request): string
    requires Refers(store, req)
  {
    NormalizeCode(EndCode(store, req.fromRecord, req.fromText))
  }

  function ToCode(store: Store, req: Request): string
    requires Refers(store, req)
  {
    NormalizeCode(EndCode(store, req.toRecord, req.toText))
  }

  /** Both ends are numerals. */
  predicate NumericRange(from: string, to: string)
  {
    AllDigits(from) && AllDigits(to)
  }

  /** The checks on a range: both ends are required, and numerals must not be reversed. */
  function RangeError(from: string, to: string): (r: Option<string>)
    ensures r.None? <==> from != [] && to != [] && (NumericRange(from, to) ==> DigitsValue(from) <= DigitsValue(to))
  {
    if from == [] || to == [] then Some("Both start and end public codes are required.")
    else if NumericRange(from, to) && DigitsValue(from) > DigitsValue(to) then
      Some("Start public code must be less than or equal to end public code.")
    else None
  }

  /** The range preview shared by both wizards: the normalised ends, when both are set. */
  function EndsPreview(from: string, to: string): string
  {
    if from != [] && to != [] then from + " → " + to else ""
  }

  // ---------------------------------------------------------------
  // Queries: filter, order, limit
  // ---------------------------------------------------------------

  /** The ids of a table of n records, in ascending order. */
  function Ids(n: nat): (r: seq<nat>)
    ensures |r| == n && forall i | 0 <= i < n :: r[i] == i
    ensures forall x: nat :: x in r <==> x < n
  {
    if n == 0 then [] else Ids(n - 1) + [n - 1]
  }

  /** The elements that pass `keep`, in their order. */
  function Filter(xs: seq<nat>, keep: nat -> bool): (r: seq<nat>)
    ensures forall x: nat :: x in r <==> x in xs && keep(x)
    ensures |r| <= |xs|
  {
    if xs == [] then [] else (if keep(xs[0]) then [xs[0]] else []) + Filter(xs[1..], keep)
  }

  predicate Increasing(xs: seq<nat>)
  {
    forall i, j | 0 <= i < j < |xs| :: xs[i] < xs[j]
  }

  lemma {:induction false} FilterIncreasing(xs: seq<nat>, keep: nat -> bool)
    requires Increasing(xs)
    ensures Increasing(Filter(xs, keep))
  {
    if xs != [] {
      FilterIncreasing(xs[1..], keep);
      var rest := Filter(xs[1..], keep);
      forall k | 0 <= k < |rest|
        ensures xs[0] < rest[k]
      {
        assert rest[k] in xs[1..];
        var m :| 0 <= m < |xs[1..]| && xs[1..][m] == rest[k];
        assert xs[m + 1] == rest[k];
      }
    }
  }

  /** `search(domain, order='id asc')`: the ids that pass `keep`, ascending. */
  function Rows(store: Store, keep: nat -> bool): (r: seq<nat>)
    ensures forall x: nat :: x in r <==> x < |store| && keep(x)
    ensures Increasing(r) && Within(store, r)
  {
    FilterIncreasing(Ids(|store|), keep);
    var r := Filter(Ids(|store|), keep);
    assert forall i | 0 <= i < |r| :: r[i] in r;
    r
  }

  /** `SELECT COUNT(*)` over the records that pass `keep`. */
  function Count(store: Store, keep: nat -> bool): nat
  {
    |Rows(store, keep)|
  }

  /** The largest key among the ids below n that pass `keep` (`ORDER BY key DESC LIMIT 1`). */
  function MaxKey(n: nat, keep: nat -> bool, key: nat -> nat): (m: Option<nat>)
    ensures m.None? <==> forall j: nat | j < n :: !keep(j)
    ensures m.Some? ==> forall j: nat | j < n && keep(j) :: key(j) <= m.value
    ensures m.Some? ==> exists j: nat | j < n :: keep(j) && key(j) == m.value
  {
    if n == 0 then None
    else
      var rest := MaxKey(n - 1, keep, key);
      if !keep(n - 1) then rest
      else if rest.None? || rest.value < key(n - 1) then Some(key(n - 1))
      else rest
  }

  /** The maximum is the key that is reached and not exceeded. */
  lemma MaxKeyIs(n: nat, keep: nat -> bool, key: nat -> nat, j: nat)
    requires j < n && keep(j)
    requires forall i: nat | i < n && keep(i) :: key(i) <= key(j)
    ensures MaxKey(n, keep, key) == Some(key(j))
  {
    var m := MaxKey(n, keep, key);
    var k: nat :| k < n && keep(k) && key(k) == m.value;
  }

  /**
   * `search(domain, order='id asc', limit=n)`: the first records by id
   * that pass the filter, as many as the limit allows; every record
   * left out has a higher id than every record returned.
   */
  lemma LimitedRowsFacts(store: Store, keep: nat -> bool, limit: int)
    ensures var rows := Rows(store, keep); var r := Take(rows, limit);
      && Increasing(r) && Within(store, r)
      && (forall k | 0 <= k < |r| :: keep(r[k]))
      && |r| == (if limit <= 0 then 0 else Min(limit, Count(store, keep)))
      && (forall x: nat, y: nat | x in r && y < |store| && keep(y) && y !in r :: x < y)
  {
    var rows := Rows(store, keep);
    var r := Take(rows, limit);
    assert forall k | 0 <= k < |r| :: r[k] == rows[k] && rows[k] in rows;
    forall x: nat, y: nat | x in r && y < |store| && keep(y) && y !in r
      ensures x < y
    {
      var i :| 0 <= i < |r| && r[i] == x;
      var j :| 0 <= j < |rows| && rows[j] == y;
      assert rows[i] == x;
    }
  }

  /** The orders the queries use; ties are broken by id. */
  datatype Order = ByValue | ByCode

  /** The numeric value of a public code (all codes it is used on are numerals). */
  function NumKey(r: CodeRecord): nat
  {
    if IsNumericCode(r.publicCode) then CodeValue(r.publicCode) else 0
  }

  /** Record a comes strictly before record b. */
  predicate Before(store: Store, ord: Order, a: nat, b: nat)
    requires a < |store| && b < |store|
  {
    match ord
    case ByValue =>
      NumKey(store[a]) < NumKey(store[b]) || (NumKey(store[a]) == NumKey(store[b]) && a < b)
    case ByCode =>
      var p, q := store[a].publicCode, store[b].publicCode;
      (p != q && LexLe(p, q)) || (p == q && a < b)
  }

  lemma BeforeStrict(store: Store, ord: Order, a: nat, b: nat)
    requires a < |store| && b < |store|
    ensures Before(store, ord, a, b) ==> !Before(store, ord, b, a)
  {
    if ord.ByCode? && Before(store, ord, a, b) && Before(store, ord, b, a) {
      LexLeAntisymmetric(store[a].publicCode, store[b].publicCode);
    }
  }

  lemma BeforeTotal(store: Store, ord: Order, a: nat, b: nat)
    requires a < |store| && b < |store| && a != b
    ensures Before(store, ord, a, b) || Before(store, ord, b, a)
  {
    if ord.ByCode? {
      LexLeTotal(store[a].publicCode, store[b].publicCode);
    }
  }

  lemma BeforeTransitive(store: Store, ord: Order, a: nat, b: nat, c: nat)
    requires a < |store| && b < |store| && c < |store|
    requires Before(store, ord, a, b) && Before(store, ord, b, c)
    ensures Before(store, ord, a, c)
  {
    if ord.ByCode? {
      var p, q, s := store[a].publicCode, store[b].publicCode, store[c].publicCode;
      if p != q && q != s {
        LexLeTransitive(p, q, s);
        if p == s {
          LexLeAntisymmetric(p, q);
        }
      }
    }
  }

  /** Every element is an id of the table. */
  predicate Within(store: Store, xs: seq<nat>)
  {
    forall i | 0 <= i < |xs| :: xs[i] < |store|
  }

  predicate SortedBy(store: Store, ord: Order, xs: seq<nat>)
    requires Within(store, xs)
  {
    forall i, j | 0 <= i < j < |xs| :: Before(store, ord, xs[i], xs[j])
  }

  /** Insertion into a sorted sequence. */
  function Insert(store: Store, ord: Order, x: nat, xs: seq<nat>): (r: seq<nat>)
    requires x < |store| && Within(store, xs)
    ensures multiset(r) == multiset(xs) + multiset{x}
    ensures Within(store, r)
  {
    if xs == [] || Before(store, ord, x, xs[0]) then [x] + xs
    else
      assert xs == [xs[0]] + xs[1..];
      [xs[0]] + Insert(store, ord, x, xs[1..])
  }

  /** `ORDER BY`: the ids sorted by `ord`. */
  function Sort(store: Store, ord: Order, xs: seq<nat>): (r: seq<nat>)
    requires Within(store, xs)
    ensures multiset(r) == multiset(xs)
    ensures Within(store, r)
  {
    if xs == [] then []
    else
      assert xs == [xs[0]] + xs[1..];
      Insert(store, ord, xs[0], Sort(store, ord, xs[1..]))
  }

  lemma {:induction false} InsertSorted(store: Store, ord: Order, x: nat, xs: seq<nat>)
    requires x < |store| && Within(store, xs) && SortedBy(store, ord, xs) && x !in xs
    ensures SortedBy(store, ord, Insert(store, ord, x, xs))
  {
    if xs != [] && !Before(store, ord, x, xs[0]) {
      BeforeTotal(store, ord, x, xs[0]);
      InsertSorted(store, ord, x, xs[1..]);
      InsertBehind(store, ord, x, xs);
    } else if xs != [] {
      forall j | 0 < j < |xs|
        ensures Before(store, ord, x, xs[j])
      {
        BeforeTransitive(store, ord, x, xs[0], xs[j]);
      }
    }
  }

  /** An element inserted behind the head lands among elements that all come after the head. */
  lemma InsertBehind(store: Store, ord: Order, x: nat, xs: seq<nat>)
    requires x < |store| && Within(store, xs) && SortedBy(store, ord, xs) && xs != []
    requires Before(store, ord, xs[0], x)
    ensures forall y | y in Insert(store, ord, x, xs[1..]) :: y < |store| && Before(store, ord, xs[0], y)
  {
    var rest := Insert(store, ord, x, xs[1..]);
    forall y | y in rest
      ensures y < |store| && Before(store, ord, xs[0], y)
    {
      assert y in multiset(rest);
      if y != x {
        assert y in xs[1..];
      }
    }
  }

  lemma {:induction false} SortSorted(store: Store, ord: Order, xs: seq<nat>)
    requires Within(store, xs) && Increasing(xs)
    ensures SortedBy(store, ord, Sort(store, ord, xs))
  {
    if xs != [] {
      var rest := Sort(store, ord, xs[1..]);
      SortSorted(store, ord, xs[1..]);
      assert xs[0] !in multiset(xs[1..]);
      InsertSorted(store, ord, xs[0], rest);
    }
  }

  /** `LIMIT n`: the first n elements (all of them when there are fewer). */
  function Take(xs: seq<nat>, n: int): (r: seq<nat>)
    ensures |r| == if n <= 0 then 0 else Min(n, |xs|)
    ensures r == xs[..|r|]
  {
    if n <= 0 then [] else if n >= |xs| then xs else xs[..n]
  }

  /** The records that pass `keep`, ordered by `ord`. */
  function Query(store: Store, keep: nat -> bool, ord: Order): seq<nat>
  {
    Sort(store, ord, Rows(store, keep))
  }

  /**
   * A query returns each record that passes the filter exactly once, in
   * strictly ascending order, as many as `Count` counts.
   */
  lemma QueryFacts(store: Store, keep: nat -> bool, ord: Order)
    ensures var r := Query(store, keep, ord);
      && Within(store, r)
      && (forall x: nat :: x in r <==> x < |store| && keep(x))
      && SortedBy(store, ord, r)
      && |r| == Count(store, keep)
  {
    var rows := Rows(store, keep);
    SortSorted(store, ord, rows);
    SameMembers(Query(store, keep, ord), rows);
  }

  /** Sequences with the same multiset have the same length and the same members. */
  lemma SameMembers(a: seq<nat>, b: seq<nat>)
    requires multiset(a) == multiset(b)
    ensures |a| == |b|
    ensures forall x: nat :: x in a <==> x in b
  {
    assert |multiset(a)| == |multiset(b)|;
    forall x: nat
      ensures x in a <==> x in b
    {
      assert x in multiset(a) <==> x in multiset(b);
    }
  }

  /**
   * A limited query returns the first records in the order: each one
   * passes the filter, they come in order, there are as many as the limit
   * allows, and every record left out comes after every record returned.
   */
  lemma LimitedQueryFacts(store: Store, keep: nat -> bool, ord: Order, limit: int)
    ensures var all := Query(store, keep, ord); var r := Take(all, limit);
      && Within(store, r)
      && (forall x | x in r :: keep(x))
      && SortedBy(store, ord, r)
      && |r| == (if limit <= 0 then 0 else Min(limit, Count(store, keep)))
      && (forall x: nat, y: nat | x in r && y < |store| && keep(y) && y !in r :: Before(store, ord, x, y))
  {
    QueryFacts(store, keep, ord);
    var all := Query(store, keep, ord);
    var r := Take(all, limit);
    forall x: nat, y: nat | x in r && y < |store| && keep(y) && y !in r
      ensures Before(store, ord, x, y)
    {
      var i :| 0 <= i < |r| && r[i] == x;
      var j :| 0 <= j < |all| && all[j] == y;
      assert all[i] == x;
    }
  }

  // ---------------------------------------------------------------
  // Writes: `records.write(vals)`
  // ---------------------------------------------------------------

  /** The values a wizard writes; every write also stamps `write_date`. */
  datatype Values = MarkPrinted | SetStatus(status: Status)

  function WriteRecord(r: CodeRecord, vals: Values, now: nat): CodeRecord
  {
    match vals
    case MarkPrinted => r.(isPrinted := true, writeDate := now)
    case SetStatus(st) => r.(status := st, writeDate := now)
  }

  /**
   * The table after writing `vals` to the records `ts`, one after the
   * other: exactly those records are written and no other changes.
   */
  function WriteAll(store: Store, ts: seq<nat>, vals: Values, now: nat): (r: Store)
    requires Within(store, ts)
    ensures |r| == |store|
    ensures forall j | 0 <= j < |store| :: r[j] == if j in ts then WriteRecord(store[j], vals, now) else store[j]
  {
    if ts == [] then store
    else
      var before := WriteAll(store, ts[..|ts| - 1], vals, now);
      var t := ts[|ts| - 1];
      assert forall j | j in ts :: j in ts[..|ts| - 1] || j == t;
      before[t := WriteRecord(store[t], vals, now)]
  }

  /** The write, record by record. */
  method WriteRecords(store: Store, ts: seq<nat>, vals: Values, now: nat) returns (after: Store)
    requires Within(store, ts)
    ensures after == WriteAll(store, ts, vals, now)
  {
    after := store;
    for k := 0 to |ts|
      invariant |after| == |store|
      invariant after == WriteAll(store, ts[..k], vals, now)
    {
      assert ts[..k + 1][..k] == ts[..k];
      after := after[ts[k] := WriteRecord(after[ts[k]], vals, now)];
    }
    assert ts[..|ts|] == ts;
  }
}
