/**
 * The code store of models/models.py: the `secret_codes` record, the two
 * uniqueness constraints of the table, the masked secret code, the next
 * batch code and the seed of the public-code sequence.
 *
 * A table is a sequence of records; a record's id is its index (records are
 * never deleted, and ids grow in insertion order).
 */
module Codes {
  import opened Wrappers
  import opened Text

  const BulkInsertBatchSize: nat := 5000
  const PublicCodeLength: nat := 8
  const PublicCodeStart: nat := 10100000
  const SecretCodeLength: nat := 12
  const BatchCodeLength: nat := 6

  datatype Status = Active | Inactive
  datatype ValidateStatus = Validated | Pending

  datatype CodeRecord = CodeRecord(
    batchCode: string,
    secretCode: string,
    publicCode: string,
    status: Status,
    validateStatus: ValidateStatus,
    limitReached: bool,
    isPrinted: bool,
    successCount: int,
    failCount: int,
    writeDate: nat)

  type Store = seq<CodeRecord>

  /** The table's constraints `unique(secret_code)` and `unique(public_code)`. */
  predicate Unique(store: Store)
  {
    forall i, j | 0 <= i < j < |store| ::
      store[i].secretCode != store[j].secretCode && store[i].publicCode != store[j].publicCode
  }

  function SecretCodes(store: Store): set<string>
  {
    set r | r in store :: r.secretCode
  }

  function PublicCodes(store: Store): set<string>
  {
    set r | r in store :: r.publicCode
  }

  /** A well-formed generated secret code: twelve decimal digits. */
  predicate IsSecretCode(s: string)
  {
    |s| == SecretCodeLength && OnlyDigits(s)
  }

  // ---------------------------------------------------------------
  // _compute_secret_code_masked
  // ---------------------------------------------------------------

  /** All but the last four characters replaced by `*`. */
  function Masked(code: string): (r: string)
    ensures code == [] ==> r == []
    ensures |r| == |code|
    ensures |code| <= 4 ==> r == code
    ensures |code| > 4 ==> r[|r| - 4..] == code[|code| - 4..]
    ensures forall i | 0 <= i < |code| - 4 :: r[i] == '*'
  {
    if code == [] then []
    else
      var tail := if |code| > 4 then code[|code| - 4..] else code;
      Repeat('*', Max(|code| - 4, 0)) + tail
  }

  // ---------------------------------------------------------------
  // generate_next_batch_code
  // ---------------------------------------------------------------

  /** `batch_code ~ '^B[0-9]+$'`. */
  predicate IsBatchCode(code: string)
  {
    |code| >= 2 && code[0] == 'B' && OnlyDigits(code[1..])
  }

  function BatchNumber(code: string): nat
    requires IsBatchCode(code)
  {
    DigitsValue(code[1..])
  }

  /** The largest numeric suffix among the batch codes of the form B<digits>, or 0. */
  function MaxBatchNumber(store: Store): (m: nat)
    ensures forall r | r in store && IsBatchCode(r.batchCode) :: BatchNumber(r.batchCode) <= m
    ensures m == 0 || exists r | r in store && IsBatchCode(r.batchCode) :: BatchNumber(r.batchCode) == m
  {
    if store == [] then 0
    else
      var rest := MaxBatchNumber(store[1..]);
      assert store == [store[0]] + store[1..];
      if IsBatchCode(store[0].batchCode) then Max(BatchNumber(store[0].batchCode), rest) else rest
  }

  /** `B` followed by the next batch number, zero-padded to at least six digits. */
  function NextBatchCode(store: Store): (r: string)
    ensures IsBatchCode(r) && |r| >= 1 + BatchCodeLength
    ensures BatchNumber(r) == MaxBatchNumber(store) + 1
  {
    var r := "B" + PadNat(MaxBatchNumber(store) + 1, BatchCodeLength);
    assert r[1..] == PadNat(MaxBatchNumber(store) + 1, BatchCodeLength);
    PadNatValue(MaxBatchNumber(store) + 1, BatchCodeLength);
    r
  }

  /** The next batch code is no batch code of the table. */
  lemma NextBatchCodeFresh(store: Store)
    ensures forall rec | rec in store :: rec.batchCode != NextBatchCode(store)
  {
    var r := NextBatchCode(store);
    forall rec | rec in store ensures rec.batchCode != r {
      if IsBatchCode(rec.batchCode) {
        assert BatchNumber(rec.batchCode) < BatchNumber(r);
      }
    }
  }

  /** A table without batch codes of the form B<digits> starts at `B000001`. */
  lemma FirstBatchCode(store: Store)
    requires forall rec | rec in store :: !IsBatchCode(rec.batchCode)
    ensures NextBatchCode(store) == "B000001"
  {
    assert MaxBatchNumber(store) == 0;
    assert NatToDigits(1) == "1";
    assert Repeat('0', BatchCodeLength - 1) == "00000";
  }

  // ---------------------------------------------------------------
  // _get_next_public_code
  // ---------------------------------------------------------------

  /** `public_code ~ '^[0-9]+$'`. */
  predicate IsNumericCode(code: string) { AllDigits(code) }

  function CodeValue(code: string): nat
    requires IsNumericCode(code)
  {
    DigitsValue(code)
  }

  /** The largest value of an all-digit public code, if any. */
  function MaxPublicValue(store: Store): (m: Option<nat>)
    ensures m.None? <==> forall r | r in store :: !IsNumericCode(r.publicCode)
    ensures m.Some? ==> forall r | r in store && IsNumericCode(r.publicCode) :: CodeValue(r.publicCode) <= m.value
    ensures m.Some? ==> exists r | r in store && IsNumericCode(r.publicCode) :: CodeValue(r.publicCode) == m.value
  {
    if store == [] then None
    else
      var rest := MaxPublicValue(store[1..]);
      assert store == [store[0]] + store[1..];
      if !IsNumericCode(store[0].publicCode) then rest
      else
        var v := CodeValue(store[0].publicCode);
        if rest.None? then Some(v) else Some(Max(v, rest.value))
  }

  /** The last public code handed out: the largest numeric one, or `PUBLIC_CODE_START - 1`. */
  function PublicSeed(store: Store): (n: nat)
    ensures forall r | r in store && IsNumericCode(r.publicCode) :: CodeValue(r.publicCode) <= n
    ensures (forall r | r in store :: !IsNumericCode(r.publicCode)) ==> n == PublicCodeStart - 1
    ensures (exists r | r in store :: IsNumericCode(r.publicCode)) ==>
      exists r | r in store && IsNumericCode(r.publicCode) :: CodeValue(r.publicCode) == n
  {
    match MaxPublicValue(store)
    case None => PublicCodeStart - 1
    case Some(v) => v
  }

  /** The public code of the n-th code: `str(n).zfill(PUBLIC_CODE_LENGTH)`. */
  function PublicCodeOf(n: int): string
  {
    PadInt(n, PublicCodeLength)
  }

  /** For a non-negative number the public code is all digits, has its value, and is 8 long below 10^8. */
  lemma PublicCodeOfShape(n: nat)
    ensures IsNumericCode(PublicCodeOf(n)) && CodeValue(PublicCodeOf(n)) == n
    ensures n < Pow10(PublicCodeLength) ==> |PublicCodeOf(n)| == PublicCodeLength
  {
    PadNatValue(n, PublicCodeLength);
    if n < Pow10(PublicCodeLength) {
      PadNatLength(n, PublicCodeLength);
    }
  }
}
