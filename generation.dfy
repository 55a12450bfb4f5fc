/**
 * Bulk generation of codes (models/models.py): drawing a chunk of distinct
 * secret codes and inserting a chunk with consecutive public codes.
 *
 * `secrets.randbelow(10**12)` is a supplied stream `draws` of numbers below
 * 10^12, consumed from the front; each method returns how many it used.
 */
module Generation {
  import opened Wrappers
  import opened Text
  import opened Codes

  /** The text of the database error a duplicate key raises. */
  const UniqueViolation := "duplicate key value violates unique constraint"

  predicate Distinct(s: seq<string>)
  {
    forall i, j | 0 <= i < j < |s| :: s[i] != s[j]
  }

  /** `{c for c in codes if c not in bad}`, keeping the order of `codes`. */
  function Keep(codes: seq<string>, bad: set<string>): (r: seq<string>)
    ensures forall c :: c in r <==> c in codes && c !in bad
    ensures Distinct(codes) ==> Distinct(r)
    ensures |r| <= |codes|
  {
    if codes == [] then []
    else
      var rest := Keep(codes[1..], bad);
      assert forall c :: c in codes <==> c == codes[0] || c in codes[1..];
      if codes[0] in bad then rest else [codes[0]] + rest
  }

  /** `10 ** SECRET_CODE_LENGTH`: every draw of `secrets.randbelow` is below it. */
  const DrawBound: nat := 1_000_000_000_000

  predicate ValidDraws(draws: seq<nat>)
  {
    forall k | 0 <= k < |draws| :: draws[k] < DrawBound
  }

  /** A drawn number as a secret code: `f"{n:012d}"`. */
  function SecretCodeOf(n: nat): string
  {
    PadNat(n, SecretCodeLength)
  }

  lemma SecretCodeOfShape(n: nat)
    requires n < DrawBound
    ensures IsSecretCode(SecretCodeOf(n))
  {
    assert Pow10(SecretCodeLength) == DrawBound;
    PadNatLength(n, SecretCodeLength);
  }

  /**
   * `_generate_secret_codes_chunk`: `size` distinct twelve-digit codes, none
   * in `generated` (codes already produced by the caller) and none already
   * stored. `generated` grows by exactly those codes. When the stream runs
   * out before the chunk is full the chunk comes back empty and `generated`
   * is unchanged.
   */
  method GenerateChunk(size: nat, generated: set<string>, stored: set<string>, draws: seq<nat>)
    returns (codes: seq<string>, generatedAfter: set<string>, used: nat)
    requires ValidDraws(draws)
    ensures used <= |draws|
    ensures |codes| == size || (codes == [] && used == |draws|)
    ensures Distinct(codes)
    ensures forall c | c in codes :: IsSecretCode(c) && c !in generated && c !in stored
    ensures generatedAfter == generated + (set c | c in codes)
  {
    codes := [];
    used := 0;
    // draw until the chunk is full, skipping codes seen before
    while |codes| < size && used < |draws|
      invariant used <= |draws| && |codes| <= size
      invariant Distinct(codes)
      invariant forall c | c in codes :: IsSecretCode(c) && c !in generated
    {
      var code := SecretCodeOf(draws[used]);
      SecretCodeOfShape(draws[used]);
      used := used + 1;
      if code !in generated && code !in codes {
        codes := codes + [code];
      }
    }
    if |codes| < size {
      return [], generated, |draws|;
    }
    // one store query for the whole chunk
    var existing := set c | c in codes && c in stored;
    if existing != {} {
      codes := Keep(codes, existing);
      while |codes| < size && used < |draws|
        invariant used <= |draws| && |codes| <= size
        invariant Distinct(codes)
        invariant forall c | c in codes :: IsSecretCode(c) && c !in generated && c !in stored
      {
        var code := SecretCodeOf(draws[used]);
        SecretCodeOfShape(draws[used]);
        used := used + 1;
        if code !in generated && code !in codes && code !in stored {
          codes := codes + [code];
        }
      }
      if |codes| < size {
        return [], generated, |draws|;
      }
    } else {
      assert forall c | c in codes :: c in stored ==> c in existing;
    }
    generatedAfter := generated + (set c | c in codes);
  }

  // ---------------------------------------------------------------
  // The chunk generator as the source writes it
  // ---------------------------------------------------------------

  /** Draw until `codes` has `size` elements, skipping codes in `skip` or already drawn; also returns how many draws were used. */
  function DrawUntil(size: nat, codes: seq<string>, skip: set<string>, draws: seq<nat>): (r: (seq<string>, nat))
    ensures r.1 <= |draws|
    decreases |draws|
  {
    if |codes| >= size || draws == [] then (codes, 0)
    else
      var c := SecretCodeOf(draws[0]);
      var next := if c in skip || c in codes then codes else codes + [c];
      var rest := DrawUntil(size, next, skip, draws[1..]);
      (rest.0, rest.1 + 1)
  }

  /**
   * `_generate_secret_codes_chunk` as written: the replacements drawn after
   * a collision are checked against `existing_set` (the collisions of the
   * first query) but not against the store.
   */
  function ChunkAsWritten(size: nat, generated: set<string>, stored: set<string>, draws: seq<nat>): seq<string>
  {
    var (first, used) := DrawUntil(size, [], generated, draws);
    if |first| < size then []
    else
      var existing := set c | c in first && c in stored;
      if existing == {} then first
      else
        var (second, _) := DrawUntil(size, Keep(first, existing), generated + existing, draws[used..]);
        if |second| < size then [] else second
  }

  /** The replacement for a collision can itself be a stored code. */
  lemma ChunkAsWrittenCanReturnStoredCode()
    ensures var stored := {SecretCodeOf(0), SecretCodeOf(1)};
      var chunk := ChunkAsWritten(1, {}, stored, [0, 1]);
      chunk == [SecretCodeOf(1)] && chunk[0] in stored
  {
    var c0, c1 := SecretCodeOf(0), SecretCodeOf(1);
    assert c0 != c1 by { PadNatInjective(0, 1, SecretCodeLength); }
    var stored := {c0, c1};
    assert [0, 1][1..] == [1] && [0, 1][0] == 0;
    assert c0 !in {} && c0 !in [];
    assert [] + [c0] == [c0];
    assert DrawUntil(1, [c0], {}, [1]) == ([c0], 0);
    assert DrawUntil(1, [], {}, [0, 1]) == ([c0], 1);
    assert (set c | c in [c0] && c in stored) == {c0};
    assert Keep([c0], {c0}) == [];
    assert c1 !in {c0} && c1 !in [];
    assert [] + [c1] == [c1] && [1][1..] == [] && [1][0] == 1;
    assert DrawUntil(1, [c1], {c0}, [1][1..]) == ([c1], 0);
    assert DrawUntil(1, [], {c0}, [1]) == ([c1], 1);
  }

  // ---------------------------------------------------------------
  // _insert_secret_codes
  // ---------------------------------------------------------------

  /** The row inserted for one secret code with public number `n`. */
  function NewCodeRow(batchCode: string, secretCode: string, n: int, now: nat): CodeRecord
  {
    CodeRecord(batchCode, secretCode, PublicCodeOf(n), Inactive, Pending, false, false, 0, 0, now)
  }

  /** The rows for `secretCodes`, numbered from `seed + 1`. */
  function NewRows(batchCode: string, secretCodes: seq<string>, seed: int, now: nat): (rows: seq<CodeRecord>)
  {
    seq(|secretCodes|, i requires 0 <= i < |secretCodes| => NewCodeRow(batchCode, secretCodes[i], seed + i + 1, now))
  }

  /** New rows repeat no secret or public code of the table or of an earlier new row. */
  predicate Fits(store: Store, rows: seq<CodeRecord>)
  {
    forall i, j | 0 <= i < |rows| && 0 <= j < |store| + i ::
      (store + rows)[j].secretCode != rows[i].secretCode && (store + rows)[j].publicCode != rows[i].publicCode
  }

  lemma FitsKeepsUnique(store: Store, rows: seq<CodeRecord>)
    requires Unique(store) && Fits(store, rows)
    ensures Unique(store + rows)
  {
    var all := store + rows;
    forall i, j | 0 <= i < j < |all|
      ensures all[i].secretCode != all[j].secretCode && all[i].publicCode != all[j].publicCode
    {
      if j >= |store| {
        assert rows[j - |store|] == all[j];
      }
    }
  }

  /**
   * `_insert_secret_codes`: one row per secret code, public codes
   * `seed + 1 .. seed + k` zero-padded to eight digits, all of them
   * inactive, pending, unflagged and uncounted, in the given batch. The
   * bulk insert fails as a whole on a duplicate key. Returns `seed + k`.
   */
  method InsertCodes(store: Store, batchCode: string, secretCodes: seq<string>, seed: int, now: nat)
    returns (result: Result<Store>, next: int)
    ensures next == seed + |secretCodes|
    ensures result == if Fits(store, NewRows(batchCode, secretCodes, seed, now))
                      then Ok(store + NewRows(batchCode, secretCodes, seed, now))
                      else Err(UniqueViolation)
  {
    next := seed;
    var rows: seq<CodeRecord> := [];
    for k := 0 to |secretCodes|
      invariant next == seed + k
      invariant rows == NewRows(batchCode, secretCodes[..k], seed, now)
    {
      next := next + 1;
      rows := rows + [NewCodeRow(batchCode, secretCodes[k], next, now)];
    }
    assert secretCodes[..|secretCodes|] == secretCodes;
    if Fits(store, rows) {
      result := Ok(store + rows);
    } else {
      result := Err(UniqueViolation);
    }
  }

  /** The inserted rows carry consecutive public codes above the seed, the given batch and the initial state, in order. */
  lemma NewRowsShape(batchCode: string, secretCodes: seq<string>, seed: nat, now: nat)
    ensures var rows := NewRows(batchCode, secretCodes, seed, now);
      |rows| == |secretCodes| &&
      forall i | 0 <= i < |rows| ::
        rows[i].secretCode == secretCodes[i] && rows[i].batchCode == batchCode &&
        IsNumericCode(rows[i].publicCode) && CodeValue(rows[i].publicCode) == seed + i + 1 &&
        (seed + i + 1 < Pow10(PublicCodeLength) ==> |rows[i].publicCode| == PublicCodeLength) &&
        rows[i].status == Inactive && rows[i].validateStatus == Pending &&
        !rows[i].limitReached && !rows[i].isPrinted &&
        rows[i].successCount == 0 && rows[i].failCount == 0
  {
    var rows := NewRows(batchCode, secretCodes, seed, now);
    forall i | 0 <= i < |rows|
      ensures IsNumericCode(rows[i].publicCode) && CodeValue(rows[i].publicCode) == seed + i + 1
      ensures seed + i + 1 < Pow10(PublicCodeLength) ==> |rows[i].publicCode| == PublicCodeLength
    {
      PublicCodeOfShape(seed + i + 1);
    }
  }

  /**
   * Rows for distinct, unstored secret codes numbered above every numeric
   * public code of the table never hit a unique constraint.
   */
  lemma NewRowsFit(store: Store, batchCode: string, secretCodes: seq<string>, seed: nat, now: nat)
    requires Distinct(secretCodes)
    requires forall c | c in secretCodes :: c !in SecretCodes(store)
    requires forall r | r in store && IsNumericCode(r.publicCode) :: CodeValue(r.publicCode) <= seed
    ensures Fits(store, NewRows(batchCode, secretCodes, seed, now))
  {
    var rows := NewRows(batchCode, secretCodes, seed, now);
    NewRowsShape(batchCode, secretCodes, seed, now);
    forall i, j | 0 <= i < |rows| && 0 <= j < |store| + i
      ensures (store + rows)[j].secretCode != rows[i].secretCode && (store + rows)[j].publicCode != rows[i].publicCode
    {
      if j < |store| {
        assert (store + rows)[j] == store[j] && store[j] in store;
        assert secretCodes[i] in secretCodes;
      } else {
        assert (store + rows)[j] == rows[j - |store|];
      }
    }
  }

  /** The secret codes of a run of rows, in order. */
  function SecretsOf(rows: seq<CodeRecord>): (r: seq<string>)
    ensures |r| == |rows| && forall i | 0 <= i < |rows| :: r[i] == rows[i].secretCode
  {
    seq(|rows|, i requires 0 <= i < |rows| => rows[i].secretCode)
  }

  lemma NewRowsAppend(batchCode: string, a: seq<string>, b: seq<string>, seed: int, now: nat)
    ensures NewRows(batchCode, a + b, seed, now) == NewRows(batchCode, a, seed, now) + NewRows(batchCode, b, seed + |a|, now)
  {
  }

  lemma SecretsOfNewRows(batchCode: string, secretCodes: seq<string>, seed: int, now: nat)
    ensures SecretsOf(NewRows(batchCode, secretCodes, seed, now)) == secretCodes
  {
  }

  lemma SecretCodesAppend(store: Store, rows: seq<CodeRecord>)
    ensures SecretCodes(store + rows) == SecretCodes(store) + (set c | c in SecretsOf(rows))
  {
    var all := store + rows;
    forall c | c in SecretCodes(all)
      ensures c in SecretCodes(store) || c in SecretsOf(rows)
    {
      var r :| r in all && r.secretCode == c;
      var k :| 0 <= k < |all| && all[k] == r;
      if k >= |store| {
        assert rows[k - |store|] == r;
      }
    }
    forall c | c in SecretCodes(store) + (set c | c in SecretsOf(rows))
      ensures c in SecretCodes(all)
    {
      if c in SecretCodes(store) {
        var r :| r in store && r.secretCode == c;
        assert r in all;
      } else {
        var k :| 0 <= k < |rows| && SecretsOf(rows)[k] == c;
        assert all[|store| + k] == rows[k];
      }
    }
  }

  lemma DistinctAppend(a: seq<string>, b: seq<string>)
    requires Distinct(a) && Distinct(b)
    requires forall c | c in b :: c !in a
    ensures Distinct(a + b)
  {
    forall i, j | 0 <= i < j < |a + b|
      ensures (a + b)[i] != (a + b)[j]
    {
      if i < |a| && j >= |a| {
        assert (a + b)[j] == b[j - |a|] && b[j - |a|] in b;
      }
    }
  }

  /**
   * The rows appended to `store` so far: one per code of `secrets`, in
   * order, numbered from `first + 1`; the codes are distinct, well formed
   * and new to `store`, and the table keeps its uniqueness constraints.
   */
  ghost predicate RunOf(store: Store, storeAfter: Store, batchCode: string, secrets: seq<string>, first: int, now: nat)
  {
    Distinct(secrets) &&
    (forall c | c in secrets :: IsSecretCode(c) && c !in SecretCodes(store)) &&
    storeAfter == store + NewRows(batchCode, secrets, first, now) &&
    (Unique(store) ==> Unique(storeAfter))
  }

  /** A chunk inserted after a run, numbered where the run stopped, extends that run. */
  lemma RunGrows(store: Store, mid: Store, stored: Store, batchCode: string, secrets: seq<string>, codes: seq<string>,
                 first: int, now: nat)
    requires RunOf(store, mid, batchCode, secrets, first, now)
    requires Distinct(codes) && forall c | c in codes :: IsSecretCode(c) && c !in SecretCodes(mid)
    requires stored == mid + NewRows(batchCode, codes, first + |secrets|, now)
    requires Unique(mid) ==> Unique(stored)
    ensures RunOf(store, stored, batchCode, secrets + codes, first, now)
  {
    NewRowsAppend(batchCode, secrets, codes, first, now);
    SecretsOfNewRows(batchCode, secrets, first, now);
    SecretCodesAppend(store, NewRows(batchCode, secrets, first, now));
    DistinctAppend(secrets, codes);
  }

  /** `seed` is at least every numeric public code of the table. */
  predicate SeedBound(store: Store, seed: int)
  {
    forall r | r in store && IsNumericCode(r.publicCode) :: CodeValue(r.publicCode) <= seed
  }

  /** After inserting `k` rows numbered from `seed`, `seed + k` bounds the table's public codes. */
  lemma SeedBoundGrows(store: Store, batchCode: string, secretCodes: seq<string>, seed: nat, now: nat)
    requires SeedBound(store, seed)
    ensures SeedBound(store + NewRows(batchCode, secretCodes, seed, now), seed + |secretCodes|)
  {
    var rows := NewRows(batchCode, secretCodes, seed, now);
    NewRowsShape(batchCode, secretCodes, seed, now);
    forall r | r in store + rows && IsNumericCode(r.publicCode)
      ensures CodeValue(r.publicCode) <= seed + |secretCodes|
    {
      if r !in store {
        var i :| 0 <= i < |rows| && rows[i] == r;
      }
    }
  }
}
