/**
 * The generation wizard of wizard/generate_wizard.py: codes are either
 * queued as a background job (when asked to, or when more than one chunk
 * is wanted) or generated at once, chunk by chunk, sharing one set of
 * codes already produced.
 */
module GenerateWizard {
  import opened Wrappers
  import opened Text
  import opened Codes
  import opened Generation
  import opened Jobs

  /** The background path is taken on request or for more than one chunk's worth of codes. */
  predicate RunsInBackground(count: int, runInBackground: bool)
  {
    runInBackground || count > BulkInsertBatchSize
  }

  /**
   * `_default_batch_code`: the batch code the wizard offers, the next one of
   * the table, which is a `B<digits>` code no stored record carries.
   */
  function DefaultBatchCode(store: Store): (r: string)
    ensures IsBatchCode(r) && BatchNumber(r) == MaxBatchNumber(store) + 1
    ensures forall rec | rec in store :: rec.batchCode != r
  {
    NextBatchCodeFresh(store);
    NextBatchCode(store)
  }

  /**
   * The job the wizard queues: pending, nothing generated yet, and
   * numbered from the table's last public code, kept as a string.
   */
  function QueuedJob(batchCode: string, count: int, store: Store): (job: Job)
    ensures job.batchCode == batchCode && job.countTotal == count && job.countGenerated == 0
    ensures job.state == JobPending && job.message == None
    ensures ParseInt(job.lastPublicCode) == Some(PublicSeed(store))
  {
    ParseIntRoundTrip(PublicSeed(store));
    Job(batchCode, count, 0, IntToString(PublicSeed(store)), JobPending, None)
  }

  /**
   * `action_generate`. In the background case one job is queued and the
   * code table is untouched. Otherwise the codes go straight in: the new
   * rows carry fresh, distinct secret codes and the public numbers that
   * follow the table's last one, there are `count` of them unless the
   * random stream ran dry first, and no unique constraint is ever hit.
   */
  method ActionGenerate(count: int, batchCode: string, runInBackground: bool,
                        store: Store, jobs: seq<Job>, draws: seq<nat>, now: nat)
    returns (storeAfter: Store, jobsAfter: seq<Job>, used: nat)
    requires ValidDraws(draws)
    ensures used <= |draws|
    ensures RunsInBackground(count, runInBackground) ==>
      storeAfter == store && used == 0 && jobsAfter == jobs + [QueuedJob(batchCode, count, store)]
    ensures !RunsInBackground(count, runInBackground) ==>
      jobsAfter == jobs && |store| <= |storeAfter| &&
      RunOf(store, storeAfter, batchCode, SecretsOf(Appended(store, storeAfter)), PublicSeed(store), now) &&
      |storeAfter| - |store| <= Max(count, 0) &&
      (|storeAfter| - |store| == Max(count, 0) || used == |draws|)
  {
    if RunsInBackground(count, runInBackground) {
      return store, jobs + [QueuedJob(batchCode, count, store)], 0;
    }
    jobsAfter := jobs;
    storeAfter := store;
    used := 0;
    var remaining := count;
    var seed := PublicSeed(store);
    var next: int := seed;
    var generated: set<string> := {};
    ghost var secrets: seq<string> := [];
    var dry := false;
    assert store + NewRows(batchCode, secrets, seed, now) == store;
    while remaining > 0 && !dry
      invariant used <= |draws|
      invariant remaining == count - |secrets|
      invariant next == seed + |secrets|
      invariant RunOf(store, storeAfter, batchCode, secrets, seed, now)
      invariant SeedBound(storeAfter, next)
      invariant |secrets| <= Max(count, 0)
      invariant dry ==> used == |draws|
      decreases remaining, if dry then 0 else 1
    {
      var codes, u;
      storeAfter, codes, generated, next, u :=
        GenerateAndInsert(store, storeAfter, batchCode, secrets, seed, next, generated, remaining, draws[used..], now);
      used := used + u;
      secrets := secrets + codes;
      remaining := remaining - |codes|;
      dry := codes == [];
    }
    assert Appended(store, storeAfter) == NewRows(batchCode, secrets, seed, now);
    SecretsOfNewRows(batchCode, secrets, seed, now);
  }

  /**
   * One pass of the immediate path: a chunk of up to `BulkInsertBatchSize`
   * codes is drawn and inserted, numbered from `next`. The run so far is
   * extended by the chunk, which is empty only when the stream ran dry.
   */
  method GenerateAndInsert(ghost store: Store, storeBefore: Store, batchCode: string, ghost secrets: seq<string>,
                           ghost seed: nat, next: nat, generated: set<string>, remaining: int, draws: seq<nat>, now: nat)
    returns (storeAfter: Store, codes: seq<string>, generatedAfter: set<string>, nextAfter: int, used: nat)
    requires ValidDraws(draws) && remaining > 0
    requires next == seed + |secrets|
    requires RunOf(store, storeBefore, batchCode, secrets, seed, now) && SeedBound(storeBefore, next)
    ensures used <= |draws|
    ensures codes == [] ==> used == |draws|
    ensures |codes| <= remaining && nextAfter == next + |codes|
    ensures RunOf(store, storeAfter, batchCode, secrets + codes, seed, now) && SeedBound(storeAfter, nextAfter)
  {
    var chunkSize := Min(BulkInsertBatchSize, remaining);
    codes, generatedAfter, used := GenerateChunk(chunkSize, generated, SecretCodes(storeBefore), draws);
    // distinct new secret codes numbered above the table never collide
    NewRowsFit(storeBefore, batchCode, codes, next, now);
    var result;
    result, nextAfter := InsertCodes(storeBefore, batchCode, codes, next, now);
    assert result.Ok?;
    if Unique(storeBefore) {
      FitsKeepsUnique(storeBefore, NewRows(batchCode, codes, next, now));
    }
    RunGrows(store, storeBefore, result.value, batchCode, secrets, codes, seed, now);
    SeedBoundGrows(storeBefore, batchCode, codes, next, now);
    storeAfter := result.value;
  }
}
