/**
 * The background generation job of models/secret_code_job.py: the oldest
 * pending or running job is advanced by chunks of at most
 * `BULK_INSERT_BATCH_SIZE` codes until it is complete, a chunk cannot be
 * drawn, an error is raised, or fifty seconds have passed.
 *
 * The job table is a sequence; a job's id is its index. `timeUp(k)` says
 * whether the time budget is spent after `k` chunks have been inserted.
 */
module Jobs {
  import opened Wrappers
  import opened Text
  import opened Codes
  import opened Generation

  datatype JobState = JobPending | JobRunning | JobDone | JobFailed

  datatype Job = Job(
    batchCode: string,
    countTotal: int,
    countGenerated: int,
    lastPublicCode: string,
    state: JobState,
    message: Option<string>)

  const EmptyChunkMessage := "Failed to generate unique secret codes."

  predicate IsOpen(job: Job)
  {
    job.state == JobPending || job.state == JobRunning
  }

  /** The lowest id whose job is pending or running. */
  function FirstOpen(jobs: seq<Job>): (r: Option<nat>)
    ensures r.Some? ==> r.value < |jobs| && IsOpen(jobs[r.value])
    ensures r.Some? ==> forall k | 0 <= k < r.value :: !IsOpen(jobs[k])
    ensures r.None? ==> forall k | 0 <= k < |jobs| :: !IsOpen(jobs[k])
  {
    if jobs == [] then None
    else if IsOpen(jobs[0]) then Some(0)
    else
      match FirstOpen(jobs[1..])
      case None => None
      case Some(k) => Some(k + 1)
  }

  /** How a run ended: no open job, a plain return, a return because time ran out, or a re-raised error. */
  datatype RunOutcome = NoJob | Returned | Yielded | Raised(error: string)

  /** The rows a run appended to the code table, given the table before it. */
  function Appended(store: Store, storeAfter: Store): seq<CodeRecord>
    requires |store| <= |storeAfter|
  {
    storeAfter[|store|..]
  }

  /**
   * What a run does to the job it picked and to the code table, given
   * `seed`, the value of `int(before.last_public_code)` (`None` if that
   * raises): the rows added are the job's next public numbers with fresh,
   * distinct secret codes, the counter advances by exactly that many
   * (never past the total), and `last_public_code` moves with it.
   */
  /** `last_public_code` after a run that started from public number `seed`. */
  ghost predicate Numbered(before: Job, seed: int, after: Job)
  {
    var added := after.countGenerated - before.countGenerated;
    (added == 0 ==> after.lastPublicCode == before.lastPublicCode) &&
    (added > 0 ==> after.lastPublicCode == IntToString(seed + added))
  }

  ghost predicate AdvancesFrom(before: Job, seed: Option<int>, after: Job, store: Store, storeAfter: Store, now: nat)
  {
    var added := after.countGenerated - before.countGenerated;
    after.batchCode == before.batchCode && after.countTotal == before.countTotal &&
    0 <= added && after.countGenerated <= Max(before.countGenerated, before.countTotal) &&
    |storeAfter| == |store| + added && storeAfter[..|store|] == store &&
    Distinct(SecretsOf(Appended(store, storeAfter))) &&
    (forall c | c in SecretsOf(Appended(store, storeAfter)) :: IsSecretCode(c) && c !in SecretCodes(store)) &&
    match seed
    case None => added == 0 && after.lastPublicCode == before.lastPublicCode
    case Some(n) =>
      Numbered(before, n, after) &&
      Appended(store, storeAfter) == NewRows(before.batchCode, SecretsOf(Appended(store, storeAfter)), n, now)
  }

  ghost predicate Progress(before: Job, after: Job, store: Store, storeAfter: Store, now: nat)
  {
    AdvancesFrom(before, ParseInt(before.lastPublicCode), after, store, storeAfter, now)
  }

  /** How the job's state and message end up, and which outcome goes with each. */
  ghost predicate SettledFrom(before: Job, seed: Option<int>, after: Job, outcome: RunOutcome)
  {
    after.state != JobPending &&
    (outcome == Yielded <==> after.state == JobRunning) &&
    (after.state == JobRunning ==>
      before.countGenerated < after.countGenerated < after.countTotal && after.message == before.message) &&
    (after.state == JobDone ==>
      outcome == Returned && after.countGenerated >= after.countTotal && after.message == before.message) &&
    (after.state == JobFailed ==>
      (outcome == Returned && after.message == Some(EmptyChunkMessage) && after.countGenerated < after.countTotal) ||
      (outcome.Raised? && after.message == Some(outcome.error))) &&
    (outcome.Raised? ==>
      after.state == JobFailed &&
      outcome.error == if seed.None? then IntError(before.lastPublicCode) else UniqueViolation)
  }

  ghost predicate Settled(before: Job, after: Job, outcome: RunOutcome)
  {
    SettledFrom(before, ParseInt(before.lastPublicCode), after, outcome)
  }

  /** `AdvancesFrom` from the facts the loop of `ChunkLoop` keeps. */
  lemma AdvancesOf(before: Job, seed: Option<int>, after: Job, store: Store, storeAfter: Store,
                   secrets: seq<string>, first: int, last: int, now: nat)
    requires after.batchCode == before.batchCode && after.countTotal == before.countTotal
    requires after.countGenerated == before.countGenerated + |secrets|
    requires after.countGenerated <= Max(before.countGenerated, before.countTotal)
    requires RunOf(store, storeAfter, before.batchCode, secrets, first, now)
    requires seed.Some? ==> seed.value == first
    requires secrets == [] ==> after.lastPublicCode == before.lastPublicCode
    requires last == first + |secrets|
    requires secrets != [] ==> seed.Some? && after.lastPublicCode == IntToString(last)
    ensures AdvancesFrom(before, seed, after, store, storeAfter, now)
  {
    assert Appended(store, storeAfter) == NewRows(before.batchCode, secrets, first, now);
    SecretsOfNewRows(before.batchCode, secrets, first, now);
  }

  /**
   * `int(job.last_public_code) - job.count_generated` is the same before
   * and after a run: the next run of the job continues the public
   * numbering where this one stopped.
   */
  lemma ProgressKeepsNumbering(before: Job, after: Job, store: Store, storeAfter: Store, now: nat)
    requires Progress(before, after, store, storeAfter, now)
    requires ParseInt(before.lastPublicCode).Some?
    ensures ParseInt(after.lastPublicCode).Some?
    ensures ParseInt(after.lastPublicCode).value - after.countGenerated
         == ParseInt(before.lastPublicCode).value - before.countGenerated
  {
    var seed := ParseInt(before.lastPublicCode).value;
    assert Numbered(before, seed, after);
    NumberedParses(before, seed, after);
  }

  lemma NumberedParses(before: Job, seed: int, after: Job)
    requires ParseInt(before.lastPublicCode) == Some(seed)
    requires after.countGenerated >= before.countGenerated
    requires Numbered(before, seed, after)
    ensures ParseInt(after.lastPublicCode) == Some(seed + (after.countGenerated - before.countGenerated))
  {
    var added := after.countGenerated - before.countGenerated;
    if added > 0 {
      ParseIntRoundTrip(seed + added);
    }
  }


  /** How one pass of the loop ended: a chunk went in, none could be drawn, or an error was raised. */
  datatype ChunkEnd = Inserted | NoChunk | Failed(error: string)

  /**
   * One pass of the loop of `run_pending_jobs` for a job with codes still
   * to go: draw a chunk, then insert it after `seed`, the value of
   * `int(job.last_public_code)` (`None` when that raises).
   */
  method InsertChunk(job: Job, seed: Option<int>, store: Store, draws: seq<nat>, now: nat)
    returns (codes: seq<string>, storeAfter: Store, next: int, used: nat, end: ChunkEnd)
    requires job.countGenerated < job.countTotal
    requires ValidDraws(draws)
    ensures used <= |draws|
    ensures end != Inserted ==> storeAfter == store
    ensures end == NoChunk ==> used == |draws|
    ensures end.Failed? ==> end.error == if seed.None? then IntError(job.lastPublicCode) else UniqueViolation
    ensures end == Inserted ==>
      seed.Some? &&
      0 < |codes| <= job.countTotal - job.countGenerated && |codes| <= BulkInsertBatchSize &&
      next == seed.value + |codes| &&
      storeAfter == store + NewRows(job.batchCode, codes, seed.value, now) &&
      Distinct(codes) && (forall c | c in codes :: IsSecretCode(c) && c !in SecretCodes(store)) &&
      (Unique(store) ==> Unique(storeAfter))
  {
    storeAfter := store;
    next := 0;
    var chunkSize := Min(BulkInsertBatchSize, job.countTotal - job.countGenerated);
    var generated;
    codes, generated, used := GenerateChunk(chunkSize, {}, SecretCodes(store), draws);
    if codes == [] {
      end := NoChunk;
      return;
    }
    if seed.None? {
      end := Failed(IntError(job.lastPublicCode));
      return;
    }
    var result;
    result, next := InsertCodes(store, job.batchCode, codes, seed.value, now);
    if result.Err? {
      end := Failed(result.error);
      return;
    }
    if Unique(store) {
      FitsKeepsUnique(store, NewRows(job.batchCode, codes, seed.value, now));
    }
    storeAfter := result.value;
    end := Inserted;
  }

  /** Why the loop of `run_pending_jobs` stopped. */
  datatype LoopEnd = Complete | NoCodes | Error(error: string) | OutOfTime

  /**
   * The loop of `run_pending_jobs` on the picked job: chunks are drawn and
   * inserted until the job is complete, a chunk cannot be drawn, an error
   * is raised or the time is up. The job's state and message are settled
   * by the caller, `AdvanceJob`.
   *
   * `int(job.last_public_code)` is read once into `seed`; after each chunk
   * the field holds `str(next)`, whose `int()` is `next` again
   * (`Text.ParseIntRoundTrip`), so `seed` becomes `next`.
   */
  method ChunkLoop(start: Job, seed0: Option<int>, store: Store, draws: seq<nat>, timeUp: nat -> bool, now: nat)
    returns (job: Job, storeAfter: Store, used: nat, end: LoopEnd)
    requires ValidDraws(draws)
    ensures used <= |draws|
    ensures AdvancesFrom(start, seed0, job, store, storeAfter, now)
    ensures job.state == start.state && job.message == start.message
    ensures end == Complete ==> job.countGenerated >= job.countTotal
    ensures end == NoCodes ==> used == |draws| && job.countGenerated < job.countTotal
    ensures end.Error? ==>
      job.countGenerated < job.countTotal &&
      end.error == if seed0.None? then IntError(start.lastPublicCode) else UniqueViolation
    ensures end == OutOfTime ==> start.countGenerated < job.countGenerated < job.countTotal
    ensures Unique(store) ==> Unique(storeAfter)
  {
    job := start;
    storeAfter := store;
    used := 0;
    var chunks: nat := 0;
    var seed := seed0;
    ghost var first := if seed0.Some? then seed0.value else 0;
    ghost var secrets: seq<string> := [];
    ghost var last := first;
    assert store + NewRows(job.batchCode, secrets, first, now) == store;
    var stop: Option<LoopEnd> := None;
    while stop.None?
      invariant used <= |draws|
      invariant job.batchCode == start.batchCode && job.countTotal == start.countTotal
      invariant job.state == start.state && job.message == start.message
      invariant job.countGenerated == start.countGenerated + |secrets|
      invariant job.countGenerated <= Max(start.countGenerated, start.countTotal)
      invariant RunOf(store, storeAfter, job.batchCode, secrets, first, now)
      invariant secrets == [] ==> seed == seed0 && job.lastPublicCode == start.lastPublicCode
      invariant secrets != [] ==> seed0.Some? && seed == Some(last) && job.lastPublicCode == IntToString(last)
      invariant last == first + |secrets|
      invariant stop == Some(Complete) ==> job.countGenerated >= job.countTotal
      invariant stop == Some(NoCodes) ==> used == |draws| && job.countGenerated < job.countTotal
      invariant stop.Some? && stop.value.Error? ==>
        job.countGenerated < job.countTotal &&
        stop.value.error == if seed0.None? then IntError(start.lastPublicCode) else UniqueViolation
      invariant stop == Some(OutOfTime) ==> start.countGenerated < job.countGenerated < job.countTotal
      decreases if stop.None? then 1 else 0, job.countTotal - job.countGenerated
    {
      if job.countTotal - job.countGenerated <= 0 {
        stop := Some(Complete);
      } else {
        var codes, stored, next, u, chunkEnd := InsertChunk(job, seed, storeAfter, draws[used..], now);
        used := used + u;
        if chunkEnd == NoChunk {
          stop := Some(NoCodes);
        } else if chunkEnd.Failed? {
          stop := Some(Error(chunkEnd.error));
        } else {
          RunGrows(store, storeAfter, stored, job.batchCode, secrets, codes, first, now);
          storeAfter := stored;
          secrets := secrets + codes;
          chunks := chunks + 1;
          job := job.(lastPublicCode := IntToString(next), countGenerated := job.countGenerated + |codes|);
          seed := Some(next);
          last := next;
          if job.countGenerated >= job.countTotal {
            stop := Some(Complete);
          } else if timeUp(chunks) {
            stop := Some(OutOfTime);
          }
        }
      }
    }
    end := stop.value;
    AdvancesOf(start, seed0, job, store, storeAfter, secrets, first, last, now);
  }

  /**
   * The body of `run_pending_jobs` once a job is picked: it is marked
   * running, advanced by `ChunkLoop`, and marked done, or failed with the
   * message of what went wrong, or left running when time is up.
   */
  method AdvanceJob(before: Job, store: Store, draws: seq<nat>, timeUp: nat -> bool, now: nat)
    returns (job: Job, storeAfter: Store, used: nat, outcome: RunOutcome)
    requires ValidDraws(draws)
    ensures used <= |draws|
    ensures Progress(before, job, store, storeAfter, now)
    ensures Settled(before, job, outcome)
    ensures job.state == JobFailed && outcome == Returned ==> used == |draws|
    ensures Unique(store) ==> Unique(storeAfter)
  {
    var end;
    job, storeAfter, used, end := ChunkLoop(before.(state := JobRunning), ParseInt(before.lastPublicCode), store, draws, timeUp, now);
    match end
    case Complete =>
      job := job.(state := JobDone);
      outcome := Returned;
    case NoCodes =>
      job := job.(state := JobFailed, message := Some(EmptyChunkMessage));
      outcome := Returned;
    case Error(e) =>
      job := job.(state := JobFailed, message := Some(e));
      outcome := Raised(e);
    case OutOfTime =>
      outcome := Yielded;
  }

  /**
   * `run_pending_jobs`: picks the oldest open job and advances it. Only
   * that job and the code table change.
   */
  method RunPendingJobs(jobs: seq<Job>, store: Store, draws: seq<nat>, timeUp: nat -> bool, now: nat)
    returns (jobsAfter: seq<Job>, storeAfter: Store, used: nat, outcome: RunOutcome)
    requires ValidDraws(draws)
    ensures used <= |draws| && |jobsAfter| == |jobs|
    ensures FirstOpen(jobs).None? ==> jobsAfter == jobs && storeAfter == store && used == 0 && outcome == NoJob
    ensures FirstOpen(jobs).Some? ==>
      forall k | 0 <= k < |jobs| && k != FirstOpen(jobs).value :: jobsAfter[k] == jobs[k]
    ensures FirstOpen(jobs).Some? ==>
      Progress(jobs[FirstOpen(jobs).value], jobsAfter[FirstOpen(jobs).value], store, storeAfter, now)
    ensures FirstOpen(jobs).Some? ==>
      Settled(jobs[FirstOpen(jobs).value], jobsAfter[FirstOpen(jobs).value], outcome)
    ensures Unique(store) ==> Unique(storeAfter)
  {
    var open := FirstOpen(jobs);
    if open.None? {
      return jobs, store, 0, NoJob;
    }
    var job;
    job, storeAfter, used, outcome := AdvanceJob(jobs[open.value], store, draws, timeUp, now);
    jobsAfter := jobs[open.value := job];
  }

  /**
   * One cron run of `run_pending_jobs` in its transaction. The runner
   * re-raises what went wrong after marking the job failed and never
   * commits, so a raise rolls the whole run back: the job keeps its earlier
   * state and the chunks inserted in the run are gone. A job that ends up
   * failed was failed before, or ran out of codes.
   */
  method CronRun(jobs: seq<Job>, store: Store, draws: seq<nat>, timeUp: nat -> bool, now: nat)
    returns (jobsAfter: seq<Job>, storeAfter: Store, used: nat, outcome: RunOutcome)
    requires ValidDraws(draws)
    ensures used <= |draws| && |jobsAfter| == |jobs|
    ensures outcome.Raised? ==> jobsAfter == jobs && storeAfter == store
    ensures !outcome.Raised? && FirstOpen(jobs).Some? ==>
      && (forall k | 0 <= k < |jobs| && k != FirstOpen(jobs).value :: jobsAfter[k] == jobs[k])
      && Progress(jobs[FirstOpen(jobs).value], jobsAfter[FirstOpen(jobs).value], store, storeAfter, now)
      && Settled(jobs[FirstOpen(jobs).value], jobsAfter[FirstOpen(jobs).value], outcome)
    ensures FirstOpen(jobs).None? ==> jobsAfter == jobs && storeAfter == store && outcome == NoJob
    ensures forall k | 0 <= k < |jobs| && jobsAfter[k].state == JobFailed ::
      jobs[k].state == JobFailed || jobsAfter[k].message == Some(EmptyChunkMessage)
    ensures Unique(store) ==> Unique(storeAfter)
  {
    jobsAfter, storeAfter, used, outcome := RunPendingJobs(jobs, store, draws, timeUp, now);
    if outcome.Raised? {
      jobsAfter, storeAfter := jobs, store;
    }
  }
}
