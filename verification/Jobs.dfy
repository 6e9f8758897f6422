/** Retry bookkeeping shared by repair, rebalance and integrity jobs. */
module Jobs {
  import opened Base
  import opened Tables

  /** What one call of a `run_job` amounts to for its job row. */
  datatype Outcome =
    | Untouched       // nothing was recorded: the job is finished, or the call was rejected before it started
    | Rejected        // marked FAILED without an attempt
    | Succeeded
    | Errored         // a handled error: back to PENDING, or FAILED when attempts are used up
    | Crashed         // the process died or an unhandled exception escaped: the row stays RUNNING

  /** A finished job: nothing will run it again. */
  predicate Finished(p: Progress, maxAttempts: nat) {
    p.status == JobSucceeded || (p.status == JobFailed && p.attempts >= maxAttempts)
  }

  predicate InProgress(p: Progress) {
    p.status == JobPending || p.status == JobRunning
  }

  function After(p: Progress, maxAttempts: nat, outcome: Outcome): Progress {
    match outcome
    case Untouched => p
    case Rejected => p.(status := JobFailed)
    case Succeeded => Progress(JobSucceeded, p.attempts + 1)
    case Errored => Progress(if p.attempts + 1 >= maxAttempts then JobFailed else JobPending, p.attempts + 1)
    case Crashed => Progress(JobRunning, p.attempts + 1)
  }

  /** One call of a `run_job`: a finished job is left alone. */
  ghost predicate RunStep(before: Progress, after: Progress, maxAttempts: nat, outcome: Outcome) {
    after == After(before, maxAttempts, outcome) && (Finished(before, maxAttempts) ==> outcome == Untouched)
  }

  function Crashes(outcomes: seq<Outcome>): nat {
    if outcomes == [] then 0
    else Crashes(outcomes[..|outcomes| - 1]) + if outcomes[|outcomes| - 1] == Crashed then 1 else 0
  }

  /** The history of one job, from its creation. */
  ghost predicate IsRun(history: seq<Progress>, outcomes: seq<Outcome>, maxAttempts: nat) {
    && |history| == |outcomes| + 1
    && history[0] == Progress(JobPending, 0)
    && forall i :: 0 <= i < |outcomes| ==> RunStep(history[i], history[i + 1], maxAttempts, outcomes[i])
  }

  /** Over any sequence of runs, crashes included, attempts are bounded and PENDING means attempts are left. */
  lemma {:induction false} AttemptsBounded(history: seq<Progress>, outcomes: seq<Outcome>, maxAttempts: nat)
    requires maxAttempts >= 1
    requires IsRun(history, outcomes, maxAttempts)
    ensures var last := history[|outcomes|];
            && last.attempts <= maxAttempts + Crashes(outcomes)
            && (last.status == JobPending ==> last.attempts < maxAttempts)
            && (last.status == JobRunning ==> last.attempts < maxAttempts + Crashes(outcomes))
    decreases |outcomes|
  {
    if outcomes != [] {
      var n := |outcomes| - 1;
      AttemptsBounded(history[..n + 1], outcomes[..n], maxAttempts);
      assert RunStep(history[n], history[n + 1], maxAttempts, outcomes[n]);
    }
  }

  /** The runs that got as far as an attempt. */
  function Attempts(outcomes: seq<Outcome>): nat {
    if outcomes == [] then 0
    else Attempts(outcomes[..|outcomes| - 1]) + if outcomes[|outcomes| - 1] in {Untouched, Rejected} then 0 else 1
  }

  /**
    Over any sequence of runs: attempts count exactly the runs that got that far; a job has SUCCEEDED exactly when a
    run of it has; and it is FAILED with attempts left only by a rejection, which nothing has followed up.
   */
  lemma {:induction false} StatusMeans(history: seq<Progress>, outcomes: seq<Outcome>, maxAttempts: nat)
    requires IsRun(history, outcomes, maxAttempts)
    ensures var last := history[|outcomes|];
            && last.attempts == Attempts(outcomes)
            && (last.status == JobSucceeded <==> Succeeded in outcomes)
            && (last.status == JobFailed && last.attempts < maxAttempts ==>
                  exists i :: 0 <= i < |outcomes| && outcomes[i] == Rejected && history[i + 1] == last)
    decreases |outcomes|
  {
    if outcomes != [] {
      var n := |outcomes| - 1;
      StatusMeans(history[..n + 1], outcomes[..n], maxAttempts);
      assert outcomes == outcomes[..n] + [outcomes[n]];
      assert RunStep(history[n], history[n + 1], maxAttempts, outcomes[n]);
    }
  }

  /** A finished job never changes again. */
  lemma {:induction false} FinishedIsAbsorbing(history: seq<Progress>, outcomes: seq<Outcome>, maxAttempts: nat, i: nat,
                                               j: nat)
    requires IsRun(history, outcomes, maxAttempts)
    requires i <= j <= |outcomes| && Finished(history[i], maxAttempts)
    ensures history[j] == history[i]
    decreases j
  {
    if i < j {
      FinishedIsAbsorbing(history, outcomes, maxAttempts, i, j - 1);
      assert RunStep(history[j - 1], history[j], maxAttempts, outcomes[j - 1]);
    }
  }

  lemma RunGoesOn(history: seq<Progress>, outcomes: seq<Outcome>, maxAttempts: nat, after: Progress, outcome: Outcome)
    requires IsRun(history, outcomes, maxAttempts) && RunStep(history[|outcomes|], after, maxAttempts, outcome)
    ensures IsRun(history + [after], outcomes + [outcome], maxAttempts)
  {
    var history', outcomes' := history + [after], outcomes + [outcome];
    forall i | 0 <= i < |outcomes'| ensures RunStep(history'[i], history'[i + 1], maxAttempts, outcomes'[i]) {
      if i < |outcomes| {
        assert RunStep(history[i], history[i + 1], maxAttempts, outcomes[i]);
      }
    }
  }

  /**
    Where a history of runs, of which some died, may have taken a job: it is PENDING only with attempts left, and
    FAILED with attempts left only if a run was rejected.
   */
  ghost predicate Bounded(p: Progress, outcomes: seq<Outcome>, dying: nat, maxAttempts: nat) {
    && p.attempts == Attempts(outcomes) && p.attempts <= maxAttempts + dying
    && (p.status == JobPending ==> p.attempts < maxAttempts)
    && (p.status == JobFailed ==> p.attempts >= maxAttempts || Rejected in outcomes)
  }
}
