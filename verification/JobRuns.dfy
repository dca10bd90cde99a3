/**
 Whole runs of the protocol: the invariant everywhere, and what follows from it about
 claims, running jobs, reports and announcements.
 */
module JobRuns {
  import opened Options
  import opened Jobs
  import opened JobProtocol
  import opened JobEffects
  import opened JobSteps

  /** The invariant holds wherever a run goes. */
  lemma {:induction false} GoodAlways(c: Config, steps: seq<Step>)
    requires IsRun(c, steps)
    ensures Good(c, After(c, steps))
    decreases |steps|
  {
    if steps != [] {
      GoodAlways(c, steps[..|steps| - 1]);
      StepKeeps(c, After(c, steps[..|steps| - 1]), steps[|steps| - 1]);
    }
  }

  // ----- What holds over whole runs

  lemma {:induction false} PrefixIsRun(c: Config, steps: seq<Step>, n: nat)
    requires IsRun(c, steps) && n <= |steps|
    ensures IsRun(c, steps[..n])
    decreases |steps|
  {
    if n < |steps| {
      PrefixIsRun(c, steps[..|steps| - 1], n);
      assert steps[..|steps| - 1][..n] == steps[..n];
    } else {
      assert steps[..n] == steps;
    }
  }

  /** Where a run is after its first `n` steps. */
  ghost function At(c: Config, steps: seq<Step>, n: nat): Sys
    requires IsRun(c, steps) && n <= |steps|
  {
    PrefixIsRun(c, steps, n);
    After(c, steps[..n])
  }

  lemma GoodAt(c: Config, steps: seq<Step>, n: nat)
    requires IsRun(c, steps) && n <= |steps|
    ensures Good(c, At(c, steps, n))
  {
    PrefixIsRun(c, steps, n);
    GoodAlways(c, steps[..n]);
  }

  lemma LastStep(c: Config, before: seq<Step>, steps: seq<Step>, step: Step)
    requires steps == before + [step] && IsRun(c, steps)
    ensures IsRun(c, before) && Enabled(c, After(c, before), step)
    ensures After(c, steps) == Apply(c, After(c, before), step)
  {
    assert steps[..|steps| - 1] == before;
  }

  lemma NextStep(c: Config, steps: seq<Step>, n: nat)
    requires IsRun(c, steps) && n < |steps|
    ensures Enabled(c, At(c, steps, n), steps[n])
    ensures At(c, steps, n + 1) == Apply(c, At(c, steps, n), steps[n])
  {
    PrefixIsRun(c, steps, n + 1);
    assert steps[..n + 1] == steps[..n] + [steps[n]];
    LastStep(c, steps[..n], steps[..n + 1], steps[n]);
  }

  lemma AtNext(c: Config, steps: seq<Step>, n: nat)
    requires IsRun(c, steps) && n < |steps|
    ensures Good(c, At(c, steps, n)) && Enabled(c, At(c, steps, n), steps[n])
    ensures At(c, steps, n + 1) == Apply(c, At(c, steps, n), steps[n])
  {
    GoodAt(c, steps, n);
    NextStep(c, steps, n);
  }

  lemma OutOfLockedReach(s: Sys, t: Sys, subject: JobId, id: JobId)
    requires Acts(s, t, subject) && Over(s, id)
    ensures t.claims[id] == s.claims[id]
    ensures id in t.store.reports ==> id in s.store.reports && t.store.reports[id] == s.store.reports[id]
  {
  }

  /** What is over is out of reach: no claim, and no report that was not there. */
  lemma OverIsOutOfReach(c: Config, s: Sys, step: Step, id: JobId)
    requires Enabled(c, s, step) && Over(s, id)
    ensures var t := Apply(c, s, step);
            && t.claims[id] == s.claims[id]
            && (id in t.store.reports ==> id in s.store.reports && t.store.reports[id] == s.store.reports[id])
  {
    if IsQuiet(step) {
      QuietLeavesStore(c, s, step);
    } else if IsLocked(step) {
      LockedActs(c, s, step);
      OutOfLockedReach(s, Apply(c, s, step), Subject(s, step), id);
    }
  }

  /** Over, with no claim and no report that was not there. */
  ghost predicate StaysOver(s: Sys, t: Sys, id: JobId) {
    && Over(t, id) && t.claims[id] == s.claims[id]
    && (id in t.store.reports ==> id in s.store.reports && t.store.reports[id] == s.store.reports[id])
  }

  lemma NextStaysOver(c: Config, steps: seq<Step>, n: nat, id: JobId)
    requires IsRun(c, steps) && n < |steps| && Over(At(c, steps, n), id)
    ensures StaysOver(At(c, steps, n), At(c, steps, n + 1), id)
  {
    AtNext(c, steps, n);
    OverStays(c, At(c, steps, n), steps[n], id);
    OverIsOutOfReach(c, At(c, steps, n), steps[n], id);
  }

  lemma StaysOverOn(s: Sys, t: Sys, u: Sys, id: JobId)
    requires StaysOver(s, t, id) && StaysOver(t, u, id)
    ensures StaysOver(s, u, id)
  {
  }

  lemma {:induction false} OverStaysOver(c: Config, steps: seq<Step>, m: nat, n: nat, id: JobId)
    requires IsRun(c, steps) && m <= n <= |steps| && Over(At(c, steps, m), id)
    ensures StaysOver(At(c, steps, m), At(c, steps, n), id)
    decreases n
  {
    if m < n {
      OverStaysOver(c, steps, m, n - 1, id);
      NextStaysOver(c, steps, n - 1, id);
      StaysOverOn(At(c, steps, m), At(c, steps, n - 1), At(c, steps, n), id);
    }
  }

  /** Once a job is over it is over for good, whoever is still at work on it: it never
      waits or runs again, nobody claims it, and no late runner publishes its report. */
  lemma OverForGood(c: Config, steps: seq<Step>, m: nat, n: nat, id: JobId)
    requires IsRun(c, steps) && m <= n <= |steps| && Over(At(c, steps, m), id)
    ensures var s, t := At(c, steps, m), At(c, steps, n);
            && Over(t, id)
            && t.claims[id] == s.claims[id]
            && (id in t.store.reports ==> id in s.store.reports && t.store.reports[id] == s.store.reports[id])
  {
    OverStaysOver(c, steps, m, n, id);
  }

  /** One runner at most ever claims a job. */
  lemma AtMostOneClaim(c: Config, steps: seq<Step>, id: JobId)
    requires IsRun(c, steps)
    ensures After(c, steps).claims[id] <= 1
  {
    GoodAlways(c, steps);
    assert id !in After(c, steps).claims ==> After(c, steps).claims[id] == 0;
  }

  /** Different running jobs have different workers waiting on them. */
  lemma {:induction false} WorkersFor(s: Sys, ids: set<JobId>) returns (workers: set<nat>)
    requires forall id :: id in ids ==> Watched(s, id)
    ensures workers <= s.waiting.Keys && |workers| == |ids|
    ensures forall w :: w in workers ==> s.waiting[w] in s.runners && s.runners[s.waiting[w]].job in ids
  {
    workers := {};
    if id :| id in ids {
      var rest := WorkersFor(s, ids - {id});
      assert Watched(s, id);
      var w :| w in s.waiting && s.waiting[w] in s.runners && s.runners[s.waiting[w]] == Runner(id, Claimed);
      workers := rest + {w};
    }
  }

  lemma {:induction false} AtMostBelow(workers: set<nat>, bound: nat)
    requires forall w :: w in workers ==> w < bound
    ensures |workers| <= bound
  {
    if bound > 0 {
      AtMostBelow(workers - {bound - 1}, bound - 1);
    } else {
      assert workers == {};
    }
  }

  ghost function RunningJobs(s: Sys): set<JobId> {
    set id | id in s.store.jobs && s.store.jobs[id].status == Running
  }

  /** There are never more running jobs than workers, whatever runners were left behind. */
  lemma RunningBounded(c: Config, steps: seq<Step>)
    requires IsRun(c, steps)
    ensures |RunningJobs(After(c, steps))| <= c.maxWorkers
  {
    GoodAlways(c, steps);
    var s := After(c, steps);
    forall id | id in RunningJobs(s) ensures Watched(s, id) {
      assert Has(s.store, id, {Running});
    }
    var workers := WorkersFor(s, RunningJobs(s));
    AtMostBelow(workers, c.maxWorkers);
  }

  /** Retention removes the report of a job, in a sweep or at startup. */
  predicate RemovesReport(step: Step, id: JobId) {
    || (step.UnlinkReport? && step.id == id)
    || (IsRestart(step) && id in step.reports)
  }

  lemma StepSweeps(c: Config, s: Sys, step: Step, id: JobId)
    requires Enabled(c, s, step) && id in Apply(c, s, step).swept
    ensures id in s.swept || RemovesReport(step, id)
  {
  }

  lemma {:induction false} SweptWasRemoved(c: Config, steps: seq<Step>, id: JobId)
    requires IsRun(c, steps) && id in After(c, steps).swept
    ensures exists k :: 0 <= k < |steps| && RemovesReport(steps[k], id)
    decreases |steps|
  {
    if steps != [] {
      var before, last := steps[..|steps| - 1], steps[|steps| - 1];
      StepSweeps(c, After(c, before), last, id);
      if id in After(c, before).swept {
        SweptWasRemoved(c, before, id);
        var k :| 0 <= k < |before| && RemovesReport(before[k], id);
        assert steps[k] == before[k];
      }
    }
  }

  /** A complete job has its report, and its record carries the report's digest, through
      every interleaving and every crash, until a step of the run removes the report. */
  lemma CompleteHasReport(c: Config, steps: seq<Step>, id: JobId)
    requires IsRun(c, steps) && Has(After(c, steps).store, id, {Complete})
    requires forall k :: 0 <= k < |steps| ==> !RemovesReport(steps[k], id)
    ensures var store := After(c, steps).store;
            id in store.reports && store.jobs[id].reportSha256 == Some(Sha256(store.reports[id]))
  {
    GoodAlways(c, steps);
    if id in After(c, steps).swept {
      SweptWasRemoved(c, steps, id);
    }
    assert Evidence(After(c, steps), After(c, steps).store.jobs[id]);
  }

  /** A report that is there is the one a complete record speaks of, whatever was removed. */
  lemma ReportIsTheOne(c: Config, steps: seq<Step>, id: JobId)
    requires IsRun(c, steps) && Has(After(c, steps).store, id, {Complete}) && id in After(c, steps).store.reports
    ensures var store := After(c, steps).store; store.jobs[id].reportSha256 == Some(Sha256(store.reports[id]))
  {
    GoodAlways(c, steps);
    assert Evidence(After(c, steps), After(c, steps).store.jobs[id]);
  }

  /** Only what is over is announced, and nothing that stands as cancelled. */
  lemma AnnouncedIsOver(c: Config, steps: seq<Step>, id: JobId)
    requires IsRun(c, steps) && id in After(c, steps).noticed
    ensures Over(After(c, steps), id) && !Has(After(c, steps).store, id, {Cancelled})
  {
    GoodAlways(c, steps);
  }

  // ----- Making runs

  lemma Extend(c: Config, steps: seq<Step>, step: Step)
    requires IsRun(c, steps) && Enabled(c, After(c, steps), step)
    ensures IsRun(c, steps + [step])
    ensures After(c, steps + [step]) == Apply(c, After(c, steps), step)
  {
    assert (steps + [step])[..|steps|] == steps;
  }

  /** Steps on a job's way to its runner. */
  predicate Starts(step: Step) {
    step.Create? || step.Enqueue? || step.Dequeue? || step.Claim?
  }

  /** A run reaches a job that waits alone. */
  lemma WaitingIsReached(c: Config, request: Request) returns (steps: seq<Step>)
    ensures IsRun(c, steps) && forall k :: 0 <= k < |steps| ==> Starts(steps[k])
    ensures After(c, steps) == INITIAL.(store := Store(map["a" := NewJob("a", request, "", 0)], map[]),
                               queue := ["a"], used := {"a"})
  {
    var create := Create(1, [], "a", request, "");
    Extend(c, [], create);
    Extend(c, [] + [create], Enqueue(1));
    steps := [] + [create] + [Enqueue(1)];
  }

  /** A run reaches a running job, held by the runner that claimed it. */
  lemma RunningIsReached(c: Config, request: Request) returns (steps: seq<Step>)
    ensures IsRun(c, steps) && forall k :: 0 <= k < |steps| ==> Starts(steps[k])
    ensures var s := After(c, steps);
            && Has(s.store, "a", {Running}) && s.held == map[] && s.maintenance == Resting
            && s.store.jobs["a"].delivery.None?
            && IsRunner(s, 1, Claimed) && s.runners[1].job == "a"
  {
    var waiting := WaitingIsReached(c, request);
    Extend(c, waiting, Dequeue(0, 1));
    Extend(c, waiting + [Dequeue(0, 1)], Claim(1));
    steps := waiting + [Dequeue(0, 1)] + [Claim(1)];
  }

  // ----- Only what is old is removed

  lemma RestartRemovesOld(c: Config, s: Sys, step: Step, id: JobId)
    requires Enabled(c, s, step) && IsRestart(step) && id in s.store.jobs && id !in Apply(c, s, step).store.jobs
    ensures s.store.jobs[id].updatedAt + c.retention < s.clock
  {
  }

  lemma OnlyOldIsRemoved(c: Config, s: Sys, step: Step, id: JobId)
    requires Good(c, s) && Enabled(c, s, step) && id in s.store.jobs && id !in Apply(c, s, step).store.jobs
    ensures s.store.jobs[id].updatedAt + c.retention < s.clock
  {
    if IsQuiet(step) {
      QuietLeavesStore(c, s, step);
    } else if IsLocked(step) {
      LockedActs(c, s, step);
    } else if IsRestart(step) {
      RestartRemovesOld(c, s, step, id);
    }
  }

  /** A record that is there and then is not was last written longer ago than retention keeps
      one. */
  lemma RemovedIsOld(c: Config, steps: seq<Step>, n: nat, id: JobId)
    requires IsRun(c, steps) && n < |steps|
    requires id in At(c, steps, n).store.jobs && id !in At(c, steps, n + 1).store.jobs
    ensures At(c, steps, n).store.jobs[id].updatedAt + c.retention < At(c, steps, n).clock
  {
    AtNext(c, steps, n);
    OnlyOldIsRemoved(c, At(c, steps, n), steps[n], id);
  }

  // ----- First come, first served

  /** The jobs that were put in the queue since the last restart. */
  ghost function Entered(c: Config, steps: seq<Step>): seq<JobId>
    requires IsRun(c, steps)
    decreases |steps|
  {
    if steps == [] || IsRestart(steps[|steps| - 1]) then []
    else
      var before, step := steps[..|steps| - 1], steps[|steps| - 1];
      if step.Enqueue? then Entered(c, before) + [After(c, before).held[step.thread].copy.id] else Entered(c, before)
  }

  /** The jobs that runners were started for since then. */
  ghost function Taken(c: Config, steps: seq<Step>): seq<JobId>
    requires IsRun(c, steps)
    decreases |steps|
  {
    if steps == [] || IsRestart(steps[|steps| - 1]) then []
    else
      var before, step := steps[..|steps| - 1], steps[|steps| - 1];
      if step.Dequeue? then Taken(c, before) + [After(c, steps).runners[step.runner].job] else Taken(c, before)
  }

  lemma StepKeepsTurns(c: Config, s: Sys, step: Step)
    requires Enabled(c, s, step) && !IsRestart(step)
    ensures var t := Apply(c, s, step);
            if step.Enqueue? then t.queue == s.queue + [s.held[step.thread].copy.id] && |s.queue| < c.maxQueue
            else if step.Dequeue? then step.runner in t.runners && s.queue == [t.runners[step.runner].job] + t.queue
            else t.queue == s.queue
  {
  }

  /** What one more step puts in the queue and takes out of it. */
  lemma OneMoreTurn(c: Config, steps: seq<Step>)
    requires IsRun(c, steps) && steps != [] && !IsRestart(steps[|steps| - 1])
    ensures var before := steps[..|steps| - 1];
            var put, took := Entered(c, steps), Taken(c, steps);
            var was, queue := After(c, before).queue, After(c, steps).queue;
            || (put == Entered(c, before) && took == Taken(c, before) && queue == was)
            || (exists id ::
                  put == Entered(c, before) + [id] && took == Taken(c, before) && queue == was + [id]
                  && |was| < c.maxQueue)
            || (exists id :: put == Entered(c, before) && took == Taken(c, before) + [id] && was == [id] + queue)
  {
    var before, step := steps[..|steps| - 1], steps[|steps| - 1];
    StepKeepsTurns(c, After(c, before), step);
  }

  /** Runners are started for the jobs in the order in which these were queued, and the queue
      is never longer than it may be. */
  lemma {:induction false} TakenInTurn(c: Config, steps: seq<Step>)
    requires IsRun(c, steps)
    ensures Entered(c, steps) == Taken(c, steps) + After(c, steps).queue
    ensures |After(c, steps).queue| <= c.maxQueue
    decreases |steps|
  {
    if steps != [] && !IsRestart(steps[|steps| - 1]) {
      TakenInTurn(c, steps[..|steps| - 1]);
      OneMoreTurn(c, steps);
    } else {
      NobodyQueues(c, steps);
    }
  }

  lemma NobodyQueues(c: Config, steps: seq<Step>)
    requires IsRun(c, steps) && (steps != [] ==> IsRestart(steps[|steps| - 1]))
    ensures After(c, steps).queue == []
  {
  }

  lemma QueueIsBounded(c: Config, steps: seq<Step>, n: nat)
    requires IsRun(c, steps) && n <= |steps|
    ensures |At(c, steps, n).queue| <= c.maxQueue
  {
    PrefixIsRun(c, steps, n);
    TakenInTurn(c, steps[..n]);
  }

  /** A new job is turned away exactly where the queue is as long as it may be. */
  lemma RefusedWhenFull(c: Config, steps: seq<Step>, n: nat)
    requires IsRun(c, steps) && n < |steps| && (steps[n].Enqueue? || steps[n].Refuse?)
    ensures steps[n].Refuse? <==> |At(c, steps, n).queue| == c.maxQueue
  {
    QueueIsBounded(c, steps, n);
    NextStep(c, steps, n);
  }

  // ----- One runner to a claim

  /** The runner that claimed a job is the only one that did. */
  ghost predicate Exclusive(s: Sys) {
    && (forall r :: IsRunner(s, r, Claimed) ==> s.runners[r].job in s.claims)
    && (forall q, r :: IsRunner(s, q, Claimed) && IsRunner(s, r, Claimed) && s.runners[q].job == s.runners[r].job ==>
                         q == r)
  }

  /** Who has claimed a job had done so before, or does it now, and the job was queued. */
  ghost predicate Claimant(s: Sys, step: Step, t: Sys, r: nat)
    requires r in t.runners
  {
    && s.claims <= t.claims
    && ((IsRunner(s, r, Claimed) && s.runners[r] == t.runners[r])
        || (step == Claim(r) && Has(s.store, t.runners[r].job, {Queued}) && t.runners[r].job in t.claims))
  }

  lemma ClaimMakesClaimant(c: Config, s: Sys, step: Step, r: nat)
    requires Enabled(c, s, step) && step.Claim? && IsRunner(Apply(c, s, step), r, Claimed)
    ensures Claimant(s, step, Apply(c, s, step), r)
  {
  }

  lemma OthersLeaveClaimants(c: Config, s: Sys, step: Step, r: nat)
    requires Enabled(c, s, step) && !step.Claim? && IsRunner(Apply(c, s, step), r, Claimed)
    ensures Claimant(s, step, Apply(c, s, step), r)
  {
  }

  lemma ClaimantWasFirst(c: Config, s: Sys, step: Step, r: nat)
    requires Enabled(c, s, step) && IsRunner(Apply(c, s, step), r, Claimed)
    ensures Claimant(s, step, Apply(c, s, step), r)
  {
    if step.Claim? {
      ClaimMakesClaimant(c, s, step, r);
    } else {
      OthersLeaveClaimants(c, s, step, r);
    }
  }

  lemma StepKeepsExclusive(c: Config, s: Sys, step: Step)
    requires ClaimedOnce(s) && Exclusive(s) && Enabled(c, s, step)
    ensures Exclusive(Apply(c, s, step))
  {
    var t := Apply(c, s, step);
    forall r | IsRunner(t, r, Claimed) ensures t.runners[r].job in t.claims {
      ClaimantWasFirst(c, s, step, r);
    }
    forall q, r | IsRunner(t, q, Claimed) && IsRunner(t, r, Claimed) && t.runners[q].job == t.runners[r].job
      ensures q == r
    {
      ClaimantWasFirst(c, s, step, q);
      ClaimantWasFirst(c, s, step, r);
    }
  }

  lemma {:induction false} ExclusiveAlways(c: Config, steps: seq<Step>)
    requires IsRun(c, steps)
    ensures Exclusive(After(c, steps))
    decreases |steps|
  {
    if steps != [] {
      var before := steps[..|steps| - 1];
      ExclusiveAlways(c, before);
      GoodAlways(c, before);
      StepKeepsExclusive(c, After(c, before), steps[|steps| - 1]);
    }
  }

  /** At no time is more than one runner at work on a job, and one that is has claimed it by the
      only claim of the job there ever was. */
  lemma OneClaimant(c: Config, steps: seq<Step>, q: nat)
    requires IsRun(c, steps) && IsRunner(After(c, steps), q, Claimed)
    ensures var s := After(c, steps);
            && s.claims[s.runners[q].job] == 1
            && forall r :: IsRunner(s, r, Claimed) && s.runners[r].job == s.runners[q].job ==> r == q
  {
    ExclusiveAlways(c, steps);
    GoodAlways(c, steps);
  }

  // ----- A crash between the two writes of a commit

  /** The report stays behind, and the job is found failed: its record never spoke of it. */
  lemma CrashLeavesReport(c: Config, s: Sys, r: nat, report: Bytes, jobs: set<JobId>, reports: set<JobId>)
    requires Ordered(c, s) && Enabled(c, s, CrashInCommit(r, report, jobs, reports))
    ensures var id, t := s.runners[r].job, Apply(c, s, CrashInCommit(r, report, jobs, reports));
            && (id !in reports ==> id in t.store.reports && t.store.reports[id] == report)
            && (id in jobs <==> id !in t.store.jobs)
            && (id !in jobs ==>
                  var job := t.store.jobs[id];
                  && job.status == Failed && job.stage == "interrupted" && id in t.noticed
                  && job.reportSha256 == s.store.jobs[id].reportSha256)
            && t.runners == map[] && t.waiting == map[] && t.held == map[] && t.queue == []
  {
  }
}
