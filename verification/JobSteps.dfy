/**
 One step of the protocol: what it does to one job, and that it keeps the invariant.
 */
module JobSteps {
  import opened Options
  import opened Jobs
  import opened JobProtocol
  import opened JobEffects

  // ----- One step

  /** Only a claim makes a job run, and it was queued. */
  lemma RunningWasClaimed(c: Config, s: Sys, step: Step, id: JobId)
    requires Ordered(c, s) && Announced(s) && Enabled(c, s, step)
    requires !Has(s.store, id, {Running}) && Has(Apply(c, s, step).store, id, {Running})
    ensures step.Claim? && IsRunner(s, step.runner, Launched) && s.runners[step.runner].job == id
            && Has(s.store, id, {Queued})
  {
    if IsQuiet(step) {
      QuietLeavesStore(c, s, step);
    }
  }

  /** A job that is over stays over, whatever the step. */
  lemma OverStays(c: Config, s: Sys, step: Step, id: JobId)
    requires Ordered(c, s) && Announced(s) && Enabled(c, s, step) && Over(s, id)
    ensures Over(Apply(c, s, step), id)
  {
    if IsQuiet(step) {
      QuietLeavesStore(c, s, step);
    } else if IsLocked(step) {
      LockedActs(c, s, step);
      ActsKeepsOver(s, Apply(c, s, step), Subject(s, step), id);
    } else if IsRestart(step) {
      RestartKeepsOver(c, s, step, id);
    } else if step.WriteHeld? {
      HeldWrites(c, s, step);
      WritesKeepsOver(s, Apply(c, s, step), step.thread, id);
    } else if step.Create? {
      CreateAdds(c, s, step);
    } else {
      UnlinkRemoves(c, s, step);
    }
  }

  lemma ActsKeepsOver(s: Sys, t: Sys, subject: JobId, id: JobId)
    requires Acts(s, t, subject) && Over(s, id)
    ensures Over(t, id)
  {
  }

  lemma WritesKeepsOver(s: Sys, t: Sys, x: nat, id: JobId)
    requires Announced(s) && Writes(s, t, x) && Over(s, id)
    ensures Over(t, id)
  {
  }

  lemma RestartKeepsOver(c: Config, s: Sys, step: Step, id: JobId)
    requires Enabled(c, s, step) && IsRestart(step) && Over(s, id)
    ensures Over(Apply(c, s, step), id)
  {
  }

  lemma WatchedOn(c: Config, s: Sys, step: Step, id: JobId)
    requires Enabled(c, s, step) && Watched(s, id)
    requires Has(s.store, id, {Running}) && Has(Apply(c, s, step).store, id, {Running})
    ensures Watched(Apply(c, s, step), id)
  {
    var w :| w in s.waiting && s.waiting[w] in s.runners && s.runners[s.waiting[w]] == Runner(id, Claimed);
    var t := Apply(c, s, step);
    assert w in t.waiting && t.waiting[w] in t.runners && t.runners[t.waiting[w]] == Runner(id, Claimed);
  }

  // The invariant, a part and a group of steps at a time.

  lemma PoolKeepsOrder(c: Config, s: Sys, step: Step)
    requires Ordered(c, s) && Enabled(c, s, step) && IsPool(step)
    ensures Ordered(c, Apply(c, s, step))
  {
  }

  lemma LeavesKeeps(s: Sys, t: Sys)
    requires Leaves(s, t) && Announced(s) && ClaimedOnce(s) && Evident(s) && Identified(s)
    ensures Announced(t) && ClaimedOnce(t) && Evident(t) && Identified(t)
  {
  }

  lemma MarkerKeeps(c: Config, s: Sys, t: Sys)
    requires Ordered(c, s) && Supervised(s) && t == s.(clock := t.clock, maintenance := t.maintenance)
    ensures Ordered(c, t) && Supervised(t) && Leaves(s, t)
  {
  }

  lemma StepKeepsTidy(c: Config, s: Sys, step: Step)
    requires Ordered(c, s) && Tidy(s) && Enabled(c, s, step)
    ensures Tidy(Apply(c, s, step))
  {
    if IsLocked(step) {
      LockedActs(c, s, step);
    } else if IsPool(step) {
      PoolKeepsTidy(c, s, step);
    } else if IsMarker(step) {
      MarkerLeaves(c, s, step);
    } else if IsThread(step) {
      ThreadKeepsTidy(c, s, step);
    } else if step.WriteHeld? {
      HeldWrites(c, s, step);
    } else if step.Create? {
      CreateAdds(c, s, step);
    } else if !IsRestart(step) {
      UnlinkRemoves(c, s, step);
    }
  }

  lemma PoolKeepsTidy(c: Config, s: Sys, step: Step)
    requires Tidy(s) && Enabled(c, s, step) && IsPool(step)
    ensures Tidy(Apply(c, s, step))
  {
  }

  lemma ThreadKeepsTidy(c: Config, s: Sys, step: Step)
    requires Tidy(s) && Enabled(c, s, step) && IsThread(step)
    ensures Tidy(Apply(c, s, step))
  {
  }

  lemma HandsKeepsOrder(c: Config, s: Sys, t: Sys)
    requires Ordered(c, s) && ClaimedOnce(s) && Hands(s, t)
    ensures Ordered(c, t) && ClaimedOnce(t)
  {
  }

  lemma HandsKeepsAnnouncements(c: Config, s: Sys, t: Sys)
    requires Ordered(c, s) && Announced(s) && Hands(s, t)
    ensures Announced(t)
  {
  }

  lemma HandsKeepsEvidence(s: Sys, t: Sys)
    requires Evident(s) && Hands(s, t)
    ensures Evident(t)
  {
  }

  lemma TakenIsIdentified(c: Config, s: Sys, x: nat, h: Held)
    requires Ordered(c, s) && Identified(s) && Takes(s, x, h)
    ensures forall id :: id in s.store.jobs ==> SameRequest(s.store.jobs[id], h.copy)
    ensures forall y :: y in s.held ==> SameRequest(s.held[y].copy, h.copy)
  {
  }

  lemma TakenAgree(c: Config, s: Sys, x: nat, h: Held, y: nat, g: Held)
    requires Ordered(c, s) && Identified(s) && Takes(s, x, h) && Takes(s, y, g)
    ensures SameRequest(h.copy, g.copy)
  {
    TakenIsIdentified(c, s, x, h);
    TakenIsIdentified(c, s, y, g);
  }

  lemma HandsKeepsIdentity(c: Config, s: Sys, t: Sys)
    requires Ordered(c, s) && Identified(s) && Hands(s, t)
    ensures Identified(t)
  {
    forall x | x in t.held ensures forall id :: id in s.store.jobs ==> SameRequest(s.store.jobs[id], t.held[x].copy) {
      TakenIsIdentified(c, s, x, t.held[x]);
    }
    forall x, y | x in t.held && y in t.held ensures SameRequest(t.held[x].copy, t.held[y].copy) {
      TakenAgree(c, s, x, t.held[x], y, t.held[y]);
    }
  }

  lemma AddsKeepsOrder(c: Config, s: Sys, t: Sys, x: nat, job: Job)
    requires Ordered(c, s) && ClaimedOnce(s) && Adds(s, t, x, job)
    ensures Ordered(c, t) && ClaimedOnce(t)
  {
  }

  lemma AddsKeepsPromises(c: Config, s: Sys, t: Sys, x: nat, job: Job)
    requires Ordered(c, s) && Announced(s) && Evident(s) && Adds(s, t, x, job)
    ensures Announced(t) && Evident(t)
  {
  }

  lemma AddsKeepsIdentity(c: Config, s: Sys, t: Sys, x: nat, job: Job)
    requires Ordered(c, s) && Identified(s) && Adds(s, t, x, job)
    ensures Identified(t)
  {
  }

  lemma RemovesKeeps(c: Config, s: Sys, t: Sys)
    requires Ordered(c, s) && ClaimedOnce(s) && Announced(s) && Identified(s) && Removes(s, t)
    ensures Ordered(c, t) && ClaimedOnce(t) && Announced(t) && Identified(t)
  {
  }

  lemma RemovesKeepsEvidence(s: Sys, t: Sys)
    requires Evident(s) && Removes(s, t)
    ensures Evident(t)
  {
  }

  lemma ActsKeepsOrder(c: Config, s: Sys, t: Sys, id: JobId)
    requires Ordered(c, s) && Acts(s, t, id)
    ensures Ordered(c, t)
  {
  }

  lemma ActsKeepsClaims(c: Config, s: Sys, t: Sys, id: JobId)
    requires Ordered(c, s) && ClaimedOnce(s) && Acts(s, t, id)
    ensures ClaimedOnce(t)
  {
  }

  lemma ActsKeepsAnnouncements(c: Config, s: Sys, t: Sys, id: JobId)
    requires Announced(s) && Acts(s, t, id)
    ensures Announced(t)
  {
  }

  lemma ActsKeepsEvidence(c: Config, s: Sys, t: Sys, id: JobId)
    requires Ordered(c, s) && Announced(s) && Evident(s) && Acts(s, t, id)
    ensures Evident(t)
  {
  }

  lemma ActsKeepsIdentity(c: Config, s: Sys, t: Sys, id: JobId)
    requires Ordered(c, s) && Identified(s) && Acts(s, t, id)
    ensures Identified(t)
  {
  }

  lemma WritesKeepsOrder(c: Config, s: Sys, t: Sys, x: nat)
    requires Ordered(c, s) && Announced(s) && ClaimedOnce(s) && Writes(s, t, x)
    ensures Ordered(c, t) && ClaimedOnce(t)
  {
  }

  lemma WritesKeepsAnnouncements(c: Config, s: Sys, t: Sys, x: nat)
    requires Ordered(c, s) && Announced(s) && Writes(s, t, x)
    ensures Announced(t)
  {
  }

  lemma WritesKeepsEvidence(c: Config, s: Sys, t: Sys, x: nat)
    requires Ordered(c, s) && Evident(s) && Writes(s, t, x)
    ensures Evident(t)
  {
  }

  lemma WritesKeepsIdentity(c: Config, s: Sys, t: Sys, x: nat)
    requires Ordered(c, s) && Identified(s) && Writes(s, t, x)
    ensures Identified(t)
  {
  }

  lemma RestartKeepsOrder(c: Config, s: Sys, store: Store, jobs: set<JobId>, reports: set<JobId>)
    requires Ordered(c, s) && ClaimedOnce(s) && store.jobs == s.store.jobs
    ensures Ordered(c, Restarted(s, store, jobs, reports)) && ClaimedOnce(Restarted(s, store, jobs, reports))
  {
  }

  lemma RestartKeepsAnnouncements(c: Config, s: Sys, store: Store, jobs: set<JobId>, reports: set<JobId>)
    requires Announced(s) && store.jobs == s.store.jobs
    ensures Announced(Restarted(s, store, jobs, reports))
  {
  }

  /** The reports of the jobs that do not run are as they were. */
  ghost predicate KeepsReports(s: Sys, store: Store) {
    && (forall id :: id in store.reports && !Has(store, id, {Running}) ==>
                       id in s.store.reports && s.store.reports[id] == store.reports[id])
    && (forall id :: id in s.store.reports ==> id in store.reports)
  }

  lemma RestartKeepsEvidence(c: Config, s: Sys, store: Store, jobs: set<JobId>, reports: set<JobId>)
    requires Ordered(c, s) && Evident(s) && store.jobs == s.store.jobs && KeepsReports(s, store)
    ensures Evident(Restarted(s, store, jobs, reports))
  {
  }

  lemma RestartKeepsRunners(c: Config, s: Sys, store: Store, jobs: set<JobId>, reports: set<JobId>)
    ensures var t := Restarted(s, store, jobs, reports); Supervised(t) && Identified(t) && Tidy(t)
  {
  }

  lemma RestartKeeps(c: Config, s: Sys, store: Store, jobs: set<JobId>, reports: set<JobId>)
    requires Good(c, s) && store.jobs == s.store.jobs && KeepsReports(s, store)
    ensures Good(c, Restarted(s, store, jobs, reports))
  {
    RestartKeepsOrder(c, s, store, jobs, reports);
    RestartKeepsAnnouncements(c, s, store, jobs, reports);
    RestartKeepsEvidence(c, s, store, jobs, reports);
    RestartKeepsRunners(c, s, store, jobs, reports);
  }

  /** A job that starts running has a worker waiting on the runner that claimed it: had the
      runner been let go, its job would have been over. */
  lemma ClaimIsWatched(c: Config, s: Sys, step: Step, id: JobId)
    requires Ordered(c, s) && Supervised(s) && Enabled(c, s, step)
    requires step.Claim? && s.runners[step.runner].job == id && Has(s.store, id, {Queued})
    ensures Watched(Apply(c, s, step), id)
  {
    assert Attended(s, step.runner);
    var w :| w in s.waiting && s.waiting[w] == step.runner;
    var t := Apply(c, s, step);
    assert w in t.waiting && t.waiting[w] in t.runners && t.runners[t.waiting[w]] == Runner(id, Claimed);
  }

  /** A worker waits on until its runner has ended or its time is up. */
  lemma StaysAttended(c: Config, s: Sys, step: Step, r: nat)
    requires Enabled(c, s, step) && !IsRestart(step) && Attended(s, r)
    requires step.Return? || step.Timeout? ==> s.waiting[step.worker] != r
    ensures Attended(Apply(c, s, step), r)
  {
    var w :| w in s.waiting && s.waiting[w] == r;
    var t := Apply(c, s, step);
    assert w in t.waiting && t.waiting[w] == r;
  }

  lemma StartsAttended(c: Config, s: Sys, step: Step, r: nat)
    requires Enabled(c, s, step) && r !in s.runners && r in Apply(c, s, step).runners
    ensures Attended(Apply(c, s, step), r)
  {
    assert Apply(c, s, step).waiting[step.worker] == r;
  }

  lemma TimeoutEndsJob(c: Config, s: Sys, step: Step)
    requires Enabled(c, s, step) && step.Timeout?
    ensures !Live(Apply(c, s, step), s.runners[s.waiting[step.worker]].job)
    ensures Apply(c, s, step).runners == s.runners
  {
  }

  lemma ReturnsFromEnded(c: Config, s: Sys, step: Step)
    requires Enabled(c, s, step) && step.Return?
    ensures Apply(c, s, step).runners == s.runners && s.runners[s.waiting[step.worker]].phase == Ended
  {
  }

  lemma RunnersKeepJobs(c: Config, s: Sys, step: Step, r: nat)
    requires Enabled(c, s, step) && !IsRestart(step) && r in s.runners
    ensures r in Apply(c, s, step).runners && Apply(c, s, step).runners[r].job == s.runners[r].job
    ensures Apply(c, s, step).runners[r].phase != Ended ==> s.runners[r].phase != Ended
  {
    if IsLocked(step) {
      LockedActs(c, s, step);
    }
  }

  lemma OrphanIsOver(c: Config, s: Sys, step: Step, r: nat)
    requires Ordered(c, s) && Announced(s) && Supervised(s) && Enabled(c, s, step) && !IsRestart(step)
    requires var t := Apply(c, s, step); r in t.runners && t.runners[r].phase != Ended && !Attended(t, r)
    ensures !Live(Apply(c, s, step), Apply(c, s, step).runners[r].job)
  {
    if r !in s.runners {
      StartsAttended(c, s, step, r);
    } else {
      RunnersKeepJobs(c, s, step, r);
      if !Attended(s, r) {
        OverStays(c, s, step, s.runners[r].job);
      } else if step.Timeout? && s.waiting[step.worker] == r {
        TimeoutEndsJob(c, s, step);
      } else if step.Return? && s.waiting[step.worker] == r {
        ReturnsFromEnded(c, s, step);
      } else {
        StaysAttended(c, s, step, r);
      }
    }
  }

  lemma StepKeepsSupervised(c: Config, s: Sys, step: Step)
    requires Ordered(c, s) && Announced(s) && Supervised(s) && Enabled(c, s, step) && !IsRestart(step)
    ensures Supervised(Apply(c, s, step))
  {
    var t := Apply(c, s, step);
    forall id | Has(t.store, id, {Running}) ensures Watched(t, id) {
      if Has(s.store, id, {Running}) {
        WatchedOn(c, s, step, id);
      } else {
        RunningWasClaimed(c, s, step, id);
        ClaimIsWatched(c, s, step, id);
      }
    }
    forall r | r in t.runners && t.runners[r].phase != Ended && !Attended(t, r) ensures !Live(t, t.runners[r].job) {
      OrphanIsOver(c, s, step, r);
    }
  }

  /** The part of the invariant that is about records, threads and notes. */
  ghost predicate Recorded(c: Config, s: Sys) {
    Ordered(c, s) && Announced(s) && ClaimedOnce(s) && Evident(s) && Identified(s)
  }

  lemma HandsKeeps(c: Config, s: Sys, t: Sys)
    requires Recorded(c, s) && Hands(s, t)
    ensures Recorded(c, t)
  {
    HandsKeepsOrder(c, s, t);
    HandsKeepsAnnouncements(c, s, t);
    HandsKeepsEvidence(s, t);
    HandsKeepsIdentity(c, s, t);
  }

  lemma AddsKeeps(c: Config, s: Sys, t: Sys, x: nat, job: Job)
    requires Recorded(c, s) && Adds(s, t, x, job)
    ensures Recorded(c, t)
  {
    AddsKeepsOrder(c, s, t, x, job);
    AddsKeepsPromises(c, s, t, x, job);
    AddsKeepsIdentity(c, s, t, x, job);
  }

  lemma ActsKeeps(c: Config, s: Sys, t: Sys, id: JobId)
    requires Recorded(c, s) && Acts(s, t, id)
    ensures Recorded(c, t)
  {
    ActsKeepsOrder(c, s, t, id);
    ActsKeepsClaims(c, s, t, id);
    ActsKeepsAnnouncements(c, s, t, id);
    ActsKeepsEvidence(c, s, t, id);
    ActsKeepsIdentity(c, s, t, id);
  }

  lemma WritesKeeps(c: Config, s: Sys, t: Sys, x: nat)
    requires Recorded(c, s) && Writes(s, t, x)
    ensures Recorded(c, t)
  {
    WritesKeepsOrder(c, s, t, x);
    WritesKeepsAnnouncements(c, s, t, x);
    WritesKeepsEvidence(c, s, t, x);
    WritesKeepsIdentity(c, s, t, x);
  }

  lemma StepKeepsRecords(c: Config, s: Sys, step: Step)
    requires Recorded(c, s) && Enabled(c, s, step) && !IsRestart(step) && !IsMarker(step)
    ensures Recorded(c, Apply(c, s, step))
  {
    var t := Apply(c, s, step);
    if IsPool(step) {
      PoolKeepsOrder(c, s, step);
      PoolLeaves(c, s, step);
      LeavesKeeps(s, t);
    } else if IsThread(step) {
      ThreadHands(c, s, step);
      HandsKeeps(c, s, t);
    } else if step.WriteHeld? {
      HeldWrites(c, s, step);
      WritesKeeps(c, s, t, step.thread);
    } else if IsLocked(step) {
      LockedActs(c, s, step);
      ActsKeeps(c, s, t, Subject(s, step));
    } else if step.Create? {
      CreateAdds(c, s, step);
      if t != s {
        AddsKeeps(c, s, t, step.thread, NewJob(step.id, step.request, step.key, s.clock));
      }
    } else {
      UnlinkRemoves(c, s, step);
      RemovesKeeps(c, s, t);
      RemovesKeepsEvidence(s, t);
    }
  }

  /** Whatever the step, the invariant is kept. */
  lemma StepKeeps(c: Config, s: Sys, step: Step)
    requires Good(c, s) && Enabled(c, s, step)
    ensures Good(c, Apply(c, s, step))
  {
    StepKeepsTidy(c, s, step);
    if step.Restart? {
      RestartKeeps(c, s, s.store, step.jobs, step.reports);
    } else if step.CrashInCommit? {
      RestartKeeps(c, s, Half(s, step.runner, step.report), step.jobs, step.reports);
    } else if IsMarker(step) {
      MarkerLeaves(c, s, step);
      MarkerKeeps(c, s, Apply(c, s, step));
      LeavesKeeps(s, Apply(c, s, step));
    } else {
      StepKeepsSupervised(c, s, step);
      StepKeepsRecords(c, s, step);
    }
  }
}
