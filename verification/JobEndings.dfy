/**
 Which ending a job keeps when records are written without the lock.
 */
module JobEndings {
  import opened Options
  import opened Jobs
  import opened JobProtocol
  import opened JobEffects
  import opened JobSteps
  import opened JobRuns

  /** A thread writes a failure without the lock: of a job the queue turned away, or of one the
      maintenance pass found unfinished. */
  ghost predicate WritesFailure(s: Sys, step: Step, id: JobId) {
    && step.WriteHeld? && step.thread in s.held && s.held[step.thread].copy.id == id
    && (s.held[step.thread].Refusing? || s.held[step.thread].Interrupting?)
  }

  /** What becomes of a record that has ended in a step: it had ended so before, or the job was
      live, or an unlocked write put it there. */
  ghost predicate EndsBy(s: Sys, step: Step, id: JobId, status: Status) {
    || Has(s.store, id, {status})
    || Live(s, id)
    || (step.WriteHeld? && step.thread in s.held && !s.held[step.thread].Submitting?
        && ToWrite(s.held[step.thread]).id == id && ToWrite(s.held[step.thread]).status == status)
  }

  lemma ActsEnd(s: Sys, t: Sys, step: Step, subject: JobId, id: JobId)
    requires Acts(s, t, subject) && id in t.store.jobs && IsTerminal(t.store.jobs[id].status)
    ensures EndsBy(s, step, id, t.store.jobs[id].status)
  {
  }

  lemma RestartEnds(c: Config, s: Sys, step: Step, id: JobId)
    requires Enabled(c, s, step) && IsRestart(step) && id in Apply(c, s, step).store.jobs
    ensures EndsBy(s, step, id, Apply(c, s, step).store.jobs[id].status)
  {
  }

  lemma WritesEnd(s: Sys, t: Sys, step: Step, id: JobId)
    requires step.WriteHeld? && Writes(s, t, step.thread)
    requires id in t.store.jobs && IsTerminal(t.store.jobs[id].status)
    ensures EndsBy(s, step, id, t.store.jobs[id].status)
  {
  }

  lemma StepEnds(c: Config, s: Sys, step: Step, id: JobId)
    requires Enabled(c, s, step)
    requires id in Apply(c, s, step).store.jobs && IsTerminal(Apply(c, s, step).store.jobs[id].status)
    ensures EndsBy(s, step, id, Apply(c, s, step).store.jobs[id].status)
  {
    var t := Apply(c, s, step);
    if IsQuiet(step) {
      QuietLeavesStore(c, s, step);
    } else if IsLocked(step) {
      LockedActs(c, s, step);
      ActsEnd(s, t, step, Subject(s, step), id);
    } else if IsRestart(step) {
      RestartEnds(c, s, step, id);
    } else if step.WriteHeld? {
      HeldWrites(c, s, step);
      WritesEnd(s, t, step, id);
    } else if step.Create? {
      CreateAdds(c, s, step);
    } else {
      UnlinkRemoves(c, s, step);
    }
  }

  /** The states a run goes through. */
  ghost function States(c: Config, steps: seq<Step>): (states: seq<Sys>)
    requires IsRun(c, steps)
    ensures |states| == |steps| + 1 && forall k :: 0 <= k <= |steps| ==> states[k] == At(c, steps, k)
  {
    seq(|steps| + 1, k requires 0 <= k <= |steps| => At(c, steps, k))
  }

  /** In some state up to the `n`th the job was found with this ending. */
  ghost predicate Ended(states: seq<Sys>, n: nat, id: JobId, status: Status)
    requires n < |states|
  {
    IsTerminal(status) && exists k :: 0 <= k <= n && Has(states[k].store, id, {status})
  }

  /** No job has had two endings up to there. */
  ghost predicate OneEnding(states: seq<Sys>, n: nat)
    requires n < |states|
  {
    forall id, a, b :: Ended(states, n, id, a) && Ended(states, n, id, b) ==> a == b
  }

  /** What a notifier is about to write is an ending that the job has had. */
  ghost predicate Faithful(states: seq<Sys>, n: nat)
    requires n < |states|
  {
    forall x :: x in states[n].held && states[n].held[x].Notifying? ==>
                  var copy := states[n].held[x].copy; Ended(states, n, copy.id, copy.status)
  }

  /** A failure is written over a job that has been complete or cancelled. */
  ghost predicate Overwrites(states: seq<Sys>, n: nat, step: Step)
    requires n < |states|
  {
    exists id :: WritesFailure(states[n], step, id)
                 && (Ended(states, n, id, Complete) || Ended(states, n, id, Cancelled))
  }

  lemma EndedLater(states: seq<Sys>, m: nat, n: nat, id: JobId, status: Status)
    requires m <= n < |states| && Ended(states, m, id, status)
    ensures Ended(states, n, id, status)
  {
  }

  lemma EndedBefore(states: seq<Sys>, n: nat, id: JobId, a: Status)
    requires n + 1 < |states| && Ended(states, n + 1, id, a)
    ensures Ended(states, n, id, a) || Has(states[n + 1].store, id, {a})
  {
    var k :| 0 <= k <= n + 1 && Has(states[k].store, id, {a});
    assert k <= n ==> Ended(states, n, id, a);
  }

  // One step of the run, as the states show it.

  /** What a notifier comes to hold has the status that is on disk. */
  lemma NoticeHasStatus(c: Config, s: Sys, step: Step, x: nat)
    requires Ordered(c, s) && Enabled(c, s, step)
    requires x in Apply(c, s, step).held && Apply(c, s, step).held[x].Notifying?
    ensures var h := Apply(c, s, step).held[x];
            (x in s.held && s.held[x] == h) || Has(s.store, h.copy.id, {h.copy.status})
  {
    if IsPool(step) {
      PoolLeaves(c, s, step);
    } else if IsMarker(step) {
      MarkerLeaves(c, s, step);
    } else if IsThread(step) {
      ThreadHands(c, s, step);
    } else if IsLocked(step) {
      LockedActs(c, s, step);
    } else if step.WriteHeld? {
      HeldWrites(c, s, step);
    } else if step.Create? {
      CreateAdds(c, s, step);
    } else if !IsRestart(step) {
      UnlinkRemoves(c, s, step);
    }
  }

  /** What the states of a run are to each other, as far as endings go. */
  ghost predicate Follows(s: Sys, step: Step, t: Sys) {
    && (forall id :: id in t.store.jobs && IsTerminal(t.store.jobs[id].status) ==>
                       EndsBy(s, step, id, t.store.jobs[id].status))
    && (forall x :: x in t.held && t.held[x].Notifying? ==>
                      var h := t.held[x];
                      && IsTerminal(h.copy.status)
                      && ((x in s.held && s.held[x] == h) || Has(s.store, h.copy.id, {h.copy.status})))
    && (forall id :: WritesFailure(s, step, id) ==> Has(t.store, id, {Failed}))
  }

  lemma FailureIsWritten(c: Config, s: Sys, step: Step, id: JobId)
    requires Enabled(c, s, step) && WritesFailure(s, step, id)
    ensures Has(Apply(c, s, step).store, id, {Failed})
  {
    HeldWrites(c, s, step);
  }

  lemma StepFollows(c: Config, s: Sys, step: Step, t: Sys)
    requires Ordered(c, s) && Enabled(c, s, step) && t == Apply(c, s, step) && Announced(t)
    ensures Follows(s, step, t)
  {
    forall id | id in t.store.jobs && IsTerminal(t.store.jobs[id].status)
      ensures EndsBy(s, step, id, t.store.jobs[id].status)
    {
      StepEnds(c, s, step, id);
    }
    forall x | x in t.held && t.held[x].Notifying?
      ensures (x in s.held && s.held[x] == t.held[x]) || Has(s.store, t.held[x].copy.id, {t.held[x].copy.status})
    {
      NoticeHasStatus(c, s, step, x);
    }
    forall id | WritesFailure(s, step, id) ensures Has(t.store, id, {Failed}) {
      FailureIsWritten(c, s, step, id);
    }
  }

  lemma RunFollows(c: Config, steps: seq<Step>, n: nat)
    requires IsRun(c, steps) && n < |steps|
    ensures Follows(At(c, steps, n), steps[n], At(c, steps, n + 1))
  {
    GoodAt(c, steps, n);
    GoodAt(c, steps, n + 1);
    NextStep(c, steps, n);
    StepFollows(c, At(c, steps, n), steps[n], At(c, steps, n + 1));
  }

  /** What has ended is not live any more. */
  lemma EndedIsNotLive(c: Config, steps: seq<Step>, k: nat, n: nat, id: JobId, status: Status)
    requires IsRun(c, steps) && k <= n <= |steps| && IsTerminal(status) && Has(At(c, steps, k).store, id, {status})
    ensures !Live(At(c, steps, n), id)
  {
    GoodAt(c, steps, k);
    assert Over(At(c, steps, k), id);
    OverForGood(c, steps, k, n, id);
  }

  ghost predicate Lasting(states: seq<Sys>, n: nat)
    requires n < |states|
  {
    forall id, a :: Ended(states, n, id, a) ==> !Live(states[n], id)
  }

  lemma EndingsLast(c: Config, steps: seq<Step>, n: nat)
    requires IsRun(c, steps) && n <= |steps|
    ensures Lasting(States(c, steps), n)
  {
    var states := States(c, steps);
    forall id, a | Ended(states, n, id, a) ensures !Live(states[n], id) {
      var k :| 0 <= k <= n && Has(states[k].store, id, {a});
      EndedIsNotLive(c, steps, k, n, id, a);
    }
  }

  // The endings along the states.

  lemma StaysFaithful(states: seq<Sys>, n: nat, step: Step)
    requires n + 1 < |states| && Follows(states[n], step, states[n + 1]) && Faithful(states, n)
    ensures Faithful(states, n + 1)
  {
    var t := states[n + 1];
    forall x | x in t.held && t.held[x].Notifying?
      ensures Ended(states, n + 1, t.held[x].copy.id, t.held[x].copy.status)
    {
      var copy := t.held[x].copy;
      if Has(states[n].store, copy.id, {copy.status}) {
        assert Ended(states, n, copy.id, copy.status);
      } else {
        assert states[n].held[x] == t.held[x];
      }
      EndedLater(states, n, n + 1, copy.id, copy.status);
    }
  }

  /** Without an overwriting failure, a job that has ended is found so, or not at all. */
  lemma EndsAsBefore(states: seq<Sys>, n: nat, step: Step, id: JobId, a: Status)
    requires n + 1 < |states| && Follows(states[n], step, states[n + 1]) && Faithful(states, n)
    requires OneEnding(states, n) && Lasting(states, n) && Lasting(states, n + 1) && !Overwrites(states, n, step)
    requires Ended(states, n, id, a) && id in states[n + 1].store.jobs
    ensures states[n + 1].store.jobs[id].status == a
  {
    EndedLater(states, n, n + 1, id, a);
    var s, b := states[n], states[n + 1].store.jobs[id].status;
    assert EndsBy(s, step, id, b);
    if Has(s.store, id, {b}) || s.held[step.thread].Notifying? {
      assert Ended(states, n, id, b);
    } else {
      assert WritesFailure(s, step, id);
    }
  }

  lemma EndingsAgree(states: seq<Sys>, n: nat, step: Step, id: JobId, a: Status, b: Status)
    requires n + 1 < |states| && Follows(states[n], step, states[n + 1]) && Faithful(states, n)
    requires OneEnding(states, n) && Lasting(states, n) && Lasting(states, n + 1) && !Overwrites(states, n, step)
    requires Ended(states, n + 1, id, a) && Ended(states, n + 1, id, b)
    ensures a == b
  {
    EndedBefore(states, n, id, a);
    EndedBefore(states, n, id, b);
    if Ended(states, n, id, a) && Has(states[n + 1].store, id, {b}) {
      EndsAsBefore(states, n, step, id, a);
    }
    if Ended(states, n, id, b) && Has(states[n + 1].store, id, {a}) {
      EndsAsBefore(states, n, step, id, b);
    }
  }

  lemma OneMoreState(states: seq<Sys>, n: nat, step: Step)
    requires n + 1 < |states| && Follows(states[n], step, states[n + 1]) && Faithful(states, n)
    requires OneEnding(states, n) && Lasting(states, n) && Lasting(states, n + 1) && !Overwrites(states, n, step)
    ensures OneEnding(states, n + 1)
  {
    var next := n + 1;
    forall id, a, b | Ended(states, next, id, a) && Ended(states, next, id, b) ensures a == b {
      EndingsAgree(states, n, step, id, a, b);
    }
  }

  lemma {:induction false} NeverTwoEndings(c: Config, steps: seq<Step>, n: nat)
    requires IsRun(c, steps) && n <= |steps|
    requires forall k :: 0 <= k < n ==> !Overwrites(States(c, steps), k, steps[k])
    ensures OneEnding(States(c, steps), n) && Faithful(States(c, steps), n)
  {
    var states := States(c, steps);
    if n > 0 {
      NeverTwoEndings(c, steps, n - 1);
      RunFollows(c, steps, n - 1);
      EndingsLast(c, steps, n - 1);
      EndingsLast(c, steps, n);
      StaysFaithful(states, n - 1, steps[n - 1]);
      OneMoreState(states, n - 1, steps[n - 1]);
    } else {
      assert states[0] == INITIAL;
    }
  }

  lemma OverwritingChanges(states: seq<Sys>, n: nat, step: Step)
    requires n + 1 < |states| && Follows(states[n], step, states[n + 1]) && Overwrites(states, n, step)
    ensures !OneEnding(states, |states| - 1)
  {
    var last := |states| - 1;
    var id :| WritesFailure(states[n], step, id) && (Ended(states, n, id, Complete) || Ended(states, n, id, Cancelled));
    var a := if Ended(states, n, id, Complete) then Complete else Cancelled;
    EndedLater(states, n, last, id, a);
    assert Has(states[n + 1].store, id, {Failed});
    assert Ended(states, last, id, Failed);
  }

  /** In every run: no job is ever found with two different endings, at whatever two points of
      the run, exactly if no failure is written over a job that has been complete or cancelled.
      What else happens, a notifier's unlocked write or a removal and a revival, keeps it. */
  lemma EndingsKeptExactly(c: Config, steps: seq<Step>)
    requires IsRun(c, steps)
    ensures var states := States(c, steps);
            OneEnding(states, |steps|) <==> forall k :: 0 <= k < |steps| ==> !Overwrites(states, k, steps[k])
  {
    var states := States(c, steps);
    if k :| 0 <= k < |steps| && Overwrites(states, k, steps[k]) {
      RunFollows(c, steps, k);
      OverwritingChanges(states, k, steps[k]);
    } else {
      NeverTwoEndings(c, steps, |steps|);
    }
  }

  /** An unlocked write of a failure finds the record as its thread read it. */
  ghost predicate Undisturbed(s: Sys, step: Step) {
    step.WriteHeld? && step.thread in s.held && !s.held[step.thread].Notifying? ==>
      var copy := s.held[step.thread].copy; copy.id in s.store.jobs && s.store.jobs[copy.id] == copy
  }

  ghost predicate HeldUnfinished(s: Sys) {
    forall t :: t in s.held && !s.held[t].Notifying? ==> !IsTerminal(s.held[t].copy.status)
  }

  lemma StepHoldsUnfinished(c: Config, s: Sys, step: Step)
    requires Ordered(c, s) && HeldUnfinished(s) && Enabled(c, s, step)
    ensures HeldUnfinished(Apply(c, s, step))
  {
    if IsPool(step) {
      PoolLeaves(c, s, step);
    } else if IsThread(step) {
      ThreadHands(c, s, step);
    } else if IsLocked(step) {
      LockedActs(c, s, step);
    } else if step.Create? {
      CreateAdds(c, s, step);
    }
  }

  lemma {:induction false} RunHoldsUnfinished(c: Config, steps: seq<Step>, n: nat)
    requires IsRun(c, steps) && n <= |steps|
    ensures HeldUnfinished(At(c, steps, n))
  {
    if n > 0 {
      RunHoldsUnfinished(c, steps, n - 1);
      AtNext(c, steps, n - 1);
      StepHoldsUnfinished(c, At(c, steps, n - 1), steps[n - 1]);
    }
  }

  lemma UndisturbedFindsLive(c: Config, steps: seq<Step>, k: nat)
    requires IsRun(c, steps) && k < |steps| && Undisturbed(At(c, steps, k), steps[k])
    ensures !Overwrites(States(c, steps), k, steps[k])
  {
    RunHoldsUnfinished(c, steps, k);
    EndingsLast(c, steps, k);
    forall id | WritesFailure(At(c, steps, k), steps[k], id) ensures Live(At(c, steps, k), id) {
      assert !IsTerminal(At(c, steps, k).held[steps[k].thread].copy.status);
    }
  }

  /** With nothing between the read and the write of such a thread, every ending is kept. */
  lemma EndingsKeptUndisturbed(c: Config, steps: seq<Step>)
    requires IsRun(c, steps) && forall k :: 0 <= k < |steps| ==> Undisturbed(At(c, steps, k), steps[k])
    ensures OneEnding(States(c, steps), |steps|)
  {
    forall k | 0 <= k < |steps| ensures !Overwrites(States(c, steps), k, steps[k]) {
      UndisturbedFindsLive(c, steps, k);
    }
    EndingsKeptExactly(c, steps);
  }

  // ----- What a failed record says

  /** The stage of a failed record names what failed it: the scan itself, its time limit, a
      restart or the maintenance pass, or the full queue. */
  lemma FailuresAreNamed(c: Config, s: Sys, step: Step, id: JobId)
    requires Ordered(c, s) && Enabled(c, s, step) && !Has(s.store, id, {Failed})
    requires Has(Apply(c, s, step).store, id, {Failed})
    requires step.WriteHeld? ==> !s.held[step.thread].Notifying?
    ensures var job := Apply(c, s, step).store.jobs[id];
            && job.updatedAt == s.clock
            && match step
               case Fail(runner, error) => job.stage == "failed" && job.error == error
               case Timeout(worker) => job.stage == "timeout"
               case Restart(_, _) => job.stage == "interrupted"
               case CrashInCommit(_, _, _, _) => job.stage == "interrupted"
               case WriteHeld(x) => job.stage == if s.held[x].Interrupting? then "interrupted" else "rejected"
               case _ => false
  {
    if IsQuiet(step) {
      QuietLeavesStore(c, s, step);
    }
  }

  /** Whoever ends a job by completing or failing it goes on to announce it, but for the handler
      that writes down a refusal. */
  lemma EndingsAreNoticed(c: Config, s: Sys, step: Step, id: JobId)
    requires Enabled(c, s, step) && Has(Apply(c, s, step).store, id, {Complete, Failed})
    requires !Has(s.store, id, {Complete, Failed}) && (step.WriteHeld? ==> s.held[step.thread].Interrupting?)
    ensures id in Apply(c, s, step).noticed
  {
    if IsQuiet(step) {
      QuietLeavesStore(c, s, step);
    }
  }

  // ----- Endings that are lost

  /** From any state where the maintenance pass holds a job that runs: the job completes, and
      the pass writes it failed. */
  lemma MaintenanceOverwritesComplete(c: Config, steps: seq<Step>, runner: nat, report: Bytes)
    requires IsRun(c, steps) && IsRunner(After(c, steps), runner, Claimed)
    requires MAINTENANCE in After(c, steps).held && After(c, steps).held[MAINTENANCE].Interrupting?
    requires After(c, steps).held[MAINTENANCE].copy.id == After(c, steps).runners[runner].job
    requires Has(After(c, steps).store, After(c, steps).runners[runner].job, {Running})
    ensures var id := After(c, steps).runners[runner].job;
            var before := steps + [Commit(runner, report)];
            var after := before + [WriteHeld(MAINTENANCE)];
            && IsRun(c, before) && Has(After(c, before).store, id, {Complete})
            && IsRun(c, after) && Has(After(c, after).store, id, {Failed})
  {
    Extend(c, steps, Commit(runner, report));
    Extend(c, steps + [Commit(runner, report)], WriteHeld(MAINTENANCE));
  }

  /** Between passes, the next pass can come to hold any live job. */
  lemma LeftoverIsRead(c: Config, steps: seq<Step>, id: JobId) returns (run: seq<Step>)
    requires IsRun(c, steps) && After(c, steps).maintenance == Resting
    requires MAINTENANCE !in After(c, steps).held && Live(After(c, steps), id)
    ensures IsRun(c, run) && run == steps + [BeginPass] + [EndSweep] + [ReadLeftover(id)]
    ensures var s, t := After(c, steps), After(c, run);
            && t.store == s.store && t.runners == s.runners && t.maintenance == Mending
            && t.held == s.held[MAINTENANCE := Interrupting(s.store.jobs[id])]
  {
    Extend(c, steps, BeginPass);
    Extend(c, steps + [BeginPass], EndSweep);
    run := steps + [BeginPass] + [EndSweep] + [ReadLeftover(id)];
    Extend(c, steps + [BeginPass] + [EndSweep], ReadLeftover(id));
  }

  /** A run in which a complete job ends up failed. */
  lemma CompleteIsLost(c: Config, request: Request) returns (before: seq<Step>, last: Step)
    ensures IsRun(c, before) && Has(After(c, before).store, "a", {Complete})
    ensures IsRun(c, before + [last]) && Has(After(c, before + [last]).store, "a", {Failed})
  {
    var steps := RunningIsReached(c, request);
    var run := LeftoverIsRead(c, steps, "a");
    GoodAlways(c, steps);
    MaintenanceOverwritesComplete(c, run, 1, []);
    before, last := run + [Commit(1, [])], WriteHeld(MAINTENANCE);
  }

  /** From any state where the full queue turned a job away: a client cancels it, is told
      so, and the refusal is written over it. */
  lemma RefusalOverwritesCancelled(c: Config, steps: seq<Step>, thread: nat)
    requires IsRun(c, steps) && thread in After(c, steps).held && After(c, steps).held[thread].Refusing?
    requires Live(After(c, steps), After(c, steps).held[thread].copy.id)
    ensures var id := After(c, steps).held[thread].copy.id;
            var before := steps + [CancelRequest(id)];
            var after := before + [WriteHeld(thread)];
            && IsRun(c, before) && Has(After(c, before).store, id, {Cancelled})
            && IsRun(c, after) && Has(After(c, after).store, id, {Failed})
  {
    var id := After(c, steps).held[thread].copy.id;
    Extend(c, steps, CancelRequest(id));
    Extend(c, steps + [CancelRequest(id)], WriteHeld(thread));
  }

  function Id(n: nat): JobId {
    seq(n, _ => 'a')
  }

  function Ids(n: nat): seq<JobId> {
    seq(n, i requires i >= 0 => Id(i))
  }

  /** `n` jobs without a key are queued, and nothing else has happened. */
  ghost predicate Filled(s: Sys, n: nat) {
    && |s.queue| == n && s.held == map[] && s.maintenance == Resting && s.clock == 0
    && s.used == (set i: nat | i < n :: Id(i)) == s.store.jobs.Keys
    && forall id :: id in s.store.jobs ==> s.store.jobs[id].idempotencyKey == ""
  }

  lemma FilledLists(s: Sys, n: nat)
    requires Filled(s, n)
    ensures Id(n) !in s.used && Lists(Ids(n), s.store)
  {
    assert |Id(n)| == n;
    forall id ensures id in Ids(n) <==> id in s.store.jobs {
      if id in s.store.jobs {
        var i: nat :| i < n && Id(i) == id;
        assert Ids(n)[i] == id;
      }
    }
  }

  /** Without a key a request always makes a job. */
  lemma KeylessIsCreated(c: Config, s: Sys, step: Step)
    requires Enabled(c, s, step) && step.Create? && step.key == ""
    ensures var job := NewJob(step.id, step.request, "", s.clock);
            Apply(c, s, step) == s.(store := Store(s.store.jobs[step.id := job], s.store.reports),
            held := s.held[step.thread := Submitting(job)], used := s.used + {step.id})
  {
  }

  lemma FillsOne(s: Sys, t: Sys, n: nat, job: Job)
    requires Filled(s, n) && job.id == Id(n) && job.idempotencyKey == ""
    requires t == s.(store := Store(s.store.jobs[Id(n) := job], s.store.reports), queue := s.queue + [Id(n)],
                  held := map[], used := s.used + {Id(n)})
    ensures Filled(t, n + 1)
  {
    assert (set i: nat | i < n + 1 :: Id(i)) == (set i: nat | i < n :: Id(i)) + {Id(n)};
  }

  lemma OneMoreFills(c: Config, steps: seq<Step>, request: Request, n: nat)
    requires n < c.maxQueue && IsRun(c, steps) && Filled(After(c, steps), n)
    ensures var run := steps + [Create(1, Ids(n), Id(n), request, "")] + [Enqueue(1)];
            IsRun(c, run) && Filled(After(c, run), n + 1)
  {
    var s := After(c, steps);
    FilledLists(s, n);
    var create := Create(1, Ids(n), Id(n), request, "");
    Extend(c, steps, create);
    KeylessIsCreated(c, s, create);
    Extend(c, steps + [create], Enqueue(1));
    FillsOne(s, After(c, steps + [create] + [Enqueue(1)]), n, NewJob(Id(n), request, "", 0));
  }

  lemma FillsOn(c: Config, steps: seq<Step>, request: Request, n: nat) returns (run: seq<Step>)
    requires n < c.maxQueue && IsRun(c, steps) && Filled(After(c, steps), n)
    ensures IsRun(c, run) && Filled(After(c, run), n + 1)
  {
    OneMoreFills(c, steps, request, n);
    run := steps + [Create(1, Ids(n), Id(n), request, "")] + [Enqueue(1)];
  }

  lemma {:induction false} QueueFills(c: Config, request: Request, n: nat) returns (steps: seq<Step>)
    requires n <= c.maxQueue
    ensures IsRun(c, steps) && Filled(After(c, steps), n)
  {
    steps := [];
    if n > 0 {
      var before := QueueFills(c, request, n - 1);
      steps := FillsOn(c, before, request, n - 1);
    }
  }

  /** Under every configuration a run fills the queue and has the next job turned away. */
  lemma RefusalIsReached(c: Config, request: Request, key: string) returns (steps: seq<Step>)
    ensures IsRun(c, steps)
    ensures var s, n := After(c, steps), c.maxQueue;
            && s.held == map[1 := Refusing(NewJob(Id(n), request, key, 0))] && s.maintenance == Resting && s.clock == 0
            && Id(n) in s.store.jobs && s.store.jobs[Id(n)] == NewJob(Id(n), request, key, 0) && KeysUnique(s.store)
            && s.store.jobs.Keys == s.used == (set i: nat | i < n + 1 :: Id(i))
  {
    var n := c.maxQueue;
    var full := QueueFills(c, request, n);
    var s := After(c, full);
    FilledLists(s, n);
    var create := Create(1, Ids(n), Id(n), request, key);
    HolderFound(s.store, Ids(n), key);
    Extend(c, full, create);
    Extend(c, full + [create], Refuse(1));
    steps := full + [create] + [Refuse(1)];
    assert (set i: nat | i < n + 1 :: Id(i)) == (set i: nat | i < n :: Id(i)) + {Id(n)};
  }

  /** A run, under every configuration, in which a cancelled job ends up failed. */
  lemma CancelledIsLost(c: Config, request: Request) returns (before: seq<Step>, last: Step)
    ensures IsRun(c, before) && Has(After(c, before).store, Id(c.maxQueue), {Cancelled})
    ensures IsRun(c, before + [last]) && Has(After(c, before + [last]).store, Id(c.maxQueue), {Failed})
  {
    var steps := RefusalIsReached(c, request, "k");
    RefusalOverwritesCancelled(c, steps, 1);
    before, last := steps + [CancelRequest(Id(c.maxQueue))], WriteHeld(1);
  }

  /** In time a sweep removes any record that nobody writes. */
  lemma SweepComes(c: Config, steps: seq<Step>, id: JobId) returns (run: seq<Step>)
    requires IsRun(c, steps) && After(c, steps).maintenance == Resting
    requires id in After(c, steps).store.jobs && After(c, steps).store.jobs[id].updatedAt <= After(c, steps).clock
    ensures steps <= run && IsRun(c, run) && After(c, run).held == After(c, steps).held
    ensures After(c, run).store == After(c, steps).store.(jobs := After(c, steps).store.jobs - {id})
  {
    var wait := Wait(After(c, steps).clock + c.retention + 1);
    Extend(c, steps, wait);
    Extend(c, steps + [wait], BeginPass);
    Extend(c, steps + [wait] + [BeginPass], UnlinkJob(id));
    run := steps + [wait] + [BeginPass] + [UnlinkJob(id)];
  }

  /** A run, under every configuration, in which a cancelled job comes back as failed after
      retention has removed it: the refusal stalls for longer than retention keeps a record. */
  lemma CancelledIsRevived(c: Config, request: Request) returns (before: seq<Step>, after: seq<Step>)
    ensures IsRun(c, before) && Has(After(c, before).store, Id(c.maxQueue), {Cancelled})
    ensures before <= after && IsRun(c, after) && Id(c.maxQueue) !in After(c, after).store.jobs
    ensures IsRun(c, after + [WriteHeld(1)]) && Has(After(c, after + [WriteHeld(1)]).store, Id(c.maxQueue), {Failed})
  {
    var id := Id(c.maxQueue);
    var steps := RefusalIsReached(c, request, "k");
    before := steps + [CancelRequest(id)];
    Extend(c, steps, CancelRequest(id));
    assert After(c, before).held == After(c, steps).held && After(c, before).store.jobs[id].updatedAt == 0;
    after := SweepComes(c, before, id);
    Extend(c, after, WriteHeld(1));
  }
}
