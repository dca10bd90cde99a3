/**
 One job per idempotency key, and the runs in which that fails.
 */
module JobKeys {
  import opened Options
  import opened Jobs
  import opened JobProtocol
  import opened JobEffects
  import opened JobSteps
  import opened JobRuns
  import opened JobEndings

  /** A write that brings back a removed record whose key another job holds by now. */
  ghost predicate Revives(s: Sys, step: Step) {
    && step.WriteHeld? && step.thread in s.held
    && var copy := s.held[step.thread].copy;
    && copy.id !in s.store.jobs && copy.idempotencyKey != ""
    && exists id :: id in s.store.jobs && s.store.jobs[id].idempotencyKey == copy.idempotencyKey
  }

  lemma CreateKeepsKeys(c: Config, s: Sys, step: Step)
    requires Ordered(c, s) && KeysUnique(s.store) && Enabled(c, s, step) && step.Create?
    ensures KeysUnique(Apply(c, s, step).store)
  {
    ReserveIdempotent(s.store, step.listing, step.id, step.request, step.key, s.clock);
  }

  lemma ActsKeepsKeys(s: Sys, t: Sys, id: JobId)
    requires KeysUnique(s.store) && Acts(s, t, id)
    ensures KeysUnique(t.store)
  {
  }

  lemma RestartedKeys(s: Sys, store: Store, jobs: set<JobId>, reports: set<JobId>)
    requires KeysUnique(store)
    ensures KeysUnique(Restarted(s, store, jobs, reports).store)
  {
  }

  lemma RestartKeepsKeys(c: Config, s: Sys, step: Step)
    requires KeysUnique(s.store) && Enabled(c, s, step) && IsRestart(step)
    ensures KeysUnique(Apply(c, s, step).store)
  {
    if step.Restart? {
      RestartedKeys(s, s.store, step.jobs, step.reports);
    } else {
      RestartedKeys(s, Half(s, step.runner, step.report), step.jobs, step.reports);
    }
  }

  lemma OthersKeepKeys(c: Config, s: Sys, step: Step)
    requires KeysUnique(s.store) && Enabled(c, s, step) && !step.Create? && !step.WriteHeld?
    ensures KeysUnique(Apply(c, s, step).store)
  {
    if IsQuiet(step) {
      QuietLeavesStore(c, s, step);
    } else if IsLocked(step) {
      LockedActs(c, s, step);
      ActsKeepsKeys(s, Apply(c, s, step), Subject(s, step));
    } else if IsRestart(step) {
      RestartKeepsKeys(c, s, step);
    }
  }

  lemma HeldKeyIsKept(s: Sys, thread: nat)
    requires Keyed(s.store.jobs) && Identified(s) && thread in s.held
    ensures var copy := s.held[thread].copy;
            copy.id in s.store.jobs ==> s.store.jobs[copy.id].idempotencyKey == ToWrite(s.held[thread]).idempotencyKey
  {
  }

  lemma WriteKeepsKeys(c: Config, s: Sys, step: Step)
    requires Keyed(s.store.jobs) && Identified(s) && KeysUnique(s.store) && Enabled(c, s, step) && step.WriteHeld?
    ensures KeysUnique(Apply(c, s, step).store) <==> !Revives(s, step)
  {
    HeldKeyIsKept(s, step.thread);
    PutKeepsKeys(s.store, ToWrite(s.held[step.thread]), s.clock);
  }

  /** Every reachable store has one job per key exactly when no unlocked write brings back
      a removed record whose key was given to another job meanwhile. */
  lemma OneJobPerKeyExactly(c: Config, steps: seq<Step>)
    requires IsRun(c, steps)
    ensures (forall k :: 0 <= k <= |steps| ==> KeysUnique(At(c, steps, k).store))
       <==> (forall k :: 0 <= k < |steps| ==> !Revives(At(c, steps, k), steps[k]))
  {
    if forall k :: 0 <= k < |steps| ==> !Revives(At(c, steps, k), steps[k]) {
      forall k | 0 <= k <= |steps| ensures KeysUnique(At(c, steps, k).store) {
        KeysStayUnique(c, steps, k);
      }
    } else {
      var k :| 0 <= k < |steps| && Revives(At(c, steps, k), steps[k]);
      AtNext(c, steps, k);
      if KeysUnique(At(c, steps, k).store) {
        WriteKeepsKeys(c, At(c, steps, k), steps[k]);
        assert !KeysUnique(At(c, steps, k + 1).store);
      }
    }
  }

  lemma {:induction false} KeysStayUnique(c: Config, steps: seq<Step>, n: nat)
    requires IsRun(c, steps) && n <= |steps|
    requires forall k :: 0 <= k < n ==> !Revives(At(c, steps, k), steps[k])
    ensures KeysUnique(At(c, steps, n).store)
  {
    if n > 0 {
      KeysStayUnique(c, steps, n - 1);
      AtNext(c, steps, n - 1);
      var s, step := At(c, steps, n - 1), steps[n - 1];
      if step.Create? {
        CreateKeepsKeys(c, s, step);
      } else if step.WriteHeld? {
        WriteKeepsKeys(c, s, step);
      } else {
        OthersKeepKeys(c, s, step);
      }
    }
  }

  /** Every held record is on disk while retention is patient, so nothing is revived. */
  ghost predicate Retained(s: Sys) {
    forall t :: t in s.held ==> s.held[t].copy.id in s.store.jobs
  }

  lemma RestartRetains(c: Config, s: Sys, step: Step)
    requires Enabled(c, s, step) && IsRestart(step)
    ensures Retained(Apply(c, s, step))
  {
  }

  lemma PatientStepRetains(c: Config, s: Sys, step: Step)
    requires Ordered(c, s) && Retained(s) && Enabled(c, s, step) && Patient(s, step)
    ensures Retained(Apply(c, s, step))
  {
    if IsLocked(step) {
      LockedActs(c, s, step);
    } else if IsPool(step) {
      PoolLeaves(c, s, step);
    } else if IsMarker(step) {
      MarkerLeaves(c, s, step);
    } else if IsThread(step) {
      ThreadHands(c, s, step);
    } else if step.WriteHeld? {
      HeldWrites(c, s, step);
    } else if step.Create? {
      CreateAdds(c, s, step);
    } else if IsRestart(step) {
      RestartRetains(c, s, step);
    }
  }

  lemma {:induction false} PatientRunRetains(c: Config, steps: seq<Step>, n: nat)
    requires IsRun(c, steps) && n <= |steps|
    requires forall k :: 0 <= k < n ==> Patient(At(c, steps, k), steps[k])
    ensures Retained(At(c, steps, n))
  {
    if n > 0 {
      PatientRunRetains(c, steps, n - 1);
      AtNext(c, steps, n - 1);
      PatientStepRetains(c, At(c, steps, n - 1), steps[n - 1]);
    }
  }

  lemma PatienceKeepsKeys(c: Config, steps: seq<Step>)
    requires IsRun(c, steps) && forall k :: 0 <= k < |steps| ==> Patient(At(c, steps, k), steps[k])
    ensures forall k :: 0 <= k <= |steps| ==> KeysUnique(At(c, steps, k).store)
  {
    forall k | 0 <= k < |steps| ensures !Revives(At(c, steps, k), steps[k]) {
      PatientRunRetains(c, steps, k);
    }
    OneJobPerKeyExactly(c, steps);
  }

  // ----- Who can be held up by retention

  /** A thread holds a record that was last written longer ago than retention keeps one. */
  ghost predicate Stalled(c: Config, s: Sys, thread: nat) {
    thread in s.held && Expired(c, s.store, s.held[thread].copy.id, s.clock)
  }

  /** The maintenance thread never removes what it holds: its removals come first.  So a
      removal can only harm another thread, and only one that has stalled. */
  lemma OnlyStallersAreHarmed(c: Config, s: Sys, step: Step)
    requires Good(c, s) && Enabled(c, s, step) && !Patient(s, step)
    ensures MAINTENANCE !in s.held
    ensures exists t :: t != MAINTENANCE && Stalled(c, s, t) && !s.held[t].Interrupting? && s.held[t].copy.id == step.id
  {
    var t :| t in s.held && s.held[t].copy.id == step.id;
    assert t != MAINTENANCE && Stalled(c, s, t);
  }

  /** No thread but the maintenance pass takes longer over a write than retention. */
  ghost predicate Prompt(c: Config, s: Sys) {
    forall t :: t in s.held && t != MAINTENANCE ==> !Stalled(c, s, t)
  }

  lemma PromptIsPatient(c: Config, steps: seq<Step>)
    requires IsRun(c, steps) && forall k :: 0 <= k < |steps| ==> Prompt(c, At(c, steps, k))
    ensures forall k :: 0 <= k < |steps| ==> Patient(At(c, steps, k), steps[k])
  {
    forall k | 0 <= k < |steps| ensures Patient(At(c, steps, k), steps[k]) {
      AtNext(c, steps, k);
      if !Patient(At(c, steps, k), steps[k]) {
        OnlyStallersAreHarmed(c, At(c, steps, k), steps[k]);
      }
    }
  }

  /** So with handlers and notifiers that write within the retention period, each key has one
      job. */
  lemma PromptnessKeepsKeys(c: Config, steps: seq<Step>)
    requires IsRun(c, steps) && forall k :: 0 <= k < |steps| ==> Prompt(c, At(c, steps, k))
    ensures forall k :: 0 <= k <= |steps| ==> KeysUnique(At(c, steps, k).store)
  {
    PromptIsPatient(c, steps);
    PatienceKeepsKeys(c, steps);
  }

  // ----- A key that is shared

  ghost predicate KeyIsFree(s: Store, key: string) {
    forall id :: id in s.jobs ==> s.jobs[id].idempotencyKey != key
  }

  /** From any state where a thread has held a keyed record past its retention: a sweep
      removes the record, ... */
  lemma RemovalFreesKey(c: Config, steps: seq<Step>, thread: nat)
    requires IsRun(c, steps) && thread in After(c, steps).held && After(c, steps).maintenance.Sweeping?
    requires var s := After(c, steps);
             var copy := s.held[thread].copy;
             copy.idempotencyKey != "" && KeysUnique(s.store) && Expired(c, s.store, copy.id, s.maintenance.since)
    ensures var s := After(c, steps);
            var run := steps + [UnlinkJob(s.held[thread].copy.id)];
            && IsRun(c, run) && After(c, run).held == s.held && After(c, run).used == s.used
            && After(c, run).store.jobs == s.store.jobs - {s.held[thread].copy.id}
            && KeyIsFree(After(c, run).store, s.held[thread].copy.idempotencyKey)
  {
    GoodAlways(c, steps);
    var s := After(c, steps);
    Extend(c, steps, UnlinkJob(s.held[thread].copy.id));
    assert SameRequest(s.store.jobs[s.held[thread].copy.id], s.held[thread].copy);
  }

  /** ... a client uses the key again, ... */
  lemma FreeKeyIsTaken(c: Config, steps: seq<Step>, step: Step)
    requires IsRun(c, steps) && step.Create? && Enabled(c, After(c, steps), step)
    requires KeyIsFree(After(c, steps).store, step.key)
    ensures var s, run := After(c, steps), steps + [step];
            && IsRun(c, run)
            && After(c, run).held == s.held[step.thread := Submitting(NewJob(step.id, step.request, step.key, s.clock))]
            && step.id in After(c, run).store.jobs && After(c, run).store.jobs[step.id].idempotencyKey == step.key
  {
    Extend(c, steps, step);
    HolderFound(After(c, steps).store, step.listing, step.key);
  }

  /** ... and the thread brings the first job back: two jobs on disk hold one key. */
  lemma RevivalSharesKey(c: Config, steps: seq<Step>, thread: nat, id: JobId)
    requires IsRun(c, steps) && thread in After(c, steps).held && !After(c, steps).held[thread].Submitting?
    requires var s := After(c, steps);
             var copy := s.held[thread].copy;
             id != copy.id && id in s.store.jobs && s.store.jobs[id].idempotencyKey == copy.idempotencyKey != ""
    ensures IsRun(c, steps + [WriteHeld(thread)]) && !KeysUnique(After(c, steps + [WriteHeld(thread)]).store)
  {
    var copy := After(c, steps).held[thread].copy;
    Extend(c, steps, WriteHeld(thread));
    SharedKey(After(c, steps + [WriteHeld(thread)]).store, copy.id, id);
  }

  lemma SharedKey(s: Store, j: JobId, k: JobId)
    requires j in s.jobs && k in s.jobs && j != k && s.jobs[j].idempotencyKey == s.jobs[k].idempotencyKey != ""
    ensures !KeysUnique(s)
  {
  }

  /** A run to a sweep that finds the record of a refusal which has stalled. */
  lemma StallIsReached(c: Config, request: Request) returns (steps: seq<Step>)
    ensures IsRun(c, steps)
    ensures var s, n := After(c, steps), c.maxQueue;
            && s.held == map[1 := Refusing(NewJob(Id(n), request, "k", 0))] && KeysUnique(s.store)
            && s.maintenance.Sweeping? && Expired(c, s.store, Id(n), s.maintenance.since) && Stalled(c, s, 1)
            && s.store.jobs.Keys == s.used == (set i: nat | i < n + 1 :: Id(i))
  {
    var refused := RefusalIsReached(c, request, "k");
    var wait := Wait(c.retention + 1);
    Extend(c, refused, wait);
    Extend(c, refused + [wait], BeginPass);
    steps := refused + [wait] + [BeginPass];
  }

  /** Under every configuration some run gives two jobs one key: a refusal stalls for longer
      than retention keeps a record. */
  lemma StalledRefusalSharesKey(c: Config, request: Request) returns (steps: seq<Step>)
    ensures IsRun(c, steps) && !KeysUnique(After(c, steps).store)
  {
    var n := c.maxQueue;
    var stalled := StallIsReached(c, request);
    RemovalFreesKey(c, stalled, 1);
    var swept := stalled + [UnlinkJob(Id(n))];
    var create := Create(2, Ids(n), Id(n + 1), request, "k");
    IdsAreLeft(After(c, stalled).store, n);
    assert |Id(n + 1)| == n + 1;
    FreeKeyIsTaken(c, swept, create);
    RevivalSharesKey(c, swept + [create], 1, Id(n + 1));
    steps := swept + [create] + [WriteHeld(1)];
  }

  lemma IdsAreLeft(s: Store, n: nat)
    requires s.jobs.Keys == (set i: nat | i < n + 1 :: Id(i))
    ensures Lists(Ids(n), s.(jobs := s.jobs - {Id(n)}))
  {
    assert |Id(n)| == n;
    forall id ensures id in Ids(n) <==> id in s.jobs - {Id(n)} {
      if id in s.jobs && id != Id(n) {
        var i: nat :| i < n + 1 && Id(i) == id;
        assert Ids(n)[i] == id;
      }
      if id in Ids(n) {
        var i :| 0 <= i < n && Ids(n)[i] == id;
        assert |Id(i)| == i;
      }
    }
  }
}
