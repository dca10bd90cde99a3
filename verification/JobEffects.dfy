/**
 What the steps of the protocol do, a group of steps at a time, without saying who does it:
 the proofs about states go by these.
 */
module JobEffects {
  import opened Options
  import opened Jobs
  import opened JobProtocol

  predicate IsRestart(step: Step) {
    step.Restart? || step.CrashInCommit?
  }

  /** Steps that leave the store alone. */
  predicate IsQuiet(step: Step) {
    IsPool(step) || IsMarker(step) || IsThread(step)
  }

  /** Steps of the pool of workers. */
  predicate IsPool(step: Step) {
    step.Enqueue? || step.Dequeue? || step.Return?
  }

  /** Steps that only move the clock or the maintenance pass. */
  predicate IsMarker(step: Step) {
    step.Wait? || step.BeginPass? || step.EndSweep? || step.EndPass?
  }

  /** Steps that only change what a thread holds. */
  predicate IsThread(step: Step) {
    step.Refuse? || step.ReadLeftover? || step.ReadNotice? || step.Drop?
  }

  /** Steps that add or remove files. */
  predicate IsFile(step: Step) {
    step.Create? || IsRemoval(step)
  }

  predicate IsRemoval(step: Step) {
    step.UnlinkJob? || step.UnlinkReport?
  }

  /** Steps that hold the store's lock. */
  predicate IsLocked(step: Step) {
    step.CancelRequest? || step.Claim? || step.Commit? || step.Fail? || step.Timeout?
  }

  // ----- The pool and the markers

  /** No record, note or promise changes, and no thread comes to hold anything; a new job may
      be handed to the pool. */
  ghost predicate Leaves(s: Sys, t: Sys) {
    && t.store == s.store && t.claims == s.claims && t.used == s.used && t.noticed == s.noticed && t.swept == s.swept
    && (forall x :: x in t.held ==> x in s.held && t.held[x] == s.held[x])
    && (forall x :: x in s.held && x !in t.held ==> s.held[x].Submitting?)
  }

  lemma PoolLeaves(c: Config, s: Sys, step: Step)
    requires Enabled(c, s, step) && IsPool(step)
    ensures Leaves(s, Apply(c, s, step))
  {
  }

  /** A marker changes nothing but the clock and the pass. */
  lemma MarkerLeaves(c: Config, s: Sys, step: Step)
    requires Enabled(c, s, step) && IsMarker(step)
    ensures var t := Apply(c, s, step); t == s.(clock := t.clock, maintenance := t.maintenance)
  {
  }

  // ----- The threads

  /** What a thread holds after such a step: what it held, the same job turned away, or a
      record as it is on disk. */
  ghost predicate Takes(s: Sys, x: nat, h: Held) {
    || (x in s.held && h == s.held[x])
    || (h.Refusing? && x in s.held && s.held[x] == Submitting(h.copy))
    || (h.Interrupting? && x == MAINTENANCE && Live(s, h.copy.id) && h.copy == s.store.jobs[h.copy.id])
    || (h.Notifying? && TakesNotice(s, h.copy))
  }

  /** A copy of the record of an announced job, or of a failed delivery, but for its delivery. */
  ghost predicate TakesNotice(s: Sys, copy: Job) {
    && copy.id in s.store.jobs && copy == s.store.jobs[copy.id].(delivery := copy.delivery)
    && (copy.id in s.noticed || copy.status in {Complete, Failed})
  }

  ghost predicate Hands(s: Sys, t: Sys) {
    t == s.(held := t.held) && forall x :: x in t.held ==> Takes(s, x, t.held[x])
  }

  lemma NoticeHands(c: Config, s: Sys, step: Step)
    requires Ordered(c, s) && Enabled(c, s, step) && step.ReadNotice?
    ensures Hands(s, Apply(c, s, step))
  {
    assert TakesNotice(s, Announcing(s.store.jobs[step.id], step.replies));
  }

  lemma ThreadHands(c: Config, s: Sys, step: Step)
    requires Ordered(c, s) && Enabled(c, s, step) && IsThread(step)
    ensures Hands(s, Apply(c, s, step))
  {
    if step.ReadNotice? {
      NoticeHands(c, s, step);
    }
  }

  lemma ThreadLeavesStore(c: Config, s: Sys, step: Step)
    requires Enabled(c, s, step) && IsThread(step)
    ensures var t := Apply(c, s, step); t == s.(held := t.held)
  {
  }

  lemma QuietLeavesStore(c: Config, s: Sys, step: Step)
    requires Enabled(c, s, step) && IsQuiet(step)
    ensures var t := Apply(c, s, step); t.store == s.store && t.claims == s.claims && t.used == s.used
  {
    if IsPool(step) {
      PoolLeaves(c, s, step);
    } else if IsMarker(step) {
      MarkerLeaves(c, s, step);
    } else {
      ThreadLeavesStore(c, s, step);
    }
  }

  // ----- The files

  /** A new job, held by the thread that made it. */
  ghost predicate Adds(s: Sys, t: Sys, x: nat, job: Job) {
    && job.id !in s.used && job.status == Queued && job.delivery.None? && x !in s.held
    && t == s.(store := s.store.(jobs := s.store.jobs[job.id := job]), held := s.held[x := Submitting(job)],
            used := s.used + {job.id})
  }

  lemma CreateAdds(c: Config, s: Sys, step: Step)
    requires Enabled(c, s, step) && step.Create?
    ensures var t := Apply(c, s, step);
            t == s || Adds(s, t, step.thread, NewJob(step.id, step.request, step.key, s.clock))
  {
  }

  /** Files go, and the reports that go are noted. */
  ghost predicate Removes(s: Sys, t: Sys) {
    && t == s.(store := t.store, swept := t.swept) && s.swept <= t.swept
    && (forall id :: id in t.store.jobs ==> id in s.store.jobs && t.store.jobs[id] == s.store.jobs[id])
    && (forall id :: id in t.store.reports ==> id in s.store.reports && t.store.reports[id] == s.store.reports[id])
    && (forall id :: id in s.store.reports && id !in t.store.reports ==> id in t.swept)
  }

  lemma UnlinkRemoves(c: Config, s: Sys, step: Step)
    requires Enabled(c, s, step) && IsRemoval(step)
    ensures Removes(s, Apply(c, s, step))
  {
  }

  // ----- The locked steps

  /** The job a locked step is about. */
  function Subject(s: Sys, step: Step): JobId
    requires step.CancelRequest? || (IsLocked(step) && Runs(s, step))
  {
    if step.CancelRequest? then step.id
    else if step.Timeout? then s.runners[s.waiting[step.worker]].job
    else s.runners[step.runner].job
  }

  predicate Runs(s: Sys, step: Step)
    requires IsLocked(step) && !step.CancelRequest?
  {
    if step.Timeout? then step.worker in s.waiting && s.waiting[step.worker] in s.runners
    else step.runner in s.runners
  }

  /** Who is at work on what stays, but that a worker may go on. */
  ghost predicate SamePool(s: Sys, t: Sys) {
    && t.queue == s.queue && t.held == s.held && t.used == s.used && t.clock == s.clock
    && t.maintenance == s.maintenance
    && (forall r :: r in t.runners <==> r in s.runners)
    && (forall r :: r in s.runners ==> t.runners[r].job == s.runners[r].job)
    && (forall w :: w in t.waiting ==> w in s.waiting && t.waiting[w] == s.waiting[w])
  }

  /** A job is noted as announced when it completes or fails, and as claimed when it starts. */
  ghost predicate Notes(s: Sys, t: Sys, id: JobId) {
    && (t.noticed == s.noticed
        || (t.noticed == s.noticed + {id} && Live(s, id) && Has(t.store, id, {Complete, Failed})))
    && (t.claims == s.claims
        || (t.claims == s.claims + multiset{id} && Has(s.store, id, {Queued}) && Has(t.store, id, {Running})))
  }

  /** A job that becomes complete becomes so with its report. */
  ghost predicate Publishes(s: Sys, t: Sys, id: JobId) {
    || (t.swept == s.swept && t.store.reports == s.store.reports
        && (Has(t.store, id, {Complete}) ==> id in s.store.jobs && t.store.jobs[id] == s.store.jobs[id]))
    || (Has(s.store, id, {Running}) && Has(t.store, id, {Complete}) && t.swept == s.swept - {id}
        && id in t.store.reports && t.store.reports == s.store.reports[id := t.store.reports[id]]
        && t.store.jobs[id].reportSha256 == Some(Sha256(t.store.reports[id])))
  }

  /** A locked step acts on one job. */
  ghost predicate Acts(s: Sys, t: Sys, id: JobId) {
    StepsOne(s.store, t.store, id) && SamePool(s, t) && Notes(s, t, id) && Publishes(s, t, id)
  }

  lemma CancelActs(c: Config, s: Sys, step: Step)
    requires Enabled(c, s, step) && step.CancelRequest?
    ensures Acts(s, Apply(c, s, step), step.id)
  {
  }

  lemma ClaimActs(c: Config, s: Sys, step: Step)
    requires Enabled(c, s, step) && step.Claim?
    ensures Acts(s, Apply(c, s, step), s.runners[step.runner].job)
  {
  }

  lemma CommitActs(c: Config, s: Sys, step: Step)
    requires Enabled(c, s, step) && step.Commit?
    ensures Acts(s, Apply(c, s, step), s.runners[step.runner].job)
  {
  }

  lemma FailActs(c: Config, s: Sys, step: Step)
    requires Enabled(c, s, step) && step.Fail?
    ensures Acts(s, Apply(c, s, step), s.runners[step.runner].job)
  {
  }

  lemma TimeoutActs(c: Config, s: Sys, step: Step)
    requires Enabled(c, s, step) && step.Timeout?
    ensures Acts(s, Apply(c, s, step), s.runners[s.waiting[step.worker]].job)
  {
  }

  lemma LockedActs(c: Config, s: Sys, step: Step)
    requires Enabled(c, s, step) && IsLocked(step)
    ensures (step.CancelRequest? || Runs(s, step)) && Acts(s, Apply(c, s, step), Subject(s, step))
  {
    if step.CancelRequest? {
      CancelActs(c, s, step);
    } else if step.Claim? {
      ClaimActs(c, s, step);
    } else if step.Commit? {
      CommitActs(c, s, step);
    } else if step.Fail? {
      FailActs(c, s, step);
    } else {
      TimeoutActs(c, s, step);
    }
  }

  // ----- The unlocked write

  /** A thread puts what it holds on disk; a failure from the maintenance pass is announced. */
  ghost predicate Writes(s: Sys, t: Sys, x: nat) {
    && x in s.held && !s.held[x].Submitting?
    && t == s.(store := Put(s.store, ToWrite(s.held[x]), s.clock), held := s.held - {x},
            noticed := if s.held[x].Interrupting? then s.noticed + {s.held[x].copy.id} else s.noticed)
  }

  lemma HeldWrites(c: Config, s: Sys, step: Step)
    requires Enabled(c, s, step) && step.WriteHeld?
    ensures Writes(s, Apply(c, s, step), step.thread)
  {
  }
}
