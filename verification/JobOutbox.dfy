/**
 Who announces a job, and how often: each ending is announced by the thread that made it,
 and the maintenance pass takes up what failed.
 */
module JobOutbox {
  import opened Options
  import opened Jobs
  import opened JobProtocol
  import opened JobEffects
  import opened JobSteps
  import opened JobRuns
  import opened JobEndings
  import Webhooks

  /** What a run so far has done about one job: announcements that threads still owe, POSTs
      sent, and notifiers that went without recording. */
  datatype Account = Account(due: nat, posts: nat, lost: nat)

  ghost predicate NotifierOf(s: Sys, x: nat, id: JobId) {
    x in s.held && s.held[x].Notifying? && s.held[x].copy.id == id
  }

  ghost function Notifiers(s: Sys, id: JobId): set<nat> {
    set x | x in s.held && NotifierOf(s, x, id)
  }

  /** A locked step that ends a job goes on to announce it, but for a cancellation. */
  ghost predicate EndsToAnnounce(s: Sys, step: Step, id: JobId) {
    && (step.Commit? || step.Fail? || step.Timeout?)
    && Runs(s, step) && Subject(s, step) == id
    && Has(s.store, id, if step.Commit? then {Running} else {Queued, Running})
  }

  ghost function Track(s: Sys, a: Account, step: Step, id: JobId): Account {
    match step
    case ReadNotice(_, j, replies) =>
      if j == id then Account(if a.due > 0 then a.due - 1 else 0, a.posts + Webhooks.PostsSent(replies), a.lost) else a
    case WriteHeld(x) =>
      if x in s.held && s.held[x].Interrupting? && s.held[x].copy.id == id then a.(due := a.due + 1) else a
    case Drop(x) => if NotifierOf(s, x, id) then a.(lost := a.lost + 1) else a
    case Restart(jobs, _) => TrackRestart(s, a, jobs, id)
    case CrashInCommit(_, _, jobs, _) => TrackRestart(s, a, jobs, id)
    case _ => if EndsToAnnounce(s, step, id) then a.(due := a.due + 1) else a
  }

  /** The startup pass owes an announcement of each job that it fails. */
  ghost function TrackRestart(s: Sys, a: Account, jobs: set<JobId>, id: JobId): Account {
    Account(if Live(s, id) && id !in jobs then 1 else 0, a.posts, a.lost + |Notifiers(s, id)|)
  }

  /** The account of a run so far. */
  ghost function AccountOf(c: Config, steps: seq<Step>, id: JobId): Account
    requires IsRun(c, steps)
    decreases |steps|
  {
    if steps == [] then Account(0, 0, 0)
    else
      var before, last := steps[..|steps| - 1], steps[|steps| - 1];
      Track(After(c, before), AccountOf(c, before, id), last, id)
  }

  /** A notifier sets out only where an announcement is owed, or the maintenance pass finds a
      failed delivery. */
  ghost predicate IsOwed(s: Sys, a: Account, step: Step, id: JobId) {
    step.ReadNotice? && step.id == id && id in s.store.jobs ==>
      a.due > 0 || (step.thread == MAINTENANCE && NeedsRetry(s.store.jobs[id]))
  }

  ghost predicate EachIsOwed(c: Config, steps: seq<Step>, id: JobId)
    requires IsRun(c, steps)
    decreases |steps|
  {
    steps == [] ||
    var before, last := steps[..|steps| - 1], steps[|steps| - 1];
    EachIsOwed(c, before, id) && IsOwed(After(c, before), AccountOf(c, before, id), last, id)
  }

  /** No failure is written over a job that is not waiting or running any more. */
  ghost predicate InTime(s: Sys, step: Step, id: JobId) {
    WritesFailure(s, step, id) ==> Live(s, id)
  }

  ghost predicate AllInTime(c: Config, steps: seq<Step>, id: JobId)
    requires IsRun(c, steps)
    decreases |steps|
  {
    steps == [] ||
    var before, last := steps[..|steps| - 1], steps[|steps| - 1];
    AllInTime(c, before, id) && InTime(After(c, before), last, id)
  }

  // ----- What such runs keep for a job

  /** One announcement at most is owed or under way, and none before the job is over. */
  ghost predicate OneAtWork(s: Sys, a: Account, id: JobId) {
    && a.due <= 1
    && (forall x, y :: NotifierOf(s, x, id) && NotifierOf(s, y, id) ==> x == y)
    && (forall x :: NotifierOf(s, x, id) ==> a.due == 0 && !Live(s, id))
    && (Live(s, id) ==> a.due == 0)
  }

  ghost function DeliveryOf(s: Sys, id: JobId): Option<Webhooks.Delivery>
    requires id in s.store.jobs
  {
    s.store.jobs[id].delivery
  }

  /** The record on disk: nothing is recorded before the first announcement is under way, and a
      notifier finds what it read. */
  ghost predicate Kept(s: Sys, a: Account, id: JobId) {
    id in s.store.jobs ==>
      && Webhooks.WellKept(DeliveryOf(s, id))
      && (Live(s, id) || a.due > 0 ==> DeliveryOf(s, id).None?)
      && (forall x :: NotifierOf(s, x, id) ==>
                        && !Webhooks.Settled(DeliveryOf(s, id))
                        && (x != MAINTENANCE ==> DeliveryOf(s, id).None?)
                        && Webhooks.Attempts(s.held[x].copy.delivery) <= Webhooks.Attempts(DeliveryOf(s, id)) + 3)
  }

  /** What threads hold: a notifier its delivery, any other none. */
  ghost predicate Carried(s: Sys, id: JobId) {
    && (forall x :: NotifierOf(s, x, id) ==> Webhooks.WellKept(s.held[x].copy.delivery))
    && (forall x :: x in s.held && !s.held[x].Notifying? && s.held[x].copy.id == id ==>
                      s.held[x].copy.delivery.None?)
  }

  /** Every POST is on the record, or on its way there, or was lost. */
  ghost predicate Counted(s: Sys, a: Account, id: JobId) {
    && a.posts <= 9 + 3 * a.lost
    && (forall x :: NotifierOf(s, x, id) ==> a.posts <= Webhooks.Attempts(s.held[x].copy.delivery) + 3 * a.lost)
    && (id in s.store.jobs && (forall x :: !NotifierOf(s, x, id)) ==>
          a.posts <= Webhooks.Attempts(DeliveryOf(s, id)) + 3 * a.lost)
  }

  ghost predicate Untouched(s: Sys, a: Account, id: JobId) {
    id !in s.used ==> a == Account(0, 0, 0)
  }

  ghost predicate Orderly(s: Sys, a: Account, id: JobId) {
    OneAtWork(s, a, id) && Kept(s, a, id) && Carried(s, id) && Counted(s, a, id) && Untouched(s, a, id)
  }

  /** Nothing about this job changes but that a thread may take up or hand on a new failure. */
  ghost predicate SameFor(s: Sys, t: Sys, id: JobId) {
    && (id in t.store.jobs <==> id in s.store.jobs)
    && (id in s.store.jobs ==> t.store.jobs[id] == s.store.jobs[id])
    && (forall x :: NotifierOf(s, x, id) <==> NotifierOf(t, x, id))
    && (forall x :: NotifierOf(s, x, id) ==> t.held[x] == s.held[x])
    && (forall x :: x in t.held && !t.held[x].Notifying? && t.held[x].copy.id == id ==> t.held[x].copy.delivery.None?)
    && (id in s.used ==> id in t.used)
  }

  lemma SameKeeps(s: Sys, t: Sys, a: Account, id: JobId)
    requires Orderly(s, a, id) && SameFor(s, t, id)
    ensures Orderly(t, a, id)
  {
  }

  // A step at a time.

  lemma LeavesSame(s: Sys, t: Sys, id: JobId)
    requires Leaves(s, t) && Carried(s, id)
    ensures SameFor(s, t, id)
  {
  }

  lemma RefuseSame(c: Config, s: Sys, step: Step, a: Account, id: JobId)
    requires Orderly(s, a, id) && Enabled(c, s, step) && step.Refuse?
    ensures SameFor(s, Apply(c, s, step), id)
  {
  }

  lemma LeftoverSame(c: Config, s: Sys, step: Step, a: Account, id: JobId)
    requires Ordered(c, s) && Orderly(s, a, id) && Enabled(c, s, step) && step.ReadLeftover?
    ensures SameFor(s, Apply(c, s, step), id)
  {
  }

  lemma OtherNoticeSame(c: Config, s: Sys, step: Step, a: Account, id: JobId)
    requires Ordered(c, s) && Orderly(s, a, id) && Enabled(c, s, step) && step.ReadNotice? && step.id != id
    ensures SameFor(s, Apply(c, s, step), id)
  {
  }

  lemma OtherDropSame(c: Config, s: Sys, step: Step, a: Account, id: JobId)
    requires Orderly(s, a, id) && Enabled(c, s, step) && step.Drop? && !NotifierOf(s, step.thread, id)
    ensures SameFor(s, Apply(c, s, step), id)
  {
  }

  lemma AddsSame(s: Sys, t: Sys, x: nat, job: Job, a: Account, id: JobId)
    requires Orderly(s, a, id) && Adds(s, t, x, job) && job.id != id
    ensures SameFor(s, t, id)
  {
  }

  lemma ActsSame(s: Sys, t: Sys, subject: JobId, a: Account, id: JobId)
    requires Orderly(s, a, id) && Acts(s, t, subject) && subject != id
    ensures SameFor(s, t, id)
  {
  }

  lemma WritesSame(s: Sys, t: Sys, x: nat, a: Account, id: JobId)
    requires Orderly(s, a, id) && Writes(s, t, x) && s.held[x].copy.id != id
    ensures SameFor(s, t, id)
  {
  }

  lemma NewIsOrderly(c: Config, s: Sys, t: Sys, x: nat, job: Job, a: Account)
    requires Ordered(c, s) && Orderly(s, a, job.id) && Adds(s, t, x, job)
    ensures Orderly(t, a, job.id)
  {
    assert forall y :: !NotifierOf(t, y, job.id);
  }

  lemma RemovedIsOrderly(s: Sys, t: Sys, a: Account, id: JobId)
    requires Orderly(s, a, id) && Removes(s, t)
    ensures Orderly(t, a, id)
  {
    assert forall x :: NotifierOf(s, x, id) <==> NotifierOf(t, x, id);
  }

  /** A locked step on the job itself: what it owes is owed for the first time. */
  lemma ActedIsOrderly(s: Sys, t: Sys, a: Account, b: Account, id: JobId)
    requires Orderly(s, a, id) && Acts(s, t, id) && id in s.used
    requires b == a || (b == a.(due := a.due + 1) && Live(s, id) && !Live(t, id))
    ensures Orderly(t, b, id)
  {
    assert forall x :: NotifierOf(s, x, id) <==> NotifierOf(t, x, id);
  }

  /** Where an announcement is owed nobody is at work. */
  lemma NobodyAtWork(s: Sys, a: Account, step: Step, id: JobId)
    requires Orderly(s, a, id) && step.ReadNotice? && step.id == id && IsOwed(s, a, step, id)
    requires step.thread !in s.held && id in s.store.jobs
    ensures forall x :: !NotifierOf(s, x, id)
    ensures step.thread != MAINTENANCE ==> DeliveryOf(s, id).None?
    ensures DeliveryOf(s, id).Some? ==> a.due == 0
  {
  }

  /** A notification adds to the record what it sent, and three attempts at most. */
  lemma RecordedGrows(previous: Option<Webhooks.Delivery>, replies: Webhooks.Replies)
    requires Webhooks.WellKept(previous) && !Webhooks.Settled(previous)
    ensures var next := Some(Webhooks.Recorded(previous, Webhooks.ReceiptOf(replies)));
            && Webhooks.WellKept(next)
            && Webhooks.Attempts(previous) + Webhooks.PostsSent(replies) <= Webhooks.Attempts(next)
            && Webhooks.Attempts(next) <= Webhooks.Attempts(previous) + 3
  {
  }

  /** A thread sets out to announce the job, having sent so many POSTs. */
  ghost predicate SetsOut(s: Sys, t: Sys, x: nat, copy: Job, posts: nat) {
    && copy.id in s.store.jobs && !Live(s, copy.id) && !Webhooks.Settled(DeliveryOf(s, copy.id))
    && (x != MAINTENANCE ==> DeliveryOf(s, copy.id).None?)
    && x !in s.held && t == s.(held := s.held[x := Notifying(copy)])
    && Webhooks.WellKept(copy.delivery)
    && Webhooks.Attempts(DeliveryOf(s, copy.id)) + posts <= Webhooks.Attempts(copy.delivery)
    && Webhooks.Attempts(copy.delivery) <= Webhooks.Attempts(DeliveryOf(s, copy.id)) + 3
  }

  lemma NoticeSetsOut(c: Config, s: Sys, step: Step, a: Account)
    requires Ordered(c, s) && Announced(s) && Enabled(c, s, step)
    requires step.ReadNotice? && Orderly(s, a, step.id) && IsOwed(s, a, step, step.id)
    ensures var copy := Announcing(s.store.jobs[step.id], step.replies);
            copy.id == step.id && SetsOut(s, Apply(c, s, step), step.thread, copy, Webhooks.PostsSent(step.replies))
  {
    NobodyAtWork(s, a, step, step.id);
    RecordedGrows(DeliveryOf(s, step.id), step.replies);
  }

  lemma OutIsOrderly(s: Sys, t: Sys, x: nat, copy: Job, posts: nat, a: Account)
    requires Orderly(s, a, copy.id) && SetsOut(s, t, x, copy, posts) && forall y :: !NotifierOf(s, y, copy.id)
    requires copy.id in s.used
    ensures Orderly(t, Account(0, a.posts + posts, a.lost), copy.id)
  {
    forall y ensures NotifierOf(t, y, copy.id) <==> y == x {
      assert !NotifierOf(s, y, copy.id);
    }
  }

  lemma NoticeIsOrderly(c: Config, s: Sys, step: Step, a: Account, id: JobId)
    requires Ordered(c, s) && Announced(s) && Orderly(s, a, id) && Enabled(c, s, step)
    requires step.ReadNotice? && step.id == id && IsOwed(s, a, step, id)
    ensures Orderly(Apply(c, s, step), Track(s, a, step, id), id)
  {
    NobodyAtWork(s, a, step, id);
    NoticeSetsOut(c, s, step, a);
    var copy := Announcing(s.store.jobs[id], step.replies);
    OutIsOrderly(s, Apply(c, s, step), step.thread, copy, Webhooks.PostsSent(step.replies), a);
    assert Track(s, a, step, id) == Account(0, a.posts + Webhooks.PostsSent(step.replies), a.lost);
  }

  lemma DroppedIsOrderly(c: Config, s: Sys, step: Step, a: Account, id: JobId)
    requires Ordered(c, s) && Orderly(s, a, id) && Enabled(c, s, step)
    requires step.Drop? && NotifierOf(s, step.thread, id)
    ensures Orderly(Apply(c, s, step), Track(s, a, step, id), id)
  {
    var t := Apply(c, s, step);
    forall x ensures !NotifierOf(t, x, id) {
      assert NotifierOf(s, x, id) ==> x == step.thread;
    }
  }

  lemma WrittenNoticeIsOrderly(c: Config, s: Sys, t: Sys, x: nat, a: Account, id: JobId)
    requires Ordered(c, s) && Announced(s) && Orderly(s, a, id) && Writes(s, t, x) && NotifierOf(s, x, id)
    ensures Orderly(t, a, id)
  {
    forall y ensures !NotifierOf(t, y, id) {
      assert NotifierOf(s, y, id) ==> y == x;
    }
  }

  /** A live job fails in the hands of a thread, with nothing recorded and nobody at work. */
  ghost predicate Fails(s: Sys, t: Sys, id: JobId) {
    && Live(s, id) && id in t.store.jobs && DeliveryOf(t, id).None? && !Live(t, id)
    && t.used == s.used && forall y :: y in t.held ==> y in s.held && t.held[y] == s.held[y]
  }

  lemma FailedIsOrderly(s: Sys, t: Sys, a: Account, b: Account, id: JobId)
    requires Orderly(s, a, id) && Fails(s, t, id) && id in s.used
    requires b == a || b == a.(due := a.due + 1)
    ensures Orderly(t, b, id)
  {
    assert forall y :: NotifierOf(t, y, id) ==> NotifierOf(s, y, id);
  }

  lemma WrittenFailureIsOrderly(s: Sys, t: Sys, x: nat, a: Account, b: Account, id: JobId)
    requires Orderly(s, a, id) && Writes(s, t, x) && !s.held[x].Notifying? && s.held[x].copy.id == id && Live(s, id)
    requires b == if s.held[x].Interrupting? then a.(due := a.due + 1) else a
    requires id in s.used
    ensures Orderly(t, b, id)
  {
    assert Fails(s, t, id);
    FailedIsOrderly(s, t, a, b, id);
  }

  /** Nobody is at work, no job is live, and what is kept keeps its delivery. */
  ghost predicate Restarts(s: Sys, t: Sys, jobs: set<JobId>, id: JobId) {
    && t.held == map[] && t.used == s.used && !Live(t, id)
    && (id in t.store.jobs <==> id in s.store.jobs && id !in jobs)
    && (id in t.store.jobs ==> DeliveryOf(t, id) == DeliveryOf(s, id))
  }

  lemma RestartedRestarts(s: Sys, store: Store, jobs: set<JobId>, reports: set<JobId>, id: JobId)
    requires store.jobs == s.store.jobs
    ensures Restarts(s, Restarted(s, store, jobs, reports), jobs, id)
  {
  }

  lemma LostAreCounted(s: Sys, a: Account, jobs: set<JobId>, id: JobId)
    requires Orderly(s, a, id)
    ensures var b := TrackRestart(s, a, jobs, id);
            && b.posts <= 9 + 3 * b.lost
            && (id in s.store.jobs ==> b.posts <= Webhooks.Attempts(DeliveryOf(s, id)) + 3 * b.lost)
  {
    if x: nat :| NotifierOf(s, x, id) {
      assert x in Notifiers(s, id);
    }
  }

  lemma RestartedIsOrderly(c: Config, s: Sys, t: Sys, jobs: set<JobId>, a: Account, id: JobId)
    requires Ordered(c, s) && Orderly(s, a, id) && Restarts(s, t, jobs, id)
    ensures Orderly(t, TrackRestart(s, a, jobs, id), id)
  {
    LostAreCounted(s, a, jobs, id);
    assert forall x :: !NotifierOf(t, x, id);
    assert id !in s.used ==> Notifiers(s, id) == {};
  }

  lemma ReadIsOrderly(c: Config, s: Sys, step: Step, a: Account, id: JobId)
    requires Ordered(c, s) && Announced(s) && Orderly(s, a, id) && Enabled(c, s, step) && IsThread(step)
    requires IsOwed(s, a, step, id)
    ensures Orderly(Apply(c, s, step), Track(s, a, step, id), id)
  {
    var t := Apply(c, s, step);
    if step.ReadNotice? && step.id == id {
      NoticeIsOrderly(c, s, step, a, id);
    } else if step.Drop? && NotifierOf(s, step.thread, id) {
      DroppedIsOrderly(c, s, step, a, id);
    } else {
      if step.Refuse? {
        RefuseSame(c, s, step, a, id);
      } else if step.ReadLeftover? {
        LeftoverSame(c, s, step, a, id);
      } else if step.ReadNotice? {
        OtherNoticeSame(c, s, step, a, id);
      } else {
        OtherDropSame(c, s, step, a, id);
      }
      SameKeeps(s, t, a, id);
    }
  }

  /** What a locked step of the job owes, the job has just ended for. */
  lemma EndingIsOwedOnce(c: Config, s: Sys, step: Step, id: JobId)
    requires Enabled(c, s, step) && IsLocked(step) && EndsToAnnounce(s, step, id)
    ensures Live(s, id) && !Live(Apply(c, s, step), id)
  {
  }

  lemma LockedIsOrderly(c: Config, s: Sys, step: Step, a: Account, id: JobId)
    requires Ordered(c, s) && Orderly(s, a, id) && Enabled(c, s, step) && IsLocked(step)
    ensures Orderly(Apply(c, s, step), Track(s, a, step, id), id)
  {
    var t := Apply(c, s, step);
    LockedActs(c, s, step);
    if EndsToAnnounce(s, step, id) {
      EndingIsOwedOnce(c, s, step, id);
      ActedIsOrderly(s, t, a, Track(s, a, step, id), id);
    } else if Subject(s, step) != id {
      ActsSame(s, t, Subject(s, step), a, id);
      SameKeeps(s, t, a, id);
    } else if id in s.used {
      ActedIsOrderly(s, t, a, a, id);
    } else {
      UnknownStays(c, s, t, a, id);
    }
  }

  /** A client may try to cancel what is not there. */
  lemma UnknownStays(c: Config, s: Sys, t: Sys, a: Account, id: JobId)
    requires Ordered(c, s) && Orderly(s, a, id) && Acts(s, t, id) && id !in s.used
    ensures Orderly(t, a, id)
  {
    assert forall x :: !NotifierOf(s, x, id) && !NotifierOf(t, x, id);
  }

  lemma WriteIsOrderly(c: Config, s: Sys, step: Step, a: Account, id: JobId)
    requires Ordered(c, s) && Announced(s) && Orderly(s, a, id) && Enabled(c, s, step) && step.WriteHeld?
    requires InTime(s, step, id)
    ensures Orderly(Apply(c, s, step), Track(s, a, step, id), id)
  {
    var t := Apply(c, s, step);
    HeldWrites(c, s, step);
    if s.held[step.thread].copy.id != id {
      WritesSame(s, t, step.thread, a, id);
      SameKeeps(s, t, a, id);
    } else if s.held[step.thread].Notifying? {
      WrittenNoticeIsOrderly(c, s, t, step.thread, a, id);
    } else {
      assert WritesFailure(s, step, id);
      WrittenFailureIsOrderly(s, t, step.thread, a, Track(s, a, step, id), id);
    }
  }

  lemma RestartIsOrderly(c: Config, s: Sys, step: Step, a: Account, id: JobId)
    requires Ordered(c, s) && Orderly(s, a, id) && Enabled(c, s, step) && IsRestart(step)
    ensures Orderly(Apply(c, s, step), Track(s, a, step, id), id)
  {
    if step.Restart? {
      RestartedRestarts(s, s.store, step.jobs, step.reports, id);
      RestartedIsOrderly(c, s, Restarted(s, s.store, step.jobs, step.reports), step.jobs, a, id);
    } else {
      var half := Half(s, step.runner, step.report);
      RestartedRestarts(s, half, step.jobs, step.reports, id);
      RestartedIsOrderly(c, s, Restarted(s, half, step.jobs, step.reports), step.jobs, a, id);
    }
  }

  lemma PoolIsOrderly(c: Config, s: Sys, step: Step, a: Account, id: JobId)
    requires Orderly(s, a, id) && Enabled(c, s, step) && (IsPool(step) || IsMarker(step))
    ensures Orderly(Apply(c, s, step), a, id)
  {
    if IsPool(step) {
      PoolLeaves(c, s, step);
    } else {
      MarkerLeaves(c, s, step);
    }
    LeavesSame(s, Apply(c, s, step), id);
    SameKeeps(s, Apply(c, s, step), a, id);
  }

  lemma PoolOwesNothing(s: Sys, a: Account, step: Step, id: JobId)
    requires IsPool(step) || IsMarker(step) || IsFile(step)
    ensures Track(s, a, step, id) == a
  {
  }

  lemma StepIsOrderly(c: Config, s: Sys, step: Step, a: Account, id: JobId)
    requires Ordered(c, s) && Announced(s) && Orderly(s, a, id) && Enabled(c, s, step)
    requires InTime(s, step, id) && IsOwed(s, a, step, id)
    ensures Orderly(Apply(c, s, step), Track(s, a, step, id), id)
  {
    if IsThread(step) {
      ReadIsOrderly(c, s, step, a, id);
    } else if IsLocked(step) {
      LockedIsOrderly(c, s, step, a, id);
    } else if step.WriteHeld? {
      WriteIsOrderly(c, s, step, a, id);
    } else if IsRestart(step) {
      RestartIsOrderly(c, s, step, a, id);
    } else {
      PoolOwesNothing(s, a, step, id);
      if IsFile(step) {
        FilesAreOrderly(c, s, step, a, id);
      } else {
        PoolIsOrderly(c, s, step, a, id);
      }
    }
  }

  lemma FilesAreOrderly(c: Config, s: Sys, step: Step, a: Account, id: JobId)
    requires Ordered(c, s) && Orderly(s, a, id) && Enabled(c, s, step) && IsFile(step)
    ensures Orderly(Apply(c, s, step), a, id)
  {
    var t := Apply(c, s, step);
    if step.Create? {
      var job := NewJob(step.id, step.request, step.key, s.clock);
      CreateAdds(c, s, step);
      if t != s && step.id == id {
        NewIsOrderly(c, s, t, step.thread, job, a);
      } else if t != s {
        AddsSame(s, t, step.thread, job, a, id);
        SameKeeps(s, t, a, id);
      }
    } else {
      UnlinkRemoves(c, s, step);
      RemovedIsOrderly(s, t, a, id);
    }
  }

  // ----- Whole runs

  lemma {:induction false} OrderlyAlways(c: Config, steps: seq<Step>, id: JobId)
    requires IsRun(c, steps) && EachIsOwed(c, steps, id) && AllInTime(c, steps, id)
    ensures Orderly(After(c, steps), AccountOf(c, steps, id), id)
    decreases |steps|
  {
    if steps != [] {
      var before, last := steps[..|steps| - 1], steps[|steps| - 1];
      OrderlyAlways(c, before, id);
      GoodAlways(c, before);
      StepIsOrderly(c, After(c, before), last, AccountOf(c, before, id), id);
    }
  }

  lemma OneOrNone(s: Sys, a: Account, id: JobId)
    requires OneAtWork(s, a, id)
    ensures |Notifiers(s, id)| <= 1
  {
    if x: nat :| NotifierOf(s, x, id) {
      assert Notifiers(s, id) == {x};
    } else {
      assert Notifiers(s, id) == {};
    }
  }

  /** At every point of the run. */
  ghost predicate OneThroughout(c: Config, steps: seq<Step>, id: JobId)
    requires IsRun(c, steps)
    decreases |steps|
  {
    |Notifiers(After(c, steps), id)| <= 1 && (steps == [] || OneThroughout(c, steps[..|steps| - 1], id))
  }

  /** In a run in which each announcement is owed, and no failure is written over a job that is
      over: at most one notifier is ever at work on the job, and at most nine POSTs are sent,
      but for three for each notifier that goes without recording. */
  lemma {:induction false} OneNotifier(c: Config, steps: seq<Step>, id: JobId)
    requires IsRun(c, steps) && EachIsOwed(c, steps, id) && AllInTime(c, steps, id)
    ensures OneThroughout(c, steps, id)
    ensures AccountOf(c, steps, id).posts <= 9 + 3 * AccountOf(c, steps, id).lost
    decreases |steps|
  {
    OrderlyAlways(c, steps, id);
    OneOrNone(After(c, steps), AccountOf(c, steps, id), id);
    if steps != [] {
      OneNotifier(c, steps[..|steps| - 1], id);
    }
  }

  /** Nothing is owed and nobody is at work: the outbox is settled, or the record gone. */
  ghost predicate Closed(s: Sys, a: Account, id: JobId) {
    && a.due == 0 && Over(s, id) && (forall x :: !NotifierOf(s, x, id))
    && (id in s.store.jobs ==> Webhooks.Settled(DeliveryOf(s, id)))
  }

  lemma SettledIsClosed(s: Sys, a: Account, id: JobId)
    requires Orderly(s, a, id) && id in s.store.jobs && id in s.used && Webhooks.Settled(DeliveryOf(s, id))
    ensures Closed(s, a, id)
  {
  }

  /** A step from one state to the next sends nothing for the job and writes no delivery. */
  ghost predicate Silent(s: Sys, t: Sys, a: Account, b: Account, id: JobId) {
    b.posts == a.posts && (id in t.store.jobs ==> id in s.store.jobs && DeliveryOf(t, id) == DeliveryOf(s, id))
  }

  lemma LockedStaysClosed(s: Sys, t: Sys, subject: JobId, a: Account, id: JobId)
    requires Closed(s, a, id) && Acts(s, t, subject)
    ensures Closed(t, a, id) && Silent(s, t, a, a, id)
  {
    assert forall x :: NotifierOf(s, x, id) <==> NotifierOf(t, x, id);
  }

  lemma ThreadStaysClosed(c: Config, s: Sys, step: Step, a: Account, id: JobId)
    requires Ordered(c, s) && Closed(s, a, id) && Enabled(c, s, step) && IsThread(step)
    ensures var t, b := Apply(c, s, step), Track(s, a, step, id); Closed(t, b, id) && Silent(s, t, a, b, id)
  {
    var t := Apply(c, s, step);
    forall x ensures !NotifierOf(t, x, id) {
      assert !NotifierOf(s, x, id);
    }
  }

  lemma RestartStaysClosed(c: Config, s: Sys, step: Step, a: Account, id: JobId)
    requires Closed(s, a, id) && Enabled(c, s, step) && IsRestart(step)
    ensures var t, b := Apply(c, s, step), Track(s, a, step, id); Closed(t, b, id) && Silent(s, t, a, b, id)
  {
  }

  lemma WriteStaysClosed(c: Config, s: Sys, t: Sys, step: Step, a: Account, id: JobId)
    requires Ordered(c, s) && Closed(s, a, id) && step.WriteHeld? && Writes(s, t, step.thread) && InTime(s, step, id)
    ensures s.held[step.thread].copy.id != id && Closed(t, a, id) && Silent(s, t, a, a, id)
  {
    var x := step.thread;
    assert !NotifierOf(s, x, id);
    assert s.held[x].Notifying? || WritesFailure(s, step, s.held[x].copy.id);
    assert forall y :: NotifierOf(t, y, id) ==> NotifierOf(s, y, id);
  }

  lemma StaysClosed(c: Config, s: Sys, step: Step, a: Account, id: JobId)
    requires Ordered(c, s) && Closed(s, a, id) && Enabled(c, s, step) && InTime(s, step, id)
    ensures var t, b := Apply(c, s, step), Track(s, a, step, id); Closed(t, b, id) && Silent(s, t, a, b, id)
  {
    var t := Apply(c, s, step);
    if IsThread(step) {
      ThreadStaysClosed(c, s, step, a, id);
    } else if IsRestart(step) {
      RestartStaysClosed(c, s, step, a, id);
    } else if IsLocked(step) {
      LockedActs(c, s, step);
      LockedStaysClosed(s, t, Subject(s, step), a, id);
    } else if step.WriteHeld? {
      HeldWrites(c, s, step);
      WriteStaysClosed(c, s, t, step, a, id);
    } else {
      OthersStayClosed(c, s, step, a, id);
    }
  }

  lemma OthersStayClosed(c: Config, s: Sys, step: Step, a: Account, id: JobId)
    requires Closed(s, a, id) && Enabled(c, s, step) && (IsPool(step) || IsMarker(step) || IsFile(step))
    ensures var t := Apply(c, s, step); Closed(t, a, id) && Silent(s, t, a, a, id)
  {
    var t := Apply(c, s, step);
    if IsPool(step) {
      PoolLeaves(c, s, step);
    } else if IsMarker(step) {
      MarkerLeaves(c, s, step);
    } else if step.Create? {
      CreateAdds(c, s, step);
    } else {
      UnlinkRemoves(c, s, step);
    }
    assert forall x :: NotifierOf(t, x, id) ==> NotifierOf(s, x, id);
  }

  lemma SilentTwice(s: Sys, t: Sys, u: Sys, a: Account, b: Account, d: Account, id: JobId)
    requires Silent(s, t, a, b, id) && Silent(t, u, b, d, id)
    ensures Silent(s, u, a, d, id)
  {
  }

  lemma {:induction false} ClosedForGood(c: Config, before: seq<Step>, steps: seq<Step>, id: JobId)
    requires before <= steps && IsRun(c, before) && IsRun(c, steps) && AllInTime(c, steps, id)
    requires Closed(After(c, before), AccountOf(c, before, id), id)
    ensures Closed(After(c, steps), AccountOf(c, steps, id), id)
    ensures Silent(After(c, before), After(c, steps), AccountOf(c, before, id), AccountOf(c, steps, id), id)
    decreases |steps|
  {
    if before != steps {
      var last := steps[|steps| - 1];
      var on := steps[..|steps| - 1];
      ClosedForGood(c, before, on, id);
      GoodAlways(c, on);
      StaysClosed(c, After(c, on), last, AccountOf(c, on, id), id);
      SilentTwice(After(c, before), After(c, on), After(c, steps), AccountOf(c, before, id), AccountOf(c, on, id),
                  AccountOf(c, steps, id), id);
    }
  }

  lemma {:induction false} PrefixIsOwed(c: Config, before: seq<Step>, steps: seq<Step>, id: JobId)
    requires before <= steps && IsRun(c, steps) && EachIsOwed(c, steps, id) && AllInTime(c, steps, id)
    ensures IsRun(c, before) && EachIsOwed(c, before, id) && AllInTime(c, before, id)
    decreases |steps|
  {
    if before != steps {
      PrefixIsOwed(c, before, steps[..|steps| - 1], id);
    }
  }

  /** In such a run what is delivered or dead-lettered is so for good: no POST follows, and the
      record keeps that delivery for as long as it is there. */
  lemma SettledIsFinal(c: Config, before: seq<Step>, steps: seq<Step>, id: JobId)
    requires before <= steps && IsRun(c, before) && IsRun(c, steps)
    requires EachIsOwed(c, steps, id) && AllInTime(c, steps, id)
    requires id in After(c, before).store.jobs && Webhooks.Settled(DeliveryOf(After(c, before), id))
    ensures AccountOf(c, steps, id).posts == AccountOf(c, before, id).posts
    ensures id in After(c, steps).store.jobs ==> DeliveryOf(After(c, steps), id) == DeliveryOf(After(c, before), id)
  {
    PrefixIsOwed(c, before, steps, id);
    OrderlyAlways(c, before, id);
    GoodAlways(c, before);
    SettledIsClosed(After(c, before), AccountOf(c, before, id), id);
    ClosedForGood(c, before, steps, id);
  }

  // ----- A failure that erases the outbox

  /** Where a run stands that owes each announcement and has one notifier at a time. */
  ghost predicate Stands(c: Config, steps: seq<Step>, id: JobId, s: Sys, a: Account) {
    && IsRun(c, steps) && After(c, steps) == s && AccountOf(c, steps, id) == a
    && EachIsOwed(c, steps, id) && OneThroughout(c, steps, id)
  }

  lemma Goes(c: Config, steps: seq<Step>, id: JobId, s: Sys, a: Account, step: Step)
    requires Stands(c, steps, id, s, a) && Enabled(c, s, step) && IsOwed(s, a, step, id)
    requires |Notifiers(Apply(c, s, step), id)| <= 1
    ensures Stands(c, steps + [step], id, Apply(c, s, step), Track(s, a, step, id))
  {
    Extend(c, steps, step);
    assert (steps + [step])[..|steps + [step]| - 1] == steps;
  }

  /** What is there of one job, and which threads hold anything. */
  ghost predicate Shows(s: Sys, id: JobId, status: Status, delivery: Option<Webhooks.Delivery>, held: map<nat, Held>) {
    && id in s.store.jobs && s.store.jobs[id].status == status && s.store.jobs[id].delivery == delivery
    && s.store.jobs[id].id == id && s.held == held && s.maintenance == Mending
  }

  lemma NobodyNotifies(s: Sys, id: JobId)
    requires forall x :: x in s.held ==> !s.held[x].Notifying?
    ensures |Notifiers(s, id)| <= 1
  {
    assert Notifiers(s, id) == {};
  }

  lemma OneNotifies(s: Sys, id: JobId, x: nat)
    requires forall y :: y in s.held && y != x ==> !s.held[y].Notifying?
    ensures |Notifiers(s, id)| <= 1
  {
    assert Notifiers(s, id) == if NotifierOf(s, x, id) then {x} else {};
  }

  /** The maintenance pass holds a running job; its runner commits, ... */
  lemma CommitsUnderMaintenance(c: Config, steps: seq<Step>, id: JobId, s: Sys, h: Held)
    requires Stands(c, steps, id, s, Account(0, 0, 0)) && h.Interrupting?
    requires Shows(s, id, Running, None, map[MAINTENANCE := h]) && IsRunner(s, 1, Claimed) && s.runners[1].job == id
    ensures var t := Apply(c, s, Commit(1, []));
            && Stands(c, steps + [Commit(1, [])], id, t, Account(1, 0, 0))
            && Shows(t, id, Complete, None, map[MAINTENANCE := h]) && id in t.noticed
  {
    NobodyNotifies(Apply(c, s, Commit(1, [])), id);
    Goes(c, steps, id, s, Account(0, 0, 0), Commit(1, []));
  }

  /** ... a notifier reads the record and sends, ... */
  lemma NoticeGoes(c: Config, steps: seq<Step>, id: JobId, s: Sys, posts: nat, x: nat, replies: Webhooks.Replies)
    requires Stands(c, steps, id, s, Account(1, posts, 0)) && id in s.noticed && x !in s.held
    requires id in s.store.jobs && s.store.jobs[id].delivery.None? && s.maintenance == Mending
    requires s.store.jobs[id].id == id && forall y :: y in s.held ==> !s.held[y].Notifying?
    ensures var step := ReadNotice(x, id, replies);
            && Enabled(c, s, step)
            && Stands(c, steps + [step], id, Apply(c, s, step), Account(0, posts + Webhooks.PostsSent(replies), 0))
  {
    var step := ReadNotice(x, id, replies);
    OneNotifies(Apply(c, s, step), id, x);
    Goes(c, steps, id, s, Account(1, posts, 0), step);
  }

  /** ... and writes; or the pass writes its failure. */
  lemma WriteGoes(c: Config, steps: seq<Step>, id: JobId, s: Sys, a: Account, x: nat)
    requires Stands(c, steps, id, s, a) && x in s.held && !s.held[x].Submitting?
    requires forall y :: y in s.held && y != x ==> !s.held[y].Notifying?
    ensures Enabled(c, s, WriteHeld(x))
    ensures Stands(c, steps + [WriteHeld(x)], id, Apply(c, s, WriteHeld(x)), Track(s, a, WriteHeld(x), id))
  {
    NobodyNotifies(Apply(c, s, WriteHeld(x)), id);
    Goes(c, steps, id, s, a, WriteHeld(x));
  }

  lemma NoticeShows(c: Config, s: Sys, id: JobId, status: Status, held: map<nat, Held>, x: nat,
                    replies: Webhooks.Replies)
    requires Shows(s, id, status, None, held) && Enabled(c, s, ReadNotice(x, id, replies))
    ensures var t := Apply(c, s, ReadNotice(x, id, replies));
            Shows(t, id, status, None, held[x := Notifying(Announcing(s.store.jobs[id], replies))])
  {
  }

  lemma WrittenShows(c: Config, s: Sys, id: JobId, status: Status, delivery: Option<Webhooks.Delivery>,
                     held: map<nat, Held>, x: nat)
    requires Shows(s, id, status, delivery, held) && Enabled(c, s, WriteHeld(x)) && held[x].copy.id == id
    ensures var t := Apply(c, s, WriteHeld(x));
            && Shows(t, id, ToWrite(held[x]).status, held[x].copy.delivery, held - {x})
            && (held[x].Interrupting? ==> id in t.noticed)
  {
  }

  /** A notifier has sent, and goes on to write, ... */
  lemma FirstIsSent(c: Config, steps: seq<Step>, id: JobId, s: Sys, h: Held, replies: Webhooks.Replies)
    requires Stands(c, steps, id, s, Account(1, 0, 0)) && Shows(s, id, Complete, None, map[MAINTENANCE := h])
    requires id in s.noticed && h.Interrupting?
    ensures var run, copy := steps + [ReadNotice(2, id, replies)], Announcing(s.store.jobs[id], replies);
            && IsRun(c, run) && Stands(c, run, id, After(c, run), Account(0, Webhooks.PostsSent(replies), 0))
            && Shows(After(c, run), id, Complete, None, map[MAINTENANCE := h, 2 := Notifying(copy)])
  {
    NoticeGoes(c, steps, id, s, 0, 2, replies);
    NoticeShows(c, s, id, Complete, map[MAINTENANCE := h], 2, replies);
  }

  /** ... and its announcement is recorded, ... */
  lemma FirstIsRecorded(c: Config, steps: seq<Step>, id: JobId, s: Sys, h: Held, copy: Job, posts: nat)
    requires Stands(c, steps, id, s, Account(0, posts, 0)) && h.Interrupting?
    requires Shows(s, id, Complete, None, map[MAINTENANCE := h, 2 := Notifying(copy)])
    requires copy.id == id && copy.status == Complete
    ensures var run := steps + [WriteHeld(2)];
            && IsRun(c, run) && Stands(c, run, id, After(c, run), Account(0, posts, 0))
            && Shows(After(c, run), id, Complete, copy.delivery, map[MAINTENANCE := h])
  {
    WriteGoes(c, steps, id, s, Account(0, posts, 0), 2);
    WrittenShows(c, s, id, Complete, None, s.held, 2);
    assert s.held - {2} == map[MAINTENANCE := h];
  }

  /** ... the failure is written over it, ... */
  lemma FailureErases(c: Config, steps: seq<Step>, id: JobId, s: Sys, h: Held, posts: nat, delivery: Webhooks.Delivery)
    requires Stands(c, steps, id, s, Account(0, posts, 0))
    requires Shows(s, id, Complete, Some(delivery), map[MAINTENANCE := h])
    requires h.Interrupting? && h.copy.id == id && h.copy.delivery.None?
    ensures var run := steps + [WriteHeld(MAINTENANCE)];
            && IsRun(c, run) && Stands(c, run, id, After(c, run), Account(1, posts, 0))
            && Shows(After(c, run), id, Failed, None, map[]) && id in After(c, run).noticed
  {
    WriteGoes(c, steps, id, s, Account(0, posts, 0), MAINTENANCE);
    WrittenShows(c, s, id, Complete, Some(delivery), s.held, MAINTENANCE);
    assert s.held - {MAINTENANCE} == map[];
  }

  /** ... and the pass announces the job again. */
  lemma SecondIsRecorded(c: Config, steps: seq<Step>, id: JobId, s: Sys, posts: nat, replies: Webhooks.Replies)
    requires Stands(c, steps, id, s, Account(1, posts, 0)) && Shows(s, id, Failed, None, map[]) && id in s.noticed
    ensures var run := steps + [ReadNotice(MAINTENANCE, id, replies)] + [WriteHeld(MAINTENANCE)];
            && IsRun(c, run) && Stands(c, run, id, After(c, run), Account(0, posts + Webhooks.PostsSent(replies), 0))
            && Shows(After(c, run), id, Failed, Some(Webhooks.Recorded(None, Webhooks.ReceiptOf(replies))), map[])
  {
    var step := ReadNotice(MAINTENANCE, id, replies);
    NoticeGoes(c, steps, id, s, posts, MAINTENANCE, replies);
    var t := Apply(c, s, step);
    NoticeShows(c, s, id, Failed, map[], MAINTENANCE, replies);
    WriteGoes(c, steps + [step], id, t, Account(0, posts + Webhooks.PostsSent(replies), 0), MAINTENANCE);
    WrittenShows(c, t, id, Failed, None, t.held, MAINTENANCE);
    assert t.held - {MAINTENANCE} == map[];
  }

  /** A step that neither ends the job nor announces it. */
  predicate Idles(step: Step) {
    || IsPool(step) || IsMarker(step) || step.Create? || step.Claim? || step.CancelRequest? || step.Refuse?
    || step.ReadLeftover?
  }

  lemma {:induction false} IdleOwes(c: Config, steps: seq<Step>, id: JobId)
    requires IsRun(c, steps) && forall k :: 0 <= k < |steps| ==> Idles(steps[k])
    ensures AccountOf(c, steps, id) == Account(0, 0, 0) && EachIsOwed(c, steps, id) && AllInTime(c, steps, id)
    decreases |steps|
  {
    if steps != [] {
      IdleOwes(c, steps[..|steps| - 1], id);
      assert Idles(steps[|steps| - 1]);
    }
  }

  lemma IdleStands(c: Config, steps: seq<Step>, id: JobId)
    requires IsRun(c, steps) && forall k :: 0 <= k < |steps| ==> Idles(steps[k])
    ensures Stands(c, steps, id, After(c, steps), Account(0, 0, 0))
  {
    IdleOwes(c, steps, id);
    OneNotifier(c, steps, id);
  }

  lemma IdlesOn(before: seq<Step>, id: JobId)
    requires forall k :: 0 <= k < |before| ==> Idles(before[k])
    ensures var run := before + [BeginPass] + [EndSweep] + [ReadLeftover(id)];
            forall k :: 0 <= k < |run| ==> Idles(run[k])
  {
  }

  /** A run in which the maintenance pass holds a running job. */
  lemma HeldByMaintenance(c: Config, request: Request) returns (steps: seq<Step>)
    ensures IsRun(c, steps) && Stands(c, steps, "a", After(c, steps), Account(0, 0, 0))
    ensures var s := After(c, steps);
            && MAINTENANCE in s.held && s.held[MAINTENANCE].Interrupting?
            && s.held[MAINTENANCE].copy.id == "a" && s.held[MAINTENANCE].copy.delivery.None?
            && Shows(s, "a", Running, None, map[MAINTENANCE := s.held[MAINTENANCE]])
            && IsRunner(s, 1, Claimed) && s.runners[1].job == "a"
  {
    var running := RunningIsReached(c, request);
    GoodAlways(c, running);
    assert forall step :: Starts(step) ==> Idles(step);
    steps := LeftoverIsRead(c, running, "a");
    IdlesOn(running, "a");
    IdleStands(c, steps, "a");
  }

  lemma AnnouncedOnce(c: Config, request: Request, replies: Webhooks.Replies) returns (run: seq<Step>, h: Held)
    ensures IsRun(c, run) && Stands(c, run, "a", After(c, run), Account(0, Webhooks.PostsSent(replies), 0))
    ensures h.Interrupting? && h.copy.id == "a" && h.copy.delivery.None?
    ensures Shows(After(c, run), "a", Complete, Some(Webhooks.Recorded(None, Webhooks.ReceiptOf(replies))),
                  map[MAINTENANCE := h])
  {
    var steps := HeldByMaintenance(c, request);
    h := After(c, steps).held[MAINTENANCE];
    CommitsUnderMaintenance(c, steps, "a", After(c, steps), h);
    var committed := steps + [Commit(1, [])];
    FirstIsSent(c, committed, "a", After(c, committed), h, replies);
    var sent := committed + [ReadNotice(2, "a", replies)];
    var copy := Announcing(After(c, committed).store.jobs["a"], replies);
    FirstIsRecorded(c, sent, "a", After(c, sent), h, copy, Webhooks.PostsSent(replies));
    run := sent + [WriteHeld(2)];
  }

  lemma AnnouncedTwice(c: Config, steps: seq<Step>, h: Held, posts: nat, delivery: Webhooks.Delivery,
                       replies: Webhooks.Replies) returns (run: seq<Step>)
    requires IsRun(c, steps) && Stands(c, steps, "a", After(c, steps), Account(0, posts, 0))
    requires h.Interrupting? && h.copy.id == "a" && h.copy.delivery.None?
    requires Shows(After(c, steps), "a", Complete, Some(delivery), map[MAINTENANCE := h])
    ensures steps <= run && IsRun(c, run)
    ensures Stands(c, run, "a", After(c, run), Account(0, posts + Webhooks.PostsSent(replies), 0))
    ensures Shows(After(c, run), "a", Failed, Some(Webhooks.Recorded(None, Webhooks.ReceiptOf(replies))), map[])
  {
    FailureErases(c, steps, "a", After(c, steps), h, posts, delivery);
    var erased := steps + [WriteHeld(MAINTENANCE)];
    SecondIsRecorded(c, erased, "a", After(c, erased), posts, replies);
    run := erased + [ReadNotice(MAINTENANCE, "a", replies)] + [WriteHeld(MAINTENANCE)];
  }

  /** Whatever the replies, one and the same job is announced twice over, and the record keeps
      one announcement of the two: its runner commits while the maintenance pass holds it, and
      the pass writes its failure over the announcement.  One notifier is at work at a time,
      each announcement is owed, and no notifier goes without recording. */
  lemma ErasedIsAnnouncedAgain(c: Config, request: Request, replies: Webhooks.Replies)
    returns (before: seq<Step>, after: seq<Step>)
    ensures before <= after && IsRun(c, before) && IsRun(c, after)
    ensures EachIsOwed(c, after, "a") && OneThroughout(c, after, "a")
    ensures var sent, recorded := Webhooks.PostsSent(replies), Webhooks.Recorded(None, Webhooks.ReceiptOf(replies));
            && AccountOf(c, before, "a") == Account(0, sent, 0)
            && Shows(After(c, before), "a", Complete, Some(recorded), After(c, before).held)
            && AccountOf(c, after, "a") == Account(0, 2 * sent, 0)
            && Shows(After(c, after), "a", Failed, Some(recorded), map[])
  {
    var run, h := AnnouncedOnce(c, request, replies);
    before := run;
    after := AnnouncedTwice(c, before, h, Webhooks.PostsSent(replies),
                            Webhooks.Recorded(None, Webhooks.ReceiptOf(replies)), replies);
  }
}
