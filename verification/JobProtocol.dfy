/**
 The scan service as a protocol: HTTP handlers, workers, runners that outlive their
 timeout, notifiers and the maintenance pass, all acting on one store.

 A method that holds the store's lock is one step.  A read followed by an unlocked write
 is two, with the copy that was read held in between.  A step is a value, so that a run is
 a sequence of steps and every interleaving is a run.
 */
module JobProtocol {
  import opened Options
  import opened Jobs
  import Webhooks

  /** A thread between its read and its unlocked write: a handler with a new job it has not
      offered to the queue, or that the queue turned away; the maintenance pass with a job
      it found unfinished; a notifier with a job to announce. */
  datatype Held = Submitting(copy: Job) | Refusing(copy: Job) | Interrupting(copy: Job) | Notifying(copy: Job)

  datatype Phase = Launched | Claimed | Ended

  /** The thread that scans one job; it goes on when its worker stops waiting for it. */
  datatype Runner = Runner(job: JobId, phase: Phase)

  datatype Config_ = Config(maxWorkers: nat, maxQueue: nat, retention: nat)

  /** The limits that the service's configuration is kept within; ages are in seconds. */
  type Config = c: Config_ | 1 <= c.maxWorkers <= 16 && 1 <= c.maxQueue <= 1024 && 3600 <= c.retention <= 90 * 24 * 3600
    witness Config(2, 32, 7 * 24 * 3600)

  /** The one maintenance thread: between passes; removing what has expired since the pass
      began; or failing leftovers and announcing, with all removals behind it. */
  datatype Maintenance = Resting | Sweeping(since: nat) | Mending

  datatype Sys = Sys(
    store: Store,
    queue: seq<JobId>,
    waiting: map<nat, nat>,      // which runner a busy worker waits for
    runners: map<nat, Runner>,
    held: map<nat, Held>,
    maintenance: Maintenance,
    clock: nat,
    noticed: set<JobId>,         // jobs some thread has gone on to announce
    swept: set<JobId>,           // jobs whose report retention has removed
    used: set<JobId>,            // identifiers ever given out
    claims: multiset<JobId>)     // every successful claim ever made

  /** The thread that sweeps and mends; any other number is a handler, worker or runner. */
  const MAINTENANCE: nat := 0

  datatype Step =
    | Wait(until: nat)
    | Create(thread: nat, listing: seq<JobId>, id: JobId, request: Request, key: string)
    | Enqueue(thread: nat)
    | Refuse(thread: nat)
    | CancelRequest(id: JobId)
    | Dequeue(worker: nat, runner: nat)
    | Claim(runner: nat)
    | Commit(runner: nat, report: Bytes)
    | Fail(runner: nat, error: string)
    | Return(worker: nat)
    | Timeout(worker: nat)
    | BeginPass
    | UnlinkJob(id: JobId)
    | UnlinkReport(id: JobId)
    | EndSweep
    | ReadLeftover(id: JobId)
    | EndPass
    | ReadNotice(thread: nat, id: JobId, replies: Webhooks.Replies)
    | WriteHeld(thread: nat)
    | Drop(thread: nat)
    | Restart(jobs: set<JobId>, reports: set<JobId>)
    | CrashInCommit(runner: nat, report: Bytes, jobs: set<JobId>, reports: set<JobId>)

  const INITIAL: Sys := Sys(Store(map[], map[]), [], map[], map[], map[], Resting, 0, {}, {}, {}, multiset{})

  predicate IsRunner(s: Sys, r: nat, phase: Phase) {
    r in s.runners && s.runners[r].phase == phase
  }

  /** A record that was last written longer ago than retention keeps one. */
  predicate Expired(c: Config, store: Store, id: JobId, now: nat) {
    id in store.jobs && store.jobs[id].updatedAt + c.retention < now
  }

  ghost predicate Enabled(c: Config, s: Sys, step: Step) {
    match step
    case Wait(until) => s.clock <= until
    case Create(t, listing, id, _, _) =>
      t != MAINTENANCE && t !in s.held && id !in s.used && Lists(listing, s.store)
    case Enqueue(t) => t in s.held && s.held[t].Submitting? && |s.queue| < c.maxQueue
    case Refuse(t) => t in s.held && s.held[t].Submitting? && |s.queue| >= c.maxQueue
    case CancelRequest(_) => true
    case Dequeue(w, r) => w < c.maxWorkers && w !in s.waiting && s.queue != [] && r !in s.runners
    case Claim(r) => IsRunner(s, r, Launched)
    case Commit(r, _) => IsRunner(s, r, Claimed)
    case Fail(r, _) => IsRunner(s, r, Claimed)
    case Return(w) => w in s.waiting && IsRunner(s, s.waiting[w], Ended)
    case Timeout(w) => w in s.waiting && s.waiting[w] in s.runners
    case BeginPass => s.maintenance.Resting?
    case UnlinkJob(id) => s.maintenance.Sweeping? && Expired(c, s.store, id, s.maintenance.since)
    case UnlinkReport(id) => s.maintenance.Sweeping? && id in s.store.reports
    case EndSweep => s.maintenance.Sweeping?
    case ReadLeftover(id) => s.maintenance.Mending? && MAINTENANCE !in s.held && Has(s.store, id, {Queued, Running})
    case EndPass => s.maintenance.Mending? && MAINTENANCE !in s.held
    case ReadNotice(t, id, _) =>
      && t !in s.held && id in s.store.jobs && !Webhooks.Settled(s.store.jobs[id].delivery)
      && if t == MAINTENANCE then s.maintenance.Mending? && (id in s.noticed || NeedsRetry(s.store.jobs[id]))
         else id in s.noticed
    case WriteHeld(t) => t in s.held && !s.held[t].Submitting?
    case Drop(t) => t in s.held && s.held[t].Notifying?
    case Restart(jobs, reports) => CanExpire(c, s, jobs, reports)
    case CrashInCommit(r, _, jobs, reports) =>
      IsRunner(s, r, Claimed) && Has(s.store, s.runners[r].job, {Running}) && CanExpire(c, s, jobs, reports)
  }

  /** What the startup pass may remove. */
  ghost predicate CanExpire(c: Config, s: Sys, jobs: set<JobId>, reports: set<JobId>) {
    (forall id :: id in jobs ==> Expired(c, s.store, id, s.clock)) && reports <= s.store.reports.Keys
  }

  /** What an unlocked write puts on disk. */
  function ToWrite(h: Held): Job {
    match h
    case Submitting(copy) => copy
    case Refusing(copy) => Rejected(copy)
    case Interrupting(copy) => Jobs.Interrupted(copy)
    case Notifying(copy) => copy
  }

  /** The copy of a notifier that has sent, with the delivery it is about to record. */
  function Announcing(job: Job, replies: Webhooks.Replies): Job {
    job.(delivery := Some(Webhooks.Recorded(job.delivery, Webhooks.ReceiptOf(replies))))
  }

  function Settled(job: Job, now: nat): Job {
    if IsTerminal(job.status) then job else Jobs.Interrupted(job).(updatedAt := now)
  }

  /** A restart: no thread survives, and the startup pass removes what has expired and fails
      what was unfinished. */
  ghost function Restarted(s: Sys, store: Store, jobs: set<JobId>, reports: set<JobId>): Sys {
    Sys(Store(map id | id in store.jobs && id !in jobs :: Settled(store.jobs[id], s.clock), store.reports - reports),
        [], map[], map[], map[], Resting, s.clock,
        s.noticed + (set id | id in store.jobs && id !in jobs && !IsTerminal(store.jobs[id].status)),
        s.swept + reports, s.used, s.claims)
  }

  ghost function Apply(c: Config, s: Sys, step: Step): Sys
    requires Enabled(c, s, step)
  {
    match step
    case Wait(until) =>
      s.(clock := until)
    case Create(t, listing, id, request, key) =>
      var (store, r) := Reserve(s.store, listing, id, request, key, s.clock);
      if r.Created? then s.(store := store, held := s.held[t := Submitting(r.job)], used := s.used + {id}) else s
    case Enqueue(t) =>
      s.(queue := s.queue + [s.held[t].copy.id], held := s.held - {t})
    case Refuse(t) =>
      s.(held := s.held[t := Refusing(s.held[t].copy)])
    case CancelRequest(id) =>
      s.(store := CancelJob(s.store, id, s.clock).0)
    case Dequeue(w, r) =>
      s.(queue := s.queue[1..], waiting := s.waiting[w := r], runners := s.runners[r := Runner(s.queue[0], Launched)])
    case Claim(r) =>
      var id := s.runners[r].job;
      var (store, ok) := StartJob(s.store, id, s.clock);
      s.(store := store, runners := s.runners[r := Runner(id, if ok then Claimed else Ended)],
      claims := if ok then s.claims + multiset{id} else s.claims)
    case Commit(r, report) =>
      var id := s.runners[r].job;
      var (store, ok) := CompleteJob(s.store, id, report, s.clock);
      s.(store := store, runners := s.runners[r := Runner(id, Ended)],
      noticed := if ok then s.noticed + {id} else s.noticed, swept := if ok then s.swept - {id} else s.swept)
    case Fail(r, error) =>
      var id := s.runners[r].job;
      var (store, ok) := FailJob(s.store, id, error, "failed", s.clock);
      s.(store := store, runners := s.runners[r := Runner(id, Ended)],
      noticed := if ok then s.noticed + {id} else s.noticed)
    case Return(w) =>
      s.(waiting := s.waiting - {w})
    case Timeout(w) =>
      var id := s.runners[s.waiting[w]].job;
      var (store, ok) := FailJob(s.store, id, "Scan exceeded the job timeout and was abandoned.", "timeout", s.clock);
      s.(store := store, waiting := s.waiting - {w}, noticed := if ok then s.noticed + {id} else s.noticed)
    case BeginPass =>
      s.(maintenance := Sweeping(s.clock))
    case UnlinkJob(id) =>
      s.(store := s.store.(jobs := s.store.jobs - {id}))
    case UnlinkReport(id) =>
      s.(store := s.store.(reports := s.store.reports - {id}), swept := s.swept + {id})
    case EndSweep =>
      s.(maintenance := Mending)
    case ReadLeftover(id) =>
      s.(held := s.held[MAINTENANCE := Interrupting(s.store.jobs[id])])
    case EndPass =>
      s.(maintenance := Resting)
    case ReadNotice(t, id, replies) =>
      s.(held := s.held[t := Notifying(Announcing(s.store.jobs[id], replies))])
    case WriteHeld(t) =>
      var job := ToWrite(s.held[t]);
      s.(store := Put(s.store, job, s.clock), held := s.held - {t},
      noticed := if s.held[t].Interrupting? then s.noticed + {job.id} else s.noticed)
    case Drop(t) =>
      s.(held := s.held - {t})
    case Restart(jobs, reports) =>
      Restarted(s, s.store, jobs, reports)
    case CrashInCommit(r, report, jobs, reports) =>
      Restarted(s, Half(s, r, report), jobs, reports)
  }

  /** The store between the two writes of a commit: the report is there, the record is not. */
  function Half(s: Sys, r: nat, report: Bytes): Store
    requires r in s.runners
  {
    s.store.(reports := s.store.reports[s.runners[r].job := report])
  }

  // ----- Runs

  /** Every step of the run can be taken where it stands. */
  ghost predicate IsRun(c: Config, steps: seq<Step>)
    decreases |steps|, 0
  {
    steps == [] || (IsRun(c, steps[..|steps| - 1]) && Enabled(c, After(c, steps[..|steps| - 1]), steps[|steps| - 1]))
  }

  ghost function After(c: Config, steps: seq<Step>): Sys
    requires IsRun(c, steps)
    decreases |steps|, 1
  {
    if steps == [] then INITIAL else Apply(c, After(c, steps[..|steps| - 1]), steps[|steps| - 1])
  }

  // ----- What every reachable state keeps

  ghost predicate Live(s: Sys, id: JobId) {
    Has(s.store, id, {Queued, Running})
  }

  ghost predicate Over(s: Sys, id: JobId) {
    id in s.used && !Live(s, id)
  }

  /** A worker is waiting for the runner that claimed the job. */
  ghost predicate Watched(s: Sys, id: JobId) {
    exists w :: w in s.waiting && s.waiting[w] in s.runners && s.runners[s.waiting[w]] == Runner(id, Claimed)
  }

  ghost predicate Attended(s: Sys, r: nat) {
    exists w :: w in s.waiting && s.waiting[w] == r
  }

  /** Identifiers and records are in order. */
  ghost predicate Ordered(c: Config, s: Sys) {
    && (forall id :: id in s.store.jobs ==> id in s.used && s.store.jobs[id].id == id)
    && (forall id :: id in s.queue ==> id in s.used)
    && (forall r :: r in s.runners ==> s.runners[r].job in s.used)
    && (forall t :: t in s.held ==> s.held[t].copy.id in s.used)
    && (forall id :: id in s.noticed ==> id in s.used)
    && (forall w :: w in s.waiting ==> w < c.maxWorkers && s.waiting[w] in s.runners)
  }

  /** Every running job is one a worker waits on; a runner nobody waits for has lost its
      job, or has ended. */
  ghost predicate Supervised(s: Sys) {
    && (forall id :: Has(s.store, id, {Running}) ==> Watched(s, id))
    && (forall r :: r in s.runners && s.runners[r].phase != Ended && !Attended(s, r) ==> !Live(s, s.runners[r].job))
  }

  /** A job is announced, and held to be announced, only when it is over. */
  ghost predicate Announced(s: Sys) {
    && (forall id :: id in s.noticed ==> !Live(s, id) && !Has(s.store, id, {Cancelled}))
    && (forall t :: t in s.held && s.held[t].Notifying? ==>
                      !Live(s, s.held[t].copy.id) && s.held[t].copy.status !in {Queued, Running, Cancelled})
  }

  /** A job is claimed once, and not before it leaves the queue for good. */
  ghost predicate ClaimedOnce(s: Sys) {
    forall id :: id in s.claims ==> s.claims[id] == 1 && id in s.used && !Has(s.store, id, {Queued})
  }

  /** A complete record has its report, under the digest it carries, unless retention has
      removed the report. */
  ghost predicate Evidence(s: Sys, job: Job) {
    job.status == Complete ==>
      && (job.id !in s.swept ==> job.id in s.store.reports)
      && (job.id in s.store.reports ==> job.reportSha256 == Some(Sha256(s.store.reports[job.id])))
  }

  ghost predicate Evident(s: Sys) {
    && (forall id :: id in s.store.jobs ==> Evidence(s, s.store.jobs[id]))
    && (forall t :: t in s.held && s.held[t].Notifying? ==> Evidence(s, s.held[t].copy))
  }

  /** Records of one identifier are of one request. */
  predicate SameRequest(a: Job, b: Job) {
    a.id == b.id ==> a.request == b.request && a.idempotencyKey == b.idempotencyKey && a.createdAt == b.createdAt
  }

  /** Who a job is never changes, on disk or in a thread's hands. */
  ghost predicate Identified(s: Sys) {
    && (forall id, t :: id in s.store.jobs && t in s.held ==> SameRequest(s.store.jobs[id], s.held[t].copy))
    && (forall t, u :: t in s.held && u in s.held ==> SameRequest(s.held[t].copy, s.held[u].copy))
  }

  /** The maintenance thread holds a record only once its removals are behind it, and
      nobody else holds a leftover. */
  ghost predicate Tidy(s: Sys) {
    && (forall t :: t in s.held && s.held[t].Interrupting? ==> t == MAINTENANCE)
    && (MAINTENANCE in s.held ==> s.maintenance.Mending?)
    && (s.maintenance.Sweeping? ==> s.maintenance.since <= s.clock)
  }

  ghost predicate Good(c: Config, s: Sys) {
    && Ordered(c, s) && Supervised(s) && Announced(s) && ClaimedOnce(s) && Evident(s) && Identified(s)
    && Tidy(s)
  }

  /** Retention does not remove a record some thread is about to write. */
  ghost predicate Patient(s: Sys, step: Step) {
    step.UnlinkJob? ==> forall t :: t in s.held ==> s.held[t].copy.id != step.id
  }
}
