/**
 The store of scan jobs.  Each method that holds the store's lock is one atomic step; it
 is specified by a function on the store's value, which the protocol model runs.

 A record that cannot be read counts as absent, as the store itself treats it.  SHA-256 is
 taken to be injective, and a request fingerprint to identify its request.
 */
module Jobs {
  import opened Options
  import Webhooks

  type JobId = string
  type Bytes = seq<bv8>

  /** An injective digest. */
  datatype Digest = Sha256(preimage: Bytes)

  datatype Status = Queued | Running | Complete | Failed | Cancelled

  /** What a client asks for; the fingerprint of a request is the request itself. */
  datatype Request = Request(extensionId: string, version: Option<string>, targetPlatform: Option<string>)

  datatype Job = Job(
    id: JobId,
    status: Status,
    stage: string,
    request: Request,
    createdAt: nat,
    updatedAt: nat,
    error: string,
    reportSha256: Option<Digest>,
    idempotencyKey: string,
    delivery: Option<Webhooks.Delivery>)

  datatype Store = Store(jobs: map<JobId, Job>, reports: map<JobId, Bytes>)

  predicate IsTerminal(status: Status) {
    status != Queued && status != Running
  }

  predicate Has(s: Store, id: JobId, statuses: set<Status>) {
    id in s.jobs && s.jobs[id].status in statuses
  }

  // ----- The locked steps

  function NewJob(id: JobId, request: Request, key: string, now: nat): Job {
    Job(id, Queued, "", request, now, now, "", None, key, None)
  }

  /** The first record in directory order that holds a key; no key matches nothing. */
  function HolderOf(s: Store, listing: seq<JobId>, key: string): Option<Job>
    requires forall id :: id in listing ==> id in s.jobs
  {
    if listing == [] || key == "" then None
    else if s.jobs[listing[0]].idempotencyKey == key then Some(s.jobs[listing[0]])
    else HolderOf(s, listing[1..], key)
  }

  datatype Reservation = Created(job: Job) | Replayed(job: Job) | Conflict(job: Job)

  function Reserve(s: Store, listing: seq<JobId>, id: JobId, request: Request, key: string, now: nat)
    : (Store, Reservation)
    requires forall id :: id in listing ==> id in s.jobs
  {
    var holder := HolderOf(s, listing, key);
    if holder.None? then
      (s.(jobs := s.jobs[id := NewJob(id, request, key, now)]), Created(NewJob(id, request, key, now)))
    else if holder.value.request == request then (s, Replayed(holder.value))
    else (s, Conflict(holder.value))
  }

  function Put(s: Store, job: Job, now: nat): Store {
    s.(jobs := s.jobs[job.id := job.(updatedAt := now)])
  }

  function StartJob(s: Store, id: JobId, now: nat): (Store, bool) {
    if Has(s, id, {Queued})
    then
      var started := s.jobs[id].(status := Running, stage := "downloading", updatedAt := now);
      (s.(jobs := s.jobs[id := started]), true)
    else (s, false)
  }

  function CancelJob(s: Store, id: JobId, now: nat): (Store, bool) {
    if Has(s, id, {Queued, Running})
    then
      var cancelled := s.jobs[id].(status := Cancelled, stage := "cancelled",
                       error := "Cancelled by an authorized client.", updatedAt := now);
      (s.(jobs := s.jobs[id := cancelled]), true)
    else (s, false)
  }

  function CompleteJob(s: Store, id: JobId, report: Bytes, now: nat): (Store, bool) {
    if Has(s, id, {Running})
    then (Store(s.jobs[id := s.jobs[id].(status := Complete, stage := "complete",
          reportSha256 := Some(Sha256(report)), updatedAt := now)],
          s.reports[id := report]), true)
    else (s, false)
  }

  function FailJob(s: Store, id: JobId, error: string, stage: string, now: nat): (Store, bool) {
    if Has(s, id, {Queued, Running})
    then
      var failed := s.jobs[id].(status := Failed, stage := stage, error := error, updatedAt := now);
      (s.(jobs := s.jobs[id := failed]), true)
    else (s, false)
  }

  /** The record the maintenance pass writes for a job it found queued or running. */
  function Interrupted(job: Job): Job {
    job.(status := Failed, stage := "interrupted", error := "Service restarted while the job was in progress.")
  }

  /** The record the service writes for a job the full queue turned away. */
  function Rejected(job: Job): Job {
    job.(status := Failed, stage := "rejected", error := "Scanner is at capacity; retry later.")
  }

  // ----- What the steps do to a job's life

  /** The moves a job's status may make. */
  predicate Moves(before: Status, after: Status) {
    || before == after
    || (before == Queued && after in {Running, Failed, Cancelled})
    || (before == Running && after in {Complete, Failed, Cancelled})
  }

  /** A step that leaves every other job alone, keeps who the job is, and moves its status
      the way a job's life goes. */
  ghost predicate StepsOne(s: Store, t: Store, id: JobId) {
    && t.jobs.Keys == s.jobs.Keys
    && (forall j :: j in s.jobs && j != id ==> t.jobs[j] == s.jobs[j])
    && (forall j :: j != id ==>
                      (j in t.reports <==> j in s.reports) && (j in s.reports ==> t.reports[j] == s.reports[j]))
    && (id in s.jobs ==>
          var a, b := s.jobs[id], t.jobs[id];
          && Moves(a.status, b.status)
          && b == a.(status := b.status, stage := b.stage, error := b.error,
                  reportSha256 := b.reportSha256, updatedAt := b.updatedAt))
  }

  lemma StartAndCancelMoveOn(s: Store, id: JobId, now: nat)
    ensures StepsOne(s, StartJob(s, id, now).0, id)
    ensures StepsOne(s, CancelJob(s, id, now).0, id)
  {
  }

  lemma EndingsMoveOn(s: Store, id: JobId, report: Bytes, error: string, stage: string, now: nat)
    ensures StepsOne(s, CompleteJob(s, id, report, now).0, id)
    ensures StepsOne(s, FailJob(s, id, error, stage, now).0, id)
  {
  }

  /** Each step succeeds exactly on the statuses it may leave, and then ends in its own;
      a step that does not succeed changes nothing, not even the report. */
  lemma LockedStepsDecide(s: Store, id: JobId, report: Bytes, error: string, stage: string, now: nat)
    ensures var (t, ok) := StartJob(s, id, now);
            && (ok <==> Has(s, id, {Queued}))
            && if ok then
                 && Has(t, id, {Running}) && t.reports == s.reports
                 && t.jobs[id].stage == "downloading" && t.jobs[id].updatedAt == now
                 && t.jobs[id].error == s.jobs[id].error && t.jobs[id].reportSha256 == s.jobs[id].reportSha256
               else t == s
    ensures var (t, ok) := CancelJob(s, id, now);
            && (ok <==> Has(s, id, {Queued, Running}))
            && if ok then
                 && Has(t, id, {Cancelled}) && t.reports == s.reports
                 && t.jobs[id].stage == "cancelled" && t.jobs[id].error == "Cancelled by an authorized client."
                 && t.jobs[id].updatedAt == now && t.jobs[id].reportSha256 == s.jobs[id].reportSha256
               else t == s
    ensures var (t, ok) := FailJob(s, id, error, stage, now);
            && (ok <==> Has(s, id, {Queued, Running}))
            && if ok then
                 && Has(t, id, {Failed}) && t.reports == s.reports
                 && t.jobs[id].error == error && t.jobs[id].stage == stage && t.jobs[id].updatedAt == now
                 && t.jobs[id].reportSha256 == s.jobs[id].reportSha256
               else t == s
    ensures var (t, ok) := CompleteJob(s, id, report, now);
            && (ok <==> Has(s, id, {Running}))
            && if ok then
                 && Has(t, id, {Complete}) && t.reports == s.reports[id := report]
                 && t.jobs[id].reportSha256 == Some(Sha256(t.reports[id]))
                 && t.jobs[id].stage == "complete" && t.jobs[id].updatedAt == now
                 && t.jobs[id].error == s.jobs[id].error
               else t == s
  {
  }

  /** A use of one of the locked methods. */
  datatype Locked =
    | Start(id: JobId, now: nat)
    | CancelIt(id: JobId, now: nat)
    | Finish(id: JobId, report: Bytes, now: nat)
    | Abort(id: JobId, error: string, stage: string, now: nat)

  function Use(s: Store, l: Locked): Store {
    match l
    case Start(id, now) => StartJob(s, id, now).0
    case CancelIt(id, now) => CancelJob(s, id, now).0
    case Finish(id, report, now) => CompleteJob(s, id, report, now).0
    case Abort(id, error, stage, now) => FailJob(s, id, error, stage, now).0
  }

  function UseAll(s: Store, ls: seq<Locked>): Store
    decreases |ls|
  {
    if ls == [] then s else UseAll(Use(s, ls[0]), ls[1..])
  }

  /** What becomes of a job: one that has ended stays as it is, report and all; any other
      keeps who it is, never goes back, and has its report when it comes to be complete. */
  ghost predicate LivesOn(s: Store, t: Store, id: JobId)
    requires id in s.jobs && id in t.jobs
  {
    var a, b := s.jobs[id], t.jobs[id];
    if IsTerminal(a.status) then
      b == a && (id in t.reports <==> id in s.reports) && (id in s.reports ==> t.reports[id] == s.reports[id])
    else
      && b.id == a.id && b.request == a.request && b.createdAt == a.createdAt && b.idempotencyKey == a.idempotencyKey
      && b.delivery == a.delivery && (a.status == Running ==> b.status != Queued)
      && (b.status == Complete ==> id in t.reports && b.reportSha256 == Some(Sha256(t.reports[id])))
  }

  lemma UseLivesOn(s: Store, l: Locked, id: JobId)
    requires id in s.jobs
    ensures Use(s, l).jobs.Keys == s.jobs.Keys && LivesOn(s, Use(s, l), id)
  {
  }

  lemma LivesOnTwice(s: Store, t: Store, u: Store, id: JobId)
    requires id in s.jobs && id in t.jobs && id in u.jobs && LivesOn(s, t, id) && LivesOn(t, u, id)
    ensures LivesOn(s, u, id)
  {
  }

  /** Whoever uses the locked methods, and however often, every job lives on in that way. */
  lemma {:induction false} LockedUsesLiveOn(s: Store, ls: seq<Locked>, id: JobId)
    requires id in s.jobs
    ensures UseAll(s, ls).jobs.Keys == s.jobs.Keys && LivesOn(s, UseAll(s, ls), id)
    decreases |ls|
  {
    if ls != [] {
      var t := Use(s, ls[0]);
      UseLivesOn(s, ls[0], id);
      LockedUsesLiveOn(t, ls[1..], id);
      LivesOnTwice(s, t, UseAll(s, ls), id);
    }
  }

  // ----- Idempotent requests

  /** At most one retained job per idempotency key. */
  ghost predicate KeysUnique(s: Store) {
    forall j, k :: j in s.jobs && k in s.jobs && s.jobs[j].idempotencyKey == s.jobs[k].idempotencyKey != "" ==> j == k
  }

  ghost predicate Lists(listing: seq<JobId>, s: Store) {
    forall id :: id in listing <==> id in s.jobs
  }

  lemma {:induction false} HolderFound(s: Store, listing: seq<JobId>, key: string)
    requires forall id :: id in listing ==> id in s.jobs
    ensures match HolderOf(s, listing, key)
            case Some(job) =>
              && job.idempotencyKey == key != ""
              && exists k :: 0 <= k < |listing| && s.jobs[listing[k]] == job
                             && forall i :: 0 <= i < k ==> s.jobs[listing[i]].idempotencyKey != key
            case None => key == "" || forall id :: id in listing ==> s.jobs[id].idempotencyKey != key
  {
    if listing != [] && key != "" {
      assert listing == [listing[0]] + listing[1..];
      HolderFound(s, listing[1..], key);
      assert listing[0] in listing;
    }
  }

  /** A replay returns the original job, whatever order the directory is read in; a key
      bound to another request is a conflict; neither changes anything; and a new job
      leaves each key with one job. */
  lemma ReserveIdempotent(s: Store, listing: seq<JobId>, id: JobId, request: Request, key: string, now: nat)
    requires KeysUnique(s) && Lists(listing, s) && id !in s.jobs
    ensures var (t, r) := Reserve(s, listing, id, request, key, now);
            && KeysUnique(t)
            && (r.Created? <==> key == "" || forall j :: j in s.jobs ==> s.jobs[j].idempotencyKey != key)
            && (r.Created? ==>
                  && t.jobs.Keys == s.jobs.Keys + {id} && t.jobs[id] == r.job
                  && forall j :: j in s.jobs ==> t.jobs[j] == s.jobs[j])
            && (r.Created? ==>
                  && r.job.id == id && r.job.status == Queued && r.job.request == request && r.job.idempotencyKey == key
                  && r.job.createdAt == r.job.updatedAt == now
                  && r.job.delivery.None? && r.job.reportSha256.None? && r.job.error == "" && r.job.stage == "")
            && (!r.Created? ==>
                  t == s && forall j :: j in s.jobs && s.jobs[j].idempotencyKey == key ==> s.jobs[j] == r.job)
            && (r.Replayed? ==> r.job.request == request)
            && (r.Conflict? ==> r.job.request != request)
            && t.reports == s.reports
  {
    HolderFound(s, listing, key);
  }

  /** The same request sent twice under one key gets the same job, and no second one. */
  lemma RetryGetsOriginal(s: Store, listing: seq<JobId>, id: JobId, request: Request, key: string, now: nat,
                          listing': seq<JobId>, id': JobId, later: nat)
    requires KeysUnique(s) && Lists(listing, s) && id !in s.jobs && key != ""
    requires var (t, r) := Reserve(s, listing, id, request, key, now);
             r.Created? && Lists(listing', t) && id' !in t.jobs
    ensures var (t, r) := Reserve(s, listing, id, request, key, now);
            Reserve(t, listing', id', request, key, later) == (t, Replayed(r.job))
  {
    ReserveIdempotent(s, listing, id, request, key, now);
    var (t, r) := Reserve(s, listing, id, request, key, now);
    ReserveIdempotent(t, listing', id', request, key, later);
  }

  /** A write keeps one job per key exactly when no other record has its key. */
  lemma PutKeepsKeys(s: Store, job: Job, now: nat)
    requires KeysUnique(s)
    ensures KeysUnique(Put(s, job, now)) <==>
            || job.idempotencyKey == ""
            || forall id :: id in s.jobs && id != job.id ==> s.jobs[id].idempotencyKey != job.idempotencyKey
  {
    var t := Put(s, job, now);
    if id :| id in s.jobs && id != job.id && s.jobs[id].idempotencyKey == job.idempotencyKey {
      assert t.jobs[id].idempotencyKey == t.jobs[job.id].idempotencyKey;
    }
  }

  // ----- Notification and maintenance

  /** What an announcement leaves of a record: all but its delivery, which counts the attempts
      made before and those made now, and tells how they ended. */
  ghost predicate IsAnnounced(job: Job, after: Job, replies: Webhooks.Replies, now: nat) {
    && after == job.(delivery := after.delivery, updatedAt := now) && after.delivery.Some?
    && var before := match job.delivery case None => 0 case Some(d) => d.totalAttempts;
    var d := after.delivery.value;
    && d.totalAttempts == before + d.attempts >= before + Webhooks.PostsSent(replies)
    && (d.status.Delivered? <==> exists i :: 0 <= i < 3 && Webhooks.AcceptedAt(replies, i))
    && (d.status.Delivered? ==> 0 < d.attempts <= 3 && Webhooks.AcceptedAt(replies, d.attempts - 1))
    && (!d.status.Delivered? ==> d.attempts == 3 && (d.status.DeadLettered? <==> d.totalAttempts >= 9))
  }

  /** An outbox that is delivered or dead-lettered. */
  ghost predicate IsFinal(job: Job) {
    job.delivery.Some? && (job.delivery.value.status.Delivered? || job.delivery.value.status.DeadLettered?)
  }

  /** Without a configured webhook, and once the outbox is final, an announcement does nothing. */
  ghost predicate IsNotified(job: Job, after: Job, configured: bool, replies: Webhooks.Replies, now: nat) {
    if !configured || IsFinal(job) then after == job else IsAnnounced(job, after, replies, now)
  }

  /** A record left over by another process is failed, and announced. */
  ghost predicate IsCleaned(job: Job, after: Job, configured: bool, replies: Webhooks.Replies, now: nat) {
    if job.status == Queued || job.status == Running then
      var failed := job.(status := Failed, stage := "interrupted",
                    error := "Service restarted while the job was in progress.", updatedAt := now);
      IsNotified(failed, after, configured, replies, now)
    else after == job
  }

  /** A complete or failed job whose delivery failed. */
  ghost predicate HasFailedOutbox(job: Job) {
    (job.status == Complete || job.status == Failed) && job.delivery.Some? && job.delivery.value.status.Failed?
  }

  /** A failed delivery is given up at nine attempts, and announced again before. */
  ghost predicate IsRetriedOnce(job: Job, after: Job, configured: bool, replies: Webhooks.Replies, now: nat) {
    if !HasFailedOutbox(job) then after == job
    else
      var d := job.delivery.value;
      if d.totalAttempts >= 9 then
        after == job.(delivery := Some(Webhooks.Delivery(Webhooks.DeadLettered, d.attempts, d.totalAttempts)),
        updatedAt := now)
      else IsNotified(job, after, configured, replies, now)
  }

  /** The record after a notification; without a configured webhook nothing is written. */
  function Notified(job: Job, configured: bool, replies: Webhooks.Replies, now: nat): Job {
    if Webhooks.Settled(job.delivery) || !configured then job
    else job.(delivery := Some(Webhooks.Recorded(job.delivery, Webhooks.ReceiptOf(replies))), updatedAt := now)
  }

  /** The record after the startup pass: a job left over by another process is failed, and
      that is announced. */
  function Cleaned(job: Job, configured: bool, replies: Webhooks.Replies, now: nat): Job {
    if IsTerminal(job.status) then job
    else Notified(Interrupted(job).(updatedAt := now), configured, replies, now)
  }

  /** The record after the retry pass over failed deliveries. */
  function Retried(job: Job, configured: bool, replies: Webhooks.Replies, now: nat): Job {
    if !NeedsRetry(job) then job
    else if Webhooks.Attempts(job.delivery) >= Webhooks.WEBHOOK_MAX_TOTAL_ATTEMPTS then
      job.(delivery := Some(job.delivery.value.(status := Webhooks.DeadLettered)), updatedAt := now)
    else Notified(job, configured, replies, now)
  }

  lemma NotifiedMeans(job: Job, configured: bool, replies: Webhooks.Replies, now: nat)
    ensures IsNotified(job, Notified(job, configured, replies, now), configured, replies, now)
  {
  }

  lemma CleanedMeans(job: Job, configured: bool, replies: Webhooks.Replies, now: nat)
    ensures IsCleaned(job, Cleaned(job, configured, replies, now), configured, replies, now)
  {
    NotifiedMeans(Interrupted(job).(updatedAt := now), configured, replies, now);
  }

  lemma RetriedMeans(job: Job, configured: bool, replies: Webhooks.Replies, now: nat)
    ensures IsRetriedOnce(job, Retried(job, configured, replies, now), configured, replies, now)
  {
    NotifiedMeans(job, configured, replies, now);
  }

  /** A failed delivery that has attempts left. */
  predicate IsRetried(job: Job) {
    NeedsRetry(job) && Webhooks.Attempts(job.delivery) < Webhooks.WEBHOOK_MAX_TOTAL_ATTEMPTS
  }

  /** The jobs that the retry pass announces again. */
  function Due(jobs: map<JobId, Job>): map<JobId, bool> {
    map id | id in jobs :: IsRetried(jobs[id])
  }

  /** How many of the first `n` names of a listing are due. */
  function CountDue(due: map<JobId, bool>, listing: seq<JobId>, n: nat): nat
    requires n <= |listing|
  {
    if n == 0 then 0 else CountDue(due, listing, n - 1) + if listing[n - 1] in due && due[listing[n - 1]] then 1 else 0
  }

  lemma CountDueNext(due: map<JobId, bool>, listing: seq<JobId>, i: nat)
    requires i < |listing| && listing[i] in due
    ensures CountDue(due, listing, i + 1) == CountDue(due, listing, i) + if due[listing[i]] then 1 else 0
  {
  }

  /** The jobs whose failed delivery has attempts left. */
  ghost function TriedAgain(jobs: map<JobId, Job>): set<JobId> {
    set id | id in jobs && HasFailedOutbox(jobs[id]) && jobs[id].delivery.value.totalAttempts < 9
  }

  /** The names that are due among the first `n`. */
  ghost function DueAmong(due: map<JobId, bool>, listing: seq<JobId>, n: nat): set<JobId>
    requires n <= |listing|
  {
    set k | 0 <= k < n && listing[k] in due && due[listing[k]] :: listing[k]
  }

  lemma DueAmongNext(due: map<JobId, bool>, listing: seq<JobId>, n: nat)
    requires 0 < n <= |listing| && forall i, j :: 0 <= i < j < |listing| ==> listing[i] != listing[j]
    ensures var last := listing[n - 1];
            && last !in DueAmong(due, listing, n - 1)
            && DueAmong(due, listing, n)
               == DueAmong(due, listing, n - 1) + if last in due && due[last] then {last} else {}
  {
  }

  /** How many are due is how many they are. */
  lemma {:induction false} CountDueCounts(due: map<JobId, bool>, listing: seq<JobId>, n: nat)
    requires n <= |listing| && forall i, j :: 0 <= i < j < |listing| ==> listing[i] != listing[j]
    ensures CountDue(due, listing, n) == |DueAmong(due, listing, n)|
  {
    if n > 0 {
      DueAmongNext(due, listing, n);
      CountDueCounts(due, listing, n - 1);
    }
  }

  lemma DueAreTried(jobs: map<JobId, Job>, listing: seq<JobId>)
    requires Enumerates(listing, jobs.Keys)
    ensures CountDue(Due(jobs), listing, |listing|) == |TriedAgain(jobs)|
  {
    var due := Due(jobs);
    CountDueCounts(due, listing, |listing|);
    forall id ensures id in DueAmong(due, listing, |listing|) <==> id in TriedAgain(jobs) {
      if id in TriedAgain(jobs) {
        assert id in listing;
        var k :| 0 <= k < |listing| && listing[k] == id;
        assert due[listing[k]];
      }
    }
    assert DueAmong(due, listing, |listing|) == TriedAgain(jobs);
  }

  predicate NeedsRetry(job: Job) {
    job.status in {Complete, Failed} && job.delivery.Some? && job.delivery.value.status == Webhooks.Failed
  }

  /** Which webhook replies each job's notification meets. */
  type Post = JobId -> Webhooks.Replies

  function CleanedAll(jobs: map<JobId, Job>, configured: bool, post: Post, now: nat): map<JobId, Job> {
    map id | id in jobs :: Cleaned(jobs[id], configured, post(id), now)
  }

  function RetriedAll(jobs: map<JobId, Job>, configured: bool, post: Post, now: nat): map<JobId, Job> {
    map id | id in jobs :: Retried(jobs[id], configured, post(id), now)
  }

  lemma RetriedAt(jobs: map<JobId, Job>, configured: bool, post: Post, now: nat, id: JobId)
    requires id in jobs
    ensures RetriedAll(jobs, configured, post, now)[id] == Retried(jobs[id], configured, post(id), now)
    ensures Due(jobs)[id] == IsRetried(jobs[id])
  {
  }

  /** A pass over all records leaves those there are, each as it should be. */
  ghost predicate IsCleanup(
    jobs: map<JobId, Job>, after: map<JobId, Job>, configured: bool, post: Post, now: nat)
  {
    after.Keys == jobs.Keys && forall id :: id in jobs ==> IsCleaned(jobs[id], after[id], configured, post(id), now)
  }

  ghost predicate IsRetryPass(
    jobs: map<JobId, Job>, after: map<JobId, Job>, configured: bool, post: Post, now: nat)
  {
    after.Keys == jobs.Keys && forall id :: id in jobs ==> IsRetriedOnce(jobs[id], after[id], configured, post(id), now)
  }

  lemma CleanedAllMeans(jobs: map<JobId, Job>, configured: bool, post: Post, now: nat)
    ensures IsCleanup(jobs, CleanedAll(jobs, configured, post, now), configured, post, now)
  {
    forall id | id in jobs {
      CleanedMeans(jobs[id], configured, post(id), now);
    }
  }

  lemma RetriedAllMeans(jobs: map<JobId, Job>, configured: bool, post: Post, now: nat)
    ensures IsRetryPass(jobs, RetriedAll(jobs, configured, post, now), configured, post, now)
  {
    forall id | id in jobs {
      RetriedMeans(jobs[id], configured, post(id), now);
    }
  }

  /** A retry of a failed delivery ends it or adds three attempts. */
  lemma RetryAddsThree(job: Job, after: Job, replies: Webhooks.Replies, now: nat)
    requires IsRetriedOnce(job, after, true, replies, now) && HasFailedOutbox(after)
    ensures HasFailedOutbox(job) && after.delivery.value.totalAttempts == job.delivery.value.totalAttempts + 3 < 9
  {
  }

  /** Whatever the replies, three retry passes leave no failed outbox in the store. */
  lemma ThreePassesSettle(a: map<JobId, Job>, b: map<JobId, Job>, c: map<JobId, Job>, d: map<JobId, Job>,
                          first: Post, second: Post, third: Post, t: nat, u: nat, v: nat)
    requires IsRetryPass(a, b, true, first, t) && IsRetryPass(b, c, true, second, u)
             && IsRetryPass(c, d, true, third, v)
    ensures d.Keys == a.Keys && forall id :: id in d ==> !HasFailedOutbox(d[id])
  {
    forall id | id in d ensures !HasFailedOutbox(d[id]) {
      if HasFailedOutbox(d[id]) {
        RetryAddsThree(c[id], d[id], third(id), v);
        RetryAddsThree(b[id], c[id], second(id), u);
        RetryAddsThree(a[id], b[id], first(id), t);
      }
    }
  }

  /** The files that have not expired. */
  function Kept<T>(files: map<string, T>, expired: string -> bool): map<string, T> {
    map f | f in files && !expired(f) :: files[f]
  }

  /** A record after maintenance: over, and as it was if it was over before. */
  ghost predicate Settles(job: Job, kept: Job) {
    && IsTerminal(kept.status)
    && (IsTerminal(job.status) ==> kept == job.(delivery := kept.delivery, updatedAt := kept.updatedAt))
    && (!IsTerminal(job.status) ==> kept.status == Failed && kept.stage == "interrupted")
    && (Webhooks.WellKept(job.delivery) ==> Webhooks.WellKept(kept.delivery))
  }

  lemma JobSettles(job: Job, configured: bool, first: Webhooks.Replies, second: Webhooks.Replies, now: nat)
    ensures Settles(job, Retried(Cleaned(job, configured, first, now), configured, second, now))
  {
  }

  /** Maintenance on a store nothing else touches keeps exactly the records that have not
      expired, leaves none of them queued or running, keeps those that had ended as they
      ended, and each outbox in order. */
  lemma MaintenanceSettles(jobs: map<JobId, Job>, expired: JobId -> bool, configured: bool,
                           first: Post, second: Post, now: nat)
    ensures var kept := RetriedAll(CleanedAll(Kept(jobs, expired), configured, first, now), configured, second, now);
            && (forall id :: id in kept <==> id in jobs && !expired(id))
            && forall id :: id in kept ==> Settles(jobs[id], kept[id])
  {
    forall id | id in jobs && !expired(id) {
      JobSettles(jobs[id], configured, first(id), second(id), now);
    }
  }

  ghost predicate Keyed(jobs: map<JobId, Job>) {
    forall id :: id in jobs ==> jobs[id].id == id
  }

  /** A directory listing: each name once. */
  ghost predicate Enumerates(listing: seq<JobId>, ids: set<JobId>) {
    && (forall id :: id in listing <==> id in ids)
    && forall i, j :: 0 <= i < j < |listing| ==> listing[i] != listing[j]
  }

  /** A pass over a directory: the first `i` records are as they are after it, the others
      as they were before. */
  ghost predicate Halfway<T>(
    before: map<JobId, T>, after: map<JobId, T>, now: map<JobId, T>, listing: seq<JobId>, i: nat)
    requires after.Keys == before.Keys && Enumerates(listing, before.Keys) && i <= |listing|
  {
    && now.Keys == before.Keys
    && forall k :: 0 <= k < |listing| ==> now[listing[k]] == if k < i then after[listing[k]] else before[listing[k]]
  }

  lemma HalfwayOn<T>(before: map<JobId, T>, after: map<JobId, T>, now: map<JobId, T>, listing: seq<JobId>, i: nat)
    requires after.Keys == before.Keys && Enumerates(listing, before.Keys) && i < |listing|
             && Halfway(before, after, now, listing, i)
    ensures listing[i] in now && now[listing[i]] == before[listing[i]]
    ensures Halfway(before, after, now[listing[i] := after[listing[i]]], listing, i + 1)
  {
  }

  lemma HalfwayDone<T>(before: map<JobId, T>, after: map<JobId, T>, now: map<JobId, T>, listing: seq<JobId>)
    requires after.Keys == before.Keys && Enumerates(listing, before.Keys)
             && Halfway(before, after, now, listing, |listing|)
    ensures now == after
  {
    forall id | id in now ensures now[id] == after[id] {
      assert id in listing;
    }
  }

  /** The files that are left when some names have been looked at. */
  ghost function KeptSoFar<T>(files: map<string, T>, seen: set<string>, expired: string -> bool): map<string, T> {
    map f | f in files && (f !in seen || !expired(f)) :: files[f]
  }

  lemma KeptOn<T>(files: map<string, T>, seen: set<string>, f: string, expired: string -> bool)
    requires f in files && f !in seen
    ensures var left := KeptSoFar(files, seen, expired);
            f in left && KeptSoFar(files, seen + {f}, expired) == (if expired(f) then left - {f} else left)
  {
  }

  lemma KeptDone<T>(files: map<string, T>, seen: set<string>, expired: string -> bool)
    ensures seen == {} ==> KeptSoFar(files, seen, expired) == files
    ensures seen == files.Keys ==> KeptSoFar(files, seen, expired) == Kept(files, expired)
  {
  }

  lemma OneLess<T>(files: map<string, T>, f: string)
    requires f in files
    ensures |files - {f}| + 1 == |files|
  {
    assert files.Keys == (files - {f}).Keys + {f};
    assert |files| == |files.Keys| && |files - {f}| == |(files - {f}).Keys|;
  }

  class JobStore {
    var jobs: map<JobId, Job>
    var reports: map<JobId, Bytes>
    var audits: map<string, Bytes>

    ghost function State(): Store
      reads this
    {
      Store(jobs, reports)
    }

    /** Opens a directory with the files that are there. */
    constructor (jobs: map<JobId, Job>, reports: map<JobId, Bytes>, audits: map<string, Bytes>)
      ensures State() == Store(jobs, reports) && this.audits == audits
    {
      this.jobs, this.reports, this.audits := jobs, reports, audits;
    }

    /** Reserves a job for a request, with `listing` the directory as it is read. */
    method CreateOrReuse(listing: seq<JobId>, id: JobId, request: Request, key: string, now: nat)
      returns (r: Reservation)
      requires forall j :: j in listing ==> j in jobs
      modifies this`jobs
      ensures (State(), r) == Reserve(old(State()), listing, id, request, key, now)
    {
      if key != "" {
        var i := 0;
        while i < |listing|
          invariant i <= |listing| && State() == old(State())
          invariant HolderOf(State(), listing, key) == HolderOf(State(), listing[i..], key)
        {
          var current := jobs[listing[i]];
          if current.idempotencyKey == key {
            return if current.request == request then Replayed(current) else Conflict(current);
          }
          i := i + 1;
        }
      }
      var job := NewJob(id, request, key, now);
      jobs := jobs[id := job];
      r := Created(job);
    }

    method Write(job: Job, now: nat)
      modifies this`jobs
      ensures State() == Put(old(State()), job, now)
    {
      jobs := jobs[job.id := job.(updatedAt := now)];
    }

    method TryStart(id: JobId, now: nat) returns (claimed: Option<Job>)
      modifies this`jobs
      ensures State() == StartJob(old(State()), id, now).0
      ensures claimed == if StartJob(old(State()), id, now).1 then Some(jobs[id]) else None
    {
      if id !in jobs || jobs[id].status != Queued {
        return None;
      }
      var current := jobs[id].(status := Running, stage := "downloading", updatedAt := now);
      jobs := jobs[id := current];
      claimed := Some(current);
    }

    method Cancel(id: JobId, now: nat) returns (job: Option<Job>, cancelled: bool)
      modifies this`jobs
      ensures (State(), cancelled) == CancelJob(old(State()), id, now)
      ensures job == if id in jobs then Some(jobs[id]) else None
    {
      if id !in jobs {
        return None, false;
      }
      if jobs[id].status !in {Queued, Running} {
        return Some(jobs[id]), false;
      }
      var current := jobs[id].(status := Cancelled, stage := "cancelled",
      error := "Cancelled by an authorized client.", updatedAt := now);
      jobs := jobs[id := current];
      return Some(current), true;
    }

    /** The report is written before the record that refers to it. */
    method TryComplete(id: JobId, report: Bytes, now: nat) returns (ok: bool)
      modifies this`jobs, this`reports
      ensures (State(), ok) == CompleteJob(old(State()), id, report, now)
    {
      if id !in jobs || jobs[id].status != Running {
        return false;
      }
      reports := reports[id := report];
      var current := jobs[id].(status := Complete, stage := "complete",
      reportSha256 := Some(Sha256(reports[id])), updatedAt := now);
      jobs := jobs[id := current];
      ok := true;
    }

    method TryFail(id: JobId, error: string, stage: string, now: nat) returns (ok: bool)
      modifies this`jobs
      ensures (State(), ok) == FailJob(old(State()), id, error, stage, now)
    {
      if id !in jobs || jobs[id].status !in {Queued, Running} {
        return false;
      }
      jobs := jobs[id := jobs[id].(status := Failed, stage := stage, error := error, updatedAt := now)];
      ok := true;
    }

    /** Announces a terminal job: read, send, write back. */
    method NotifyTerminalJob(id: JobId, configured: bool, replies: Webhooks.Replies, now: nat)
      requires id in jobs ==> jobs[id].id == id
      modifies this`jobs
      ensures jobs == if id in old(jobs) then old(jobs)[id := Notified(old(jobs)[id], configured, replies, now)]
                      else old(jobs)
      ensures id in old(jobs) ==> IsNotified(old(jobs)[id], jobs[id], configured, replies, now)
    {
      if id in jobs {
        NotifiedMeans(jobs[id], configured, replies, now);
      }
      if id !in jobs {
        return;
      }
      var job := jobs[id];
      if Webhooks.Settled(job.delivery) || !configured {
        return;
      }
      var receipt, sent := Webhooks.DeliverTerminalWebhook(replies);
      Write(job.(delivery := Some(Webhooks.Recorded(job.delivery, receipt))), now);
    }

    /** What the startup pass does with one record. */
    method CleanupJob(id: JobId, configured: bool, replies: Webhooks.Replies, now: nat)
      requires id in jobs && jobs[id].id == id
      modifies this`jobs
      ensures jobs == old(jobs)[id := Cleaned(old(jobs)[id], configured, replies, now)]
      ensures IsCleaned(old(jobs)[id], jobs[id], configured, replies, now)
    {
      CleanedMeans(jobs[id], configured, replies, now);
      var job := jobs[id];
      if job.status in {Queued, Running} {
        Write(Interrupted(job), now);
        NotifyTerminalJob(job.id, configured, replies, now);
      }
    }

    /** The second loop of the cleanup. */
    method FailLeftovers(listing: seq<JobId>, configured: bool, post: Post, now: nat)
      requires Keyed(jobs) && Enumerates(listing, jobs.Keys)
      modifies this`jobs
      ensures Keyed(jobs)
      ensures jobs == CleanedAll(old(jobs), configured, post, now)
      ensures IsCleanup(old(jobs), jobs, configured, post, now)
    {
      CleanedAllMeans(jobs, configured, post, now);
      ghost var before := jobs;
      ghost var after := CleanedAll(jobs, configured, post, now);
      for i := 0 to |listing|
        invariant Halfway(before, after, jobs, listing, i)
      {
        HalfwayOn(before, after, jobs, listing, i);
        CleanupJob(listing[i], configured, post(listing[i]), now);
      }
      HalfwayDone(before, after, jobs, listing);
    }

    /** Removes the expired files of one directory, and counts them. */
    static method RemoveExpired<T>(files: map<string, T>, listing: seq<string>, expired: string -> bool)
      returns (left: map<string, T>, removed: nat)
      requires Enumerates(listing, files.Keys)
      ensures left == Kept(files, expired) && removed + |left| == |files|
    {
      left, removed := files, 0;
      ghost var seen := {};
      KeptDone(files, seen, expired);
      for i := 0 to |listing|
        invariant seen == set k | 0 <= k < i :: listing[k]
        invariant left == KeptSoFar(files, seen, expired) && removed + |left| == |files|
      {
        KeptOn(files, seen, listing[i], expired);
        seen := seen + {listing[i]};
        if expired(listing[i]) {
          OneLess(left, listing[i]);
          left, removed := left - {listing[i]}, removed + 1;
        }
      }
      KeptDone(files, seen, expired);
    }

    /** The cleanup: expired files go, and every job left queued or running is failed and
        announced.  The job directory is read again after its expired files are gone. */
    method CleanupStaleJobs(jobListing: seq<JobId>, reportListing: seq<JobId>, auditListing: seq<string>,
                            oldJob: JobId -> bool, oldReport: JobId -> bool, oldAudit: string -> bool,
                            rest: seq<JobId>, configured: bool, post: Post, now: nat)
      returns (removed: nat)
      requires Keyed(jobs) && Enumerates(rest, Kept(jobs, oldJob).Keys)
      requires Enumerates(jobListing, jobs.Keys) && Enumerates(reportListing, reports.Keys)
               && Enumerates(auditListing, audits.Keys)
      modifies this
      ensures Keyed(jobs)
      ensures jobs == CleanedAll(Kept(old(jobs), oldJob), configured, post, now)
      ensures forall id :: id in jobs <==> id in old(jobs) && !oldJob(id)
      ensures forall id :: id in jobs ==> IsCleaned(old(jobs)[id], jobs[id], configured, post(id), now)
      ensures reports == Kept(old(reports), oldReport) && audits == Kept(old(audits), oldAudit)
      ensures removed + |jobs| + |reports| + |audits| == old(|jobs| + |reports| + |audits|)
    {
      var a, b, c;
      jobs, a := RemoveExpired(jobs, jobListing, oldJob);
      reports, b := RemoveExpired(reports, reportListing, oldReport);
      audits, c := RemoveExpired(audits, auditListing, oldAudit);
      ghost var kept := jobs;
      FailLeftovers(rest, configured, post, now);
      assert jobs.Keys == kept.Keys;
      assert |jobs| == |jobs.Keys| == |kept|;
      removed := a + b + c;
    }

    /** What the retry pass does with one record. */
    method RetryJob(id: JobId, configured: bool, replies: Webhooks.Replies, now: nat) returns (retried: bool)
      requires id in jobs && jobs[id].id == id
      modifies this`jobs
      ensures jobs == old(jobs)[id := Retried(old(jobs)[id], configured, replies, now)]
      ensures retried <==> IsRetried(old(jobs)[id])
      ensures IsRetriedOnce(old(jobs)[id], jobs[id], configured, replies, now)
    {
      RetriedMeans(jobs[id], configured, replies, now);
      var job := jobs[id];
      if !NeedsRetry(job) {
        return false;
      }
      if Webhooks.Attempts(job.delivery) >= Webhooks.WEBHOOK_MAX_TOTAL_ATTEMPTS {
        Write(job.(delivery := Some(job.delivery.value.(status := Webhooks.DeadLettered))), now);
        return false;
      }
      NotifyTerminalJob(id, configured, replies, now);
      retried := true;
    }

    /** One turn of the retry pass. */
    method RetryNext(listing: seq<JobId>, i: nat, configured: bool, replies: Webhooks.Replies, now: nat,
                     ghost before: map<JobId, Job>, ghost after: map<JobId, Job>) returns (retried: bool)
      requires Keyed(before) && after.Keys == before.Keys && Enumerates(listing, before.Keys) && i < |listing|
      requires Halfway(before, after, jobs, listing, i)
      requires listing[i] in before && after[listing[i]] == Retried(before[listing[i]], configured, replies, now)
      modifies this`jobs
      ensures Halfway(before, after, jobs, listing, i + 1)
      ensures retried <==> IsRetried(before[listing[i]])
    {
      HalfwayOn(before, after, jobs, listing, i);
      retried := RetryJob(listing[i], configured, replies, now);
    }

    /** The retry pass; it reports how many deliveries it tried again. */
    method RetryFailedWebhookDeliveries(listing: seq<JobId>, configured: bool, post: Post, now: nat)
      returns (count: nat)
      requires Keyed(jobs) && Enumerates(listing, jobs.Keys)
      modifies this`jobs
      ensures Keyed(jobs)
      ensures jobs == RetriedAll(old(jobs), configured, post, now)
      ensures IsRetryPass(old(jobs), jobs, configured, post, now)
      ensures count == |TriedAgain(old(jobs))|
    {
      count := 0;
      ghost var before := jobs;
      ghost var after := RetriedAll(jobs, configured, post, now);
      ghost var due := Due(jobs);
      for i := 0 to |listing|
        invariant Halfway(before, after, jobs, listing, i)
        invariant count == CountDue(due, listing, i)
      {
        CountDueNext(due, listing, i);
        RetriedAt(before, configured, post, now, listing[i]);
        var retried := RetryNext(listing, i, configured, post(listing[i]), now, before, after);
        count := if retried then count + 1 else count;
      }
      HalfwayDone(before, after, jobs, listing);
      RetriedAllMeans(before, configured, post, now);
      DueAreTried(before, listing);
    }
  }
}
