/**
 Terminal webhooks: the bounded retry loop that delivers one event, and the outbox kept
 on the job record that bounds the attempts over restarts.
 */
module Webhooks {
  import opened Options

  const WEBHOOK_ATTEMPTS: nat := 3
  const WEBHOOK_MAX_TOTAL_ATTEMPTS: nat := 9
  const RETRYABLE_STATUSES: set<nat> := {408, 425, 429, 500, 502, 503, 504}

  /** How one POST ends: a response, an HTTP error raised by the client, or no response. */
  datatype Reply = Response(code: nat) | HttpError(code: nat) | TransportError

  datatype Status = Delivered | Failed | DeadLettered

  /** What one call of the retry loop reports. */
  datatype Receipt = Receipt(status: Status, attempts: nat)

  /** What the job record keeps. */
  datatype Delivery = Delivery(status: Status, attempts: nat, totalAttempts: nat)

  predicate Accepted(reply: Reply) {
    reply.Response? && 200 <= reply.code < 300
  }

  /** The loop goes on to another attempt after this reply. */
  predicate Retryable(reply: Reply) {
    !Accepted(reply) && (reply.TransportError? || reply.code in RETRYABLE_STATUSES)
  }

  /** What counts as success, and what as a failure that may pass. */
  ghost predicate Succeeds(reply: Reply) {
    reply.Response? && reply.code >= 200 && reply.code <= 299
  }

  ghost predicate MayPass(reply: Reply) {
    || reply.TransportError?
    || reply.code == 408 || reply.code == 425 || reply.code == 429
    || reply.code == 500 || reply.code == 502 || reply.code == 503 || reply.code == 504
  }

  /** `n` POSTs are sent: all but the last met with a failure that may pass, and the last did
      not or used up the attempts. */
  ghost predicate Sends(replies: seq<Reply>, n: nat) {
    && 1 <= n <= 3 <= |replies|
    && (forall i :: 0 <= i < n - 1 ==> MayPass(replies[i]))
    && (n < 3 ==> !MayPass(replies[n - 1]))
  }

  type Replies = r: seq<Reply> | |r| == WEBHOOK_ATTEMPTS witness [TransportError, TransportError, TransportError]

  /** How many POSTs the loop sends when they would meet these replies. */
  function PostsSent(replies: Replies): (n: nat)
    ensures Sends(replies, n)
  {
    if !Retryable(replies[0]) then 1 else if !Retryable(replies[1]) then 2 else 3
  }

  /** The reply after which the loop stops with success. */
  ghost predicate AcceptedAt(replies: Replies, i: nat)
    requires i < 3
  {
    Succeeds(replies[i]) && forall j :: 0 <= j < i ==> MayPass(replies[j])
  }

  /** What the loop reports.  A failure counts as three attempts even when the loop
      stopped after fewer. */
  function ReceiptOf(replies: Replies): (r: Receipt)
    ensures PostsSent(replies) <= r.attempts <= 3
    ensures r.status == Delivered <==> exists i :: 0 <= i < 3 && AcceptedAt(replies, i)
    ensures r.status == Delivered ==> r.attempts > 0 && AcceptedAt(replies, r.attempts - 1)
    ensures r.status != Delivered ==> r.status == Failed && r.attempts == 3
  {
    var n := PostsSent(replies);
    assert Accepted(replies[n - 1]) ==> AcceptedAt(replies, n - 1);
    if Accepted(replies[n - 1]) then Receipt(Delivered, n) else Receipt(Failed, WEBHOOK_ATTEMPTS)
  }

  method DeliverTerminalWebhook(replies: Replies) returns (receipt: Receipt, sent: nat)
    ensures sent == PostsSent(replies) && receipt == ReceiptOf(replies)
  {
    sent := 0;
    var attempt := 0;
    while attempt < WEBHOOK_ATTEMPTS
      invariant sent == attempt <= WEBHOOK_ATTEMPTS
      invariant forall i :: 0 <= i < attempt ==> Retryable(replies[i])
    {
      var reply := replies[attempt];
      sent := sent + 1;
      if reply.Response? {
        if 200 <= reply.code < 300 {
          return Receipt(Delivered, attempt + 1), sent;
        }
        if reply.code !in RETRYABLE_STATUSES {
          break;
        }
      } else if reply.HttpError? {
        if reply.code !in RETRYABLE_STATUSES {
          break;
        }
      }
      attempt := attempt + 1;
    }
    receipt := Receipt(Failed, WEBHOOK_ATTEMPTS);
  }

  // ----- The outbox

  predicate Settled(previous: Option<Delivery>) {
    previous.Some? && previous.value.status != Failed
  }

  function Attempts(previous: Option<Delivery>): nat {
    if previous.None? then 0 else previous.value.totalAttempts
  }

  /** What the notifier writes back after a delivery. */
  function Recorded(previous: Option<Delivery>, receipt: Receipt): Delivery {
    var total := Attempts(previous) + receipt.attempts;
    if receipt.status == Failed && total >= WEBHOOK_MAX_TOTAL_ATTEMPTS
    then Delivery(DeadLettered, receipt.attempts, total)
    else Delivery(receipt.status, receipt.attempts, total)
  }

  /** The states the outbox of a job can be in. */
  ghost predicate WellKept(d: Option<Delivery>) {
    match d
    case None => true
    case Some(Delivery(Failed, attempts, total)) => attempts == 3 && total in {3, 6}
    case Some(Delivery(Delivered, attempts, total)) => 1 <= attempts <= 3 && attempts <= total <= 9
    case Some(Delivery(DeadLettered, attempts, total)) => attempts == 3 && total == 9
  }

  /** One notification: nothing is sent once the outbox is settled; otherwise the event is
      sent and the attempts are added to the total. */
  method Notify(previous: Option<Delivery>, replies: Replies) returns (d: Option<Delivery>, sent: nat)
    ensures Settled(previous) ==> d == previous && sent == 0
    ensures !Settled(previous) ==> d == Some(Recorded(previous, ReceiptOf(replies))) && sent == PostsSent(replies)
    ensures WellKept(previous) ==> WellKept(d) && Attempts(previous) + sent <= Attempts(d)
  {
    if Settled(previous) {
      return previous, 0;
    }
    var receipt;
    receipt, sent := DeliverTerminalWebhook(replies);
    d := Some(Recorded(previous, receipt));
  }

  // ----- All runs of one job's outbox, one notifier at a time

  /** A notification that is recorded, one whose process dies between the last POST and the
      write, or a failure that another thread writes over the record from a copy read before
      there was any delivery. */
  datatype Event = Notification(replies: Replies) | Lost(replies: Replies) | Erased

  /** What the record keeps, the POSTs sent, the notifications recorded since the record was
      last erased, and how many notifications were lost and deliveries erased. */
  datatype Outbox = Outbox(delivery: Option<Delivery>, sent: nat, sendings: nat, lost: nat, erased: nat)

  ghost function After(o: Outbox, e: Event): Outbox {
    match e
    case Erased => if o.delivery.None? then o else Outbox(None, o.sent, 0, o.lost, o.erased + 1)
    case Lost(replies) =>
      if Settled(o.delivery) then o else o.(sent := o.sent + PostsSent(replies), lost := o.lost + 1)
    case Notification(replies) =>
      if Settled(o.delivery) then o
      else o.(delivery := Some(Recorded(o.delivery, ReceiptOf(replies))), sent := o.sent + PostsSent(replies),
           sendings := o.sendings + 1)
  }

  ghost function AfterAll(events: seq<Event>): Outbox {
    if events == [] then Outbox(None, 0, 0, 0, 0)
    else After(AfterAll(events[..|events| - 1]), events[|events| - 1])
  }

  ghost predicate OutboxInvariant(o: Outbox) {
    && WellKept(o.delivery)
    && o.sent <= Attempts(o.delivery) + 3 * o.lost + 9 * o.erased
    && o.sendings <= 3
    && (o.delivery.None? ==> o.sendings == 0)
    && (o.delivery.Some? && o.delivery.value.status == Failed ==> o.delivery.value.totalAttempts == 3 * o.sendings)
  }

  /** In every run the record accounts for every POST but those of lost notifications and of
      erased deliveries, never counts more than nine, and keeps at most three notifications;
      nine POSTs more can be sent for each erased delivery. */
  lemma {:induction false} OutboxBounded(events: seq<Event>)
    ensures var o := AfterAll(events);
            && OutboxInvariant(o)
            && Attempts(o.delivery) <= 9 && o.sent <= 9 * (o.erased + 1) + 3 * o.lost
  {
    if events != [] {
      OutboxBounded(events[..|events| - 1]);
    }
  }

  lemma {:induction false} ErasedIsCounted(events: seq<Event>)
    ensures AfterAll(events).erased > 0 ==> Erased in events
  {
    if events != [] {
      ErasedIsCounted(events[..|events| - 1]);
    }
  }

  /** Where nothing is erased, nine POSTs are sent at most, and three for each that is lost. */
  lemma NineAtMost(events: seq<Event>)
    requires Erased !in events
    ensures AfterAll(events).sent <= 9 + 3 * AfterAll(events).lost
  {
    OutboxBounded(events);
    ErasedIsCounted(events);
  }

  lemma {:induction false} ErasedNeverFalls(events: seq<Event>, more: seq<Event>)
    ensures AfterAll(events + more).erased >= AfterAll(events).erased
    decreases |more|
  {
    if more == [] {
      assert events + more == events;
    } else {
      var n := |more| - 1;
      ErasedNeverFalls(events, more[..n]);
      assert (events + more)[..|events + more| - 1] == events + more[..n];
    }
  }

  lemma {:induction false} SettledStays(events: seq<Event>, more: seq<Event>)
    requires Settled(AfterAll(events).delivery)
    ensures Erased !in more ==> AfterAll(events + more) == AfterAll(events)
    ensures Erased in more ==> AfterAll(events + more).erased > AfterAll(events).erased
    decreases |more|
  {
    if more == [] {
      assert events + more == events;
    } else {
      var n := |more| - 1;
      SettledStays(events, more[..n]);
      ErasedNeverFalls(events, more[..n]);
      assert (events + more)[..|events + more| - 1] == events + more[..n];
      assert more == more[..n] + [more[n]];
    }
  }

  /** Delivered and dead-lettered are final, what follows sending and writing nothing, exactly
      as long as no failure is written over the record. */
  lemma SettledForGood(events: seq<Event>, more: seq<Event>)
    requires Settled(AfterAll(events).delivery)
    ensures AfterAll(events + more) == AfterAll(events) <==> Erased !in more
  {
    SettledStays(events, more);
  }

  /** Three recorded notifications settle the outbox, whatever the replies, unless it is erased
      between them. */
  lemma {:induction false} ThreeSettle(events: seq<Event>)
    ensures AfterAll(events).sendings == 3 ==> Settled(AfterAll(events).delivery)
  {
    if events != [] {
      OutboxBounded(events[..|events| - 1]);
      ThreeSettle(events[..|events| - 1]);
    }
  }
}
