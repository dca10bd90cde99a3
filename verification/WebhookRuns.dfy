/**
 The outbox of one job with any number of notifiers at work on it: each reads the record,
 sends, and writes back what it read with its own delivery added, whatever is on disk by
 then.  A notifier may die anywhere.  A handler or the maintenance pass may write a failure
 over the record from a copy that it read before there was any delivery.
 */
module WebhookRuns {
  import opened Options
  import opened Webhooks

  /** A notifier at work, with the delivery it read and how many writes the record had had. */
  datatype Flight =
    | Looked(previous: Option<Delivery>, version: nat)
    | Posted(previous: Option<Delivery>, version: nat, receipt: Receipt, posts: nat)

  /** The record's delivery, the changes it has had, the notifiers at work, and the POSTs sent
      by those that have written and by those that died. */
  datatype Shared = Shared(delivery: Option<Delivery>, version: nat, flights: map<nat, Flight>, landed: nat, lost: nat)

  datatype Step =
    | Look(notifier: nat)
    | Post(notifier: nat, replies: Replies)
    | Store(notifier: nat)
    | Die(notifier: nat, posts: nat)     // having sent some POSTs, or all of them
    | Erase                              // a failure is written over the record

  const START := Shared(None, 0, map[], 0, 0)

  ghost predicate Enabled(o: Shared, step: Step) {
    match step
    case Look(t) => t !in o.flights && !Settled(o.delivery)
    case Post(t, _) => t in o.flights && o.flights[t].Looked?
    case Store(t) => t in o.flights && o.flights[t].Posted?
    case Die(t, posts) =>
      t in o.flights && if o.flights[t].Looked? then posts <= WEBHOOK_ATTEMPTS else posts == o.flights[t].posts
    case Erase => true
  }

  ghost function Apply(o: Shared, step: Step): Shared
    requires Enabled(o, step)
  {
    match step
    case Look(t) => o.(flights := o.flights[t := Looked(o.delivery, o.version)])
    case Post(t, replies) =>
      var f := o.flights[t];
      o.(flights := o.flights[t := Posted(f.previous, f.version, ReceiptOf(replies), PostsSent(replies))])
    case Store(t) =>
      var f := o.flights[t];
      Shared(Some(Recorded(f.previous, f.receipt)), o.version + 1, o.flights - {t}, o.landed + f.posts, o.lost)
    case Die(t, posts) => o.(flights := o.flights - {t}, lost := o.lost + posts)
    case Erase => if o.delivery.None? then o else o.(delivery := None, version := o.version + 1)
  }

  ghost predicate IsRun(o: Shared, steps: seq<Step>)
    decreases |steps|
  {
    steps == [] || (Enabled(o, steps[0]) && IsRun(Apply(o, steps[0]), steps[1..]))
  }

  ghost function After(o: Shared, steps: seq<Step>): Shared
    requires IsRun(o, steps)
    decreases |steps|
  {
    if steps == [] then o else After(Apply(o, steps[0]), steps[1..])
  }

  /** Every POST of the notifiers that are done, by a write or by their death. */
  function Sent(o: Shared): nat {
    o.landed + o.lost
  }

  // ----- What goes wrong

  /** A write by a notifier that another write has overtaken since it read. */
  ghost predicate Overtaken(o: Shared, step: Step) {
    step.Store? && step.notifier in o.flights && o.flights[step.notifier].version != o.version
  }

  /** A death after a POST. */
  predicate Loses(step: Step) {
    step.Die? && step.posts > 0
  }

  /** A failure written over a recorded delivery. */
  predicate Erases(o: Shared, step: Step) {
    step.Erase? && o.delivery.Some?
  }

  ghost predicate GoesWrong(o: Shared, step: Step) {
    Overtaken(o, step) || Loses(step) || Erases(o, step)
  }

  /** No notifier of the run is overtaken, none dies after a POST, and no failure is written
      over a delivery. */
  ghost predicate Clean(o: Shared, steps: seq<Step>)
    requires IsRun(o, steps)
    decreases |steps|
  {
    steps == [] || (!GoesWrong(o, steps[0]) && Clean(Apply(o, steps[0]), steps[1..]))
  }

  // ----- What every run keeps

  ghost predicate InOrder(o: Shared) {
    && WellKept(o.delivery)
    && forall t :: t in o.flights ==>
                     var f := o.flights[t];
                     && WellKept(f.previous) && !Settled(f.previous) && f.version <= o.version
                     && (f.version == o.version ==> f.previous == o.delivery)
                     && (f.Posted? ==> 1 <= f.posts <= f.receipt.attempts <= 3 && f.receipt.status != DeadLettered)
                     && (f.Posted? && f.receipt.status == Failed ==> f.receipt.attempts == 3)
  }

  lemma StepInOrder(o: Shared, step: Step)
    requires InOrder(o) && Enabled(o, step)
    ensures InOrder(Apply(o, step))
  {
  }

  /** However notifiers overlap and die, the record stays in order, and counts nine attempts
      at most. */
  lemma {:induction false} RecordInOrder(o: Shared, steps: seq<Step>)
    requires InOrder(o) && IsRun(o, steps)
    ensures InOrder(After(o, steps)) && Attempts(After(o, steps).delivery) <= 9
    decreases |steps|
  {
    if steps != [] {
      StepInOrder(o, steps[0]);
      RecordInOrder(Apply(o, steps[0]), steps[1..]);
    }
  }

  lemma CleanStepAccounts(o: Shared, step: Step)
    requires InOrder(o) && Enabled(o, step) && !GoesWrong(o, step) && o.lost == 0 && o.landed <= Attempts(o.delivery)
    ensures Apply(o, step).lost == 0 && Apply(o, step).landed <= Attempts(Apply(o, step).delivery)
  {
  }

  /** When no notifier is overtaken, none dies after a POST and no failure is written over a
      delivery, the record accounts for every POST: nine are sent at most, whatever the
      replies. */
  lemma {:induction false} CleanRunsAccount(o: Shared, steps: seq<Step>)
    requires InOrder(o) && IsRun(o, steps) && Clean(o, steps) && o.lost == 0 && o.landed <= Attempts(o.delivery)
    ensures var end := After(o, steps); Sent(end) <= Attempts(end.delivery) <= 9
    decreases |steps|
  {
    if steps != [] {
      StepInOrder(o, steps[0]);
      CleanStepAccounts(o, steps[0]);
      CleanRunsAccount(Apply(o, steps[0]), steps[1..]);
    }
  }

  // ----- Finality, exactly

  /** A settled outbox stays so in every step but two: a failure is written over it, or an
      overtaken notifier writes a failed delivery. */
  lemma SettledStepExactly(o: Shared, step: Step)
    requires InOrder(o) && Enabled(o, step) && Settled(o.delivery)
    ensures Settled(Apply(o, step).delivery)
       <==> !step.Erase? && !(step.Store? && Recorded(o.flights[step.notifier].previous,
                                                      o.flights[step.notifier].receipt).status == Failed)
    ensures step.Store? ==> Overtaken(o, step)
  {
  }

  /** So a run in which nothing goes wrong never sends again what is settled. */
  lemma {:induction false} CleanRunsSettle(o: Shared, steps: seq<Step>)
    requires InOrder(o) && IsRun(o, steps) && Clean(o, steps) && Settled(o.delivery)
    ensures After(o, steps).delivery == o.delivery && After(o, steps).landed == o.landed
    decreases |steps|
  {
    if steps != [] {
      SettledStepExactly(o, steps[0]);
      StepInOrder(o, steps[0]);
      CleanRunsSettle(Apply(o, steps[0]), steps[1..]);
    }
  }

  // ----- The account, exactly

  /** Every POST of the run is refused, for as long as the notifier tries. */
  ghost predicate Refused(steps: seq<Step>) {
    forall k :: 0 <= k < |steps| && steps[k].Post? ==>
                  PostsSent(steps[k].replies) == 3 && ReceiptOf(steps[k].replies).status == Failed
  }

  /** The record counts every POST that is done. */
  predicate Accounted(o: Shared) {
    Sent(o) <= Attempts(o.delivery)
  }

  /** Every delivery stands for as many refused notifications as writes before it, or fewer. */
  ghost predicate Behind(o: Shared) {
    && Attempts(o.delivery) <= 3 * o.version && o.landed == 3 * o.version
    && forall t :: t in o.flights ==>
                     var f := o.flights[t];
                     && Attempts(f.previous) <= 3 * f.version
                     && (f.Posted? ==> f.posts == f.receipt.attempts == 3)
  }

  lemma StepBehind(o: Shared, step: Step)
    requires InOrder(o) && Behind(o) && Enabled(o, step) && Refused([step]) && !Erases(o, step)
    ensures Behind(Apply(o, step))
    ensures Accounted(Apply(o, step)) <==> Accounted(o) && !Overtaken(o, step) && !Loses(step)
  {
    assert [step][0] == step;
  }

  lemma EraseUnaccounts(o: Shared, step: Step)
    requires InOrder(o) && Behind(o) && Enabled(o, step) && Erases(o, step)
    ensures !Accounted(Apply(o, step))
  {
  }

  /** The account holds all along the run. */
  ghost predicate AccountedThroughout(o: Shared, steps: seq<Step>)
    requires IsRun(o, steps)
    decreases |steps|
  {
    Accounted(o) && (steps == [] || AccountedThroughout(Apply(o, steps[0]), steps[1..]))
  }

  lemma {:induction false} ThroughoutExactly(o: Shared, steps: seq<Step>)
    requires InOrder(o) && Behind(o) && Accounted(o) && IsRun(o, steps) && Refused(steps)
    ensures AccountedThroughout(o, steps) <==> Clean(o, steps)
    decreases |steps|
  {
    if steps != [] {
      var next := Apply(o, steps[0]);
      assert Refused([steps[0]]) && Refused(steps[1..]);
      StepInOrder(o, steps[0]);
      if Erases(o, steps[0]) {
        EraseUnaccounts(o, steps[0]);
      } else {
        StepBehind(o, steps[0]);
        if Accounted(next) {
          ThroughoutExactly(next, steps[1..]);
        }
      }
    }
  }

  /** When every POST is refused, the record accounts for them all along exactly if no notifier
      is overtaken, none dies after a POST and no failure is written over a delivery. */
  lemma AccountExactly(steps: seq<Step>)
    requires IsRun(START, steps) && Refused(steps)
    ensures AccountedThroughout(START, steps) <==> Clean(START, steps)
  {
    ThroughoutExactly(START, steps);
  }

  ghost predicate NeverErases(o: Shared, steps: seq<Step>)
    requires IsRun(o, steps)
    decreases |steps|
  {
    steps == [] || (!Erases(o, steps[0]) && NeverErases(Apply(o, steps[0]), steps[1..]))
  }

  lemma {:induction false} EndExactly(o: Shared, steps: seq<Step>)
    requires InOrder(o) && Behind(o) && IsRun(o, steps) && Refused(steps) && NeverErases(o, steps)
    ensures Accounted(After(o, steps)) <==> Accounted(o) && Clean(o, steps)
    decreases |steps|
  {
    if steps != [] {
      assert Refused([steps[0]]) && Refused(steps[1..]);
      StepInOrder(o, steps[0]);
      StepBehind(o, steps[0]);
      EndExactly(Apply(o, steps[0]), steps[1..]);
    }
  }

  /** Where no failure is written over a delivery, what is missing once is missing for good: the
      account at the end tells whether a notifier was overtaken or died after a POST. */
  lemma AccountAtEnd(steps: seq<Step>)
    requires IsRun(START, steps) && Refused(steps) && NeverErases(START, steps)
    ensures Accounted(After(START, steps)) <==> Clean(START, steps)
  {
    EndExactly(START, steps);
  }

  // ----- Runs that go wrong

  const REFUSALS: Replies := [TransportError, TransportError, TransportError]
  const SUCCESS: Replies := [Response(200), TransportError, TransportError]

  lemma RunsOn(o: Shared, step: Step, rest: seq<Step>)
    requires Enabled(o, step) && IsRun(Apply(o, step), rest)
    ensures IsRun(o, [step] + rest) && After(o, [step] + rest) == After(Apply(o, step), rest)
  {
    assert ([step] + rest)[1..] == rest;
  }

  lemma {:induction false} Append(o: Shared, steps: seq<Step>, step: Step)
    requires IsRun(o, steps) && Enabled(After(o, steps), step)
    ensures IsRun(o, steps + [step]) && After(o, steps + [step]) == Apply(After(o, steps), step)
    decreases |steps|
  {
    if steps == [] {
      RunsOn(o, step, []);
      assert [] + [step] == [step] + [];
    } else {
      Append(Apply(o, steps[0]), steps[1..], step);
      assert (steps + [step])[1..] == steps[1..] + [step];
    }
  }

  /** One notification alone, refused. */
  lemma NotifiesAlone(o: Shared, rest: seq<Step>)
    requires o.flights == map[] && !Settled(o.delivery)
    requires IsRun(Shared(Some(Recorded(o.delivery, ReceiptOf(REFUSALS))), o.version + 1, map[], o.landed + 3,
                          o.lost), rest)
    ensures var steps := [Look(0)] + ([Post(0, REFUSALS)] + ([Store(0)] + rest));
            var next := Shared(Some(Recorded(o.delivery, ReceiptOf(REFUSALS))), o.version + 1, map[], o.landed + 3,
                               o.lost);
            IsRun(o, steps) && After(o, steps) == After(next, rest)
  {
    var a := Apply(o, Look(0));
    var b := Apply(a, Post(0, REFUSALS));
    assert Apply(b, Store(0))
        == Shared(Some(Recorded(o.delivery, ReceiptOf(REFUSALS))), o.version + 1, map[], o.landed + 3, o.lost);
    RunsOn(b, Store(0), rest);
    RunsOn(a, Post(0, REFUSALS), [Store(0)] + rest);
    RunsOn(o, Look(0), [Post(0, REFUSALS)] + ([Store(0)] + rest));
  }

  /** Two notifiers at once: six POSTs, three attempts recorded. */
  lemma OverlapUndercounts() returns (steps: seq<Step>)
    ensures IsRun(START, steps)
    ensures var end := After(START, steps);
            end.flights == map[] && end.lost == 0 && Sent(end) == 6 && Attempts(end.delivery) == 3
  {
    var a := Apply(START, Look(0));
    var b := Apply(a, Look(1));
    var c := Apply(b, Post(0, REFUSALS));
    var d := Apply(c, Post(1, REFUSALS));
    var e := Apply(d, Store(0));
    var f := Apply(e, Store(1));
    assert d.flights == map[0 := Posted(None, 0, Receipt(Failed, 3), 3), 1 := Posted(None, 0, Receipt(Failed, 3), 3)];
    assert f == Shared(Some(Delivery(Failed, 3, 3)), 2, map[], 6, 0);
    RunsOn(e, Store(1), []);
    RunsOn(d, Store(0), [Store(1)] + []);
    RunsOn(c, Post(1, REFUSALS), [Store(0)] + ([Store(1)] + []));
    RunsOn(b, Post(0, REFUSALS), [Post(1, REFUSALS)] + ([Store(0)] + ([Store(1)] + [])));
    RunsOn(a, Look(1), [Post(0, REFUSALS)] + ([Post(1, REFUSALS)] + ([Store(0)] + ([Store(1)] + []))));
    steps := [Look(0)] + ([Look(1)] + ([Post(0, REFUSALS)] + ([Post(1, REFUSALS)] + ([Store(0)] + ([Store(1)] + [])))));
    RunsOn(START, Look(0),
           [Look(1)] + ([Post(0, REFUSALS)] + ([Post(1, REFUSALS)] + ([Store(0)] + ([Store(1)] + [])))));
  }

  /** A notifier that dies before it writes: twelve POSTs are sent before the record calls
      the outbox dead. */
  lemma LossOverrunsNine() returns (steps: seq<Step>)
    ensures IsRun(START, steps)
    ensures var end := After(START, steps);
            end.flights == map[] && Sent(end) == 12 && end.delivery == Some(Delivery(DeadLettered, 3, 9))
  {
    var once := Shared(Some(Delivery(Failed, 3, 3)), 1, map[], 3, 3);
    var twice := Shared(Some(Delivery(Failed, 3, 6)), 2, map[], 6, 3);
    var thrice := Shared(Some(Delivery(DeadLettered, 3, 9)), 3, map[], 9, 3);
    var died := Shared(None, 0, map[], 0, 3);
    assert ReceiptOf(REFUSALS) == Receipt(Failed, 3);
    assert IsRun(thrice, []);
    NotifiesAlone(twice, []);
    var third := [Look(0)] + ([Post(0, REFUSALS)] + ([Store(0)] + []));
    NotifiesAlone(once, third);
    var second := [Look(0)] + ([Post(0, REFUSALS)] + ([Store(0)] + third));
    NotifiesAlone(died, second);
    var first := [Look(0)] + ([Post(0, REFUSALS)] + ([Store(0)] + second));
    var a := Apply(START, Look(0));
    assert Apply(a, Die(0, 3)) == died;
    RunsOn(a, Die(0, 3), first);
    RunsOn(START, Look(0), [Die(0, 3)] + first);
    steps := [Look(0)] + ([Die(0, 3)] + first);
  }

  /** Overlapping notifiers also take a delivery back: it is recorded, then overwritten by a
      failure, and the event is sent again. */
  lemma OverlapUndoesDelivery() returns (before: seq<Step>, last: Step)
    ensures IsRun(START, before) && Settled(After(START, before).delivery)
    ensures IsRun(START, before + [last]) && !Settled(After(START, before + [last]).delivery)
  {
    var a := Apply(START, Look(0));
    var b := Apply(a, Look(1));
    var c := Apply(b, Post(0, SUCCESS));
    var d := Apply(c, Post(1, REFUSALS));
    var e := Apply(d, Store(0));
    assert d.flights
        == map[0 := Posted(None, 0, Receipt(Delivered, 1), 1), 1 := Posted(None, 0, Receipt(Failed, 3), 3)];
    assert e.delivery == Some(Delivery(Delivered, 1, 1));
    assert Apply(e, Store(1)).delivery == Some(Delivery(Failed, 3, 3));
    last := Store(1);
    before := [Look(0)] + ([Look(1)] + ([Post(0, SUCCESS)] + ([Post(1, REFUSALS)] + ([Store(0)] + []))));
    RunsOn(d, Store(0), []);
    FourSteps(START, Look(0), Look(1), Post(0, SUCCESS), Post(1, REFUSALS), [Store(0)] + []);
    Append(START, before, last);
  }

  lemma FourSteps(o: Shared, a: Step, b: Step, c: Step, d: Step, rest: seq<Step>)
    requires Enabled(o, a) && Enabled(Apply(o, a), b) && Enabled(Apply(Apply(o, a), b), c)
    requires Enabled(Apply(Apply(Apply(o, a), b), c), d)
    requires IsRun(Apply(Apply(Apply(Apply(o, a), b), c), d), rest)
    ensures var steps := [a] + ([b] + ([c] + ([d] + rest)));
            IsRun(o, steps) && After(o, steps) == After(Apply(Apply(Apply(Apply(o, a), b), c), d), rest)
  {
    var p := Apply(o, a);
    var q := Apply(p, b);
    var r := Apply(q, c);
    RunsOn(r, d, rest);
    RunsOn(q, c, [d] + rest);
    RunsOn(p, b, [c] + ([d] + rest));
    RunsOn(o, a, [b] + ([c] + ([d] + rest)));
  }

  /** One notifier at a time, and none dies; a failure is written between two notifications:
      six POSTs are sent and three recorded. */
  lemma ErasureUndercounts() returns (steps: seq<Step>)
    ensures IsRun(START, steps)
    ensures var end := After(START, steps);
            end.flights == map[] && end.lost == 0 && Sent(end) == 6 && Attempts(end.delivery) == 3
  {
    var erased := Shared(None, 2, map[], 3, 0);
    var a := Apply(START, Look(0));
    var b := Apply(a, Post(0, REFUSALS));
    var c := Apply(b, Store(0));
    assert c == Shared(Some(Delivery(Failed, 3, 3)), 1, map[], 3, 0) && Apply(c, Erase) == erased;
    var again := [Look(0)] + ([Post(0, REFUSALS)] + ([Store(0)] + []));
    NotifiesAlone(erased, []);
    FourSteps(START, Look(0), Post(0, REFUSALS), Store(0), Erase, again);
    steps := [Look(0)] + ([Post(0, REFUSALS)] + ([Store(0)] + ([Erase] + again)));
  }

  /** With one notifier at a time a delivery is undone, too, and the event can be sent again. */
  lemma ErasureUndoesDelivery() returns (before: seq<Step>)
    ensures IsRun(START, before) && Settled(After(START, before).delivery)
    ensures IsRun(START, before + [Erase]) && Enabled(After(START, before + [Erase]), Look(0))
  {
    var a := Apply(START, Look(0));
    var b := Apply(a, Post(0, SUCCESS));
    var c := Apply(b, Store(0));
    assert c == Shared(Some(Delivery(Delivered, 1, 1)), 1, map[], 1, 0);
    before := [Look(0)] + ([Post(0, SUCCESS)] + ([Store(0)] + []));
    RunsOn(b, Store(0), []);
    RunsOn(a, Post(0, SUCCESS), [Store(0)] + []);
    RunsOn(START, Look(0), [Post(0, SUCCESS)] + ([Store(0)] + []));
    Append(START, before, Erase);
  }
}
