/**
 The size-aware scheduler of corpus scans: first-fit placement under a capacity, then a
 poll of the child processes against their deadlines.

 What a child does and how fast the clock runs is left open: every poll may find a child
 still running or exited, and every reading of the clock may lie at or after the last.
 Time is counted in ticks of the 50 millisecond sleep.
 */
module CorpusScheduler {
  import opened Options

  const LARGE_ARTIFACT_BYTES: nat := 8 * 1024 * 1024
  const VERY_LARGE_ARTIFACT_BYTES: nat := 32 * 1024 * 1024

  /** The scheduling units that an artifact can weigh. */
  type Units = w: Load | w != 3 witness 1

  /** A weight between the least and the greatest of them. */
  type Load = w: nat | 1 <= w <= 4 witness 1

  /** The weight of an artifact; one whose size cannot be read counts as very large. */
  function WorkUnits(size: Option<nat>): (r: Units)
    ensures r == 4 <==> size.None? || size.value >= 33_554_432
    ensures r == 1 <==> size.Some? && size.value < 8_388_608
  {
    if size.None? then 4
    else if size.value >= VERY_LARGE_ARTIFACT_BYTES then 4
    else if size.value >= LARGE_ARTIFACT_BYTES then 2
    else 1
  }

  lemma WorkUnitsMonotone(a: nat, b: nat)
    requires a <= b
    ensures WorkUnits(Some(a)) <= WorkUnits(Some(b)) <= WorkUnits(None)
  {
  }

  /** One pending artifact.  `rejected` says that its manifest preflight fails, so that it
      is recorded without a child process. */
  datatype Item = Item(index: nat, weight: Load, rejected: bool)

  /** A child process, with the reading of the clock at its start. */
  datatype Child = Child(item: Item, started: nat, deadline: nat)

  /** How a result came about. */
  datatype Source = Preflight | Timeout | Exit

  datatype Entry = Entry(index: nat, source: Source)

  function Weight(items: seq<Item>): nat {
    if items == [] then 0 else items[0].weight + Weight(items[1..])
  }

  function Items(running: seq<Child>): (r: seq<Item>)
    ensures |r| == |running|
  {
    if running == [] then [] else [running[0].item] + Items(running[1..])
  }

  lemma {:induction false} ItemsAppend(a: seq<Child>, b: seq<Child>)
    ensures Items(a + b) == Items(a) + Items(b)
  {
    if a == [] {
      assert a + b == b;
    } else {
      assert (a + b)[1..] == a[1..] + b;
      ItemsAppend(a[1..], b);
    }
  }

  function MaxWeight(work: seq<Item>): nat {
    if work == [] then 0
    else if work[0].weight >= MaxWeight(work[1..]) then work[0].weight
    else MaxWeight(work[1..])
  }

  lemma {:induction false} MaxWeightIs(work: seq<Item>)
    ensures forall x :: x in work ==> x.weight <= MaxWeight(work)
    ensures work != [] ==> exists x :: x in work && x.weight == MaxWeight(work)
  {
    if work != [] {
      assert work == [work[0]] + work[1..];
      assert work[0] in work;
      MaxWeightIs(work[1..]);
    }
  }

  function Capacity(jobs: nat, work: seq<Item>): nat {
    if jobs >= MaxWeight(work) then jobs else MaxWeight(work)
  }

  /** The capacity is what was asked for, or the heaviest artifact where that weighs more. */
  ghost predicate IsCapacity(capacity: nat, jobs: nat, work: seq<Item>) {
    if forall x :: x in work ==> x.weight <= jobs then capacity == jobs
    else (exists x :: x in work && x.weight == capacity) && forall x :: x in work ==> x.weight <= capacity
  }

  lemma CapacityExact(jobs: nat, work: seq<Item>)
    ensures IsCapacity(Capacity(jobs, work), jobs, work)
  {
    MaxWeightIs(work);
  }

  // ----- Placement

  function FirstFit(queue: seq<Item>, free: nat): (r: Option<nat>)
    ensures r.Some? ==> r.value < |queue| && queue[r.value].weight <= free
  {
    if queue == [] then None
    else if queue[0].weight <= free then Some(0)
    else
      var r := FirstFit(queue[1..], free);
      if r.None? then None else Some(r.value + 1)
  }

  lemma {:induction false} FirstFitIsFirst(queue: seq<Item>, free: nat, k: nat)
    requires k < |queue|
    ensures FirstFit(queue, free).None? || k < FirstFit(queue, free).value ==> queue[k].weight > free
  {
    if k > 0 {
      FirstFitIsFirst(queue[1..], free, k - 1);
    }
  }

  function Without<T>(s: seq<T>, k: nat): (r: seq<T>)
    requires k < |s|
    ensures |r| == |s| - 1
  {
    s[..k] + s[k + 1..]
  }

  /** How often an item occurs. */
  ghost function Times(x: Item, s: seq<Item>): nat {
    if s == [] then 0 else (if s[0] == x then 1 else 0) + Times(x, s[1..])
  }

  lemma {:induction false} TimesAppend(x: Item, a: seq<Item>, b: seq<Item>)
    ensures Times(x, a + b) == Times(x, a) + Times(x, b)
  {
    if a == [] {
      assert a + b == b;
    } else {
      assert (a + b)[1..] == a[1..] + b;
      TimesAppend(x, a[1..], b);
    }
  }

  lemma {:induction false} TimesCounts(x: Item, s: seq<Item>)
    ensures Times(x, s) == multiset(s)[x]
    ensures Times(x, s) > 0 <==> x in s
  {
    if s != [] {
      assert s == [s[0]] + s[1..];
      TimesCounts(x, s[1..]);
    }
  }

  lemma TimesWithout(x: Item, s: seq<Item>, k: nat)
    requires k < |s|
    ensures Times(x, s) == Times(x, [s[k]]) + Times(x, Without(s, k))
  {
    assert s == s[..k] + ([s[k]] + s[k + 1..]);
    TimesAppend(x, s[..k], [s[k]] + s[k + 1..]);
    TimesAppend(x, [s[k]], s[k + 1..]);
    TimesAppend(x, s[..k], s[k + 1..]);
  }

  /** What one placement does with the queue: what stays, what starts, what is turned
      down by its preflight, the last two in the order they were taken. */
  datatype Placement = Placement(left: seq<Item>, started: seq<Item>, rejected: seq<Item>)

  function Starting(item: Item, p: Placement): Placement {
    Placement(p.left, [item] + p.started, p.rejected)
  }

  function Rejecting(item: Item, p: Placement): Placement {
    Placement(p.left, p.started, [item] + p.rejected)
  }

  function Place(queue: seq<Item>, free: nat): Placement
    decreases |queue|
  {
    var fit := FirstFit(queue, free);
    if fit.None? then Placement(queue, [], [])
    else
      var item := queue[fit.value];
      if item.rejected then Rejecting(item, Place(Without(queue, fit.value), free))
      else Starting(item, Place(Without(queue, fit.value), free - item.weight))
  }

  /** How often an item occurs in a placement. */
  ghost function TimesIn(x: Item, p: Placement): nat {
    Times(x, p.left) + Times(x, p.started) + Times(x, p.rejected)
  }

  ghost function SizeOf(p: Placement): nat {
    |p.left| + |p.started| + |p.rejected|
  }

  lemma TakenIsCounted(x: Item, queue: seq<Item>, k: nat, p: Placement)
    requires k < |queue| && TimesIn(x, p) == Times(x, Without(queue, k))
    ensures TimesIn(x, Rejecting(queue[k], p)) == Times(x, queue)
    ensures TimesIn(x, Starting(queue[k], p)) == Times(x, queue)
  {
    TimesWithout(x, queue, k);
    TimesAppend(x, [queue[k]], p.rejected);
    TimesAppend(x, [queue[k]], p.started);
  }

  /** The first step of a placement. */
  lemma PlaceStep(queue: seq<Item>, free: nat, k: nat)
    requires FirstFit(queue, free) == Some(k)
    ensures k < |queue|
    ensures queue[k].rejected ==> Place(queue, free) == Rejecting(queue[k], Place(Without(queue, k), free))
    ensures !queue[k].rejected ==>
              && queue[k].weight <= free
              && Place(queue, free) == Starting(queue[k], Place(Without(queue, k), free - queue[k].weight))
  {
  }

  lemma {:induction false} PlaceKeepsSize(queue: seq<Item>, free: nat)
    ensures SizeOf(Place(queue, free)) == |queue|
    decreases |queue|
  {
    var fit := FirstFit(queue, free);
    if fit.Some? {
      var item, rest := queue[fit.value], Without(queue, fit.value);
      PlaceKeepsSize(rest, if item.rejected then free else free - item.weight);
    }
  }

  /** Placement loses nothing... */
  lemma {:induction false} PlaceConserves(x: Item, queue: seq<Item>, free: nat)
    ensures TimesIn(x, Place(queue, free)) == Times(x, queue)
    decreases |queue|
  {
    var fit := FirstFit(queue, free);
    if fit.Some? {
      var item, rest := queue[fit.value], Without(queue, fit.value);
      PlaceStep(queue, free, fit.value);
      if item.rejected {
        PlaceConserves(x, rest, free);
        TakenIsCounted(x, queue, fit.value, Place(rest, free));
      } else {
        PlaceConserves(x, rest, free - item.weight);
        TakenIsCounted(x, queue, fit.value, Place(rest, free - item.weight));
      }
    } else {
      assert Place(queue, free) == Placement(queue, [], []);
    }
  }

  /** ...and sorts what it takes by the preflight. */
  lemma {:induction false} PlaceSorts(queue: seq<Item>, free: nat)
    ensures forall x :: x in Place(queue, free).started ==> !x.rejected
    ensures forall x :: x in Place(queue, free).rejected ==> x.rejected
    decreases |queue|
  {
    var fit := FirstFit(queue, free);
    if fit.Some? {
      var item := queue[fit.value];
      PlaceSorts(Without(queue, fit.value), if item.rejected then free else free - item.weight);
    }
  }

  lemma StartingWeighs(item: Item, p: Placement)
    ensures Weight(Starting(item, p).started) == item.weight + Weight(p.started)
    ensures Weight(Rejecting(item, p).started) == Weight(p.started)
  {
    WeightOfFirst(item, p.started);
  }

  lemma {:induction false} PlaceStaysWithin(queue: seq<Item>, free: nat)
    ensures Weight(Place(queue, free).started) <= free
    decreases |queue|
  {
    var fit := FirstFit(queue, free);
    if fit.Some? {
      var item, rest := queue[fit.value], Without(queue, fit.value);
      var free' := if item.rejected then free else free - item.weight;
      PlaceStep(queue, free, fit.value);
      PlaceStaysWithin(rest, free');
      StartingWeighs(item, Place(rest, free'));
    } else {
      assert Place(queue, free) == Placement(queue, [], []);
    }
  }

  /** Nothing that is left fits into what is still free. */
  ghost predicate LeavesNoFit(p: Placement, free: int) {
    forall x :: x in p.left ==> x.weight > free - Weight(p.started)
  }

  lemma StartingLeavesNoFit(p: Placement, item: Item, free: int)
    requires LeavesNoFit(p, free - item.weight)
    ensures LeavesNoFit(Starting(item, p), free)
  {
    StartingWeighs(item, p);
  }

  lemma RejectingLeavesNoFit(p: Placement, item: Item, free: int)
    requires LeavesNoFit(p, free)
    ensures LeavesNoFit(Rejecting(item, p), free)
  {
    assert Rejecting(item, p).started == p.started && Rejecting(item, p).left == p.left;
  }

  lemma StoppingLeavesNoFit(queue: seq<Item>, free: nat)
    requires FirstFit(queue, free).None?
    ensures LeavesNoFit(Placement(queue, [], []), free)
  {
    NothingFits(queue, free);
  }

  lemma {:induction false} PlaceLeavesNoFit(queue: seq<Item>, free: nat)
    ensures LeavesNoFit(Place(queue, free), free)
    decreases |queue|
  {
    var fit := FirstFit(queue, free);
    if fit.None? {
      StoppingLeavesNoFit(queue, free);
      assert Place(queue, free) == Placement(queue, [], []);
    } else {
      var item, rest := queue[fit.value], Without(queue, fit.value);
      PlaceStep(queue, free, fit.value);
      if item.rejected {
        PlaceLeavesNoFit(rest, free);
        RejectingLeavesNoFit(Place(rest, free), item, free);
      } else {
        PlaceLeavesNoFit(rest, free - item.weight);
        StartingLeavesNoFit(Place(rest, free - item.weight), item, free);
      }
    }
  }

  /** It starts no more than the free units carry, and stops only when nothing that is
      left in the queue would fit. */
  lemma PlaceFills(queue: seq<Item>, free: nat)
    ensures var p := Place(queue, free);
            && Weight(p.started) <= free
            && (forall x :: x in p.left ==> x.weight > free - Weight(p.started))
  {
    PlaceStaysWithin(queue, free);
    PlaceLeavesNoFit(queue, free);
  }

  lemma WeightOfFirst(item: Item, rest: seq<Item>)
    ensures Weight([item] + rest) == item.weight + Weight(rest)
  {
    assert ([item] + rest)[1..] == rest;
  }

  lemma NothingFits(queue: seq<Item>, free: nat)
    requires FirstFit(queue, free).None?
    ensures forall x :: x in queue ==> x.weight > free
  {
    forall x | x in queue
      ensures x.weight > free
    {
      var k :| 0 <= k < |queue| && queue[k] == x;
      FirstFitIsFirst(queue, free, k);
    }
  }

  /** With every unit free, a queue either starts something or is turned down whole. */
  lemma {:induction false} IdlePlacement(queue: seq<Item>, free: nat)
    requires forall x :: x in queue ==> x.weight <= free
    ensures var p := Place(queue, free);
            && (p.started == [] <==> forall x :: x in queue ==> x.rejected)
            && (p.started == [] ==> p.left == [] && |p.rejected| == |queue|)
    decreases |queue|
  {
    PlaceSorts(queue, free);
    if queue != [] {
      assert queue[0] in queue;
      FirstFitIsFirst(queue, free, 0);
    }
    var fit := FirstFit(queue, free);
    if fit.Some? {
      var item, rest := queue[fit.value], Without(queue, fit.value);
      assert queue == queue[..fit.value] + [item] + queue[fit.value + 1..];
      assert forall x :: x in queue <==> x == item || x in rest;
      if item.rejected {
        IdlePlacement(rest, free);
      }
    }
  }

  // ----- How many processes

  lemma {:induction false} CountWithinWeight(items: seq<Item>)
    ensures |items| <= Weight(items)
  {
    if items != [] {
      CountWithinWeight(items[1..]);
    }
  }

  /** So many single-unit artifacts, numbered from `first` on. */
  function Singles(first: nat, n: nat): (r: seq<Item>)
    ensures |r| == n && forall k :: 0 <= k < n ==> r[k] == Item(first + k, 1, false)
    decreases n
  {
    if n == 0 then [] else [Item(first, 1, false)] + Singles(first + 1, n - 1)
  }

  lemma {:induction false} SinglesFill(first: nat, n: nat, heavy: Item)
    ensures Place(Singles(first, n) + [heavy], n).started == Singles(first, n)
    decreases n
  {
    var queue := Singles(first, n) + [heavy];
    if n > 0 {
      assert Without(queue, 0) == Singles(first + 1, n - 1) + [heavy];
      SinglesFill(first + 1, n - 1, heavy);
    } else {
      assert queue == [heavy];
    }
  }

  /** Whether the preflight lets any artifact through. */
  ghost predicate NeedsChild(items: seq<Item>) {
    exists x :: x in items && !x.rejected
  }

  lemma NeedsChildAppend(items: seq<Item>, item: Item)
    ensures NeedsChild(items + [item]) <==> NeedsChild(items) || !item.rejected
  {
    assert item in items + [item];
  }

  /** How many children a scan of a cohort has at once before any has ended: a serial scan
      has one, a parallel one those that it places first. */
  ghost function AtOnce(jobs: nat, work: seq<Item>): nat {
    if jobs == 1 then (if NeedsChild(work) then 1 else 0)
    else |Place(work, Capacity(jobs, work)).started|
  }

  lemma AtOnceWithin(jobs: nat, work: seq<Item>)
    requires jobs >= 1
    ensures AtOnce(jobs, work) <= if jobs == 1 then 1 else Capacity(jobs, work)
  {
    PlaceFills(work, Capacity(jobs, work));
    CountWithinWeight(Place(work, Capacity(jobs, work)).started);
  }

  /** Every cohort of artifacts with a given heaviest weight has at most `jobs` children at
      once. */
  ghost predicate Bounds(jobs: nat, heaviest: Units) {
    forall work :: AscendingIndices(work) && MaxWeight(work) == heaviest ==> AtOnce(jobs, work) <= jobs
  }

  lemma LightIsBounded(jobs: nat, heaviest: Units)
    requires jobs == 1 || heaviest <= jobs
    requires jobs >= 1
    ensures Bounds(jobs, heaviest)
  {
    forall work | AscendingIndices(work) && MaxWeight(work) == heaviest ensures AtOnce(jobs, work) <= jobs {
      AtOnceWithin(jobs, work);
    }
  }

  /** Single units enough for the weight of the heavy artifact behind them. */
  function Crowd(heaviest: Units): seq<Item> {
    Singles(0, heaviest) + [Item(heaviest, heaviest, false)]
  }

  lemma CrowdIsHeavy(heaviest: Units)
    ensures MaxWeight(Crowd(heaviest)) == heaviest && AscendingIndices(Crowd(heaviest))
  {
    var work := Crowd(heaviest);
    assert forall k :: 0 <= k < |work| ==> work[k].index == k && work[k].weight <= heaviest;
    assert work[heaviest].weight == heaviest && work[heaviest] in work;
    MaxWeightIs(work);
  }

  lemma HeavyIsNot(jobs: nat, heaviest: Units)
    requires jobs > 1 && heaviest > jobs
    ensures !Bounds(jobs, heaviest)
  {
    CrowdIsHeavy(heaviest);
    SinglesFill(0, heaviest, Item(heaviest, heaviest, false));
    assert AtOnce(jobs, Crowd(heaviest)) == heaviest;
  }

  /** `jobs` bounds the number of children, for every cohort with a given heaviest weight,
      exactly when it is one or that weight is not above it: otherwise a cohort of single-unit
      artifacts with one heavy artifact behind them has more children at once. */
  lemma JobsBoundExact(jobs: nat, heaviest: Units)
    requires jobs >= 1
    ensures Bounds(jobs, heaviest) <==> jobs == 1 || heaviest <= jobs
  {
    if jobs == 1 || heaviest <= jobs {
      LightIsBounded(jobs, heaviest);
    } else {
      HeavyIsNot(jobs, heaviest);
    }
  }

  /** With the weights there are, that fails for two or three jobs and a very large artifact,
      and never else. */
  lemma JobsBoundFails(jobs: nat, heaviest: Units)
    requires jobs >= 1
    ensures !Bounds(jobs, heaviest) <==> heaviest == 4 && (jobs == 2 || jobs == 3)
  {
    JobsBoundExact(jobs, heaviest);
  }

  // ----- The scheduler

  lemma {:induction false} WeightAppend(a: seq<Item>, b: seq<Item>)
    ensures Weight(a + b) == Weight(a) + Weight(b)
  {
    if a == [] {
      assert a + b == b;
    } else {
      assert (a + b)[1..] == a[1..] + b;
      WeightAppend(a[1..], b);
    }
  }

  /** How long the children can still run, added up. */
  ghost function Slack(running: seq<Child>, now: nat): nat {
    if running == [] then 0
    else (if running[0].deadline > now then running[0].deadline - now else 0) + Slack(running[1..], now)
  }

  /** Time that passes while every child is within its deadline takes slack away. */
  lemma {:induction false} SlackDrops(running: seq<Child>, start: nat, now: nat, later: nat)
    requires start <= now < later && forall c :: c in running ==> now < c.deadline
    ensures Slack(running, later) <= Slack(running, start)
    ensures running != [] ==> Slack(running, later) < Slack(running, start)
  {
    if running != [] {
      assert running == [running[0]] + running[1..];
      SlackDrops(running[1..], start, now, later);
    }
  }

  /** The entries stand for exactly the items, in the same order; a preflight entry is
      one of a rejected item. */
  ghost predicate Recorded(entries: seq<Entry>, items: seq<Item>) {
    && |entries| == |items|
    && forall i :: 0 <= i < |items| ==>
                     entries[i].index == items[i].index && (entries[i].source == Preflight <==> items[i].rejected)
  }

  lemma LastRecorded(entries: seq<Entry>, items: seq<Item>)
    requires Recorded(entries, items)
    ensures items != [] && items[|items| - 1].rejected ==>
              entries != [] && entries[|entries| - 1].source == Preflight
  {
  }

  lemma OnlyLonger<T>(before: seq<T>, after: seq<T>)
    requires before <= after
    ensures |after| == |before| ==> after == before
  {
  }

  lemma StartedItems(running: seq<Child>, child: Child)
    ensures Items(running + [child]) == Items(running) + [child.item]
    ensures Weight(Items(running + [child])) == Weight(Items(running)) + child.item.weight
  {
    ItemsAppend(running, [child]);
    WeightAppend(Items(running), [child.item]);
  }

  /** `whole` is what was taken so far followed by what `rest` still takes. */
  ghost predicate Follows(whole: Placement, started: seq<Item>, rejected: seq<Item>, rest: Placement) {
    whole == Placement(rest.left, started + rest.started, rejected + rest.rejected)
  }

  lemma ConcatAssociates<T>(a: seq<T>, b: seq<T>, c: seq<T>)
    ensures (a + b) + c == a + (b + c)
  {
  }

  lemma FollowsStart(whole: Placement)
    ensures Follows(whole, [], [], whole)
  {
  }

  lemma FollowsEnd(whole: Placement, started: seq<Item>, rejected: seq<Item>, queue: seq<Item>, free: nat)
    requires Follows(whole, started, rejected, Place(queue, free)) && FirstFit(queue, free).None?
    ensures whole == Placement(queue, started, rejected)
  {
    assert started + [] == started && rejected + [] == rejected;
  }

  /** What placing an artifact starts, and what it turns down. */
  function StartedBy(item: Item): seq<Item> {
    if item.rejected then [] else [item]
  }

  function RejectedBy(item: Item): seq<Item> {
    if item.rejected then [item] else []
  }

  lemma FollowsTaken(whole: Placement, started: seq<Item>, rejected: seq<Item>, item: Item, next: Placement)
    requires if item.rejected then Follows(whole, started, rejected, Rejecting(item, next))
             else Follows(whole, started, rejected, Starting(item, next))
    ensures Follows(whole, started + StartedBy(item), rejected + RejectedBy(item), next)
  {
    if item.rejected {
      ConcatAssociates(rejected, [item], next.rejected);
    } else {
      ConcatAssociates(started, [item], next.started);
    }
    assert started + [] == started && rejected + [] == rejected;
  }

  lemma FollowsStep(whole: Placement, started: seq<Item>, rejected: seq<Item>, queue: seq<Item>, free: nat,
                    item: Item, queue': seq<Item>, free': nat)
    requires Follows(whole, started, rejected, Place(queue, free)) && FirstFit(queue, free).Some?
    requires item == queue[FirstFit(queue, free).value] && queue' == Without(queue, FirstFit(queue, free).value)
    requires free' == if item.rejected then free else free - item.weight
    ensures Follows(whole, started + StartedBy(item), rejected + RejectedBy(item), Place(queue', free'))
  {
    FollowsTaken(whole, started, rejected, item, Place(queue', free'));
  }

  /** Every artifact is waiting, with a child, or settled. */
  ghost predicate Accounted(queue: seq<Item>, children: seq<Item>, settled: seq<Item>, work: seq<Item>) {
    forall x :: Times(x, work) == Times(x, queue) + Times(x, children) + Times(x, settled)
  }

  lemma PlacementAccounted(queue: seq<Item>, free: nat, children: seq<Item>, settled: seq<Item>, work: seq<Item>)
    requires Accounted(queue, children, settled, work)
    ensures var p := Place(queue, free);
            Accounted(p.left, children + p.started, settled + p.rejected, work) && SizeOf(p) == |queue|
  {
    var p := Place(queue, free);
    forall x
      ensures Times(x, work) == Times(x, p.left) + Times(x, children + p.started) + Times(x, settled + p.rejected)
    {
      PlaceConserves(x, queue, free);
      TimesAppend(x, children, p.started);
      TimesAppend(x, settled, p.rejected);
    }
    PlaceKeepsSize(queue, free);
  }

  lemma CollectedItems(kept: seq<Child>, child: Child, rest: seq<Child>)
    ensures Items(kept + [child] + rest) == Items(kept) + [child.item] + Items(rest)
    ensures Items(kept + rest) == Items(kept) + Items(rest)
  {
    ItemsAppend(kept + [child], rest);
    ItemsAppend(kept, [child]);
    ItemsAppend(kept, rest);
  }

  lemma CollectedWeight(kept: seq<Child>, child: Child, rest: seq<Child>)
    ensures Weight(Items(kept + [child] + rest)) == Weight(Items(kept + rest)) + child.item.weight
  {
    var a, b := Items(kept), Items(rest);
    CollectedItems(kept, child, rest);
    WeightAppend(a + [child.item], b);
    WeightAppend(a, [child.item]);
    WeightAppend(a, b);
  }

  lemma CollectedAccounted(queue: seq<Item>, kept: seq<Child>, child: Child, rest: seq<Child>, settled: seq<Item>,
                           work: seq<Item>)
    requires Accounted(queue, Items(kept + [child] + rest), settled, work)
    ensures Accounted(queue, Items(kept + rest), settled + [child.item], work)
  {
    CollectedItems(kept, child, rest);
    forall x
      ensures Times(x, work) == Times(x, queue) + Times(x, Items(kept + rest)) + Times(x, settled + [child.item])
    {
      TimesAppend(x, Items(kept) + [child.item], Items(rest));
      TimesAppend(x, Items(kept), [child.item]);
      TimesAppend(x, Items(kept), Items(rest));
      TimesAppend(x, settled, [child.item]);
    }
  }

  lemma AllSettled(settled: seq<Item>, work: seq<Item>)
    requires Accounted([], [], settled, work)
    ensures multiset(settled) == multiset(work)
  {
    forall x
      ensures multiset(settled)[x] == multiset(work)[x]
    {
      TimesCounts(x, settled);
      TimesCounts(x, work);
    }
  }

  lemma SettledAreWork(settled: seq<Item>, work: seq<Item>)
    requires multiset(settled) == multiset(work)
    ensures forall x :: x in settled <==> x in work
  {
    forall x
      ensures x in settled <==> x in work
    {
      TimesCounts(x, settled);
      TimesCounts(x, work);
    }
  }

  /** With nothing running, a placement starts nothing exactly when all that waits is
      rejected; it is all recorded then. */
  lemma IdlePass(queue: seq<Item>, settled: seq<Item>, work: seq<Item>, jobs: nat)
    requires Accounted(queue, [], settled, work) && queue != []
    ensures var p := Place(queue, Capacity(jobs, work));
            && (p.started == [] <==> forall x :: x in queue ==> x.rejected)
            && (p.started == [] ==>
                  p.left == [] && p.rejected != [] && (settled + p.rejected)[|settled + p.rejected| - 1].rejected)
  {
    var p := Place(queue, Capacity(jobs, work));
    MaxWeightIs(work);
    forall x | x in queue
      ensures x.weight <= Capacity(jobs, work)
    {
      TimesCounts(x, queue);
      TimesCounts(x, work);
    }
    IdlePlacement(queue, Capacity(jobs, work));
    PlaceSorts(queue, Capacity(jobs, work));
    assert p.rejected != [] ==> p.rejected[|p.rejected| - 1] in p.rejected;
  }

  /** A placement moves `p.started` from the queue to the children and `p.rejected` to the
      settled artifacts. */
  ghost predicate Moved(p: Placement, queue: seq<Item>, running: seq<Child>, settled: seq<Item>,
                        queue': seq<Item>, running': seq<Child>, settled': seq<Item>)
  {
    && SizeOf(p) == |queue| && queue' == p.left && running <= running'
    && Items(running') == Items(running) + p.started && settled' == settled + p.rejected
  }

  /** Either something moves, or the children are those there were. */
  lemma MovedCounts(p: Placement, queue: seq<Item>, running: seq<Child>, settled: seq<Item>,
                    queue': seq<Item>, running': seq<Child>, settled': seq<Item>)
    requires Moved(p, queue, running, settled, queue', running', settled')
    ensures |running'| == |running| + |p.started|
    ensures 2 * |queue'| + |running'| <= 2 * |queue| + |running|
    ensures 2 * |queue'| + |running'| == 2 * |queue| + |running| ==> running' == running
  {
    assert |running'| == |Items(running')| == |Items(running)| + |p.started|;
    OnlyLonger(running, running');
  }

  /** A placement leaves nothing running exactly when nothing ran and all is rejected. */
  lemma PassMeans(p: Placement, free: nat, jobs: nat, work: seq<Item>,
                  queue: seq<Item>, running: seq<Child>, settled: seq<Item>,
                  queue': seq<Item>, running': seq<Child>, settled': seq<Item>)
    requires p == Place(queue, free) && (running == [] ==> free == Capacity(jobs, work))
    requires Accounted(queue, Items(running), settled, work) && (queue != [] || running != [])
    requires Moved(p, queue, running, settled, queue', running', settled')
    ensures running' == [] <==> running == [] && forall x :: x in queue ==> x.rejected
    ensures running' == [] ==> queue' == [] && settled' != [] && settled'[|settled'| - 1].rejected
  {
    MovedCounts(p, queue, running, settled, queue', running', settled');
    if running == [] {
      IdlePass(queue, settled, work, jobs);
      assert running' == [] <==> p.started == [];
    }
  }

  // ----- One poll

  /** What a poll has done with the first `n` children at a reading of the clock: one that has
      not exited and is within its deadline stays, and any other is recorded, as an exit if it
      has exited and as a timeout if it has not; both in the order of the children. */
  ghost predicate Polled(children: seq<Child>, exited: seq<bool>, now: nat, n: nat, left: seq<Child>,
                         entries: seq<Entry>)
    requires n <= |children| == |exited|
  {
    if n == 0 then left == [] && entries == []
    else
      var child := children[n - 1];
      if exited[n - 1] || now >= child.deadline then
        && entries != []
        && entries[|entries| - 1] == Entry(child.item.index, if exited[n - 1] then Exit else Timeout)
        && Polled(children, exited, now, n - 1, left, entries[..|entries| - 1])
      else
        && left != [] && left[|left| - 1] == child
        && Polled(children, exited, now, n - 1, left[..|left| - 1], entries)
  }

  /** The children that are left are within their deadlines, the others were recorded, the last
      not as a preflight, and with none taken out nothing has changed. */
  lemma {:induction false} PolledMeans(children: seq<Child>, exited: seq<bool>, now: nat, n: nat, left: seq<Child>,
                                       entries: seq<Entry>)
    requires n <= |children| == |exited| && Polled(children, exited, now, n, left, entries)
    ensures forall c :: c in left ==> now < c.deadline
    ensures |left| + |entries| == n && (entries == [] ==> left == children[..n])
    ensures entries != [] ==> entries[|entries| - 1].source != Preflight
  {
    if n > 0 {
      var child := children[n - 1];
      if exited[n - 1] || now >= child.deadline {
        PolledMeans(children, exited, now, n - 1, left, entries[..|entries| - 1]);
      } else {
        PolledMeans(children, exited, now, n - 1, left[..|left| - 1], entries);
        assert left == left[..|left| - 1] + [child];
      }
    }
  }

  lemma PolledNext(children: seq<Child>, exited: seq<bool>, now: nat, n: nat, left: seq<Child>, entries: seq<Entry>)
    requires n < |children| == |exited| && Polled(children, exited, now, n, left, entries)
    ensures var child := children[n];
            if exited[n] || now >= child.deadline then
              Polled(children, exited, now, n + 1, left,
                     entries + [Entry(child.item.index, if exited[n] then Exit else Timeout)])
            else Polled(children, exited, now, n + 1, left + [child], entries)
  {
    var entry := Entry(children[n].item.index, if exited[n] then Exit else Timeout);
    assert (entries + [entry])[..|entries|] == entries && (left + [children[n]])[..|left|] == left;
  }

  /** When the child behind a result started, and when it was taken out. */
  datatype Span = Span(from: nat, to: nat)

  /** No child is recorded as timed out before it has had its time. */
  ghost predicate HadTime(entries: seq<Entry>, spans: seq<Span>, timeout: nat) {
    && |spans| == |entries|
    && forall i :: 0 <= i < |entries| && entries[i].source == Timeout ==> spans[i].from + timeout <= spans[i].to
  }

  /** The entries of a serial scan of some items, one each, in their order. */
  ghost predicate ScannedSerially(entries: seq<Entry>, items: seq<Item>, exited: seq<bool>) {
    && |entries| == |items| <= |exited|
    && forall i :: 0 <= i < |items| ==>
                     && entries[i].index == items[i].index
                     && (entries[i].source == Preflight <==> items[i].rejected)
                     && (entries[i].source == Exit <==> !items[i].rejected && exited[i])
  }

  lemma ScannedNext(entries: seq<Entry>, items: seq<Item>, exited: seq<bool>, item: Item)
    requires ScannedSerially(entries, items, exited) && |items| < |exited|
    ensures var source := if item.rejected then Preflight else if exited[|items|] then Exit else Timeout;
            ScannedSerially(entries + [Entry(item.index, source)], items + [item], exited)
  {
  }

  datatype Outcome = Finished | CouldNotPlace

  class PendingScan {
    const jobs: nat
    const timeout: nat
    const work: seq<Item>
    const capacity: nat
    var now: nat
    var queue: seq<Item>
    var running: seq<Child>
    var runningUnits: nat
    var recorded: seq<Entry>
    /** The items of `recorded`. */
    ghost var settled: seq<Item>
    /** When their children ran. */
    ghost var spans: seq<Span>
    /** The most children there have been at once. */
    ghost var peak: nat

    /** The units in use are those of the children and within the capacity. */
    ghost predicate Valid()
      reads this
    {
      && capacity == Capacity(jobs, work)
      && runningUnits == Weight(Items(running)) <= capacity
      && jobs >= 1 && |running| <= peak <= capacity
      && Recorded(recorded, settled) && HadTime(recorded, spans, timeout)
      && (forall c :: c in running ==> !c.item.rejected && c.deadline == c.started + timeout)
    }

    constructor (jobs: nat, timeout: nat, work: seq<Item>)
      requires jobs >= 1
      ensures Valid() && peak == 0 && this.jobs == jobs && this.timeout == timeout && this.work == work
      ensures IsCapacity(capacity, jobs, work)
      ensures queue == work && running == [] && recorded == [] && settled == []
    {
      this.jobs, this.timeout, this.work, capacity := jobs, timeout, work, Capacity(jobs, work);
      now, queue, running, runningUnits, recorded, settled, spans, peak := 0, work, [], 0, [], [], [], 0;
      CapacityExact(jobs, work);
    }

    /** Reading the clock. */
    method ReadClock()
      modifies this`now
      ensures now >= old(now)
    {
      var later: nat :| later >= now;
      now := later;
    }

    method Sleep()
      modifies this`now
      ensures now > old(now)
    {
      ReadClock();
      now := now + 1;
    }

    /** Waits for a child until its time is up. */
    method WaitUntil(deadline: nat)
      modifies this`now
      ensures now >= old(now) && now >= deadline
    {
      ReadClock();
      now := if now < deadline then deadline else now;
    }

    method RecordResult(ghost item: Item, ghost from: nat, index: nat, source: Source)
      requires index == item.index && (source == Preflight <==> item.rejected)
      requires Recorded(recorded, settled) && HadTime(recorded, spans, timeout)
      requires source == Timeout ==> from + timeout <= now
      modifies this`recorded, this`settled, this`spans
      ensures recorded == old(recorded) + [Entry(index, source)] && settled == old(settled) + [item]
      ensures spans == old(spans) + [Span(from, now)]
      ensures Recorded(recorded, settled) && HadTime(recorded, spans, timeout)
    {
      recorded := recorded + [Entry(index, source)];
      settled := settled + [item];
      spans := spans + [Span(from, now)];
    }

    /** Takes a rejected artifact out of the queue and records it. */
    method TurnDown(k: nat)
      requires Valid() && k < |queue| && queue[k].rejected
      modifies this
      ensures Valid() && now == old(now) && runningUnits == old(runningUnits) && peak == old(peak)
      ensures queue == Without(old(queue), k) && running == old(running) && settled == old(settled) + [old(queue)[k]]
    {
      var item := queue[k];
      queue := Without(queue, k);
      RecordResult(item, now, item.index, Preflight);
    }

    /** Takes an artifact that fits out of the queue and starts its child. */
    method Launch(k: nat)
      requires Valid() && k < |queue| && !queue[k].rejected && queue[k].weight <= capacity - runningUnits
      modifies this
      ensures Valid() && now >= old(now) && runningUnits == old(runningUnits) + old(queue)[k].weight
              && peak >= old(peak)
      ensures queue == Without(old(queue), k) && settled == old(settled)
      ensures running == old(running) + [Child(old(queue)[k], now, now + timeout)]
      ensures Items(running) == old(Items(running)) + [old(queue)[k]]
    {
      var item := queue[k];
      ReadClock();
      StartedItems(running, Child(item, now, now + timeout));
      queue := Without(queue, k);
      running := running + [Child(item, now, now + timeout)];
      runningUnits := runningUnits + item.weight;
      CountWithinWeight(Items(running));
      peak := if |running| > peak then |running| else peak;
    }

    /** Takes an artifact that fits out of the queue and starts it or turns it down. */
    method PlaceOne(k: nat)
      requires Valid() && k < |queue| && (queue[k].rejected || queue[k].weight <= capacity - runningUnits)
      modifies this
      ensures Valid() && now >= old(now) && peak >= old(peak) && old(running) <= running
              && queue == Without(old(queue), k)
      ensures runningUnits == old(runningUnits) + if old(queue)[k].rejected then 0 else old(queue)[k].weight
      ensures Items(running) == old(Items(running)) + StartedBy(old(queue)[k])
              && settled == old(settled) + RejectedBy(old(queue)[k])
    {
      if queue[k].rejected {
        TurnDown(k);
      } else {
        Launch(k);
      }
    }

    /** The placement loop does what `Place` says with the units that are free. */
    method PlaceFitting()
      requires Valid()
      modifies this
      ensures Valid() && now >= old(now) && peak >= old(peak)
      ensures var p := Place(old(queue), capacity - old(runningUnits));
              queue == p.left && Items(running) == old(Items(running)) + p.started
              && settled == old(settled) + p.rejected
      ensures old(running) <= running
    {
      ghost var whole := Place(queue, capacity - runningUnits);
      ghost var started: seq<Item>, rejected: seq<Item>, free := [], [], capacity - runningUnits;
      FollowsStart(whole);
      while queue != []
        invariant Valid() && now >= old(now) && peak >= old(peak) && free == capacity - runningUnits
                  && old(running) <= running
        invariant Items(running) == old(Items(running)) + started && settled == old(settled) + rejected
        invariant Follows(whole, started, rejected, Place(queue, free))
        decreases |queue|
      {
        var fitting := FirstFit(queue, capacity - runningUnits);
        if fitting.None? {
          break;
        }
        ghost var item := queue[fitting.value];
        ghost var queue', free' := Without(queue, fitting.value), if item.rejected then free else free - item.weight;
        FollowsStep(whole, started, rejected, queue, free, item, queue', free');
        ConcatAssociates(old(settled), rejected, RejectedBy(item));
        ConcatAssociates(old(Items(running)), started, StartedBy(item));
        PlaceOne(fitting.value);
        started, rejected, free := started + StartedBy(item), rejected + RejectedBy(item), free';
        assert queue == queue';
      }
      FollowsEnd(whole, started, rejected, queue, free);
    }

    /** Takes a child that is done out of the table and records it. */
    method Collect(kept: seq<Child>, child: Child, rest: seq<Child>, source: Source)
      requires Valid() && running == kept + [child] + rest && source != Preflight
      requires source == Timeout ==> child.deadline <= now
      requires Accounted(queue, Items(running), settled, work)
      modifies this`running, this`runningUnits, this`recorded, this`settled, this`spans
      ensures Valid() && running == kept + rest && Accounted(queue, Items(running), settled, work)
      ensures recorded == old(recorded) + [Entry(child.item.index, source)] && settled == old(settled) + [child.item]
    {
      CollectedWeight(kept, child, rest);
      CollectedAccounted(queue, kept, child, rest, settled, work);
      assert child in running;
      running := kept + rest;
      runningUnits := runningUnits - child.item.weight;
      RecordResult(child.item, child.started, child.item.index, source);
    }

    /** What is known in the middle of a poll: some children have been looked at, and of these
        some are kept and for the others entries were added. */
    ghost predicate Polling(children: seq<Child>, exited: seq<bool>, n: nat, kept: seq<Child>, before: seq<Entry>)
      reads this
    {
      && n <= |children| == |exited| && running == kept + children[n..]
      && before <= recorded && Polled(children, exited, now, n, kept, recorded[|before|..])
    }

    /** One child in a poll: it stays, or is taken out and recorded. */
    method PollOne(children: seq<Child>, exited: seq<bool>, n: nat, kept: seq<Child>, ghost before: seq<Entry>)
      returns (left: seq<Child>)
      requires Valid() && Accounted(queue, Items(running), settled, work)
      requires n < |children| && Polling(children, exited, n, kept, before)
      modifies this`running, this`runningUnits, this`recorded, this`settled, this`spans
      ensures Valid() && Accounted(queue, Items(running), settled, work)
      ensures Polling(children, exited, n + 1, left, before)
    {
      var child, rest := children[n], children[n + 1..];
      var hasExited := exited[n];
      var timedOut := !hasExited && now >= child.deadline;
      ghost var added := recorded[|before|..];
      PolledNext(children, exited, now, n, kept, added);
      assert running == kept + [child] + rest;
      if hasExited || timedOut {
        left := kept;
        Collect(kept, child, rest, if timedOut then Timeout else Exit);
        assert recorded[|before|..] == added + [Entry(child.item.index, if hasExited then Exit else Timeout)];
      } else {
        left := kept + [child];
      }
    }

    /** One pass over the children, of which some have exited: each of these, and each that is
        past its deadline, is taken out and recorded. */
    method PollChildren(exited: seq<bool>) returns (progressed: bool)
      requires Valid() && Accounted(queue, Items(running), settled, work) && |exited| == |running|
      modifies this`now, this`running, this`runningUnits, this`recorded, this`settled, this`spans
      ensures Valid() && Accounted(queue, Items(running), settled, work) && now >= old(now)
      ensures old(recorded) <= recorded
      ensures Polled(old(running), exited, now, |exited|, running, recorded[|old(recorded)|..])
      ensures progressed <==> |running| < |old(running)|
    {
      ReadClock();
      var children, kept: seq<Child> := running, [];
      ghost var before := recorded;
      for n := 0 to |children|
        invariant Valid() && Accounted(queue, Items(running), settled, work) && now >= old(now)
        invariant Polling(children, exited, n, kept, before)
      {
        kept := PollOne(children, exited, n, kept, before);
      }
      assert running == kept;
      progressed := |running| < |children|;
    }

    /** A placement keeps account of the cohort. */
    method PlaceWaiting(ghost p: Placement)
      requires Valid() && Accounted(queue, Items(running), settled, work) && p == Place(queue, capacity - runningUnits)
      modifies this
      ensures Valid() && now >= old(now) && peak >= old(peak)
      ensures Accounted(queue, Items(running), settled, work)
      ensures Moved(p, old(queue), old(running), old(settled), queue, running, settled)
    {
      PlacementAccounted(queue, capacity - runningUnits, Items(running), settled, work);
      PlaceFitting();
    }

    /** One placement, with what it means for the whole cohort.  It leaves nothing running
        exactly when nothing ran before and every artifact that was waiting is rejected. */
    method PlacePass()
      requires Valid() && Accounted(queue, Items(running), settled, work) && (queue != [] || running != [])
      modifies this
      ensures Valid() && Accounted(queue, Items(running), settled, work) && now >= old(now) && peak >= old(peak)
      ensures peak >= |old(running)| + |Place(old(queue), capacity - old(runningUnits)).started|
      ensures 2 * |queue| + |running| <= 2 * |old(queue)| + |old(running)|
      ensures 2 * |queue| + |running| == 2 * |old(queue)| + |old(running)| ==> running == old(running)
      ensures running == [] <==> old(running) == [] && forall x :: x in old(queue) ==> x.rejected
      ensures running == [] ==> queue == [] && recorded != [] && recorded[|recorded| - 1].source == Preflight
    {
      ghost var p := Place(queue, capacity - runningUnits);
      PlaceWaiting(p);
      MovedCounts(p, old(queue), old(running), old(settled), queue, running, settled);
      PassMeans(p, capacity - old(runningUnits), jobs, work, old(queue), old(running), old(settled),
                queue, running, settled);
      LastRecorded(recorded, settled);
    }

    /** A poll of the children, and a sleep if none of them is done. */
    method AwaitChildren(ghost start: nat)
      requires Valid() && Accounted(queue, Items(running), settled, work) && running != [] && start <= now
      modifies this`now, this`running, this`runningUnits, this`recorded, this`settled, this`spans
      ensures Valid() && Accounted(queue, Items(running), settled, work)
      ensures || (|running| < |old(running)| && recorded != [] && recorded[|recorded| - 1].source != Preflight)
              || (running == old(running) && Slack(running, now) < Slack(running, start))
    {
      assert |seq(|running|, _ => false)| == |running|;
      var exited: seq<bool> :| |exited| == |running|;
      ghost var children, before := running, recorded;
      var progressed := PollChildren(exited);
      PolledMeans(children, exited, now, |exited|, running, recorded[|before|..]);
      assert children[..|exited|] == children;
      if !progressed {
        ghost var polled := now;
        Sleep();
        SlackDrops(running, start, polled, now);
      }
    }

    /** One turn of the parallel loop: a placement, and then a poll, unless nothing runs. */
    method TakeTurn() returns (isStuck: bool)
      requires Valid() && Accounted(queue, Items(running), settled, work) && (queue != [] || running != [])
      modifies this
      ensures Valid() && Accounted(queue, Items(running), settled, work) && peak >= old(peak)
      ensures peak >= |old(running)| + |Place(old(queue), capacity - old(runningUnits)).started|
      ensures isStuck <==> old(running) == [] && forall x :: x in old(queue) ==> x.rejected
      ensures isStuck ==> queue == [] && running == [] && recorded != [] && recorded[|recorded| - 1].source == Preflight
      ensures !isStuck ==>
                var done, due := 2 * |old(queue)| + |old(running)|, 2 * |queue| + |running|;
                due < done || (due == done && Slack(running, now) < old(Slack(running, now)))
      ensures !isStuck && queue == [] && running == [] ==>
                recorded != [] && recorded[|recorded| - 1].source != Preflight
    {
      ghost var start := now;
      PlacePass();
      isStuck := running == [];
      if !isStuck {
        AwaitChildren(start);
      }
    }

    /** Parallel scanning.  Whichever way it ends, every artifact has been recorded exactly
        once; it ends in the placement error exactly when the last result came from a
        preflight rather than from a child. */
    method ScanParallel() returns (r: Outcome)
      requires Valid() && jobs != 1 && work != [] && queue == work && running == [] && settled == [] && peak == 0
      modifies this
      ensures Valid() && queue == [] && running == []
      ensures multiset(settled) == multiset(work) && AtOnce(jobs, work) <= peak
      ensures recorded != [] && (r == CouldNotPlace <==> recorded[|recorded| - 1].source == Preflight)
    {
      var isStuck := TakeTurn();
      while !isStuck && (queue != [] || running != [])
        invariant Valid() && Accounted(queue, Items(running), settled, work) && AtOnce(jobs, work) <= peak
        invariant isStuck ==>
                    queue == [] && running == [] && recorded != [] && recorded[|recorded| - 1].source == Preflight
        invariant !isStuck && queue == [] && running == [] ==>
                    recorded != [] && recorded[|recorded| - 1].source != Preflight
        decreases !isStuck, 2 * |queue| + |running|, Slack(running, now)
      {
        isStuck := TakeTurn();
      }
      AllSettled(settled, work);
      r := if isStuck then CouldNotPlace else Finished;
    }

    /** One artifact of a serial scan, and its child, if it has one, until that exits or its time
        is up. */
    method ScanOne(item: Item, exited: bool)
      requires Valid() && running == []
      modifies this`now, this`recorded, this`settled, this`spans
      ensures Valid() && settled == old(settled) + [item]
      ensures recorded == old(recorded)
                          + [Entry(item.index, if item.rejected then Preflight else if exited then Exit else Timeout)]
    {
      ReadClock();
      ghost var start := now;
      if item.rejected {
        RecordResult(item, start, item.index, Preflight);
      } else if exited {
        ReadClock();
        RecordResult(item, start, item.index, Exit);
      } else {
        WaitUntil(now + timeout);
        RecordResult(item, start, item.index, Timeout);
      }
    }

    /** Serial scanning, one artifact and at most one child after the other. */
    method ScanSerially(exited: seq<bool>)
      requires |exited| == |work|
      requires Valid() && work != [] && queue == work && running == [] && settled == [] && peak == 0
      modifies this
      ensures Valid() && queue == [] && running == [] && settled == work
      ensures ScannedSerially(recorded, work, exited)
      ensures peak == if NeedsChild(work) then 1 else 0
    {
      while queue != []
        invariant Valid() && running == [] && settled + queue == work
        invariant |settled| <= |work| && ScannedSerially(recorded, settled, exited)
        invariant peak == if NeedsChild(settled) then 1 else 0
        decreases |queue|
      {
        var item := queue[0];
        var hasExited := exited[|work| - |queue|];
        ScannedNext(recorded, settled, exited, item);
        queue := queue[1..];
        peak := if item.rejected then peak else 1;
        NeedsChildAppend(settled, item);
        ConcatAssociates(settled, [item], queue);
        ScanOne(item, hasExited);
      }
      assert settled == work;
    }

    /** Scans what is pending.  The most children at once lie between those of the first
        placement and the capacity, and are at most `jobs` where that bound holds. */
    method ScanPending() returns (r: Outcome)
      requires Valid() && queue == work && running == [] && settled == [] && peak == 0
      modifies this
      ensures Valid() && queue == [] && running == []
      ensures multiset(settled) == multiset(work)
      ensures HadTime(recorded, spans, timeout)
      ensures r == CouldNotPlace <==> jobs != 1 && recorded != [] && recorded[|recorded| - 1].source == Preflight
      ensures (forall x :: x in work ==> !x.rejected) ==> r == Finished
      ensures jobs != 1 && work != [] && (forall x :: x in work ==> x.rejected) ==> r == CouldNotPlace
      ensures AtOnce(jobs, work) <= peak <= if jobs == 1 then 1 else Capacity(jobs, work)
      ensures jobs == 1 || MaxWeight(work) <= jobs ==> peak <= jobs
    {
      if work == [] {
        return Finished;
      }
      if jobs == 1 {
        assert |seq(|work|, _ => false)| == |work|;
        var exited: seq<bool> :| |exited| == |work|;
        ScanSerially(exited);
        r := Finished;
      } else {
        r := ScanParallel();
        SettledAreWork(settled, work);
      }
    }
  }

  // ----- A run over a corpus, resumed from checkpoints

  /** What is known of a target: its size, whether it has a digest, without which no checkpoint
      is saved, whether its preflight fails, and whether a checkpoint holds its result. */
  datatype Target = Target(size: Option<nat>, hashed: bool, rejected: bool, cached: bool)

  function WorkItem(targets: seq<Target>, i: nat): Item
    requires i < |targets|
  {
    Item(i, WorkUnits(targets[i].size), targets[i].rejected)
  }

  /** An artifact as it is scheduled: four units for one of 32 MB or more, or of unknown size, two
      for one of 8 MB or more, and one for any other. */
  ghost predicate IsWorkItem(x: Item, targets: seq<Target>) {
    && x.index < |targets| && x.rejected == targets[x.index].rejected
    && match targets[x.index].size
       case None => x.weight == 4
       case Some(n) => x.weight == if n >= 33_554_432 then 4 else if n >= 8_388_608 then 2 else 1
  }

  /** Splits the targets into those a checkpoint answers and those left to scan. */
  method LoadCheckpoints(targets: seq<Target>) returns (results: set<nat>, work: seq<Item>)
    ensures results == set i | 0 <= i < |targets| && targets[i].cached
    ensures forall x :: x in work ==> IsWorkItem(x, targets)
    ensures ItemIndices(work) == Uncached(targets) && AscendingIndices(work)
  {
    results, work := {}, [];
    for n := 0 to |targets|
      invariant results == set i | 0 <= i < n && targets[i].cached
      invariant forall x :: x in work ==> x.index < n && IsWorkItem(x, targets)
      invariant ItemIndices(work) == set i | 0 <= i < n && !targets[i].cached
      invariant AscendingIndices(work)
    {
      if targets[n].cached {
        results := results + {n};
      } else {
        var item := WorkItem(targets, n);
        assert ItemIndices(work + [item]) == ItemIndices(work) + {n};
        work := work + [item];
      }
    }
  }

  lemma TimesTwice(s: seq<Item>, j: nat, k: nat)
    requires j < k < |s| && s[j] == s[k]
    ensures Times(s[j], s) >= 2
  {
    var x := s[j];
    assert s == s[..k] + s[k..];
    TimesAppend(x, s[..k], s[k..]);
    assert x in s[..k] by { assert s[..k][j] == x; }
    assert s[k..][0] == x;
    TimesCounts(x, s[..k]);
  }

  lemma {:induction false} TimesOnce(x: Item, s: seq<Item>)
    requires AscendingIndices(s)
    ensures Times(x, s) <= 1
  {
    if s != [] {
      TimesOnce(x, s[1..]);
      TimesCounts(x, s[1..]);
    }
  }

  ghost predicate AscendingIndices(work: seq<Item>) {
    forall j, k :: 0 <= j < k < |work| ==> work[j].index < work[k].index
  }

  ghost predicate DistinctIndices(entries: seq<Entry>) {
    forall j, k :: 0 <= j < k < |entries| ==> entries[j].index != entries[k].index
  }

  function EntryIndices(entries: seq<Entry>): set<nat> {
    set e | e in entries :: e.index
  }

  ghost function ItemIndices(items: seq<Item>): set<nat> {
    set x | x in items :: x.index
  }

  lemma RecordedIndices(entries: seq<Entry>, settled: seq<Item>, work: seq<Item>)
    requires Recorded(entries, settled) && multiset(settled) == multiset(work)
    ensures EntryIndices(entries) == ItemIndices(work)
  {
    SettledAreWork(settled, work);
    forall n
      ensures n in EntryIndices(entries) <==> n in ItemIndices(settled)
    {
      if e :| e in entries && e.index == n {
        var k :| 0 <= k < |entries| && entries[k] == e;
        assert settled[k] in settled;
      }
      if x :| x in settled && x.index == n {
        var k :| 0 <= k < |settled| && settled[k] == x;
        assert entries[k] in entries;
      }
    }
  }

  lemma SameIndexSameItem(work: seq<Item>, x: Item, y: Item)
    requires AscendingIndices(work) && x in work && y in work && x.index == y.index
    ensures x == y
  {
    var j :| 0 <= j < |work| && work[j] == x;
    var k :| 0 <= k < |work| && work[k] == y;
  }

  lemma IndicesOnce(settled: seq<Item>, work: seq<Item>, j: nat, k: nat)
    requires multiset(settled) == multiset(work) && AscendingIndices(work)
    requires j < k < |settled|
    ensures settled[j].index != settled[k].index
  {
    SettledAreWork(settled, work);
    if settled[j].index == settled[k].index {
      SameIndexSameItem(work, settled[j], settled[k]);
      TimesTwice(settled, j, k);
      TimesCounts(settled[j], settled);
      TimesCounts(settled[j], work);
      TimesOnce(settled[j], work);
      assert false;
    }
  }

  /** Scanning records each index of a cohort with ascending indices exactly once. */
  lemma EachIndexOnce(entries: seq<Entry>, settled: seq<Item>, work: seq<Item>)
    requires Recorded(entries, settled) && multiset(settled) == multiset(work) && AscendingIndices(work)
    ensures EntryIndices(entries) == ItemIndices(work) && DistinctIndices(entries)
  {
    RecordedIndices(entries, settled, work);
    forall j, k | 0 <= j < k < |entries|
      ensures entries[j].index != entries[k].index
    {
      IndicesOnce(settled, work, j, k);
    }
  }

  ghost function Uncached(targets: seq<Target>): set<nat> {
    set i | 0 <= i < |targets| && !targets[i].cached
  }

  /** What recording some targets saves. */
  function Checkpointed(a: Arguments, recorded: set<nat>): set<nat> {
    set i | i in recorded && i < |a.targets| && a.checkpoints && a.targets[i].hashed
  }

  datatype Profile = Standard | Deep

  /** What the command line asks for, and what is found out before scanning: whether the
      sandbox is ready, and the targets. */
  datatype Arguments = Arguments(
    jobs: int, timeout: int, runtimeTimeout: int, profile: Profile, runtime: bool, sandboxReady: bool,
    checkpoints: bool, manifest: bool, targets: seq<Target>)

  predicate InRange(a: Arguments) {
    && 1 <= a.jobs <= 32 && a.timeout >= 1 && 1 <= a.runtimeTimeout <= 120
    && (a.profile == Deep ==> a.runtime) && (a.runtime ==> a.sandboxReady)
    && (a.checkpoints ==> a.manifest) && a.targets != []
  }

  /** The placement error leaves the run without a result: of what was recorded only the
      checkpoints that were saved are left. */
  datatype Run = Refused | Aborted(saved: set<nat>) | Ran(results: set<nat>, entries: seq<Entry>)

  /** The targets for which a checkpoint is saved when they are recorded. */
  function Saved(a: Arguments): set<nat> {
    if a.checkpoints then set i | 0 <= i < |a.targets| && !a.targets[i].cached && a.targets[i].hashed else {}
  }

  /** Scans the artifacts that no checkpoint answers. */
  method ScanWork(jobs: nat, timeout: nat, work: seq<Item>) returns (outcome: Outcome, entries: seq<Entry>)
    requires jobs >= 1 && AscendingIndices(work)
    ensures EntryIndices(entries) == ItemIndices(work) && DistinctIndices(entries)
    ensures outcome == CouldNotPlace ==> jobs != 1 && exists x :: x in work && x.rejected
  {
    var scheduler := new PendingScan(jobs, timeout, work);
    outcome := scheduler.ScanPending();
    entries := scheduler.recorded;
    EachIndexOnce(entries, scheduler.settled, work);
  }

  /** A run is refused exactly for arguments out of range.  Otherwise either every target gets
      a result, each that no checkpoint answers being recorded exactly once, or the run ends in
      the placement error although every target has been scanned. */
  method RunCorpus(a: Arguments) returns (r: Run)
    ensures r.Refused? <==> !InRange(a)
    ensures r.Ran? ==>
              && (forall i :: i in r.results <==> 0 <= i < |a.targets|)
              && EntryIndices(r.entries) == Uncached(a.targets) && DistinctIndices(r.entries)
    ensures r.Aborted? ==>
              && r.saved == Saved(a) && a.jobs != 1
              && exists i :: 0 <= i < |a.targets| && !a.targets[i].cached && a.targets[i].rejected
    ensures a.jobs == 1 && InRange(a) ==> r.Ran?
  {
    if !(1 <= a.jobs <= 32) || a.timeout < 1 || !(1 <= a.runtimeTimeout <= 120) {
      return Refused;
    }
    if (a.profile == Deep && !a.runtime) || (a.runtime && !a.sandboxReady) || (a.checkpoints && !a.manifest) {
      return Refused;
    }
    if a.targets == [] {
      return Refused;
    }
    var cached, work := LoadCheckpoints(a.targets);
    var outcome, entries := ScanWork(a.jobs, a.timeout, work);
    if outcome == CouldNotPlace {
      ghost var x :| x in work && x.rejected;
      assert x.index in ItemIndices(work);
      return Aborted(Checkpointed(a, EntryIndices(entries)));
    }
    r := Ran(cached + EntryIndices(entries), entries);
  }
}
