/**
 Where the taint rounds stop short: a chain of hand-overs through objects that takes one
 round for each link, and a name that is tainted too late because it is tainted twice.
 */
module ValueLimits {
  import opened Options
  import opened Iteration
  import opened ValueFlow
  import opened ValueLineage
  import opened ValueReport

  // ----- One round for each link

  function Value(k: nat): Name {
    "v" + seq(k, _ => '0')
  }

  function Holder(k: nat): Name {
    "h" + seq(k, _ => '0')
  }

  lemma NamesDiffer(j: nat, k: nat)
    ensures Value(j) != Holder(k)
    ensures j != k ==> Value(j) != Value(k) && Holder(j) != Holder(k)
  {
    assert Value(j)[0] != Holder(k)[0];
    assert |Value(j)| == j + 1 == |Holder(j)|;
    assert |Value(k)| == k + 1 == |Holder(k)|;
  }

  /** `holder.x = value` and then `next value = holder`, `n` times after a credential read. */
  function Link(k: nat): Assignment {
    if k == 0 then Assignment(Value(0), Other, false, 0, true)
    else Assignment(Value(k), Identifier(Holder(k - 1)), false, 2 * k, false)
  }

  function Hold(k: nat): Property {
    Property(Holder(k), "x", {Value(k)}, 2 * k + 1)
  }

  /** The last value is sent. */
  function Chain(n: nat): Program {
    Program(seq(n + 1, k requires k >= 0 => Link(k)), seq(n, k requires k >= 0 => Hold(k)), map[],
            [Sink({Value(n)}, 2 * n + 1)], [])
  }

  /** The values up to `d` and the holders below `h` are tainted where they are assigned. */
  ghost predicate Reached(t: Table, d: nat, h: nat) {
    && (forall k: nat :: Value(k) in t.flows <==> k <= d)
    && (forall k: nat :: Value(k) in t.flows ==> t.flows[Value(k)].lastPosition == 2 * k)
    && (forall k: nat :: Holder(k) in t.flows <==> k < h)
    && (forall k: nat :: Holder(k) in t.flows ==> t.flows[Holder(k)].lastPosition == 2 * k + 1)
  }

  lemma ReachValue(t: Table, d: nat, h: nat, flow: Flow)
    requires Reached(t, d, h) && flow.lastPosition == 2 * (d + 1)
    ensures Reached(Put(t, Value(d + 1), flow), d + 1, h)
  {
    forall k: nat ensures Value(d + 1) != Holder(k) && (k != d + 1 ==> Value(d + 1) != Value(k)) {
      NamesDiffer(d + 1, k);
    }
  }

  lemma ReachHolder(t: Table, d: nat, h: nat, flow: Flow)
    requires Reached(t, d, h) && flow.lastPosition == 2 * h + 1
    ensures Reached(Put(t, Holder(h), flow), d, h + 1)
  {
    forall k: nat ensures Value(k) != Holder(h) && (k != h ==> Holder(h) != Holder(k)) {
      NamesDiffer(h, k);
      NamesDiffer(k, h);
    }
  }

  lemma LinkStep(n: nat, t: Table, k: nat, d: nat, h: nat)
    requires k <= n && Reached(t, d, h) && h <= n && d <= h <= d + 1
    ensures Reached(AssignStep(Chain(n), t, Link(k)), if k == h then h else d, h)
  {
    if k > d {
      var handoffs := [Handoff({Holder(k - 1)}, false, [])];
      assert Handoffs(Chain(n), Link(k).expression) == handoffs;
      FirstHandedExact(t, handoffs, 2 * k);
      if k == h {
        assert TaintedBy(t, Holder(k - 1), 2 * k);
        ReachValue(t, d, h, AssignedFlow(t.flows[Holder(k - 1)], Link(k), handoffs[0]));
      } else {
        assert !TaintedBy(t, Holder(k - 1), 2 * k);
      }
    }
  }

  lemma LinkNext(n: nat, t: Table, k: nat)
    requires k <= n
    ensures AssignPass(Chain(n), t, Chain(n).assignments[k..])
         == AssignPass(Chain(n), AssignStep(Chain(n), t, Link(k)), Chain(n).assignments[k + 1..])
  {
    assert Chain(n).assignments[k..][1..] == Chain(n).assignments[k + 1..];
  }

  lemma {:induction false} LinkPass(n: nat, t: Table, k: nat, d: nat, h: nat, u: Table)
    requires k <= n + 1 && Reached(t, if k > h then h else d, h) && h <= n && d <= h <= d + 1
    requires u == AssignPass(Chain(n), t, Chain(n).assignments[k..])
    ensures Reached(u, h, h)
    decreases n + 1 - k
  {
    if k <= n {
      LinkNext(n, t, k);
      LinkStep(n, t, k, if k > h then h else d, h);
      LinkPass(n, AssignStep(Chain(n), t, Link(k)), k + 1, d, h, u);
    }
  }

  lemma HoldStep(n: nat, t: Table, k: nat, d: nat, h: nat)
    requires k < n && Reached(t, d, h) && d <= h <= d + 1
    ensures Reached(StoreStep(t, Hold(k)), d, if k == h && h == d then h + 1 else h)
  {
    FirstExact(t, {Value(k)}, 2 * k + 1);
    if k <= d {
      assert TaintedBy(t, Value(k), 2 * k + 1);
      if k >= h {
        ReachHolder(t, d, h, StoredFlow(t.flows[Value(k)], Hold(k)));
      }
    } else {
      assert !TaintedBy(t, Value(k), 2 * k + 1);
    }
  }

  lemma HoldNext(n: nat, t: Table, k: nat)
    requires k < n
    ensures StorePass(t, Chain(n).properties[k..]) == StorePass(StoreStep(t, Hold(k)), Chain(n).properties[k + 1..])
  {
    assert Chain(n).properties[k..][1..] == Chain(n).properties[k + 1..];
  }

  lemma {:induction false} HoldPass(n: nat, t: Table, k: nat, h: nat, u: Table)
    requires k <= n && Reached(t, h, if k > h then h + 1 else h) && h < n
    requires u == StorePass(t, Chain(n).properties[k..])
    ensures Reached(u, h, h + 1)
    decreases n - k
  {
    if k < n {
      HoldNext(n, t, k);
      HoldStep(n, t, k, h, if k > h then h + 1 else h);
      HoldPass(n, StoreStep(t, Hold(k)), k + 1, h, u);
    }
  }

  ghost predicate Unsettled(p: Program, t: Table) {
    Round(p, t) != t
  }

  /** The table after `h` rounds. */
  ghost predicate Linked(t: Table, h: nat) {
    Reached(t, if h == 0 then 0 else h - 1, h)
  }

  /** Each round gets one link further. */
  lemma ChainRound(n: nat, t: Table, h: nat)
    requires Linked(t, h) && h < n
    ensures Linked(Round(Chain(n), t), h + 1) && Unsettled(Chain(n), t)
  {
    var p := Chain(n);
    assert p.assignments[0..] == p.assignments && p.properties[0..] == p.properties;
    var u := AssignPass(p, t, p.assignments);
    LinkPass(n, t, 0, if h == 0 then 0 else h - 1, h, u);
    HoldPass(n, u, 0, h, StorePass(u, p.properties));
    assert Holder(h) !in t.flows && Holder(h) in Round(p, t).flows;
  }

  /** When all the holders are tainted the last value still is not. */
  lemma ChainLastRound(n: nat, t: Table)
    requires Linked(t, n) && n > 0
    ensures Unsettled(Chain(n), t)
  {
    var p := Chain(n);
    assert p.assignments[0..] == p.assignments;
    LinkPass(n, t, 0, n - 1, n, AssignPass(p, t, p.assignments));
    StorePassLowers(AssignPass(p, t, p.assignments), p.properties);
    assert Value(n) !in t.flows && Value(n) in Round(p, t).flows;
  }

  lemma ChainRounds(n: nat, t: Table, cap: nat)
    requires Linked(t, 0) && cap <= n
    ensures Linked(Rounds(Chain(n), t, cap), cap)
  {
    var f, at := RoundOf(Chain(n)), (u: Table, k: nat) => Linked(u, k);
    forall u: Table, k: nat | at(u, k) && k < cap ensures at(f(u), k + 1) {
      ChainRound(n, u, k);
    }
    IterateAdvances(f, at, t, 0, cap);
  }

  lemma {:induction false} ChainSeeds(n: nat, t: Table, k: nat)
    requires 0 < k <= n + 1
    ensures Seeds(Chain(n).assignments[k..], t) == t
    decreases n + 1 - k
  {
    if k <= n {
      ChainSeeds(n, t, k + 1);
    }
  }

  /** After no more rounds than there are links, the chain is that far along. */
  lemma ChainIsLinked(n: nat, cap: nat)
    requires cap <= n
    ensures Linked(Rounds(Chain(n), SeedsOf(Chain(n)), cap), cap)
  {
    var seeds := Put(Table([], map[]), Value(0), SeedFlow(Link(0)));
    ChainSeeds(n, seeds, 1);
    assert Chain(n).assignments[0] == Link(0);
    forall k: nat ensures Value(0) != Holder(k) && (k != 0 ==> Value(0) != Value(k)) {
      NamesDiffer(0, k);
    }
    assert Linked(seeds, 0);
    ChainRounds(n, seeds, cap);
  }

  ghost predicate Settles(p: Program, cap: nat) {
    !Unsettled(p, Rounds(p, SeedsOf(p), cap))
  }

  lemma ChainUnsettled(n: nat, cap: nat)
    requires 0 < cap <= n
    ensures !Settles(Chain(n), cap)
  {
    ChainIsLinked(n, cap);
    if cap < n {
      ChainRound(n, Rounds(Chain(n), SeedsOf(Chain(n)), cap), cap);
    } else {
      ChainLastRound(n, Rounds(Chain(n), SeedsOf(Chain(n)), cap));
    }
  }

  lemma MoreRoundsSettle(p: Program, cap: nat)
    requires Textual(p.assignments) && |p.properties| < cap
    ensures Settles(p, cap)
  {
    WaitingAtMost(SeedsOf(p), p.properties);
    WritesBoundRounds(p, SeedsOf(p), cap);
  }

  /** Every file with so many property writes has settled after so many rounds. */
  ghost predicate AlwaysSettles(writes: nat, cap: nat) {
    forall p: Program :: Textual(p.assignments) && |p.properties| == writes ==> Settles(p, cap)
  }

  /** The rounds are enough for every file exactly if they outnumber its property writes. */
  lemma CapExactly(writes: nat, cap: nat)
    requires cap > 0
    ensures AlwaysSettles(writes, cap) <==> writes < cap
  {
    if writes < cap {
      forall p: Program | Textual(p.assignments) && |p.properties| == writes ensures Settles(p, cap) {
        MoreRoundsSettle(p, cap);
      }
    } else {
      ChainUnsettled(writes, cap);
      ChainIsSeparate(writes);
    }
  }

  // ----- What the cap hides

  function ChainLineage(k: nat): Lineage {
    if k == 0 then Read(Link(0))
    else Assigned(Stored(ChainLineage(k - 1), Hold(k - 1)), Link(k), Handoff({Holder(k - 1)}, false, []))
  }

  lemma {:induction false} ChainLineageIsValid(n: nat, k: nat)
    requires k <= n
    ensures var l := ChainLineage(k); Valid(Chain(n), l) && NameOf(l) == Value(k) && PositionOf(l) == 2 * k
    decreases k
  {
    var p := Chain(n);
    assert p.assignments[k] == Link(k);
    if k > 0 {
      ChainLineageIsValid(n, k - 1);
      assert p.properties[k - 1] == Hold(k - 1);
      assert Valid(p, Stored(ChainLineage(k - 1), Hold(k - 1)));
    }
  }

  lemma ChainIsSeparate(n: nat)
    ensures Separate(Chain(n)) && Textual(Chain(n).assignments) && |Chain(n).properties| == n
  {
    forall j: nat, k: nat ensures Value(j) != Holder(k) && (j != k ==> Value(j) != Value(k)) {
      NamesDiffer(j, k);
    }
  }

  lemma ChainLeaks(n: nat)
    ensures Leaky(Chain(n))
  {
    var send := Send({Value(n)}, 2 * n + 1, []);
    assert Sends(Chain(n)) == [send];
    ChainLineageIsValid(n, n);
    assert Leaks(Chain(n), ChainLineage(n), send);
  }

  /** What is sent last is reported only once it is tainted. */
  lemma ChainUntainted(n: nat, t: Table)
    requires Value(n) !in t.flows
    ensures FirstReport(Chain(n), t, Sends(Chain(n))).None?
  {
    var send := Send({Value(n)}, 2 * n + 1, []);
    assert Sends(Chain(n)) == [send];
    FirstExact(t, send.names, send.position);
    assert FirstReport(Chain(n), t, [send][1..]).None?;
  }

  /** With as many links as rounds, it is not yet. */
  lemma ChainUnreported(n: nat)
    requires n >= 32
    ensures !Reported(Chain(n))
  {
    ChainIsLinked(n, MAX_VALUE_PROPAGATION_ROUNDS);
    ChainUntainted(n, Tainted(Chain(n)));
  }

  /** Every file with separate names and so many property writes is reported exactly if some
      lineage arrives: that holds exactly for fewer property writes than rounds. */
  lemma ReportsExactly(writes: nat)
    ensures (forall p: Program :: Textual(p.assignments) && Separate(p) && |p.properties| == writes ==>
                                    (Reported(p) <==> Leaky(p)))
       <==> writes < 32
  {
    if writes < MAX_VALUE_PROPAGATION_ROUNDS {
      forall p: Program | Textual(p.assignments) && Separate(p) && |p.properties| == writes
        ensures Reported(p) <==> Leaky(p)
      {
        ReportIsComplete(p);
      }
    } else {
      ChainIsSeparate(writes);
      ChainUnreported(writes);
      ChainLeaks(writes);
    }
  }

  // ----- Tainted too late

  /** An object assigned at `x` and written into at `y`, and sent at once. */
  function Late(x: nat, y: nat): Program {
    Program([Assignment("s", Other, false, 0, true), Assignment("o", Identifier("v"), false, x, false)],
            [Property("v", "y", {"s"}, 0), Property("o", "x", {"s"}, y)], map[], [Sink({"o"}, x)], [])
  }

  const READ_S := Flow("s", [["s"]], 0, 0, false)
  const STORED_V := Flow("s", [["s"], ["v", "y"], ["v"]], 0, 0, false)

  function StoredO(y: nat): Flow {
    Flow("s", [["s"], ["o", "x"], ["o"]], 0, y, false)
  }

  const LATE_SEEDS: Table := Table(["s"], map["s" := READ_S])
  const LATE_HALF: Table := Table(["s", "v"], map["s" := READ_S, "v" := STORED_V])

  function LateTable(y: nat): Table {
    Table(["s", "v", "o"], map["s" := READ_S, "v" := STORED_V, "o" := StoredO(y)])
  }

  lemma LateAssignPass(x: nat, y: nat, t: Table)
    requires "s" in t.flows && ("o" in t.flows || "v" !in t.flows)
    ensures AssignPass(Late(x, y), t, Late(x, y).assignments) == t
  {
    var p := Late(x, y);
    FirstHandedExact(t, Handoffs(p, Identifier("v")), x);
    assert AssignPass(p, t, p.assignments) == AssignPass(p, t, p.assignments[1..]);
    assert AssignPass(p, t, p.assignments[1..]) == AssignPass(p, t, p.assignments[2..]);
  }

  lemma LateFirstStore(x: nat, y: nat)
    ensures StoreStep(LATE_SEEDS, Late(x, y).properties[0]) == LATE_HALF
  {
    assert First(LATE_SEEDS, {"s"}, 0) == Some("s");
    assert StoredFlow(READ_S, Late(x, y).properties[0]) == STORED_V;
  }

  lemma LateSecondStore(x: nat, y: nat)
    ensures StoreStep(LATE_HALF, Late(x, y).properties[1]) == LateTable(y)
  {
    assert First(LATE_HALF, {"s"}, y) == Some("s");
    assert StoredFlow(READ_S, Late(x, y).properties[1]) == StoredO(y);
  }

  lemma LateStorePass(x: nat, y: nat)
    ensures StorePass(LATE_SEEDS, Late(x, y).properties) == LateTable(y)
  {
    var q := Late(x, y).properties;
    LateFirstStore(x, y);
    LateSecondStore(x, y);
    assert StorePass(LATE_HALF, q[1..]) == StorePass(LateTable(y), q[2..]) == LateTable(y);
  }

  lemma LateSettles(x: nat, y: nat)
    ensures Round(Late(x, y), LateTable(y)) == LateTable(y)
  {
    var q := Late(x, y).properties;
    LateAssignPass(x, y, LateTable(y));
    assert StoreStep(LateTable(y), q[0]) == LateTable(y) && StoreStep(LateTable(y), q[1]) == LateTable(y);
    assert StorePass(LateTable(y), q) == StorePass(LateTable(y), q[1..]) == StorePass(LateTable(y), q[2..]);
  }

  lemma LateSeeds(x: nat, y: nat)
    ensures SeedsOf(Late(x, y)) == LATE_SEEDS
  {
    var a := Late(x, y).assignments;
    assert Put(Table([], map[]), "s", SeedFlow(a[0])) == LATE_SEEDS;
    assert Seeds(a, Table([], map[])) == Seeds(a[1..], LATE_SEEDS);
    assert Seeds(a[1..], LATE_SEEDS) == Seeds(a[2..], LATE_SEEDS);
  }

  lemma LateTainted(x: nat, y: nat)
    ensures Tainted(Late(x, y)) == LateTable(y)
  {
    var f := RoundOf(Late(x, y));
    LateSeeds(x, y);
    LateAssignPass(x, y, LATE_SEEDS);
    LateStorePass(x, y);
    LateSettles(x, y);
    IterateAdds(f, LATE_SEEDS, 1, 31);
    assert Iterate(f, LATE_SEEDS, 1) == Iterate(f, LateTable(y), 0) == LateTable(y);
    RoundsStop(Late(x, y), LateTable(y), 31);
  }

  lemma LateLeaks(x: nat, y: nat)
    ensures Leaky(Late(x, y))
  {
    var p := Late(x, y);
    var stored := Stored(Read(p.assignments[0]), p.properties[0]);
    var l := Assigned(stored, p.assignments[1], Handoff({"v"}, false, []));
    assert Valid(p, Read(p.assignments[0]));
    assert Valid(p, stored);
    assert Handoffs(p, p.assignments[1].expression) == [Handoff({"v"}, false, [])];
    assert Sends(p) == [Send({"o"}, x, [])];
    assert Leaks(p, l, Send({"o"}, x, []));
  }

  /** A file that sends once is not reported where what is sent is not tainted. */
  lemma SentUntainted(p: Program, t: Table, s: Send)
    requires Sends(p) == [s] && First(t, s.names, s.position).None?
    ensures FirstReport(p, t, Sends(p)).None?
  {
    assert FirstReport(p, t, [s][1..]).None?;
  }

  lemma LateUnreported(x: nat, y: nat)
    requires x < y
    ensures FirstReport(Late(x, y), LateTable(y), Sends(Late(x, y))).None?
  {
    assert Sends(Late(x, y)) == [Send({"o"}, x, [])];
    FirstExact(LateTable(y), {"o"}, x);
    assert !TaintedBy(LateTable(y), "o", x);
    SentUntainted(Late(x, y), LateTable(y), Send({"o"}, x, []));
  }

  /** A file with a lineage that arrives and no report, although the rounds have settled: a
      later property write taints `o` first, and the earlier assignment is passed over. */
  lemma PassedOver(x: nat, y: nat)
    requires x < y
    ensures Round(Late(x, y), Tainted(Late(x, y))) == Tainted(Late(x, y))
    ensures Leaky(Late(x, y)) && !Reported(Late(x, y))
  {
    LateTainted(x, y);
    LateSettles(x, y);
    LateLeaks(x, y);
    LateUnreported(x, y);
  }

  /** The files in which a name that is handed something at `x` may be written into at `y`. */
  ghost predicate ClashesAt(p: Program, x: nat, y: nat) {
    && Textual(p.assignments) && AssignedOnce(p.assignments) && |p.properties| < 32
    && forall a, q :: Clash(p, a, q) ==> a.position == x && q.position == y
  }

  lemma LateClashes(x: nat, y: nat)
    requires x > 0
    ensures ClashesAt(Late(x, y), x, y)
  {
  }

  lemma OnePlaceOneAssignment(assignments: seq<Assignment>, a: Assignment, b: Assignment)
    requires Textual(assignments) && a in assignments && b in assignments && a.position == b.position
    ensures a == b
  {
    var i :| 0 <= i < |assignments| && assignments[i] == a;
    var j :| 0 <= j < |assignments| && assignments[j] == b;
  }

  /** Where the text begins there is nothing to hand on. */
  lemma NothingBefore(p: Program, t: Table, a: Assignment)
    requires Sound(p, t) && Textual(p.assignments) && a in p.assignments && a.position == 0 && Handing(p, t, a)
    ensures a.credential
  {
    if AssignmentSource(p, t, a).Some? {
      FirstHandedExact(t, Handoffs(p, a.expression), 0);
      var l := LineageFor(p, t, AssignmentSource(p, t, a).value.source);
      FlowRunsDown(p, l);
      var b :| b in p.assignments && b.credential && b.position == FlowOf(l).sourcePosition;
      OnePlaceOneAssignment(p.assignments, a, b);
    }
  }

  lemma EarlyIsReported(p: Program, x: nat, y: nat)
    requires ClashesAt(p, x, y) && (y <= x || x == 0)
    ensures Reported(p) <==> Leaky(p)
  {
    var t := Tainted(p);
    TaintedIsSound(p);
    forall a, q | Clash(p, a, q) && Handing(p, t, a) ensures q.position <= a.position {
      if x == 0 {
        NothingBefore(p, t, a);
      }
    }
    FewWritesSettle(p);
    UndisturbedReport(p);
  }

  /** All of them are reported exactly if a lineage arrives, when and only when the write is
      not after the assignment, or the assignment is the first thing in the file. */
  lemma OrderExactly(x: nat, y: nat)
    ensures (forall p: Program :: ClashesAt(p, x, y) ==> (Reported(p) <==> Leaky(p))) <==> y <= x || x == 0
  {
    if y <= x || x == 0 {
      forall p: Program | ClashesAt(p, x, y) ensures Reported(p) <==> Leaky(p) {
        EarlyIsReported(p, x, y);
      }
    } else {
      PassedOver(x, y);
      LateClashes(x, y);
    }
  }

  // ----- Assigned twice

  /** A credential read twice into one name, and sent. */
  function Twice(x: nat, y: nat): Program {
    Program([Assignment("s", Other, false, x, true), Assignment("s", Other, false, y, true)], [], map[],
            [Sink({"s"}, y)], [])
  }

  lemma TwiceIsNotClear(x: nat, y: nat, l: Lineage)
    requires Valid(Twice(x, y), l)
    ensures !Clear(Twice(x, y), Root(l).target, Route(l))
  {
    var p := Twice(x, y);
    FlowRunsDown(p, l);
    assert p.assignments[0].target == p.assignments[1].target == Root(l).target;
  }

  lemma TwiceLeaks(x: nat, y: nat)
    ensures Leaky(Twice(x, y))
  {
    var p, s := Twice(x, y), Send({"s"}, y, []);
    assert p.sinks[0] in p.sinks;
    assert Valid(p, Read(p.assignments[1]));
    assert Leaks(p, Read(p.assignments[1]), s);
  }

  /** A name that is assigned twice is never reported, wherever the assignments stand. */
  lemma AssignedTwice(x: nat, y: nat)
    ensures Leaky(Twice(x, y)) && !Reported(Twice(x, y))
  {
    TwiceLeaks(x, y);
    ReportIsSound(Twice(x, y));
    forall l | Valid(Twice(x, y), l) ensures !Clear(Twice(x, y), Root(l).target, Route(l)) {
      TwiceIsNotClear(x, y, l);
    }
  }
}
