/**
 What the taint rounds mean.  A lineage is a credential read and the hand-overs after it,
 each no earlier in the text than the one before; the table the rounds build is measured
 against the lineages the program has.
 */
module ValueLineage {
  import opened Options
  import opened Iteration
  import opened ValueFlow

  datatype Lineage =
    | Read(a: Assignment)
    | Assigned(from: Lineage, a: Assignment, how: Handoff)
    | Stored(from: Lineage, q: Property)

  function NameOf(l: Lineage): Name {
    match l
    case Read(a) => a.target
    case Assigned(_, a, _) => a.target
    case Stored(_, q) => q.container
  }

  function PositionOf(l: Lineage): nat {
    match l
    case Read(a) => a.position
    case Assigned(_, a, _) => a.position
    case Stored(_, q) => q.position
  }

  function FlowOf(l: Lineage): Flow {
    match l
    case Read(a) => SeedFlow(a)
    case Assigned(from, a, how) => AssignedFlow(FlowOf(from), a, how)
    case Stored(from, q) => StoredFlow(FlowOf(from), q)
  }

  /** Some hand-over on the way transforms the value. */
  ghost predicate Transforms(l: Lineage) {
    match l
    case Read(_) => false
    case Assigned(from, a, how) => a.transforms || how.transforms || Transforms(from)
    case Stored(from, _) => Transforms(from)
  }

  ghost predicate Valid(p: Program, l: Lineage) {
    match l
    case Read(a) => a in p.assignments && a.credential
    case Assigned(from, a, how) =>
      && Valid(p, from) && a in p.assignments && HandsOn(p, a.expression, how)
      && NameOf(from) in how.names && PositionOf(from) <= a.position
    case Stored(from, q) =>
      Valid(p, from) && q in p.properties && NameOf(from) in q.names && PositionOf(from) <= q.position
  }

  /** The credential read that a lineage comes from. */
  ghost function Root(l: Lineage): Assignment {
    match l
    case Read(a) => a
    case Assigned(from, _, _) => Root(from)
    case Stored(from, _) => Root(from)
  }

  /** The names along it: each target, the parameter of a call before it, and each property
      before its object. */
  ghost function Route(l: Lineage): seq<Stop> {
    match l
    case Read(a) => [[a.target]]
    case Assigned(from, a, how) => Route(from) + how.via + [[a.target]]
    case Stored(from, q) => Route(from) + [[q.container, q.property], [q.container]]
  }

  /** A flow tells its lineage: it starts at the credential read, takes the same route, ends at
      the name it taints, and runs down the text. */
  lemma {:induction false} FlowRunsDown(p: Program, l: Lineage)
    requires Valid(p, l)
    ensures var f := FlowOf(l);
            && f.source == Root(l).target && f.sourcePosition == Root(l).position && f.path == Route(l)
            && |f.path| > 0 && f.path[0] == [f.source] && f.path[|f.path| - 1] == [NameOf(l)]
            && f.sourcePosition <= f.lastPosition == PositionOf(l)
            && (f.transformed <==> Transforms(l))
            && exists a ::
                 a in p.assignments && a.credential && a.target == f.source && a.position == f.sourcePosition
  {
    match l
    case Read(a) =>
    case Assigned(from, _, _) => FlowRunsDown(p, from);
    case Stored(from, _) => FlowRunsDown(p, from);
  }

  // ----- Every entry has a lineage

  ghost predicate Explained(p: Program, name: Name, flow: Flow) {
    exists l :: Valid(p, l) && NameOf(l) == name && FlowOf(l) == flow
  }

  ghost predicate Sound(p: Program, t: Table) {
    forall n :: n in t.flows ==> Explained(p, n, t.flows[n])
  }

  lemma Explain(p: Program, l: Lineage)
    requires Valid(p, l)
    ensures Explained(p, NameOf(l), FlowOf(l))
  {
  }

  lemma {:induction false} SeedsSound(p: Program, assignments: seq<Assignment>, t: Table)
    requires Sound(p, t) && forall a :: a in assignments ==> a in p.assignments
    ensures Sound(p, Seeds(assignments, t))
    decreases |assignments|
  {
    if assignments != [] {
      var a := assignments[0];
      if a.credential {
        Explain(p, Read(a));
        SeedsSound(p, assignments[1..], Put(t, a.target, SeedFlow(a)));
      } else {
        SeedsSound(p, assignments[1..], t);
      }
    }
  }

  lemma AssignStepSound(p: Program, t: Table, a: Assignment)
    requires Sound(p, t) && a in p.assignments
    ensures Sound(p, AssignStep(p, t, a))
  {
    var handed := AssignmentSource(p, t, a);
    FirstHandedExact(t, Handoffs(p, a.expression), a.position);
    if handed.Some? {
      var from := LineageFor(p, t, handed.value.source);
      HandoffsExact(p, a.expression, handed.value.how);
      Explain(p, Assigned(from, a, handed.value.how));
    }
  }

  /** The lineage of an entry. */
  lemma LineageFor(p: Program, t: Table, n: Name) returns (l: Lineage)
    requires Sound(p, t) && n in t.flows
    ensures Valid(p, l) && NameOf(l) == n && FlowOf(l) == t.flows[n] && PositionOf(l) == t.flows[n].lastPosition
  {
    assert Explained(p, n, t.flows[n]);
    l :| Valid(p, l) && NameOf(l) == n && FlowOf(l) == t.flows[n];
    FlowRunsDown(p, l);
  }

  lemma StoreStepSound(p: Program, t: Table, q: Property)
    requires Sound(p, t) && q in p.properties
    ensures Sound(p, StoreStep(t, q))
  {
    var source := First(t, q.names, q.position);
    FirstExact(t, q.names, q.position);
    if source.Some? {
      var from := LineageFor(p, t, source.value);
      Explain(p, Stored(from, q));
    }
  }

  lemma {:induction false} AssignPassSound(p: Program, t: Table, assignments: seq<Assignment>)
    requires Sound(p, t) && forall a :: a in assignments ==> a in p.assignments
    ensures Sound(p, AssignPass(p, t, assignments))
    decreases |assignments|
  {
    if assignments != [] {
      AssignStepSound(p, t, assignments[0]);
      AssignPassSound(p, AssignStep(p, t, assignments[0]), assignments[1..]);
    }
  }

  lemma {:induction false} StorePassSound(p: Program, t: Table, properties: seq<Property>)
    requires Sound(p, t) && forall q :: q in properties ==> q in p.properties
    ensures Sound(p, StorePass(t, properties))
    decreases |properties|
  {
    if properties != [] {
      StoreStepSound(p, t, properties[0]);
      StorePassSound(p, StoreStep(t, properties[0]), properties[1..]);
    }
  }

  lemma RoundSound(p: Program, t: Table)
    requires Sound(p, t)
    ensures Sound(p, Round(p, t))
  {
    AssignPassSound(p, t, p.assignments);
    StorePassSound(p, AssignPass(p, t, p.assignments), p.properties);
  }

  lemma RoundsSound(p: Program, t: Table, cap: nat)
    requires Sound(p, t)
    ensures Sound(p, Rounds(p, t, cap))
  {
    var keeps := (u: Table) => Sound(p, u);
    forall u: Table | keeps(u) ensures keeps(RoundOf(p)(u)) {
      RoundSound(p, u);
    }
    IterateKeeps(RoundOf(p), keeps, t, cap);
  }

  // ----- Seeds

  /** No name is assigned twice. */
  ghost predicate AssignedOnce(assignments: seq<Assignment>) {
    forall i, j :: 0 <= i < j < |assignments| ==> assignments[i].target != assignments[j].target
  }

  ghost predicate Seeded(assignments: seq<Assignment>, t: Table) {
    forall a :: a in assignments && a.credential ==> TaintedBy(t, a.target, a.position)
  }

  lemma {:induction false} SeedsInPlace(assignments: seq<Assignment>, t: Table)
    requires AssignedOnce(assignments)
    ensures Seeded(assignments, Seeds(assignments, t))
    ensures forall n :: n in t.flows && (forall a :: a in assignments ==> a.target != n) ==>
                          n in Seeds(assignments, t).flows && Seeds(assignments, t).flows[n] == t.flows[n]
    decreases |assignments|
  {
    if assignments != [] {
      var a := assignments[0];
      SeedsInPlace(assignments[1..], if a.credential then Put(t, a.target, SeedFlow(a)) else t);
      assert assignments == [assignments[0]] + assignments[1..];
    }
  }

  lemma RoundsKeepSeeds(p: Program, t: Table, cap: nat)
    requires Seeded(p.assignments, t)
    ensures Seeded(p.assignments, Rounds(p, t, cap))
  {
    var keeps := (u: Table) => Seeded(p.assignments, u);
    forall u: Table | keeps(u) ensures keeps(RoundOf(p)(u)) {
      RoundLowers(p, u);
    }
    IterateKeeps(RoundOf(p), keeps, t, cap);
  }

  lemma TaintedIsSeeded(p: Program)
    requires AssignedOnce(p.assignments)
    ensures Seeded(p.assignments, Tainted(p))
  {
    SeedsInPlace(p.assignments, Table([], map[]));
    RoundsKeepSeeds(p, SeedsOf(p), MAX_VALUE_PROPAGATION_ROUNDS);
  }

  lemma SoundIsInText(p: Program, t: Table)
    requires Sound(p, t)
    ensures InText(p, t)
  {
    CeilingIsAbove(p.assignments, p.properties);
    forall n | n in t.flows ensures t.flows[n].lastPosition < Ceiling(p.assignments, p.properties) {
      var l := LineageFor(p, t, n);
      if l.Stored? {
        assert l.q in p.properties;
      } else {
        assert l.a in p.assignments;
      }
    }
  }

  lemma TaintedIsSound(p: Program)
    ensures Sound(p, Tainted(p)) && InText(p, Tainted(p))
  {
    var t := SeedsOf(p);
    SeedsSound(p, p.assignments, Table([], map[]));
    RoundsSound(p, t, MAX_VALUE_PROPAGATION_ROUNDS);
    SoundIsInText(p, Tainted(p));
  }

  // ----- Without property writes one pass is enough

  /** The matches of a pattern, as they stand in the text. */
  ghost predicate Textual(assignments: seq<Assignment>) {
    forall i, j :: 0 <= i < j < |assignments| ==> assignments[i].position < assignments[j].position
  }

  /** Later assignments taint nothing as of an earlier place. */
  lemma {:induction false} LaterTaintsLater(p: Program, t: Table, assignments: seq<Assignment>, n: Name, before: nat)
    requires forall a :: a in assignments ==> a.position > before
    ensures TaintedBy(AssignPass(p, t, assignments), n, before) ==> TaintedBy(t, n, before)
    decreases |assignments|
  {
    if assignments != [] {
      LaterTaintsLater(p, AssignStep(p, t, assignments[0]), assignments[1..], n, before);
    }
  }

  lemma {:induction false} PassLeavesNothing(p: Program, t: Table, assignments: seq<Assignment>, a: Assignment)
    requires Textual(assignments) && a in assignments
    ensures AssignStep(p, AssignPass(p, t, assignments), a) == AssignPass(p, t, assignments)
    decreases |assignments|
  {
    var u := AssignStep(p, t, assignments[0]);
    var v := AssignPass(p, t, assignments);
    if a == assignments[0] {
      AssignPassLowers(p, u, assignments[1..]);
      if a.target !in v.flows {
        NothingHanded(p, t, a, v, assignments[1..]);
      }
    } else {
      PassLeavesNothing(p, u, assignments[1..], a);
    }
  }

  lemma NothingHanded(p: Program, t: Table, a: Assignment, v: Table, rest: seq<Assignment>)
    requires v == AssignPass(p, AssignStep(p, t, a), rest) && a.target !in v.flows
    requires forall b :: b in rest ==> b.position > a.position
    ensures AssignmentSource(p, v, a).None?
  {
    var u := AssignStep(p, t, a);
    AssignPassLowers(p, u, rest);
    FirstHandedExact(t, Handoffs(p, a.expression), a.position);
    FirstHandedExact(v, Handoffs(p, a.expression), a.position);
    if AssignmentSource(p, v, a).Some? {
      LaterTaintsLater(p, u, rest, AssignmentSource(p, v, a).value.source, a.position);
    }
  }

  lemma {:induction false} QuietPass(p: Program, t: Table, assignments: seq<Assignment>)
    requires forall a :: a in assignments ==> AssignStep(p, t, a) == t
    ensures AssignPass(p, t, assignments) == t
    decreases |assignments|
  {
    if assignments != [] {
      QuietPass(p, t, assignments[1..]);
    }
  }

  /** After a pass, another pass does nothing. */
  lemma PassIsEnough(p: Program, t: Table)
    requires Textual(p.assignments)
    ensures var u := AssignPass(p, t, p.assignments); AssignPass(p, u, p.assignments) == u
  {
    var u := AssignPass(p, t, p.assignments);
    forall a | a in p.assignments ensures AssignStep(p, u, a) == u {
      PassLeavesNothing(p, t, p.assignments, a);
    }
    QuietPass(p, u, p.assignments);
  }

  // ----- A property write taints its object once, so the writes bound the rounds

  /** A write that has nothing more to do: its object is tainted by then. */
  ghost predicate Fired(t: Table, q: Property) {
    TaintedBy(t, q.container, q.position)
  }

  ghost function Waiting(t: Table, properties: seq<Property>): nat {
    if properties == [] then 0
    else (if Fired(t, properties[0]) then 0 else 1) + Waiting(t, properties[1..])
  }

  lemma {:induction false} WaitingAtMost(t: Table, properties: seq<Property>)
    ensures Waiting(t, properties) <= |properties|
  {
    if properties != [] {
      WaitingAtMost(t, properties[1..]);
    }
  }

  lemma {:induction false} WaitingFalls(t: Table, u: Table, properties: seq<Property>)
    requires Lowers(t, u)
    ensures Waiting(u, properties) <= Waiting(t, properties)
    ensures (exists q :: q in properties && !Fired(t, q) && Fired(u, q)) ==>
              Waiting(u, properties) < Waiting(t, properties)
  {
    if properties != [] {
      WaitingFalls(t, u, properties[1..]);
      assert properties == [properties[0]] + properties[1..];
    }
  }

  /** A pass over the property writes that changes anything fires one that had not fired. */
  lemma {:induction false} StorePassFires(t: Table, properties: seq<Property>) returns (q: Option<Property>)
    ensures q.None? ==> StorePass(t, properties) == t
    ensures q.Some? ==> q.value in properties && !Fired(t, q.value) && Fired(StorePass(t, properties), q.value)
    decreases |properties|
  {
    if properties == [] {
      q := None;
    } else if StoreStep(t, properties[0]) == t {
      q := StorePassFires(t, properties[1..]);
    } else {
      q := Some(properties[0]);
      StorePassLowers(StoreStep(t, properties[0]), properties[1..]);
    }
  }

  /** A round settles the table or fires a property write. */
  lemma RoundFires(p: Program, t: Table)
    requires Textual(p.assignments)
    ensures Round(p, Round(p, t)) == Round(p, t)
            || Waiting(Round(p, t), p.properties) < Waiting(t, p.properties)
  {
    var u := AssignPass(p, t, p.assignments);
    var q := StorePassFires(u, p.properties);
    if q.None? {
      PassIsEnough(p, t);
    } else {
      AssignPassLowers(p, t, p.assignments);
      StorePassLowers(u, p.properties);
      WaitingFalls(t, u, p.properties);
      WaitingFalls(u, Round(p, t), p.properties);
    }
  }

  /** More rounds than property writes that are still to fire settle any table. */
  lemma WritesBoundRounds(p: Program, t: Table, cap: nat)
    requires Textual(p.assignments) && Waiting(t, p.properties) < cap
    ensures Round(p, Rounds(p, t, cap)) == Rounds(p, t, cap)
  {
    var waiting := (u: Table) => Waiting(u, p.properties);
    forall u: Table
      ensures RoundOf(p)(RoundOf(p)(u)) == RoundOf(p)(u) || waiting(RoundOf(p)(u)) < waiting(u)
    {
      RoundFires(p, u);
    }
    IterateRests(RoundOf(p), waiting, t, cap);
  }

  /** So a cap above the number of property writes never bites. */
  lemma CapNeverBites(p: Program, t: Table, cap: nat)
    requires Textual(p.assignments) && |p.properties| < cap && InText(p, t)
    ensures Round(p, Rounds(p, t, cap)) == Rounds(p, t, cap) == Settled(p, t)
  {
    WaitingAtMost(t, p.properties);
    WritesBoundRounds(p, t, cap);
    CapExact(p, t, cap);
  }

  // ----- What a settled table misses

  lemma FallsBack(t: Table, u: Table, names: seq<Name>, ceiling: nat)
    requires Falls(t, u, names, ceiling) && Lowers(u, t) && Below(t, ceiling) && Below(u, ceiling)
    ensures t == u
  {
    forall n ensures Height(t, n, ceiling) <= Height(u, n, ceiling) {
    }
  }

  lemma {:induction false} QuietAssignments(
    p: Program, t: Table, assignments: seq<Assignment>, names: seq<Name>, ceiling: nat)
    requires Below(t, ceiling) && forall a :: a in assignments ==> a.target in names && a.position < ceiling
    requires AssignPass(p, t, assignments) == t
    ensures forall a :: a in assignments ==> AssignStep(p, t, a) == t
    decreases |assignments|
  {
    if assignments != [] {
      var u := AssignStep(p, t, assignments[0]);
      AssignStepFalls(p, t, assignments[0], names, ceiling);
      AssignPassLowers(p, u, assignments[1..]);
      FallsBack(t, u, names, ceiling);
      QuietAssignments(p, t, assignments[1..], names, ceiling);
      assert assignments == [assignments[0]] + assignments[1..];
    }
  }

  lemma {:induction false} QuietStores(t: Table, properties: seq<Property>, names: seq<Name>, ceiling: nat)
    requires Below(t, ceiling) && forall q :: q in properties ==> q.container in names && q.position < ceiling
    requires StorePass(t, properties) == t
    ensures forall q :: q in properties ==> StoreStep(t, q) == t
    decreases |properties|
  {
    if properties != [] {
      var u := StoreStep(t, properties[0]);
      StoreStepFalls(t, properties[0], names, ceiling);
      StorePassLowers(u, properties[1..]);
      FallsBack(t, u, names, ceiling);
      QuietStores(t, properties[1..], names, ceiling);
      assert properties == [properties[0]] + properties[1..];
    }
  }

  /** A table that a round does not change is one that no step changes. */
  lemma SettledIsQuiet(p: Program, t: Table)
    requires InText(p, t) && Round(p, t) == t
    ensures forall a :: a in p.assignments ==> AssignStep(p, t, a) == t
    ensures forall q :: q in p.properties ==> StoreStep(t, q) == t
  {
    var names, ceiling := NamesOf(p.assignments, p.properties), Ceiling(p.assignments, p.properties);
    NamesAreThere(p.assignments, p.properties);
    CeilingIsAbove(p.assignments, p.properties);
    var u := AssignPass(p, t, p.assignments);
    AssignPassFalls(p, t, p.assignments, names, ceiling);
    StorePassLowers(u, p.properties);
    FallsBack(t, u, names, ceiling);
    QuietAssignments(p, t, p.assignments, names, ceiling);
    QuietStores(t, p.properties, names, ceiling);
  }

  /** Every lineage is in the table: its name, no later than the lineage has it. */
  ghost predicate Complete(p: Program, t: Table) {
    forall l :: Valid(p, l) ==> TaintedBy(t, NameOf(l), PositionOf(l))
  }

  /** Its target ought to be tainted. */
  ghost predicate Handing(p: Program, t: Table, a: Assignment) {
    a.credential || AssignmentSource(p, t, a).Some?
  }

  /** No assignment was passed over, its target being tainted already, only later. */
  ghost predicate NothingStale(p: Program, t: Table) {
    forall a :: a in p.assignments && Handing(p, t, a) ==> TaintedBy(t, a.target, a.position)
  }

  lemma {:induction false} LineageIsTainted(p: Program, t: Table, l: Lineage)
    requires InText(p, t) && Round(p, t) == t && NothingStale(p, t) && Valid(p, l)
    ensures TaintedBy(t, NameOf(l), PositionOf(l))
  {
    match l
    case Read(_) =>
    case Assigned(from, a, how) =>
      LineageIsTainted(p, t, from);
      assert TaintedBy(t, NameOf(from), a.position);
      HandoffsExact(p, a.expression, how);
      FirstHandedExact(t, Handoffs(p, a.expression), a.position);
      assert AssignmentSource(p, t, a).Some?;
    case Stored(from, q) =>
      LineageIsTainted(p, t, from);
      FirstExact(t, q.names, q.position);
      SettledIsQuiet(p, t);
      assert StoreStep(t, q) == t;
  }

  /** A settled table has every lineage exactly when no assignment was passed over. */
  lemma CompleteExactly(p: Program, t: Table)
    requires Sound(p, t) && Round(p, t) == t
    ensures Complete(p, t) <==> NothingStale(p, t)
  {
    SoundIsInText(p, t);
    if NothingStale(p, t) {
      forall l | Valid(p, l) ensures TaintedBy(t, NameOf(l), PositionOf(l)) {
        LineageIsTainted(p, t, l);
      }
    }
    if Complete(p, t) {
      forall a | a in p.assignments && Handing(p, t, a) ensures TaintedBy(t, a.target, a.position) {
        if a.credential {
          assert Valid(p, Read(a)) && NameOf(Read(a)) == a.target;
        } else {
          FirstHandedExact(t, Handoffs(p, a.expression), a.position);
          var handed := AssignmentSource(p, t, a).value;
          HandoffsExact(p, a.expression, handed.how);
          var from := LineageFor(p, t, handed.source);
          var l := Assigned(from, a, handed.how);
          assert Valid(p, l) && NameOf(l) == a.target && PositionOf(l) == a.position;
        }
      }
    }
  }

  /** A write into an object whose assignment hands something on. */
  ghost predicate Clash(p: Program, a: Assignment, q: Property) {
    && a in p.assignments && q in p.properties && a.target == q.container
    && !a.credential && exists how :: HandsOn(p, a.expression, how)
  }

  /** No name is assigned twice, and an object whose assignment hands something on is not
      written into after it. */
  ghost predicate Separate(p: Program) {
    AssignedOnce(p.assignments) && forall a, q :: Clash(p, a, q) ==> q.position <= a.position
  }

  /** What matters of that for a table: an object that is handed something is not written into
      after it. */
  ghost predicate Undisturbed(p: Program, t: Table) {
    && AssignedOnce(p.assignments)
    && forall a, q :: Clash(p, a, q) && Handing(p, t, a) ==> q.position <= a.position
  }

  lemma UndisturbedIsPlaced(p: Program, t: Table, a: Assignment)
    requires Sound(p, t) && Seeded(p.assignments, t) && Undisturbed(p, t)
    requires a in p.assignments && Handing(p, t, a) && a.target in t.flows
    ensures TaintedBy(t, a.target, a.position)
  {
    if !a.credential {
      FirstHandedExact(t, Handoffs(p, a.expression), a.position);
      var l := LineageFor(p, t, a.target);
      if l.Stored? {
        HandoffsExact(p, a.expression, AssignmentSource(p, t, a).value.how);
        assert Clash(p, a, l.q);
      } else {
        var i :| 0 <= i < |p.assignments| && p.assignments[i] == a;
        var j :| 0 <= j < |p.assignments| && p.assignments[j] == l.a;
      }
    }
  }

  lemma UndisturbedIsComplete(p: Program, t: Table)
    requires Sound(p, t) && Seeded(p.assignments, t) && Undisturbed(p, t) && Round(p, t) == t
    ensures Complete(p, t)
  {
    SoundIsInText(p, t);
    SettledIsQuiet(p, t);
    forall a | a in p.assignments && Handing(p, t, a) ensures TaintedBy(t, a.target, a.position) {
      if !a.credential {
        assert AssignStep(p, t, a) == t;
        FirstHandedExact(t, Handoffs(p, a.expression), a.position);
      }
      UndisturbedIsPlaced(p, t, a);
    }
    CompleteExactly(p, t);
  }

  /** With separate names a settled table is complete. */
  lemma SeparateIsComplete(p: Program, t: Table)
    requires Sound(p, t) && Seeded(p.assignments, t) && Separate(p) && Round(p, t) == t
    ensures Complete(p, t)
  {
    UndisturbedIsComplete(p, t);
  }
}
