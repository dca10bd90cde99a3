/**
 Taint from credential reads to network bodies, within one file: names that read a
 credential, the assignments and property writes that hand a value on, in rounds, and the
 first place where a tainted name is sent.

 What the patterns recognise is given: each assignment knows whether it reads a credential,
 which names it hands on, and where it stands.
 */
module ValueFlow {
  import opened Options
  import opened Iteration

  type Name = string

  /** A stop on a flow's path, as the names written in it: `x`, `object.property` or
      `function:parameter:return`. */
  type Stop = seq<Name>

  datatype Flow = Flow(
    source: Name, path: seq<Stop>, sourcePosition: nat, lastPosition: nat, transformed: bool)

  datatype Expression =
    | Identifier(name: Name)
    | Transform(names: set<Name>)
    | Call(callee: Name, arguments: seq<set<Name>>)
    | Other

  datatype Assignment = Assignment(
    target: Name, expression: Expression, transforms: bool, position: nat, credential: bool)

  datatype Property = Property(container: Name, property: Name, names: set<Name>, position: nat)

  datatype Summary_ = Summary(parameters: seq<Name>, sent: seq<nat>, returned: seq<nat>, transformedReturns: set<nat>)

  /** What a function does with its parameters. */
  type Summary = s: Summary_ |
      && (forall k :: 0 <= k < |s.sent| ==> s.sent[k] < |s.parameters|)
      && (forall k :: 0 <= k < |s.returned| ==> s.returned[k] < |s.parameters|)
    witness Summary([], [], [], {})

  datatype Sink = Sink(names: set<Name>, position: nat)

  datatype CallSite = CallSite(callee: Name, arguments: seq<set<Name>>, position: nat)

  datatype Program = Program(
    assignments: seq<Assignment>,
    properties: seq<Property>,
    functions: map<Name, Summary>,
    sinks: seq<Sink>,
    calls: seq<CallSite>)

  datatype Table_ = Table(order: seq<Name>, flows: map<Name, Flow>)

  /** The tainted names, in the order they were first tainted. */
  type Table = t: Table_ | forall n :: n in t.order <==> n in t.flows witness Table([], map[])

  function Put(t: Table, name: Name, flow: Flow): Table {
    Table(if name in t.flows then t.order else t.order + [name], t.flows[name := flow])
  }

  // ----- Who is tainted

  function FirstIn(order: seq<Name>, flows: map<Name, Flow>, names: set<Name>, before: nat): Option<Name> {
    if order == [] then None
    else if order[0] in names && order[0] in flows && flows[order[0]].lastPosition <= before then Some(order[0])
    else FirstIn(order[1..], flows, names, before)
  }

  /** The first tainted name among some, as of a place in the text. */
  function First(t: Table, names: set<Name>, before: nat): Option<Name> {
    FirstIn(t.order, t.flows, names, before)
  }

  predicate TaintedBy(t: Table, name: Name, before: nat) {
    name in t.flows && t.flows[name].lastPosition <= before
  }

  lemma {:induction false} FirstInExact(order: seq<Name>, flows: map<Name, Flow>, names: set<Name>, before: nat)
    ensures match FirstIn(order, flows, names, before)
            case Some(n) => n in order && n in names && n in flows && flows[n].lastPosition <= before
            case None => forall n :: n in order && n in names && n in flows ==> flows[n].lastPosition > before
  {
    if order != [] {
      FirstInExact(order[1..], flows, names, before);
    }
  }

  lemma FirstExact(t: Table, names: set<Name>, before: nat)
    ensures match First(t, names, before)
            case Some(n) => n in names && TaintedBy(t, n, before)
            case None => forall n :: n in names ==> !TaintedBy(t, n, before)
  {
    FirstInExact(t.order, t.flows, names, before);
  }

  /** What is chosen is the first in the order in which names were tainted. */
  lemma {:induction false} FirstInChosen(order: seq<Name>, flows: map<Name, Flow>, names: set<Name>, before: nat)
    returns (i: nat)
    requires FirstIn(order, flows, names, before).Some?
    ensures i < |order| && FirstIn(order, flows, names, before) == Some(order[i])
    ensures forall j :: 0 <= j < i && order[j] in names && order[j] in flows ==> flows[order[j]].lastPosition > before
  {
    if order[0] in names && order[0] in flows && flows[order[0]].lastPosition <= before {
      i := 0;
    } else {
      var k := FirstInChosen(order[1..], flows, names, before);
      i := k + 1;
    }
  }

  lemma FirstChosen(t: Table, names: set<Name>, before: nat) returns (i: nat)
    requires First(t, names, before).Some?
    ensures i < |t.order| && First(t, names, before) == Some(t.order[i])
    ensures t.order[i] in names && TaintedBy(t, t.order[i], before)
    ensures forall j :: 0 <= j < i && t.order[j] in names ==> !TaintedBy(t, t.order[j], before)
  {
    i := FirstInChosen(t.order, t.flows, names, before);
    FirstExact(t, names, before);
  }

  /** A name handed on: by what, whether it is transformed, and through which call. */
  datatype Handoff = Handoff(names: set<Name>, transforms: bool, via: seq<Stop>)

  /** The ways a call hands on an argument: one for each parameter that is returned. */
  function Returned(name: Name, summary: Summary, arguments: seq<set<Name>>, returned: seq<nat>): seq<Handoff>
    requires forall k :: 0 <= k < |returned| ==> returned[k] < |summary.parameters|
  {
    if returned == [] then []
    else
      var rest := Returned(name, summary, arguments, returned[1..]);
      if returned[0] >= |arguments| then rest
      else
        var k := returned[0];
        var via := [[name, summary.parameters[k], "return"]];
        [Handoff(arguments[k], k in summary.transformedReturns, via)] + rest
  }

  /** The ways an expression hands on a value, first choice first. */
  function Handoffs(p: Program, e: Expression): seq<Handoff> {
    match e
    case Identifier(name) => [Handoff({name}, false, [])]
    case Transform(names) => [Handoff(names, true, [])]
    case Call(f, arguments) =>
      if f in p.functions then Returned(f, p.functions[f], arguments, p.functions[f].returned) else []
    case Other => []
  }

  /** A call hands on the argument in the place of a parameter that its function returns. */
  ghost predicate HandsArgument(p: Program, f: Name, arguments: seq<set<Name>>, n: nat, how: Handoff) {
    && f in p.functions && n < |p.functions[f].returned|
    && var k := p.functions[f].returned[n];
    && k < |arguments|
    && how.names == arguments[k] && (how.transforms <==> k in p.functions[f].transformedReturns)
    && how.via == [[f, p.functions[f].parameters[k], "return"]]
  }

  /** What an expression hands on: a name as it is, names that it transforms, or arguments. */
  ghost predicate HandsOn(p: Program, e: Expression, how: Handoff) {
    match e
    case Identifier(name) => how.names == {name} && !how.transforms && how.via == []
    case Transform(names) => how.names == names && how.transforms && how.via == []
    case Call(f, arguments) => exists n :: HandsArgument(p, f, arguments, n, how)
    case Other => false
  }

  ghost predicate HasArgument(p: Program, f: Name, arguments: seq<set<Name>>, n: nat) {
    f in p.functions && n < |p.functions[f].returned| && p.functions[f].returned[n] < |arguments|
  }

  ghost predicate HandEach(p: Program, f: Name, arguments: seq<set<Name>>, r: seq<Handoff>, at: seq<nat>) {
    |at| == |r| && forall j :: 0 <= j < |r| ==> HandsArgument(p, f, arguments, at[j], r[j])
  }

  ghost predicate Rising(at: seq<nat>) {
    forall i, j :: 0 <= i < j < |at| ==> at[i] < at[j]
  }

  /** The returned parameters from the `from`th on that have an argument, in their order. */
  ghost predicate ReturnsFrom(p: Program, f: Name, arguments: seq<set<Name>>, from: nat, r: seq<Handoff>,
                              at: seq<nat>)
  {
    && HandEach(p, f, arguments, r, at) && Rising(at)
    && forall n :: n in at <==> n >= from && HasArgument(p, f, arguments, n)
  }

  lemma {:induction false} ReturnedInOrder(p: Program, f: Name, arguments: seq<set<Name>>, from: nat)
    returns (at: seq<nat>)
    requires f in p.functions && from <= |p.functions[f].returned|
    ensures ReturnsFrom(p, f, arguments, from,
                        Returned(f, p.functions[f], arguments, p.functions[f].returned[from..]), at)
    decreases |p.functions[f].returned| - from
  {
    var summary := p.functions[f];
    if from == |summary.returned| {
      at := [];
    } else {
      var rest := ReturnedInOrder(p, f, arguments, from + 1);
      assert summary.returned[from..][1..] == summary.returned[from + 1..];
      var later := Returned(f, summary, arguments, summary.returned[from + 1..]);
      at := if summary.returned[from] >= |arguments| then rest else [from] + rest;
      if summary.returned[from] < |arguments| {
        var k := summary.returned[from];
        var how := Handoff(arguments[k], k in summary.transformedReturns, [[f, summary.parameters[k], "return"]]);
        ReturnsOneMore(p, f, arguments, from, how, later, rest);
      }
    }
  }

  lemma HandOneMore(p: Program, f: Name, arguments: seq<set<Name>>, from: nat, how: Handoff, r: seq<Handoff>,
                    at: seq<nat>)
    requires HandEach(p, f, arguments, r, at) && HandsArgument(p, f, arguments, from, how)
    ensures HandEach(p, f, arguments, [how] + r, [from] + at)
  {
  }

  lemma RisesFrom(from: nat, at: seq<nat>)
    requires Rising(at) && forall n :: n in at ==> n > from
    ensures Rising([from] + at)
  {
    assert forall j :: 0 <= j < |at| ==> at[j] in at;
  }

  lemma ReturnsOneMore(p: Program, f: Name, arguments: seq<set<Name>>, from: nat, how: Handoff, r: seq<Handoff>,
                       at: seq<nat>)
    requires ReturnsFrom(p, f, arguments, from + 1, r, at) && HandsArgument(p, f, arguments, from, how)
    ensures ReturnsFrom(p, f, arguments, from, [how] + r, [from] + at)
  {
    HandOneMore(p, f, arguments, from, how, r, at);
    RisesFrom(from, at);
    assert forall n :: n in [from] + at <==> n == from || n in at;
  }

  /** They are tried in the order of the parameters that are returned. */
  lemma CallHandsInOrder(p: Program, f: Name, arguments: seq<set<Name>>) returns (at: seq<nat>)
    requires f in p.functions
    ensures ReturnsFrom(p, f, arguments, 0, Handoffs(p, Call(f, arguments)), at)
  {
    at := ReturnedInOrder(p, f, arguments, 0);
    assert p.functions[f].returned[0..] == p.functions[f].returned;
  }

  lemma HandoffsExact(p: Program, e: Expression, how: Handoff)
    ensures how in Handoffs(p, e) <==> HandsOn(p, e, how)
  {
    if e.Call? && e.callee in p.functions {
      var at := CallHandsInOrder(p, e.callee, e.arguments);
      if how in Handoffs(p, e) {
        var j :| 0 <= j < |at| && Handoffs(p, e)[j] == how;
        assert HandsArgument(p, e.callee, e.arguments, at[j], how);
      }
      if n :| HandsArgument(p, e.callee, e.arguments, n, how) {
        assert n in at;
        var j :| 0 <= j < |at| && at[j] == n;
        assert Handoffs(p, e)[j] == how;
      }
    }
  }

  datatype Handed = Handed(source: Name, how: Handoff)

  function FirstHanded(t: Table, handoffs: seq<Handoff>, position: nat): Option<Handed> {
    if handoffs == [] then None
    else
      var source := First(t, handoffs[0].names, position);
      if source.Some? then Some(Handed(source.value, handoffs[0])) else FirstHanded(t, handoffs[1..], position)
  }

  /** What taints an assignment. */
  function AssignmentSource(p: Program, t: Table, a: Assignment): Option<Handed> {
    FirstHanded(t, Handoffs(p, a.expression), a.position)
  }

  lemma {:induction false} FirstHandedExact(t: Table, handoffs: seq<Handoff>, position: nat)
    ensures match FirstHanded(t, handoffs, position)
            case Some(h) => h.how in handoffs && h.source in h.how.names && TaintedBy(t, h.source, position)
            case None => forall h, n :: h in handoffs && n in h.names ==> !TaintedBy(t, n, position)
  {
    if handoffs != [] {
      FirstExact(t, handoffs[0].names, position);
      FirstHandedExact(t, handoffs[1..], position);
      assert handoffs == [handoffs[0]] + handoffs[1..];
    }
  }

  /** Of the ways a value is handed on, the first that hands on a tainted name is taken. */
  lemma {:induction false} FirstHandedChosen(t: Table, handoffs: seq<Handoff>, position: nat) returns (i: nat)
    requires FirstHanded(t, handoffs, position).Some?
    ensures i < |handoffs| && First(t, handoffs[i].names, position).Some?
    ensures FirstHanded(t, handoffs, position) == Some(Handed(First(t, handoffs[i].names, position).value, handoffs[i]))
    ensures forall j, n :: 0 <= j < i && n in handoffs[j].names ==> !TaintedBy(t, n, position)
  {
    FirstExact(t, handoffs[0].names, position);
    if First(t, handoffs[0].names, position).Some? {
      i := 0;
    } else {
      var k := FirstHandedChosen(t, handoffs[1..], position);
      i := k + 1;
    }
  }

  // ----- The rounds

  function SeedFlow(a: Assignment): Flow {
    Flow(a.target, [[a.target]], a.position, a.position, false)
  }

  function AssignedFlow(from: Flow, a: Assignment, how: Handoff): Flow {
    Flow(from.source, from.path + how.via + [[a.target]], from.sourcePosition, a.position,
         a.transforms || how.transforms || from.transformed)
  }

  function StoredFlow(from: Flow, q: Property): Flow {
    from.(path := from.path + [[q.container, q.property], [q.container]], lastPosition := q.position)
  }

  function Seeds(assignments: seq<Assignment>, t: Table): Table
    decreases |assignments|
  {
    if assignments == [] then t
    else
      var a := assignments[0];
      Seeds(assignments[1..], if a.credential then Put(t, a.target, SeedFlow(a)) else t)
  }

  /** One assignment: a name that is tainted already stays as it is. */
  function AssignStep(p: Program, t: Table, a: Assignment): Table {
    if a.target in t.flows then t
    else
      var handed := AssignmentSource(p, t, a);
      if handed.None? || handed.value.source !in t.flows then t
      else Put(t, a.target, AssignedFlow(t.flows[handed.value.source], a, handed.value.how))
  }

  /** One property write: an object that is tainted by then stays as it is. */
  function StoreStep(t: Table, q: Property): Table {
    var source := First(t, q.names, q.position);
    if source.None? || source.value !in t.flows || TaintedBy(t, q.container, q.position) then t
    else Put(t, q.container, StoredFlow(t.flows[source.value], q))
  }

  function AssignPass(p: Program, t: Table, assignments: seq<Assignment>): Table
    decreases |assignments|
  {
    if assignments == [] then t else AssignPass(p, AssignStep(p, t, assignments[0]), assignments[1..])
  }

  function StorePass(t: Table, properties: seq<Property>): Table
    decreases |properties|
  {
    if properties == [] then t else StorePass(StoreStep(t, properties[0]), properties[1..])
  }

  function Round(p: Program, t: Table): Table {
    StorePass(AssignPass(p, t, p.assignments), p.properties)
  }

  const MAX_VALUE_PROPAGATION_ROUNDS := 32

  function RoundOf(p: Program): Table -> Table {
    t => Round(p, t)
  }

  // ----- The order of tainting

  /** Names keep their places; what is tainted anew comes after them. */
  lemma PutExtends(t: Table, name: Name, flow: Flow)
    ensures t.order <= Put(t, name, flow).order <= t.order + [name]
  {
  }

  lemma {:induction false} SeedsExtend(assignments: seq<Assignment>, t: Table)
    ensures t.order <= Seeds(assignments, t).order
    decreases |assignments|
  {
    if assignments != [] {
      var a := assignments[0];
      SeedsExtend(assignments[1..], if a.credential then Put(t, a.target, SeedFlow(a)) else t);
    }
  }

  lemma {:induction false} AssignPassExtends(p: Program, t: Table, assignments: seq<Assignment>)
    ensures t.order <= AssignPass(p, t, assignments).order
    decreases |assignments|
  {
    if assignments != [] {
      AssignPassExtends(p, AssignStep(p, t, assignments[0]), assignments[1..]);
    }
  }

  lemma {:induction false} StorePassExtends(t: Table, properties: seq<Property>)
    ensures t.order <= StorePass(t, properties).order
    decreases |properties|
  {
    if properties != [] {
      StorePassExtends(StoreStep(t, properties[0]), properties[1..]);
    }
  }

  /** The order of the table is the order in which names were first tainted: a round only adds
      to its end, and so do the seeds. */
  lemma RoundExtends(p: Program, t: Table)
    ensures t.order <= Round(p, t).order
  {
    AssignPassExtends(p, t, p.assignments);
    StorePassExtends(AssignPass(p, t, p.assignments), p.properties);
  }

  /** So many rounds. */
  function Rounds(p: Program, t: Table, cap: nat): Table {
    Iterate(RoundOf(p), t, cap)
  }

  function SeedsOf(p: Program): Table {
    Seeds(p.assignments, Table([], map[]))
  }

  function Tainted(p: Program): Table {
    Rounds(p, SeedsOf(p), MAX_VALUE_PROPAGATION_ROUNDS)
  }

  lemma RoundsFirst(p: Program, t: Table, cap: nat)
    requires cap > 0
    ensures Rounds(p, t, cap) == Rounds(p, Round(p, t), cap - 1)
  {
  }

  /** After a round that changes nothing there is nothing to do. */
  lemma RoundsStop(p: Program, t: Table, cap: nat)
    requires Round(p, t) == t
    ensures Rounds(p, t, cap) == t
  {
    IterateStops(RoundOf(p), t, cap);
  }

  // ----- The rounds settle

  ghost predicate Lowers(t: Table, u: Table) {
    forall n :: n in t.flows ==> n in u.flows && u.flows[n].lastPosition <= t.flows[n].lastPosition
  }

  lemma AssignStepLowers(p: Program, t: Table, a: Assignment)
    ensures Lowers(t, AssignStep(p, t, a))
  {
  }

  lemma StoreStepLowers(t: Table, q: Property)
    ensures Lowers(t, StoreStep(t, q))
  {
  }

  lemma {:induction false} AssignPassLowers(p: Program, t: Table, assignments: seq<Assignment>)
    ensures Lowers(t, AssignPass(p, t, assignments))
    decreases |assignments|
  {
    if assignments != [] {
      AssignStepLowers(p, t, assignments[0]);
      AssignPassLowers(p, AssignStep(p, t, assignments[0]), assignments[1..]);
    }
  }

  lemma {:induction false} StorePassLowers(t: Table, properties: seq<Property>)
    ensures Lowers(t, StorePass(t, properties))
    decreases |properties|
  {
    if properties != [] {
      StoreStepLowers(t, properties[0]);
      StorePassLowers(StoreStep(t, properties[0]), properties[1..]);
    }
  }

  lemma RoundLowers(p: Program, t: Table)
    ensures Lowers(t, Round(p, t))
  {
    AssignPassLowers(p, t, p.assignments);
    StorePassLowers(AssignPass(p, t, p.assignments), p.properties);
  }

  /** A position above every assignment and property write. */
  ghost function Ceiling(assignments: seq<Assignment>, properties: seq<Property>): nat {
    if assignments != [] then assignments[0].position + 1 + Ceiling(assignments[1..], properties)
    else if properties != [] then properties[0].position + 1 + Ceiling(assignments, properties[1..])
    else 0
  }

  lemma {:induction false} CeilingIsAbove(assignments: seq<Assignment>, properties: seq<Property>)
    ensures forall a :: a in assignments ==> a.position < Ceiling(assignments, properties)
    ensures forall q :: q in properties ==> q.position < Ceiling(assignments, properties)
    decreases |assignments| + |properties|
  {
    if assignments != [] {
      CeilingIsAbove(assignments[1..], properties);
      assert assignments == [assignments[0]] + assignments[1..];
    } else if properties != [] {
      CeilingIsAbove(assignments, properties[1..]);
      assert properties == [properties[0]] + properties[1..];
    }
  }

  ghost function Height(t: Table, n: Name, ceiling: nat): nat {
    if n in t.flows then t.flows[n].lastPosition else ceiling
  }

  /** How far the names have to fall: each counts its position, or the ceiling when it is
      not tainted. */
  ghost function Slack(t: Table, names: seq<Name>, ceiling: nat): nat {
    if names == [] then 0 else Height(t, names[0], ceiling) + Slack(t, names[1..], ceiling)
  }

  ghost predicate Below(t: Table, ceiling: nat) {
    forall n :: n in t.flows ==> t.flows[n].lastPosition < ceiling
  }

  lemma {:induction false} SlackFalls(t: Table, u: Table, names: seq<Name>, ceiling: nat)
    requires Lowers(t, u) && Below(u, ceiling)
    ensures Slack(u, names, ceiling) <= Slack(t, names, ceiling)
    ensures (exists n :: n in names && Height(u, n, ceiling) < Height(t, n, ceiling)) ==>
              Slack(u, names, ceiling) < Slack(t, names, ceiling)
  {
    if names != [] {
      SlackFalls(t, u, names[1..], ceiling);
      assert names == [names[0]] + names[1..];
    }
  }

  /** The names that can be tainted. */
  ghost function NamesOf(assignments: seq<Assignment>, properties: seq<Property>): seq<Name> {
    if assignments != [] then [assignments[0].target] + NamesOf(assignments[1..], properties)
    else if properties != [] then [properties[0].container] + NamesOf(assignments, properties[1..])
    else []
  }

  lemma {:induction false} NamesAreThere(assignments: seq<Assignment>, properties: seq<Property>)
    ensures forall a :: a in assignments ==> a.target in NamesOf(assignments, properties)
    ensures forall q :: q in properties ==> q.container in NamesOf(assignments, properties)
    decreases |assignments| + |properties|
  {
    if assignments != [] {
      NamesAreThere(assignments[1..], properties);
      assert assignments == [assignments[0]] + assignments[1..];
    } else if properties != [] {
      NamesAreThere(assignments, properties[1..]);
      assert properties == [properties[0]] + properties[1..];
    }
  }

  /** A step that changes the table makes a name fall. */
  ghost predicate Falls(t: Table, u: Table, names: seq<Name>, ceiling: nat) {
    Lowers(t, u) && (t == u || exists n :: n in names && Height(u, n, ceiling) < Height(t, n, ceiling))
  }

  lemma FallsTwice(t: Table, u: Table, v: Table, names: seq<Name>, ceiling: nat)
    requires Falls(t, u, names, ceiling) && Falls(u, v, names, ceiling) && Below(u, ceiling) && Below(v, ceiling)
    ensures Falls(t, v, names, ceiling)
  {
    if t != u {
      var n :| n in names && Height(u, n, ceiling) < Height(t, n, ceiling);
      assert Height(v, n, ceiling) < Height(t, n, ceiling);
    }
  }

  lemma AssignStepFalls(p: Program, t: Table, a: Assignment, names: seq<Name>, ceiling: nat)
    requires Below(t, ceiling) && a.target in names && a.position < ceiling
    ensures var u := AssignStep(p, t, a); Below(u, ceiling) && Falls(t, u, names, ceiling)
  {
    var u := AssignStep(p, t, a);
    if t != u {
      assert Height(u, a.target, ceiling) < Height(t, a.target, ceiling);
    }
  }

  lemma StoreStepFalls(t: Table, q: Property, names: seq<Name>, ceiling: nat)
    requires Below(t, ceiling) && q.container in names && q.position < ceiling
    ensures var u := StoreStep(t, q); Below(u, ceiling) && Falls(t, u, names, ceiling)
  {
    var u := StoreStep(t, q);
    if t != u {
      assert Height(u, q.container, ceiling) < Height(t, q.container, ceiling);
    }
  }

  lemma {:induction false} AssignPassFalls(
    p: Program, t: Table, assignments: seq<Assignment>, names: seq<Name>, ceiling: nat)
    requires Below(t, ceiling) && forall a :: a in assignments ==> a.target in names && a.position < ceiling
    ensures var u := AssignPass(p, t, assignments); Below(u, ceiling) && Falls(t, u, names, ceiling)
    decreases |assignments|
  {
    if assignments != [] {
      var u := AssignStep(p, t, assignments[0]);
      AssignStepFalls(p, t, assignments[0], names, ceiling);
      AssignPassFalls(p, u, assignments[1..], names, ceiling);
      FallsTwice(t, u, AssignPass(p, u, assignments[1..]), names, ceiling);
    }
  }

  lemma {:induction false} StorePassFalls(t: Table, properties: seq<Property>, names: seq<Name>, ceiling: nat)
    requires Below(t, ceiling) && forall q :: q in properties ==> q.container in names && q.position < ceiling
    ensures var u := StorePass(t, properties); Below(u, ceiling) && Falls(t, u, names, ceiling)
    decreases |properties|
  {
    if properties != [] {
      var u := StoreStep(t, properties[0]);
      StoreStepFalls(t, properties[0], names, ceiling);
      StorePassFalls(u, properties[1..], names, ceiling);
      FallsTwice(t, u, StorePass(u, properties[1..]), names, ceiling);
    }
  }

  ghost function SlackOf(p: Program, t: Table): nat {
    Slack(t, NamesOf(p.assignments, p.properties), Ceiling(p.assignments, p.properties))
  }

  /** A table the rounds can work on. */
  ghost predicate InText(p: Program, t: Table) {
    Below(t, Ceiling(p.assignments, p.properties))
  }

  /** A round that changes anything uses up slack. */
  lemma RoundUsesSlack(p: Program, t: Table)
    requires InText(p, t)
    ensures InText(p, Round(p, t))
    ensures Round(p, t) != t ==> SlackOf(p, Round(p, t)) < SlackOf(p, t)
  {
    var names, ceiling := NamesOf(p.assignments, p.properties), Ceiling(p.assignments, p.properties);
    NamesAreThere(p.assignments, p.properties);
    CeilingIsAbove(p.assignments, p.properties);
    var u := AssignPass(p, t, p.assignments);
    AssignPassFalls(p, t, p.assignments, names, ceiling);
    StorePassFalls(u, p.properties, names, ceiling);
    FallsTwice(t, u, Round(p, t), names, ceiling);
    SlackFalls(t, Round(p, t), names, ceiling);
  }

  lemma RoundsSettle(p: Program, t: Table, cap: nat)
    requires InText(p, t) && cap >= SlackOf(p, t)
    ensures Round(p, Rounds(p, t, cap)) == Rounds(p, t, cap)
  {
    var keeps, slack := (u: Table) => InText(p, u), (u: Table) => SlackOf(p, u);
    forall u: Table | keeps(u)
      ensures keeps(RoundOf(p)(u)) && (RoundOf(p)(u) != u ==> slack(RoundOf(p)(u)) < slack(u))
    {
      RoundUsesSlack(p, u);
    }
    IterateSettles(RoundOf(p), keeps, slack, t, cap);
  }

  /** The rounds without a cap: as many as the names have room to fall always settle. */
  ghost function Settled(p: Program, t: Table): (u: Table)
    requires InText(p, t)
    ensures Round(p, u) == u
  {
    RoundsSettle(p, t, SlackOf(p, t));
    Rounds(p, t, SlackOf(p, t))
  }

  /** The capped rounds give the settled table exactly when one more round would change
      nothing. */
  lemma CapExact(p: Program, t: Table, cap: nat)
    requires InText(p, t)
    ensures Rounds(p, t, cap) == Settled(p, t) <==> Round(p, Rounds(p, t, cap)) == Rounds(p, t, cap)
  {
    if Round(p, Rounds(p, t, cap)) == Rounds(p, t, cap) {
      RoundsSettle(p, t, SlackOf(p, t));
      IterateSettlesOnce(RoundOf(p), t, cap, SlackOf(p, t));
    }
  }
}
