/**
 The credential flow a file is reported for: rounds of taint, then the first place where a
 tainted name is sent and every name on its path is assigned once.
 */
module ValueReport {
  import opened Options
  import opened Iteration
  import opened ValueFlow
  import opened ValueLineage

  /** A place where values leave: a request body, or an argument that a function sends. */
  datatype Send = Send(names: set<Name>, position: nat, via: seq<Stop>)

  datatype Report = Report(
    source: Name, sink: Name, path: seq<Stop>, transformed: bool, sourcePosition: nat, sinkPosition: nat)

  /** The arguments a call sends. */
  function SentBy(call: CallSite, summary: Summary, sent: seq<nat>): seq<Send>
    requires forall k :: 0 <= k < |sent| ==> sent[k] < |summary.parameters|
  {
    if sent == [] then []
    else
      var rest := SentBy(call, summary, sent[1..]);
      if sent[0] >= |call.arguments| then rest
      else [Send(call.arguments[sent[0]], call.position, [[call.callee, summary.parameters[sent[0]]]])] + rest
  }

  function SendsOfCall(p: Program, call: CallSite): seq<Send> {
    if call.callee in p.functions then SentBy(call, p.functions[call.callee], p.functions[call.callee].sent) else []
  }

  function SendsOfCalls(p: Program, calls: seq<CallSite>): seq<Send> {
    if calls == [] then [] else SendsOfCall(p, calls[0]) + SendsOfCalls(p, calls[1..])
  }

  function SendsOfSinks(sinks: seq<Sink>): seq<Send> {
    seq(|sinks|, i requires 0 <= i < |sinks| => Send(sinks[i].names, sinks[i].position, []))
  }

  /** Every place where values leave, in the order they are looked at. */
  function Sends(p: Program): seq<Send> {
    SendsOfSinks(p.sinks) + SendsOfCalls(p, p.calls)
  }

  /** The `n`th parameter that the function of the `c`th call sends has an argument. */
  ghost predicate IsSent(p: Program, o: Origin) {
    && o.call < |p.calls| && p.calls[o.call].callee in p.functions
    && o.sent < |p.functions[p.calls[o.call].callee].sent|
    && p.functions[p.calls[o.call].callee].sent[o.sent] < |p.calls[o.call].arguments|
  }

  datatype Origin = Origin(call: nat, sent: nat)

  ghost predicate Earlier(a: Origin, b: Origin) {
    a.call < b.call || (a.call == b.call && a.sent < b.sent)
  }

  /** That argument is what leaves, at the call, through that parameter. */
  ghost predicate IsSendOf(p: Program, o: Origin, s: Send) {
    && IsSent(p, o)
    && var call := p.calls[o.call];
    var k := p.functions[call.callee].sent[o.sent];
    && s.names == call.arguments[k] && s.position == call.position
    && s.via == [[call.callee, p.functions[call.callee].parameters[k]]]
  }

  /** Values leave in the body of a request, or as an argument that a function sends. */
  ghost predicate IsSend(p: Program, s: Send) {
    || (exists sink :: sink in p.sinks && s.names == sink.names && s.position == sink.position && s.via == [])
    || exists o :: IsSendOf(p, o, s)
  }

  /** All that is sent between two places in the calls, in their order. */
  ghost predicate SentBetween(p: Program, sends: seq<Send>, origins: seq<Origin>, lo: Origin, hi: Origin) {
    && |origins| == |sends| && (forall j :: 0 <= j < |sends| ==> IsSendOf(p, origins[j], sends[j]))
    && (forall i, j :: 0 <= i < j < |origins| ==> Earlier(origins[i], origins[j]))
    && (forall o :: o in origins <==> IsSent(p, o) && !Earlier(o, lo) && Earlier(o, hi))
  }

  lemma SentConcat(p: Program, a: seq<Send>, os: seq<Origin>, b: seq<Send>, os': seq<Origin>,
                   lo: Origin, mid: Origin, hi: Origin)
    requires SentBetween(p, a, os, lo, mid) && SentBetween(p, b, os', mid, hi)
    requires !Earlier(mid, lo) && !Earlier(hi, mid)
    ensures SentBetween(p, a + b, os + os', lo, hi)
  {
    forall i, j | 0 <= i < j < |os + os'| ensures Earlier((os + os')[i], (os + os')[j]) {
      if i < |os| <= j {
        assert os[i] in os && os'[j - |os|] in os';
      }
    }
  }

  lemma {:induction false} SentByInOrder(p: Program, c: nat, k: nat) returns (origins: seq<Origin>)
    requires c < |p.calls| && p.calls[c].callee in p.functions && k <= |p.functions[p.calls[c].callee].sent|
    ensures var summary := p.functions[p.calls[c].callee];
            SentBetween(p, SentBy(p.calls[c], summary, summary.sent[k..]), origins, Origin(c, k), Origin(c + 1, 0))
    decreases |p.functions[p.calls[c].callee].sent| - k
  {
    var call, summary := p.calls[c], p.functions[p.calls[c].callee];
    if k == |summary.sent| {
      origins := [];
    } else {
      var rest := SentByInOrder(p, c, k + 1);
      assert summary.sent[k..][1..] == summary.sent[k + 1..];
      var here := Origin(c, k);
      var (first, own) := if summary.sent[k] >= |call.arguments| then ([], [])
                          else ([Send(call.arguments[summary.sent[k]], call.position,
                                [[call.callee, summary.parameters[summary.sent[k]]]])],
                                [here]);
      assert SentBetween(p, first, own, here, Origin(c, k + 1)) by {
        assert forall o :: !Earlier(o, here) && Earlier(o, Origin(c, k + 1)) ==> o == here;
      }
      SentConcat(p, first, own, SentBy(call, summary, summary.sent[k + 1..]), rest, here, Origin(c, k + 1),
                 Origin(c + 1, 0));
      origins := own + rest;
      assert SentBy(call, summary, summary.sent[k..]) == first + SentBy(call, summary, summary.sent[k + 1..]);
    }
  }

  lemma {:induction false} CallsInOrder(p: Program, c: nat) returns (origins: seq<Origin>)
    requires c <= |p.calls|
    ensures SentBetween(p, SendsOfCalls(p, p.calls[c..]), origins, Origin(c, 0), Origin(|p.calls|, 0))
    decreases |p.calls| - c
  {
    if c == |p.calls| {
      origins := [];
    } else {
      var rest := CallsInOrder(p, c + 1);
      assert p.calls[c..][1..] == p.calls[c + 1..];
      var own: seq<Origin> := [];
      if p.calls[c].callee in p.functions {
        var sent := p.functions[p.calls[c].callee].sent;
        own := SentByInOrder(p, c, 0);
        assert sent[0..] == sent;
      }
      SentConcat(p, SendsOfCall(p, p.calls[c]), own, SendsOfCalls(p, p.calls[c + 1..]), rest, Origin(c, 0),
                 Origin(c + 1, 0), Origin(|p.calls|, 0));
      origins := own + rest;
    }
  }

  /** The places are looked at in this order: the sinks, then the calls, each with the
      parameters its function sends in their order. */
  lemma SendsInOrder(p: Program) returns (origins: seq<Origin>)
    ensures |Sends(p)| == |p.sinks| + |origins|
    ensures forall i :: 0 <= i < |p.sinks| ==> Sends(p)[i] == Send(p.sinks[i].names, p.sinks[i].position, [])
    ensures forall j :: 0 <= j < |origins| ==> IsSendOf(p, origins[j], Sends(p)[|p.sinks| + j])
    ensures forall i, j :: 0 <= i < j < |origins| ==> Earlier(origins[i], origins[j])
    ensures forall o :: o in origins <==> IsSent(p, o)
  {
    origins := CallsInOrder(p, 0);
    assert p.calls[0..] == p.calls;
  }

  lemma OneSendEach(p: Program, o: Origin, s: Send, s': Send)
    requires IsSendOf(p, o, s) && IsSendOf(p, o, s')
    ensures s == s'
  {
  }

  /** And they are all the places where values leave. */
  lemma SendsExact(p: Program, s: Send)
    ensures s in Sends(p) <==> IsSend(p, s)
  {
    var origins := SendsInOrder(p);
    if s in Sends(p) {
      var i :| 0 <= i < |Sends(p)| && Sends(p)[i] == s;
      if i < |p.sinks| {
        assert p.sinks[i] in p.sinks;
      } else {
        assert IsSendOf(p, origins[i - |p.sinks|], s);
      }
    }
    if sink :| sink in p.sinks && s.names == sink.names && s.position == sink.position && s.via == [] {
      var i :| 0 <= i < |p.sinks| && p.sinks[i] == sink;
      assert Sends(p)[i] == s;
    }
    if o :| IsSendOf(p, o, s) {
      var j :| 0 <= j < |origins| && origins[j] == o;
      OneSendEach(p, o, s, Sends(p)[|p.sinks| + j]);
    }
  }

  /** The names that are assigned more than once. */
  function Ambiguous(assignments: seq<Assignment>): set<Name> {
    set i, j | 0 <= i < j < |assignments| && assignments[i].target == assignments[j].target :: assignments[i].target
  }

  predicate Names(flow: Flow, n: Name) {
    flow.source == n || exists i :: 0 <= i < |flow.path| && n in flow.path[i]
  }

  predicate IsAmbiguous(p: Program, flow: Flow) {
    exists n :: n in Ambiguous(p.assignments) && Names(flow, n)
  }

  function ReportOf(p: Program, t: Table, s: Send): Option<Report> {
    var sink := First(t, s.names, s.position);
    if sink.None? || sink.value !in t.flows || IsAmbiguous(p, t.flows[sink.value]) then None
    else
      var flow := t.flows[sink.value];
      Some(Report(flow.source, sink.value, flow.path + s.via, flow.transformed, flow.sourcePosition, s.position))
  }

  function FirstReport(p: Program, t: Table, sends: seq<Send>): Option<Report> {
    if sends == [] then None
    else if ReportOf(p, t, sends[0]).Some? then ReportOf(p, t, sends[0])
    else FirstReport(p, t, sends[1..])
  }

  // ----- What a report says

  /** A lineage arrives where values leave. */
  ghost predicate Leaks(p: Program, l: Lineage, s: Send) {
    Valid(p, l) && IsSend(p, s) && NameOf(l) in s.names && PositionOf(l) <= s.position
  }

  ghost predicate Describes(r: Report, l: Lineage, s: Send) {
    && r.source == Root(l).target && r.sink == NameOf(l) && r.path == Route(l) + s.via
    && (r.transformed <==> Transforms(l))
    && r.sourcePosition == Root(l).position && r.sinkPosition == s.position
  }

  /** No name that is assigned twice stands on a path or at its source. */
  ghost predicate Clear(p: Program, source: Name, path: seq<Stop>) {
    forall i, j :: 0 <= i < j < |p.assignments| && p.assignments[i].target == p.assignments[j].target ==>
                     && p.assignments[i].target != source
                     && forall k :: 0 <= k < |path| ==> p.assignments[i].target !in path[k]
  }

  lemma AmbiguousExact(p: Program, flow: Flow)
    ensures IsAmbiguous(p, flow) <==> !Clear(p, flow.source, flow.path)
  {
    if !Clear(p, flow.source, flow.path) {
      var i, j :| 0 <= i < j < |p.assignments| && p.assignments[i].target == p.assignments[j].target
                  && (p.assignments[i].target == flow.source
                      || exists k :: 0 <= k < |flow.path| && p.assignments[i].target in flow.path[k]);
      var n := p.assignments[i].target;
      assert n in Ambiguous(p.assignments) && Names(flow, n);
    }
  }

  /** A place where values leave gives a report exactly if some name there is tainted by then,
      and the flow of the first that was tainted goes through no name that is assigned twice. */
  lemma ReportOfExact(p: Program, t: Table, s: Send)
    ensures ReportOf(p, t, s).Some? <==>
            exists i :: 0 <= i < |t.order| && FirstThere(t, s, i)
                        && Clear(p, t.flows[t.order[i]].source, t.flows[t.order[i]].path)
  {
    FirstExact(t, s.names, s.position);
    if First(t, s.names, s.position).Some? {
      var i := FirstChosen(t, s.names, s.position);
      AmbiguousExact(p, t.flows[t.order[i]]);
      forall j | 0 <= j < |t.order| && FirstThere(t, s, j) ensures t.order[j] == t.order[i] {
        assert FirstThere(t, s, i);
      }
      assert FirstThere(t, s, i);
    }
  }

  /** The `i`th of the tainted names is the first that stands there and is tainted by then. */
  ghost predicate FirstThere(t: Table, s: Send, i: nat)
    requires i < |t.order|
  {
    && t.order[i] in s.names && t.flows[t.order[i]].lastPosition <= s.position
    && forall j :: 0 <= j < i && t.order[j] in s.names ==> t.flows[t.order[j]].lastPosition > s.position
  }

  lemma {:induction false} FirstReportIsOne(p: Program, t: Table, sends: seq<Send>)
    ensures match FirstReport(p, t, sends)
            case Some(r) => exists s :: s in sends && ReportOf(p, t, s) == Some(r)
            case None => forall s :: s in sends ==> ReportOf(p, t, s).None?
  {
    if sends != [] {
      FirstReportIsOne(p, t, sends[1..]);
      assert sends == [sends[0]] + sends[1..];
    }
  }

  /** The report is that of the first place, of those where values leave, that has one. */
  lemma {:induction false} FirstReportChosen(p: Program, t: Table, sends: seq<Send>) returns (i: nat)
    requires FirstReport(p, t, sends).Some?
    ensures i < |sends| && FirstReport(p, t, sends) == ReportOf(p, t, sends[i])
    ensures forall j :: 0 <= j < i ==> ReportOf(p, t, sends[j]).None?
  {
    if ReportOf(p, t, sends[0]).Some? {
      i := 0;
    } else {
      var k := FirstReportChosen(p, t, sends[1..]);
      i := k + 1;
    }
  }

  /** Whatever is reported is a lineage that arrives, runs down the text from a credential
      read to the place where it leaves, and goes through no name that is assigned twice. */
  lemma ReportIsSound(p: Program)
    ensures var r := FirstReport(p, Tainted(p), Sends(p));
            r.Some? ==>
              && (exists l, s :: Leaks(p, l, s) && Describes(r.value, l, s) && Clear(p, Root(l).target, Route(l)))
              && |r.value.path| > 0 && r.value.path[0] == [r.value.source]
              && r.value.sourcePosition <= r.value.sinkPosition
              && exists a ::
                   && a in p.assignments && a.credential
                   && a.target == r.value.source && a.position == r.value.sourcePosition
  {
    var t := Tainted(p);
    TaintedIsSound(p);
    FirstReportIsOne(p, t, Sends(p));
    if FirstReport(p, t, Sends(p)).Some? {
      var s :| s in Sends(p) && ReportOf(p, t, s) == FirstReport(p, t, Sends(p));
      FirstExact(t, s.names, s.position);
      var l := LineageFor(p, t, First(t, s.names, s.position).value);
      FlowRunsDown(p, l);
      SendsExact(p, s);
      AmbiguousExact(p, FlowOf(l));
      assert Leaks(p, l, s) && Describes(FirstReport(p, t, Sends(p)).value, l, s);
    }
  }

  ghost predicate Reported(p: Program) {
    FirstReport(p, Tainted(p), Sends(p)).Some?
  }

  ghost predicate Leaky(p: Program) {
    exists l, s :: Leaks(p, l, s)
  }

  lemma OnceIsUnambiguous(p: Program, flow: Flow)
    requires AssignedOnce(p.assignments)
    ensures !IsAmbiguous(p, flow)
  {
  }

  lemma UndisturbedReport(p: Program)
    requires Undisturbed(p, Tainted(p)) && Round(p, Tainted(p)) == Tainted(p)
    ensures Reported(p) <==> Leaky(p)
  {
    var t := Tainted(p);
    TaintedIsSound(p);
    TaintedIsSeeded(p);
    UndisturbedIsComplete(p, t);
    ReportIsSound(p);
    FirstReportIsOne(p, t, Sends(p));
    if l, s :| Leaks(p, l, s) {
      SendsExact(p, s);
      FirstExact(t, s.names, s.position);
      assert TaintedBy(t, NameOf(l), s.position);
      OnceIsUnambiguous(p, t.flows[First(t, s.names, s.position).value]);
      assert ReportOf(p, t, s).Some?;
    }
  }

  /** When names are kept separate and the rounds have settled, a file is reported exactly
      when some lineage arrives where values leave. */
  lemma SettledReportIsComplete(p: Program)
    requires Separate(p) && Round(p, Tainted(p)) == Tainted(p)
    ensures FirstReport(p, Tainted(p), Sends(p)).Some? <==> exists l, s :: Leaks(p, l, s)
  {
    UndisturbedReport(p);
  }

  lemma FewWritesSettle(p: Program)
    requires Textual(p.assignments) && |p.properties| < 32
    ensures Round(p, Tainted(p)) == Tainted(p)
  {
    WaitingAtMost(SeedsOf(p), p.properties);
    WritesBoundRounds(p, SeedsOf(p), MAX_VALUE_PROPAGATION_ROUNDS);
  }

  /** So they are with fewer property writes than there are rounds. */
  lemma ReportIsComplete(p: Program)
    requires Separate(p) && Textual(p.assignments) && |p.properties| < 32
    ensures FirstReport(p, Tainted(p), Sends(p)).Some? <==> exists l, s :: Leaks(p, l, s)
  {
    FewWritesSettle(p);
    SettledReportIsComplete(p);
  }

  // ----- The search itself

  method AssignAll(p: Program, t: Table) returns (u: Table, changed: bool)
    ensures u == AssignPass(p, t, p.assignments)
    ensures changed <==> u != t
    ensures changed ==> exists n :: n in u.flows && n !in t.flows
  {
    u, changed := t, false;
    for i := 0 to |p.assignments|
      invariant AssignPass(p, u, p.assignments[i..]) == AssignPass(p, t, p.assignments)
      invariant Lowers(t, u) && (changed <==> u != t)
      invariant changed ==> exists n :: n in u.flows && n !in t.flows
    {
      var a := p.assignments[i];
      AssignStepLowers(p, u, a);
      if a.target in u.flows {
        continue;
      }
      var handed := AssignmentSource(p, u, a);
      if handed.None? {
        continue;
      }
      FirstHandedExact(u, Handoffs(p, a.expression), a.position);
      u := Put(u, a.target, AssignedFlow(u.flows[handed.value.source], a, handed.value.how));
      changed := true;
    }
  }

  ghost predicate Lowered(t: Table, u: Table, n: Name) {
    n in u.flows && (n !in t.flows || u.flows[n].lastPosition < t.flows[n].lastPosition)
  }

  method StoreAll(p: Program, t: Table) returns (u: Table, changed: bool)
    ensures u == StorePass(t, p.properties)
    ensures changed <==> u != t
  {
    u, changed := t, false;
    for i := 0 to |p.properties|
      invariant StorePass(u, p.properties[i..]) == StorePass(t, p.properties)
      invariant Lowers(t, u) && (!changed ==> u == t)
      invariant changed ==> exists n :: Lowered(t, u, n)
    {
      var q := p.properties[i];
      StoreStepLowers(u, q);
      var source := First(u, q.names, q.position);
      FirstExact(u, q.names, q.position);
      if source.None? {
        continue;
      }
      if TaintedBy(u, q.container, q.position) {
        continue;
      }
      u := Put(u, q.container, StoredFlow(u.flows[source.value], q));
      changed := true;
      assert Lowered(t, u, q.container);
    }
  }

  method SeedTaint(p: Program) returns (t: Table)
    ensures t == SeedsOf(p)
  {
    t := Table([], map[]);
    for i := 0 to |p.assignments|
      invariant Seeds(p.assignments[i..], t) == Seeds(p.assignments, Table([], map[]))
    {
      if p.assignments[i].credential {
        t := Put(t, p.assignments[i].target, SeedFlow(p.assignments[i]));
      }
    }
  }

  method OneRound(p: Program, t: Table) returns (v: Table, changed: bool)
    ensures v == Round(p, t)
    ensures changed <==> v != t
  {
    var u, handedOn := AssignAll(p, t);
    var stored;
    v, stored := StoreAll(p, u);
    StorePassLowers(u, p.properties);
    changed := handedOn || stored;
  }

  method PropagateTaint(p: Program) returns (t: Table)
    ensures t == Tainted(p)
  {
    t := SeedTaint(p);
    for round := 0 to MAX_VALUE_PROPAGATION_ROUNDS
      invariant Rounds(p, t, MAX_VALUE_PROPAGATION_ROUNDS - round)
             == Rounds(p, SeedsOf(p), MAX_VALUE_PROPAGATION_ROUNDS)
    {
      var u, changed := OneRound(p, t);
      if !changed {
        RoundsStop(p, t, MAX_VALUE_PROPAGATION_ROUNDS - round);
        break;
      }
      RoundsFirst(p, t, MAX_VALUE_PROPAGATION_ROUNDS - round);
      t := u;
    }
  }

  method ReportSinks(p: Program, t: Table) returns (r: Option<Report>)
    ensures r == FirstReport(p, t, SendsOfSinks(p.sinks))
  {
    ghost var sends := SendsOfSinks(p.sinks);
    for i := 0 to |p.sinks|
      invariant FirstReport(p, t, sends) == FirstReport(p, t, sends[i..])
    {
      r := ReportOf(p, t, Send(p.sinks[i].names, p.sinks[i].position, []));
      if r.Some? {
        return;
      }
    }
    r := None;
  }

  method ReportCall(p: Program, t: Table, call: CallSite) returns (r: Option<Report>)
    ensures r == FirstReport(p, t, SendsOfCall(p, call))
  {
    if call.callee !in p.functions {
      return None;
    }
    var summary := p.functions[call.callee];
    for k := 0 to |summary.sent|
      invariant FirstReport(p, t, SentBy(call, summary, summary.sent))
             == FirstReport(p, t, SentBy(call, summary, summary.sent[k..]))
    {
      var index := summary.sent[k];
      if index >= |call.arguments| {
        continue;
      }
      r := ReportOf(p, t, Send(call.arguments[index], call.position, [[call.callee, summary.parameters[index]]]));
      if r.Some? {
        return;
      }
    }
    r := None;
  }

  lemma {:induction false} FirstReportOfBoth(p: Program, t: Table, a: seq<Send>, b: seq<Send>)
    ensures FirstReport(p, t, a + b)
         == if FirstReport(p, t, a).Some? then FirstReport(p, t, a) else FirstReport(p, t, b)
  {
    if a == [] {
      assert a + b == b;
    } else {
      FirstReportOfBoth(p, t, a[1..], b);
      assert (a + b)[1..] == a[1..] + b;
    }
  }

  method CredentialValueFlow(p: Program) returns (r: Option<Report>)
    ensures r == FirstReport(p, Tainted(p), Sends(p))
  {
    var t := PropagateTaint(p);
    FirstReportOfBoth(p, t, SendsOfSinks(p.sinks), SendsOfCalls(p, p.calls));
    r := ReportSinks(p, t);
    if r.Some? {
      return;
    }
    for i := 0 to |p.calls|
      invariant FirstReport(p, t, SendsOfCalls(p, p.calls)) == FirstReport(p, t, SendsOfCalls(p, p.calls[i..]))
    {
      FirstReportOfBoth(p, t, SendsOfCall(p, p.calls[i]), SendsOfCalls(p, p.calls[i + 1..]));
      r := ReportCall(p, t, p.calls[i]);
      if r.Some? {
        return;
      }
    }
    r := None;
  }
}
