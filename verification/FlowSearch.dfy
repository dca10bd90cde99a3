/**
 The two semantic-flow searches over the import graph: a downloaded extension package
 that is written and installed, and credentials that are read, serialized and sent.

 Each search tries the start modules in ascending order, walks the import paths of each
 depth first and returns the first path that passes its test.
 */
module FlowSearch {
  import opened Ordering
  import opened ImportGraph
  import opened Options
  import opened ImportPaths

  datatype Outcome = Found(path: Path) | NoFlow | LimitError

  // ----- The staged tests

  /** The first index from `after` on whose module has the stage. */
  function FirstStageIndex(stages: seq<bool>, after: Option<nat>): (r: Option<nat>)
    ensures var start := if after.None? then 0 else after.value;
            match r
            case Some(i) => start <= i < |stages| && stages[i] && forall j :: start <= j < i ==> !stages[j]
            case None => forall j :: start <= j < |stages| ==> !stages[j]
  {
    FirstFrom(stages, if after.None? then 0 else after.value)
  }

  function FirstFrom(stages: seq<bool>, start: nat): (r: Option<nat>)
    ensures r.Some? ==> start <= r.value < |stages| && stages[r.value]
    ensures r.Some? ==> forall j :: start <= j < r.value ==> !stages[j]
    ensures r.None? ==> forall j :: start <= j < |stages| ==> !stages[j]
    decreases |stages| - start
  {
    if start >= |stages| then None
    else if stages[start] then Some(start)
    else FirstFrom(stages, start + 1)
  }

  predicate At(byPath: map<string, Module>, stage: Module -> bool, m: string) {
    m in byPath && stage(byPath[m])
  }

  function Stages(byPath: map<string, Module>, path: Path, stage: Module -> bool): (r: seq<bool>)
    ensures |r| == |path|
  {
    seq(|path|, i requires 0 <= i < |path| => At(byPath, stage, path[i]))
  }

  /** Some module does `first` and one at or after it on the path does `second`. */
  ghost predicate InOrder(byPath: map<string, Module>, path: Path, first: Module -> bool, second: Module -> bool) {
    exists i, j :: 0 <= i <= j < |path| && At(byPath, first, path[i]) && At(byPath, second, path[j])
  }

  /** What the searches test: the first `first`, then the first `second` from there. */
  predicate StagedTest(byPath: map<string, Module>, path: Path, first: Module -> bool, second: Module -> bool) {
    var i := FirstStageIndex(Stages(byPath, path, first), None);
    var j := FirstStageIndex(Stages(byPath, path, second), i);
    i.Some? && j.Some?
  }

  /** Settling on the first module of the first stage loses no path. */
  lemma FirstStageSuffices(byPath: map<string, Module>, path: Path, first: Module -> bool, second: Module -> bool)
    ensures StagedTest(byPath, path, first, second) <==> InOrder(byPath, path, first, second)
  {
    var firsts, seconds := Stages(byPath, path, first), Stages(byPath, path, second);
    assert forall i :: 0 <= i < |path| ==> (firsts[i] <==> At(byPath, first, path[i]));
    assert forall i :: 0 <= i < |path| ==> (seconds[i] <==> At(byPath, second, path[i]));
  }

  function Families(byPath: map<string, Module>, path: Path): set<string> {
    set m, f | m in path && m in byPath && f in byPath[m].credentialFamilies :: f
  }

  predicate InstallTest(byPath: map<string, Module>, path: Path) {
    && |path| > 1
    && StagedTest(byPath, path, (m: Module) => m.write, (m: Module) => m.installVsix)
    && forall m :: m in path && m in byPath ==> !byPath[m].integrity
  }

  predicate ExfiltrationTest(byPath: map<string, Module>, path: Path) {
    && |path| > 1
    && |Families(byPath, path)| >= 3
    && StagedTest(byPath, path, (m: Module) => m.serialize, (m: Module) => m.networkBody)
  }

  // ----- What counts as a flow

  /** A simple import path of at least two modules that starts at a reachable module that
      downloads, writes before or where it installs, and passes no integrity check. */
  ghost predicate InstallFlow(byPath: map<string, Module>, reach: set<string>, path: Path) {
    && |path| > 1
    && SimplePath(GraphOf(byPath), path[0], path)
    && InstallStart(byPath, reach, path[0])
    && InOrder(byPath, path, (m: Module) => m.write, (m: Module) => m.installVsix)
    && forall m :: m in path ==> m in byPath && !byPath[m].integrity
  }

  ghost predicate InstallStart(byPath: map<string, Module>, reach: set<string>, start: string) {
    start in byPath && byPath[start].download && start in reach
  }

  function InstallStarts(byPath: map<string, Module>, reach: set<string>): set<string> {
    set p | p in byPath && byPath[p].download && p in reach
  }

  /** A simple import path of at least two modules that starts at a reachable module that
      reads credential files, touches three credential families, and serializes before or
      where it sends a network body. */
  ghost predicate ExfiltrationFlow(byPath: map<string, Module>, reach: set<string>, path: Path) {
    && |path| > 1
    && SimplePath(GraphOf(byPath), path[0], path)
    && ExfiltrationStart(byPath, reach, path[0])
    && |set m, f | m in path && m in byPath && f in byPath[m].credentialFamilies :: f| >= 3
    && InOrder(byPath, path, (m: Module) => m.serialize, (m: Module) => m.networkBody)
  }

  ghost predicate ExfiltrationStart(byPath: map<string, Module>, reach: set<string>, start: string) {
    start in byPath && byPath[start].credentialFamilies != {} && byPath[start].fileRead && start in reach
  }

  function ExfiltrationStarts(byPath: map<string, Module>, reach: set<string>): set<string> {
    set p | p in byPath && byPath[p].credentialFamilies != {} && byPath[p].fileRead && p in reach
  }

  /** Where edges lead to modules, no path leaves them. */
  lemma {:induction false} PathStaysInGraph(g: Graph, path: Path, k: nat)
    requires path[0] in g && (forall p, c :: p in g && c in g[p] ==> c in g)
    requires SimplePath(g, path[0], path) && k < |path|
    ensures path[k] in g
    decreases k
  {
    if k > 0 {
      PathStaysInGraph(g, path, k - 1);
      assert path[k] in Row(g, path[k - 1]);
    }
  }

  lemma InstallFlowTested(byPath: map<string, Module>, reach: set<string>, path: Path)
    ensures InstallFlow(byPath, reach, path)
       <==> && path[0] in InstallStarts(byPath, reach)
            && path in PathsFrom(GraphOf(byPath), path[0]) && InstallTest(byPath, path)
  {
    PathsAreTheSimplePaths(GraphOf(byPath), path[0], path);
    FirstStageSuffices(byPath, path, (m: Module) => m.write, (m: Module) => m.installVsix);
    if path[0] in byPath && SimplePath(GraphOf(byPath), path[0], path) {
      forall m | m in path ensures m in byPath {
        var k :| 0 <= k < |path| && path[k] == m;
        PathStaysInGraph(GraphOf(byPath), path, k);
      }
    }
  }

  lemma ExfiltrationFlowTested(byPath: map<string, Module>, reach: set<string>, path: Path)
    ensures ExfiltrationFlow(byPath, reach, path)
       <==> && path[0] in ExfiltrationStarts(byPath, reach)
            && path in PathsFrom(GraphOf(byPath), path[0]) && ExfiltrationTest(byPath, path)
  {
    PathsAreTheSimplePaths(GraphOf(byPath), path[0], path);
    FirstStageSuffices(byPath, path, (m: Module) => m.serialize, (m: Module) => m.networkBody);
  }

  // ----- What is reported of a flow

  /** The modules on a path that have a stage, in their order on the path. */
  function Having(byPath: map<string, Module>, path: seq<string>, stage: Module -> bool): (r: seq<string>)
    ensures forall m :: m in r <==> m in path && At(byPath, stage, m)
  {
    if path == [] then []
    else
      assert path == [path[0]] + path[1..];
      (if At(byPath, stage, path[0]) then [path[0]] else []) + Having(byPath, path[1..], stage)
  }

  /** `r` is what is wanted of a path, in the order of the path. */
  ghost predicate Picks(path: seq<string>, wanted: string -> bool, r: seq<string>) {
    if path == [] then r == []
    else if wanted(path[0]) then r != [] && r[0] == path[0] && Picks(path[1..], wanted, r[1..])
    else Picks(path[1..], wanted, r)
  }

  lemma {:induction false} HavingPicks(byPath: map<string, Module>, path: seq<string>, stage: Module -> bool,
                                       wanted: string -> bool)
    requires forall m :: wanted(m) <==> At(byPath, stage, m)
    ensures Picks(path, wanted, Having(byPath, path, stage))
  {
    if path != [] {
      HavingPicks(byPath, path[1..], stage, wanted);
      if wanted(path[0]) {
        assert Having(byPath, path, stage)[1..] == Having(byPath, path[1..], stage);
      } else {
        assert Having(byPath, path, stage) == Having(byPath, path[1..], stage);
      }
    }
  }

  /** What is wanted is picked, and first where the path has it first. */
  lemma {:induction false} PicksWanted(path: seq<string>, wanted: string -> bool, r: seq<string>, i: nat)
    requires Picks(path, wanted, r) && i < |path| && wanted(path[i])
    ensures r != [] && (i == 0 ==> r[0] == path[0])
  {
    if !wanted(path[0]) {
      PicksWanted(path[1..], wanted, r, i - 1);
    }
  }

  datatype InstallStages = InstallStages(download: seq<string>, write: seq<string>, install: seq<string>)

  function InstallStagesOf(byPath: map<string, Module>, path: Path): InstallStages {
    InstallStages(Having(byPath, path, (m: Module) => m.download), Having(byPath, path, (m: Module) => m.write),
                  Having(byPath, path, (m: Module) => m.installVsix))
  }

  /** For each stage, the modules on the path that do it. */
  ghost predicate AreInstallStages(byPath: map<string, Module>, path: Path, s: InstallStages) {
    && Picks(path, m => m in byPath && byPath[m].download, s.download)
    && Picks(path, m => m in byPath && byPath[m].write, s.write)
    && Picks(path, m => m in byPath && byPath[m].installVsix, s.install)
  }

  lemma InstallStagesAre(byPath: map<string, Module>, path: Path)
    ensures AreInstallStages(byPath, path, InstallStagesOf(byPath, path))
  {
    HavingPicks(byPath, path, (m: Module) => m.download, m => m in byPath && byPath[m].download);
    HavingPicks(byPath, path, (m: Module) => m.write, m => m in byPath && byPath[m].write);
    HavingPicks(byPath, path, (m: Module) => m.installVsix, m => m in byPath && byPath[m].installVsix);
  }

  datatype ExfiltrationStages =
    ExfiltrationStages(families: seq<string>, reading: seq<string>, serialize: seq<string>, network: seq<string>)

  ghost predicate AreExfiltrationStages(byPath: map<string, Module>, path: Path, s: ExfiltrationStages) {
    && Ascending(s.families) && (forall i, j :: 0 <= i < j < |s.families| ==> s.families[i] != s.families[j])
    && (forall f :: f in s.families <==> exists m :: m in path && m in byPath && f in byPath[m].credentialFamilies)
    && Picks(path, m => m in byPath && byPath[m].credentialFamilies != {} && byPath[m].fileRead, s.reading)
    && Picks(path, m => m in byPath && byPath[m].serialize, s.serialize)
    && Picks(path, m => m in byPath && byPath[m].networkBody, s.network)
  }

  function ExfiltrationStagesOf(byPath: map<string, Module>, path: Path, families: seq<string>): ExfiltrationStages {
    ExfiltrationStages(
      families,
      Having(byPath, path, (m: Module) => m.credentialFamilies != {} && m.fileRead),
      Having(byPath, path, (m: Module) => m.serialize),
      Having(byPath, path, (m: Module) => m.networkBody))
  }

  lemma ExfiltrationStagesAre(byPath: map<string, Module>, path: Path, families: seq<string>)
    requires Ascending(families) && multiset(families) == multiset(Families(byPath, path))
    ensures AreExfiltrationStages(byPath, path, ExfiltrationStagesOf(byPath, path, families))
  {
    forall f ensures f in families <==> exists m :: m in path && m in byPath && f in byPath[m].credentialFamilies {
      assert f in families <==> f in multiset(families);
      assert f in Families(byPath, path) <==> f in multiset(Families(byPath, path));
    }
    OnceEach(families, Families(byPath, path));
    HavingPicks(byPath, path, (m: Module) => m.credentialFamilies != {} && m.fileRead,
                m => m in byPath && byPath[m].credentialFamilies != {} && byPath[m].fileRead);
    HavingPicks(byPath, path, (m: Module) => m.serialize, m => m in byPath && byPath[m].serialize);
    HavingPicks(byPath, path, (m: Module) => m.networkBody, m => m in byPath && byPath[m].networkBody);
  }

  /** What lists a set lists nothing twice. */
  lemma OnceEach(s: seq<string>, names: set<string>)
    requires multiset(s) == multiset(names)
    ensures forall i, j :: 0 <= i < j < |s| ==> s[i] != s[j]
  {
    forall i, j | 0 <= i < j < |s| ensures s[i] != s[j] {
      assert s == s[..j] + [s[j]] + s[j + 1..];
      assert s[..j][i] == s[i];
      assert multiset(s)[s[j]] == multiset(s[..j])[s[j]] + 1 + multiset(s[j + 1..])[s[j]];
      assert multiset(names)[s[j]] <= 1;
    }
  }

  /** The first stage of a flow is reported at its start, and no stage without a module. */
  lemma InstallStagesMean(byPath: map<string, Module>, reach: set<string>, path: Path, s: InstallStages)
    requires InstallFlow(byPath, reach, path) && AreInstallStages(byPath, path, s)
    ensures s.download != [] && s.download[0] == path[0] && s.write != [] && s.install != []
  {
    var i, j :| 0 <= i <= j < |path|
                && At(byPath, (m: Module) => m.write, path[i]) && At(byPath, (m: Module) => m.installVsix, path[j]);
    PicksWanted(path, m => m in byPath && byPath[m].download, s.download, 0);
    PicksWanted(path, m => m in byPath && byPath[m].write, s.write, i);
    PicksWanted(path, m => m in byPath && byPath[m].installVsix, s.install, j);
  }

  lemma {:induction false} AsManyAs(s: seq<string>, names: set<string>)
    requires forall i, j :: 0 <= i < j < |s| ==> s[i] != s[j]
    requires forall f :: f in s <==> f in names
    ensures |s| == |names|
  {
    if s == [] {
      assert names == {};
    } else {
      assert s == [s[0]] + s[1..];
      AsManyAs(s[1..], names - {s[0]});
    }
  }

  lemma ExfiltrationStagesMean(byPath: map<string, Module>, reach: set<string>, path: Path, s: ExfiltrationStages)
    requires ExfiltrationFlow(byPath, reach, path) && AreExfiltrationStages(byPath, path, s)
    ensures |s.families| >= 3 && s.reading != [] && s.reading[0] == path[0] && s.serialize != [] && s.network != []
  {
    var i, j :| 0 <= i <= j < |path|
                && At(byPath, (m: Module) => m.serialize, path[i]) && At(byPath, (m: Module) => m.networkBody, path[j]);
    AsManyAs(s.families, set m, f | m in path && m in byPath && f in byPath[m].credentialFamilies :: f);
    PicksWanted(path, m => m in byPath && byPath[m].credentialFamilies != {} && byPath[m].fileRead, s.reading, 0);
    PicksWanted(path, m => m in byPath && byPath[m].serialize, s.serialize, i);
    PicksWanted(path, m => m in byPath && byPath[m].networkBody, s.network, j);
  }

  // ----- The search from one start

  /** The first `n` paths are handed out and none of them passes. */
  ghost predicate Tried(g: Graph, paths: seq<Path>, test: Path -> bool, n: nat) {
    && n <= |paths| && Uncapped(g, paths, n)
    && forall j: nat :: j < n ==> !test(paths[j])
  }

  /** After `n` tries: no paths are left, the next one is refused, or it is handed out and
      passes. */
  ghost predicate Ends(g: Graph, paths: seq<Path>, test: Path -> bool, n: nat, r: Outcome) {
    && Tried(g, paths, test, n)
    && match r
       case NoFlow => n == |paths|
       case LimitError => n < |paths| && Capped(g, paths, n)
       case Found(path) => n < |paths| && !Capped(g, paths, n) && path == paths[n] && test(path)
  }

  /** What comes of one start: the first path that passes, unless a cap comes before it. */
  ghost predicate FromStart(g: Graph, start: string, test: Path -> bool, r: Outcome) {
    exists n :: Ends(g, PathsFrom(g, start), test, n, r)
  }

  lemma TriedNext(g: Graph, paths: seq<Path>, test: Path -> bool, n: nat)
    requires Tried(g, paths, test, n) && n < |paths| && !Capped(g, paths, n)
    ensures if test(paths[n]) then Ends(g, paths, test, n, Found(paths[n])) else Tried(g, paths, test, n + 1)
  {
  }

  /** The walk from one start, up to the first path that passes. */
  method SearchFrom(g: Graph, start: string, test: Path -> bool) returns (r: Outcome)
    ensures FromStart(g, start, test, r)
  {
    var walk := new PathWalk(g, start);
    ghost var n, paths := 0, PathsFrom(g, start);
    while true
      invariant walk.Valid() && walk.g == g && walk.start == start && fresh(walk)
      invariant n == |walk.yielded| && Tried(g, paths, test, n)
      decreases |paths| - n
    {
      var step := walk.Resume();
      match step {
        case Next(path) =>
          TriedNext(g, paths, test, n);
          if test(path) {
            return Found(path);
          }
          n := n + 1;
        case Done =>
          assert Ends(g, paths, test, n, NoFlow);
          return NoFlow;
        case _ =>
          assert Ends(g, paths, test, n, LimitError);
          return LimitError;
      }
    }
  }

  /** One start has one answer. */
  lemma FromStartUnique(g: Graph, start: string, test: Path -> bool, q: Outcome, r: Outcome)
    requires FromStart(g, start, test, q) && FromStart(g, start, test, r)
    ensures q == r
  {
    var paths := PathsFrom(g, start);
    var m: nat :| Ends(g, paths, test, m, q);
    var n: nat :| Ends(g, paths, test, n, r);
    if m <= n {
      EndsOnce(g, paths, test, m, n, q, r);
    } else {
      EndsOnce(g, paths, test, n, m, r, q);
    }
  }

  lemma EndsOnce(g: Graph, paths: seq<Path>, test: Path -> bool, m: nat, n: nat, q: Outcome, r: Outcome)
    requires m <= n && Ends(g, paths, test, m, q) && Ends(g, paths, test, n, r)
    ensures q == r
  {
    if m < n {
      assert false;
    }
  }

  ghost predicate NonePasses(paths: seq<Path>, test: Path -> bool) {
    forall j: nat :: j < |paths| ==> !test(paths[j])
  }

  /** No flow from a start means that none of its paths passes, and that it is within the
      caps. */
  lemma NothingFrom(g: Graph, start: string, test: Path -> bool)
    ensures FromStart(g, start, test, NoFlow) <==> WithinCaps(g, start) && NonePasses(PathsFrom(g, start), test)
  {
    var paths := PathsFrom(g, start);
    CapsExact(g, start);
    if FromStart(g, start, test, NoFlow) {
      var n: nat :| Ends(g, paths, test, n, NoFlow);
      assert n == |paths|;
    } else if WithinCaps(g, start) && NonePasses(paths, test) {
      assert Ends(g, paths, test, |paths|, NoFlow);
      assert false;
    }
  }

  /** A flow that is found is a path from the start that passes. */
  lemma FoundMeans(g: Graph, start: string, test: Path -> bool, path: Path)
    requires FromStart(g, start, test, Found(path))
    ensures path[0] == start && test(path)
  {
    var n: nat :| Ends(g, PathsFrom(g, start), test, n, Found(path));
    PathsAreTheSimplePaths(g, start, path);
  }

  /** An error means that the start is beyond the caps. */
  lemma ErrorMeans(g: Graph, start: string, test: Path -> bool)
    requires FromStart(g, start, test, LimitError)
    ensures !WithinCaps(g, start)
  {
    var n: nat :| Ends(g, PathsFrom(g, start), test, n, LimitError);
    CapsExact(g, start);
  }

  // ----- The search over all starts

  /** The answer of the first start that has one, in ascending order. */
  ghost predicate Answers(g: Graph, starts: set<string>, test: Path -> bool, r: Outcome) {
    if r.NoFlow? then forall start :: start in starts ==> FromStart(g, start, test, NoFlow)
    else exists start :: start in starts && FirstAnswer(g, starts, test, start, r)
  }

  ghost predicate FirstAnswer(g: Graph, starts: set<string>, test: Path -> bool, start: string, r: Outcome) {
    && FromStart(g, start, test, r)
    && forall other :: other in starts && Before(other, start) ==> FromStart(g, other, test, NoFlow)
  }

  method Search(g: Graph, starts: seq<string>, test: Path -> bool) returns (r: Outcome)
    requires Ascending(starts)
    ensures Answers(g, Elements(starts), test, r)
  {
    ghost var all := Elements(starts);
    for k := 0 to |starts|
      invariant forall k' :: 0 <= k' < k ==> FromStart(g, starts[k'], test, NoFlow)
    {
      r := SearchFrom(g, starts[k], test);
      if !r.NoFlow? {
        forall other | other in all && Before(other, starts[k]) ensures FromStart(g, other, test, NoFlow) {
          var j :| 0 <= j < |starts| && starts[j] == other;
          BeforeTotal(other, starts[k]);
        }
        assert starts[k] in all && FirstAnswer(g, all, test, starts[k], r);
        return;
      }
    }
    r := NoFlow;
  }

  /** Only what the test says of enumerated paths matters. */
  lemma SameEnds(g: Graph, start: string, test: Path -> bool, flow: Path -> bool, r: Outcome)
    requires forall p :: p in PathsFrom(g, start) ==> (test(p) <==> flow(p))
    ensures FromStart(g, start, test, r) <==> FromStart(g, start, flow, r)
  {
    var paths := PathsFrom(g, start);
    forall n: nat ensures Ends(g, paths, test, n, r) <==> Ends(g, paths, flow, n, r) {
    }
  }

  lemma SameAnswers(g: Graph, starts: set<string>, test: Path -> bool, flow: Path -> bool, r: Outcome)
    requires forall start, p :: start in starts && p in PathsFrom(g, start) ==> (test(p) <==> flow(p))
    requires Answers(g, starts, test, r)
    ensures Answers(g, starts, flow, r)
  {
    forall start, q | start in starts ensures FromStart(g, start, test, q) <==> FromStart(g, start, flow, q) {
      SameEnds(g, start, test, flow, q);
    }
    if !r.NoFlow? {
      var start :| start in starts && FirstAnswer(g, starts, test, start, r);
      assert FirstAnswer(g, starts, flow, start, r);
    }
  }

  /** Flows are paths of the starts. */
  ghost predicate FlowsFrom(g: Graph, starts: set<string>, flow: Path -> bool) {
    forall p: Path :: flow(p) ==> p[0] in starts && p in PathsFrom(g, p[0])
  }

  /** Then no flow starts before the first start that has an answer, */
  lemma NoneBefore(g: Graph, starts: set<string>, flow: Path -> bool, start: string, r: Outcome, p: Path)
    requires FlowsFrom(g, starts, flow) && FirstAnswer(g, starts, flow, start, r) && flow(p)
    ensures UpTo(start, p[0])
  {
    BeforeTotal(start, p[0]);
    if Before(p[0], start) {
      NothingFrom(g, p[0], flow);
    }
  }

  lemma FirstOfRising(g: Graph, paths: seq<Path>, flow: Path -> bool, n: nat, path: Path, p: Path)
    requires Rising(paths) && Ends(g, paths, flow, n, Found(path)) && p in paths && flow(p)
    ensures PathUpTo(path, p)
  {
    var j :| 0 <= j < |paths| && paths[j] == p;
    forall i: nat | i < n ensures paths[i] != p {
    }
    assert p !in paths[..n];
  }

  /** Of the paths from one start the first that passes is the least, */
  lemma FirstIsLeast(g: Graph, start: string, flow: Path -> bool, path: Path, p: Path)
    requires forall m :: m in g ==> Ascending(g[m])
    requires FromStart(g, start, flow, Found(path)) && p in PathsFrom(g, start) && flow(p)
    ensures PathUpTo(path, p)
  {
    PathsRise(g, [start]);
    var n: nat :| Ends(g, PathsFrom(g, start), flow, n, Found(path));
    FirstOfRising(g, PathsFrom(g, start), flow, n, path, p);
  }

  /** a flow that is found is the least of all, */
  lemma FoundIsLeast(g: Graph, starts: set<string>, flow: Path -> bool, path: Path)
    requires forall m :: m in g ==> Ascending(g[m])
    requires FlowsFrom(g, starts, flow) && Answers(g, starts, flow, Found(path))
    ensures flow(path) && forall p: Path :: flow(p) ==> PathUpTo(path, p)
  {
    var start :| start in starts && FirstAnswer(g, starts, flow, start, Found(path));
    FoundMeans(g, start, flow, path);
    forall p: Path | flow(p) ensures PathUpTo(path, p) {
      NoneBefore(g, starts, flow, start, Found(path), p);
      if p[0] == start {
        FirstIsLeast(g, start, flow, path, p);
      } else {
        assert path[..0] == p[..0] && Before(path[0], p[0]);
      }
    }
  }

  /** with no flow found there is none, and every start is within the caps, */
  lemma NoneIsNone(g: Graph, starts: set<string>, flow: Path -> bool)
    requires FlowsFrom(g, starts, flow) && Answers(g, starts, flow, NoFlow)
    ensures forall p: Path :: !flow(p)
    ensures forall start :: start in starts ==> WithinCaps(g, start)
  {
    forall start | start in starts ensures WithinCaps(g, start) && NonePasses(PathsFrom(g, start), flow) {
      NothingFrom(g, start, flow);
    }
    forall p: Path ensures !flow(p) {
      if flow(p) {
        assert false;
      }
    }
  }

  /** and an error comes before any flow. */
  lemma ErrorIsFirst(g: Graph, starts: set<string>, flow: Path -> bool) returns (start: string)
    requires FlowsFrom(g, starts, flow) && Answers(g, starts, flow, LimitError)
    ensures start in starts && !WithinCaps(g, start)
    ensures forall p: Path :: flow(p) ==> UpTo(start, p[0])
  {
    start :| start in starts && FirstAnswer(g, starts, flow, start, LimitError);
    ErrorMeans(g, start, flow);
    forall p: Path | flow(p) ensures UpTo(start, p[0]) {
      NoneBefore(g, starts, flow, start, LimitError, p);
    }
  }

  lemma EdgesAscend(byPath: map<string, Module>)
    ensures forall p :: p in GraphOf(byPath) ==> Ascending(GraphOf(byPath)[p])
  {
    forall p | p in GraphOf(byPath) ensures Ascending(GraphOf(byPath)[p]) {
      EdgesExact(byPath, p);
    }
  }

  /** Too many modules are an error; otherwise the answer is the first install flow, in the
      order of the starts and then of their paths, unless a cap comes before it. */
  ghost predicate InstallAnswer(modules: seq<Module>, entrypoints: Option<set<string>>, r: Outcome) {
    var byPath := ByPath(modules);
    var reach := Reach(entrypoints, byPath.Keys, GraphOf(byPath));
    if |modules| > 10_000 then r.LimitError?
    else Answers(GraphOf(byPath), InstallStarts(byPath, reach), (p: Path) => InstallFlow(byPath, reach, p), r)
  }

  lemma InstallAnswered(byPath: map<string, Module>, reach: set<string>, r: Outcome)
    requires Answers(GraphOf(byPath), InstallStarts(byPath, reach), (p: Path) => InstallTest(byPath, p), r)
    ensures Answers(GraphOf(byPath), InstallStarts(byPath, reach), (p: Path) => InstallFlow(byPath, reach, p), r)
  {
    var test, flow := (p: Path) => InstallTest(byPath, p), (p: Path) => InstallFlow(byPath, reach, p);
    forall start, p | start in InstallStarts(byPath, reach) && p in PathsFrom(GraphOf(byPath), start)
      ensures test(p) <==> flow(p)
    {
      PathsAreTheSimplePaths(GraphOf(byPath), start, p);
      InstallFlowTested(byPath, reach, p);
    }
    SameAnswers(GraphOf(byPath), InstallStarts(byPath, reach), test, flow, r);
  }

  method RemoteVsixInstallFlow(modules: seq<Module>, entrypoints: Option<set<string>>)
    returns (r: Outcome, stages: Option<InstallStages>)
    ensures InstallAnswer(modules, entrypoints, r)
    ensures stages.Some? <==> r.Found?
    ensures r.Found? ==> AreInstallStages(ByPath(modules), r.path, stages.value)
  {
    if |modules| > MAX_FLOW_MODULES {
      return LimitError, None;
    }
    var byPath := ByPath(modules);
    var g := GraphOf(byPath);
    var reach := ReachableModules(entrypoints, byPath.Keys, g);
    var starts := SortedNames(InstallStarts(byPath, reach));
    r := Search(g, starts, (path: Path) => InstallTest(byPath, path));
    assert Elements(starts) == InstallStarts(byPath, reach);
    InstallAnswered(byPath, reach, r);
    stages := None;
    if r.Found? {
      InstallStagesAre(byPath, r.path);
      stages := Some(InstallStagesOf(byPath, r.path));
    }
  }

  /** What the answer means. */
  ghost predicate InstallMeaning(byPath: map<string, Module>, reach: set<string>, r: Outcome) {
    match r
    case Found(path) =>
      && InstallFlow(byPath, reach, path)
      && forall p :: InstallFlow(byPath, reach, p) ==> PathUpTo(path, p)
    case NoFlow =>
      && (forall p :: !InstallFlow(byPath, reach, p))
      && forall start :: InstallStart(byPath, reach, start) ==> WithinCaps(GraphOf(byPath), start)
    case LimitError =>
      exists start ::
        && InstallStart(byPath, reach, start) && !WithinCaps(GraphOf(byPath), start)
        && forall p :: InstallFlow(byPath, reach, p) ==> UpTo(start, p[0])
  }

  lemma InstallFlowsFrom(byPath: map<string, Module>, reach: set<string>)
    ensures FlowsFrom(GraphOf(byPath), InstallStarts(byPath, reach), (p: Path) => InstallFlow(byPath, reach, p))
  {
    forall p: Path | InstallFlow(byPath, reach, p)
      ensures p[0] in InstallStarts(byPath, reach) && p in PathsFrom(GraphOf(byPath), p[0])
    {
      InstallFlowTested(byPath, reach, p);
    }
  }

  lemma InstallFound(byPath: map<string, Module>, reach: set<string>, path: Path)
    requires Answers(GraphOf(byPath), InstallStarts(byPath, reach),
                     (p: Path) => InstallFlow(byPath, reach, p), Found(path))
    ensures InstallMeaning(byPath, reach, Found(path))
  {
    var flow := (p: Path) => InstallFlow(byPath, reach, p);
    EdgesAscend(byPath);
    InstallFlowsFrom(byPath, reach);
    FoundIsLeast(GraphOf(byPath), InstallStarts(byPath, reach), flow, path);
    assert flow(path) && forall p :: InstallFlow(byPath, reach, p) ==> flow(p);
  }

  lemma InstallMeans(byPath: map<string, Module>, reach: set<string>, r: Outcome)
    requires Answers(GraphOf(byPath), InstallStarts(byPath, reach), (p: Path) => InstallFlow(byPath, reach, p), r)
    ensures InstallMeaning(byPath, reach, r)
  {
    var flow := (p: Path) => InstallFlow(byPath, reach, p);
    var g, starts := GraphOf(byPath), InstallStarts(byPath, reach);
    InstallFlowsFrom(byPath, reach);
    match r {
      case Found(path) =>
        InstallFound(byPath, reach, path);
      case NoFlow =>
        NoneIsNone(g, starts, flow);
        assert forall p :: InstallFlow(byPath, reach, p) ==> flow(p);
      case LimitError =>
        var start := ErrorIsFirst(g, starts, flow);
        assert forall p :: InstallFlow(byPath, reach, p) ==> flow(p);
    }
  }

  /** The flow that is found is the least of all flows in the order of paths; with no flow
      found there is none, and all starts are within the caps; and an error means a start
      beyond the caps, and no flow from any start before it. */
  lemma InstallAnswerMeans(modules: seq<Module>, entrypoints: Option<set<string>>, r: Outcome)
    requires InstallAnswer(modules, entrypoints, r) && |modules| <= 10_000
    ensures var byPath := ByPath(modules);
            InstallMeaning(byPath, Reach(entrypoints, byPath.Keys, GraphOf(byPath)), r)
  {
    var byPath := ByPath(modules);
    InstallMeans(byPath, Reach(entrypoints, byPath.Keys, GraphOf(byPath)), r);
  }

  /** The same for credential exfiltration. */
  ghost predicate ExfiltrationAnswer(modules: seq<Module>, entrypoints: Option<set<string>>, r: Outcome) {
    var byPath := ByPath(modules);
    var reach := Reach(entrypoints, byPath.Keys, GraphOf(byPath));
    if |modules| > 10_000 then r.LimitError?
    else Answers(GraphOf(byPath), ExfiltrationStarts(byPath, reach), (p: Path) => ExfiltrationFlow(byPath, reach, p), r)
  }

  lemma ExfiltrationAnswered(byPath: map<string, Module>, reach: set<string>, r: Outcome)
    requires Answers(GraphOf(byPath), ExfiltrationStarts(byPath, reach), (p: Path) => ExfiltrationTest(byPath, p), r)
    ensures Answers(GraphOf(byPath), ExfiltrationStarts(byPath, reach),
                    (p: Path) => ExfiltrationFlow(byPath, reach, p), r)
  {
    var test, flow := (p: Path) => ExfiltrationTest(byPath, p), (p: Path) => ExfiltrationFlow(byPath, reach, p);
    forall start, p | start in ExfiltrationStarts(byPath, reach) && p in PathsFrom(GraphOf(byPath), start)
      ensures test(p) <==> flow(p)
    {
      PathsAreTheSimplePaths(GraphOf(byPath), start, p);
      ExfiltrationFlowTested(byPath, reach, p);
    }
    SameAnswers(GraphOf(byPath), ExfiltrationStarts(byPath, reach), test, flow, r);
  }

  method CredentialExfiltrationFlow(modules: seq<Module>, entrypoints: Option<set<string>>)
    returns (r: Outcome, stages: Option<ExfiltrationStages>)
    ensures ExfiltrationAnswer(modules, entrypoints, r)
    ensures stages.Some? <==> r.Found?
    ensures r.Found? ==> AreExfiltrationStages(ByPath(modules), r.path, stages.value)
  {
    stages := None;
    if |modules| > MAX_FLOW_MODULES {
      return LimitError, None;
    }
    var byPath := ByPath(modules);
    var g := GraphOf(byPath);
    var reach := ReachableModules(entrypoints, byPath.Keys, g);
    var starts := SortedNames(ExfiltrationStarts(byPath, reach));
    r := Search(g, starts, (path: Path) => ExfiltrationTest(byPath, path));
    assert Elements(starts) == ExfiltrationStarts(byPath, reach);
    ExfiltrationAnswered(byPath, reach, r);
    if r.Found? {
      var families := SortedNames(Families(byPath, r.path));
      ExfiltrationStagesAre(byPath, r.path, families);
      stages := Some(ExfiltrationStagesOf(byPath, r.path, families));
    }
  }

  /** What the answer means. */
  ghost predicate ExfiltrationMeaning(byPath: map<string, Module>, reach: set<string>, r: Outcome) {
    match r
    case Found(path) =>
      && ExfiltrationFlow(byPath, reach, path)
      && forall p :: ExfiltrationFlow(byPath, reach, p) ==> PathUpTo(path, p)
    case NoFlow =>
      && (forall p :: !ExfiltrationFlow(byPath, reach, p))
      && forall start :: ExfiltrationStart(byPath, reach, start) ==> WithinCaps(GraphOf(byPath), start)
    case LimitError =>
      exists start ::
        && ExfiltrationStart(byPath, reach, start) && !WithinCaps(GraphOf(byPath), start)
        && forall p :: ExfiltrationFlow(byPath, reach, p) ==> UpTo(start, p[0])
  }

  lemma ExfiltrationFlowsFrom(byPath: map<string, Module>, reach: set<string>)
    ensures FlowsFrom(GraphOf(byPath), ExfiltrationStarts(byPath, reach),
                      (p: Path) => ExfiltrationFlow(byPath, reach, p))
  {
    forall p: Path | ExfiltrationFlow(byPath, reach, p)
      ensures p[0] in ExfiltrationStarts(byPath, reach) && p in PathsFrom(GraphOf(byPath), p[0])
    {
      ExfiltrationFlowTested(byPath, reach, p);
    }
  }

  lemma ExfiltrationFound(byPath: map<string, Module>, reach: set<string>, path: Path)
    requires Answers(GraphOf(byPath), ExfiltrationStarts(byPath, reach),
                     (p: Path) => ExfiltrationFlow(byPath, reach, p), Found(path))
    ensures ExfiltrationMeaning(byPath, reach, Found(path))
  {
    var flow := (p: Path) => ExfiltrationFlow(byPath, reach, p);
    EdgesAscend(byPath);
    ExfiltrationFlowsFrom(byPath, reach);
    FoundIsLeast(GraphOf(byPath), ExfiltrationStarts(byPath, reach), flow, path);
    assert flow(path) && forall p :: ExfiltrationFlow(byPath, reach, p) ==> flow(p);
  }

  lemma ExfiltrationMeans(byPath: map<string, Module>, reach: set<string>, r: Outcome)
    requires Answers(GraphOf(byPath), ExfiltrationStarts(byPath, reach),
                     (p: Path) => ExfiltrationFlow(byPath, reach, p), r)
    ensures ExfiltrationMeaning(byPath, reach, r)
  {
    var flow := (p: Path) => ExfiltrationFlow(byPath, reach, p);
    var g, starts := GraphOf(byPath), ExfiltrationStarts(byPath, reach);
    ExfiltrationFlowsFrom(byPath, reach);
    match r {
      case Found(path) =>
        ExfiltrationFound(byPath, reach, path);
      case NoFlow =>
        NoneIsNone(g, starts, flow);
        assert forall p :: ExfiltrationFlow(byPath, reach, p) ==> flow(p);
      case LimitError =>
        var start := ErrorIsFirst(g, starts, flow);
        assert forall p :: ExfiltrationFlow(byPath, reach, p) ==> flow(p);
    }
  }

  /** The flow that is found is the least of all flows in the order of paths; with no flow
      found there is none, and all starts are within the caps; and an error means a start
      beyond the caps, and no flow from any start before it. */
  lemma ExfiltrationAnswerMeans(modules: seq<Module>, entrypoints: Option<set<string>>, r: Outcome)
    requires ExfiltrationAnswer(modules, entrypoints, r) && |modules| <= 10_000
    ensures var byPath := ByPath(modules);
            ExfiltrationMeaning(byPath, Reach(entrypoints, byPath.Keys, GraphOf(byPath)), r)
  {
    var byPath := ByPath(modules);
    ExfiltrationMeans(byPath, Reach(entrypoints, byPath.Keys, GraphOf(byPath)), r);
  }
}
