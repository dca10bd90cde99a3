/**
 The import graph: resolving relative imports to modules, the modules reachable from
 the entrypoints, and the enumeration of directed import paths.
 */
module ImportGraph {
  import opened Options
  import opened Ordering

  const MAX_FLOW_MODULES: nat := 10_000
  const MAX_FLOW_DEPTH: nat := 24
  const MAX_FLOW_PATHS: nat := 100_000

  type Path = p: seq<string> | p != [] witness [[]]

  /** Each module's matched imports, in the order they are visited. */
  type Graph = map<string, seq<string>>

  datatype Module = Module(
    path: string,
    imports: seq<string>,
    download: bool,
    write: bool,
    installVsix: bool,
    integrity: bool,
    credentialFamilies: set<string>,
    fileRead: bool,
    serialize: bool,
    networkBody: bool)

  // ----- Matching imports to modules

  const SUFFIXES: seq<string> := [".js", ".cjs", ".mjs", ".ts", ".cts", ".mts"]
  const INDEX_SUFFIXES: seq<string> := [".js", ".cjs", ".mjs", ".ts"]

  function Candidates(target: string): seq<string> {
    [target]
    + seq(|SUFFIXES|, i requires 0 <= i < |SUFFIXES| => target + SUFFIXES[i])
    + seq(|INDEX_SUFFIXES|, i requires 0 <= i < |INDEX_SUFFIXES| => target + "/index" + INDEX_SUFFIXES[i])
  }

  ghost predicate IsFirstIn(candidates: seq<string>, names: set<string>, i: int) {
    0 <= i < |candidates| && candidates[i] in names && forall j :: 0 <= j < i ==> candidates[j] !in names
  }

  function FirstIn(candidates: seq<string>, names: set<string>): (r: Option<string>)
    ensures r.Some? ==> r.value in names
    ensures r.Some? ==> exists i :: IsFirstIn(candidates, names, i) && candidates[i] == r.value
    ensures r.None? ==> forall c :: c in candidates ==> c !in names
  {
    if candidates == [] then None
    else if candidates[0] in names then Some(candidates[0])
    else
      var r := FirstIn(candidates[1..], names);
      assert candidates == [candidates[0]] + candidates[1..];
      assert r.Some? ==> exists i :: IsFirstIn(candidates, names, i) && candidates[i] == r.value by {
        if r.Some? {
          var i :| IsFirstIn(candidates[1..], names, i) && candidates[1..][i] == r.value;
          assert candidates[i + 1] == r.value;
          assert forall j :: 0 < j < i + 1 ==> candidates[j] == candidates[1..][j - 1];
        }
      }
      r
  }

  function MatchModule(target: string, names: set<string>): Option<string> {
    FirstIn(Candidates(target), names)
  }

  /** Which module an import names: itself, or the first that is there with one of the suffixes
      added, or with `/index` and one of the first four. */
  ghost predicate ResolvesTo(target: string, names: set<string>, m: string) {
    && m in names
    && if target in names then m == target
       else if target + ".js" in names then m == target + ".js"
       else if target + ".cjs" in names then m == target + ".cjs"
       else if target + ".mjs" in names then m == target + ".mjs"
       else if target + ".ts" in names then m == target + ".ts"
       else if target + ".cts" in names then m == target + ".cts"
       else if target + ".mts" in names then m == target + ".mts"
       else if target + "/index.js" in names then m == target + "/index.js"
       else if target + "/index.cjs" in names then m == target + "/index.cjs"
       else if target + "/index.mjs" in names then m == target + "/index.mjs"
       else m == target + "/index.ts"
  }

  lemma CandidatesAre(target: string)
    ensures Candidates(target)
         == [target, target + ".js", target + ".cjs", target + ".mjs", target + ".ts", target + ".cts",
             target + ".mts", target + "/index.js", target + "/index.cjs", target + "/index.mjs", target + "/index.ts"]
  {
    var index := target + "/index";
    assert index + ".js" == target + "/index.js" && index + ".cjs" == target + "/index.cjs";
    assert index + ".mjs" == target + "/index.mjs" && index + ".ts" == target + "/index.ts";
  }

  lemma MatchIsNamed(target: string, names: set<string>)
    requires MatchModule(target, names).Some?
    ensures ResolvesTo(target, names, MatchModule(target, names).value)
  {
    CandidatesAre(target);
    var cs := Candidates(target);
    var i :| IsFirstIn(cs, names, i) && cs[i] == MatchModule(target, names).value;
    assert (cs[0] in names ==> i <= 0) && (cs[1] in names ==> i <= 1) && (cs[2] in names ==> i <= 2);
    assert (cs[3] in names ==> i <= 3) && (cs[4] in names ==> i <= 4) && (cs[5] in names ==> i <= 5);
    assert (cs[6] in names ==> i <= 6) && (cs[7] in names ==> i <= 7) && (cs[8] in names ==> i <= 8);
    assert cs[9] in names ==> i <= 9;
  }

  /** It names none exactly if all eleven files are absent. */
  lemma NothingMatches(target: string, names: set<string>)
    ensures MatchModule(target, names).None? <==>
            && target !in names
            && target + ".js" !in names && target + ".cjs" !in names && target + ".mjs" !in names
            && target + ".ts" !in names && target + ".cts" !in names && target + ".mts" !in names
            && target + "/index.js" !in names && target + "/index.cjs" !in names
            && target + "/index.mjs" !in names && target + "/index.ts" !in names
  {
    CandidatesAre(target);
    var cs := Candidates(target);
    assert cs[0] in cs && cs[1] in cs && cs[2] in cs && cs[3] in cs && cs[4] in cs && cs[5] in cs;
    assert cs[6] in cs && cs[7] in cs && cs[8] in cs && cs[9] in cs && cs[10] in cs;
    if MatchModule(target, names).Some? {
      MatchIsNamed(target, names);
    }
  }

  /** An import is matched with the module that it names, and with no other. */
  lemma MatchExact(target: string, names: set<string>, m: string)
    ensures MatchModule(target, names) == Some(m) <==> ResolvesTo(target, names, m)
  {
    NothingMatches(target, names);
    if MatchModule(target, names).Some? {
      MatchIsNamed(target, names);
    }
  }

  /** How many of some imports name a module. */
  ghost function Naming(imports: seq<string>, names: set<string>, m: string): nat {
    if imports == [] then 0
    else (if ResolvesTo(imports[0], names, m) then 1 else 0) + Naming(imports[1..], names, m)
  }

  lemma {:induction false} MatchAllCounts(targets: seq<string>, names: set<string>, m: string)
    ensures multiset(MatchAll(targets, names))[m] == Naming(targets, names, m)
  {
    if targets != [] {
      var matched := MatchModule(targets[0], names);
      var first := if matched.Some? then [matched.value] else [];
      MatchExact(targets[0], names, m);
      MatchAllCounts(targets[1..], names, m);
      var rest := MatchAll(targets[1..], names);
      assert MatchAll(targets, names) == first + rest;
      assert multiset(first + rest) == multiset(first) + multiset(rest);
    }
  }

  function MatchAll(targets: seq<string>, names: set<string>): (r: seq<string>)
    ensures forall x :: x in r <==> exists t :: t in targets && MatchModule(t, names) == Some(x)
  {
    if targets == [] then []
    else
      assert targets == [targets[0]] + targets[1..];
      var matched := MatchModule(targets[0], names);
      (if matched.Some? then [matched.value] else []) + MatchAll(targets[1..], names)
  }

  /** The last summary of a path. */
  ghost predicate IsLast(modules: seq<Module>, path: string, i: int) {
    && 0 <= i < |modules| && modules[i].path == path
    && forall j :: i < j < |modules| ==> modules[j].path != path
  }

  /** A later summary of the same path replaces an earlier one. */
  function ByPath(modules: seq<Module>): (r: map<string, Module>)
    ensures forall p :: p in r ==> exists i :: IsLast(modules, p, i) && r[p] == modules[i]
    ensures forall m :: m in modules ==> m.path in r
  {
    if modules == [] then map[]
    else
      var last := modules[|modules| - 1];
      assert modules == modules[..|modules| - 1] + [last];
      ByPath(modules[..|modules| - 1])[last.path := last]
  }

  function GraphOf(byPath: map<string, Module>): (g: Graph)
    ensures g.Keys == byPath.Keys
    ensures forall p, c :: p in g && c in g[p] ==> c in g
  {
    var g := map p | p in byPath :: Sort(MatchAll(byPath[p].imports, byPath.Keys));
    assert forall p, c :: p in g && c in g[p] ==> c in g by {
      forall p, c | p in g && c in g[p]
        ensures c in g
      {
        SortSameNames(MatchAll(byPath[p].imports, byPath.Keys));
      }
    }
    g
  }

  /** A module's edges are the modules its imports name, one for each such import, in ascending
      order. */
  lemma EdgesExact(byPath: map<string, Module>, p: string)
    requires p in byPath
    ensures var edges := GraphOf(byPath)[p];
            && Ascending(edges)
            && (forall c :: multiset(edges)[c] == Naming(byPath[p].imports, byPath.Keys, c))
            && forall c :: c in edges <==> exists t :: t in byPath[p].imports && ResolvesTo(t, byPath.Keys, c)
  {
    var imports, names := byPath[p].imports, byPath.Keys;
    var matched := MatchAll(imports, names);
    SortAscending(matched);
    SortSameNames(matched);
    forall c
      ensures multiset(matched)[c] == Naming(imports, names, c)
      ensures c in matched <==> exists t :: t in imports && ResolvesTo(t, names, c)
    {
      MatchAllCounts(imports, names, c);
      forall t ensures MatchModule(t, names) == Some(c) <==> ResolvesTo(t, names, c) {
        MatchExact(t, names, c);
      }
    }
  }

  function Row(g: Graph, p: string): seq<string> {
    if p in g then g[p] else []
  }

  function Names(g: Graph): set<string> {
    g.Keys + set p, c | p in g && c in g[p] :: c
  }

  // ----- Reachability

  ghost predicate ClosedUnder(g: Graph, s: set<string>) {
    forall p, c :: p in s && c in Row(g, p) ==> c in s
  }

  /** The least set that holds the roots and follows every edge. */
  ghost predicate IsReach(g: Graph, roots: set<string>, s: set<string>) {
    && roots <= s
    && ClosedUnder(g, s)
    && forall t: set<string> :: roots <= t && ClosedUnder(g, t) ==> s <= t
  }

  /** The modules that the entrypoints name. */
  ghost function Roots(entrypoints: set<string>, names: set<string>): (r: set<string>)
    ensures forall m :: m in r <==> exists e :: e in entrypoints && ResolvesTo(e, names, m)
  {
    set m | m in names && exists e :: e in entrypoints && ResolvesTo(e, names, m)
  }

  lemma RootsAreMatched(entrypoints: set<string>, names: set<string>)
    ensures Roots(entrypoints, names)
         == set e | e in entrypoints && MatchModule(e, names).Some? :: MatchModule(e, names).value
  {
    forall m ensures m in Roots(entrypoints, names) <==>
                     exists e :: e in entrypoints && MatchModule(e, names) == Some(m) {
      forall e ensures MatchModule(e, names) == Some(m) <==> ResolvesTo(e, names, m) {
        MatchExact(e, names, m);
      }
    }
  }

  /** The modules the entrypoints reach; no entrypoints at all means every module. */
  ghost function Reach(entrypoints: Option<set<string>>, names: set<string>, g: Graph): set<string> {
    match entrypoints
    case None => names
    case Some(entries) =>
      var roots := Roots(entries, names);
      set n | n in roots + Names(g) && forall t: set<string> :: roots <= t && ClosedUnder(g, t) ==> n in t
  }

  lemma ReachIsLeast(entries: set<string>, names: set<string>, g: Graph)
    ensures IsReach(g, Roots(entries, names), Reach(Some(entries), names, g))
  {
    var s := Reach(Some(entries), names, g);
    forall p, c | p in s && c in Row(g, p)
      ensures c in s
    {
      assert c in Names(g);
    }
  }

  lemma ReachUnique(g: Graph, roots: set<string>, s: set<string>, t: set<string>)
    requires IsReach(g, roots, s) && IsReach(g, roots, t)
    ensures s == t
  {
  }

  /** The names of a set in ascending order, each once. */
  method SortedNames(names: set<string>) returns (r: seq<string>)
    ensures Ascending(r)
    ensures forall x :: x in r <==> x in names
    ensures multiset(r) == multiset(names)
  {
    var rest := names;
    var row: seq<string> := [];
    while rest != {}
      invariant multiset(row) + multiset(rest) == multiset(names)
      decreases rest
    {
      var x :| x in rest;
      row, rest := row + [x], rest - {x};
    }
    r := Sort(row);
    SortAscending(row);
    forall x
      ensures x in r <==> x in names
    {
      assert x in r <==> x in multiset(r);
      assert x in names <==> x in multiset(names);
    }
  }

  /** What holds before each turn of the worklist loop. */
  ghost predicate Searching(g: Graph, roots: set<string>, reachable: set<string>, pending: seq<string>) {
    var found := reachable + Elements(pending);
    && roots <= found <= roots + Names(g)
    && (forall p :: p in reachable ==> Elements(Row(g, p)) <= found)
    && (forall t: set<string> :: roots <= t && ClosedUnder(g, t) ==> found <= t)
  }

  lemma ElementsAppend(s: seq<string>, t: seq<string>)
    ensures Elements(s + t) == Elements(s) + Elements(t)
  {
  }

  lemma SeenStep(g: Graph, roots: set<string>, reachable: set<string>, rest: seq<string>, last: string)
    requires Searching(g, roots, reachable, rest + [last]) && last in reachable
    ensures Searching(g, roots, reachable, rest)
  {
    ElementsAppend(rest, [last]);
    assert reachable + Elements(rest) == reachable + Elements(rest + [last]);
  }

  /** What is found grows by the edges of the module that is taken up. */
  lemma FoundGrows(g: Graph, reachable: set<string>, rest: seq<string>, last: string)
    ensures (reachable + {last}) + Elements(rest + Reversed(Row(g, last)))
         == (reachable + Elements(rest + [last])) + Elements(Row(g, last))
  {
    ElementsAppend(rest, [last]);
    ElementsAppend(rest, Reversed(Row(g, last)));
    assert Elements(Reversed(Row(g, last))) == Elements(Row(g, last));
  }

  lemma NewStep(g: Graph, roots: set<string>, reachable: set<string>, rest: seq<string>, last: string)
    requires Searching(g, roots, reachable, rest + [last])
    ensures Searching(g, roots, reachable + {last}, rest + Reversed(Row(g, last)))
  {
    var found, row := reachable + Elements(rest + [last]), Elements(Row(g, last));
    FoundGrows(g, reachable, rest, last);
    assert last in Elements(rest + [last]) by {
      assert (rest + [last])[|rest|] == last;
    }
    assert row <= Names(g);
    forall t: set<string> | roots <= t && ClosedUnder(g, t) ensures found + row <= t {
      assert last in t;
    }
  }

  lemma SearchStep(g: Graph, roots: set<string>, reachable: set<string>, pending: seq<string>)
    requires pending != [] && Searching(g, roots, reachable, pending)
    ensures var last, rest := pending[|pending| - 1], pending[..|pending| - 1];
            if last in reachable then Searching(g, roots, reachable, rest)
            else Searching(g, roots, reachable + {last}, rest + Reversed(Row(g, last)))
  {
    var last, rest := pending[|pending| - 1], pending[..|pending| - 1];
    assert pending == rest + [last];
    if last in reachable {
      SeenStep(g, roots, reachable, rest, last);
    } else {
      NewStep(g, roots, reachable, rest, last);
    }
  }

  lemma SearchDone(entries: set<string>, names: set<string>, g: Graph, reachable: set<string>)
    requires Searching(g, Roots(entries, names), reachable, [])
    ensures reachable == Reach(Some(entries), names, g)
  {
    var roots := Roots(entries, names);
    assert reachable + Elements([]) == reachable;
    assert ClosedUnder(g, reachable) by {
      forall p, c | p in reachable && c in Row(g, p)
        ensures c in reachable
      {
        assert c in Elements(Row(g, p));
      }
    }
    ReachIsLeast(entries, names, g);
    ReachUnique(g, roots, reachable, Reach(Some(entries), names, g));
  }

  method ReachableModules(entrypoints: Option<set<string>>, names: set<string>, g: Graph)
    returns (reachable: set<string>)
    ensures reachable == Reach(entrypoints, names, g)
  {
    if entrypoints.None? {
      return names;
    }
    var roots := set e | e in entrypoints.value && MatchModule(e, names).Some? :: MatchModule(e, names).value;
    RootsAreMatched(entrypoints.value, names);
    var sorted := SortedNames(roots);
    var pending := Reversed(sorted);
    reachable := {};
    assert Elements(pending) == roots;
    while pending != []
      invariant Searching(g, roots, reachable, pending)
      decreases roots + Names(g) - reachable, |pending|
    {
      SearchStep(g, roots, reachable, pending);
      var last := pending[|pending| - 1];
      assert last in Elements(pending);
      pending := pending[..|pending| - 1];
      if last !in reachable {
        reachable := reachable + {last};
        pending := pending + Reversed(Row(g, last));
      }
    }
    SearchDone(entrypoints.value, names, g, reachable);
  }

  function Reversed(s: seq<string>): (r: seq<string>)
    ensures |r| == |s|
    ensures forall x :: x in r <==> x in s
  {
    if s == [] then []
    else
      assert s == [s[0]] + s[1..];
      Reversed(s[1..]) + [s[0]]
  }

  ghost function Elements(s: seq<string>): set<string> {
    set x | x in s
  }
}
