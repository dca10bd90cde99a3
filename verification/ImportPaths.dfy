/**
 The enumeration of directed import paths: an explicit stack of paths, popped depth
 first, with a cap on depth and on the number of paths handed out.

 `Preorder` is the enumeration without caps.  `PathWalk` is the generator; it hands out
 `Preorder` from the front until it is done or a cap stops it.
 */
module ImportPaths {
  import opened ImportGraph
  import opened Options
  import opened Ordering

  /** The edges that continue a path without meeting it again. */
  function Children(g: Graph, path: Path): seq<string>
  {
    Fresh(Row(g, path[|path| - 1]), path)
  }

  function Fresh(row: seq<string>, path: Path): seq<string> {
    if row == [] then [] else (if row[0] in path then [] else [row[0]]) + Fresh(row[1..], path)
  }

  lemma {:induction false} FreshIs(row: seq<string>, path: Path, c: string)
    ensures c in Fresh(row, path) <==> c in row && c !in path
  {
    if row != [] {
      assert row == [row[0]] + row[1..];
      FreshIs(row[1..], path, c);
    }
  }

  /** How many names a path can still be extended by. */
  ghost function Room(g: Graph, path: Path): nat {
    |Names(g) - Elements(path)|
  }

  lemma ExtendingTakesRoom(g: Graph, path: Path, c: string)
    requires c in Children(g, path)
    ensures Room(g, path + [c]) < Room(g, path)
  {
    FreshIs(Row(g, path[|path| - 1]), path, c);
    assert c in Names(g);
    assert Elements(path + [c]) == Elements(path) + {c};
    assert Names(g) - Elements(path + [c]) == (Names(g) - Elements(path)) - {c};
  }

  ghost function Preorder(g: Graph, path: Path): seq<Path>
    decreases Room(g, path), 1, 0
  {
    [path] + PreorderOf(g, path, Children(g, path))
  }

  /** The subtrees below `path`, one for each of the children `cs`. */
  ghost function PreorderOf(g: Graph, path: Path, cs: seq<string>): seq<Path>
    requires forall c :: c in cs ==> c in Children(g, path)
    decreases Room(g, path), 0, |cs|
  {
    if cs == [] then []
    else
      ExtendingTakesRoom(g, path, cs[0]);
      Preorder(g, path + [cs[0]]) + PreorderOf(g, path, cs[1..])
  }

  /** All paths from a start, in the order in which they are enumerated. */
  ghost function PathsFrom(g: Graph, start: string): seq<Path> {
    Preorder(g, [start])
  }

  // ----- What is enumerated

  /** `q` continues `path` along edges, never visiting a module twice. */
  ghost predicate Continues(g: Graph, path: Path, q: Path) {
    && path <= q
    && forall i :: 0 < |path| <= i < |q| ==> q[i] in Row(g, q[i - 1]) && q[i] !in q[..i]
  }

  /** A simple directed import path that begins at `start`. */
  ghost predicate SimplePath(g: Graph, start: string, q: Path) {
    && q[0] == start
    && forall i :: 0 < i < |q| ==> q[i] in Row(g, q[i - 1]) && q[i] !in q[..i]
  }

  lemma ContinuesBy(g: Graph, path: Path, q: Path)
    requires Continues(g, path, q) && q != path
    ensures q[|path|] in Children(g, path) && Continues(g, path + [q[|path|]], q)
  {
    FreshIs(Row(g, path[|path| - 1]), path, q[|path|]);
    assert q[..|path|] == path;
    assert path + [q[|path|]] == q[..|path| + 1];
  }

  lemma ContinuesBack(g: Graph, path: Path, c: string, q: Path)
    requires c in Children(g, path) && Continues(g, path + [c], q)
    ensures Continues(g, path, q) && q != path && q[|path|] == c
  {
    FreshIs(Row(g, path[|path| - 1]), path, c);
    assert q[..|path| + 1] == path + [c] && q[..|path|] == path;
    assert q[|path| - 1] == path[|path| - 1];
  }

  lemma {:induction false} PreorderExact(g: Graph, path: Path, q: Path)
    ensures q in Preorder(g, path) <==> Continues(g, path, q)
    decreases Room(g, path), 1, 0
  {
    var cs := Children(g, path);
    PreorderOfExact(g, path, cs, q);
    if Continues(g, path, q) && q != path {
      ContinuesBy(g, path, q);
    }
    if q in PreorderOf(g, path, cs) {
      var c :| c in cs && Continues(g, path + [c], q);
      ContinuesBack(g, path, c, q);
    }
  }

  lemma {:induction false} PreorderOfExact(g: Graph, path: Path, cs: seq<string>, q: Path)
    requires forall c :: c in cs ==> c in Children(g, path)
    ensures q in PreorderOf(g, path, cs) <==> exists c :: c in cs && Continues(g, path + [c], q)
    decreases Room(g, path), 0, |cs|
  {
    if cs != [] {
      assert cs == [cs[0]] + cs[1..];
      ExtendingTakesRoom(g, path, cs[0]);
      PreorderExact(g, path + [cs[0]], q);
      PreorderOfExact(g, path, cs[1..], q);
    }
  }

  /** The enumeration holds exactly the simple paths from its start... */
  lemma PathsAreTheSimplePaths(g: Graph, start: string, q: Path)
    ensures q in PathsFrom(g, start) <==> SimplePath(g, start, q)
  {
    PreorderExact(g, [start], q);
    if SimplePath(g, start, q) {
      assert [start] <= q;
    }
  }

  ghost predicate Distinct<T>(s: seq<T>) {
    forall i, j :: 0 <= i < j < |s| ==> s[i] != s[j]
  }

  lemma DistinctConcat<T>(s: seq<T>, t: seq<T>)
    requires Distinct(s) && Distinct(t) && forall x :: x in s ==> x !in t
    ensures Distinct(s + t)
  {
    forall i, j | 0 <= i < j < |s + t|
      ensures (s + t)[i] != (s + t)[j]
    {
      if i < |s| <= j {
        assert (s + t)[i] in s && (s + t)[j] in t;
      }
    }
  }

  lemma {:induction false} FreshDistinct(row: seq<string>, path: Path)
    requires Distinct(row)
    ensures Distinct(Fresh(row, path))
  {
    if row != [] {
      assert Distinct(row[1..]) && row[0] !in row[1..];
      FreshDistinct(row[1..], path);
      FreshIs(row[1..], path, row[0]);
      DistinctConcat(if row[0] in path then [] else [row[0]], Fresh(row[1..], path));
    }
  }

  /** ...each once, provided no module lists a matched import twice. */
  lemma {:induction false} PathsAreDistinct(g: Graph, path: Path)
    requires forall p :: p in g ==> Distinct(g[p])
    ensures Distinct(Preorder(g, path))
    decreases Room(g, path), 1, 0
  {
    var cs := Children(g, path);
    FreshDistinct(Row(g, path[|path| - 1]), path);
    SubtreesDistinct(g, path, cs);
    PreorderOfExact(g, path, cs, path);
    DistinctConcat([path], PreorderOf(g, path, cs));
  }

  lemma SubtreesDisjoint(g: Graph, path: Path, c: string, cs: seq<string>)
    requires c in Children(g, path) && c !in cs && forall c :: c in cs ==> c in Children(g, path)
    ensures forall q :: q in Preorder(g, path + [c]) ==> q !in PreorderOf(g, path, cs)
  {
    forall q | q in Preorder(g, path + [c])
      ensures q !in PreorderOf(g, path, cs)
    {
      NotInSubtrees(g, path, c, cs, q);
    }
  }

  lemma BranchesDiffer(g: Graph, path: Path, c: string, other: string, q: Path)
    requires c != other && Continues(g, path + [c], q)
    ensures !Continues(g, path + [other], q)
  {
    assert (path + [c])[|path|] != (path + [other])[|path|];
  }

  lemma NotInSubtrees(g: Graph, path: Path, c: string, cs: seq<string>, q: Path)
    requires c in Children(g, path) && c !in cs && forall c :: c in cs ==> c in Children(g, path)
    requires q in Preorder(g, path + [c])
    ensures q !in PreorderOf(g, path, cs)
  {
    PreorderExact(g, path + [c], q);
    PreorderOfExact(g, path, cs, q);
    forall other | other in cs ensures !Continues(g, path + [other], q) {
      BranchesDiffer(g, path, c, other, q);
    }
  }

  lemma {:induction false} SubtreesDistinct(g: Graph, path: Path, cs: seq<string>)
    requires forall c :: c in cs ==> c in Children(g, path)
    requires Distinct(cs) && forall p :: p in g ==> Distinct(g[p])
    ensures Distinct(PreorderOf(g, path, cs))
    decreases Room(g, path), 0, |cs|
  {
    if cs != [] {
      var c := cs[0];
      ExtendingTakesRoom(g, path, c);
      PathsAreDistinct(g, path + [c]);
      assert Distinct(cs[1..]) && c !in cs[1..];
      SubtreesDistinct(g, path, cs[1..]);
      SubtreesDisjoint(g, path, c, cs[1..]);
      DistinctConcat(Preorder(g, path + [c]), PreorderOf(g, path, cs[1..]));
    }
  }

  /** A path that can be continued is followed directly by its first continuation. */
  lemma {:induction false} FirstChildNext(g: Graph, path: Path, i: nat)
    requires i < |Preorder(g, path)|
    ensures var paths := Preorder(g, path);
            Children(g, paths[i]) != [] ==> i + 1 < |paths| && paths[i + 1] == paths[i] + [Children(g, paths[i])[0]]
    decreases Room(g, path), 1, 0
  {
    var cs := Children(g, path);
    if i == 0 {
      if cs != [] {
        ExtendingTakesRoom(g, path, cs[0]);
        assert PreorderOf(g, path, cs)[0] == path + [cs[0]];
      }
    } else {
      assert Preorder(g, path)[i] == PreorderOf(g, path, cs)[i - 1];
      FirstChildNextOf(g, path, cs, i - 1);
    }
  }

  lemma {:induction false} FirstChildNextOf(g: Graph, path: Path, cs: seq<string>, i: nat)
    requires forall c :: c in cs ==> c in Children(g, path)
    requires i < |PreorderOf(g, path, cs)|
    ensures var paths := PreorderOf(g, path, cs);
            Children(g, paths[i]) != [] ==> i + 1 < |paths| && paths[i + 1] == paths[i] + [Children(g, paths[i])[0]]
    decreases Room(g, path), 0, |cs|
  {
    ExtendingTakesRoom(g, path, cs[0]);
    var first := Preorder(g, path + [cs[0]]);
    if i < |first| {
      FirstChildNext(g, path + [cs[0]], i);
    } else {
      FirstChildNextOf(g, path, cs[1..], i - |first|);
    }
  }

  // ----- The order of the paths

  /** The order of names, carried over to paths: a path before its continuations. */
  ghost predicate PathUpTo(p: Path, q: Path) {
    || p <= q
    || exists k :: 0 <= k < |p| && k < |q| && p[..k] == q[..k] && Before(p[k], q[k])
  }

  /** What comes later is greater, or has been there before. */
  ghost predicate Rising(paths: seq<Path>) {
    forall i, j :: 0 <= i < j < |paths| ==> PathUpTo(paths[i], paths[j]) || paths[j] in paths[..i]
  }

  lemma {:induction false} FreshAscends(row: seq<string>, path: Path)
    requires Ascending(row)
    ensures Ascending(Fresh(row, path))
  {
    if row != [] {
      FreshAscends(row[1..], path);
      forall c | c in Fresh(row[1..], path) ensures UpTo(row[0], c) {
        FreshIs(row[1..], path, c);
        var k :| 0 <= k < |row[1..]| && row[1..][k] == c;
        assert row[k + 1] == c;
      }
    }
  }

  /** A path below a child, and one below a later child. */
  lemma LaterSubtree(g: Graph, path: Path, c: string, d: string, p: Path, q: Path)
    requires c in Children(g, path) && Continues(g, path + [c], p) && Continues(g, path + [d], q) && UpTo(c, d)
    ensures PathUpTo(p, q) || c == d
  {
    var k := |path|;
    assert p[..k + 1] == path + [c] && q[..k + 1] == path + [d];
    assert p[..k] == p[..k + 1][..k] == path == q[..k + 1][..k] == q[..k];
    assert p[k] == p[..k + 1][k] == c && q[k] == q[..k + 1][k] == d;
  }

  lemma RisingConcat(first: seq<Path>, rest: seq<Path>)
    requires Rising(first) && Rising(rest)
    requires forall i, q :: 0 <= i < |first| && q in rest ==> PathUpTo(first[i], q) || q in first[..i]
    ensures Rising(first + rest)
  {
    var all := first + rest;
    forall i, j | 0 <= i < j < |all| ensures PathUpTo(all[i], all[j]) || all[j] in all[..i] {
      if j < |first| {
        assert all[..i] == first[..i];
      } else if i < |first| {
        var q := rest[j - |first|];
        assert all[i] == first[i] && all[j] == q && q in rest;
        assert all[..i] == first[..i];
      } else {
        var m, n := i - |first|, j - |first|;
        assert all[i] == rest[m] && all[j] == rest[n];
        if rest[n] in rest[..m] {
          var k :| 0 <= k < m && rest[..m][k] == rest[n];
          assert all[..i][|first| + k] == rest[k];
        }
      }
    }
  }

  lemma RisingMember(paths: seq<Path>, i: nat, q: Path)
    requires Rising(paths) && i < |paths| && q in paths
    ensures PathUpTo(paths[i], q) || q in paths[..i]
  {
    var k :| 0 <= k < |paths| && paths[k] == q;
    if k < i {
      assert paths[..i][k] == q;
    }
  }

  /** Where edges are in ascending order, paths come in theirs. */
  lemma {:induction false} PathsRise(g: Graph, path: Path)
    requires forall p :: p in g ==> Ascending(g[p])
    ensures Rising(Preorder(g, path))
    decreases Room(g, path), 1, 0
  {
    var cs := Children(g, path);
    FreshAscends(Row(g, path[|path| - 1]), path);
    SubtreesRise(g, path, cs);
    var all, below := Preorder(g, path), PreorderOf(g, path, cs);
    forall i, j | 0 <= i < j < |all| ensures PathUpTo(all[i], all[j]) || all[j] in all[..i] {
      assert all[j] == below[j - 1];
      if i == 0 {
        PreorderExact(g, path, all[j]);
      } else {
        assert all[i] == below[i - 1] && all[..i] == [path] + below[..i - 1];
      }
    }
  }

  lemma FirstUpTo(cs: seq<string>)
    requires Ascending(cs) && cs != []
    ensures Ascending(cs[1..]) && forall d :: d in cs[1..] ==> d in cs && UpTo(cs[0], d)
  {
    forall d | d in cs[1..] ensures d in cs && UpTo(cs[0], d) {
      var k :| 0 <= k < |cs[1..]| && cs[1..][k] == d;
      assert cs[k + 1] == d;
    }
  }

  lemma BeforeLaterSubtrees(g: Graph, path: Path, c: string, cs: seq<string>, first: seq<Path>)
    requires c in Children(g, path) && forall d :: d in cs ==> d in Children(g, path) && UpTo(c, d)
    requires first == Preorder(g, path + [c]) && Rising(first)
    ensures forall i, q :: 0 <= i < |first| && q in PreorderOf(g, path, cs) ==>
                             PathUpTo(first[i], q) || q in first[..i]
  {
    forall p ensures p in first <==> Continues(g, path + [c], p) {
      PreorderExact(g, path + [c], p);
    }
    forall i, q | 0 <= i < |first| && q in PreorderOf(g, path, cs) ensures PathUpTo(first[i], q) || q in first[..i] {
      PreorderOfExact(g, path, cs, q);
      var d :| d in cs && Continues(g, path + [d], q);
      LaterSubtree(g, path, c, d, first[i], q);
      if c == d {
        RisingMember(first, i, q);
      }
    }
  }

  lemma {:induction false} SubtreesRise(g: Graph, path: Path, cs: seq<string>)
    requires (forall p :: p in g ==> Ascending(g[p])) && Ascending(cs) && forall c :: c in cs ==> c in Children(g, path)
    ensures Rising(PreorderOf(g, path, cs))
    decreases Room(g, path), 0, |cs|
  {
    if cs != [] {
      ExtendingTakesRoom(g, path, cs[0]);
      FirstUpTo(cs);
      var first, rest := Preorder(g, path + [cs[0]]), PreorderOf(g, path, cs[1..]);
      PathsRise(g, path + [cs[0]]);
      SubtreesRise(g, path, cs[1..]);
      BeforeLaterSubtrees(g, path, cs[0], cs[1..], first);
      RisingConcat(first, rest);
    }
  }

  // ----- The caps

  /** Taking the path at `i` is refused: the cap on paths is used up, or the path handed
      out before it is at full depth and can be continued. */
  ghost predicate Capped(g: Graph, paths: seq<Path>, i: nat) {
    i >= MAX_FLOW_PATHS || TooDeep(g, paths, i)
  }

  /** None of the first `n` paths is refused. */
  ghost predicate Uncapped(g: Graph, paths: seq<Path>, n: nat) {
    forall i: nat :: i < n ==> !Capped(g, paths, i)
  }

  ghost predicate TooDeep(g: Graph, paths: seq<Path>, i: nat) {
    0 < i <= |paths| && |paths[i - 1]| >= MAX_FLOW_DEPTH && Children(g, paths[i - 1]) != []
  }

  ghost predicate WithinCaps(g: Graph, start: string) {
    var paths := PathsFrom(g, start);
    |paths| <= 100_000 && forall p :: p in paths ==> |p| <= 24
  }

  /** No step of the whole enumeration is refused exactly when every simple path is
      short enough and there are not too many of them. */
  lemma CapsExact(g: Graph, start: string)
    ensures var paths := PathsFrom(g, start);
            Uncapped(g, paths, |paths|) <==> WithinCaps(g, start)
  {
    var paths := PathsFrom(g, start);
    if WithinCaps(g, start) {
      forall i: nat | i < |paths| ensures !Capped(g, paths, i) {
        if 0 < i {
          PathsAreTheSimplePaths(g, start, paths[i - 1]);
          FirstChildNext(g, [start], i - 1);
        }
      }
    } else {
      var i := BreachIsCapped(g, start);
    }
  }

  lemma BreachIsCapped(g: Graph, start: string) returns (i: nat)
    requires !WithinCaps(g, start)
    ensures i < |PathsFrom(g, start)| && Capped(g, PathsFrom(g, start), i)
  {
    var paths := PathsFrom(g, start);
    if |paths| > MAX_FLOW_PATHS {
      i := MAX_FLOW_PATHS;
    } else {
      var p :| p in paths && |p| > MAX_FLOW_DEPTH;
      PathsAreTheSimplePaths(g, start, p);
      var q: Path := p[..MAX_FLOW_DEPTH];
      assert forall i :: 0 < i < |q| ==> q[..i] == p[..i];
      PathsAreTheSimplePaths(g, start, q);
      FreshIs(Row(g, q[|q| - 1]), q, p[MAX_FLOW_DEPTH]);
      var j: nat :| j < |paths| && paths[j] == q;
      FirstChildNext(g, [start], j);
      i := j + 1;
    }
  }

  // ----- The generator

  /** The subtrees still on the stack, top first. */
  ghost function Unfolded(g: Graph, pending: seq<Path>): seq<Path>
  {
    if pending == [] then []
    else Preorder(g, pending[|pending| - 1]) + Unfolded(g, pending[..|pending| - 1])
  }

  function PushReversed(pending: seq<Path>, path: Path, cs: seq<string>): (r: seq<Path>)
  {
    if cs == [] then pending
    else PushReversed(pending, path, cs[1..]) + [path + [cs[0]]]
  }

  lemma ConcatAssociates<T>(a: seq<T>, b: seq<T>, c: seq<T>)
    ensures (a + b) + c == a + (b + c)
  {
  }

  lemma PushedOne(g: Graph, pending: seq<Path>, path: Path)
    ensures Unfolded(g, pending + [path]) == Preorder(g, path) + Unfolded(g, pending)
  {
    assert (pending + [path])[..|pending|] == pending;
  }

  lemma {:induction false} PushedUnfolds(g: Graph, pending: seq<Path>, path: Path, cs: seq<string>)
    requires forall c :: c in cs ==> c in Children(g, path)
    ensures Unfolded(g, PushReversed(pending, path, cs)) == PreorderOf(g, path, cs) + Unfolded(g, pending)
    decreases |cs|
  {
    if cs != [] {
      var below := PushReversed(pending, path, cs[1..]);
      PushedUnfolds(g, pending, path, cs[1..]);
      PushedOne(g, below, path + [cs[0]]);
      ExtendingTakesRoom(g, path, cs[0]);
      ConcatAssociates(Preorder(g, path + [cs[0]]), PreorderOf(g, path, cs[1..]), Unfolded(g, pending));
    }
  }

  datatype Yield = Next(path: Path) | Done | DepthLimit | CountLimit

  /** What the walk has yet to hand out: first the subtrees of the path handed out last,
      whose children are only pushed when the walk resumes. */
  ghost function Left(g: Graph, current: Option<Path>, pending: seq<Path>): seq<Path> {
    (if current.None? then [] else PreorderOf(g, current.value, Children(g, current.value))) + Unfolded(g, pending)
  }

  /** The walk's position: what was handed out and what is left make up the enumeration. */
  ghost predicate At(g: Graph, start: string, yielded: seq<Path>, current: Option<Path>, pending: seq<Path>) {
    && current == (if yielded == [] then None else Some(yielded[|yielded| - 1]))
    && yielded + Left(g, current, pending) == PathsFrom(g, start)
  }

  lemma AtStart(g: Graph, start: string)
    ensures At(g, start, [], None, [[start]])
  {
    var pending: seq<Path> := [[start]];
    assert pending[..0] == [];
    assert Unfolded(g, pending) == PathsFrom(g, start) + Unfolded(g, []);
    assert Left(g, None, pending) == PathsFrom(g, start);
  }

  /** The stack after the children of the current path have been pushed. */
  function Pushed(g: Graph, current: Option<Path>, pending: seq<Path>): seq<Path> {
    if current.None? then pending else PushReversed(pending, current.value, Children(g, current.value))
  }

  lemma PushStep(g: Graph, current: Option<Path>, pending: seq<Path>)
    ensures Unfolded(g, Pushed(g, current, pending)) == Left(g, current, pending)
  {
    if current.Some? {
      PushedUnfolds(g, pending, current.value, Children(g, current.value));
    }
  }

  lemma PopStep(g: Graph, pending: seq<Path>)
    requires pending != []
    ensures var top, rest := pending[|pending| - 1], pending[..|pending| - 1];
            Unfolded(g, pending) == [top] + Left(g, Some(top), rest)
  {
    var top, rest := pending[|pending| - 1], pending[..|pending| - 1];
    ConcatAssociates([top], PreorderOf(g, top, Children(g, top)), Unfolded(g, rest));
  }

  lemma SplitAt<T>(all: seq<T>, taken: seq<T>, left: seq<T>)
    requires taken + left == all
    ensures |taken| <= |all| && (|taken| == |all| <==> left == [])
    ensures forall i :: 0 <= i < |taken| ==> all[i] == taken[i]
    ensures left != [] ==> all[|taken|] == left[0] && (taken + [left[0]]) + left[1..] == all
  {
  }

  lemma StackIsLeft(g: Graph, current: Option<Path>, pending: seq<Path>)
    ensures var stack, left := Pushed(g, current, pending), Left(g, current, pending);
            if stack == [] then left == []
            else left == [stack[|stack| - 1]] + Left(g, Some(stack[|stack| - 1]), stack[..|stack| - 1])
  {
    PushStep(g, current, pending);
    var stack := Pushed(g, current, pending);
    if stack != [] {
      PopStep(g, stack);
    }
  }

  lemma ResumeStep(g: Graph, start: string, yielded: seq<Path>, current: Option<Path>, pending: seq<Path>)
    requires At(g, start, yielded, current, pending)
    ensures var paths := PathsFrom(g, start);
            var n := |yielded|;
            var stack := Pushed(g, current, pending);
            && n <= |paths|
            && (n > 0 ==> current == Some(paths[n - 1]))
            && (n == |paths| <==> stack == [])
            && (stack != [] ==> var top, rest := stack[|stack| - 1], stack[..|stack| - 1];
                                paths[n] == top && At(g, start, yielded + [top], Some(top), rest))
  {
    var stack, left := Pushed(g, current, pending), Left(g, current, pending);
    StackIsLeft(g, current, pending);
    SplitAt(PathsFrom(g, start), yielded, left);
    if stack != [] {
      assert left[1..] == Left(g, Some(stack[|stack| - 1]), stack[..|stack| - 1]);
    }
  }

  predicate Refused(g: Graph, current: Option<Path>) {
    current.Some? && |current.value| >= MAX_FLOW_DEPTH && Children(g, current.value) != []
  }

  lemma CappedIs(g: Graph, paths: seq<Path>, n: nat, current: Option<Path>)
    requires n <= |paths| && current == if n == 0 then None else Some(paths[n - 1])
    ensures TooDeep(g, paths, n) <==> Refused(g, current)
  {
  }

  lemma RefusedHasMore(g: Graph, current: Option<Path>, pending: seq<Path>)
    ensures Refused(g, current) ==> Pushed(g, current, pending) != []
  {
  }

  class PathWalk {
    const g: Graph
    const start: string
    var pending: seq<Path>
    var emitted: nat
    var current: Option<Path>
    ghost var yielded: seq<Path>

    ghost predicate Valid()
      reads this
    {
      emitted == |yielded| && At(g, start, yielded, current, pending)
    }

    constructor (g: Graph, start: string)
      ensures Valid() && this.g == g && this.start == start && yielded == []
    {
      this.g, this.start := g, start;
      pending, emitted, current, yielded := [[start]], 0, None, [];
      AtStart(g, start);
    }

    /** Resumes the walk.  Each path is the next of the enumeration; the walk ends only
        when nothing is left, and it is refused exactly where a cap says so. */
    method Resume() returns (r: Yield)
      requires Valid()
      modifies this
      ensures var paths := PathsFrom(g, start);
              var n := |old(yielded)|;
              if n < |paths| && !Capped(g, paths, n) then
                r == Next(paths[n]) && Valid() && yielded == old(yielded) + [paths[n]]
              else
                && yielded == old(yielded)
                && r == if n == |paths| then Done else if TooDeep(g, paths, n) then DepthLimit else CountLimit
    {
      ResumeStep(g, start, yielded, current, pending);
      CappedIs(g, PathsFrom(g, start), |yielded|, current);
      RefusedHasMore(g, current, pending);
      if Refused(g, current) {
        return DepthLimit;
      }
      var stack := Pushed(g, current, pending);
      if stack == [] {
        return Done;
      }
      if emitted >= MAX_FLOW_PATHS {
        return CountLimit;
      }
      var path := stack[|stack| - 1];
      pending, emitted, current, yielded := stack[..|stack| - 1], emitted + 1, Some(path), yielded + [path];
      r := Next(path);
    }
  }
}
