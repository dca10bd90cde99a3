/**
 What is asked of the advisory service, what is known from its answers and what is found, in
 order, said without the functions that compute them.
 */
module OsvExact {
  import opened Options
  import opened OsvLookup

  // ----- Dependencies, in the order in which they are declared

  ghost predicate Reads(r: Reader, declared: Declared) {
    declared.range.Some? && r.normalize(declared.range.value) != ""
  }

  /** The first `n` declared dependencies give these entries. */
  ghost predicate AreEntries(r: Reader, declared: seq<Declared>, n: nat, entries: seq<Dependency>)
    requires n <= |declared|
  {
    if n == 0 then entries == []
    else if Reads(r, declared[n - 1]) then
      && entries != []
      && entries[|entries| - 1].name == declared[n - 1].name
      && entries[|entries| - 1].version == r.normalize(declared[n - 1].range.value)
      && entries[|entries| - 1].exact == r.isExact(declared[n - 1].range.value)
      && AreEntries(r, declared, n - 1, entries[..|entries| - 1])
    else AreEntries(r, declared, n - 1, entries)
  }

  lemma Associate<T>(a: seq<T>, b: seq<T>, c: seq<T>)
    ensures (a + b) + c == a + (b + c)
  {
  }

  /** What one dependency gives. */
  ghost function EntryOf(r: Reader, d: Declared): seq<Dependency> {
    if d.range.None? || r.normalize(d.range.value) == "" then []
    else [Dependency(d.name, r.normalize(d.range.value), r.isExact(d.range.value))]
  }

  lemma EntriesFirst(r: Reader, declared: seq<Declared>)
    requires declared != []
    ensures Entries(r, declared) == EntryOf(r, declared[0]) + Entries(r, declared[1..])
  {
  }

  lemma {:induction false} EntriesMore(r: Reader, declared: seq<Declared>, d: Declared)
    ensures Entries(r, declared + [d]) == Entries(r, declared) + EntryOf(r, d)
  {
    var more := declared + [d];
    EntriesFirst(r, more);
    if declared == [] {
      assert more[1..] == [];
    } else {
      assert more[1..] == declared[1..] + [d] && more[0] == declared[0];
      EntriesMore(r, declared[1..], d);
      EntriesFirst(r, declared);
      Associate(EntryOf(r, declared[0]), Entries(r, declared[1..]), EntryOf(r, d));
    }
  }

  lemma EntriesLast(r: Reader, declared: seq<Declared>, n: nat)
    requires 0 < n <= |declared|
    ensures Entries(r, declared[..n]) == Entries(r, declared[..n - 1]) + EntryOf(r, declared[n - 1])
  {
    EntriesMore(r, declared[..n - 1], declared[n - 1]);
    assert declared[..n] == declared[..n - 1] + [declared[n - 1]];
  }

  lemma {:induction false} EntriesInOrder(r: Reader, declared: seq<Declared>, n: nat)
    requires n <= |declared|
    ensures AreEntries(r, declared, n, Entries(r, declared[..n]))
  {
    if n > 0 {
      EntriesInOrder(r, declared, n - 1);
      EntriesLast(r, declared, n);
      var front := Entries(r, declared[..n - 1]);
      if Reads(r, declared[n - 1]) {
        assert Entries(r, declared[..n])[..|front|] == front;
      } else {
        assert front + [] == front;
      }
    }
  }

  // ----- One finding

  /** The placeholder package that the feed takes for malware. */
  ghost predicate IsExcused(r: Reader, d: Dependency, a: Advisory) {
    r.lower(d.name) == "fs" && d.version == "0.0.1-security" && a.id == "MAL-2025-21003"
  }

  ghost predicate IsMalware(a: Advisory) {
    |a.id| >= 4 && a.id[0] == 'M' && a.id[1] == 'A' && a.id[2] == 'L' && a.id[3] == '-'
  }

  /** Of the first `n` advisories those with a name that are not excused, in order. */
  ghost predicate AreNamed(r: Reader, d: Dependency, advisories: seq<Advisory>, n: nat, ids: seq<string>)
    requires n <= |advisories|
  {
    if n == 0 then ids == []
    else if IsExcused(r, d, advisories[n - 1]) || advisories[n - 1].id == "" then
      AreNamed(r, d, advisories, n - 1, ids)
    else
      && ids != [] && ids[|ids| - 1] == advisories[n - 1].id
      && AreNamed(r, d, advisories, n - 1, ids[..|ids| - 1])
  }

  /** Nothing is found where every advisory is excused; otherwise one finding, critical for malware,
      and graver for an exact version than for a range. */
  ghost predicate IsFound(r: Reader, extensionId: string, d: Dependency, advisories: seq<Advisory>,
                          found: seq<Finding>)
  {
    if forall a :: a in advisories ==> IsExcused(r, d, a) then found == []
    else
      && |found| == 1 && found[0].extensionId == extensionId && found[0].dependency == d
      && AreNamed(r, d, advisories, |advisories|, found[0].advisories)
      && (found[0].malicious <==> exists a :: a in advisories && !IsExcused(r, d, a) && IsMalware(a))
      && found[0].severity == if found[0].malicious then Critical else if d.exact then High else Medium
  }

  lemma {:induction false} RelevantAppend(r: Reader, d: Dependency, a: seq<Advisory>, b: seq<Advisory>)
    ensures Relevant(r, d, a + b) == Relevant(r, d, a) + Relevant(r, d, b)
  {
    if a == [] {
      assert a + b == b;
    } else {
      RelevantAppend(r, d, a[1..], b);
      assert (a + b)[1..] == a[1..] + b && (a + b)[0] == a[0];
      Associate(if IsFalsePositive(r, d, a[0]) then [] else [a[0]], Relevant(r, d, a[1..]), Relevant(r, d, b));
    }
  }

  lemma {:induction false} IdsAppend(a: seq<Advisory>, b: seq<Advisory>)
    ensures Ids(a + b) == Ids(a) + Ids(b)
  {
    if a == [] {
      assert a + b == b;
    } else {
      IdsAppend(a[1..], b);
      assert (a + b)[1..] == a[1..] + b && (a + b)[0] == a[0];
      Associate(if a[0].id == "" then [] else [a[0].id], Ids(a[1..]), Ids(b));
    }
  }

  lemma IdsLast(r: Reader, d: Dependency, advisories: seq<Advisory>, n: nat)
    requires 0 < n <= |advisories|
    ensures var last := advisories[n - 1];
            Ids(Relevant(r, d, advisories[..n]))
            == Ids(Relevant(r, d, advisories[..n - 1]))
            + if IsExcused(r, d, last) || last.id == "" then [] else [last.id]
  {
    var front, last := advisories[..n - 1], advisories[n - 1];
    assert advisories[..n] == front + [last];
    RelevantAppend(r, d, front, [last]);
    IdsAppend(Relevant(r, d, front), Relevant(r, d, [last]));
    assert Relevant(r, d, [last]) == if IsExcused(r, d, last) then [] else [last];
  }

  lemma {:induction false} NamedInOrder(r: Reader, d: Dependency, advisories: seq<Advisory>, n: nat)
    requires n <= |advisories|
    ensures AreNamed(r, d, advisories, n, Ids(Relevant(r, d, advisories[..n])))
  {
    if n > 0 {
      NamedInOrder(r, d, advisories, n - 1);
      IdsLast(r, d, advisories, n);
      var front := Ids(Relevant(r, d, advisories[..n - 1]));
      assert (front + [advisories[n - 1].id])[..|front|] == front && front + [] == front;
    }
  }

  lemma MalwareExact(a: Advisory)
    ensures "MAL-" <= a.id <==> IsMalware(a)
  {
    assert |a.id| >= 4 ==> (a.id[..4] == "MAL-" <==> IsMalware(a));
  }

  lemma MaliciousExact(advisories: seq<Advisory>)
    ensures OsvLookup.IsMalicious(advisories) <==> exists a :: a in advisories && IsMalware(a)
  {
    if i :| 0 <= i < |advisories| && "MAL-" <= advisories[i].id {
      MalwareExact(advisories[i]);
    }
    if a :| a in advisories && IsMalware(a) {
      var i :| 0 <= i < |advisories| && advisories[i] == a;
      MalwareExact(a);
    }
  }

  lemma FoundExact(r: Reader, extensionId: string, d: Dependency, advisories: seq<Advisory>)
    ensures IsFound(r, extensionId, d, advisories, FindingFor(r, extensionId, d, advisories))
  {
    var relevant := Relevant(r, d, advisories);
    RelevantExact(r, d, advisories);
    NamedInOrder(r, d, advisories, |advisories|);
    assert advisories[..|advisories|] == advisories;
    MaliciousExact(relevant);
    assert relevant != [] ==> relevant[0] in relevant;
  }

  // ----- One extension

  /** What is found for the first `n` results, each standing for the entry in its place. */
  ghost predicate AreFindings(r: Reader, extensionId: string, entries: seq<Dependency>, results: seq<seq<Advisory>>,
                              n: nat, findings: seq<Finding>)
    requires n <= |entries| && n <= |results|
  {
    if n == 0 then findings == []
    else
      exists front, last ::
        && findings == front + last && IsFound(r, extensionId, entries[n - 1], results[n - 1], last)
        && AreFindings(r, extensionId, entries, results, n - 1, front)
  }

  lemma {:induction false} ResultsMore(r: Reader, extensionId: string, entries: seq<Dependency>,
                                       results: seq<seq<Advisory>>, x: seq<Advisory>)
    requires |results| < |entries|
    ensures var before := FromResults(r, extensionId, entries, results);
            && before.Some?
            && FromResults(r, extensionId, entries, results + [x])
               == Some(before.value + FindingFor(r, extensionId, entries[|results|], x))
    decreases |results|
  {
    var more := results + [x];
    if results == [] {
      var found := FindingFor(r, extensionId, entries[0], x);
      assert more == [x] && more[1..] == [] && found + [] == found && [] + found == found;
    } else {
      assert more[1..] == results[1..] + [x] && more[0] == results[0];
      ResultsMore(r, extensionId, entries[1..], results[1..], x);
      Associate(FindingFor(r, extensionId, entries[0], results[0]),
                FromResults(r, extensionId, entries[1..], results[1..]).value,
                FindingFor(r, extensionId, entries[|results|], x));
    }
  }

  lemma FindingsMore(r: Reader, extensionId: string, entries: seq<Dependency>, results: seq<seq<Advisory>>, n: nat,
                     front: seq<Finding>)
    requires n < |entries| && n < |results| && AreFindings(r, extensionId, entries, results, n, front)
    ensures AreFindings(r, extensionId, entries, results, n + 1,
                        front + FindingFor(r, extensionId, entries[n], results[n]))
  {
    FoundExact(r, extensionId, entries[n], results[n]);
  }

  /** The findings of the first `n` results. */
  ghost predicate GivesFindings(r: Reader, extensionId: string, entries: seq<Dependency>, results: seq<seq<Advisory>>,
                                n: nat, found: Option<seq<Finding>>)
    requires n <= |entries| && n <= |results|
  {
    found.Some? && AreFindings(r, extensionId, entries, results, n, found.value)
  }

  lemma OneMoreResult(r: Reader, extensionId: string, entries: seq<Dependency>, results: seq<seq<Advisory>>, n: nat)
    requires n < |results| && n < |entries|
    requires GivesFindings(r, extensionId, entries, results, n, FromResults(r, extensionId, entries, results[..n]))
    ensures GivesFindings(r, extensionId, entries, results, n + 1,
                          FromResults(r, extensionId, entries, results[..n + 1]))
  {
    var found := FromResults(r, extensionId, entries, results[..n]).value;
    FindingsMore(r, extensionId, entries, results, n, found);
    assert FromResults(r, extensionId, entries, results[..n + 1])
        == Some(found + FindingFor(r, extensionId, entries[n], results[n])) by {
      ResultsMore(r, extensionId, entries, results[..n], results[n]);
      assert results[..n + 1] == results[..n] + [results[n]];
    }
  }

  lemma {:induction false} ResultsInOrder(r: Reader, extensionId: string, entries: seq<Dependency>,
                                          results: seq<seq<Advisory>>, n: nat)
    requires n <= |results| && n <= |entries|
    ensures GivesFindings(r, extensionId, entries, results, n, FromResults(r, extensionId, entries, results[..n]))
  {
    if n > 0 {
      ResultsInOrder(r, extensionId, entries, results, n - 1);
      OneMoreResult(r, extensionId, entries, results, n - 1);
    }
  }

  lemma {:induction false} TooManyResults(r: Reader, extensionId: string, entries: seq<Dependency>,
                                          results: seq<seq<Advisory>>)
    requires |results| > |entries|
    ensures FromResults(r, extensionId, entries, results).None?
    decreases |results|
  {
    if entries != [] {
      TooManyResults(r, extensionId, entries[1..], results[1..]);
    }
  }

  ghost predicate AreQueries(entries: seq<Dependency>, queries: seq<Key>) {
    && |queries| == |entries|
    && forall i :: 0 <= i < |entries| ==> queries[i].name == entries[i].name && queries[i].version == entries[i].version
  }

  /** One request for all entries, in their order; more results than queries are out of range. */
  ghost predicate IsChecked(r: Reader, e: Extension, entries: seq<Dependency>, queries: seq<Key>,
                            post: seq<Key> -> Response, c: Checked)
  {
    if entries == [] then c == Checked([], None)
    else
      match post(queries)
      case Failed(message) => c == Checked([], Some(message))
      case Answer(results) =>
        if |results| > |entries| then c.OutOfRange?
        else c.Checked? && c.error.None? && AreFindings(r, e.id, entries, results, |results|, c.findings)
  }

  lemma CheckedExact(r: Reader, e: Extension, post: seq<Key> -> Response)
    returns (entries: seq<Dependency>, queries: seq<Key>)
    ensures AreEntries(r, e.dependencies, |e.dependencies|, entries) && AreQueries(entries, queries)
    ensures IsChecked(r, e, entries, queries, post, CheckOne(r, e, post))
  {
    entries := Entries(r, e.dependencies);
    queries := KeysOf(entries);
    EntriesInOrder(r, e.dependencies, |e.dependencies|);
    assert e.dependencies[..|e.dependencies|] == e.dependencies;
    if entries != [] && post(queries).Answer? {
      var results := post(queries).results;
      if |results| > |entries| {
        TooManyResults(r, e.id, entries, results);
      } else {
        ResultsInOrder(r, e.id, entries, results, |results|);
        assert results[..|results|] == results;
      }
    }
  }

  // ----- What is asked about, once each

  /** The package versions that the first `n` extensions depend on, in order. */
  ghost predicate AreKeys(r: Reader, extensions: seq<Extension>, n: nat, keys: seq<Key>)
    requires n <= |extensions|
  {
    if n == 0 then keys == []
    else
      var declared := extensions[n - 1].dependencies;
      exists front, entries, last ::
        && keys == front + last && AreKeys(r, extensions, n - 1, front)
        && AreEntries(r, declared, |declared|, entries) && AreQueries(entries, last)
  }

  /** The first `n` of them without what came before. */
  ghost predicate OnceEach(all: seq<Key>, n: nat, keys: seq<Key>)
    requires n <= |all|
  {
    if n == 0 then keys == []
    else if all[n - 1] in all[..n - 1] then OnceEach(all, n - 1, keys)
    else keys != [] && keys[|keys| - 1] == all[n - 1] && OnceEach(all, n - 1, keys[..|keys| - 1])
  }

  lemma {:induction false} KeysMore(r: Reader, extensions: seq<Extension>, e: Extension)
    ensures AllKeys(r, extensions + [e]) == AllKeys(r, extensions) + KeysOf(Entries(r, e.dependencies))
  {
    var more := extensions + [e];
    if extensions == [] {
      assert more == [e] && more[1..] == [];
      assert AllKeys(r, []) == [];
    } else {
      assert more[1..] == extensions[1..] + [e] && more[0] == extensions[0];
      KeysMore(r, extensions[1..], e);
      Associate(KeysOf(Entries(r, extensions[0].dependencies)), AllKeys(r, extensions[1..]),
                KeysOf(Entries(r, e.dependencies)));
    }
  }

  lemma {:induction false} KeysInOrder(r: Reader, extensions: seq<Extension>, n: nat)
    requires n <= |extensions|
    ensures AreKeys(r, extensions, n, AllKeys(r, extensions[..n]))
  {
    if n > 0 {
      var declared := extensions[n - 1].dependencies;
      KeysInOrder(r, extensions, n - 1);
      KeysMore(r, extensions[..n - 1], extensions[n - 1]);
      EntriesInOrder(r, declared, |declared|);
      assert declared[..|declared|] == declared && extensions[..n] == extensions[..n - 1] + [extensions[n - 1]];
      assert AreQueries(Entries(r, declared), KeysOf(Entries(r, declared)));
    }
  }

  lemma DistinctMore(all: seq<Key>, k: Key)
    ensures Distinct(all + [k], [])
         == if k in all then Distinct(all, []) else Distinct(all, []) + [k]
  {
    DistinctAppends(all, [k], []);
    DistinctExact(all, []);
    var keys := Distinct(all, []);
    assert Distinct([k], keys) == Distinct([], if k in keys then keys else keys + [k]);
  }

  lemma {:induction false} OnceInOrder(all: seq<Key>, n: nat)
    requires n <= |all|
    ensures OnceEach(all, n, Distinct(all[..n], []))
  {
    if n > 0 {
      OnceInOrder(all, n - 1);
      DistinctMore(all[..n - 1], all[n - 1]);
      assert all[..n] == all[..n - 1] + [all[n - 1]];
      var keys := Distinct(all[..n - 1], []);
      assert (keys + [all[n - 1]])[..|keys|] == keys;
    }
  }

  // ----- What is known from the answers

  /** The `c`th request: the next hundred queries, or what is left of them. */
  ghost function Chunk(keys: seq<Key>, c: nat): seq<Key> {
    if 100 * c >= |keys| then []
    else if 100 * c + 100 <= |keys| then keys[100 * c..100 * c + 100]
    else keys[100 * c..]
  }

  /** What the first `c` requests tell of the `p`th key: the result in its place of the last of
      them that was answered and has one there. */
  ghost function Told(keys: seq<Key>, post: seq<Key> -> Response, c: nat, p: nat): Option<seq<Advisory>> {
    if c == 0 then None
    else
      var response, first := post(Chunk(keys, c - 1)), 100 * (c - 1);
      if response.Answer? && first <= p < first + |response.results| then Some(response.results[p - first])
      else Told(keys, post, c - 1, p)
  }

  /** What failed among the first `c` requests, in order. */
  ghost function Failures(keys: seq<Key>, post: seq<Key> -> Response, c: nat): seq<string> {
    if c == 0 then []
    else if post(Chunk(keys, c - 1)).Failed? then Failures(keys, post, c - 1) + [post(Chunk(keys, c - 1)).message]
    else Failures(keys, post, c - 1)
  }

  ghost predicate Knows(known: map<Key, seq<Advisory>>, k: Key, told: Option<seq<Advisory>>) {
    if told.None? then k !in known else k in known && known[k] == told.value
  }

  ghost predicate KnowsAll(known: map<Key, seq<Advisory>>, keys: seq<Key>, post: seq<Key> -> Response, c: nat) {
    forall p :: 0 <= p < |keys| ==> Knows(known, keys[p], Told(keys, post, c, p))
  }

  lemma {:induction false} AbsorbAt(keys: seq<Key>, index: nat, results: seq<seq<Advisory>>,
                                    known: map<Key, seq<Advisory>>, p: nat)
    requires NoRepeats(keys) && p < |keys|
    ensures var after := Absorb(keys, index, results, known);
            if index <= p < index + |results| then keys[p] in after && after[keys[p]] == results[p - index]
            else (keys[p] in after <==> keys[p] in known) && (keys[p] in known ==> after[keys[p]] == known[keys[p]])
    decreases |results|
  {
    if results != [] && index < |keys| {
      AbsorbAt(keys, index + 1, results[1..], known[keys[index] := results[0]], p);
    }
  }

  lemma ChunkExact(keys: seq<Key>, c: nat)
    requires 100 * c < |keys|
    ensures ChunkAt(keys, 100 * c) == Chunk(keys, c)
  {
  }

  lemma ChunkTells(keys: seq<Key>, post: seq<Key> -> Response, c: nat, known: map<Key, seq<Advisory>>)
    requires NoRepeats(keys) && 100 * c < |keys| && KnowsAll(known, keys, post, c)
    ensures match post(Chunk(keys, c))
            case Failed(_) => KnowsAll(known, keys, post, c + 1)
            case Answer(results) => KnowsAll(Absorb(keys, 100 * c, results, known), keys, post, c + 1)
  {
    match post(Chunk(keys, c))
    case Failed(_) =>
      forall p | 0 <= p < |keys| ensures Knows(known, keys[p], Told(keys, post, c + 1, p)) {
        assert Knows(known, keys[p], Told(keys, post, c, p));
      }
    case Answer(results) =>
      var after := Absorb(keys, 100 * c, results, known);
      forall p | 0 <= p < |keys| ensures Knows(after, keys[p], Told(keys, post, c + 1, p)) {
        assert Knows(known, keys[p], Told(keys, post, c, p));
        AbsorbAt(keys, 100 * c, results, known, p);
      }
  }

  /** What is known once a request has been made. */
  ghost function AskedOnce(keys: seq<Key>, post: seq<Key> -> Response, c: nat, a: Asked): Asked {
    match post(Chunk(keys, c))
    case Failed(message) => a.(errors := a.errors + [message])
    case Answer(results) => a.(known := Absorb(keys, 100 * c, results, a.known))
  }

  lemma AskStep(keys: seq<Key>, post: seq<Key> -> Response, c: nat, a: Asked)
    requires 100 * c < |keys|
    ensures Ask(keys, 100 * c, post, a) == Ask(keys, 100 * (c + 1), post, AskedOnce(keys, post, c, a))
  {
    ChunkExact(keys, c);
  }

  lemma AskedOnceTells(keys: seq<Key>, post: seq<Key> -> Response, c: nat, a: Asked)
    requires NoRepeats(keys) && 100 * c < |keys|
    requires KnowsAll(a.known, keys, post, c) && a.errors == Failures(keys, post, c)
    ensures var b := AskedOnce(keys, post, c, a);
            KnowsAll(b.known, keys, post, c + 1) && b.errors == Failures(keys, post, c + 1)
  {
    ChunkTells(keys, post, c, a.known);
  }

  /** What is known after `c` requests. */
  ghost function AskedTimes(keys: seq<Key>, post: seq<Key> -> Response, c: nat): Asked {
    if c == 0 then Asked(map[], []) else AskedOnce(keys, post, c - 1, AskedTimes(keys, post, c - 1))
  }

  lemma {:induction false} AskGoesOn(keys: seq<Key>, post: seq<Key> -> Response, c: nat)
    requires c > 0 ==> 100 * (c - 1) < |keys|
    ensures Ask(keys, 0, post, Asked(map[], [])) == Ask(keys, 100 * c, post, AskedTimes(keys, post, c))
  {
    if c > 0 {
      AskGoesOn(keys, post, c - 1);
      AskStep(keys, post, c - 1, AskedTimes(keys, post, c - 1));
    }
  }

  lemma {:induction false} AskedTimesTells(keys: seq<Key>, post: seq<Key> -> Response, c: nat)
    requires NoRepeats(keys) && (c > 0 ==> 100 * (c - 1) < |keys|)
    ensures var a := AskedTimes(keys, post, c);
            KnowsAll(a.known, keys, post, c) && a.errors == Failures(keys, post, c)
  {
    if c > 0 {
      AskedTimesTells(keys, post, c - 1);
      AskedOnceTells(keys, post, c - 1, AskedTimes(keys, post, c - 1));
    }
  }

  /** After all the requests, exactly this is known and has failed. */
  lemma AskedExact(keys: seq<Key>, post: seq<Key> -> Response) returns (q: nat)
    requires NoRepeats(keys)
    ensures |keys| <= 100 * q && (q > 0 ==> 100 * (q - 1) < |keys|)
    ensures var asked := Ask(keys, 0, post, Asked(map[], []));
            KnowsAll(asked.known, keys, post, q) && asked.errors == Failures(keys, post, q)
  {
    q := (|keys| + 99) / 100;
    AskGoesOn(keys, post, q);
    AskedTimesTells(keys, post, q);
  }

  // ----- Many extensions

  /** What is known of an entry. */
  ghost predicate IsKnown(keys: seq<Key>, post: seq<Key> -> Response, q: nat, d: Dependency,
                          advisories: seq<Advisory>)
  {
    exists p :: 0 <= p < |keys| && keys[p].name == d.name && keys[p].version == d.version
                && advisories == match Told(keys, post, q, p) { case None => [] case Some(told) => told }
  }

  /** The last extension with an identifier. */
  ghost predicate IsLast(extensions: seq<Extension>, id: string, k: nat) {
    && k < |extensions| && extensions[k].id == id
    && forall j :: k < j < |extensions| ==> extensions[j].id != id
  }

  /** Under an identifier is reported what is known of the dependencies of the last extension that
      has it. */
  ghost predicate IsReported(r: Reader, extensions: seq<Extension>, keys: seq<Key>, post: seq<Key> -> Response,
                             q: nat, id: string, found: seq<Finding>)
  {
    exists k: nat, entries, results ::
      && IsLast(extensions, id, k)
      && AreEntries(r, extensions[k].dependencies, |extensions[k].dependencies|, entries)
      && |results| == |entries|
      && (forall i :: 0 <= i < |entries| ==> IsKnown(keys, post, q, entries[i], results[i]))
      && AreFindings(r, id, entries, results, |entries|, found)
  }

  lemma KnownIs(keys: seq<Key>, post: seq<Key> -> Response, q: nat, known: map<Key, seq<Advisory>>, d: Dependency)
    requires KnowsAll(known, keys, post, q) && KeyOf(d) in keys
    ensures IsKnown(keys, post, q, d, AdvisoriesFor(known, KeyOf(d)))
  {
    var p :| 0 <= p < |keys| && keys[p] == KeyOf(d);
    assert Knows(known, keys[p], Told(keys, post, q, p));
  }

  lemma {:induction false} LastAt(extensions: seq<Extension>, id: string) returns (k: nat)
    requires LastWith(extensions, id).Some?
    ensures IsLast(extensions, id, k) && LastWith(extensions, id) == Some(extensions[k])
  {
    k := |extensions| - 1;
    if extensions[k].id != id {
      var rest := extensions[..k];
      k := LastAt(rest, id);
      assert forall j :: 0 <= j < |rest| ==> extensions[j] == rest[j];
    }
  }

  lemma KnownFindings(r: Reader, id: string, entries: seq<Dependency>, known: map<Key, seq<Advisory>>)
    returns (results: seq<seq<Advisory>>)
    ensures |results| == |entries|
    ensures forall i :: 0 <= i < |entries| ==> results[i] == AdvisoriesFor(known, KeyOf(entries[i]))
    ensures AreFindings(r, id, entries, results, |entries|, FindingsFor(r, id, entries, known))
  {
    var db := k => AdvisoriesFor(known, k);
    results := Looked(db, KeysOf(entries));
    FindingsOfAnswer(r, id, entries, db, known);
    ResultsInOrder(r, id, entries, results, |entries|);
    assert results[..|entries|] == results;
  }

  lemma ReportedExact(r: Reader, extensions: seq<Extension>, post: seq<Key> -> Response, q: nat, e: Extension,
                      keys: seq<Key>, known: map<Key, seq<Advisory>>)
    requires e in extensions && keys == Distinct(AllKeys(r, extensions), []) && KnowsAll(known, keys, post, q)
    ensures IsReported(r, extensions, keys, post, q, e.id,
                       FindingsFor(r, e.id, EntriesOf(EntriesById(r, extensions, map[]), e.id), known))
  {
    LastWithIs(extensions, e.id);
    EntriesByIdIsLast(r, extensions, map[], e.id);
    var k := LastAt(extensions, e.id);
    var declared := extensions[k].dependencies;
    var entries := Entries(r, declared);
    EntriesInOrder(r, declared, |declared|);
    assert declared[..|declared|] == declared;
    var results := KnownFindings(r, e.id, entries, known);
    KeysAreAsked(r, extensions, extensions[k]);
    DistinctExact(AllKeys(r, extensions), []);
    forall i | 0 <= i < |entries| ensures IsKnown(keys, post, q, entries[i], results[i]) {
      assert entries[i] in entries;
      KnownIs(keys, post, q, known, entries[i]);
    }
  }

  /** What looking up many extensions reports: the same keys, once each in the order in which they
      come up, a hundred at a time. */
  lemma ManyExact(r: Reader, extensions: seq<Extension>, post: seq<Key> -> Response)
    returns (all: seq<Key>, keys: seq<Key>, q: nat)
    ensures AreKeys(r, extensions, |extensions|, all) && OnceEach(all, |all|, keys)
    ensures |keys| <= 100 * q && (q > 0 ==> 100 * (q - 1) < |keys|)
    ensures var asked := Ask(Distinct(AllKeys(r, extensions), []), 0, post, Asked(map[], []));
            && asked.errors == Failures(keys, post, q)
            && forall e :: e in extensions ==>
                             IsReported(r, extensions, keys, post, q, e.id,
                                        FindingsFor(r, e.id, EntriesOf(EntriesById(r, extensions, map[]), e.id),
                                                    asked.known))
  {
    all := AllKeys(r, extensions);
    keys := Distinct(all, []);
    KeysInOrder(r, extensions, |extensions|);
    OnceInOrder(all, |all|);
    assert extensions[..|extensions|] == extensions && all[..|all|] == all;
    DistinctExact(all, []);
    q := AskedExact(keys, post);
    var asked := Ask(keys, 0, post, Asked(map[], []));
    forall e | e in extensions
      ensures IsReported(r, extensions, keys, post, q, e.id,
                         FindingsFor(r, e.id, EntriesOf(EntriesById(r, extensions, map[]), e.id), asked.known))
    {
      ReportedExact(r, extensions, post, q, e, keys, asked.known);
    }
  }
}
