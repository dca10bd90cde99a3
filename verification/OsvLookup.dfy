/**
 Vulnerable dependencies: asking the advisory service for one extension, and for many at
 once with each package version asked about once.
 */
module OsvLookup {
  import opened Options

  /** A declared dependency; `range` is none when the manifest holds something else. */
  datatype Declared = Declared(name: string, range: Option<string>)

  datatype Extension = Extension(id: string, dependencies: seq<Declared>)

  datatype Dependency = Dependency(name: string, version: string, exact: bool)

  datatype Key = Key(name: string, version: string)

  /** An advisory, by its identifier. */
  datatype Advisory = Advisory(id: string)

  datatype Response = Failed(message: string) | Answer(results: seq<seq<Advisory>>)

  /** How a declared range is read, and names are lowered. */
  datatype Reader = Reader(normalize: string -> string, isExact: string -> bool, lower: string -> string)

  datatype Severity = Critical | High | Medium

  datatype Finding = Finding(extensionId: string, severity: Severity, malicious: bool, dependency: Dependency,
                             advisories: seq<string>)

  // ----- What is asked, and what an answer means

  /** The dependencies with a version that can be asked about. */
  function Entries(r: Reader, declared: seq<Declared>): seq<Dependency> {
    if declared == [] then []
    else
      var rest := Entries(r, declared[1..]);
      var d := declared[0];
      if d.range.None? || r.normalize(d.range.value) == "" then rest
      else [Dependency(d.name, r.normalize(d.range.value), r.isExact(d.range.value))] + rest
  }

  /** Whether a declared dependency is asked about, and as what. */
  ghost predicate ReadsAs(r: Reader, declared: Declared, d: Dependency) {
    && declared.range.Some? && r.normalize(declared.range.value) != ""
    && d == Dependency(declared.name, r.normalize(declared.range.value), r.isExact(declared.range.value))
  }

  lemma {:induction false} EntriesExact(r: Reader, declared: seq<Declared>)
    ensures forall d :: d in Entries(r, declared) <==> exists i :: 0 <= i < |declared| && ReadsAs(r, declared[i], d)
  {
    if declared != [] {
      var rest := declared[1..];
      EntriesExact(r, rest);
      forall d ensures d in Entries(r, declared) <==> exists i :: 0 <= i < |declared| && ReadsAs(r, declared[i], d) {
        if i :| 0 <= i < |rest| && ReadsAs(r, rest[i], d) {
          assert ReadsAs(r, declared[i + 1], d);
        }
        if i :| 0 < i < |declared| && ReadsAs(r, declared[i], d) {
          assert ReadsAs(r, rest[i - 1], d);
        }
        assert d in Entries(r, declared) <==> ReadsAs(r, declared[0], d) || d in Entries(r, rest);
      }
    }
  }

  function KeyOf(d: Dependency): Key {
    Key(d.name, d.version)
  }

  function KeysOf(entries: seq<Dependency>): (keys: seq<Key>)
    ensures |keys| == |entries| && forall i :: 0 <= i < |entries| ==> keys[i] == KeyOf(entries[i])
  {
    seq(|entries|, i requires 0 <= i < |entries| => KeyOf(entries[i]))
  }

  /** The one advisory that is known to be a false positive. */
  predicate IsFalsePositive(r: Reader, d: Dependency, a: Advisory) {
    r.lower(d.name) == "fs" && d.version == "0.0.1-security" && a.id == "MAL-2025-21003"
  }

  function Relevant(r: Reader, d: Dependency, advisories: seq<Advisory>): seq<Advisory> {
    if advisories == [] then []
    else (if IsFalsePositive(r, d, advisories[0]) then [] else [advisories[0]]) + Relevant(r, d, advisories[1..])
  }

  predicate IsMalicious(advisories: seq<Advisory>) {
    exists i :: 0 <= i < |advisories| && "MAL-" <= advisories[i].id
  }

  function Ids(advisories: seq<Advisory>): seq<string> {
    if advisories == [] then []
    else (if advisories[0].id == "" then [] else [advisories[0].id]) + Ids(advisories[1..])
  }

  /** The finding for one dependency, if anything relevant is known about it. */
  function FindingFor(r: Reader, extensionId: string, d: Dependency, advisories: seq<Advisory>): seq<Finding> {
    var relevant := Relevant(r, d, advisories);
    if relevant == [] then []
    else [Finding(extensionId, if IsMalicious(relevant) then Critical else if d.exact then High else Medium,
                  IsMalicious(relevant), d, Ids(relevant))]
  }

  lemma {:induction false} RelevantExact(r: Reader, d: Dependency, advisories: seq<Advisory>)
    ensures forall a :: a in Relevant(r, d, advisories) <==> a in advisories && !IsFalsePositive(r, d, a)
    ensures (forall a :: a in advisories ==> !IsFalsePositive(r, d, a)) ==> Relevant(r, d, advisories) == advisories
  {
    if advisories != [] {
      RelevantExact(r, d, advisories[1..]);
      assert advisories == [advisories[0]] + advisories[1..];
    }
  }

  lemma {:induction false} IdsExact(advisories: seq<Advisory>)
    ensures forall id :: id in Ids(advisories) <==> id != "" && Advisory(id) in advisories
  {
    if advisories != [] {
      IdsExact(advisories[1..]);
      assert advisories == [advisories[0]] + advisories[1..];
    }
  }

  /** A dependency has a finding exactly when some advisory on it is no known false positive;
      the finding is critical exactly when one of those is malware, and names them all. */
  lemma FindingExact(r: Reader, extensionId: string, d: Dependency, advisories: seq<Advisory>)
    ensures var found := FindingFor(r, extensionId, d, advisories);
            && |found| <= 1
            && (found != [] <==> exists a :: a in advisories && !IsFalsePositive(r, d, a))
            && (found != [] ==>
                  && found[0].extensionId == extensionId && found[0].dependency == d
                  && (found[0].severity.Critical?
                      <==> exists a :: a in advisories && !IsFalsePositive(r, d, a) && "MAL-" <= a.id)
                  && (found[0].severity.High? ==> d.exact) && (found[0].severity.Medium? ==> !d.exact)
                  && forall id :: id in found[0].advisories
                                  <==> id != "" && Advisory(id) in advisories && !IsFalsePositive(r, d, Advisory(id)))
  {
    var relevant := Relevant(r, d, advisories);
    RelevantExact(r, d, advisories);
    IdsExact(relevant);
    assert relevant != [] ==> relevant[0] in relevant;
    if a :| a in relevant && "MAL-" <= a.id {
      var i :| 0 <= i < |relevant| && relevant[i] == a;
    }
  }

  // ----- One extension

  datatype Checked = Checked(findings: seq<Finding>, error: Option<string>) | OutOfRange

  /** The findings of an answer; more results than queries is an index out of range. */
  function FromResults(r: Reader, extensionId: string, entries: seq<Dependency>, results: seq<seq<Advisory>>)
    : Option<seq<Finding>>
  {
    if results == [] then Some([])
    else if entries == [] then None
    else
      var rest := FromResults(r, extensionId, entries[1..], results[1..]);
      if rest.None? then None else Some(FindingFor(r, extensionId, entries[0], results[0]) + rest.value)
  }

  function CheckOne(r: Reader, e: Extension, post: seq<Key> -> Response): Checked {
    var entries := Entries(r, e.dependencies);
    if entries == [] then Checked([], None)
    else
      match post(KeysOf(entries))
      case Failed(message) => Checked([], Some(message))
      case Answer(results) =>
        var findings := FromResults(r, e.id, entries, results);
        if findings.None? then OutOfRange else Checked(findings.value, None)
  }

  method CheckOsv(r: Reader, e: Extension, post: seq<Key> -> Response) returns (c: Checked)
    ensures c == CheckOne(r, e, post)
  {
    var entries := Entries(r, e.dependencies);
    if entries == [] {
      return Checked([], None);
    }
    var response := post(KeysOf(entries));
    if response.Failed? {
      return Checked([], Some(response.message));
    }
    var findings := FindAnswered(r, e.id, entries, response.results);
    c := if findings.None? then OutOfRange else Checked(findings.value, None);
  }

  function Onto(findings: seq<Finding>, rest: Option<seq<Finding>>): Option<seq<Finding>> {
    if rest.None? then None else Some(findings + rest.value)
  }

  lemma OntoOne(findings: seq<Finding>, one: seq<Finding>, rest: Option<seq<Finding>>)
    ensures Onto(findings, Onto(one, rest)) == Onto(findings + one, rest)
  {
    if rest.Some? {
      assert findings + (one + rest.value) == (findings + one) + rest.value;
    }
  }

  lemma OntoNothing(findings: seq<Finding>, rest: Option<seq<Finding>>)
    ensures Onto([], rest) == rest && Onto(findings, Some([])) == Some(findings)
  {
    assert findings + [] == findings;
    assert rest.Some? ==> [] + rest.value == rest.value;
  }

  method FindAnswered(r: Reader, extensionId: string, entries: seq<Dependency>, results: seq<seq<Advisory>>)
    returns (found: Option<seq<Finding>>)
    ensures found == FromResults(r, extensionId, entries, results)
  {
    var findings: seq<Finding> := [];
    OntoNothing([], FromResults(r, extensionId, entries, results));
    for i := 0 to |results|
      invariant i <= |entries|
      invariant Onto(findings, FromResults(r, extensionId, entries[i..], results[i..]))
             == FromResults(r, extensionId, entries, results)
    {
      if i >= |entries| {
        return None;
      }
      var one := FindingFor(r, extensionId, entries[i], results[i]);
      assert FromResults(r, extensionId, entries[i..], results[i..])
          == Onto(one, FromResults(r, extensionId, entries[i + 1..], results[i + 1..]));
      OntoOne(findings, one, FromResults(r, extensionId, entries[i + 1..], results[i + 1..]));
      findings := findings + one;
    }
    OntoNothing(findings, None);
    found := Some(findings);
  }

  // ----- Many extensions

  const OSV_BATCH_SIZE := 100

  /** Keys added to those known, each once. */
  function Distinct(keys: seq<Key>, known: seq<Key>): seq<Key> {
    if keys == [] then known
    else Distinct(keys[1..], if keys[0] in known then known else known + [keys[0]])
  }

  function AllKeys(r: Reader, extensions: seq<Extension>): seq<Key> {
    if extensions == [] then [] else KeysOf(Entries(r, extensions[0].dependencies)) + AllKeys(r, extensions[1..])
  }

  function ChunkAt(keys: seq<Key>, index: nat): seq<Key>
    requires index <= |keys|
  {
    if index + OSV_BATCH_SIZE <= |keys| then keys[index..index + OSV_BATCH_SIZE] else keys[index..]
  }

  /** Takes in the results for the keys from an index on, as far as there are keys. */
  function Absorb(keys: seq<Key>, index: nat, results: seq<seq<Advisory>>, known: map<Key, seq<Advisory>>)
    : map<Key, seq<Advisory>>
    decreases |results|
  {
    if results == [] || index >= |keys| then known
    else Absorb(keys, index + 1, results[1..], known[keys[index] := results[0]])
  }

  datatype Asked = Asked(known: map<Key, seq<Advisory>>, errors: seq<string>)

  /** Asks chunk by chunk; a chunk that fails is noted and passed over. */
  function Ask(keys: seq<Key>, index: nat, post: seq<Key> -> Response, a: Asked): Asked
    decreases |keys| - index
  {
    if index >= |keys| then a
    else
      match post(ChunkAt(keys, index))
      case Failed(message) => Ask(keys, index + OSV_BATCH_SIZE, post, a.(errors := a.errors + [message]))
      case Answer(results) => Ask(keys, index + OSV_BATCH_SIZE, post,
                                  a.(known := Absorb(keys, index, results, a.known)))
  }

  function AdvisoriesFor(known: map<Key, seq<Advisory>>, k: Key): seq<Advisory> {
    if k in known then known[k] else []
  }

  function FindingsFor(r: Reader, extensionId: string, entries: seq<Dependency>, known: map<Key, seq<Advisory>>)
    : seq<Finding>
  {
    if entries == [] then []
    else FindingFor(r, extensionId, entries[0], AdvisoriesFor(known, KeyOf(entries[0])))
         + FindingsFor(r, extensionId, entries[1..], known)
  }

  /** The entries an identifier is left with: those of the last extension that has it. */
  function EntriesById(r: Reader, extensions: seq<Extension>, before: map<string, seq<Dependency>>)
    : map<string, seq<Dependency>>
    decreases |extensions|
  {
    if extensions == [] then before
    else EntriesById(r, extensions[1..], before[extensions[0].id := Entries(r, extensions[0].dependencies)])
  }

  function EntriesOf(byId: map<string, seq<Dependency>>, id: string): seq<Dependency> {
    if id in byId then byId[id] else []
  }

  function Reported(found: map<string, seq<Finding>>, id: string): seq<Finding> {
    if id in found then found[id] else []
  }

  method CheckOsvMany(r: Reader, extensions: seq<Extension>, post: seq<Key> -> Response)
    returns (found: map<string, seq<Finding>>, errors: seq<string>)
    ensures var asked := Ask(Distinct(AllKeys(r, extensions), []), 0, post, Asked(map[], []));
            && errors == asked.errors
            && forall e :: e in extensions ==>
                             Reported(found, e.id)
                             == FindingsFor(r, e.id, EntriesOf(EntriesById(r, extensions, map[]), e.id), asked.known)
    ensures forall id :: id in found ==> found[id] != [] && exists e :: e in extensions && e.id == id
  {
    var byId, keys := CollectEntries(r, extensions);
    if keys == [] {
      NothingToAsk(r, extensions);
      return map[], [];
    }
    var asked := AskInChunks(keys, post);
    found := ReportAll(r, extensions, byId, asked.known);
    errors := asked.errors;
  }

  method ReportAll(r: Reader, extensions: seq<Extension>, byId: map<string, seq<Dependency>>,
                   known: map<Key, seq<Advisory>>)
    returns (found: map<string, seq<Finding>>)
    ensures forall e :: e in extensions ==> Reported(found, e.id) == FindingsFor(r, e.id, EntriesOf(byId, e.id), known)
    ensures forall id :: id in found ==> found[id] != [] && exists e :: e in extensions && e.id == id
  {
    found := map[];
    for i := 0 to |extensions|
      invariant forall k :: 0 <= k < i ==>
                              Reported(found, extensions[k].id)
                              == FindingsFor(r, extensions[k].id, EntriesOf(byId, extensions[k].id), known)
      invariant forall id :: id in found ==> found[id] == FindingsFor(r, id, EntriesOf(byId, id), known)
      invariant forall id :: id in found ==> found[id] != [] && exists e :: e in extensions && e.id == id
    {
      var id := extensions[i].id;
      var findings := FindAll(r, id, EntriesOf(byId, id), known);
      if findings != [] {
        found := found[id := findings];
      }
    }
  }

  method CollectEntries(r: Reader, extensions: seq<Extension>)
    returns (byId: map<string, seq<Dependency>>, keys: seq<Key>)
    ensures byId == EntriesById(r, extensions, map[]) && keys == Distinct(AllKeys(r, extensions), [])
  {
    byId, keys := map[], [];
    for i := 0 to |extensions|
      invariant EntriesById(r, extensions[i..], byId) == EntriesById(r, extensions, map[])
      invariant Distinct(AllKeys(r, extensions[i..]), keys) == Distinct(AllKeys(r, extensions), [])
    {
      var entries := Entries(r, extensions[i].dependencies);
      byId := byId[extensions[i].id := entries];
      DistinctAppends(KeysOf(entries), AllKeys(r, extensions[i + 1..]), keys);
      keys := AddKeys(entries, keys);
    }
  }

  method AddKeys(entries: seq<Dependency>, before: seq<Key>) returns (keys: seq<Key>)
    ensures keys == Distinct(KeysOf(entries), before)
  {
    keys := before;
    for i := 0 to |entries|
      invariant Distinct(KeysOf(entries)[i..], keys) == Distinct(KeysOf(entries), before)
    {
      if KeyOf(entries[i]) !in keys {
        keys := keys + [KeyOf(entries[i])];
      }
    }
  }

  method AskInChunks(keys: seq<Key>, post: seq<Key> -> Response) returns (asked: Asked)
    ensures asked == Ask(keys, 0, post, Asked(map[], []))
  {
    asked := Asked(map[], []);
    var index := 0;
    while index < |keys|
      invariant Ask(keys, index, post, asked) == Ask(keys, 0, post, Asked(map[], []))
      decreases |keys| - index
    {
      var response := post(ChunkAt(keys, index));
      if response.Failed? {
        asked := asked.(errors := asked.errors + [response.message]);
      } else {
        var known := TakeIn(keys, index, response.results, asked.known);
        asked := asked.(known := known);
      }
      index := index + OSV_BATCH_SIZE;
    }
  }

  method TakeIn(keys: seq<Key>, index: nat, results: seq<seq<Advisory>>, before: map<Key, seq<Advisory>>)
    returns (known: map<Key, seq<Advisory>>)
    ensures known == Absorb(keys, index, results, before)
  {
    known := before;
    for offset := 0 to |results|
      invariant Absorb(keys, index + offset, results[offset..], known) == Absorb(keys, index, results, before)
    {
      if index + offset >= |keys| {
        break;
      }
      known := known[keys[index + offset] := results[offset]];
    }
  }

  method FindAll(r: Reader, extensionId: string, entries: seq<Dependency>, known: map<Key, seq<Advisory>>)
    returns (findings: seq<Finding>)
    ensures findings == FindingsFor(r, extensionId, entries, known)
  {
    findings := [];
    for i := 0 to |entries|
      invariant findings + FindingsFor(r, extensionId, entries[i..], known)
             == FindingsFor(r, extensionId, entries, known)
    {
      var found := FindingFor(r, extensionId, entries[i], AdvisoriesFor(known, KeyOf(entries[i])));
      assert findings + (found + FindingsFor(r, extensionId, entries[i + 1..], known))
          == (findings + found) + FindingsFor(r, extensionId, entries[i + 1..], known);
      findings := findings + found;
    }
  }

  lemma NothingToAsk(r: Reader, extensions: seq<Extension>)
    requires Distinct(AllKeys(r, extensions), []) == []
    ensures forall e :: e in extensions ==> EntriesOf(EntriesById(r, extensions, map[]), e.id) == []
  {
    DistinctExact(AllKeys(r, extensions), []);
    forall e | e in extensions ensures EntriesOf(EntriesById(r, extensions, map[]), e.id) == [] {
      EntriesByIdIsLast(r, extensions, map[], e.id);
      var last := LastWith(extensions, e.id);
      if last.Some? {
        KeysAreAsked(r, extensions, last.value);
      }
    }
  }

  // ----- Each package version is asked about once

  ghost predicate NoRepeats(keys: seq<Key>) {
    forall i, j :: 0 <= i < j < |keys| ==> keys[i] != keys[j]
  }

  lemma {:induction false} DistinctExact(keys: seq<Key>, known: seq<Key>)
    requires NoRepeats(known)
    ensures NoRepeats(Distinct(keys, known))
    ensures forall k :: k in Distinct(keys, known) <==> k in keys || k in known
    decreases |keys|
  {
    if keys != [] {
      DistinctExact(keys[1..], if keys[0] in known then known else known + [keys[0]]);
      assert keys == [keys[0]] + keys[1..];
    }
  }

  lemma {:induction false} DistinctAppends(a: seq<Key>, b: seq<Key>, known: seq<Key>)
    ensures Distinct(a + b, known) == Distinct(b, Distinct(a, known))
    decreases |a|
  {
    if a == [] {
      assert a + b == b;
    } else {
      DistinctAppends(a[1..], b, if a[0] in known then known else known + [a[0]]);
      assert (a + b)[1..] == a[1..] + b;
    }
  }

  lemma {:induction false} KeysAreAsked(r: Reader, extensions: seq<Extension>, e: Extension)
    requires e in extensions
    ensures forall d :: d in Entries(r, e.dependencies) ==> KeyOf(d) in AllKeys(r, extensions)
    ensures Entries(r, e.dependencies) != [] ==> AllKeys(r, extensions) != []
  {
    if e == extensions[0] {
      var entries := Entries(r, e.dependencies);
      forall d | d in entries ensures KeyOf(d) in KeysOf(entries) {
        var i :| 0 <= i < |entries| && entries[i] == d;
        assert KeysOf(entries)[i] == KeyOf(d);
      }
    } else {
      KeysAreAsked(r, extensions[1..], e);
    }
  }

  /** The queries sent, one request after another. */
  ghost function Sent(keys: seq<Key>, index: nat): seq<seq<Key>>
    decreases |keys| - index
  {
    if index >= |keys| then [] else [ChunkAt(keys, index)] + Sent(keys, index + OSV_BATCH_SIZE)
  }

  ghost function Flat(chunks: seq<seq<Key>>): seq<Key> {
    if chunks == [] then [] else chunks[0] + Flat(chunks[1..])
  }

  lemma {:induction false} SentIsAll(keys: seq<Key>, index: nat)
    requires index <= |keys|
    ensures Flat(Sent(keys, index)) == keys[index..]
    ensures forall c :: c in Sent(keys, index) ==> 0 < |c| <= OSV_BATCH_SIZE
    decreases |keys| - index
  {
    if index < |keys| {
      if index + OSV_BATCH_SIZE <= |keys| {
        SentIsAll(keys, index + OSV_BATCH_SIZE);
      } else {
        assert Sent(keys, index + OSV_BATCH_SIZE) == [];
      }
    }
  }

  /** Together the requests ask about every package version of every extension, each once,
      at most a hundred at a time. */
  lemma EachKeyAskedOnce(r: Reader, extensions: seq<Extension>)
    ensures var sent := Sent(Distinct(AllKeys(r, extensions), []), 0);
            && NoRepeats(Flat(sent))
            && (forall k :: k in Flat(sent) <==> k in AllKeys(r, extensions))
            && (forall c :: c in sent ==> 0 < |c| <= OSV_BATCH_SIZE)
  {
    var keys := Distinct(AllKeys(r, extensions), []);
    DistinctExact(AllKeys(r, extensions), []);
    SentIsAll(keys, 0);
  }

  // ----- Many at once gives what one at a time gives

  ghost function Looked(db: Key -> seq<Advisory>, keys: seq<Key>): (results: seq<seq<Advisory>>)
    ensures |results| == |keys| && forall i :: 0 <= i < |keys| ==> results[i] == db(keys[i])
  {
    seq(|keys|, i requires 0 <= i < |keys| => db(keys[i]))
  }

  /** A service that answers each query by itself, when it answers. */
  ghost predicate Consistent(post: seq<Key> -> Response, db: Key -> seq<Advisory>) {
    forall keys :: post(keys).Answer? ==> post(keys).results == Looked(db, keys)
  }

  ghost function SetOf(keys: seq<Key>): set<Key> {
    set k | k in keys
  }

  /** The keys of the requests that were answered. */
  ghost function AnsweredFrom(keys: seq<Key>, index: nat, post: seq<Key> -> Response): set<Key>
    decreases |keys| - index
  {
    if index >= |keys| then {}
    else
      AnsweredFrom(keys, index + OSV_BATCH_SIZE, post)
      + if post(ChunkAt(keys, index)).Answer? then SetOf(ChunkAt(keys, index)) else {}
  }

  ghost function FailuresFrom(keys: seq<Key>, index: nat, post: seq<Key> -> Response): seq<string>
    decreases |keys| - index
  {
    if index >= |keys| then []
    else
      (if post(ChunkAt(keys, index)).Failed? then [post(ChunkAt(keys, index)).message] else [])
      + FailuresFrom(keys, index + OSV_BATCH_SIZE, post)
  }

  ghost predicate Agrees(known: map<Key, seq<Advisory>>, db: Key -> seq<Advisory>, ks: set<Key>) {
    known.Keys == ks && forall k :: k in known ==> known[k] == db(k)
  }

  lemma {:induction false} AbsorbChunk(keys: seq<Key>, index: nat, results: seq<seq<Advisory>>,
                                       known: map<Key, seq<Advisory>>, db: Key -> seq<Advisory>, ks: set<Key>)
    requires index + |results| <= |keys| && Agrees(known, db, ks)
    requires forall i :: 0 <= i < |results| ==> results[i] == db(keys[index + i])
    ensures Agrees(Absorb(keys, index, results, known), db, ks + SetOf(keys[index..index + |results|]))
    decreases |results|
  {
    if results != [] {
      AbsorbChunk(keys, index + 1, results[1..], known[keys[index] := results[0]], db, ks + {keys[index]});
      FirstOfSet(keys[index..index + |results|]);
      assert keys[index..index + |results|][1..] == keys[index + 1..index + |results|];
      assert ks + {keys[index]} + SetOf(keys[index + 1..index + |results|])
          == ks + SetOf(keys[index..index + |results|]);
    } else {
      assert ks + SetOf(keys[index..index]) == ks;
    }
  }

  lemma FirstOfSet(keys: seq<Key>)
    requires keys != []
    ensures SetOf(keys) == {keys[0]} + SetOf(keys[1..])
  {
    assert keys == [keys[0]] + keys[1..];
  }

  lemma ChunkIsSlice(keys: seq<Key>, index: nat)
    requires index <= |keys|
    ensures index + |ChunkAt(keys, index)| <= |keys|
            && keys[index..index + |ChunkAt(keys, index)|] == ChunkAt(keys, index)
  {
  }

  /** What is known in the end is the answer to every query in a request that was answered,
      and what failed is noted in order. */
  lemma {:induction false} AskExact(keys: seq<Key>, index: nat, post: seq<Key> -> Response,
                                    db: Key -> seq<Advisory>, a: Asked, ks: set<Key>)
    requires Consistent(post, db) && Agrees(a.known, db, ks)
    ensures var asked := Ask(keys, index, post, a);
            Agrees(asked.known, db, ks + AnsweredFrom(keys, index, post))
            && asked.errors == a.errors + FailuresFrom(keys, index, post)
    decreases |keys| - index
  {
    if index < |keys| {
      var next := index + OSV_BATCH_SIZE;
      match post(ChunkAt(keys, index))
      case Failed(message) =>
        AskExact(keys, next, post, db, a.(errors := a.errors + [message]), ks);
        assert a.errors + [message] + FailuresFrom(keys, next, post)
            == a.errors + ([message] + FailuresFrom(keys, next, post));
        assert AnsweredFrom(keys, index, post) == AnsweredFrom(keys, next, post);
      case Answer(results) =>
        ChunkIsSlice(keys, index);
        AbsorbChunk(keys, index, results, a.known, db, ks);
        AskExact(keys, next, post, db, a.(known := Absorb(keys, index, results, a.known)),
                 ks + SetOf(ChunkAt(keys, index)));
        assert ks + SetOf(ChunkAt(keys, index)) + AnsweredFrom(keys, next, post)
            == ks + AnsweredFrom(keys, index, post);
        assert FailuresFrom(keys, index, post) == FailuresFrom(keys, next, post);
    }
  }

  function LastWith(extensions: seq<Extension>, id: string): Option<Extension> {
    if extensions == [] then None
    else if extensions[|extensions| - 1].id == id then Some(extensions[|extensions| - 1])
    else LastWith(extensions[..|extensions| - 1], id)
  }

  lemma {:induction false} LastWithIs(extensions: seq<Extension>, id: string)
    ensures match LastWith(extensions, id)
            case Some(e) => e in extensions && e.id == id
            case None => forall e :: e in extensions ==> e.id != id
  {
    if extensions != [] {
      LastWithIs(extensions[..|extensions| - 1], id);
      assert extensions == extensions[..|extensions| - 1] + [extensions[|extensions| - 1]];
    }
  }

  lemma {:induction false} EntriesByIdAppends(r: Reader, a: seq<Extension>, e: Extension,
                                              before: map<string, seq<Dependency>>)
    ensures EntriesById(r, a + [e], before) == EntriesById(r, a, before)[e.id := Entries(r, e.dependencies)]
    decreases |a|
  {
    if a == [] {
      assert a + [e] == [e];
    } else {
      EntriesByIdAppends(r, a[1..], e, before[a[0].id := Entries(r, a[0].dependencies)]);
      assert (a + [e])[1..] == a[1..] + [e];
    }
  }

  lemma {:induction false} EntriesByIdIsLast(r: Reader, extensions: seq<Extension>,
                                             before: map<string, seq<Dependency>>, id: string)
    requires before == map[]
    ensures match LastWith(extensions, id)
            case Some(e) => e in extensions
                            && EntriesOf(EntriesById(r, extensions, before), id) == Entries(r, e.dependencies)
            case None => EntriesOf(EntriesById(r, extensions, before), id) == []
  {
    LastWithIs(extensions, id);
    if extensions != [] {
      var rest, e := extensions[..|extensions| - 1], extensions[|extensions| - 1];
      EntriesByIdAppends(r, rest, e, before);
      assert extensions == rest + [e];
      EntriesByIdIsLast(r, rest, before, id);
    }
  }

  lemma {:induction false} FindingsOfAnswer(r: Reader, id: string, entries: seq<Dependency>,
                                            db: Key -> seq<Advisory>, known: map<Key, seq<Advisory>>)
    requires forall d :: d in entries ==> AdvisoriesFor(known, KeyOf(d)) == db(KeyOf(d))
    ensures FromResults(r, id, entries, Looked(db, KeysOf(entries))) == Some(FindingsFor(r, id, entries, known))
  {
    if entries != [] {
      assert entries == [entries[0]] + entries[1..];
      assert KeysOf(entries)[1..] == KeysOf(entries[1..]);
      assert Looked(db, KeysOf(entries))[1..] == Looked(db, KeysOf(entries[1..]));
      FindingsOfAnswer(r, id, entries[1..], db, known);
    }
  }

  /** When every key of an extension's entries was in a request that was answered, the many
      give the findings that asking about the last extension of its identifier alone gives. */
  lemma ManyGivesWhatOneGives(r: Reader, extensions: seq<Extension>, e: Extension, post: seq<Key> -> Response,
                              db: Key -> seq<Advisory>)
    requires Consistent(post, db) && LastWith(extensions, e.id) == Some(e)
    requires post(KeysOf(Entries(r, e.dependencies))).Answer?
    requires var keys := Distinct(AllKeys(r, extensions), []);
             forall d :: d in Entries(r, e.dependencies) ==> KeyOf(d) in AnsweredFrom(keys, 0, post)
    ensures var asked := Ask(Distinct(AllKeys(r, extensions), []), 0, post, Asked(map[], []));
            CheckOne(r, e, post)
            == Checked(FindingsFor(r, e.id, EntriesOf(EntriesById(r, extensions, map[]), e.id), asked.known), None)
  {
    var keys := Distinct(AllKeys(r, extensions), []);
    var asked := Ask(keys, 0, post, Asked(map[], []));
    AskExact(keys, 0, post, db, Asked(map[], []), {});
    EntriesByIdIsLast(r, extensions, map[], e.id);
    FindingsOfAnswer(r, e.id, Entries(r, e.dependencies), db, asked.known);
  }

  lemma {:induction false} NoFailureAnswersAll(keys: seq<Key>, index: nat, post: seq<Key> -> Response)
    requires index <= |keys|
    ensures FailuresFrom(keys, index, post) == [] <==> forall c :: c in Sent(keys, index) ==> post(c).Answer?
    ensures FailuresFrom(keys, index, post) == [] ==>
              forall k :: k in keys[index..] ==> k in AnsweredFrom(keys, index, post)
    decreases |keys| - index
  {
    if index < |keys| {
      var chunk := ChunkAt(keys, index);
      if index + OSV_BATCH_SIZE <= |keys| {
        NoFailureAnswersAll(keys, index + OSV_BATCH_SIZE, post);
        assert keys[index..] == chunk + keys[index + OSV_BATCH_SIZE..];
      } else {
        assert keys[index..] == chunk;
      }
      assert Sent(keys, index) == [chunk] + Sent(keys, index + OSV_BATCH_SIZE);
    }
  }

  lemma EntriesAreAnswered(r: Reader, extensions: seq<Extension>, e: Extension, post: seq<Key> -> Response)
    requires e in extensions && forall c :: c in Sent(Distinct(AllKeys(r, extensions), []), 0) ==> post(c).Answer?
    ensures var keys := Distinct(AllKeys(r, extensions), []);
            && FailuresFrom(keys, 0, post) == []
            && forall d :: d in Entries(r, e.dependencies) ==> KeyOf(d) in AnsweredFrom(keys, 0, post)
  {
    var keys := Distinct(AllKeys(r, extensions), []);
    NoFailureAnswersAll(keys, 0, post);
    DistinctExact(AllKeys(r, extensions), []);
    KeysAreAsked(r, extensions, e);
    assert keys[0..] == keys;
  }

  lemma {:induction false} DistinctIdIsLast(extensions: seq<Extension>, e: Extension)
    requires e in extensions && forall i, j :: 0 <= i < j < |extensions| ==> extensions[i].id != extensions[j].id
    ensures LastWith(extensions, e.id) == Some(e)
  {
    var i :| 0 <= i < |extensions| && extensions[i] == e;
    LastWithIs(extensions, e.id);
    var k :| 0 <= k < |extensions| && extensions[k] == LastWith(extensions, e.id).value;
  }

  /** With distinct identifiers and no failed request, looking up many extensions gives each
      the findings that looking it up alone gives. */
  lemma BatchRefinesSingle(r: Reader, extensions: seq<Extension>, e: Extension, post: seq<Key> -> Response,
                           db: Key -> seq<Advisory>)
    requires Consistent(post, db)
    requires forall c :: c in Sent(Distinct(AllKeys(r, extensions), []), 0) ==> post(c).Answer?
    requires post(KeysOf(Entries(r, e.dependencies))).Answer?
    requires e in extensions && forall i, j :: 0 <= i < j < |extensions| ==> extensions[i].id != extensions[j].id
    ensures var asked := Ask(Distinct(AllKeys(r, extensions), []), 0, post, Asked(map[], []));
            && asked.errors == []
            && CheckOne(r, e, post)
               == Checked(FindingsFor(r, e.id, EntriesOf(EntriesById(r, extensions, map[]), e.id), asked.known), None)
  {
    EntriesAreAnswered(r, extensions, e, post);
    DistinctIdIsLast(extensions, e);
    AskExact(Distinct(AllKeys(r, extensions), []), 0, post, db, Asked(map[], []), {});
    ManyGivesWhatOneGives(r, extensions, e, post, db);
  }

  /** Of the extensions with one identifier only the last is looked at: whatever is known
      about the others' dependencies, none of it is found. */
  lemma SameIdHidesOthers(r: Reader, extensions: seq<Extension>, e: Extension, known: map<Key, seq<Advisory>>)
    requires e in extensions
    ensures var last := LastWith(extensions, e.id);
            && last.Some? && last.value in extensions && last.value.id == e.id
            && FindingsFor(r, e.id, EntriesOf(EntriesById(r, extensions, map[]), e.id), known)
               == FindingsFor(r, e.id, Entries(r, last.value.dependencies), known)
  {
    LastWithIs(extensions, e.id);
    EntriesByIdIsLast(r, extensions, map[], e.id);
  }
}
