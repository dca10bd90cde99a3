/**
 The publication accuracy gate: the result rows of a holdout against the frozen corpus, the
 counts and rounded rates they give, and what a passing gate guarantees.

 Extension identifiers are taken in lower case, and rates are exact quotients rounded to
 four places, ties to even.
 */
module AccuracyGate {
  import opened Options

  datatype Key = Key(extensionId: string, version: string)

  datatype Label = KnownSafe | KnownMalicious

  datatype Verdict = Clean | Review | Suspicious | Malicious

  datatype Decision = Allow | ToReview | Block

  datatype Artifact = Artifact(key: Key, kind: Label, sha256: string)

  /** What a scan says about its run; a field that is missing or of the wrong type is none. */
  datatype Contract = Contract(
    coverageStatus: string, providersComplete: Option<bool>, required: Option<bool>,
    providerStatus: string, runStatus: string, execution: string, policy: string,
    executed: Option<bool>, syscallTrace: Option<bool>)

  datatype Row = Row(
    key: Key, kind: Option<Label>, required: bool, scanned: bool, passed: bool, gatePassed: bool,
    complete: bool, verdict: Option<Verdict>, decision: Option<Decision>, contract: Contract, sha256: string,
    rules: seq<string>)

  // ----- One row

  predicate HasNoRuntimeErrors(c: Contract) {
    && c.coverageStatus == "complete" && c.providersComplete == Some(true) && c.required.Some?
    && c.policy == "capability-gated-v1"
    && c.executed == c.required && c.syscallTrace == c.required
    && (if c.required.value
        then c.providerStatus == "completed" && c.runStatus == "completed" && c.execution == "controlled-bubblewrap"
        else c.providerStatus == "not-applicable" && c.execution == "policy-gated")
  }

  predicate ReviewOrHigher(row: Row) {
    row.decision == Some(ToReview) || row.decision == Some(Block)
    || row.verdict == Some(Review) || row.verdict == Some(Suspicious) || row.verdict == Some(Malicious)
  }

  /** A malicious artifact needs a risk verdict; without advisories a review is one, and only
      with them must it be blocked. */
  predicate MaliciousRowPasses(row: Row, mustBlock: bool) {
    && (|| row.verdict == Some(Suspicious) || row.verdict == Some(Malicious)
        || (!mustBlock && row.verdict == Some(Review)))
    && (mustBlock ==> row.decision == Some(Block))
  }

  predicate RowPasses(row: Row, a: Artifact, mustBlock: bool) {
    && row.kind == Some(a.kind) && row.required && row.scanned && row.passed && row.gatePassed
    && row.complete && row.verdict.Some? && row.decision.Some?
    && HasNoRuntimeErrors(row.contract)
    && (if a.kind == KnownSafe then row.decision != Some(Block) && row.verdict != Some(Malicious)
        else MaliciousRowPasses(row, mustBlock))
    && row.sha256 == a.sha256
  }

  // ----- The counters

  datatype Tally = Tally(
    passed: nat, safe: nat, safeReviewed: nat, safeBlocks: nat,
    malicious: nat, allows: nat, blocked: nat, reviewed: nat, detected: nat,
    dynamicRequired: nat, dynamicNotApplicable: nat)

  const NOTHING := Tally(0, 0, 0, 0, 0, 0, 0, 0, 0, 0, 0)

  function One(b: bool): nat {
    if b then 1 else 0
  }

  /** What one passing row adds. */
  function Counted(t: Tally, row: Row, a: Artifact): Tally {
    var safe := a.kind == KnownSafe;
    Tally(
      t.passed + 1,
      t.safe + One(safe),
      t.safeReviewed + One(safe && ReviewOrHigher(row)),
      t.safeBlocks + One(safe && (row.decision == Some(Block) || row.verdict == Some(Malicious))),
      t.malicious + One(!safe),
      t.allows + One(!safe && (row.decision == Some(Allow) || row.verdict == Some(Clean))),
      t.blocked + One(!safe && row.decision == Some(Block)),
      t.reviewed + One(!safe && row.decision == Some(ToReview)),
      t.detected + One(!safe && ReviewOrHigher(row)),
      t.dynamicRequired + One(row.contract.required == Some(true)),
      t.dynamicNotApplicable + One(row.contract.required == Some(false)))
  }

  /** The artifacts by key; of two with one key the later counts. */
  function Expected(corpus: seq<Artifact>): map<Key, Artifact> {
    if corpus == [] then map[]
    else
      var last := corpus[|corpus| - 1];
      Expected(corpus[..|corpus| - 1])[last.key := last]
  }

  function Walk(rows: seq<Row>, expected: map<Key, Artifact>, seen: set<Key>, mustBlock: bool, t: Tally): Option<Tally>
    decreases |rows|
  {
    if rows == [] then Some(t)
    else
      var row := rows[0];
      if row.key !in expected || row.key in seen || !RowPasses(row, expected[row.key], mustBlock) then None
      else Walk(rows[1..], expected, seen + {row.key}, mustBlock, Counted(t, row, expected[row.key]))
  }

  function Validate(rows: seq<Row>, corpus: seq<Artifact>, mustBlock: bool): Option<Tally> {
    if |rows| != |corpus| then None else Walk(rows, Expected(corpus), {}, mustBlock, NOTHING)
  }

  method ValidateHoldoutResults(rows: seq<Row>, corpus: seq<Artifact>, mustBlock: bool) returns (r: Option<Tally>)
    ensures r == Validate(rows, corpus, mustBlock)
  {
    if |rows| != |corpus| {
      return None;
    }
    var expected: map<Key, Artifact> := map[];
    for i := 0 to |corpus|
      invariant expected == Expected(corpus[..i])
    {
      assert corpus[..i + 1][..i] == corpus[..i];
      expected := expected[corpus[i].key := corpus[i]];
    }
    assert corpus[..|corpus|] == corpus;
    var t, seen := NOTHING, {};
    for i := 0 to |rows|
      invariant Walk(rows[i..], expected, seen, mustBlock, t) == Walk(rows, expected, {}, mustBlock, NOTHING)
    {
      var row := rows[i];
      if row.key !in expected || row.key in seen {
        return None;
      }
      var a := expected[row.key];
      if !RowPasses(row, a, mustBlock) {
        return None;
      }
      seen := seen + {row.key};
      t := Counted(t, row, a);
    }
    r := Some(t);
  }

  // ----- A row for every artifact

  ghost predicate RowKeysDiffer(rows: seq<Row>) {
    forall i, j :: 0 <= i < j < |rows| ==> rows[i].key != rows[j].key
  }

  ghost predicate KeysDiffer(corpus: seq<Artifact>) {
    forall i, j :: 0 <= i < j < |corpus| ==> corpus[i].key != corpus[j].key
  }

  ghost function RowKeys(rows: seq<Row>): set<Key> {
    set i | 0 <= i < |rows| :: rows[i].key
  }

  ghost predicate AllPass(rows: seq<Row>, expected: map<Key, Artifact>, mustBlock: bool) {
    forall i :: 0 <= i < |rows| ==>
                  rows[i].key in expected && RowPasses(rows[i], expected[rows[i].key], mustBlock)
  }

  lemma {:induction false} WalkExact(
    rows: seq<Row>, expected: map<Key, Artifact>, seen: set<Key>, mustBlock: bool, t: Tally)
    ensures Walk(rows, expected, seen, mustBlock, t).Some? <==>
            && RowKeysDiffer(rows) && AllPass(rows, expected, mustBlock)
            && forall i :: 0 <= i < |rows| ==> rows[i].key !in seen
    decreases |rows|
  {
    if rows != [] {
      var row := rows[0];
      if row.key in expected && row.key !in seen && RowPasses(row, expected[row.key], mustBlock) {
        var rest := rows[1..];
        WalkExact(rest, expected, seen + {row.key}, mustBlock, Counted(t, row, expected[row.key]));
        assert forall i :: 0 < i < |rows| ==> rows[i] == rest[i - 1];
        assert forall i :: 0 <= i < |rest| ==> rest[i] == rows[i + 1];
      }
    }
  }

  lemma {:induction false} ExpectedMembers(corpus: seq<Artifact>)
    ensures forall k :: k in Expected(corpus) ==> Expected(corpus)[k].key == k && Expected(corpus)[k] in corpus
    ensures forall a :: a in corpus ==> a.key in Expected(corpus)
  {
    if corpus != [] {
      ExpectedMembers(corpus[..|corpus| - 1]);
      assert corpus == corpus[..|corpus| - 1] + [corpus[|corpus| - 1]];
    }
  }

  lemma {:induction false} ExpectedSize(corpus: seq<Artifact>)
    ensures |Expected(corpus).Keys| <= |corpus|
    ensures |Expected(corpus).Keys| == |corpus| ==> KeysDiffer(corpus)
  {
    if corpus != [] {
      var rest, last := corpus[..|corpus| - 1], corpus[|corpus| - 1];
      ExpectedSize(rest);
      ExpectedMembers(rest);
      assert Expected(corpus).Keys == Expected(rest).Keys + {last.key};
      if |Expected(corpus).Keys| == |corpus| {
        assert last.key !in Expected(rest);
        forall i | 0 <= i < |rest| ensures corpus[i].key != last.key {
          assert rest[i] in rest;
        }
      }
    }
  }

  lemma {:induction false} ExpectedSame(corpus: seq<Artifact>)
    requires KeysDiffer(corpus)
    ensures forall i :: 0 <= i < |corpus| ==>
                          corpus[i].key in Expected(corpus) && Expected(corpus)[corpus[i].key] == corpus[i]
    ensures forall k :: k in Expected(corpus) ==> exists i :: 0 <= i < |corpus| && corpus[i].key == k
  {
    if corpus != [] {
      var rest := corpus[..|corpus| - 1];
      ExpectedSame(rest);
      assert forall i :: 0 <= i < |rest| ==> rest[i] == corpus[i];
    }
  }

  lemma {:induction false} RowKeysCount(rows: seq<Row>)
    requires RowKeysDiffer(rows)
    ensures |RowKeys(rows)| == |rows|
  {
    if rows != [] {
      var rest, last := rows[..|rows| - 1], rows[|rows| - 1];
      RowKeysCount(rest);
      assert RowKeys(rows) == RowKeys(rest) + {last.key};
    }
  }

  lemma SubsetOfSameSize(a: set<Key>, b: set<Key>)
    requires a <= b && |a| >= |b|
    ensures a == b
  {
    assert b == a + (b - a);
    assert |b| == |a| + |b - a|;
  }

  /** Rows are accepted exactly when there are as many as artifacts, of different keys, and
      each passes for the artifact of its key. */
  lemma ValidateExact(rows: seq<Row>, corpus: seq<Artifact>, mustBlock: bool)
    ensures Validate(rows, corpus, mustBlock).Some? <==>
            |rows| == |corpus| && RowKeysDiffer(rows) && AllPass(rows, Expected(corpus), mustBlock)
  {
    if |rows| == |corpus| {
      WalkExact(rows, Expected(corpus), {}, mustBlock, NOTHING);
    }
  }

  ghost predicate HasArtifact(corpus: seq<Artifact>, row: Row, mustBlock: bool) {
    exists a :: a in corpus && a.key == row.key && RowPasses(row, a, mustBlock)
  }

  ghost predicate HasRow(rows: seq<Row>, a: Artifact, mustBlock: bool) {
    exists i :: 0 <= i < |rows| && rows[i].key == a.key && RowPasses(rows[i], a, mustBlock)
  }

  lemma AcceptedSameKeys(rows: seq<Row>, corpus: seq<Artifact>, mustBlock: bool)
    requires Validate(rows, corpus, mustBlock).Some?
    ensures KeysDiffer(corpus) && RowKeysDiffer(rows) && RowKeys(rows) == Expected(corpus).Keys
  {
    ValidateExact(rows, corpus, mustBlock);
    ExpectedSize(corpus);
    RowKeysCount(rows);
    assert RowKeys(rows) <= Expected(corpus).Keys;
    SubsetOfSameSize(RowKeys(rows), Expected(corpus).Keys);
  }

  /** And then rows and artifacts correspond one to one: no artifact is without a row, and
      the frozen corpus has no key twice. */
  lemma AcceptedCorresponds(rows: seq<Row>, corpus: seq<Artifact>, mustBlock: bool)
    requires Validate(rows, corpus, mustBlock).Some?
    ensures KeysDiffer(corpus) && RowKeysDiffer(rows)
    ensures forall row :: row in rows ==> HasArtifact(corpus, row, mustBlock)
    ensures forall a :: a in corpus ==> HasRow(rows, a, mustBlock)
  {
    AcceptedSameKeys(rows, corpus, mustBlock);
    ValidateExact(rows, corpus, mustBlock);
    ExpectedMembers(corpus);
    forall a | a in corpus ensures HasRow(rows, a, mustBlock) {
      ArtifactHasRow(rows, corpus, mustBlock, a);
    }
  }

  lemma ArtifactHasRow(rows: seq<Row>, corpus: seq<Artifact>, mustBlock: bool, a: Artifact)
    requires KeysDiffer(corpus) && RowKeys(rows) == Expected(corpus).Keys
    requires AllPass(rows, Expected(corpus), mustBlock) && a in corpus
    ensures HasRow(rows, a, mustBlock)
  {
    ExpectedSame(corpus);
    var k :| 0 <= k < |corpus| && corpus[k] == a;
    assert a.key in RowKeys(rows);
    var i :| 0 <= i < |rows| && rows[i].key == a.key;
    assert Expected(corpus)[rows[i].key] == a;
  }

  // ----- What the counters come to

  ghost function Labelled(corpus: seq<Artifact>, kind: Label): nat {
    if corpus == [] then 0
    else Labelled(corpus[..|corpus| - 1], kind) + One(corpus[|corpus| - 1].kind == kind)
  }

  lemma {:induction false} WalkCounts(
    rows: seq<Row>, expected: map<Key, Artifact>, seen: set<Key>, mustBlock: bool, t: Tally)
    requires Walk(rows, expected, seen, mustBlock, t).Some?
    ensures var u := Walk(rows, expected, seen, mustBlock, t).value;
            && u.passed == t.passed + |rows|
            && u.safe + u.malicious == t.safe + t.malicious + |rows|
            && u.dynamicRequired + u.dynamicNotApplicable == t.dynamicRequired + t.dynamicNotApplicable + |rows|
            && u.safeBlocks == t.safeBlocks
            && u.detected - t.detected == u.malicious - t.malicious
            && (mustBlock ==>
                  && u.blocked - t.blocked == u.malicious - t.malicious
                  && u.allows == t.allows && u.reviewed == t.reviewed)
            && t.safeReviewed <= u.safeReviewed && u.safeReviewed - t.safeReviewed <= u.safe - t.safe
    decreases |rows|
  {
    if rows != [] {
      var a := expected[rows[0].key];
      WalkCounts(rows[1..], expected, seen + {rows[0].key}, mustBlock, Counted(t, rows[0], a));
    }
  }

  ghost function KeysWith(expected: map<Key, Artifact>, kind: Label, among: set<Key>): set<Key> {
    set k | k in expected && expected[k].kind == kind && k in among
  }

  lemma {:induction false} WalkCountsSafe(
    rows: seq<Row>, expected: map<Key, Artifact>, seen: set<Key>, mustBlock: bool, t: Tally)
    requires Walk(rows, expected, seen, mustBlock, t).Some? && RowKeysDiffer(rows)
    ensures Walk(rows, expected, seen, mustBlock, t).value.safe
         == t.safe + |KeysWith(expected, KnownSafe, RowKeys(rows))|
    decreases |rows|
  {
    if rows == [] {
      assert KeysWith(expected, KnownSafe, RowKeys(rows)) == {};
    } else {
      var row := rows[0];
      WalkCountsSafe(rows[1..], expected, seen + {row.key}, mustBlock, Counted(t, row, expected[row.key]));
      FirstKeyWith(rows, expected, KnownSafe);
    }
  }

  lemma FirstKeyWith(rows: seq<Row>, expected: map<Key, Artifact>, kind: Label)
    requires rows != [] && RowKeysDiffer(rows) && rows[0].key in expected
    ensures |KeysWith(expected, kind, RowKeys(rows))|
         == |KeysWith(expected, kind, RowKeys(rows[1..]))| + One(expected[rows[0].key].kind == kind)
  {
    FirstKey(rows);
    KeysWithOneMore(expected, kind, RowKeys(rows[1..]), rows[0].key);
  }

  lemma KeysWithOneMore(expected: map<Key, Artifact>, kind: Label, among: set<Key>, key: Key)
    requires key !in among && key in expected
    ensures |KeysWith(expected, kind, among + {key})|
         == |KeysWith(expected, kind, among)| + One(expected[key].kind == kind)
  {
    var others := KeysWith(expected, kind, among);
    if expected[key].kind == kind {
      assert KeysWith(expected, kind, among + {key}) == others + {key};
    } else {
      assert KeysWith(expected, kind, among + {key}) == others;
    }
  }

  lemma FirstKey(rows: seq<Row>)
    requires rows != [] && RowKeysDiffer(rows)
    ensures RowKeys(rows) == RowKeys(rows[1..]) + {rows[0].key} && rows[0].key !in RowKeys(rows[1..])
  {
    var rest := rows[1..];
    assert forall i :: 0 <= i < |rest| ==> rest[i] == rows[i + 1];
    forall k | k in RowKeys(rows) ensures k in RowKeys(rest) + {rows[0].key} {
      var i :| 0 <= i < |rows| && rows[i].key == k;
      assert i > 0 ==> rest[i - 1].key == k;
    }
  }

  lemma {:induction false} LabelledCounts(corpus: seq<Artifact>, kind: Label)
    requires KeysDiffer(corpus)
    ensures |KeysWith(Expected(corpus), kind, Expected(corpus).Keys)| == Labelled(corpus, kind)
  {
    if corpus == [] {
      assert KeysWith(Expected(corpus), kind, Expected(corpus).Keys) == {};
    } else {
      var rest, last := corpus[..|corpus| - 1], corpus[|corpus| - 1];
      LabelledCounts(rest, kind);
      ExpectedSame(rest);
      assert forall i :: 0 <= i < |rest| ==> rest[i] == corpus[i];
      LastKeyWith(Expected(rest), last, kind);
    }
  }

  lemma LastKeyWith(expected: map<Key, Artifact>, last: Artifact, kind: Label)
    requires last.key !in expected
    ensures var more := expected[last.key := last];
            |KeysWith(more, kind, more.Keys)| == |KeysWith(expected, kind, expected.Keys)| + One(last.kind == kind)
  {
    var more := expected[last.key := last];
    var before := KeysWith(expected, kind, expected.Keys);
    assert KeysWith(more, kind, more.Keys) == before + if last.kind == kind then {last.key} else {};
  }

  /** The counters of accepted rows are those of the frozen corpus: every artifact passed,
      safe and malicious ones are as many as were frozen, no safe one was blocked, every
      malicious one was detected, and blocked where that is asked. */
  lemma AcceptedCounts(rows: seq<Row>, corpus: seq<Artifact>, mustBlock: bool)
    requires Validate(rows, corpus, mustBlock).Some?
    ensures var t := Validate(rows, corpus, mustBlock).value;
            && t.passed == t.safe + t.malicious == |corpus|
            && t.safe == Labelled(corpus, KnownSafe)
            && t.dynamicRequired + t.dynamicNotApplicable == |corpus|
            && t.safeBlocks == 0 && t.safeReviewed <= t.safe
            && t.detected == t.malicious
            && (mustBlock ==> t.blocked == t.malicious && t.allows == 0 && t.reviewed == 0)
  {
    var expected := Expected(corpus);
    AcceptedSameKeys(rows, corpus, mustBlock);
    WalkCounts(rows, expected, {}, mustBlock, NOTHING);
    WalkCountsSafe(rows, expected, {}, mustBlock, NOTHING);
    LabelledCounts(corpus, KnownSafe);
  }

  // ----- Rates

  /** `part / whole` in ten-thousandths, to the nearest, ties to even; nothing of nothing is
      zero. */
  function Rate(part: nat, whole: nat): nat {
    if whole == 0 then 0
    else
      var q := (20000 * part + whole) / (2 * whole);
      if (20000 * part + whole) % (2 * whole) == 0 && q % 2 == 1 then q - 1 else q
  }

  lemma Quotient(n: nat, d: nat, m: nat)
    requires d > 0
    ensures n / d <= m <==> n < d * (m + 1)
    ensures n / d == m && n % d == 0 <==> n == d * m
  {
    var q, r := n / d, n % d;
    assert n == d * q + r && 0 <= r < d;
    Monotone(d, q, m);
    Monotone(d, m + 1, q);
  }

  lemma {:induction false} Monotone(d: nat, a: nat, b: nat)
    ensures a <= b ==> d * a <= d * b
    ensures a < b ==> d * a + d <= d * b
    decreases b
  {
    if a < b {
      Monotone(d, a, b - 1);
      assert d * b == d * (b - 1) + d;
    }
  }

  /** A rounded rate is at most an even bound exactly when the true one is at most half a
      ten-thousandth above it. */
  lemma RateAtMost(part: nat, whole: nat, bound: nat)
    requires whole > 0 && bound % 2 == 0
    ensures Rate(part, whole) <= bound <==> 20000 * part <= (2 * bound + 1) * whole
  {
    var n, d := 20000 * part + whole, 2 * whole;
    Quotient(n, d, bound);
    Quotient(n, d, bound + 1);
    assert d * (bound + 1) == (2 * bound + 1) * whole + whole;
  }

  /** No whole number of ten-thousandths is nearer to the true rate. */
  lemma RateIsNearest(part: nat, whole: nat)
    requires whole > 0
    ensures var excess: int := 10000 * part - Rate(part, whole) * whole;
            0 <= 2 * excess + whole <= 2 * whole
  {
    var n, d := 20000 * part + whole, 2 * whole;
    var q := n / d;
    assert n == d * q + n % d && 0 <= n % d < d;
    assert d * q == 2 * (q * whole) && d * (q - 1) == d * q - d;
  }

  const MAX_SAFE_REVIEW_RATE := 2000

  /** The ceiling on reviewed safe artifacts is exact for fewer than four thousand. */
  lemma ReviewCeiling(reviewed: nat, safe: nat)
    requires safe > 0
    ensures Rate(reviewed, safe) <= MAX_SAFE_REVIEW_RATE <==> 20000 * reviewed <= 4001 * safe
    ensures safe < 4000 ==> (Rate(reviewed, safe) <= MAX_SAFE_REVIEW_RATE <==> 5 * reviewed <= safe)
  {
    RateAtMost(reviewed, safe, MAX_SAFE_REVIEW_RATE);
  }

  /** Beyond, rounding lets more through. */
  lemma ReviewCeilingRounds()
    ensures Rate(801, 4004) <= MAX_SAFE_REVIEW_RATE && 5 * 801 > 4004
  {
  }

  /** A rate of zero means none for fewer than twenty thousand; from there on one is lost in
      rounding. */
  lemma ZeroRate(part: nat, whole: nat)
    requires whole > 0
    ensures Rate(part, whole) == 0 <==> 20000 * part <= whole
    ensures whole < 20000 ==> (Rate(part, whole) == 0 <==> part == 0)
    ensures whole >= 20000 ==> Rate(1, whole) == 0
  {
    RateAtMost(part, whole, 0);
    RateAtMost(1, whole, 0);
  }

  // ----- The publication

  datatype Identity = Identity(build: string, policy: string, ruleset: string)

  /** A gate's own summary, rates as it states them. */
  datatype Summary = Summary(
    total: nat, scanned: nat, required: nat, requiredFailed: nat, incompleteRequired: nat, notScanned: nat,
    tally: Tally, passRate: real, safeBlockRate: real, safeReviewRate: real,
    allowRate: real, blockRate: real, reviewRate: real, detectionRate: real)

  /** A gate file; `checked` says that it has the expected schema and that it and each of its
      required checks passed, `traced` that its scans ran deep with system calls traced. */
  datatype Gate = Gate(
    checked: bool, identity: Identity, corpusId: string, corpusVersion: string, traced: bool,
    behaviorOnly: bool, emptySnapshot: bool, summary: Summary, rows: seq<Row>)

  /** A frozen corpus; `sound` says that its labels, evidence and provenance are in order. */
  datatype Corpus = Corpus(id: string, version: string, sound: bool, artifacts: seq<Artifact>)

  datatype Publication = Publication(identity: Identity, holdout: Tally, behavior: Option<Tally>)

  predicate IsBuild(s: string) {
    |s| == 40 && forall i :: 0 <= i < 40 ==> '0' <= s[i] <= '9' || 'a' <= s[i] <= 'f' || 'A' <= s[i] <= 'F'
  }

  predicate IsRate(r: real) {
    0.0 <= r <= 1.0
  }

  function AsRate(part: nat, whole: nat): real {
    Rate(part, whole) as real / 10000.0
  }

  /** The summary that a holdout's rows give. */
  function SummaryOf(t: Tally, total: nat): Summary {
    Summary(total, total, total, if total >= t.passed then total - t.passed else 0, 0, 0, t,
            AsRate(t.passed, total), AsRate(t.safeBlocks, t.safe), AsRate(t.safeReviewed, t.safe),
            AsRate(t.allows, t.malicious), AsRate(t.blocked, t.malicious),
            AsRate(t.reviewed, t.malicious), AsRate(t.detected, t.malicious))
  }

  /** What any gate must say of itself. */
  predicate GatePasses(g: Gate) {
    var s := g.summary;
    && g.checked && IsBuild(g.identity.build)
    && IsRate(s.passRate) && IsRate(s.safeBlockRate) && IsRate(s.safeReviewRate) && IsRate(s.allowRate)
    && s.required >= 1 && s.tally.passed == s.required && s.requiredFailed == 0 && s.incompleteRequired == 0
    && s.passRate >= 1.0 && s.safeBlockRate <= 0.0 && s.allowRate <= 0.0 && s.safeReviewRate <= 0.2
  }

  const MIN_FRESH_HOLDOUT_SAFE := 5
  const MIN_FRESH_HOLDOUT_MALICIOUS := 5

  function LabelCount(corpus: seq<Artifact>, kind: Label): (n: nat)
    ensures n == Labelled(corpus, kind)
  {
    if corpus == [] then 0
    else LabelCount(corpus[..|corpus| - 1], kind) + One(corpus[|corpus| - 1].kind == kind)
  }

  /** The rows of a holdout gate, counted, when its summary says just that. */
  function Counts(g: Gate, corpus: Corpus, mustBlock: bool): Option<Tally> {
    var t := Validate(g.rows, corpus.artifacts, mustBlock);
    if t.Some? && g.summary == SummaryOf(t.value, |corpus.artifacts|) then t else None
  }

  predicate HoldoutFits(g: Gate, corpus: Corpus) {
    var s := g.summary;
    && GatePasses(g) && g.traced && g.corpusId == corpus.id && g.corpusVersion == corpus.version
    && s.required == |corpus.artifacts| == s.tally.passed && s.notScanned == 0 && s.incompleteRequired == 0
    && s.tally.safe >= MIN_FRESH_HOLDOUT_SAFE && s.tally.malicious >= MIN_FRESH_HOLDOUT_MALICIOUS
    && s.tally.dynamicRequired >= 1 && s.tally.dynamicNotApplicable >= 1
    && s.tally.safe == LabelCount(corpus.artifacts, KnownSafe)
    && s.tally.malicious == LabelCount(corpus.artifacts, KnownMalicious)
  }

  predicate BehaviorFits(g: Gate, corpus: Corpus, identity: Identity) {
    && GatePasses(g) && g.behaviorOnly && g.identity == identity && g.traced && g.emptySnapshot
    && g.corpusId == corpus.id && g.corpusVersion == corpus.version
  }

  // ----- The rules that fired

  /** How often a rule is named among some. */
  function Times(rules: seq<string>, rule: string): nat {
    if rules == [] then 0 else One(rules[0] == rule) + Times(rules[1..], rule)
  }

  /** How often a rule fired on the artifacts of one label. */
  function FiredOn(rows: seq<Row>, expected: map<Key, Artifact>, kind: Label, rule: string): nat {
    if rows == [] then 0
    else
      var row := rows[0];
      var labelled := row.key in expected && expected[row.key].kind == kind;
      (if labelled then Times(row.rules, rule) else 0) + FiredOn(rows[1..], expected, kind, rule)
  }

  /** The rules that fired; an empty name is passed over. */
  function RulesFired(rows: seq<Row>): set<string> {
    set i, rule | 0 <= i < |rows| && rule in rows[i].rules && rule != "" :: rule
  }

  predicate IsBlank(isSpace: char -> bool, s: string) {
    forall i :: 0 <= i < |s| ==> isSpace(s[i])
  }

  /** Some rule fired, and none more often than there are artifacts of a label. */
  predicate MatrixFits(isSpace: char -> bool, rows: seq<Row>, corpus: seq<Artifact>) {
    && RulesFired(rows) != {}
    && forall rule :: rule in RulesFired(rows) ==>
                        && !IsBlank(isSpace, rule)
                        && FiredOn(rows, Expected(corpus), KnownSafe, rule) <= LabelCount(corpus, KnownSafe)
                        && FiredOn(rows, Expected(corpus), KnownMalicious, rule) <= LabelCount(corpus, KnownMalicious)
  }

  /** What an audit saw of one rule. */
  datatype Observed = Observed(
    rule: string, safe: nat, safeActionable: nat, safeBlocks: nat, malicious: nat, evidence: set<string>)

  /** The audit of the rules against the labels; `checked` says that it has the expected schema
      and that its fields are counts. */
  datatype Audit = Audit(
    checked: bool, build: string, labelled: nat, safe: nat, malicious: nat,
    safeReviewed: nat, safeBlocked: nat, missed: nat, observations: seq<Observed>)

  const KNOWN_SAFE_ACTIONABLE_RISK_RULES := {"vulnerable-npm-dependency"}

  predicate ObservedFits(isSpace: char -> bool, o: Observed, safe: nat, malicious: nat) {
    && !IsBlank(isSpace, o.rule) && o.safe <= safe && o.malicious <= malicious
    && o.safeActionable <= o.safe && o.safeBlocks == 0
    && (o.safeActionable > 0 ==> o.rule in KNOWN_SAFE_ACTIONABLE_RISK_RULES && o.evidence == {"dependency"})
  }

  /** The audit's review rate is not rounded before it is compared. */
  predicate AuditFits(isSpace: char -> bool, audit: Audit, build: string, corpus: seq<Artifact>) {
    var safe, malicious := LabelCount(corpus, KnownSafe), LabelCount(corpus, KnownMalicious);
    && audit.checked && audit.build == build && audit.labelled == |corpus|
    && audit.safe == safe && audit.malicious == malicious
    && audit.safeBlocked == 0 && 5 * audit.safeReviewed <= safe && audit.missed == 0
    && audit.observations != []
    && forall o :: o in audit.observations ==> ObservedFits(isSpace, o, safe, malicious)
  }

  /** The regression gate, the holdout gate with its corpus and, where they are given, the
      behaviour-only gate and the audit of the rules. */
  datatype Evidence = Evidence(
    regression: Gate, holdout: Gate, corpus: Corpus, behavior: Option<Gate>, audit: Option<Audit>)

  function BuildPublication(isSpace: char -> bool, e: Evidence): Option<Publication> {
    var counted := Counts(e.holdout, e.corpus, true);
    if !GatePasses(e.regression) || !e.corpus.sound || e.regression.identity != e.holdout.identity
       || !HoldoutFits(e.holdout, e.corpus) || counted.None?
       || !MatrixFits(isSpace, e.holdout.rows, e.corpus.artifacts)
       || (e.audit.Some? && !AuditFits(isSpace, e.audit.value, e.regression.identity.build, e.corpus.artifacts))
    then None
    else if e.behavior.None? then Some(Publication(e.holdout.identity, counted.value, None))
      else
        var g := e.behavior.value;
        var observed := Counts(g, e.corpus, false);
        if !BehaviorFits(g, e.corpus, e.regression.identity) || observed.None?
           || !MatrixFits(isSpace, g.rows, e.corpus.artifacts)
        then None
        else Some(Publication(e.holdout.identity, counted.value, observed))
  }

  lemma RatesAreExact(t: Tally, total: nat)
    ensures SummaryOf(t, total).safeReviewRate <= 0.2 <==> Rate(t.safeReviewed, t.safe) <= MAX_SAFE_REVIEW_RATE
    ensures SummaryOf(t, total).allowRate <= 0.0 <==> Rate(t.allows, t.malicious) == 0
  {
  }

  /** What a gate's counts mean once its own summary has passed. */
  lemma CountedMeans(g: Gate, corpus: Corpus, mustBlock: bool)
    requires GatePasses(g) && Counts(g, corpus, mustBlock).Some?
    ensures var t := Counts(g, corpus, mustBlock).value;
            && t.safe + t.malicious == |corpus.artifacts| && t.safe == Labelled(corpus.artifacts, KnownSafe)
            && t.safeBlocks == 0 && t.detected == t.malicious
            && (mustBlock ==> t.blocked == t.malicious && t.allows == 0)
            && 20000 * t.safeReviewed <= 4001 * t.safe && (t.safe < 4000 ==> 5 * t.safeReviewed <= t.safe)
            && 20000 * t.allows <= t.malicious && (t.malicious < 20000 ==> t.allows == 0)
  {
    var t := Counts(g, corpus, mustBlock).value;
    AcceptedCounts(g.rows, corpus.artifacts, mustBlock);
    RatesAreExact(t, |corpus.artifacts|);
    AllowsAreMalicious(g.rows, Expected(corpus.artifacts), {}, mustBlock, NOTHING);
    if t.safe > 0 {
      ReviewCeiling(t.safeReviewed, t.safe);
    }
    if t.malicious > 0 {
      ZeroRate(t.allows, t.malicious);
    }
  }

  lemma {:induction false} AllowsAreMalicious(
    rows: seq<Row>, expected: map<Key, Artifact>, seen: set<Key>, mustBlock: bool, t: Tally)
    requires Walk(rows, expected, seen, mustBlock, t).Some? && t.allows <= t.malicious
    ensures var u := Walk(rows, expected, seen, mustBlock, t).value; u.allows <= u.malicious
    decreases |rows|
  {
    if rows != [] {
      var row := rows[0];
      AllowsAreMalicious(rows[1..], expected, seen + {row.key}, mustBlock, Counted(t, row, expected[row.key]));
    }
  }

  /** A publication stands on rows for exactly the frozen artifacts; no safe one is blocked
      and every malicious one is; and some rule fired. */
  lemma PublishedMeans(isSpace: char -> bool, e: Evidence)
    requires BuildPublication(isSpace, e).Some?
    ensures var p := BuildPublication(isSpace, e).value;
            && p.identity == e.regression.identity == e.holdout.identity
            && KeysDiffer(e.corpus.artifacts)
            && (forall a :: a in e.corpus.artifacts ==> HasRow(e.holdout.rows, a, true))
            && (forall row :: row in e.holdout.rows ==> HasArtifact(e.corpus.artifacts, row, true))
            && p.holdout.safe + p.holdout.malicious == |e.corpus.artifacts|
            && p.holdout.safe >= 5 && p.holdout.malicious >= 5
            && p.holdout.safeBlocks == 0 && p.holdout.blocked == p.holdout.malicious && p.holdout.allows == 0
            && 20000 * p.holdout.safeReviewed <= 4001 * p.holdout.safe
            && exists row :: row in e.holdout.rows && row.rules != []
  {
    CountedMeans(e.holdout, e.corpus, true);
    AcceptedCorresponds(e.holdout.rows, e.corpus.artifacts, true);
    var rule :| rule in RulesFired(e.holdout.rows);
  }

  /** The behaviour-only run stands on rows for the same artifacts and detects every malicious
      one; its rounding can hide an allowed one only among twenty thousand. */
  lemma BehaviorMeans(isSpace: char -> bool, e: Evidence)
    requires BuildPublication(isSpace, e).Some?
    ensures var p := BuildPublication(isSpace, e).value;
            && (p.behavior.Some? <==> e.behavior.Some?)
            && (e.behavior.Some? ==>
                  && e.behavior.value.identity == e.regression.identity
                  && (forall a :: a in e.corpus.artifacts ==> HasRow(e.behavior.value.rows, a, false))
                  && p.behavior.value.safe == p.holdout.safe && p.behavior.value.malicious == p.holdout.malicious
                  && p.behavior.value.detected == p.behavior.value.malicious && p.behavior.value.safeBlocks == 0
                  && 20000 * p.behavior.value.allows <= p.behavior.value.malicious)
  {
    if e.behavior.Some? {
      CountedMeans(e.holdout, e.corpus, true);
      CountedMeans(e.behavior.value, e.corpus, false);
      AcceptedCorresponds(e.behavior.value.rows, e.corpus.artifacts, false);
    }
  }

  /** An audit that was given is of the same artifacts: at most a fifth of the safe ones were
      reviewed, without rounding, and only a vulnerable dependency called for action. */
  lemma AuditMeans(isSpace: char -> bool, e: Evidence)
    requires BuildPublication(isSpace, e).Some? && e.audit.Some?
    ensures var p, audit := BuildPublication(isSpace, e).value, e.audit.value;
            && audit.build == p.identity.build
            && audit.safe == p.holdout.safe && audit.malicious == p.holdout.malicious
            && 5 * audit.safeReviewed <= p.holdout.safe && audit.safeBlocked == 0 && audit.missed == 0
            && forall o :: o in audit.observations && o.safeActionable > 0 ==>
                             o.rule == "vulnerable-npm-dependency" && o.evidence == {"dependency"}
  {
    CountedMeans(e.holdout, e.corpus, true);
    LabelsAddUp(e.corpus.artifacts);
  }

  lemma {:induction false} LabelsAddUp(corpus: seq<Artifact>)
    ensures Labelled(corpus, KnownSafe) + Labelled(corpus, KnownMalicious) == |corpus|
  {
    if corpus != [] {
      LabelsAddUp(corpus[..|corpus| - 1]);
    }
  }

  // ----- A rule is overcounted only where a row names it twice

  lemma {:induction false} FiredAtMostKeys(rows: seq<Row>, expected: map<Key, Artifact>, kind: Label, rule: string)
    requires RowKeysDiffer(rows) && forall row :: row in rows ==> Times(row.rules, rule) <= 1
    ensures FiredOn(rows, expected, kind, rule) <= |KeysWith(expected, kind, RowKeys(rows))|
    decreases |rows|
  {
    if rows != [] {
      assert rows == [rows[0]] + rows[1..];
      FiredAtMostKeys(rows[1..], expected, kind, rule);
      if rows[0].key in expected {
        FirstKeyWith(rows, expected, kind);
      } else {
        FirstKey(rows);
        assert KeysWith(expected, kind, RowKeys(rows)) == KeysWith(expected, kind, RowKeys(rows[1..]));
      }
    }
  }

  /** Accepted rows that name no rule twice never overcount one. */
  lemma FiredAtMostLabelled(rows: seq<Row>, corpus: seq<Artifact>, mustBlock: bool, kind: Label, rule: string)
    requires Validate(rows, corpus, mustBlock).Some? && forall row :: row in rows ==> Times(row.rules, rule) <= 1
    ensures FiredOn(rows, Expected(corpus), kind, rule) <= Labelled(corpus, kind)
  {
    AcceptedSameKeys(rows, corpus, mustBlock);
    FiredAtMostKeys(rows, Expected(corpus), kind, rule);
    LabelledCounts(corpus, kind);
  }

  // ----- What rounding lets through

  lemma RateOfAll(n: nat)
    requires n > 0
    ensures Rate(n, n) == 10000 && Rate(0, n) == 0
  {
    Quotient(20001 * n, 2 * n, 10000);
    Quotient(20001 * n, 2 * n, 9999);
    RateAtMost(0, n, 0);
  }

  function SampleKey(k: nat): Key {
    Key(seq(k + 1, _ => 'x'), "1.0.0")
  }

  /** Five safe artifacts and then malicious ones. */
  function SampleArtifact(k: nat): Artifact {
    Artifact(SampleKey(k), if k < 5 then KnownSafe else KnownMalicious, "00")
  }

  function SampleCorpus(malicious: nat): Corpus {
    Corpus("sample", "1", true, seq(5 + malicious, k requires k >= 0 => SampleArtifact(k)))
  }

  function SampleContract(required: bool): Contract {
    Contract("complete", Some(true), Some(required), if required then "completed" else "not-applicable",
             if required then "completed" else "", if required then "controlled-bubblewrap" else "policy-gated",
             "capability-gated-v1", Some(required), Some(required))
  }

  /** Malicious artifacts are blocked, but for so many that are allowed with a review verdict;
      one artifact has to be run. */
  function SampleRow(allowed: nat, k: nat): Row {
    var (verdict, decision) :=
      if k < 5 then (Clean, Allow) else if k < 5 + allowed then (Review, Allow) else (Malicious, Block);
    Row(SampleKey(k), Some(SampleArtifact(k).kind), true, true, true, true, true, Some(verdict), Some(decision),
        SampleContract(k == 0), "00", if k == 5 then ["rule"] else [])
  }

  function SampleRows(malicious: nat, allowed: nat): seq<Row> {
    seq(5 + malicious, k requires k >= 0 => SampleRow(allowed, k))
  }

  function Less(n: nat, m: nat): nat {
    if n < m then n else m
  }

  function Beyond(n: nat, m: nat): nat {
    if n < m then 0 else n - m
  }

  /** The counters after so many rows. */
  function SampleTally(allowed: nat, k: nat): Tally {
    Tally(k, Less(k, 5), 0, 0, Beyond(k, 5), Less(Beyond(k, 5), allowed), Beyond(k, 5 + allowed), 0, Beyond(k, 5),
          Less(k, 1), Beyond(k, 1))
  }

  function SampleGate(malicious: nat, allowed: nat): Gate {
    Gate(true, Identity(seq(40, _ => 'a'), "p", "r"), "sample", "1", true, true, true,
         SummaryOf(SampleTally(allowed, 5 + malicious), 5 + malicious), SampleRows(malicious, allowed))
  }

  lemma SampleKeysDiffer(j: nat, k: nat)
    requires j != k
    ensures SampleKey(j) != SampleKey(k)
  {
    assert |SampleKey(j).extensionId| != |SampleKey(k).extensionId|;
  }

  lemma SampleExpected(malicious: nat, k: nat)
    requires k < 5 + malicious
    ensures var expected := Expected(SampleCorpus(malicious).artifacts);
            SampleKey(k) in expected && expected[SampleKey(k)] == SampleArtifact(k)
  {
    var corpus := SampleCorpus(malicious).artifacts;
    forall i, j | 0 <= i < j < |corpus| ensures corpus[i].key != corpus[j].key {
      SampleKeysDiffer(i, j);
    }
    ExpectedSame(corpus);
    assert corpus[k] == SampleArtifact(k);
  }

  lemma SampleCounted(allowed: nat, k: nat, mustBlock: bool)
    requires mustBlock ==> allowed == 0
    ensures RowPasses(SampleRow(allowed, k), SampleArtifact(k), mustBlock)
    ensures Counted(SampleTally(allowed, k), SampleRow(allowed, k), SampleArtifact(k)) == SampleTally(allowed, k + 1)
  {
  }

  /** One row that passes, and the walk goes on. */
  lemma WalkAccepts(rows: seq<Row>, row: Row, artifact: Artifact, expected: map<Key, Artifact>, seen: set<Key>,
                    mustBlock: bool, t: Tally)
    requires rows != [] && rows[0] == row && row.key in expected && expected[row.key] == artifact
    requires row.key !in seen && RowPasses(row, artifact, mustBlock)
    ensures Walk(rows, expected, seen, mustBlock, t)
         == Walk(rows[1..], expected, seen + {row.key}, mustBlock, Counted(t, row, artifact))
  {
  }

  lemma SampleSeen(k: nat, seen: set<Key>)
    requires forall i: nat :: i >= k ==> SampleKey(i) !in seen
    ensures forall i: nat :: i >= k + 1 ==> SampleKey(i) !in seen + {SampleKey(k)}
  {
    forall i: nat | i >= k + 1 ensures SampleKey(i) !in seen + {SampleKey(k)} {
      SampleKeysDiffer(i, k);
    }
  }

  lemma {:induction false} SampleWalk(malicious: nat, allowed: nat, mustBlock: bool, k: nat, seen: set<Key>)
    requires k <= 5 + malicious && (mustBlock ==> allowed == 0)
    requires forall i: nat :: i >= k ==> SampleKey(i) !in seen
    ensures Walk(SampleRows(malicious, allowed)[k..], Expected(SampleCorpus(malicious).artifacts), seen, mustBlock,
                 SampleTally(allowed, k))
         == Some(SampleTally(allowed, 5 + malicious))
    decreases 5 + malicious - k
  {
    if k < 5 + malicious {
      var rows, expected := SampleRows(malicious, allowed)[k..], Expected(SampleCorpus(malicious).artifacts);
      assert rows[0] == SampleRow(allowed, k) && rows[1..] == SampleRows(malicious, allowed)[k + 1..];
      SampleExpected(malicious, k);
      SampleCounted(allowed, k, mustBlock);
      WalkAccepts(rows, SampleRow(allowed, k), SampleArtifact(k), expected, seen, mustBlock, SampleTally(allowed, k));
      SampleSeen(k, seen);
      SampleWalk(malicious, allowed, mustBlock, k + 1, seen + {SampleKey(k)});
    }
  }

  /** The rows are accepted, and say how many artifacts were allowed. */
  lemma SampleCounts(malicious: nat, allowed: nat, mustBlock: bool)
    requires mustBlock ==> allowed == 0
    ensures Validate(SampleRows(malicious, allowed), SampleCorpus(malicious).artifacts, mustBlock)
         == Some(SampleTally(allowed, 5 + malicious))
  {
    assert SampleRows(malicious, allowed)[0..] == SampleRows(malicious, allowed);
    SampleWalk(malicious, allowed, mustBlock, 0, {});
  }

  lemma SampleLabels(malicious: nat)
    ensures Labelled(SampleCorpus(malicious).artifacts, KnownSafe) == 5
    ensures Labelled(SampleCorpus(malicious).artifacts, KnownMalicious) == malicious
  {
    SampleCounts(malicious, 0, false);
    AcceptedCounts(SampleRows(malicious, 0), SampleCorpus(malicious).artifacts, false);
    LabelsAddUp(SampleCorpus(malicious).artifacts);
  }

  lemma SampleFired(malicious: nat, allowed: nat)
    requires malicious > 0
    ensures RulesFired(SampleRows(malicious, allowed)) == {"rule"}
  {
    var rows := SampleRows(malicious, allowed);
    assert 5 < |rows| && "rule" in rows[5].rules && "rule" != "" by {
      assert rows[5].rules[0] == "rule" && |"rule"| == 4;
    }
    assert forall i :: 0 <= i < |rows| ==> rows[i].rules == [] || rows[i].rules == ["rule"];
  }

  lemma OneRuleFits(isSpace: char -> bool, rows: seq<Row>, corpus: seq<Artifact>, rule: string)
    requires Validate(rows, corpus, false).Some? && RulesFired(rows) == {rule} && !IsBlank(isSpace, rule)
    requires forall row :: row in rows ==> Times(row.rules, rule) <= 1
    ensures MatrixFits(isSpace, rows, corpus)
  {
    FiredAtMostLabelled(rows, corpus, false, KnownSafe, rule);
    FiredAtMostLabelled(rows, corpus, false, KnownMalicious, rule);
    assert rule in RulesFired(rows);
  }

  lemma SampleRowsNameOnce(malicious: nat, allowed: nat)
    ensures forall row :: row in SampleRows(malicious, allowed) ==> Times(row.rules, "rule") <= 1
  {
    forall row | row in SampleRows(malicious, allowed) ensures Times(row.rules, "rule") <= 1 {
      assert row.rules == [] || row.rules == ["rule"];
    }
  }

  lemma SampleMatrix(isSpace: char -> bool, malicious: nat, allowed: nat)
    requires malicious > 0 && !isSpace('r')
    ensures MatrixFits(isSpace, SampleRows(malicious, allowed), SampleCorpus(malicious).artifacts)
  {
    SampleCounts(malicious, allowed, false);
    SampleFired(malicious, allowed);
    SampleRowsNameOnce(malicious, allowed);
    assert !isSpace("rule"[0]);
    OneRuleFits(isSpace, SampleRows(malicious, allowed), SampleCorpus(malicious).artifacts, "rule");
  }

  /** A gate that states these counts passes exactly if its rate of allowed ones is zero. */
  lemma SamplePasses(malicious: nat, allowed: nat)
    requires 5 <= malicious && allowed <= malicious
    ensures GatePasses(SampleGate(malicious, allowed)) <==> 20000 * allowed <= malicious
  {
    RateOfAll(5 + malicious);
    RateOfAll(5);
    ZeroRate(allowed, malicious);
    RatesAreExact(SampleTally(allowed, 5 + malicious), 5 + malicious);
  }

  lemma SampleFits(malicious: nat)
    requires 5 <= malicious
    ensures HoldoutFits(SampleGate(malicious, 0), SampleCorpus(malicious))
  {
    SamplePasses(malicious, 0);
    SampleLabels(malicious);
  }

  lemma SampleHoldout(isSpace: char -> bool, malicious: nat)
    requires 5 <= malicious && !isSpace('r')
    ensures var gate, corpus := SampleGate(malicious, 0), SampleCorpus(malicious);
            GatePasses(gate) && HoldoutFits(gate, corpus) && Counts(gate, corpus, true).Some?
            && MatrixFits(isSpace, gate.rows, corpus.artifacts)
  {
    SamplePasses(malicious, 0);
    SampleFits(malicious);
    SampleCounts(malicious, 0, true);
    SampleMatrix(isSpace, malicious, 0);
  }

  lemma SampleBehavior(malicious: nat, allowed: nat)
    requires 5 <= malicious && allowed <= malicious
    ensures var gate, corpus := SampleGate(malicious, allowed), SampleCorpus(malicious);
            BehaviorFits(gate, corpus, gate.identity) <==> 20000 * allowed <= malicious
  {
    SamplePasses(malicious, allowed);
  }

  lemma SampleSummary(malicious: nat, allowed: nat)
    ensures Counts(SampleGate(malicious, allowed), SampleCorpus(malicious), false)
         == Some(SampleTally(allowed, 5 + malicious))
  {
    SampleCounts(malicious, allowed, false);
    assert |SampleCorpus(malicious).artifacts| == 5 + malicious;
  }

  /** The publication goes out with a behaviour-only run that allowed malicious artifacts,
      under a review verdict, exactly as long as their rate rounds to nothing: one among
      twenty thousand. */
  lemma AllowedByRounding(isSpace: char -> bool, malicious: nat, allowed: nat)
    requires 5 <= malicious && allowed <= malicious && !isSpace('r')
    ensures var corpus, rows := SampleCorpus(malicious), SampleRows(malicious, allowed);
            var e := Evidence(SampleGate(malicious, 0), SampleGate(malicious, 0), corpus,
                              Some(SampleGate(malicious, allowed)), None);
            && Validate(rows, corpus.artifacts, false).Some?
            && Validate(rows, corpus.artifacts, false).value.allows == allowed
            && (BuildPublication(isSpace, e).Some? <==> 20000 * allowed <= malicious)
  {
    SampleHoldout(isSpace, malicious);
    SampleCounts(malicious, allowed, false);
    SampleSummary(malicious, allowed);
    SampleBehavior(malicious, allowed);
    SampleMatrix(isSpace, malicious, allowed);
  }
}
