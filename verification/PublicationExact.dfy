/**
 When a publication goes out, said of the rows, the corpus and the audit themselves: which rows
 a holdout has to have, what its summary has to state of them, and what else is asked.
 */
module PublicationExact {
  import opened Options
  import opened AccuracyGate

  // ----- Rows

  /** An artifact that needs running was run under control and traced, and for any other that is
      said. */
  ghost predicate RanAsRequired(c: Contract) {
    && c.coverageStatus == "complete" && c.providersComplete == Some(true) && c.policy == "capability-gated-v1"
    && match c.required
       case None => false
       case Some(true) =>
         && c.executed == Some(true) && c.syscallTrace == Some(true)
         && c.providerStatus == "completed" && c.runStatus == "completed" && c.execution == "controlled-bubblewrap"
       case Some(false) =>
         && c.executed == Some(false) && c.syscallTrace == Some(false)
         && c.providerStatus == "not-applicable" && c.execution == "policy-gated"
  }

  /** What may be decided of a safe artifact, and of a malicious one with and without advisories. */
  ghost predicate IsRouted(row: Row, kind: Label, mustBlock: bool) {
    if row.verdict.None? || row.decision.None? then false
    else
      var verdict, decision := row.verdict.value, row.decision.value;
      match kind
      case KnownSafe => !verdict.Malicious? && !decision.Block?
      case KnownMalicious =>
        if mustBlock then decision.Block? && (verdict.Suspicious? || verdict.Malicious?)
        else verdict.Review? || verdict.Suspicious? || verdict.Malicious?
  }

  ghost predicate Passes(row: Row, a: Artifact, mustBlock: bool) {
    && row.kind == Some(a.kind) && row.sha256 == a.sha256
    && row.required && row.scanned && row.passed && row.gatePassed && row.complete
    && RanAsRequired(row.contract) && IsRouted(row, a.kind, mustBlock)
  }

  lemma PassesExact(row: Row, a: Artifact, mustBlock: bool)
    ensures RowPasses(row, a, mustBlock) <==> Passes(row, a, mustBlock)
  {
  }

  ghost predicate PassesOne(row: Row, artifacts: seq<Artifact>, mustBlock: bool) {
    exists i :: 0 <= i < |artifacts| && artifacts[i].key == row.key && Passes(row, artifacts[i], mustBlock)
  }

  /** As many rows as artifacts, of different keys, each passing for an artifact of its key. */
  ghost predicate RowsFit(rows: seq<Row>, artifacts: seq<Artifact>, mustBlock: bool) {
    && |rows| == |artifacts|
    && (forall i, j :: 0 <= i < j < |rows| ==> rows[i].key != rows[j].key)
    && (forall i, j :: 0 <= i < j < |artifacts| ==> artifacts[i].key != artifacts[j].key)
    && forall i :: 0 <= i < |rows| ==> PassesOne(rows[i], artifacts, mustBlock)
  }

  lemma PassesItsArtifact(row: Row, artifacts: seq<Artifact>, mustBlock: bool)
    requires KeysDiffer(artifacts)
    ensures PassesOne(row, artifacts, mustBlock)
       <==> row.key in Expected(artifacts) && RowPasses(row, Expected(artifacts)[row.key], mustBlock)
  {
    ExpectedSame(artifacts);
    if i :| 0 <= i < |artifacts| && artifacts[i].key == row.key && Passes(row, artifacts[i], mustBlock) {
      PassesExact(row, artifacts[i], mustBlock);
    }
    if row.key in Expected(artifacts) {
      PassesExact(row, Expected(artifacts)[row.key], mustBlock);
      var i :| 0 <= i < |artifacts| && artifacts[i].key == row.key;
      assert Expected(artifacts)[row.key] == artifacts[i];
    }
  }

  /** These are the rows that are accepted. */
  lemma AcceptedExact(rows: seq<Row>, artifacts: seq<Artifact>, mustBlock: bool)
    ensures Validate(rows, artifacts, mustBlock).Some? <==> RowsFit(rows, artifacts, mustBlock)
  {
    ValidateExact(rows, artifacts, mustBlock);
    if Validate(rows, artifacts, mustBlock).Some? {
      AcceptedCorresponds(rows, artifacts, mustBlock);
    }
    if KeysDiffer(artifacts) {
      forall i | 0 <= i < |rows|
        ensures PassesOne(rows[i], artifacts, mustBlock)
           <==> rows[i].key in Expected(artifacts) && RowPasses(rows[i], Expected(artifacts)[rows[i].key], mustBlock)
      {
        PassesItsArtifact(rows[i], artifacts, mustBlock);
      }
    }
  }

  // ----- Counters

  /** How many rows there are of a sort. */
  ghost function Many(rows: seq<Row>, sort: Row -> bool): nat {
    if rows == [] then 0 else (if sort(rows[0]) then 1 else 0) + Many(rows[1..], sort)
  }

  ghost predicate IsSafe(row: Row) {
    row.kind == Some(KnownSafe)
  }

  ghost predicate IsMalicious(row: Row) {
    row.kind == Some(KnownMalicious)
  }

  /** A safe artifact that was neither allowed nor found clean, or only one of the two. */
  ghost predicate IsSafeInReview(row: Row) {
    IsSafe(row) && !(row.decision == Some(Allow) && row.verdict == Some(Clean))
  }

  ghost predicate IsAllowed(row: Row) {
    IsMalicious(row) && row.decision == Some(Allow)
  }

  ghost predicate IsBlocked(row: Row) {
    IsMalicious(row) && row.decision == Some(Block)
  }

  ghost predicate IsInReview(row: Row) {
    IsMalicious(row) && row.decision == Some(ToReview)
  }

  ghost predicate IsRun(row: Row) {
    row.contract.required == Some(true)
  }

  ghost predicate IsNotRun(row: Row) {
    row.contract.required == Some(false)
  }

  /** The counters of rows that were accepted; every malicious artifact was detected, and no safe
      one blocked. */
  ghost predicate IsTallyOf(t: Tally, rows: seq<Row>) {
    && t.passed == |rows|
    && t.safe == Many(rows, IsSafe) && t.safeReviewed == Many(rows, IsSafeInReview) && t.safeBlocks == 0
    && t.malicious == t.detected == Many(rows, IsMalicious)
    && t.allows == Many(rows, IsAllowed) && t.blocked == Many(rows, IsBlocked)
    && t.reviewed == Many(rows, IsInReview)
    && t.dynamicRequired == Many(rows, IsRun) && t.dynamicNotApplicable == Many(rows, IsNotRun)
  }

  lemma CountedExact(t: Tally, row: Row, a: Artifact, mustBlock: bool)
    requires RowPasses(row, a, mustBlock)
    ensures var u := Counted(t, row, a);
            && u.passed == t.passed + 1
            && u.safe == t.safe + (if IsSafe(row) then 1 else 0)
            && u.safeReviewed == t.safeReviewed + (if IsSafeInReview(row) then 1 else 0)
            && u.safeBlocks == t.safeBlocks
            && u.malicious == t.malicious + (if IsMalicious(row) then 1 else 0)
            && u.detected == t.detected + (if IsMalicious(row) then 1 else 0)
            && u.allows == t.allows + (if IsAllowed(row) then 1 else 0)
            && u.blocked == t.blocked + (if IsBlocked(row) then 1 else 0)
            && u.reviewed == t.reviewed + (if IsInReview(row) then 1 else 0)
            && u.dynamicRequired == t.dynamicRequired + (if IsRun(row) then 1 else 0)
            && u.dynamicNotApplicable == t.dynamicNotApplicable + (if IsNotRun(row) then 1 else 0)
  {
    var verdict, decision := row.verdict.value, row.decision.value;
    assert verdict.Clean? || verdict.Review? || verdict.Suspicious? || verdict.Malicious?;
    assert decision.Allow? || decision.ToReview? || decision.Block?;
  }

  /** What a tally has grown by. */
  ghost predicate Grown(t: Tally, u: Tally, rows: seq<Row>) {
    && u.passed == t.passed + |rows|
    && u.safe == t.safe + Many(rows, IsSafe) && u.safeReviewed == t.safeReviewed + Many(rows, IsSafeInReview)
    && u.safeBlocks == t.safeBlocks
    && u.malicious == t.malicious + Many(rows, IsMalicious) && u.detected == t.detected + Many(rows, IsMalicious)
    && u.allows == t.allows + Many(rows, IsAllowed) && u.blocked == t.blocked + Many(rows, IsBlocked)
    && u.reviewed == t.reviewed + Many(rows, IsInReview)
    && u.dynamicRequired == t.dynamicRequired + Many(rows, IsRun)
    && u.dynamicNotApplicable == t.dynamicNotApplicable + Many(rows, IsNotRun)
  }

  lemma {:induction false} WalkGrows(
    rows: seq<Row>, expected: map<Key, Artifact>, seen: set<Key>, mustBlock: bool, t: Tally)
    requires Walk(rows, expected, seen, mustBlock, t).Some?
    ensures Grown(t, Walk(rows, expected, seen, mustBlock, t).value, rows)
    decreases |rows|
  {
    if rows != [] {
      var row, a := rows[0], expected[rows[0].key];
      CountedExact(t, row, a, mustBlock);
      WalkGrows(rows[1..], expected, seen + {row.key}, mustBlock, Counted(t, row, a));
    }
  }

  lemma TallyExact(rows: seq<Row>, artifacts: seq<Artifact>, mustBlock: bool)
    requires Validate(rows, artifacts, mustBlock).Some?
    ensures IsTallyOf(Validate(rows, artifacts, mustBlock).value, rows)
  {
    WalkGrows(rows, Expected(artifacts), {}, mustBlock, NOTHING);
  }

  // ----- What a summary states

  /** `q` ten-thousandths are nearest to `part / whole`, and of two that are equally near `q` is
      the even one; nothing of nothing is zero. */
  ghost predicate IsNearest(q: int, part: int, whole: int) {
    if whole == 0 then q == 0
    else
      var excess := 20000 * part - 2 * (whole * q);
      -whole <= excess <= whole && (excess == whole || excess == -whole ==> q % 2 == 0)
  }

  ghost predicate IsRounded(rate: real, part: nat, whole: nat) {
    exists q: nat :: IsNearest(q, part, whole) && rate == q as real / 10000.0
  }

  lemma OneLess(whole: int, q: int)
    ensures whole * (q - 1) == whole * q - whole && 2 * whole * q == 2 * (whole * q)
  {
  }

  lemma RoundedIsNearest(q: int, rest: int, part: int, whole: int)
    requires whole > 0 && 20000 * part + whole == 2 * (whole * q) + rest && 0 <= rest < 2 * whole
    ensures IsNearest(if rest == 0 && q % 2 == 1 then q - 1 else q, part, whole)
  {
    OneLess(whole, q);
  }

  lemma RateNearest(part: nat, whole: nat)
    ensures IsNearest(Rate(part, whole), part, whole)
  {
    if whole > 0 {
      var n, d := 20000 * part + whole, 2 * whole;
      assert n == d * (n / d) + n % d;
      OneLess(whole, n / d);
      RoundedIsNearest(n / d, n % d, part, whole);
    }
  }

  lemma NearestOnce(q: nat, r: nat, part: nat, whole: nat)
    requires IsNearest(q, part, whole) && IsNearest(r, part, whole)
    ensures q == r
  {
    if q < r {
      NotBothNearest(q, r, part, whole);
    } else if r < q {
      NotBothNearest(r, q, part, whole);
    }
  }

  lemma NotBothNearest(q: nat, r: nat, part: nat, whole: nat)
    requires q < r
    ensures !(IsNearest(q, part, whole) && IsNearest(r, part, whole))
  {
    Monotone(whole, q, r);
    if r > q + 1 {
      Monotone(whole, q + 1, r);
      OneLess(whole, q + 1);
    }
  }

  lemma RateExact(rate: real, part: nat, whole: nat)
    ensures rate == AsRate(part, whole) <==> IsRounded(rate, part, whole)
  {
    RateNearest(part, whole);
    if q: nat :| IsNearest(q, part, whole) && rate == q as real / 10000.0 {
      NearestOnce(q, Rate(part, whole), part, whole);
    }
  }

  /** A summary that states the counts of the rows, every row being required, scanned and
      passed. */
  ghost predicate StatesCounts(s: Summary, rows: seq<Row>) {
    && s.total == s.scanned == s.required == |rows|
    && s.requiredFailed == s.incompleteRequired == s.notScanned == 0
    && IsTallyOf(s.tally, rows)
    && s.passRate == (if rows == [] then 0.0 else 1.0) && s.safeBlockRate == 0.0
    && IsRounded(s.safeReviewRate, Many(rows, IsSafeInReview), Many(rows, IsSafe))
    && IsRounded(s.allowRate, Many(rows, IsAllowed), Many(rows, IsMalicious))
    && IsRounded(s.blockRate, Many(rows, IsBlocked), Many(rows, IsMalicious))
    && IsRounded(s.reviewRate, Many(rows, IsInReview), Many(rows, IsMalicious))
    && s.detectionRate == if Many(rows, IsMalicious) == 0 then 0.0 else 1.0
  }

  lemma WholeRates(n: nat)
    ensures AsRate(n, n) == (if n == 0 then 0.0 else 1.0) && AsRate(0, n) == 0.0
  {
    if n > 0 {
      RateOfAll(n);
    }
  }

  lemma SummaryExact(s: Summary, t: Tally, rows: seq<Row>)
    requires IsTallyOf(t, rows)
    ensures s == SummaryOf(t, |rows|) <==> StatesCounts(s, rows)
  {
    WholeRates(|rows|);
    WholeRates(t.malicious);
    WholeRates(t.safe);
    RateExact(s.safeReviewRate, t.safeReviewed, t.safe);
    RateExact(s.allowRate, t.allows, t.malicious);
    RateExact(s.blockRate, t.blocked, t.malicious);
    RateExact(s.reviewRate, t.reviewed, t.malicious);
  }

  /** The counts of a gate are taken exactly when its rows fit and its summary states them. */
  lemma CountsExact(g: Gate, corpus: Corpus, mustBlock: bool)
    ensures Counts(g, corpus, mustBlock).Some?
       <==> RowsFit(g.rows, corpus.artifacts, mustBlock) && StatesCounts(g.summary, g.rows)
    ensures Counts(g, corpus, mustBlock).Some? ==> IsTallyOf(Counts(g, corpus, mustBlock).value, g.rows)
  {
    AcceptedExact(g.rows, corpus.artifacts, mustBlock);
    if Validate(g.rows, corpus.artifacts, mustBlock).Some? {
      var t := Validate(g.rows, corpus.artifacts, mustBlock).value;
      TallyExact(g.rows, corpus.artifacts, mustBlock);
      SummaryExact(g.summary, t, g.rows);
    }
  }

  // ----- The rules that fired

  /** How often a rule is named in the rows of one label. */
  ghost function Fired(rows: seq<Row>, kind: Label, rule: string): nat {
    if rows == [] then 0
    else (if rows[0].kind == Some(kind) then multiset(rows[0].rules)[rule] else 0) + Fired(rows[1..], kind, rule)
  }

  ghost predicate Names(rows: seq<Row>, rule: string) {
    rule != "" && exists i :: 0 <= i < |rows| && rule in rows[i].rules
  }

  ghost predicate HasInk(isSpace: char -> bool, s: string) {
    exists i :: 0 <= i < |s| && !isSpace(s[i])
  }

  /** Some rule is named; each is more than white space, and named no more often in the rows of a
      label than there are such rows. */
  ghost predicate RulesFit(isSpace: char -> bool, rows: seq<Row>) {
    && (exists rule :: Names(rows, rule))
    && forall rule :: Names(rows, rule) ==>
                        && HasInk(isSpace, rule)
                        && Fired(rows, KnownSafe, rule) <= Many(rows, IsSafe)
                        && Fired(rows, KnownMalicious, rule) <= Many(rows, IsMalicious)
  }

  lemma {:induction false} TimesExact(rules: seq<string>, rule: string)
    ensures Times(rules, rule) == multiset(rules)[rule]
  {
    if rules != [] {
      TimesExact(rules[1..], rule);
      assert rules == [rules[0]] + rules[1..];
    }
  }

  lemma {:induction false} FiredExact(rows: seq<Row>, expected: map<Key, Artifact>, kind: Label, rule: string)
    requires forall i :: 0 <= i < |rows| ==>
                           rows[i].key in expected && rows[i].kind == Some(expected[rows[i].key].kind)
    ensures FiredOn(rows, expected, kind, rule) == Fired(rows, kind, rule)
    decreases |rows|
  {
    if rows != [] {
      TimesExact(rows[0].rules, rule);
      assert forall i :: 0 <= i < |rows[1..]| ==> rows[1..][i] == rows[i + 1];
      FiredExact(rows[1..], expected, kind, rule);
    }
  }

  lemma NamesExact(rows: seq<Row>, rule: string)
    ensures rule in RulesFired(rows) <==> Names(rows, rule)
  {
  }

  /** The labels of the rows are those of the artifacts. */
  lemma LabelsExact(rows: seq<Row>, artifacts: seq<Artifact>, mustBlock: bool)
    requires Validate(rows, artifacts, mustBlock).Some?
    ensures LabelCount(artifacts, KnownSafe) == Many(rows, IsSafe)
    ensures LabelCount(artifacts, KnownMalicious) == Many(rows, IsMalicious)
    ensures Many(rows, IsSafe) + Many(rows, IsMalicious) == |artifacts| == |rows|
  {
    AcceptedCounts(rows, artifacts, mustBlock);
    TallyExact(rows, artifacts, mustBlock);
    LabelsAddUp(artifacts);
  }

  lemma RowsHaveKinds(rows: seq<Row>, artifacts: seq<Artifact>, mustBlock: bool)
    requires Validate(rows, artifacts, mustBlock).Some?
    ensures forall i :: 0 <= i < |rows| ==>
                          && rows[i].key in Expected(artifacts)
                          && rows[i].kind == Some(Expected(artifacts)[rows[i].key].kind)
  {
    ValidateExact(rows, artifacts, mustBlock);
  }

  lemma RuleExact(isSpace: char -> bool, rows: seq<Row>, artifacts: seq<Artifact>, mustBlock: bool, rule: string)
    requires Validate(rows, artifacts, mustBlock).Some?
    ensures rule in RulesFired(rows) <==> Names(rows, rule)
    ensures IsBlank(isSpace, rule) <==> !HasInk(isSpace, rule)
    ensures FiredOn(rows, Expected(artifacts), KnownSafe, rule) == Fired(rows, KnownSafe, rule)
    ensures FiredOn(rows, Expected(artifacts), KnownMalicious, rule) == Fired(rows, KnownMalicious, rule)
  {
    NamesExact(rows, rule);
    RowsHaveKinds(rows, artifacts, mustBlock);
    FiredExact(rows, Expected(artifacts), KnownSafe, rule);
    FiredExact(rows, Expected(artifacts), KnownMalicious, rule);
  }

  lemma MatrixExact(isSpace: char -> bool, rows: seq<Row>, artifacts: seq<Artifact>, mustBlock: bool)
    requires Validate(rows, artifacts, mustBlock).Some?
    ensures MatrixFits(isSpace, rows, artifacts) <==> RulesFit(isSpace, rows)
  {
    LabelsExact(rows, artifacts, mustBlock);
    forall rule: string
      ensures rule in RulesFired(rows) <==> Names(rows, rule)
      ensures IsBlank(isSpace, rule) <==> !HasInk(isSpace, rule)
      ensures FiredOn(rows, Expected(artifacts), KnownSafe, rule) == Fired(rows, KnownSafe, rule)
      ensures FiredOn(rows, Expected(artifacts), KnownMalicious, rule) == Fired(rows, KnownMalicious, rule)
    {
      RuleExact(isSpace, rows, artifacts, mustBlock, rule);
    }
    assert RulesFired(rows) != {} <==> exists rule :: rule in RulesFired(rows);
  }

  // ----- Gates and the audit

  /** A full build: forty digits of base 16, small or capital. */
  ghost predicate IsFullBuild(s: string) {
    |s| == 40 && forall i :: 0 <= i < 40 ==> s[i] in "0123456789abcdefABCDEF"
  }

  /** What a gate says of itself: all that it requires passed, no safe artifact was blocked, no
      malicious one allowed, and at most a fifth of the safe ones were reviewed. */
  ghost predicate PassesByItself(g: Gate) {
    var s := g.summary;
    && g.checked && IsFullBuild(g.identity.build)
    && s.required > 0 && s.tally.passed == s.required && s.requiredFailed == 0 && s.incompleteRequired == 0
    && s.passRate == 1.0 && s.safeBlockRate == 0.0 && s.allowRate == 0.0 && 0.0 <= s.safeReviewRate <= 0.2
  }

  lemma DigitExact(c: char)
    ensures '0' <= c <= '9' || 'a' <= c <= 'f' || 'A' <= c <= 'F' <==> c in "0123456789abcdefABCDEF"
  {
  }

  lemma BuildExact(s: string)
    ensures IsBuild(s) <==> IsFullBuild(s)
  {
    forall c: char ensures '0' <= c <= '9' || 'a' <= c <= 'f' || 'A' <= c <= 'F' <==> c in "0123456789abcdefABCDEF" {
      DigitExact(c);
    }
  }

  lemma GateExact(g: Gate)
    ensures GatePasses(g) <==> PassesByItself(g)
  {
    BuildExact(g.identity.build);
  }

  /** A gate that ran deep, with system calls traced, on the frozen corpus. */
  ghost predicate IsOf(g: Gate, corpus: Corpus) {
    g.traced && g.corpusId == corpus.id && g.corpusVersion == corpus.version
  }

  /** The audit is of the same build and labels; it found no safe artifact blocked, no malicious
      one missed and at most a fifth of the safe ones reviewed; and only a vulnerable dependency
      called for action on a safe one. */
  ghost predicate AuditIs(isSpace: char -> bool, audit: Audit, build: string, safe: nat, malicious: nat) {
    && audit.checked && audit.build == build && audit.labelled == safe + malicious
    && audit.safe == safe && audit.malicious == malicious
    && audit.safeBlocked == 0 && audit.missed == 0 && 5 * audit.safeReviewed <= safe
    && |audit.observations| > 0
    && forall o :: o in audit.observations ==>
                     && HasInk(isSpace, o.rule) && o.safe <= safe && o.malicious <= malicious
                     && o.safeActionable <= o.safe && o.safeBlocks == 0
                     && (o.safeActionable == 0
                         || (o.rule == "vulnerable-npm-dependency" && o.evidence == {"dependency"}))
  }

  lemma AuditExact(isSpace: char -> bool, audit: Audit, build: string, rows: seq<Row>, artifacts: seq<Artifact>)
    requires Validate(rows, artifacts, true).Some?
    ensures AuditFits(isSpace, audit, build, artifacts)
       <==> AuditIs(isSpace, audit, build, Many(rows, IsSafe), Many(rows, IsMalicious))
  {
    LabelsExact(rows, artifacts, true);
    forall s: string ensures IsBlank(isSpace, s) <==> !HasInk(isSpace, s) {
    }
  }

  // ----- The publication

  /** Rows for every frozen artifact, counted rightly, with at least five of each label and both
      artifacts that had to be run and artifacts that had not. */
  ghost predicate HoldoutIs(isSpace: char -> bool, g: Gate, corpus: Corpus) {
    && PassesByItself(g) && IsOf(g, corpus)
    && RowsFit(g.rows, corpus.artifacts, true) && StatesCounts(g.summary, g.rows)
    && Many(g.rows, IsSafe) >= 5 && Many(g.rows, IsMalicious) >= 5
    && Many(g.rows, IsRun) >= 1 && Many(g.rows, IsNotRun) >= 1
    && RulesFit(isSpace, g.rows)
  }

  /** The same of a run without advisories, which need not block. */
  ghost predicate BehaviorIs(isSpace: char -> bool, g: Gate, corpus: Corpus) {
    && PassesByItself(g) && IsOf(g, corpus) && g.behaviorOnly && g.emptySnapshot
    && RowsFit(g.rows, corpus.artifacts, false) && StatesCounts(g.summary, g.rows)
    && RulesFit(isSpace, g.rows)
  }

  ghost predicate Publishable(isSpace: char -> bool, e: Evidence) {
    && PassesByItself(e.regression) && e.corpus.sound
    && e.holdout.identity == e.regression.identity && HoldoutIs(isSpace, e.holdout, e.corpus)
    && (e.audit.Some? ==> AuditIs(isSpace, e.audit.value, e.regression.identity.build,
                                  Many(e.holdout.rows, IsSafe), Many(e.holdout.rows, IsMalicious)))
    && (e.behavior.Some? ==>
          e.behavior.value.identity == e.regression.identity && BehaviorIs(isSpace, e.behavior.value, e.corpus))
  }

  lemma GivenAuditExact(isSpace: char -> bool, e: Evidence)
    requires HoldoutIs(isSpace, e.holdout, e.corpus) && e.audit.Some?
    ensures AuditFits(isSpace, e.audit.value, e.regression.identity.build, e.corpus.artifacts)
       <==> AuditIs(isSpace, e.audit.value, e.regression.identity.build,
                    Many(e.holdout.rows, IsSafe), Many(e.holdout.rows, IsMalicious))
  {
    AcceptedExact(e.holdout.rows, e.corpus.artifacts, true);
    AuditExact(isSpace, e.audit.value, e.regression.identity.build, e.holdout.rows, e.corpus.artifacts);
  }

  /** The same evidence without the behaviour-only run. */
  lemma PrimaryExact(isSpace: char -> bool, e: Evidence)
    ensures var primary := e.(behavior := None);
            && (BuildPublication(isSpace, primary).Some? <==> Publishable(isSpace, primary))
            && (Publishable(isSpace, primary) ==>
                  BuildPublication(isSpace, primary).value.identity == e.regression.identity)
  {
    GateExact(e.regression);
    HoldoutExact(isSpace, e.holdout, e.corpus);
    if HoldoutIs(isSpace, e.holdout, e.corpus) && e.audit.Some? {
      GivenAuditExact(isSpace, e);
    }
  }

  lemma PrimaryFirst(isSpace: char -> bool, e: Evidence)
    ensures var primary, p := BuildPublication(isSpace, e.(behavior := None)), BuildPublication(isSpace, e);
            && (p.Some? <==>
                && primary.Some?
                && (e.behavior.Some? ==>
                      && BehaviorFits(e.behavior.value, e.corpus, e.regression.identity)
                      && Counts(e.behavior.value, e.corpus, false).Some?
                      && MatrixFits(isSpace, e.behavior.value.rows, e.corpus.artifacts)))
            && (p.Some? ==>
                  && p.value.identity == primary.value.identity
                  && Some(p.value.holdout) == Counts(e.holdout, e.corpus, true)
                  && p.value.behavior
                     == if e.behavior.None? then None else Counts(e.behavior.value, e.corpus, false))
  {
  }

  lemma HoldoutExact(isSpace: char -> bool, g: Gate, corpus: Corpus)
    ensures GatePasses(g) && HoldoutFits(g, corpus) && Counts(g, corpus, true).Some?
            && MatrixFits(isSpace, g.rows, corpus.artifacts)
       <==> HoldoutIs(isSpace, g, corpus)
  {
    GateExact(g);
    CountsExact(g, corpus, true);
    if Counts(g, corpus, true).Some? {
      LabelsExact(g.rows, corpus.artifacts, true);
      MatrixExact(isSpace, g.rows, corpus.artifacts, true);
    }
  }

  lemma BehaviorExact(isSpace: char -> bool, g: Gate, corpus: Corpus, identity: Identity)
    ensures BehaviorFits(g, corpus, identity) && Counts(g, corpus, false).Some?
            && MatrixFits(isSpace, g.rows, corpus.artifacts)
       <==> g.identity == identity && BehaviorIs(isSpace, g, corpus)
  {
    GateExact(g);
    CountsExact(g, corpus, false);
    if Counts(g, corpus, false).Some? {
      MatrixExact(isSpace, g.rows, corpus.artifacts, false);
    }
  }

  /** Exactly this evidence is published, under the regression's identity and with the counts of
      the rows. */
  lemma PublishedExact(isSpace: char -> bool, e: Evidence)
    ensures BuildPublication(isSpace, e).Some? <==> Publishable(isSpace, e)
    ensures Publishable(isSpace, e) ==>
              var p := BuildPublication(isSpace, e).value;
              && p.identity == e.regression.identity && IsTallyOf(p.holdout, e.holdout.rows)
              && (p.behavior.Some? <==> e.behavior.Some?)
              && (e.behavior.Some? ==> IsTallyOf(p.behavior.value, e.behavior.value.rows))
  {
    PrimaryExact(isSpace, e);
    PrimaryFirst(isSpace, e);
    CountsExact(e.holdout, e.corpus, true);
    if e.behavior.Some? {
      BehaviorExact(isSpace, e.behavior.value, e.corpus, e.regression.identity);
      CountsExact(e.behavior.value, e.corpus, false);
    }
  }
}
