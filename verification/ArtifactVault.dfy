/**
 The content-addressed artifact vault and its catalog: the store as one process uses it,
 and any number of processes using it at once, stopping anywhere.

 SHA-256 is taken to be injective.  A directory entry is a regular file or something else.
 */
module ArtifactVault {
  import opened Options

  type Bytes = seq<bv8>

  datatype Digest = Sha256(preimage: Bytes)

  datatype Entry = File(bytes: Bytes) | NotAFile

  /** What is preserved, as its registry names it. */
  datatype Names = Names(extensionId: string, version: string, registry: string, platform: string)

  datatype Observation = Observation(names: Names, digest: Digest)

  datatype Seen = Seen(first: nat, last: nat)

  /** A row of the artifact table; the storage key of an object is its digest. */
  datatype Artifact = Artifact(size: nat, key: Digest, seen: Seen)

  datatype Catalog = Catalog(artifacts: map<Digest, Artifact>, observations: map<Observation, Seen>)

  // ----- Steps

  /** An existing object is used only if it is a regular file with the expected content. */
  predicate Verifies(objects: map<Digest, Entry>, digest: Digest, size: nat) {
    && digest in objects && objects[digest].File?
    && |objects[digest].bytes| == size && Sha256(objects[digest].bytes) == digest
  }

  function SeenAgain(before: Option<Seen>, now: nat): Seen {
    if before.Some? then before.value.(last := now) else Seen(now, now)
  }

  /** The two upserts of a call, in one transaction. */
  function Record(c: Catalog, names: Names, digest: Digest, size: nat, now: nat): Catalog {
    var o := Observation(names, digest);
    var row :=
      if digest in c.artifacts then c.artifacts[digest].(seen := SeenAgain(Some(c.artifacts[digest].seen), now))
      else Artifact(size, digest, SeenAgain(None, now));
    Catalog(c.artifacts[digest := row],
            c.observations[o := SeenAgain(if o in c.observations then Some(c.observations[o]) else None, now)])
  }

  /** A link never replaces what is there. */
  function Linked(objects: map<Digest, Entry>, digest: Digest, bytes: Bytes): map<Digest, Entry> {
    if digest in objects then objects else objects[digest := File(bytes)]
  }

  // ----- One process

  datatype Source = Missing | Chunks(chunks: seq<Bytes>)

  datatype Error =
    | InvalidPlatform | InvalidIdentity | InvalidRegistry | InvalidSource | Empty | NotRegular | Tampered

  datatype Outcome = Stored(digest: Digest, size: nat, names: Names, seen: Seen) | Refused(error: Error)

  function Joined(chunks: seq<Bytes>): Bytes {
    if chunks == [] then [] else chunks[0] + Joined(chunks[1..])
  }

  /** How a name is cleaned up, and which names are in order. */
  datatype Rules = Rules(strip: string -> string, lower: string -> string, isPlatform: string -> bool)

  const SCHEMA_VERSION := 1

  const REGISTRIES := {"vs-marketplace", "openvsx"}

  predicate IsIdentity(value: string, maximum: nat) {
    value != "" && |value| <= maximum && forall i :: 0 <= i < |value| ==> value[i] >= ' ' && value[i] != 127 as char
  }

  /** The names a call is recorded under, or why they are refused. */
  function Cleaned(rules: Rules, raw: Names): (Names, Option<Error>) {
    var platform := rules.lower(rules.strip(raw.platform));
    var registry := rules.strip(raw.registry);
    var names := Names(rules.strip(raw.extensionId), rules.strip(raw.version), rules.lower(registry), platform);
    (names,
     if platform != "" && !rules.isPlatform(platform) then Some(InvalidPlatform)
     else if !IsIdentity(names.extensionId, 255) || !IsIdentity(names.version, 128) || !IsIdentity(registry, 32) then
     Some(InvalidIdentity)
     else if names.registry !in REGISTRIES then Some(InvalidRegistry)
     else None)
  }

  /** A name of at most so many characters, none of them a control character. */
  ghost predicate IsName(value: string, maximum: nat) {
    1 <= |value| <= maximum && forall c :: c in value ==> c as int >= 32 && c as int != 127
  }

  /** Why names are refused: the platform is looked at first, then whether the names are in
      order, then whether the registry is known. */
  ghost predicate IsRefused(rules: Rules, raw: Names, error: Error) {
    var platform, registry := rules.lower(rules.strip(raw.platform)), rules.strip(raw.registry);
    var isPlatform := platform == "" || rules.isPlatform(platform);
    var isNamed := IsName(rules.strip(raw.extensionId), 255) && IsName(rules.strip(raw.version), 128)
                   && IsName(registry, 32);
    var isKnown := rules.lower(registry) == "vs-marketplace" || rules.lower(registry) == "openvsx";
    match error
    case InvalidPlatform => !isPlatform
    case InvalidIdentity => isPlatform && !isNamed
    case InvalidRegistry => isPlatform && isNamed && !isKnown
    case _ => false
  }

  /** Blanks around a name are dropped; registry and platform are in small letters. */
  ghost predicate AreCleaned(rules: Rules, raw: Names, names: Names) {
    && names.extensionId == rules.strip(raw.extensionId) && names.version == rules.strip(raw.version)
    && names.registry == rules.lower(rules.strip(raw.registry))
    && names.platform == rules.lower(rules.strip(raw.platform))
  }

  lemma CleanedExact(rules: Rules, raw: Names, error: Error)
    ensures Cleaned(rules, raw).1 == Some(error) <==> IsRefused(rules, raw, error)
    ensures AreCleaned(rules, raw, Cleaned(rules, raw).0)
  {
    var names := Cleaned(rules, raw).0;
    IdentityExact(names.extensionId, 255);
    IdentityExact(names.version, 128);
    IdentityExact(rules.strip(raw.registry), 32);
  }

  lemma IdentityExact(value: string, maximum: nat)
    ensures IsIdentity(value, maximum) <==> IsName(value, maximum)
  {
    if IsName(value, maximum) {
      assert forall i :: 0 <= i < |value| ==> value[i] in value;
    }
  }

  class ArtifactStore {
    var objects: map<Digest, Entry>
    var catalog: Catalog
    var staged: map<nat, Bytes>

    constructor (objects: map<Digest, Entry>, catalog: Catalog, staged: map<nat, Bytes>)
      ensures this.objects == objects && this.catalog == catalog && this.staged == staged
    {
      this.objects, this.catalog, this.staged := objects, catalog, staged;
    }

    /** Opens a vault as it is found: what is stored stays, missing tables are created, and a
        catalog of a later schema is refused. */
    static method Open(objects: map<Digest, Entry>, found: Option<Catalog>, schema: nat, staged: map<nat, Bytes>)
      returns (store: ArtifactStore?)
      ensures store == null <==> schema > 1
      ensures store != null ==> fresh(store) && store.objects == objects && store.staged == staged
      ensures store != null ==> store.catalog == if found.Some? then found.value else Catalog(map[], map[])
    {
      if schema > SCHEMA_VERSION {
        return null;
      }
      store := new ArtifactStore(objects, if found.Some? then found.value else Catalog(map[], map[]), staged);
    }

    /** Copies the source next to the vault, digesting and counting what it copies. */
    method Stage(chunks: seq<Bytes>) returns (copy: Bytes, digest: Digest, size: nat)
      ensures copy == Joined(chunks) && digest == Sha256(copy) && size == |copy|
    {
      copy, size := [], 0;
      var hashed: Bytes := [];
      for i := 0 to |chunks|
        invariant copy + Joined(chunks[i..]) == Joined(chunks)
        invariant hashed == copy && size == |copy|
      {
        assert copy + (chunks[i] + Joined(chunks[i + 1..])) == (copy + chunks[i]) + Joined(chunks[i + 1..]);
        copy := copy + chunks[i];
        hashed := hashed + chunks[i];
        size := size + |chunks[i]|;
      }
      digest := Sha256(hashed);
    }

    /** Preserves an artifact.  Whatever happens, no staged copy stays behind, no object is
        replaced, and a refused call leaves the catalog alone. */
    method Preserve(rules: Rules, raw: Names, source: Source, temporary: nat, now: nat) returns (r: Outcome)
      requires temporary !in staged
      modifies this
      ensures staged == old(staged)
      ensures forall d :: d in old(objects) ==> d in objects && objects[d] == old(objects)[d]
      ensures r.Refused? ==> catalog == old(catalog) && objects == old(objects)
      ensures Cleaned(rules, raw).1.Some? ==> r == Refused(Cleaned(rules, raw).1.value)
      ensures forall e :: IsRefused(rules, raw, e) ==> r == Refused(e)
      ensures r.Stored? ==> AreCleaned(rules, raw, r.names) && forall e :: !IsRefused(rules, raw, e)
      ensures Cleaned(rules, raw).1.None? ==>
                match source
                case Missing => r == Refused(InvalidSource)
                case Chunks(chunks) =>
                  var bytes := Joined(chunks);
                  var digest := Sha256(bytes);
                  if bytes == [] then r == Refused(Empty)
                  else if digest in old(objects) && old(objects)[digest].NotAFile? then r == Refused(NotRegular)
                  else if digest in old(objects) && old(objects)[digest] != File(bytes) then r == Refused(Tampered)
                  else
                    && objects == old(objects)[digest := File(bytes)]
                    && catalog == Record(old(catalog), Cleaned(rules, raw).0, digest, |bytes|, now)
                    && r == Stored(digest, |bytes|, Cleaned(rules, raw).0,
                                   catalog.observations[Observation(Cleaned(rules, raw).0, digest)])
    {
      forall e { CleanedExact(rules, raw, e); }
      var (names, wrong) := Cleaned(rules, raw);
      if wrong.Some? {
        return Refused(wrong.value);
      }
      if source.Missing? {
        return Refused(InvalidSource);
      }
      var copy, digest, size := Stage(source.chunks);
      staged := staged[temporary := copy];
      r := Keep(names, copy, digest, size, now);
      staged := staged - {temporary};
    }

    /** From the staged copy to the catalog. */
    method Keep(names: Names, copy: Bytes, digest: Digest, size: nat, now: nat) returns (r: Outcome)
      requires digest == Sha256(copy) && size == |copy|
      modifies this
      ensures staged == old(staged)
      ensures forall d :: d in old(objects) ==> d in objects && objects[d] == old(objects)[d]
      ensures r.Refused? ==> catalog == old(catalog) && objects == old(objects)
      ensures if copy == [] then r == Refused(Empty)
              else if digest in old(objects) && old(objects)[digest].NotAFile? then r == Refused(NotRegular)
              else if digest in old(objects) && old(objects)[digest] != File(copy) then r == Refused(Tampered)
              else
                && objects == old(objects)[digest := File(copy)]
                && catalog == Record(old(catalog), names, digest, |copy|, now)
                && r == Stored(digest, |copy|, names, catalog.observations[Observation(names, digest)])
    {
      if size == 0 {
        return Refused(Empty);
      }
      if digest in objects {
        if objects[digest].NotAFile? {
          return Refused(NotRegular);
        }
        if !Verifies(objects, digest, size) {
          return Refused(Tampered);
        }
      } else {
        objects := objects[digest := File(copy)];
      }
      if !Verifies(objects, digest, size) {
        return Refused(Tampered);
      }
      catalog := Record(catalog, names, digest, size, now);
      r := Stored(digest, size, names, catalog.observations[Observation(names, digest)]);
    }
  }

  // ----- Many processes

  datatype Phase = Staged | Checked | Placed | Verified | Stamped(now: nat) | Returned(seen: Seen) | Failed

  /** A call under way; it holds its own staged copy. */
  datatype Call = Call(names: Names, copy: Bytes, phase: Phase)

  datatype Vault = Vault(objects: map<Digest, Entry>, catalog: Catalog, calls: map<nat, Call>)

  datatype Step =
    | Begin(call: nat, names: Names, bytes: Bytes)
    | Check(call: nat)                    // is there an object already?
    | Link(call: nat)                     // there was none when it was checked
    | Verify(call: nat)
    | Stamp(call: nat, now: nat)          // reads the clock, before the transaction opens
    | Commit(call: nat)                   // the transaction, with the time read before
    | Stop(call: nat)                     // returned, failed or killed, wherever it was
    | Meddle(digest: Digest, entry: Option<Entry>)   // something else writes in the vault

  function DigestOf(c: Call): Digest {
    Sha256(c.copy)
  }

  function ObservedBy(c: Call): Observation {
    Observation(c.names, DigestOf(c))
  }

  predicate In(v: Vault, call: nat, phase: Phase) {
    call in v.calls && v.calls[call].phase == phase
  }

  predicate Enabled(v: Vault, step: Step) {
    match step
    case Begin(call, _, bytes) => call !in v.calls && bytes != []
    case Check(call) => In(v, call, Staged)
    case Link(call) => In(v, call, Checked)
    case Verify(call) => In(v, call, Placed)
    case Stamp(call, _) => In(v, call, Verified)
    case Commit(call) => call in v.calls && v.calls[call].phase.Stamped?
    case Stop(call) => call in v.calls
    case Meddle(_, _) => true
  }

  function Enter(v: Vault, call: nat, phase: Phase): Vault
    requires call in v.calls
  {
    v.(calls := v.calls[call := v.calls[call].(phase := phase)])
  }

  function Apply(v: Vault, step: Step): Vault
    requires Enabled(v, step)
  {
    match step
    case Begin(call, names, bytes) => v.(calls := v.calls[call := Call(names, bytes, Staged)])
    case Check(call) => Enter(v, call, if DigestOf(v.calls[call]) in v.objects then Placed else Checked)
    case Link(call) =>
      Enter(v, call, Placed).(objects := Linked(v.objects, DigestOf(v.calls[call]), v.calls[call].copy))
    case Verify(call) =>
      var c := v.calls[call];
      Enter(v, call, if Verifies(v.objects, DigestOf(c), |c.copy|) then Verified else Failed)
    case Stamp(call, now) => Enter(v, call, Stamped(now))
    case Commit(call) =>
      var c := v.calls[call];
      var catalog := Record(v.catalog, c.names, DigestOf(c), |c.copy|, c.phase.now);
      Enter(v, call, Returned(catalog.observations[ObservedBy(c)])).(catalog := catalog)
    case Stop(call) => v.(calls := v.calls - {call})
    case Meddle(digest, entry) =>
      v.(objects := if entry.Some? then v.objects[digest := entry.value] else v.objects - {digest})
  }

  const INITIAL: Vault := Vault(map[], Catalog(map[], map[]), map[])

  ghost predicate IsRun(steps: seq<Step>)
    decreases |steps|, 0
  {
    steps == [] || (IsRun(steps[..|steps| - 1]) && Enabled(After(steps[..|steps| - 1]), steps[|steps| - 1]))
  }

  ghost function After(steps: seq<Step>): Vault
    requires IsRun(steps)
    decreases |steps|, 1
  {
    if steps == [] then INITIAL else Apply(After(steps[..|steps| - 1]), steps[|steps| - 1])
  }

  /** Nothing but the calls ever wrote where a digest is stored. */
  ghost predicate Unmeddled(steps: seq<Step>, d: Digest) {
    forall k :: 0 <= k < |steps| && steps[k].Meddle? ==> steps[k].digest != d
  }

  // ----- What the catalog keeps, whatever happens to the objects

  ghost predicate Cataloged(v: Vault) {
    && (forall o :: o in v.catalog.observations ==> o.digest in v.catalog.artifacts)
    && (forall d :: d in v.catalog.artifacts ==>
                      v.catalog.artifacts[d].size == |d.preimage| > 0 && v.catalog.artifacts[d].key == d)
    && (forall c :: c in v.calls ==> v.calls[c].copy != [])
    && (forall c :: c in v.calls && v.calls[c].phase.Returned? ==>
                      var o := ObservedBy(v.calls[c]);
                      && o in v.catalog.observations && v.catalog.observations[o].first == v.calls[c].phase.seen.first)
  }

  /** A transaction records both rows, so neither is ever without the other. */
  lemma CommitKeepsCatalog(v: Vault, step: Step)
    requires Cataloged(v) && Enabled(v, step) && step.Commit?
    ensures Cataloged(Apply(v, step))
  {
  }

  lemma StepKeepsCatalog(v: Vault, step: Step)
    requires Cataloged(v) && Enabled(v, step)
    ensures Cataloged(Apply(v, step))
  {
    if step.Commit? {
      CommitKeepsCatalog(v, step);
    } else {
      assert Apply(v, step).catalog == v.catalog;
    }
  }

  lemma {:induction false} CatalogAlways(steps: seq<Step>)
    requires IsRun(steps)
    ensures Cataloged(After(steps))
    decreases |steps|
  {
    if steps != [] {
      CatalogAlways(steps[..|steps| - 1]);
      StepKeepsCatalog(After(steps[..|steps| - 1]), steps[|steps| - 1]);
    }
  }

  /** Rows stay; their first sighting, size and key are never rewritten. */
  ghost predicate Grows(v: Vault, w: Vault) {
    && (forall d :: d in v.catalog.artifacts ==>
                      && d in w.catalog.artifacts
                      && w.catalog.artifacts[d].size == v.catalog.artifacts[d].size
                      && w.catalog.artifacts[d].key == v.catalog.artifacts[d].key
                      && w.catalog.artifacts[d].seen.first == v.catalog.artifacts[d].seen.first)
    && (forall o :: o in v.catalog.observations ==>
                      o in w.catalog.observations && w.catalog.observations[o].first == v.catalog.observations[o].first)
  }

  lemma StepGrows(v: Vault, step: Step)
    requires Enabled(v, step)
    ensures Grows(v, Apply(v, step))
  {
  }

  lemma {:induction false} PrefixIsRun(steps: seq<Step>, n: nat)
    requires IsRun(steps) && n <= |steps|
    ensures IsRun(steps[..n])
    decreases |steps|
  {
    if n < |steps| {
      PrefixIsRun(steps[..|steps| - 1], n);
      assert steps[..|steps| - 1][..n] == steps[..n];
    } else {
      assert steps[..n] == steps;
    }
  }

  /** Nothing in the catalog is ever lost or rewritten but the last sighting of a row, through
      calls, crashes and meddling. */
  lemma {:induction false} CatalogGrows(steps: seq<Step>, n: nat)
    requires IsRun(steps) && n <= |steps| && IsRun(steps[..n])
    ensures Grows(After(steps[..n]), After(steps))
    decreases |steps|
  {
    if n < |steps| {
      var before := steps[..|steps| - 1];
      assert before[..n] == steps[..n];
      CatalogGrows(before, n);
      StepGrows(After(before), steps[|steps| - 1]);
    } else {
      assert steps[..n] == steps;
    }
  }

  // ----- The catalog is what the committed calls make it

  /** A committed call: what it observed, and when it had read the clock. */
  datatype Sighting = Sighting(observation: Observation, stamp: nat)

  /** The committed calls of a run, in the order in which they committed. */
  ghost function Committed(steps: seq<Step>): seq<Sighting>
    requires IsRun(steps)
    decreases |steps|
  {
    if steps == [] then []
    else
      var before := steps[..|steps| - 1];
      Committed(before) + SightedBy(After(before), steps[|steps| - 1])
  }

  ghost function SightedBy(v: Vault, step: Step): seq<Sighting>
    requires Enabled(v, step)
  {
    if step.Commit? then [Sighting(ObservedBy(v.calls[step.call]), v.calls[step.call].phase.now)] else []
  }

  /** The times under which the calls for an artifact committed, and those for one observation. */
  ghost function TimesOf(log: seq<Sighting>, d: Digest): seq<nat> {
    if log == [] then []
    else
      var before, last := TimesOf(log[..|log| - 1], d), log[|log| - 1];
      if last.observation.digest == d then before + [last.stamp] else before
  }

  ghost function TimesAs(log: seq<Sighting>, o: Observation): seq<nat> {
    if log == [] then []
    else
      var before, last := TimesAs(log[..|log| - 1], o), log[|log| - 1];
      if last.observation == o then before + [last.stamp] else before
  }

  ghost function Span(times: seq<nat>): Seen
    requires times != []
  {
    Seen(times[0], times[|times| - 1])
  }

  /** A row is there exactly if a call for it committed; its first sighting is the time of the
      first to commit, and its last sighting that of the latest. */
  ghost predicate Dated(c: Catalog, log: seq<Sighting>) {
    && (forall d :: d in c.artifacts <==> TimesOf(log, d) != [])
    && (forall d :: d in c.artifacts ==>
                      TimesOf(log, d) != [] && c.artifacts[d] == Artifact(|d.preimage|, d, Span(TimesOf(log, d))))
    && (forall o :: o in c.observations <==> TimesAs(log, o) != [])
    && (forall o :: o in c.observations ==>
                      TimesAs(log, o) != [] && c.observations[o] == Span(TimesAs(log, o)))
  }

  lemma TimesOfMore(log: seq<Sighting>, s: Sighting, d: Digest)
    ensures TimesOf(log + [s], d) == if s.observation.digest == d then TimesOf(log, d) + [s.stamp] else TimesOf(log, d)
  {
    assert (log + [s])[..|log + [s]| - 1] == log;
  }

  lemma TimesAsMore(log: seq<Sighting>, s: Sighting, o: Observation)
    ensures TimesAs(log + [s], o) == if s.observation == o then TimesAs(log, o) + [s.stamp] else TimesAs(log, o)
  {
    assert (log + [s])[..|log + [s]| - 1] == log;
  }

  lemma SpanMore(times: seq<nat>, t: nat)
    ensures Span(times + [t]) == SeenAgain(if times == [] then None else Some(Span(times)), t)
  {
  }

  lemma RecordDates(c: Catalog, log: seq<Sighting>, s: Sighting)
    requires Dated(c, log)
    ensures var o := s.observation;
            Dated(Record(c, o.names, o.digest, |o.digest.preimage|, s.stamp), log + [s])
  {
    var o, more := s.observation, log + [s];
    var w := Record(c, o.names, o.digest, |o.digest.preimage|, s.stamp);
    assert o == Observation(o.names, o.digest);
    forall d: Digest
      ensures d in w.artifacts <==> TimesOf(more, d) != []
      ensures d in w.artifacts ==> w.artifacts[d] == Artifact(|d.preimage|, d, Span(TimesOf(more, d)))
    {
      TimesOfMore(log, s, d);
      SpanMore(TimesOf(log, d), s.stamp);
    }
    forall p: Observation
      ensures p in w.observations <==> TimesAs(more, p) != []
      ensures p in w.observations ==> w.observations[p] == Span(TimesAs(more, p))
    {
      TimesAsMore(log, s, p);
      SpanMore(TimesAs(log, p), s.stamp);
    }
  }

  /** In every run the catalog is determined by which calls committed, in which order. */
  lemma {:induction false} CatalogIsCommitted(steps: seq<Step>)
    requires IsRun(steps)
    ensures Dated(After(steps).catalog, Committed(steps))
    decreases |steps|
  {
    if steps != [] {
      var before, step := steps[..|steps| - 1], steps[|steps| - 1];
      CatalogIsCommitted(before);
      if step.Commit? {
        RecordDates(After(before).catalog, Committed(before), SightedBy(After(before), step)[0]);
      } else {
        assert Committed(steps) == Committed(before);
      }
    }
  }

  // ----- When the dates are in order

  ghost predicate Ascending(times: seq<nat>) {
    forall i, j :: 0 <= i <= j < |times| ==> times[i] <= times[j]
  }

  ghost predicate FromFirst(times: seq<nat>) {
    forall i :: 0 <= i < |times| ==> times[0] <= times[i]
  }

  /** The calls for an artifact commit in the order in which they read the clock. */
  ghost predicate CommitInOrder(log: seq<Sighting>) {
    forall d :: Ascending(TimesOf(log, d))
  }

  /** No call commits with a time before that of the first to commit for its rows. */
  ghost predicate NoneBeforeFirst(log: seq<Sighting>) {
    && (forall d :: FromFirst(TimesOf(log, d)))
    && (forall o :: FromFirst(TimesAs(log, o)))
  }

  ghost predicate AdvancesOf(v: Vault, w: Vault, d: Digest) {
    d in v.catalog.artifacts && d in w.catalog.artifacts ==>
      v.catalog.artifacts[d].seen.last <= w.catalog.artifacts[d].seen.last
  }

  ghost predicate AdvancesAs(v: Vault, w: Vault, o: Observation) {
    o in v.catalog.observations && o in w.catalog.observations ==>
      v.catalog.observations[o].last <= w.catalog.observations[o].last
  }

  /** No last sighting is moved back. */
  ghost predicate Advances(v: Vault, w: Vault) {
    (forall d :: AdvancesOf(v, w, d)) && (forall o :: AdvancesAs(v, w, o))
  }

  /** No row was last seen before it was first seen, and no observation was first made before
      its artifact. */
  ghost predicate InOrder(v: Vault) {
    && (forall d :: d in v.catalog.artifacts ==>
                      v.catalog.artifacts[d].seen.first <= v.catalog.artifacts[d].seen.last)
    && (forall o :: o in v.catalog.observations ==>
                      && v.catalog.observations[o].first <= v.catalog.observations[o].last
                      && (o.digest in v.catalog.artifacts ==>
                            v.catalog.artifacts[o.digest].seen.first <= v.catalog.observations[o].first))
  }

  /** From each step of a run to the next. */
  ghost predicate AdvancesThroughout(steps: seq<Step>)
    requires IsRun(steps)
    decreases |steps|
  {
    steps == []
    || (AdvancesThroughout(steps[..|steps| - 1]) && Advances(After(steps[..|steps| - 1]), After(steps)))
  }

  /** At every point of a run. */
  ghost predicate InOrderThroughout(steps: seq<Step>)
    requires IsRun(steps)
    decreases |steps|
  {
    InOrder(After(steps)) && (steps == [] || InOrderThroughout(steps[..|steps| - 1]))
  }

  lemma {:induction false} TimesAsAmong(log: seq<Sighting>, o: Observation, t: nat)
    requires t in TimesAs(log, o)
    ensures t in TimesOf(log, o.digest)
    decreases |log|
  {
    if t in TimesAs(log[..|log| - 1], o) {
      TimesAsAmong(log[..|log| - 1], o, t);
    }
  }

  /** Ascending times go on ascending exactly if the next is not before the latest. */
  lemma AscendOn(times: seq<nat>, t: nat)
    ensures Ascending(times + [t]) <==> Ascending(times) && (times == [] || times[|times| - 1] <= t)
  {
    var more := times + [t];
    if Ascending(more) {
      assert forall i :: 0 <= i < |times| ==> more[i] == times[i];
      assert times != [] ==> more[|times| - 1] <= more[|times|];
    }
  }

  lemma {:induction false} TimesAsAscend(log: seq<Sighting>, o: Observation)
    requires Ascending(TimesOf(log, o.digest))
    ensures Ascending(TimesAs(log, o))
    decreases |log|
  {
    if log != [] {
      var before, last := log[..|log| - 1], log[|log| - 1];
      if last.observation.digest == o.digest {
        AscendOn(TimesOf(before, o.digest), last.stamp);
      }
      TimesAsAscend(before, o);
      if last.observation == o && TimesAs(before, o) != [] {
        TimesAsAmong(before, o, TimesAs(before, o)[|TimesAs(before, o)| - 1]);
      }
      AscendOn(TimesAs(before, o), last.stamp);
    }
  }

  lemma FirstOn(times: seq<nat>, t: nat)
    ensures FromFirst(times + [t]) <==> FromFirst(times) && (times == [] || times[0] <= t)
  {
    var more := times + [t];
    if FromFirst(more) {
      assert forall i :: 0 <= i < |times| ==> more[i] == times[i];
      assert times != [] ==> more[0] <= more[|times|];
    }
  }

  /** One more commit moves no last sighting back exactly if the calls still commit in order. */
  lemma CommitAdvancesOne(v: Vault, w: Vault, log: seq<Sighting>, s: Sighting, d: Digest)
    requires Dated(v.catalog, log) && Dated(w.catalog, log + [s])
    ensures Ascending(TimesOf(log, d)) && AdvancesOf(v, w, d) <==> Ascending(TimesOf(log + [s], d))
  {
    TimesOfMore(log, s, d);
    AscendOn(TimesOf(log, d), s.stamp);
  }

  lemma CommitAdvancesAs(v: Vault, w: Vault, log: seq<Sighting>, s: Sighting, o: Observation)
    requires Dated(v.catalog, log) && Dated(w.catalog, log + [s]) && Ascending(TimesOf(log + [s], o.digest))
    ensures AdvancesAs(v, w, o)
  {
    TimesAsMore(log, s, o);
    TimesAsAscend(log + [s], o);
    AscendOn(TimesAs(log, o), s.stamp);
  }

  lemma CommitAdvances(v: Vault, w: Vault, log: seq<Sighting>, s: Sighting)
    requires Dated(v.catalog, log) && Dated(w.catalog, log + [s])
    ensures CommitInOrder(log) && Advances(v, w) <==> CommitInOrder(log + [s])
  {
    forall d: Digest
      ensures Ascending(TimesOf(log, d)) && AdvancesOf(v, w, d) <==> Ascending(TimesOf(log + [s], d))
    {
      CommitAdvancesOne(v, w, log, s, d);
    }
    if CommitInOrder(log + [s]) {
      forall o: Observation ensures AdvancesAs(v, w, o) {
        CommitAdvancesAs(v, w, log, s, o);
      }
    }
  }

  /** Last sightings never move back exactly in the runs in which the calls for each artifact
      commit in the order in which they read the clock. */
  lemma {:induction false} SightingsAdvanceExactly(steps: seq<Step>)
    requires IsRun(steps)
    ensures AdvancesThroughout(steps) <==> CommitInOrder(Committed(steps))
    decreases |steps|
  {
    if steps == [] {
      assert forall d :: TimesOf([], d) == [];
    } else {
      var before, step := steps[..|steps| - 1], steps[|steps| - 1];
      SightingsAdvanceExactly(before);
      CatalogIsCommitted(before);
      CatalogIsCommitted(steps);
      if step.Commit? {
        CommitAdvances(After(before), After(steps), Committed(before), SightedBy(After(before), step)[0]);
      } else {
        assert Committed(steps) == Committed(before);
      }
    }
  }

  /** A row's dates are in order exactly if the latest commit for it is not before the first. */
  lemma NoneBeforeIsInOrder(v: Vault, log: seq<Sighting>)
    requires Dated(v.catalog, log) && NoneBeforeFirst(log)
    ensures InOrder(v)
  {
    forall o | o in v.catalog.observations && o.digest in v.catalog.artifacts
      ensures v.catalog.artifacts[o.digest].seen.first <= v.catalog.observations[o].first
    {
      TimesAsAmong(log, o, TimesAs(log, o)[0]);
    }
  }

  lemma InOrderIsNoneBefore(v: Vault, log: seq<Sighting>, s: Sighting)
    requires Dated(v.catalog, log + [s]) && NoneBeforeFirst(log) && InOrder(v)
    ensures NoneBeforeFirst(log + [s])
  {
    forall d: Digest ensures FromFirst(TimesOf(log + [s], d)) {
      TimesOfMore(log, s, d);
      FirstOn(TimesOf(log, d), s.stamp);
    }
    forall o: Observation ensures FromFirst(TimesAs(log + [s], o)) {
      TimesAsMore(log, s, o);
      FirstOn(TimesAs(log, o), s.stamp);
    }
  }

  lemma NoneBeforeShrinks(log: seq<Sighting>, s: Sighting)
    requires NoneBeforeFirst(log + [s])
    ensures NoneBeforeFirst(log)
  {
    forall d: Digest ensures FromFirst(TimesOf(log, d)) {
      TimesOfMore(log, s, d);
      FirstOn(TimesOf(log, d), s.stamp);
    }
    forall o: Observation ensures FromFirst(TimesAs(log, o)) {
      TimesAsMore(log, s, o);
      FirstOn(TimesAs(log, o), s.stamp);
    }
  }

  /** One more commit leaves all dates in order exactly if it is not before the first. */
  lemma CommitInOrderOne(v: Vault, log: seq<Sighting>, s: Sighting)
    requires Dated(v.catalog, log + [s])
    ensures NoneBeforeFirst(log + [s]) <==> NoneBeforeFirst(log) && InOrder(v)
  {
    if NoneBeforeFirst(log + [s]) {
      NoneBeforeShrinks(log, s);
      NoneBeforeIsInOrder(v, log + [s]);
    } else if NoneBeforeFirst(log) && InOrder(v) {
      InOrderIsNoneBefore(v, log, s);
    }
  }

  lemma OnlyCommitsDate(steps: seq<Step>)
    requires IsRun(steps) && steps != [] && !steps[|steps| - 1].Commit?
    ensures var before := steps[..|steps| - 1];
            && Committed(steps) == Committed(before)
            && After(steps).catalog == After(before).catalog
  {
  }

  /** Dates are always in order exactly in the runs in which no call commits with a time before
      that of the first to commit for the same artifact or the same observation. */
  lemma {:induction false} DatesInOrderExactly(steps: seq<Step>)
    requires IsRun(steps)
    ensures InOrderThroughout(steps) <==> NoneBeforeFirst(Committed(steps))
    decreases |steps|
  {
    if steps == [] {
      NoneBeforeIsInOrder(INITIAL, []);
    } else {
      var before, step := steps[..|steps| - 1], steps[|steps| - 1];
      DatesInOrderExactly(before);
      CatalogIsCommitted(steps);
      if step.Commit? {
        CommitInOrderOne(After(steps), Committed(before), SightedBy(After(before), step)[0]);
      } else {
        OnlyCommitsDate(steps);
      }
    }
  }

  // ----- Two processes at once

  /** The latest time read in a run. */
  ghost function Clock(steps: seq<Step>): nat
    decreases |steps|
  {
    if steps == [] then 0
    else if steps[|steps| - 1].Stamp? then steps[|steps| - 1].now
    else Clock(steps[..|steps| - 1])
  }

  /** The clock never runs back. */
  ghost predicate Forward(steps: seq<Step>)
    decreases |steps|
  {
    steps == []
    || (var before, step := steps[..|steps| - 1], steps[|steps| - 1];
        Forward(before) && (step.Stamp? ==> Clock(before) <= step.now))
  }

  /** No call reads the clock while another for the same bytes stands between reading it and
      committing. */
  ghost predicate InTurn(steps: seq<Step>)
    requires IsRun(steps)
    decreases |steps|
  {
    steps == []
    || (var before, step := steps[..|steps| - 1], steps[|steps| - 1];
        && InTurn(before)
        && (step.Stamp? ==> Alone(After(before), step.call)))
  }

  ghost predicate Alone(v: Vault, call: nat) {
    call in v.calls ==> forall c :: !About(v, c, DigestOf(v.calls[call]))
  }

  /** What holds of an artifact while its calls take turns: at most one is about to commit, and
      it is no earlier than those that did. */
  ghost predicate Turn(v: Vault, times: seq<nat>, clock: nat, d: Digest) {
    && Ascending(times)
    && (forall t :: t in times ==> t <= clock)
    && (forall c :: About(v, c, d) ==>
                      v.calls[c].phase.now <= clock && forall t :: t in times ==> t <= v.calls[c].phase.now)
    && (forall b, c :: About(v, b, d) && About(v, c, d) ==> b == c)
  }

  /** A call that has read the clock and not yet committed. */
  ghost predicate About(v: Vault, call: nat, d: Digest) {
    call in v.calls && v.calls[call].phase.Stamped? && DigestOf(v.calls[call]) == d
  }

  lemma CommitKeepsTurn(v: Vault, times: seq<nat>, clock: nat, step: Step, d: Digest)
    requires Enabled(v, step) && Turn(v, times, clock, d) && step.Commit? && About(v, step.call, d)
    ensures Turn(Apply(v, step), times + [v.calls[step.call].phase.now], clock, d)
  {
    var call := step.call;
    AscendOn(times, v.calls[call].phase.now);
    assert times != [] ==> times[|times| - 1] in times;
    assert forall c :: About(Apply(v, step), c, d) ==> About(v, c, d) && c != call;
  }

  lemma StepKeepsTurn(v: Vault, times: seq<nat>, clock: nat, step: Step, d: Digest)
    requires Enabled(v, step) && Turn(v, times, clock, d) && !(step.Commit? && About(v, step.call, d))
    requires step.Stamp? ==> clock <= step.now && Alone(v, step.call)
    ensures Turn(Apply(v, step), times, if step.Stamp? then step.now else clock, d)
  {
    var w := Apply(v, step);
    if step.Stamp? {
      assert About(w, step.call, d) ==> DigestOf(v.calls[step.call]) == d;
      assert forall c :: About(w, c, d) && c != step.call ==> About(v, c, d) && w.calls[c] == v.calls[c];
    } else {
      assert forall c :: About(w, c, d) ==> About(v, c, d) && w.calls[c] == v.calls[c];
    }
  }

  lemma {:induction false} TurnAlways(steps: seq<Step>, d: Digest)
    requires IsRun(steps) && Forward(steps) && InTurn(steps)
    ensures Turn(After(steps), TimesOf(Committed(steps), d), Clock(steps), d)
    decreases |steps|
  {
    if steps != [] {
      var before, step := steps[..|steps| - 1], steps[|steps| - 1];
      TurnAlways(before, d);
      var log := Committed(before);
      if step.Commit? {
        TimesOfMore(log, SightedBy(After(before), step)[0], d);
      } else {
        assert Committed(steps) == log;
      }
      if step.Commit? && About(After(before), step.call, d) {
        CommitKeepsTurn(After(before), TimesOf(log, d), Clock(before), step, d);
      } else {
        StepKeepsTurn(After(before), TimesOf(log, d), Clock(before), step, d);
      }
    }
  }

  /** Where the clock does not run back and calls for the same bytes take turns, no last
      sighting moves back and all dates are in order. */
  lemma TurnsKeepDates(steps: seq<Step>)
    requires IsRun(steps) && Forward(steps) && InTurn(steps)
    ensures AdvancesThroughout(steps) && InOrderThroughout(steps)
  {
    var log := Committed(steps);
    forall d: Digest ensures Ascending(TimesOf(log, d)) {
      TurnAlways(steps, d);
    }
    forall o: Observation ensures FromFirst(TimesAs(log, o)) {
      TimesAsAscend(log, o);
    }
    SightingsAdvanceExactly(steps);
    DatesInOrderExactly(steps);
  }

  lemma Extend(steps: seq<Step>, step: Step)
    requires IsRun(steps) && Enabled(After(steps), step)
    ensures IsRun(steps + [step]) && After(steps + [step]) == Apply(After(steps), step)
    ensures Clock(steps + [step]) == if step.Stamp? then step.now else Clock(steps)
    ensures Forward(steps) && (step.Stamp? ==> Clock(steps) <= step.now) ==> Forward(steps + [step])
  {
    assert (steps + [step])[..|steps|] == steps;
  }

  /** A call gets its object into place, whatever the others are doing. */
  lemma Places(steps: seq<Step>, call: nat, names: Names, bytes: Bytes) returns (more: seq<Step>)
    requires IsRun(steps) && Forward(steps) && call !in After(steps).calls && bytes != []
    requires Sha256(bytes) in After(steps).objects ==> After(steps).objects[Sha256(bytes)] == File(bytes)
    ensures IsRun(more) && Forward(more) && Clock(more) == Clock(steps)
    ensures var v := After(steps);
            After(more) == v.(objects := v.objects[Sha256(bytes) := File(bytes)],
            calls := v.calls[call := Call(names, bytes, Placed)])
  {
    var v := After(steps);
    Extend(steps, Begin(call, names, bytes));
    var begun := steps + [Begin(call, names, bytes)];
    Extend(begun, Check(call));
    more := begun + [Check(call)];
    if Sha256(bytes) !in v.objects {
      Extend(more, Link(call));
      more := more + [Link(call)];
    }
    assert After(more).calls == v.calls[call := Call(names, bytes, Placed)];
    assert After(more).objects == v.objects[Sha256(bytes) := File(bytes)];
  }

  /** It finds its object in order, and goes on to read the clock. */
  lemma Reaches(steps: seq<Step>, call: nat, names: Names, bytes: Bytes) returns (more: seq<Step>)
    requires IsRun(steps) && Forward(steps) && call !in After(steps).calls && bytes != []
    requires Sha256(bytes) in After(steps).objects ==> After(steps).objects[Sha256(bytes)] == File(bytes)
    ensures IsRun(more) && Forward(more) && Clock(more) == Clock(steps)
    ensures var v := After(steps);
            After(more) == v.(objects := v.objects[Sha256(bytes) := File(bytes)],
            calls := v.calls[call := Call(names, bytes, Verified)])
  {
    var placed := Places(steps, call, names, bytes);
    Extend(placed, Verify(call));
    more := placed + [Verify(call)];
    assert After(more).calls == After(steps).calls[call := Call(names, bytes, Verified)];
  }

  /** Two processes preserve the same bytes, and both have read the clock. */
  lemma BothStamp(early: Names, late: Names, bytes: Bytes, t: nat, u: nat) returns (steps: seq<Step>)
    requires bytes != [] && t < u
    ensures IsRun(steps) && Forward(steps)
    ensures After(steps).catalog == INITIAL.catalog
    ensures After(steps).calls == map[0 := Call(early, bytes, Stamped(t)), 1 := Call(late, bytes, Stamped(u))]
  {
    var a := Reaches([], 0, early, bytes);
    Extend(a, Stamp(0, t));
    var b := Reaches(a + [Stamp(0, t)], 1, late, bytes);
    Extend(b, Stamp(1, u));
    steps := b + [Stamp(1, u)];
  }

  /** The clock runs on, but the first to read it is the last to commit: that leaves an artifact
      that was first seen after it was last seen and, under another name, an observation older
      than its artifact. */
  lemma LateCommitDatesBack(early: Names, late: Names, bytes: Bytes, t: nat, u: nat) returns (steps: seq<Step>)
    requires bytes != [] && t < u
    ensures IsRun(steps) && Forward(steps)
    ensures var c, d := After(steps).catalog, Sha256(bytes);
            && d in c.artifacts && c.artifacts[d].seen == Seen(u, t)
            && Observation(early, d) in c.observations
            && c.observations[Observation(early, d)] == if early == late then Seen(u, t) else Seen(t, t)
    ensures !AdvancesThroughout(steps) && !InOrder(After(steps))
  {
    var d := Sha256(bytes);
    var a := BothStamp(early, late, bytes, t, u);
    Extend(a, Commit(1));
    var b := a + [Commit(1)];
    assert After(b).catalog.artifacts == map[d := Artifact(|bytes|, d, Seen(u, u))];
    assert After(b).catalog.observations == map[Observation(late, d) := Seen(u, u)];
    assert After(b).calls[0] == Call(early, bytes, Stamped(t));
    Extend(b, Commit(0));
    steps := b + [Commit(0)];
    assert steps[..|steps| - 1] == b && !AdvancesOf(After(b), After(steps), d);
  }

  // ----- What the objects keep, where nothing meddles

  /** An object is what its digest says; a row has its object; a call finds it once it has
      placed it, and does not fail. */
  ghost predicate Sound(v: Vault, d: Digest) {
    && (d in v.objects ==> v.objects[d] == File(d.preimage))
    && (d in v.catalog.artifacts ==> d in v.objects)
    && (forall c :: c in v.calls && DigestOf(v.calls[c]) == d ==>
                      && !v.calls[c].phase.Failed?
                      && (!v.calls[c].phase.Staged? && !v.calls[c].phase.Checked? ==> d in v.objects))
  }

  lemma StepKeepsSound(v: Vault, step: Step, d: Digest)
    requires Sound(v, d) && Enabled(v, step) && (step.Meddle? ==> step.digest != d)
    ensures Sound(Apply(v, step), d)
    ensures d in v.objects ==> d in Apply(v, step).objects && Apply(v, step).objects[d] == v.objects[d]
  {
  }

  lemma {:induction false} SoundAlways(steps: seq<Step>, d: Digest)
    requires IsRun(steps) && Unmeddled(steps, d)
    ensures Sound(After(steps), d)
    decreases |steps|
  {
    if steps != [] {
      SoundAlways(steps[..|steps| - 1], d);
      StepKeepsSound(After(steps[..|steps| - 1]), steps[|steps| - 1], d);
    }
  }

  /** No row ever dangles: an artifact's row has its object, with the bytes and the size that
      the row says, and an observation has its artifact's row. */
  lemma NoRowDangles(steps: seq<Step>, o: Observation)
    requires IsRun(steps) && Unmeddled(steps, o.digest) && o in After(steps).catalog.observations
    ensures var v := After(steps);
            && o.digest in v.catalog.artifacts && o.digest in v.objects
            && v.objects[o.digest].File? && Sha256(v.objects[o.digest].bytes) == o.digest
            && |v.objects[o.digest].bytes| == v.catalog.artifacts[o.digest].size > 0
  {
    CatalogAlways(steps);
    SoundAlways(steps, o.digest);
  }

  /** Once an object is there it is there for good, with the same content. */
  lemma {:induction false} ObjectsStay(steps: seq<Step>, n: nat, d: Digest)
    requires IsRun(steps) && n <= |steps| && IsRun(steps[..n]) && Unmeddled(steps, d) && d in After(steps[..n]).objects
    ensures d in After(steps).objects && After(steps).objects[d] == After(steps[..n]).objects[d]
    decreases |steps|
  {
    if n < |steps| {
      var before := steps[..|steps| - 1];
      assert before[..n] == steps[..n];
      assert Unmeddled(before, d);
      ObjectsStay(before, n, d);
      SoundAlways(before, d);
      StepKeepsSound(After(before), steps[|steps| - 1], d);
    } else {
      assert steps[..n] == steps;
    }
  }

  /** What a call returned holds for the rest of the run, but for the last sighting. */
  lemma ReturnedHolds(steps: seq<Step>, n: nat, call: nat)
    requires IsRun(steps) && n <= |steps| && IsRun(steps[..n])
    requires call in After(steps[..n]).calls && After(steps[..n]).calls[call].phase.Returned?
    requires Unmeddled(steps, DigestOf(After(steps[..n]).calls[call]))
    ensures var c := After(steps[..n]).calls[call];
            var v := After(steps);
            var o := Observation(c.names, DigestOf(c));
            && o in v.catalog.observations && v.catalog.observations[o].first == c.phase.seen.first
            && DigestOf(c) in v.objects && v.objects[DigestOf(c)] == File(c.copy)
  {
    var d := DigestOf(After(steps[..n]).calls[call]);
    CatalogAlways(steps[..n]);
    CatalogGrows(steps, n);
    assert Unmeddled(steps[..n], d);
    SoundAlways(steps[..n], d);
    ObjectsStay(steps, n, d);
  }

  // ----- What a call sees, whatever meddles

  /** No call replaces an object, and only a link adds one, with the bytes of its call. */
  lemma CallsNeverReplace(v: Vault, step: Step)
    requires Enabled(v, step) && !step.Meddle?
    ensures var objects := Apply(v, step).objects;
            && (forall d :: d in v.objects ==> d in objects && objects[d] == v.objects[d])
            && (forall d :: d in objects && d !in v.objects ==>
                              step.Link? && d == DigestOf(v.calls[step.call])
                              && objects[d] == File(v.calls[step.call].copy))
  {
  }

  /** A call goes on exactly if the object in place is a regular file with the bytes it has
      staged, and fails otherwise. */
  lemma VerifyExact(v: Vault, call: nat)
    requires Enabled(v, Verify(call))
    ensures var c, w := v.calls[call], Apply(v, Verify(call));
            && (In(w, call, Verified) <==> DigestOf(c) in v.objects && v.objects[DigestOf(c)] == File(c.copy))
            && (In(w, call, Failed) <==> !In(w, call, Verified))
            && w.objects == v.objects && w.catalog == v.catalog
  {
  }

  predicate PastVerify(c: Call) {
    c.phase.Verified? || c.phase.Stamped? || c.phase.Returned?
  }

  lemma PastVerifyFrom(v: Vault, step: Step, call: nat)
    requires Enabled(v, step) && call in Apply(v, step).calls && PastVerify(Apply(v, step).calls[call])
    ensures call in v.calls && v.calls[call].copy == Apply(v, step).calls[call].copy
    ensures PastVerify(v.calls[call]) || step == Verify(call)
  {
  }

  /** At the end of a prefix of the run these bytes were in place. */
  ghost predicate WasInPlace(steps: seq<Step>, n: nat, bytes: Bytes) {
    && n <= |steps| && IsRun(steps[..n])
    && Sha256(bytes) in After(steps[..n]).objects && After(steps[..n]).objects[Sha256(bytes)] == File(bytes)
  }

  /** A call that has got past its check, and one that has returned, had its bytes in place at
      some time, whatever else wrote in the vault. */
  lemma {:induction false} PastVerifyWasInPlace(steps: seq<Step>, call: nat) returns (n: nat)
    requires IsRun(steps) && call in After(steps).calls && PastVerify(After(steps).calls[call])
    ensures WasInPlace(steps, n, After(steps).calls[call].copy)
    decreases |steps|
  {
    var before, step := steps[..|steps| - 1], steps[|steps| - 1];
    PastVerifyFrom(After(before), step, call);
    if step == Verify(call) {
      VerifyExact(After(before), call);
      n := |before|;
    } else {
      n := PastVerifyWasInPlace(before, call);
    }
    assert before[..n] == steps[..n];
  }

  /** A crash may leave an object that no row names. */
  lemma CrashLeavesObject(names: Names, bytes: Bytes)
    requires bytes != []
    ensures exists steps :: IsRun(steps) && After(steps).calls == map[] && Sha256(bytes) in After(steps).objects
                            && After(steps).catalog == Catalog(map[], map[])
  {
    var a, b, c, d := Begin(0, names, bytes), Check(0), Link(0), Stop(0);
    Extend([], a);
    Extend([] + [a], b);
    Extend([] + [a] + [b], c);
    Extend([] + [a] + [b] + [c], d);
    assert After([] + [a] + [b] + [c] + [d]).calls == map[];
  }

  /** The calls of many processes, one at a time, are the calls of one process. */
  lemma OneCallAlone(v: Vault, call: nat, names: Names, bytes: Bytes, now: nat)
    requires call !in v.calls && bytes != []
    requires Sha256(bytes) in v.objects ==> v.objects[Sha256(bytes)] == File(bytes)
    ensures var checked := Apply(Apply(v, Begin(call, names, bytes)), Check(call));
            var placed := if Enabled(checked, Link(call)) then Apply(checked, Link(call)) else checked;
            && Enabled(placed, Verify(call)) && Enabled(Apply(placed, Verify(call)), Stamp(call, now))
            && Enabled(Apply(Apply(placed, Verify(call)), Stamp(call, now)), Commit(call))
            && var done := Apply(Apply(Apply(placed, Verify(call)), Stamp(call, now)), Commit(call));
            && done.objects == v.objects[Sha256(bytes) := File(bytes)]
            && done.catalog == Record(v.catalog, names, Sha256(bytes), |bytes|, now)
            && done.calls[call].phase == Returned(done.catalog.observations[Observation(names, Sha256(bytes))])
  {
    var checked := Apply(Apply(v, Begin(call, names, bytes)), Check(call));
    assert checked.objects == v.objects && checked.catalog == v.catalog;
    var placed := if Enabled(checked, Link(call)) then Apply(checked, Link(call)) else checked;
    assert placed.objects == v.objects[Sha256(bytes) := File(bytes)];
    assert placed.calls[call] == Call(names, bytes, Placed);
  }
}
