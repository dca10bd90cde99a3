/**
 The archive of a report bundle: written with a manifest of its members' digests, and
 verified against it.
 */
module BundleArchive {
  import opened Options
  import opened ReportBundle

  const MAX_REPORT_BUNDLE_MEMBERS := 20_000
  const MAX_REPORT_BUNDLE_MEMBER_BYTES := 64 * 1024 * 1024
  const MAX_REPORT_BUNDLE_TOTAL_BYTES := 256 * 1024 * 1024

  const SCHEMA := "guardrails.report-integrity.v1"

  datatype Claim = Claim(sha256: Digest, size: int)

  /** What a manifest says of one file; none when it is not a record. */
  datatype File = File(name: string, claim: Option<Claim>)

  /** A manifest as it is read; `files` is none when it is not a mapping. */
  datatype Manifest = Manifest(schema: string, files: Option<seq<File>>)

  /** How manifests are written and read, and which provenance, if any, is accepted. */
  datatype Format = Format(
    encode: Manifest -> Bytes,
    decode: Bytes -> Option<Manifest>,
    accepts: (Bytes, Option<Bytes>) -> bool)

  // ----- Writing

  function FileOf(m: Member): File {
    File(m.name, Some(Claim(Sha256(m.payload), |m.payload|)))
  }

  function FilesOf(members: seq<Member>): (files: seq<File>)
    ensures |files| == |members| && forall i :: 0 <= i < |files| ==> files[i] == FileOf(members[i])
  {
    seq(|members|, i requires 0 <= i < |members| => FileOf(members[i]))
  }

  /** The manifest lists the members in the order its writer sorts them. */
  function ManifestOf(sorted: seq<Member>): Manifest {
    Manifest(SCHEMA, Some(FilesOf(sorted)))
  }

  function Provenance(signed: Option<Bytes>): seq<Member> {
    if signed.Some? then [Member("provenance.json", signed.value)] else []
  }

  function Written(f: Format, members: seq<Member>, sorted: seq<Member>, signed: Option<Bytes>): seq<Member> {
    members + [Member("integrity.json", f.encode(ManifestOf(sorted)))] + Provenance(signed)
  }

  method WriteArchive(f: Format, members: seq<Member>, sorted: seq<Member>, signed: Option<Bytes>)
    returns (archive: seq<Member>)
    ensures archive == Written(f, members, sorted, signed)
  {
    var integrity := f.encode(ManifestOf(sorted));
    archive := [];
    for i := 0 to |members|
      invariant archive == members[..i]
    {
      archive := archive + [members[i]];
    }
    archive := archive + [Member("integrity.json", integrity)];
    if signed.Some? {
      archive := archive + [Member("provenance.json", signed.value)];
    }
  }

  // ----- Verifying

  datatype Problem =
    | TooMany | TooLarge | TooLargeInAll | Duplicate | NoManifest | Unsafe | BadManifest | BadSchema | NoFiles
    | Mismatch | BadEntry | Failed(name: string) | Untrusted

  function Total(archive: seq<Member>): nat {
    if archive == [] then 0 else |archive[0].payload| + Total(archive[1..])
  }

  function NamesOf(archive: seq<Member>): set<string> {
    set i | 0 <= i < |archive| :: archive[i].name
  }

  function FileNames(files: seq<File>): set<string> {
    set i | 0 <= i < |files| :: files[i].name
  }

  function Payload(archive: seq<Member>, name: string): Option<Bytes> {
    if archive == [] then None
    else if archive[0].name == name then Some(archive[0].payload)
    else Payload(archive[1..], name)
  }

  predicate ClaimHolds(claim: Claim, payload: Bytes) {
    claim.sha256 == Sha256(payload) && claim.size == |payload|
  }

  function FileProblem(archive: seq<Member>, files: seq<File>): Option<Problem> {
    if files == [] then None
    else if !SafeReportMember(files[0].name) || files[0].claim.None? then Some(BadEntry)
    else
      var payload := Payload(archive, files[0].name);
      if payload.None? || !ClaimHolds(files[0].claim.value, payload.value) then Some(Failed(files[0].name))
      else FileProblem(archive, files[1..])
  }

  function SizeProblem(archive: seq<Member>): Option<Problem> {
    if |archive| > MAX_REPORT_BUNDLE_MEMBERS then Some(TooMany)
    else if exists i :: 0 <= i < |archive| && |archive[i].payload| > MAX_REPORT_BUNDLE_MEMBER_BYTES then Some(TooLarge)
    else if Total(archive) > MAX_REPORT_BUNDLE_TOTAL_BYTES then Some(TooLargeInAll)
    else None
  }

  function NameProblem(archive: seq<Member>): Option<Problem> {
    if |NamesOf(archive)| != |archive| then Some(Duplicate)
    else if Payload(archive, "integrity.json").None? then Some(NoManifest)
    else if exists i :: 0 <= i < |archive| && !SafeReportMember(archive[i].name) then Some(Unsafe)
    else None
  }

  function ManifestProblem(f: Format, archive: seq<Member>, integrity: Bytes): Option<Problem> {
    var manifest := f.decode(integrity);
    if manifest.None? then Some(BadManifest)
    else if manifest.value.schema != SCHEMA then Some(BadSchema)
    else if manifest.value.files.None? || manifest.value.files.value == [] then Some(NoFiles)
    else if NamesOf(archive) - {"integrity.json", "provenance.json"} != FileNames(manifest.value.files.value)
    then Some(Mismatch)
    else FileProblem(archive, manifest.value.files.value)
  }

  /** The first thing wrong with an archive. */
  function FirstProblem(f: Format, archive: seq<Member>): Option<Problem> {
    var early := if SizeProblem(archive).Some? then SizeProblem(archive) else NameProblem(archive);
    if early.Some? then early
    else
      var integrity := Payload(archive, "integrity.json");
      if integrity.None? then Some(NoManifest)
      else
        var late := ManifestProblem(f, archive, integrity.value);
        if late.Some? then late
        else if !f.accepts(integrity.value, Payload(archive, "provenance.json")) then Some(Untrusted)
        else None
  }

  method VerifyReportBundle(f: Format, archive: seq<Member>) returns (problem: Option<Problem>)
    ensures problem == FirstProblem(f, archive)
  {
    problem := CheckSizes(archive);
    if problem.Some? {
      return;
    }
    problem := CheckNames(archive);
    if problem.Some? {
      return;
    }
    var integrity := Payload(archive, "integrity.json").value;
    problem := CheckManifest(f, archive, integrity);
    if problem.Some? {
      return;
    }
    problem := if f.accepts(integrity, Payload(archive, "provenance.json")) then None else Some(Untrusted);
  }

  method CheckSizes(archive: seq<Member>) returns (problem: Option<Problem>)
    ensures problem == SizeProblem(archive)
  {
    if |archive| > MAX_REPORT_BUNDLE_MEMBERS {
      return Some(TooMany);
    }
    var total := 0;
    for i := 0 to |archive|
      invariant total + Total(archive[i..]) == Total(archive)
      invariant forall k :: 0 <= k < i ==> |archive[k].payload| <= MAX_REPORT_BUNDLE_MEMBER_BYTES
    {
      if |archive[i].payload| > MAX_REPORT_BUNDLE_MEMBER_BYTES {
        return Some(TooLarge);
      }
      total := total + |archive[i].payload|;
    }
    problem := if total > MAX_REPORT_BUNDLE_TOTAL_BYTES then Some(TooLargeInAll) else None;
  }

  method CheckNames(archive: seq<Member>) returns (problem: Option<Problem>)
    ensures problem == NameProblem(archive)
  {
    if |NamesOf(archive)| != |archive| {
      return Some(Duplicate);
    }
    if Payload(archive, "integrity.json").None? {
      return Some(NoManifest);
    }
    for i := 0 to |archive|
      invariant forall k :: 0 <= k < i ==> SafeReportMember(archive[k].name)
    {
      if !SafeReportMember(archive[i].name) {
        return Some(Unsafe);
      }
    }
    problem := None;
  }

  method CheckManifest(f: Format, archive: seq<Member>, integrity: Bytes) returns (problem: Option<Problem>)
    ensures problem == ManifestProblem(f, archive, integrity)
  {
    var manifest := f.decode(integrity);
    if manifest.None? {
      return Some(BadManifest);
    }
    if manifest.value.schema != SCHEMA {
      return Some(BadSchema);
    }
    if manifest.value.files.None? || manifest.value.files.value == [] {
      return Some(NoFiles);
    }
    var files := manifest.value.files.value;
    if NamesOf(archive) - {"integrity.json", "provenance.json"} != FileNames(files) {
      return Some(Mismatch);
    }
    for i := 0 to |files|
      invariant FileProblem(archive, files[i..]) == FileProblem(archive, files)
    {
      if !SafeReportMember(files[i].name) || files[i].claim.None? {
        return Some(BadEntry);
      }
      var payload := Payload(archive, files[i].name);
      if payload.None? || !ClaimHolds(files[i].claim.value, payload.value) {
        return Some(Failed(files[i].name));
      }
    }
    problem := None;
  }

  // ----- Two archives with one manifest

  lemma {:induction false} FilesHold(archive: seq<Member>, files: seq<File>)
    requires FileProblem(archive, files).None?
    ensures forall i :: 0 <= i < |files| ==>
                          && files[i].claim.Some? && Payload(archive, files[i].name).Some?
                          && ClaimHolds(files[i].claim.value, Payload(archive, files[i].name).value)
  {
    if files != [] {
      FilesHold(archive, files[1..]);
    }
  }

  lemma {:induction false} PayloadExact(archive: seq<Member>, name: string)
    ensures Payload(archive, name).Some? <==> name in NamesOf(archive)
  {
    if archive != [] {
      PayloadExact(archive[1..], name);
      assert forall i :: 0 < i < |archive| ==> archive[i] == archive[1..][i - 1];
      assert NamesOf(archive) == NamesOf(archive[1..]) + {archive[0].name};
    }
  }

  ghost predicate Agree(a: seq<Member>, b: seq<Member>, name: string) {
    Payload(a, name) == Payload(b, name)
  }

  lemma ManifestDecides(f: Format, a: seq<Member>, b: seq<Member>, integrity: Bytes, name: string)
    requires ManifestProblem(f, a, integrity).None? && ManifestProblem(f, b, integrity).None?
    requires name != "integrity.json" && name != "provenance.json"
    ensures Agree(a, b, name)
  {
    var files := f.decode(integrity).value.files.value;
    FilesHold(a, files);
    FilesHold(b, files);
    PayloadExact(a, name);
    PayloadExact(b, name);
    if name in FileNames(files) {
      var i :| 0 <= i < |files| && files[i].name == name;
    } else {
      assert name !in NamesOf(a) - {"integrity.json", "provenance.json"};
      assert name !in NamesOf(b) - {"integrity.json", "provenance.json"};
    }
  }

  /** Archives that verify with one manifest have the same members, with the same bytes, but
      for their provenance. */
  lemma SameManifestSameMembers(f: Format, a: seq<Member>, b: seq<Member>, name: string)
    requires FirstProblem(f, a).None? && FirstProblem(f, b).None? && Agree(a, b, "integrity.json")
    requires name != "provenance.json"
    ensures Agree(a, b, name)
  {
    if name != "integrity.json" {
      ManifestDecides(f, a, b, Payload(a, "integrity.json").value, name);
    }
  }

  // ----- What is written verifies

  /** The same members, in some order. */
  ghost predicate SameMembers(a: seq<Member>, b: seq<Member>) {
    |a| == |b| && forall m :: m in a <==> m in b
  }

  lemma {:induction false} PayloadOf(archive: seq<Member>, i: nat)
    requires NamesDiffer(archive) && i < |archive|
    ensures Payload(archive, archive[i].name) == Some(archive[i].payload)
  {
    if i > 0 {
      PayloadOf(archive[1..], i - 1);
    }
  }

  lemma {:induction false} NamesCount(archive: seq<Member>)
    requires NamesDiffer(archive)
    ensures |NamesOf(archive)| == |archive|
  {
    if archive != [] {
      var rest, last := archive[..|archive| - 1], archive[|archive| - 1];
      NamesCount(rest);
      assert NamesOf(archive) == NamesOf(rest) + {last.name};
    }
  }

  lemma {:induction false} AllFilesHold(archive: seq<Member>, members: seq<Member>)
    requires NamesDiffer(archive) && forall i :: 0 <= i < |members| ==>
                                                   members[i] in archive && SafeReportMember(members[i].name)
    ensures FileProblem(archive, FilesOf(members)).None?
  {
    if members != [] {
      var i :| 0 <= i < |archive| && archive[i] == members[0];
      PayloadOf(archive, i);
      AllFilesHold(archive, members[1..]);
      assert FilesOf(members)[1..] == FilesOf(members[1..]);
    }
  }

  /** What a writer may be given: safe names, each once, and neither of the two it adds. */
  ghost predicate Writable(members: seq<Member>) {
    members != [] && NamesDiffer(members) && forall m :: m in members ==> IsFree(m.name)
  }

  /** What the writer adds at the end. */
  function Added(f: Format, sorted: seq<Member>, signed: Option<Bytes>): seq<Member> {
    [Member("integrity.json", f.encode(ManifestOf(sorted)))] + Provenance(signed)
  }

  lemma ReservedAreSafe()
    ensures SafeReportMember("integrity.json") && SafeReportMember("provenance.json")
            && "integrity.json" != "provenance.json"
  {
    assert IsFlat("integrity.json") && IsFlat("provenance.json");
    FlatNameIsSafe("integrity.json");
    FlatNameIsSafe("provenance.json");
    assert "integrity.json"[0] != "provenance.json"[0];
  }

  lemma AddedAreReserved(f: Format, sorted: seq<Member>, signed: Option<Bytes>)
    ensures var added := Added(f, sorted, signed);
            && NamesDiffer(added)
            && forall i :: 0 <= i < |added| ==> IsReserved(added[i].name) && SafeReportMember(added[i].name)
  {
    ReservedAreSafe();
  }

  lemma JoinedNames(a: seq<Member>, b: seq<Member>)
    requires NamesDiffer(a) && NamesDiffer(b)
    requires forall i :: 0 <= i < |a| ==> IsFree(a[i].name)
    requires forall i :: 0 <= i < |b| ==> IsReserved(b[i].name) && SafeReportMember(b[i].name)
    ensures NamesDiffer(a + b) && forall i :: 0 <= i < |a + b| ==> SafeReportMember((a + b)[i].name)
  {
  }

  lemma WrittenNames(f: Format, members: seq<Member>, sorted: seq<Member>, signed: Option<Bytes>)
    requires Writable(members)
    ensures var archive := Written(f, members, sorted, signed);
            && archive == members + Added(f, sorted, signed) && NamesDiffer(archive)
            && (forall i :: 0 <= i < |archive| ==> SafeReportMember(archive[i].name))
  {
    AddedAreReserved(f, sorted, signed);
    assert forall i :: 0 <= i < |members| ==> members[i] in members;
    JoinedNames(members, Added(f, sorted, signed));
    assert Written(f, members, sorted, signed) == members + Added(f, sorted, signed);
  }

  lemma NamesOfBoth(a: seq<Member>, b: seq<Member>)
    ensures NamesOf(a + b) == NamesOf(a) + NamesOf(b)
  {
    forall n | n in NamesOf(a) + NamesOf(b) ensures n in NamesOf(a + b) {
      if n in NamesOf(a) {
        var i :| 0 <= i < |a| && a[i].name == n;
        assert (a + b)[i].name == n;
      } else {
        var i :| 0 <= i < |b| && b[i].name == n;
        assert (a + b)[|a| + i].name == n;
      }
    }
  }

  lemma SortedNames(members: seq<Member>, sorted: seq<Member>)
    requires SameMembers(members, sorted)
    ensures FileNames(FilesOf(sorted)) == NamesOf(members)
  {
    forall n | n in NamesOf(members) ensures n in FileNames(FilesOf(sorted)) {
      var i :| 0 <= i < |members| && members[i].name == n;
      assert members[i] in sorted;
      var k :| 0 <= k < |sorted| && sorted[k] == members[i];
      assert FilesOf(sorted)[k].name == n;
    }
    forall n | n in FileNames(FilesOf(sorted)) ensures n in NamesOf(members) {
      var k :| 0 <= k < |sorted| && FilesOf(sorted)[k].name == n;
      assert sorted[k] in members;
    }
  }

  lemma WrittenNamesMatch(f: Format, members: seq<Member>, sorted: seq<Member>, signed: Option<Bytes>)
    requires Writable(members) && SameMembers(members, sorted)
    ensures NamesOf(Written(f, members, sorted, signed)) - {"integrity.json", "provenance.json"}
         == FileNames(FilesOf(sorted))
  {
    var added := Added(f, sorted, signed);
    WrittenNames(f, members, sorted, signed);
    NamesOfBoth(members, added);
    SortedNames(members, sorted);
    AddedAreReserved(f, sorted, signed);
    forall n | n in NamesOf(members) ensures !IsReserved(n) {
      var i :| 0 <= i < |members| && members[i].name == n;
      assert members[i] in members;
    }
  }

  /** An archive that was written verifies exactly when it is within the limits: whatever is
      wrong with it is its size. */
  lemma WrittenVerifies(f: Format, members: seq<Member>, sorted: seq<Member>, signed: Option<Bytes>)
    requires Writable(members) && SameMembers(members, sorted)
    requires f.decode(f.encode(ManifestOf(sorted))) == Some(ManifestOf(sorted))
    requires f.accepts(f.encode(ManifestOf(sorted)), signed)
    ensures FirstProblem(f, Written(f, members, sorted, signed)) == SizeProblem(Written(f, members, sorted, signed))
  {
    var archive := Written(f, members, sorted, signed);
    var integrity := f.encode(ManifestOf(sorted));
    WrittenNames(f, members, sorted, signed);
    WrittenNamesMatch(f, members, sorted, signed);
    NamesCount(archive);
    PayloadOf(archive, |members|);
    assert Payload(archive, "integrity.json") == Some(integrity);
    ProvenanceIsFound(f, members, sorted, signed);
    forall i | 0 <= i < |sorted| ensures sorted[i] in archive && SafeReportMember(sorted[i].name) {
      assert sorted[i] in members;
    }
    AllFilesHold(archive, sorted);
    assert members[0] in sorted;
    assert FilesOf(sorted) != [];
  }

  lemma ProvenanceIsFound(f: Format, members: seq<Member>, sorted: seq<Member>, signed: Option<Bytes>)
    requires Writable(members)
    ensures Payload(Written(f, members, sorted, signed), "provenance.json") == signed
  {
    var archive := Written(f, members, sorted, signed);
    WrittenNames(f, members, sorted, signed);
    if signed.Some? {
      PayloadOf(archive, |members| + 1);
    } else {
      PayloadExact(archive, "provenance.json");
      assert "integrity.json"[0] != "provenance.json"[0];
      forall i | 0 <= i < |archive| ensures archive[i].name != "provenance.json" {
        if i < |members| {
          assert members[i] in members;
        }
      }
    }
  }

  /** In particular a bundle's archive does. */
  lemma BundleVerifies(f: Format, h: Heads, extensions: seq<Extension>, sorted: seq<Member>, signed: Option<Bytes>)
    requires SameMembers(BundleMembers(h, extensions), sorted)
    requires f.decode(f.encode(ManifestOf(sorted))) == Some(ManifestOf(sorted))
    requires f.accepts(f.encode(ManifestOf(sorted)), signed)
    ensures var archive := Written(f, BundleMembers(h, extensions), sorted, signed);
            FirstProblem(f, archive).None? <==>
            && |archive| <= 20_000 && Total(archive) <= 268_435_456
            && forall i :: 0 <= i < |archive| ==> |archive[i].payload| <= 67_108_864
  {
    MembersAreFree(h, extensions);
    WrittenVerifies(f, BundleMembers(h, extensions), sorted, signed);
  }
}
