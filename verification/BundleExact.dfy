/**
 What the names, the members and the verdict on a bundle are, said without the functions that
 compute them.
 */
module BundleExact {
  import opened Options
  import opened Ordering
  import opened ReportBundle
  import opened BundleArchive

  // ----- The name of a detail

  /** A letter or digit of ASCII, a dot, an underscore, an at sign or a hyphen, by code point. */
  ghost predicate IsPlain(c: char) {
    var n := c as int;
    65 <= n <= 90 || 97 <= n <= 122 || 48 <= n <= 57 || n == 46 || n == 95 || n == 64 || n == 45
  }

  lemma PlainExact(c: char)
    ensures IsNameChar(c) <==> IsPlain(c)
  {
  }

  /** A run of other characters, as long as it goes. */
  ghost predicate IsRun(raw: string, n: nat) {
    && 0 < n <= |raw| && (forall i :: 0 <= i < n ==> !IsPlain(raw[i]))
    && (n < |raw| ==> IsPlain(raw[n]))
  }

  /** `s` is `raw` with an underscore for each such run. */
  ghost predicate Replaces(raw: string, s: string)
    decreases |raw|
  {
    if raw == "" then s == ""
    else if IsPlain(raw[0]) then s != "" && s[0] == raw[0] && Replaces(raw[1..], s[1..])
    else exists n: nat :: IsRun(raw, n) && s != "" && s[0] == '_' && Replaces(raw[n..], s[1..])
  }

  ghost predicate AllTrimmed(s: string) {
    forall i :: 0 <= i < |s| ==> s[i] == '.' || s[i] == '_'
  }

  /** `name` is what is left of `s` without the dots and underscores at both ends. */
  ghost predicate Trims(s: string, name: string) {
    && (exists left, right :: s == left + name + right && AllTrimmed(left) && AllTrimmed(right))
    && (name != "" ==> name[0] != '.' && name[0] != '_' && name[|name| - 1] != '.' && name[|name| - 1] != '_')
  }

  ghost predicate IsDetailName(extensionId: string, version: string, name: string) {
    name != "" && exists s :: Replaces(extensionId + "@" + version, s) && Trims(s, name)
  }

  lemma {:induction false} InsideIsSkipped(raw: string, n: nat)
    requires n <= |raw| && (forall i :: 0 <= i < n ==> !IsPlain(raw[i])) && (n < |raw| ==> IsPlain(raw[n]))
    ensures Squeezed(raw, true) == Squeezed(raw[n..], false)
    decreases n
  {
    if n > 0 {
      PlainExact(raw[0]);
      InsideIsSkipped(raw[1..], n - 1);
      assert raw[1..][n - 1..] == raw[n..];
    } else if raw != "" {
      PlainExact(raw[0]);
      assert raw[0..] == raw;
    } else {
      assert raw[0..] == raw;
    }
  }

  lemma {:induction false} RunFrom(raw: string) returns (n: nat)
    requires raw != "" && !IsPlain(raw[0])
    ensures IsRun(raw, n)
  {
    n := 1;
    if |raw| > 1 && !IsPlain(raw[1]) {
      var m := RunFrom(raw[1..]);
      n := m + 1;
      assert forall i :: 1 <= i < n ==> raw[i] == raw[1..][i - 1];
    }
  }

  lemma {:induction false} SqueezedReplaces(raw: string)
    ensures Replaces(raw, Squeezed(raw, false))
    decreases |raw|
  {
    if raw != "" {
      PlainExact(raw[0]);
      if IsPlain(raw[0]) {
        SqueezedReplaces(raw[1..]);
      } else {
        var n := RunFrom(raw);
        InsideIsSkipped(raw[1..], n - 1);
        assert raw[1..][n - 1..] == raw[n..];
        SqueezedReplaces(raw[n..]);
      }
    }
  }

  lemma {:induction false} LeftTrimmed(s: string) returns (left: string)
    ensures s == left + TrimmedLeft(s) && AllTrimmed(left)
  {
    left := "";
    if s != "" && IsTrimmed(s[0]) {
      left := LeftTrimmed(s[1..]);
      left := [s[0]] + left;
    }
  }

  lemma {:induction false} RightTrimmed(s: string) returns (right: string)
    ensures s == TrimmedRight(s) + right && AllTrimmed(right)
  {
    right := "";
    if s != "" && IsTrimmed(s[|s| - 1]) {
      right := RightTrimmed(s[..|s| - 1]);
      right := right + [s[|s| - 1]];
    }
  }

  lemma TrimsWith(s: string, left: string, rest: string, name: string, right: string)
    requires s == left + rest && rest == name + right && AllTrimmed(left) && AllTrimmed(right)
    requires name != "" && !IsTrimmed(name[0]) && !IsTrimmed(name[|name| - 1])
    ensures Trims(s, name)
  {
    assert s == left + name + right;
  }

  lemma BothEnds(s: string, rest: string, name: string)
    requires '@' in s && rest == TrimmedLeft(s) && name == TrimmedRight(rest)
    ensures name != "" && !IsTrimmed(name[0]) && !IsTrimmed(name[|name| - 1])
  {
    TrimmedLeftKeeps(s);
    TrimmedRightKeeps(rest);
  }

  lemma TrimmedParts(s: string) returns (left: string, rest: string, name: string, right: string)
    ensures s == left + rest && rest == TrimmedLeft(s) && rest == name + right && name == TrimmedRight(rest)
    ensures AllTrimmed(left) && AllTrimmed(right)
  {
    rest := TrimmedLeft(s);
    name := TrimmedRight(rest);
    left := LeftTrimmed(s);
    right := RightTrimmed(rest);
  }

  lemma TrimmedExact(s: string) returns (name: string)
    requires '@' in s
    ensures name == TrimmedRight(TrimmedLeft(s)) && name != "" && Trims(s, name)
  {
    var left, rest, right;
    left, rest, name, right := TrimmedParts(s);
    BothEnds(s, rest, name);
    TrimsWith(s, left, rest, name, right);
  }

  lemma RunOnce(raw: string, m: nat, n: nat)
    requires IsRun(raw, m) && IsRun(raw, n)
    ensures m == n
  {
  }

  lemma {:induction false} ReplacesOnce(raw: string, s: string, t: string)
    requires Replaces(raw, s) && Replaces(raw, t)
    ensures s == t
    decreases |raw|
  {
    if raw != "" {
      if IsPlain(raw[0]) {
        ReplacesOnce(raw[1..], s[1..], t[1..]);
      } else {
        var m: nat :| IsRun(raw, m) && s[0] == '_' && Replaces(raw[m..], s[1..]);
        var n: nat :| IsRun(raw, n) && t[0] == '_' && Replaces(raw[n..], t[1..]);
        RunOnce(raw, m, n);
        ReplacesOnce(raw[m..], s[1..], t[1..]);
      }
      assert s == [s[0]] + s[1..] && t == [t[0]] + t[1..];
    }
  }

  lemma {:induction false} LeftComesOff(left: string, rest: string)
    requires AllTrimmed(left) && rest != "" && !IsTrimmed(rest[0])
    ensures TrimmedLeft(left + rest) == rest
  {
    if left == "" {
      assert left + rest == rest;
    } else {
      assert (left + rest)[1..] == left[1..] + rest;
      LeftComesOff(left[1..], rest);
    }
  }

  lemma {:induction false} RightComesOff(name: string, right: string)
    requires AllTrimmed(right) && name != "" && !IsTrimmed(name[|name| - 1])
    ensures TrimmedRight(name + right) == name
  {
    if right == "" {
      assert name + right == name;
    } else {
      assert (name + right)[..|name + right| - 1] == name + right[..|right| - 1];
      RightComesOff(name, right[..|right| - 1]);
    }
  }

  lemma TrimsOnce(s: string, name: string)
    requires name != "" && Trims(s, name)
    ensures name == TrimmedRight(TrimmedLeft(s))
  {
    var left, right :| s == left + name + right && AllTrimmed(left) && AllTrimmed(right);
    assert s == left + (name + right);
    LeftComesOff(left, name + right);
    RightComesOff(name, right);
  }

  lemma DetailNameIsOne(extensionId: string, version: string)
    ensures IsDetailName(extensionId, version, SafeDetailName(extensionId, version))
  {
    var raw := extensionId + "@" + version;
    assert raw[|extensionId|] == '@';
    SqueezedReplaces(raw);
    SqueezedChars(raw, false);
    var name := TrimmedExact(Squeezed(raw, false));
  }

  /** There is one name for the detail of each identifier and version, and this is it. */
  lemma DetailNameExact(extensionId: string, version: string, name: string)
    ensures IsDetailName(extensionId, version, name) <==> name == SafeDetailName(extensionId, version)
  {
    DetailNameIsOne(extensionId, version);
    if IsDetailName(extensionId, version, name) {
      var raw := extensionId + "@" + version;
      var s :| Replaces(raw, s) && Trims(s, name);
      SqueezedReplaces(raw);
      ReplacesOnce(raw, s, Squeezed(raw, false));
      TrimsOnce(s, name);
    }
  }

  // ----- Names that stay inside

  /** A part of a path that is two dots. */
  ghost predicate ClimbsAt(path: string, i: nat) {
    && i + 2 <= |path| && path[i] == '.' && path[i + 1] == '.'
    && (i == 0 || path[i - 1] == '/') && (i + 2 == |path| || path[i + 2] == '/')
  }

  /** A relative path to a file that climbs nowhere. */
  ghost predicate StaysInside(name: string) {
    && |name| > 0 && name[0] != '/' && name[|name| - 1] != '/'
    && forall i: nat :: !ClimbsAt(name, i)
  }

  lemma ClimbsInName(name: string, i: nat)
    requires '/' !in name
    ensures ClimbsAt(name, i) <==> i == 0 && name == ".."
  {
    if 0 < i <= |name| {
      assert name[i - 1] in name;
    }
    if i + 2 < |name| {
      assert name[i + 2] in name;
    }
    assert name == ".." <==> |name| == 2 && name[0] == '.' && name[1] == '.';
  }

  lemma ClimbsInDirectory(directory: string, rest: string, i: nat)
    requires '/' !in directory && i <= |directory|
    ensures ClimbsAt(directory + "/" + rest, i) <==> i == 0 && directory == ".."
  {
    var path := directory + "/" + rest;
    assert path[|directory|] == '/';
    assert forall k :: 0 <= k < |directory| ==> path[k] == directory[k];
    if 0 < i {
      assert directory[i - 1] in directory;
    }
    if i + 2 < |directory| {
      assert directory[i + 2] in directory;
    }
    assert directory == ".." <==> |directory| == 2 && directory[0] == '.' && directory[1] == '.';
  }

  lemma ClimbsInRest(directory: string, rest: string, i: nat)
    ensures ClimbsAt(directory + "/" + rest, |directory| + 1 + i) <==> ClimbsAt(rest, i)
  {
    var path := directory + "/" + rest;
    assert path[|directory|] == '/';
    assert forall k :: 0 <= k < |rest| ==> path[|directory| + 1 + k] == rest[k];
  }

  ghost predicate Climbs(path: string) {
    exists i: nat :: ClimbsAt(path, i)
  }

  lemma ClimbsSplit(directory: string, rest: string)
    requires '/' !in directory
    ensures Climbs(directory + "/" + rest) <==> directory == ".." || Climbs(rest)
  {
    var path := directory + "/" + rest;
    if i: nat :| ClimbsAt(path, i) {
      if i <= |directory| {
        ClimbsInDirectory(directory, rest, i);
      } else {
        ClimbsInRest(directory, rest, i - |directory| - 1);
      }
    }
    ClimbsInDirectory(directory, rest, 0);
    if i: nat :| ClimbsAt(rest, i) {
      ClimbsInRest(directory, rest, i);
    }
  }

  lemma {:induction false} FirstPart(path: string) returns (directory: string, rest: string)
    requires '/' in path
    ensures '/' !in directory && path == directory + "/" + rest
  {
    if path[0] == '/' {
      directory, rest := "", path[1..];
    } else {
      assert path == [path[0]] + path[1..];
      directory, rest := FirstPart(path[1..]);
      directory := [path[0]] + directory;
    }
  }

  lemma {:induction false} PartsExact(path: string)
    ensures ".." in Parts(path, "") <==> Climbs(path)
    decreases |path|
  {
    if '/' in path {
      var directory, rest := FirstPart(path);
      PartsExact(rest);
      ClimbsSplit(directory, rest);
      PartsOfDirectory(directory, rest, "");
      assert "" + directory == directory;
    } else {
      PartsWithoutSlash(path, "");
      assert "" + path == path;
      ClimbsInName(path, 0);
      if i: nat :| ClimbsAt(path, i) {
        ClimbsInName(path, i);
      }
    }
  }

  /** What counts as a safe member name. */
  lemma SafeMemberExact(name: string)
    ensures SafeReportMember(name) <==> StaysInside(name)
  {
    PartsExact(name);
  }

  // ----- The members of a bundle

  ghost predicate RefersTo(e: Extension, ref: string) {
    exists name :: IsDetailName(e.id, e.version, name) && ref == "extensions/" + name + ".json"
  }

  lemma RefExact(e: Extension, ref: string)
    ensures RefersTo(e, ref) <==> ref == RefOf(e)
  {
    var own := SafeDetailName(e.id, e.version);
    DetailNameExact(e.id, e.version, own);
    assert RefersTo(e, RefOf(e));
    if name :| IsDetailName(e.id, e.version, name) && ref == "extensions/" + name + ".json" {
      DetailNameExact(e.id, e.version, name);
    }
  }

  /** The detail of the last extension that refers to the member. */
  ghost predicate IsLastDetail(extensions: seq<Extension>, m: Member) {
    exists k :: 0 <= k < |extensions| && RefersTo(extensions[k], m.name) && m.payload == extensions[k].detail
                && forall j :: k < j < |extensions| ==> !RefersTo(extensions[j], m.name)
  }

  ghost predicate HasDetail(members: seq<Member>, e: Extension) {
    exists i :: 6 <= i < |members| && RefersTo(e, members[i].name)
  }

  /** Six members first, and then the details by name, one for all extensions that share it. */
  ghost predicate AreMembers(members: seq<Member>, h: Heads, extensions: seq<Extension>) {
    && |members| >= 6
    && members[0] == Member("metadata.json", h.metadata) && members[1] == Member("summary.json", h.summary)
    && members[2] == Member("leaderboard.json", h.leaderboard) && members[3] == Member("posture.json", h.posture)
    && members[4] == Member("rules.json", h.rules) && members[5] == Member("cyclonedx.json", h.cyclonedx)
    && (forall i, j :: 6 <= i < j < |members| ==> Precedes(members[i].name, members[j].name))
    && (forall i :: 6 <= i < |members| ==> IsLastDetail(extensions, members[i]))
    && forall e :: e in extensions ==> HasDetail(members, e)
  }

  /** `ref` is that of the `k`th extension, with this detail, and of none after it. */
  ghost predicate LastAt(extensions: seq<Extension>, ref: string, detail: Bytes, k: nat) {
    && k < |extensions| && RefOf(extensions[k]) == ref && extensions[k].detail == detail
    && forall j :: k < j < |extensions| ==> RefOf(extensions[j]) != ref
  }

  lemma LastAtMore(extensions: seq<Extension>, e: Extension, ref: string, detail: Bytes, k: nat)
    requires LastAt(extensions, ref, detail, k) && RefOf(e) != ref
    ensures LastAt(extensions + [e], ref, detail, k)
  {
  }

  lemma {:induction false} LastByRef(extensions: seq<Extension>, ref: string) returns (k: nat)
    requires ref in Details(extensions)
    ensures LastAt(extensions, ref, Details(extensions)[ref], k)
  {
    k := |extensions| - 1;
    var rest, last := extensions[..k], extensions[k];
    if RefOf(last) != ref {
      k := LastByRef(rest, ref);
      LastAtMore(rest, last, ref, Details(rest)[ref], k);
      assert extensions == rest + [last];
    }
  }

  lemma LastIsLast(extensions: seq<Extension>, ref: string)
    requires ref in Details(extensions)
    ensures IsLastDetail(extensions, Member(ref, Details(extensions)[ref]))
  {
    var k := LastByRef(extensions, ref);
    forall j | 0 <= j < |extensions| ensures RefersTo(extensions[j], ref) <==> ref == RefOf(extensions[j]) {
      RefExact(extensions[j], ref);
    }
  }

  lemma NamedAscend(refs: seq<string>, members: seq<Member>)
    requires Strict(refs) && |members| == |refs| && forall i :: 0 <= i < |refs| ==> members[i].name == refs[i]
    ensures forall i, j :: 0 <= i < j < |refs| ==> Precedes(members[i].name, members[j].name)
  {
    forall i, j | 0 <= i < j < |refs| ensures Precedes(members[i].name, members[j].name) {
      BeforeExact(refs[i], refs[j]);
    }
  }

  lemma NamedHave(refs: seq<string>, details: map<string, Bytes>, e: Extension) returns (i: nat)
    requires Strict(refs) && (forall r :: r in refs ==> r in details) && RefOf(e) in refs
    ensures i < |Named(refs, details)| && RefersTo(e, Named(refs, details)[i].name)
  {
    NamedExact(refs, details);
    RefExact(e, RefOf(e));
    i :| 0 <= i < |refs| && refs[i] == RefOf(e);
  }

  lemma DetailsExact(extensions: seq<Extension>)
    ensures var named := Named(SortedRefs(extensions), Details(extensions));
            && (forall i, j :: 0 <= i < j < |named| ==> Precedes(named[i].name, named[j].name))
            && forall i :: 0 <= i < |named| ==> IsLastDetail(extensions, named[i])
  {
    var refs, details := SortedRefs(extensions), Details(extensions);
    RefsExact(extensions);
    NamedExact(refs, details);
    NamedAscend(refs, Named(refs, details));
    forall i | 0 <= i < |refs| ensures IsLastDetail(extensions, Named(refs, details)[i]) {
      assert refs[i] in refs;
      LastIsLast(extensions, refs[i]);
    }
  }

  lemma ExtensionsExact(extensions: seq<Extension>, e: Extension) returns (i: nat)
    requires e in extensions
    ensures var named := Named(SortedRefs(extensions), Details(extensions));
            i < |named| && RefersTo(e, named[i].name)
  {
    RefsExact(extensions);
    assert RefOf(e) in Details(extensions);
    i := NamedHave(SortedRefs(extensions), Details(extensions), e);
  }

  /** The members of every bundle. */
  lemma MembersExact(h: Heads, extensions: seq<Extension>)
    ensures AreMembers(BundleMembers(h, extensions), h, extensions)
  {
    var named, members := Named(SortedRefs(extensions), Details(extensions)), BundleMembers(h, extensions);
    DetailsExact(extensions);
    assert forall i :: 6 <= i < |members| ==> members[i] == named[i - 6];
    forall e | e in extensions ensures HasDetail(members, e) {
      var i := ExtensionsExact(extensions, e);
      assert members[i + 6] == named[i];
    }
  }

  // ----- The verdict on an archive

  /** All payloads together. */
  ghost function Size(archive: seq<Member>): nat {
    if archive == [] then 0 else Size(archive[..|archive| - 1]) + |archive[|archive| - 1].payload|
  }

  ghost predicate Holds(archive: seq<Member>, name: string) {
    exists i :: 0 <= i < |archive| && archive[i].name == name
  }

  ghost predicate IsListed(files: seq<File>, name: string) {
    exists i :: 0 <= i < |files| && files[i].name == name
  }

  /** The manifest lists exactly the members, but for itself and the provenance. */
  ghost predicate ListsMembers(archive: seq<Member>, files: seq<File>) {
    && (forall i :: 0 <= i < |archive| ==>
                      || archive[i].name == "integrity.json" || archive[i].name == "provenance.json"
                      || IsListed(files, archive[i].name))
    && forall k :: 0 <= k < |files| ==>
                     && files[k].name != "integrity.json" && files[k].name != "provenance.json"
                     && Holds(archive, files[k].name)
  }

  /** A record for a safe name. */
  ghost predicate IsEntry(file: File) {
    StaysInside(file.name) && file.claim.Some?
  }

  /** Some member has the name, and the size and the digest that are claimed. */
  ghost predicate IsTrue(archive: seq<Member>, file: File)
    requires file.claim.Some?
  {
    exists i :: 0 <= i < |archive| && archive[i].name == file.name
                && file.claim.value == Claim(Sha256(archive[i].payload), |archive[i].payload|)
  }

  ghost predicate IsGood(archive: seq<Member>, file: File) {
    IsEntry(file) && IsTrue(archive, file)
  }

  /** What the entries give, up to the first bad one. */
  ghost predicate EntriesGive(archive: seq<Member>, files: seq<File>, p: Option<Problem>) {
    match p
    case None => forall k :: 0 <= k < |files| ==> IsGood(archive, files[k])
    case Some(problem) =>
      exists k :: 0 <= k < |files| && !IsGood(archive, files[k])
                  && (forall j :: 0 <= j < k ==> IsGood(archive, files[j]))
                  && problem == if IsEntry(files[k]) then Failed(files[k].name) else BadEntry
  }

  ghost predicate ManifestGives(manifest: Option<Manifest>, archive: seq<Member>, p: Option<Problem>) {
    match manifest
    case None => p == Some(BadManifest)
    case Some(m) =>
      if m.schema != "guardrails.report-integrity.v1" then p == Some(BadSchema)
      else if m.files.None? || |m.files.value| == 0 then p == Some(NoFiles)
      else if !ListsMembers(archive, m.files.value) then p == Some(Mismatch)
      else EntriesGive(archive, m.files.value, p)
  }

  /** Limits first: twenty thousand members, 64 MB for each and 256 MB for all. */
  ghost predicate SizesGive(archive: seq<Member>, p: Option<Problem>) {
    if |archive| > 20_000 then p == Some(TooMany)
    else if exists i :: 0 <= i < |archive| && |archive[i].payload| > 67_108_864 then p == Some(TooLarge)
    else if Size(archive) > 268_435_456 then p == Some(TooLargeInAll)
    else p == None
  }

  /** Then names: each once, the manifest among them, and all of them safe. */
  ghost predicate NamesGive(archive: seq<Member>, p: Option<Problem>) {
    if exists i, j :: 0 <= i < j < |archive| && archive[i].name == archive[j].name then p == Some(Duplicate)
    else if !Holds(archive, "integrity.json") then p == Some(NoManifest)
    else if exists i :: 0 <= i < |archive| && !StaysInside(archive[i].name) then p == Some(Unsafe)
    else p == None
  }

  ghost predicate IsPayload(archive: seq<Member>, name: string, payload: Option<Bytes>) {
    match payload
    case None => !Holds(archive, name)
    case Some(bytes) => Member(name, bytes) in archive
  }

  /** Then the manifest with its entries, and its provenance last. */
  ghost predicate ContentGives(f: Format, archive: seq<Member>, p: Option<Problem>) {
    exists integrity, provenance ::
      && IsPayload(archive, "integrity.json", Some(integrity)) && IsPayload(archive, "provenance.json", provenance)
      && PayloadsGive(f, archive, integrity, provenance, p)
  }

  ghost predicate PayloadsGive(f: Format, archive: seq<Member>, integrity: Bytes, provenance: Option<Bytes>,
                               p: Option<Problem>)
  {
    if ManifestGives(f.decode(integrity), archive, None) then
      p == if f.accepts(integrity, provenance) then None else Some(Untrusted)
    else p.Some? && ManifestGives(f.decode(integrity), archive, p)
  }

  ghost predicate Gives(f: Format, archive: seq<Member>, p: Option<Problem>) {
    if !SizesGive(archive, None) then SizesGive(archive, p)
    else if !NamesGive(archive, None) then NamesGive(archive, p)
    else ContentGives(f, archive, p)
  }

  lemma {:induction false} TotalExact(archive: seq<Member>)
    ensures Total(archive) == Size(archive)
    decreases |archive|
  {
    if archive != [] {
      TotalMore(archive[..|archive| - 1], archive[|archive| - 1]);
      TotalExact(archive[..|archive| - 1]);
      assert archive == archive[..|archive| - 1] + [archive[|archive| - 1]];
    }
  }

  lemma {:induction false} TotalMore(archive: seq<Member>, m: Member)
    ensures Total(archive + [m]) == Total(archive) + |m.payload|
  {
    if archive == [] {
      assert archive + [m] == [m] && [m][1..] == [];
    } else {
      TotalMore(archive[1..], m);
      assert (archive + [m])[1..] == archive[1..] + [m];
    }
  }

  lemma SizesExact(archive: seq<Member>, p: Option<Problem>)
    ensures SizesGive(archive, p) <==> p == SizeProblem(archive)
  {
    TotalExact(archive);
  }

  lemma NamesMore(rest: seq<Member>, last: Member)
    ensures NamesOf(rest + [last]) == NamesOf(rest) + {last.name}
    ensures NamesDiffer(rest) && last.name !in NamesOf(rest) ==> NamesDiffer(rest + [last])
  {
    NamesOfBoth(rest, [last]);
    assert [last][0].name in NamesOf([last]);
  }

  lemma {:induction false} NamesAtMost(archive: seq<Member>)
    ensures |NamesOf(archive)| <= |archive|
    ensures |NamesOf(archive)| == |archive| ==> NamesDiffer(archive)
  {
    if archive != [] {
      var rest, last := archive[..|archive| - 1], archive[|archive| - 1];
      NamesAtMost(rest);
      NamesMore(rest, last);
      assert archive == rest + [last];
    }
  }

  lemma HoldsExact(archive: seq<Member>, files: seq<File>, name: string)
    ensures name in NamesOf(archive) <==> Holds(archive, name)
    ensures name in FileNames(files) <==> IsListed(files, name)
  {
  }

  lemma NamesExact(archive: seq<Member>, p: Option<Problem>)
    ensures NamesGive(archive, p) <==> p == NameProblem(archive)
  {
    NamesAtMost(archive);
    if NamesDiffer(archive) {
      NamesCount(archive);
    }
    PayloadExact(archive, "integrity.json");
    HoldsExact(archive, [], "integrity.json");
    forall name: string ensures SafeReportMember(name) <==> StaysInside(name) {
      SafeMemberExact(name);
    }
  }

  lemma {:induction false} PayloadIs(archive: seq<Member>, name: string)
    ensures IsPayload(archive, name, Payload(archive, name))
  {
    if archive != [] {
      PayloadIs(archive[1..], name);
      assert archive == [archive[0]] + archive[1..];
      assert forall i :: 0 < i < |archive| ==> archive[i] == archive[1..][i - 1];
    }
  }

  lemma PayloadOnce(archive: seq<Member>, name: string, payload: Option<Bytes>)
    requires NamesDiffer(archive)
    ensures IsPayload(archive, name, payload) <==> payload == Payload(archive, name)
  {
    PayloadIs(archive, name);
    if payload.Some? && IsPayload(archive, name, payload) {
      var i :| 0 <= i < |archive| && archive[i] == Member(name, payload.value);
      PayloadOf(archive, i);
    } else if payload.None? && IsPayload(archive, name, payload) {
      PayloadExact(archive, name);
    }
  }

  lemma TrueExact(archive: seq<Member>, file: File)
    requires NamesDiffer(archive) && file.claim.Some?
    ensures IsTrue(archive, file) <==>
            && Payload(archive, file.name).Some?
            && ClaimHolds(file.claim.value, Payload(archive, file.name).value)
  {
    var payload := Payload(archive, file.name);
    PayloadIs(archive, file.name);
    if payload.Some? {
      var i :| 0 <= i < |archive| && archive[i] == Member(file.name, payload.value);
      assert ClaimHolds(file.claim.value, payload.value) ==> IsTrue(archive, file);
    }
    if i :| 0 <= i < |archive| && archive[i].name == file.name
            && file.claim.value == Claim(Sha256(archive[i].payload), |archive[i].payload|) {
      PayloadOf(archive, i);
    }
  }

  lemma GoodExact(archive: seq<Member>, file: File)
    requires NamesDiffer(archive)
    ensures IsGood(archive, file) <==>
            && SafeReportMember(file.name) && file.claim.Some? && Payload(archive, file.name).Some?
            && ClaimHolds(file.claim.value, Payload(archive, file.name).value)
    ensures IsEntry(file) <==> SafeReportMember(file.name) && file.claim.Some?
  {
    SafeMemberExact(file.name);
    if file.claim.Some? {
      TrueExact(archive, file);
    }
  }

  lemma EntriesFirst(archive: seq<Member>, files: seq<File>, p: Option<Problem>)
    requires files != []
    ensures IsGood(archive, files[0]) ==> (EntriesGive(archive, files, p) <==> EntriesGive(archive, files[1..], p))
    ensures !IsGood(archive, files[0]) ==>
              (EntriesGive(archive, files, p) <==>
               p == Some(if IsEntry(files[0]) then Failed(files[0].name) else BadEntry))
  {
    var rest := files[1..];
    assert forall k :: 0 < k < |files| ==> files[k] == rest[k - 1];
    assert forall k :: 0 <= k < |rest| ==> rest[k] == files[k + 1];
  }

  lemma {:induction false} EntriesExact(archive: seq<Member>, files: seq<File>, p: Option<Problem>)
    requires NamesDiffer(archive)
    ensures EntriesGive(archive, files, p) <==> p == FileProblem(archive, files)
    decreases |files|
  {
    if files != [] {
      GoodExact(archive, files[0]);
      EntriesFirst(archive, files, p);
      EntriesExact(archive, files[1..], p);
    }
  }

  lemma ListedExact(archive: seq<Member>, files: seq<File>)
    ensures ListsMembers(archive, files) <==>
            NamesOf(archive) - {"integrity.json", "provenance.json"} == FileNames(files)
  {
    var names := NamesOf(archive) - {"integrity.json", "provenance.json"};
    if ListsMembers(archive, files) {
      forall name ensures name in names <==> name in FileNames(files) {
        HoldsExact(archive, files, name);
      }
    }
    if names == FileNames(files) {
      forall i | 0 <= i < |archive|
        ensures archive[i].name == "integrity.json" || archive[i].name == "provenance.json"
                || IsListed(files, archive[i].name)
      {
        HoldsExact(archive, files, archive[i].name);
      }
      forall k | 0 <= k < |files|
        ensures files[k].name != "integrity.json" && files[k].name != "provenance.json"
                && Holds(archive, files[k].name)
      {
        HoldsExact(archive, files, files[k].name);
      }
    }
  }

  lemma ManifestExact(f: Format, archive: seq<Member>, integrity: Bytes, p: Option<Problem>)
    requires NamesDiffer(archive)
    ensures ManifestGives(f.decode(integrity), archive, p) <==> p == ManifestProblem(f, archive, integrity)
  {
    var manifest := f.decode(integrity);
    if manifest.Some? && manifest.value.files.Some? {
      EntriesExact(archive, manifest.value.files.value, p);
      ListedExact(archive, manifest.value.files.value);
    }
  }

  lemma PayloadsExact(f: Format, archive: seq<Member>, p: Option<Problem>)
    requires SizeProblem(archive).None? && NameProblem(archive).None? && NamesDiffer(archive)
    ensures PayloadsGive(f, archive, Payload(archive, "integrity.json").value, Payload(archive, "provenance.json"), p)
       <==> p == FirstProblem(f, archive)
  {
    var integrity := Payload(archive, "integrity.json").value;
    ManifestExact(f, archive, integrity, None);
    ManifestExact(f, archive, integrity, p);
  }

  /** After sizes and names. */
  lemma ContentExact(f: Format, archive: seq<Member>, p: Option<Problem>)
    requires SizeProblem(archive).None? && NameProblem(archive).None?
    ensures ContentGives(f, archive, p) <==> p == FirstProblem(f, archive)
  {
    NamesAtMost(archive);
    PayloadsExact(f, archive, p);
    PayloadIs(archive, "integrity.json");
    PayloadIs(archive, "provenance.json");
    if integrity, provenance :|
      && IsPayload(archive, "integrity.json", Some(integrity))
      && IsPayload(archive, "provenance.json", provenance)
      && PayloadsGive(f, archive, integrity, provenance, p)
    {
      PayloadOnce(archive, "integrity.json", Some(integrity));
      PayloadOnce(archive, "provenance.json", provenance);
    }
  }

  /** The verdict on an archive is this, and no other. */
  lemma VerdictExact(f: Format, archive: seq<Member>, p: Option<Problem>)
    ensures Gives(f, archive, p) <==> p == FirstProblem(f, archive)
  {
    SizesExact(archive, None);
    SizesExact(archive, p);
    NamesExact(archive, None);
    NamesExact(archive, p);
    if SizeProblem(archive).None? && NameProblem(archive).None? {
      ContentExact(f, archive, p);
    }
  }
}
