/**
 Report bundles: naming the detail of each extension, writing an archive with a manifest of
 digests, and verifying an archive against its manifest.

 SHA-256 is taken to be injective.  JSON and signatures are given: how a manifest is written
 and read, and which provenance is accepted for it.
 */
module ReportBundle {
  import opened Options
  import opened Ordering

  type Bytes = seq<bv8>

  datatype Digest = Sha256(preimage: Bytes)

  // ----- Names

  predicate IsNameChar(c: char) {
    'A' <= c <= 'Z' || 'a' <= c <= 'z' || '0' <= c <= '9' || c == '.' || c == '_' || c == '@' || c == '-'
  }

  /** Each run of other characters becomes one underscore; `inside` one already written. */
  function Squeezed(raw: string, inside: bool): string {
    if raw == "" then ""
    else if IsNameChar(raw[0]) then [raw[0]] + Squeezed(raw[1..], false)
    else (if inside then "" else "_") + Squeezed(raw[1..], true)
  }

  predicate IsTrimmed(c: char) {
    c == '.' || c == '_'
  }

  function TrimmedLeft(s: string): string {
    if s != "" && IsTrimmed(s[0]) then TrimmedLeft(s[1..]) else s
  }

  function TrimmedRight(s: string): string {
    if s != "" && IsTrimmed(s[|s| - 1]) then TrimmedRight(s[..|s| - 1]) else s
  }

  function SafeDetailName(extensionId: string, version: string): string {
    var name := TrimmedRight(TrimmedLeft(Squeezed(extensionId + "@" + version, false)));
    if name == "" then "extension" else name
  }

  function DetailRef(extensionId: string, version: string): string {
    "extensions/" + SafeDetailName(extensionId, version) + ".json"
  }

  /** The parts of a path: between slashes, without empty ones and dots. */
  function Parts(path: string, part: string): seq<string> {
    if path == "" then (if part == "" || part == "." then [] else [part])
    else if path[0] == '/' then (if part == "" || part == "." then [] else [part]) + Parts(path[1..], "")
    else Parts(path[1..], part + [path[0]])
  }

  /** A name that stays inside the directory it is unpacked into. */
  predicate SafeReportMember(name: string) {
    name != "" && name[0] != '/' && ".." !in Parts(name, "") && name[|name| - 1] != '/'
  }

  lemma {:induction false} SqueezedChars(raw: string, inside: bool)
    ensures forall c :: c in Squeezed(raw, inside) ==> IsNameChar(c)
    ensures '@' in raw ==> '@' in Squeezed(raw, inside)
  {
    if raw != "" {
      assert raw == [raw[0]] + raw[1..];
      SqueezedChars(raw[1..], !IsNameChar(raw[0]));
    }
  }

  lemma {:induction false} TrimmedLeftKeeps(s: string)
    ensures forall c :: c in TrimmedLeft(s) ==> c in s
    ensures '@' in s ==> '@' in TrimmedLeft(s)
    ensures TrimmedLeft(s) != "" ==> !IsTrimmed(TrimmedLeft(s)[0])
  {
    if s != "" && IsTrimmed(s[0]) {
      TrimmedLeftKeeps(s[1..]);
      assert s == [s[0]] + s[1..];
    }
  }

  lemma {:induction false} TrimmedRightKeeps(s: string)
    ensures TrimmedRight(s) <= s
    ensures '@' in s ==> '@' in TrimmedRight(s)
    ensures TrimmedRight(s) != "" ==> !IsTrimmed(TrimmedRight(s)[|TrimmedRight(s)| - 1])
  {
    if s != "" && IsTrimmed(s[|s| - 1]) {
      TrimmedRightKeeps(s[..|s| - 1]);
      assert s == s[..|s| - 1] + [s[|s| - 1]];
    }
  }

  /** A detail's name is of safe characters, starts and ends with neither dot nor underscore,
      and still has the sign between identifier and version, so it never falls back. */
  lemma DetailNameIsSafe(extensionId: string, version: string)
    ensures var name := SafeDetailName(extensionId, version);
            && name != "" && (forall c :: c in name ==> IsNameChar(c))
            && '@' in name
            && !IsTrimmed(name[0]) && !IsTrimmed(name[|name| - 1])
  {
    var raw := extensionId + "@" + version;
    assert raw[|extensionId|] == '@';
    var squeezed := Squeezed(raw, false);
    SqueezedChars(raw, false);
    TrimmedLeftKeeps(squeezed);
    var left := TrimmedLeft(squeezed);
    TrimmedRightKeeps(left);
    var name := TrimmedRight(left);
    assert name <= left;
    forall c | c in name ensures c in left {
      var i :| 0 <= i < |name| && name[i] == c;
      assert left[i] == c;
    }
    assert name != "" ==> name[0] == left[0];
  }

  lemma {:induction false} PartsWithoutSlash(path: string, part: string)
    requires '/' !in path
    ensures Parts(path, part) == if part + path == "" || part + path == "." then [] else [part + path]
    decreases |path|
  {
    if path == "" {
      assert part + path == part;
    } else {
      assert path == [path[0]] + path[1..];
      PartsWithoutSlash(path[1..], part + [path[0]]);
      assert part + path == part + [path[0]] + path[1..];
    }
  }

  lemma {:induction false} PartsOfDirectory(directory: string, rest: string, part: string)
    requires '/' !in directory
    ensures Parts(directory + "/" + rest, part)
         == (if part + directory == "" || part + directory == "." then [] else [part + directory]) + Parts(rest, "")
    decreases |directory|
  {
    var path := directory + "/" + rest;
    if directory == "" {
      assert part + directory == part;
      assert path[1..] == rest;
    } else {
      assert directory == [directory[0]] + directory[1..];
      PartsOfDirectory(directory[1..], rest, part + [directory[0]]);
      assert path[1..] == directory[1..] + "/" + rest;
      assert part + directory == part + [directory[0]] + directory[1..];
    }
  }

  /** Every detail's reference is a safe member name in the directory of details. */
  lemma DetailRefIsSafe(extensionId: string, version: string)
    ensures var ref := DetailRef(extensionId, version);
            && SafeReportMember(ref)
            && Parts(ref, "") == ["extensions", SafeDetailName(extensionId, version) + ".json"]
  {
    var name := SafeDetailName(extensionId, version);
    var file := name + ".json";
    DetailNameIsSafe(extensionId, version);
    assert '/' !in file by {
      forall c | c in file ensures c != '/' {
        assert c in name || c in ".json";
      }
    }
    PartsWithoutSlash(file, "");
    assert "" + file == file;
    PartsOfDirectory("extensions", file, "");
    assert "" + "extensions" == "extensions";
    assert DetailRef(extensionId, version) == "extensions" + "/" + file;
    assert file[|file| - 1] == 'n' && file[|file| - 2] == 'o';
  }

  /** Different extensions may share a reference. */
  lemma RefsCollide()
    ensures DetailRef("a b", "1") == DetailRef("a_b", "1")
  {
    assert "a b" + "@" + "1" == "a b@1" && "a_b" + "@" + "1" == "a_b@1";
    assert "a b@1"[1..] == " b@1" && " b@1"[1..] == "b@1";
    Plain("b@1", true);
    assert Squeezed("a b@1", false) == ['a'] + (['_'] + "b@1") == "a_b@1";
    Plain("a_b@1", false);
  }

  lemma {:induction false} Plain(s: string, inside: bool)
    requires forall i :: 0 <= i < |s| ==> IsNameChar(s[i])
    ensures Squeezed(s, inside) == s
  {
    if s != "" {
      Plain(s[1..], false);
    }
  }

  /** A name that is safe as it is stays as it is. */
  lemma SafeNameIsKept(extensionId: string, version: string)
    requires var raw := extensionId + "@" + version;
             (forall i :: 0 <= i < |raw| ==> IsNameChar(raw[i])) && !IsTrimmed(raw[0]) && !IsTrimmed(raw[|raw| - 1])
    ensures SafeDetailName(extensionId, version) == extensionId + "@" + version
  {
    Plain(extensionId + "@" + version, false);
  }

  // ----- The bundle

  datatype Extension = Extension(id: string, version: string, detail: Bytes)

  function RefOf(e: Extension): string {
    DetailRef(e.id, e.version)
  }

  /** The details by reference; of those that share one the last stays. */
  function Details(extensions: seq<Extension>): map<string, Bytes> {
    if extensions == [] then map[]
    else
      var last := extensions[|extensions| - 1];
      Details(extensions[..|extensions| - 1])[RefOf(last) := last.detail]
  }

  /** Puts a name where it belongs in an ascending row that may have it already. */
  function InsertOnce(x: string, s: seq<string>): seq<string> {
    if s == [] then [x]
    else if s[0] == x then s
    else if Before(s[0], x) then [s[0]] + InsertOnce(x, s[1..])
    else [x] + s
  }

  /** The references of the details, sorted. */
  function SortedRefs(extensions: seq<Extension>): seq<string> {
    if extensions == [] then []
    else InsertOnce(RefOf(extensions[|extensions| - 1]), SortedRefs(extensions[..|extensions| - 1]))
  }

  datatype Member = Member(name: string, payload: Bytes)

  datatype Heads = Heads(metadata: Bytes, summary: Bytes, leaderboard: Bytes, posture: Bytes, rules: Bytes,
                         cyclonedx: Bytes)

  function HeadMembers(h: Heads): seq<Member> {
    [Member("metadata.json", h.metadata), Member("summary.json", h.summary), Member("leaderboard.json", h.leaderboard),
     Member("posture.json", h.posture), Member("rules.json", h.rules), Member("cyclonedx.json", h.cyclonedx)]
  }

  function Named(refs: seq<string>, details: map<string, Bytes>): seq<Member> {
    if refs == [] then []
    else (if refs[0] in details then [Member(refs[0], details[refs[0]])] else []) + Named(refs[1..], details)
  }

  /** The members of a bundle, the details sorted by reference. */
  function BundleMembers(h: Heads, extensions: seq<Extension>): seq<Member> {
    HeadMembers(h) + Named(SortedRefs(extensions), Details(extensions))
  }

  ghost predicate NamesDiffer(members: seq<Member>) {
    forall i, j :: 0 <= i < j < |members| ==> members[i].name != members[j].name
  }

  ghost predicate Strict(s: seq<string>) {
    forall i, j :: 0 <= i < j < |s| ==> Before(s[i], s[j])
  }

  lemma {:induction false} InsertOnceStrict(x: string, s: seq<string>)
    requires Strict(s)
    ensures Strict(InsertOnce(x, s))
    ensures forall r :: r in InsertOnce(x, s) <==> r == x || r in s
  {
    if s != [] {
      assert s == [s[0]] + s[1..];
      BeforeTotal(s[0], x);
      if Before(s[0], x) {
        var rest := InsertOnce(x, s[1..]);
        InsertOnceStrict(x, s[1..]);
        forall j | 0 <= j < |rest| ensures Before(s[0], rest[j]) {
          assert rest[j] in rest;
        }
      } else if s[0] != x {
        forall j | 0 <= j < |s| ensures Before(x, s[j]) {
          if j > 0 {
            BeforeTransitive(x, s[0], s[j]);
          }
        }
      }
    }
  }

  /** The references of a bundle are those of its extensions, each once, and behind each is
      the detail of the last extension that has it. */
  lemma {:induction false} RefsExact(extensions: seq<Extension>)
    ensures Strict(SortedRefs(extensions))
    ensures forall r :: r in SortedRefs(extensions) <==> r in Details(extensions)
    ensures forall r :: r in Details(extensions) <==> exists e :: e in extensions && RefOf(e) == r
  {
    if extensions != [] {
      var rest, last := extensions[..|extensions| - 1], extensions[|extensions| - 1];
      RefsExact(rest);
      InsertOnceStrict(RefOf(last), SortedRefs(rest));
      assert extensions == rest + [last];
    }
  }

  ghost function LastWith(extensions: seq<Extension>, ref: string): Option<Extension> {
    if extensions == [] then None
    else if RefOf(extensions[|extensions| - 1]) == ref then Some(extensions[|extensions| - 1])
    else LastWith(extensions[..|extensions| - 1], ref)
  }

  lemma {:induction false} DetailsAreLast(extensions: seq<Extension>, ref: string)
    ensures match LastWith(extensions, ref)
            case Some(e) => e in extensions && RefOf(e) == ref && ref in Details(extensions)
                            && Details(extensions)[ref] == e.detail
            case None => ref !in Details(extensions)
  {
    if extensions != [] {
      DetailsAreLast(extensions[..|extensions| - 1], ref);
      assert extensions == extensions[..|extensions| - 1] + [extensions[|extensions| - 1]];
    }
  }

  lemma {:induction false} NamedExact(refs: seq<string>, details: map<string, Bytes>)
    requires Strict(refs) && forall r :: r in refs ==> r in details
    ensures |Named(refs, details)| == |refs|
    ensures forall i :: 0 <= i < |refs| ==> Named(refs, details)[i] == Member(refs[i], details[refs[i]])
  {
    if refs != [] {
      assert refs == [refs[0]] + refs[1..];
      NamedExact(refs[1..], details);
    }
  }

  lemma IrreflexiveNames(refs: seq<string>)
    requires Strict(refs)
    ensures forall i, j :: 0 <= i < j < |refs| ==> refs[i] != refs[j]
  {
    forall i, j | 0 <= i < j < |refs| ensures refs[i] != refs[j] {
      BeforeTotal(refs[i], refs[j]);
    }
  }

  predicate IsDetailName(name: string) {
    "extensions/" <= name
  }

  predicate IsReserved(name: string) {
    name == "integrity.json" || name == "provenance.json"
  }

  /** A name that is neither unsafe nor one of the two that are written last. */
  predicate IsFree(name: string) {
    SafeReportMember(name) && !IsReserved(name)
  }

  lemma NamedIsFree(extensions: seq<Extension>)
    ensures var named := Named(SortedRefs(extensions), Details(extensions));
            NamesDiffer(named) && forall i :: 0 <= i < |named| ==> IsDetailName(named[i].name) && IsFree(named[i].name)
  {
    var refs := SortedRefs(extensions);
    RefsExact(extensions);
    NamedExact(refs, Details(extensions));
    IrreflexiveNames(refs);
    forall i | 0 <= i < |refs| ensures IsDetailName(refs[i]) && IsFree(refs[i]) {
      assert refs[i] in refs;
      var e :| e in extensions && RefOf(e) == refs[i];
      DetailRefIsSafe(e.id, e.version);
      assert refs[i][0] == 'e';
    }
  }

  /** Every member of a bundle has a name of its own, safe and free. */
  lemma MembersAreFree(h: Heads, extensions: seq<Extension>)
    ensures NamesDiffer(BundleMembers(h, extensions))
    ensures forall m :: m in BundleMembers(h, extensions) ==> IsFree(m.name)
  {
    var heads, named := HeadMembers(h), Named(SortedRefs(extensions), Details(extensions));
    NamedIsFree(extensions);
    HeadsDiffer(h);
    HeadsAreFlat(h);
    forall i | 0 <= i < |heads| ensures !IsDetailName(heads[i].name) && IsFree(heads[i].name) {
      FlatNameIsSafe(heads[i].name);
    }
    DifferentNames(heads, named);
  }

  /** Every detail that the leaderboard refers to is there, even when references collide:
      behind a shared one is the last extension's. */
  lemma EveryRefIsAMember(h: Heads, extensions: seq<Extension>, e: Extension)
    requires e in extensions
    ensures var last := LastWith(extensions, RefOf(e));
            last.Some? && last.value in extensions && RefOf(last.value) == RefOf(e)
            && Member(RefOf(e), last.value.detail) in BundleMembers(h, extensions)
  {
    var refs, details := SortedRefs(extensions), Details(extensions);
    RefsExact(extensions);
    NamedExact(refs, details);
    DetailsAreLast(extensions, RefOf(e));
    var i :| 0 <= i < |refs| && refs[i] == RefOf(e);
    assert Named(refs, details)[i] in Named(refs, details);
  }

  predicate IsFlat(name: string) {
    |name| > 2 && '/' !in name
  }

  lemma DetailNameHasSlash(name: string)
    requires IsDetailName(name)
    ensures '/' in name
  {
    assert name[10] == '/';
  }

  lemma FlatNameIsSafe(name: string)
    requires IsFlat(name)
    ensures SafeReportMember(name) && !IsDetailName(name)
  {
    PartsWithoutSlash(name, "");
    assert "" + name == name;
    if IsDetailName(name) {
      DetailNameHasSlash(name);
    }
  }

  lemma HeadsDiffer(h: Heads)
    ensures NamesDiffer(HeadMembers(h))
    ensures forall i :: 0 <= i < 6 ==> !IsReserved(HeadMembers(h)[i].name)
  {
    assert "metadata.json"[1] == 'e' && "summary.json"[1] == 'u' && "leaderboard.json"[1] == 'e'
           && "posture.json"[1] == 'o'
           && "rules.json"[0] == 'r' && "cyclonedx.json"[1] == 'y' && "integrity.json"[1] == 'n'
           && "provenance.json"[1] == 'r';
  }

  lemma HeadsAreFlat(h: Heads)
    ensures forall i :: 0 <= i < 6 ==> IsFlat(HeadMembers(h)[i].name)
  {
    assert IsFlat("metadata.json");
    assert IsFlat("summary.json");
    assert IsFlat("leaderboard.json");
    assert IsFlat("posture.json");
    assert IsFlat("rules.json");
    assert IsFlat("cyclonedx.json");
  }

  lemma DifferentNames(heads: seq<Member>, named: seq<Member>)
    requires NamesDiffer(heads) && NamesDiffer(named)
    requires forall i :: 0 <= i < |heads| ==> !IsDetailName(heads[i].name)
    requires forall i :: 0 <= i < |named| ==> IsDetailName(named[i].name)
    ensures NamesDiffer(heads + named)
  {
  }
}
