/** Planning a publication: what a release or a hotfix may follow, and what a run of them leaves behind. */
module Publication {
  import opened Options

  /** A parsed JSON value; absent keys read as Null. */
  datatype Json =
    | Null | Bool(b: bool) | Num(n: int) | Real(x: real) | Str(s: string) | List(items: seq<Json>) | Dict(m: Fields)

  type Fields = map<string, Json>

  /** Which message a refusal carries is not modelled. */
  datatype Result<+T> = Ok(value: T) | Refused

  function Get(m: Fields, k: string): Json {
    if k in m then m[k] else Null
  }

  /** Numeric equality counts true as one, and whole reals as integers. */
  predicate IsNumber(j: Json, n: int) {
    j == Num(n) || j == Real(n as real) || (j == Bool(true) && n == 1) || (j == Bool(false) && n == 0)
  }

  // ------------------------------------------------------------------ names

  predicate Digit(c: char) {
    '0' <= c <= '9'
  }

  function FirstDot(s: string): (i: nat)
    ensures i <= |s|
  {
    if s == [] || s[0] == '.' then 0 else 1 + FirstDot(s[1..])
  }

  /** Numbers between dots, at least so many of them. */
  predicate Dotted(s: string, least: nat)
    decreases |s|
  {
    var d := FirstDot(s);
    && d > 0 && (forall c :: c in s[..d] ==> Digit(c))
    && if d == |s| then least <= 1 else Dotted(s[d + 1..], if least > 0 then least - 1 else 0)
  }

  predicate ProductTag(s: string) {
    |s| > 2 && ((s[..2] == "p-" && Dotted(s[2..], 2)) || (s[..2] == "r-" && Dotted(s[2..], 1)))
  }

  function Join(parts: seq<string>): string
    requires parts != []
  {
    if |parts| == 1 then parts[0] else parts[0] + "." + Join(parts[1..])
  }

  predicate Numbers(parts: seq<string>) {
    forall p :: p in parts ==> p != "" && forall c :: c in p ==> '0' <= c <= '9'
  }

  lemma {:induction false} FirstDotIs(s: string, i: nat)
    requires i <= |s| && (i < |s| ==> s[i] == '.') && forall k :: 0 <= k < i ==> s[k] != '.'
    ensures FirstDot(s) == i
    decreases |s|
  {
    if i > 0 {
      FirstDotIs(s[1..], i - 1);
    }
  }

  /** Numbers joined by dots are accepted exactly when there are enough of them. */
  lemma {:induction false} JoinedAccepted(parts: seq<string>, least: nat)
    requires parts != [] && Numbers(parts)
    ensures Dotted(Join(parts), least) <==> least <= |parts|
    decreases |parts|
  {
    var p, s := parts[0], Join(parts);
    assert p in parts;
    assert forall k :: 0 <= k < |p| ==> p[k] in p;
    assert forall k :: 0 <= k < |p| ==> s[k] == p[k];
    FirstDotIs(s, |p|);
    assert s[..|p|] == p;
    if |parts| > 1 {
      assert s[|p| + 1..] == Join(parts[1..]);
      assert forall q :: q in parts[1..] ==> q in parts;
      JoinedAccepted(parts[1..], if least > 0 then least - 1 else 0);
    }
  }

  /** And nothing else is accepted. */
  lemma {:induction false} AcceptedJoined(s: string, least: nat) returns (parts: seq<string>)
    requires Dotted(s, least)
    ensures parts != [] && Numbers(parts) && s == Join(parts)
    decreases |s|
  {
    var d := FirstDot(s);
    FirstDotBefore(s);
    if d == |s| {
      parts := [s];
      assert s[..d] == s;
    } else {
      var rest := AcceptedJoined(s[d + 1..], if least > 0 then least - 1 else 0);
      parts := [s[..d]] + rest;
      assert parts[1..] == rest;
      assert s == s[..d] + "." + s[d + 1..];
    }
  }

  lemma {:induction false} FirstDotBefore(s: string)
    ensures FirstDot(s) < |s| ==> s[FirstDot(s)] == '.'
    decreases |s|
  {
    if s != [] && s[0] != '.' {
      FirstDotBefore(s[1..]);
    }
  }

  /** A release is named p- and two numbers or more, or r- and one or more. */
  lemma ReleaseNames(parts: seq<string>)
    requires parts != [] && Numbers(parts)
    ensures ProductTag("r-" + Join(parts)) && (ProductTag("p-" + Join(parts)) <==> |parts| >= 2)
  {
    var s := Join(parts);
    assert parts[0] in parts && |s| > 0;
    assert ("r-" + s)[2..] == s && ("p-" + s)[2..] == s && ("r-" + s)[..2] == "r-" && ("p-" + s)[..2] == "p-";
    JoinedAccepted(parts, 1);
    JoinedAccepted(parts, 2);
  }

  predicate Sha(s: string) {
    |s| == 40 && forall c :: c in s ==> Digit(c) || 'a' <= c <= 'f'
  }

  /** A commit is named by forty lower-case hexadecimal digits. */
  lemma ShaExactlyWhen(s: string)
    ensures Sha(s) <==> |s| == 40 && forall i :: 0 <= i < 40 ==> s[i] in "0123456789abcdef"
  {
    assert forall c: char :: (Digit(c) || 'a' <= c <= 'f') <==> c in "0123456789abcdef";
    assert forall c :: c in s <==> exists i :: 0 <= i < |s| && s[i] == c;
  }

  function Version(tag: Json, n: Json): Result<(string, int)> {
    if tag.Str? && ProductTag(tag.s) && n.Num? && n.n >= 1 then Ok((tag.s, n.n)) else Refused
  }

  const BASE := "https://github.com/t0fox/z2kOW/releases/download/"
  const TECHNICAL := "openwrt-"
  const LEGACY := "/openwrt-rootfs.tar.gz"
  const PC := "/openwrt-rootfs-x86_64.tar.gz"
  const ARCHITECTURES := {"arm64", "arm", "x86_64", "x86", "mips", "mipsel", "riscv64"}

  predicate StartsWith(s: string, p: string) {
    |p| <= |s| && s[..|p|] == p
  }

  predicate EndsWith(s: string, p: string) {
    |p| <= |s| && s[|s| - |p|..] == p
  }

  /** The source commit in the address of an artifact. */
  function CommitOf(url: string, suffix: string): Result<string> {
    if !StartsWith(url, BASE) || !EndsWith(url, suffix) then Refused
    else
      var tag := if |url| < |BASE| + |suffix| then "" else url[|BASE|..|url| - |suffix|];
      if !StartsWith(tag, TECHNICAL) || !Sha(tag[|TECHNICAL|..]) then Refused
      else if url != BASE + tag + suffix then Refused
      else Ok(tag[|TECHNICAL|..])
  }

  /** Every commit is read back from the address made of it, and an accepted address is made of its commit. */
  lemma CommitRoundTrip(url: string, sha: string, suffix: string)
    ensures CommitOf(url, suffix) == Ok(sha) <==> Sha(sha) && url == BASE + (TECHNICAL + sha) + suffix
  {
    if Sha(sha) && url == BASE + (TECHNICAL + sha) + suffix {
      assert url[|BASE|..|url| - |suffix|] == TECHNICAL + sha;
      assert (TECHNICAL + sha)[|TECHNICAL|..] == sha;
    }
  }

  function PayloadCommit(manifest: Fields): Result<string> {
    if "artifacts" in manifest then
      var a := manifest["artifacts"];
      if !a.Dict? || a.m.Keys != ARCHITECTURES then Refused else Located(Get(a.m, "x86_64"), PC)
    else Located(Get(manifest, "artifact"), LEGACY)
  }

  /** The payload in production is the commit in the address of the x86_64 archive, of a full set of seven. */
  lemma SevenArtifacts(manifest: Fields, sha: string)
    requires "artifacts" in manifest
    ensures PayloadCommit(manifest) == Ok(sha) <==>
            && Sha(sha) && manifest["artifacts"].Dict?
            && var of := manifest["artifacts"].m;
               && of.Keys == {"arm", "arm64", "mips", "mipsel", "riscv64", "x86", "x86_64"}
               && of["x86_64"].Dict? && Get(of["x86_64"].m, "url") ==
                  Str("https://github.com/t0fox/z2kOW/releases/download/" + ("openwrt-" + sha)
                      + "/openwrt-rootfs-x86_64.tar.gz")
  {
    LocatedExactlyWhen(if manifest["artifacts"].Dict? then Get(manifest["artifacts"].m, "x86_64") else Null, PC, sha);
    hide Located;
  }

  /** Without such a set it is the commit in the address of the only archive. */
  lemma OneArtifact(manifest: Fields, sha: string)
    requires "artifacts" !in manifest
    ensures PayloadCommit(manifest) == Ok(sha) <==>
            && Sha(sha) && "artifact" in manifest && manifest["artifact"].Dict?
            && Get(manifest["artifact"].m, "url") ==
               Str("https://github.com/t0fox/z2kOW/releases/download/" + ("openwrt-" + sha) + "/openwrt-rootfs.tar.gz")
  {
    LocatedExactlyWhen(Get(manifest, "artifact"), LEGACY, sha);
    hide Located;
  }

  lemma LocatedExactlyWhen(artifact: Json, suffix: string, sha: string)
    ensures Located(artifact, suffix) == Ok(sha) <==>
            Sha(sha) && artifact.Dict? && Get(artifact.m, "url") == Str(BASE + (TECHNICAL + sha) + suffix)
  {
    hide CommitOf;
    if artifact.Dict? && Get(artifact.m, "url").Str? {
      CommitRoundTrip(Get(artifact.m, "url").s, sha, suffix);
    }
  }

  function Located(artifact: Json, suffix: string): Result<string> {
    if artifact.Dict? && Get(artifact.m, "url").Str? then CommitOf(Get(artifact.m, "url").s, suffix) else Refused
  }

  lemma PayloadCommitIsSha(manifest: Fields)
    ensures PayloadCommit(manifest).Ok? ==> Sha(PayloadCommit(manifest).value)
  {
  }

  predicate NeedsFallback(manifest: Fields) {
    "artifacts" !in manifest || "artifact" in manifest
  }

  // ------------------------------------------------------------------ the skip registry

  datatype Skip = Skip(n: int, reason: string, target: Option<string>)

  type Skips = map<string, Skip>

  /** The last place a tag stands at; -1 for a tag that is not there. */
  function LastIndex(tags: seq<string>, tag: string): (i: int)
    ensures -1 <= i < |tags| && (i >= 0 <==> tag in tags) && (i >= 0 ==> tags[i] == tag)
  {
    if tags == [] then -1
    else if tags[|tags| - 1] == tag then |tags| - 1
    else LastIndex(tags[..|tags| - 1], tag)
  }

  /** The white space of Python's str.strip. */
  const SPACES := "\t\n\U{0B}\U{0C}\r\U{1C}\U{1D}\U{1E}\U{1F} \U{85}\U{A0}\U{1680}\U{2000}\U{2001}\U{2002}\U{2003}" +
                  "\U{2004}\U{2005}\U{2006}\U{2007}\U{2008}\U{2009}\U{200A}\U{2028}\U{2029}\U{202F}\U{205F}\U{3000}"

  predicate Space(c: char) {
    c in SPACES
  }

  function StripFront(s: string): (t: string)
    ensures |t| <= |s|
  {
    if s == "" || !Space(s[0]) then s else StripFront(s[1..])
  }

  function StripBack(s: string): (t: string)
    ensures |t| <= |s|
  {
    if s == "" || !Space(s[|s| - 1]) then s else StripBack(s[..|s| - 1])
  }

  function Strip(s: string): string {
    StripBack(StripFront(s))
  }

  /** A text between white space comes out as it is, and white space alone as nothing. */
  lemma {:induction false} StripBetween(front: string, text: string, back: string)
    requires (forall c :: c in front ==> Space(c)) && forall c :: c in back ==> Space(c)
    requires text == "" || (!Space(text[0]) && !Space(text[|text| - 1]))
    ensures Strip(front + text + back) == text
    decreases |front|
  {
    hide Space;
    var s := front + text + back;
    if front != "" {
      assert s[1..] == front[1..] + text + back;
      StripBetween(front[1..], text, back);
    } else if text != "" {
      assert s == text + back && s[0] == text[0];
      StripBackAfter(text, back);
    } else {
      assert s == back;
      StripSpaces(back);
    }
  }

  lemma {:induction false} StripBackAfter(text: string, back: string)
    requires text != "" && !Space(text[|text| - 1]) && forall c :: c in back ==> Space(c)
    ensures StripBack(text + back) == text
    decreases |back|
  {
    hide Space;
    var s := text + back;
    if back == "" {
      assert s == text;
    } else {
      assert s[|s| - 1] == back[|back| - 1] && s[..|s| - 1] == text + back[..|back| - 1];
      StripBackAfter(text, back[..|back| - 1]);
    }
  }

  lemma {:induction false} StripSpaces(s: string)
    requires forall c :: c in s ==> Space(c)
    ensures Strip(s) == ""
    decreases |s|
  {
    hide Space;
    if s != "" {
      StripSpaces(s[1..]);
    }
  }

  /** One record on its own: a known tag, a number not beyond the latest, a reason, and a later target if included. */
  function SkipOf(record: Json, tags: seq<string>, latest: int): Result<(string, Skip)> {
    if !record.Dict? then Refused
    else
      var r := record.m;
      var version, included := Version(Get(r, "tag"), Get(r, "seq")), Get(r, "status") == Str("included");
      if version.Refused? then Refused
      else if r.Keys != {"tag", "seq", "status", "reason"} + (if included then {"target"} else {}) then Refused
      else
        var (tag, n) := version.value;
        var reason := Get(r, "reason");
        if n > latest || tag !in tags then Refused
        else if !included && Get(r, "status") != Str("not applicable") then Refused
        else if !reason.Str? || Strip(reason.s) == "" then Refused
        else if !included then Ok((tag, Skip(n, Strip(reason.s), None)))
        else
          var target := Get(r, "target");
          if !target.Str? || target.s !in tags || LastIndex(tags, target.s) <= LastIndex(tags, tag) then Refused
          else Ok((tag, Skip(n, Strip(reason.s), Some(target.s))))
  }

  /** A record that a release does not apply: accepted exactly with a known name, a number in range and a reason. */
  lemma NotApplicableExactlyWhen(tag: string, n: int, reason: string, tags: seq<string>, latest: int)
    ensures var record := Dict(map["tag" := Str(tag), "seq" := Num(n), "status" := Str("not applicable"),
                                   "reason" := Str(reason)]);
            SkipOf(record, tags, latest) ==
            if ProductTag(tag) && tag in tags && 1 <= n <= latest && Strip(reason) != ""
            then Ok((tag, Skip(n, Strip(reason), None))) else Refused
  {
    hide ProductTag, Strip, LastIndex;
    var r: Fields :=
      map["tag" := Str(tag), "seq" := Num(n), "status" := Str("not applicable"), "reason" := Str(reason)];
    assert r.Keys == {"tag", "seq", "status", "reason"} + {};
    assert Get(r, "tag") == Str(tag) && Get(r, "seq") == Num(n) && Get(r, "reason") == Str(reason);
    assert Get(r, "status") == Str("not applicable") != Str("included");
  }

  /** A record that a later release includes it: that release is named, and stands behind it in the history. */
  lemma IncludedExactlyWhen(tag: string, n: int, reason: string, target: string, tags: seq<string>, latest: int)
    ensures var record := Dict(map["tag" := Str(tag), "seq" := Num(n), "status" := Str("included"),
                                   "reason" := Str(reason), "target" := Str(target)]);
            SkipOf(record, tags, latest) ==
            if ProductTag(tag) && tag in tags && 1 <= n <= latest && Strip(reason) != ""
               && target in tags && LastIndex(tags, tag) < LastIndex(tags, target)
            then Ok((tag, Skip(n, Strip(reason), Some(target)))) else Refused
  {
    hide ProductTag, Strip, LastIndex;
    var r: Fields := map["tag" := Str(tag), "seq" := Num(n), "status" := Str("included"), "reason" := Str(reason),
                         "target" := Str(target)];
    assert r.Keys == {"tag", "seq", "status", "reason"} + {"target"};
    assert Get(r, "tag") == Str(tag) && Get(r, "seq") == Num(n) && Get(r, "reason") == Str(reason);
    assert Get(r, "status") == Str("included") && Get(r, "target") == Str(target);
  }

  predicate Numbered(skips: Skips, n: int) {
    exists t :: t in skips && skips[t].n == n
  }

  function SkipsOf(records: seq<Json>, tags: seq<string>, latest: int): Result<Skips> {
    if records == [] then Ok(map[])
    else
      var front, last := SkipsOf(records[..|records| - 1], tags, latest), SkipOf(records[|records| - 1], tags, latest);
      if front.Refused? || last.Refused? then Refused
      else
        var (tag, skip) := last.value;
        if tag in front.value || Numbered(front.value, skip.n) then Refused else Ok(front.value[tag := skip])
  }

  function Registry(registry: Option<Fields>, tags: seq<string>, latest: int): Result<Skips> {
    if registry.None? then Ok(map[])
    else if registry.value.Keys != {"schema", "skips"} || registry.value["schema"] != Num(1) then Refused
    else if !registry.value["skips"].List? then Refused
    else SkipsOf(registry.value["skips"].items, tags, latest)
  }

  /** A registry is read exactly as two keys, the schema number one, no truth value, and a list of records. */
  lemma RegistryExactlyWhen(m: Fields, items: seq<Json>, tags: seq<string>, latest: int)
    ensures m == map["schema" := Num(1), "skips" := List(items)] ==>
            Registry(Some(m), tags, latest) == SkipsOf(items, tags, latest)
    ensures Registry(Some(m), tags, latest).Ok? ==>
            exists l :: m == map["schema" := Num(1), "skips" := List(l)]
    ensures Registry(None, tags, latest) == Ok(map[])
  {
    if Registry(Some(m), tags, latest).Ok? {
      assert m == map["schema" := Num(1), "skips" := List(m["skips"].items)];
    }
  }

  /** What an accepted registry promises. */
  ghost predicate SoundSkips(skips: Skips, tags: seq<string>, latest: int) {
    && (forall t :: t in skips ==> t in tags && 1 <= skips[t].n <= latest)
    && (forall t, u :: t in skips && u in skips && skips[t].n == skips[u].n ==> t == u)
    && (forall t :: t in skips && skips[t].target.Some? ==> LastIndex(tags, t) < LastIndex(tags, skips[t].target.value))
  }

  lemma {:induction false} AcceptedSkipsSound(records: seq<Json>, tags: seq<string>, latest: int)
    requires SkipsOf(records, tags, latest).Ok?
    ensures SoundSkips(SkipsOf(records, tags, latest).value, tags, latest)
    ensures |SkipsOf(records, tags, latest).value| == |records|
  {
    hide LastIndex, SkipOf, SoundSkips;
    if records == [] {
      NoSkipsSound(tags, latest);
    } else {
      var front, last := records[..|records| - 1], records[|records| - 1];
      AcceptedSkipsSound(front, tags, latest);
      SkipSound(last, tags, latest);
      var (tag, skip) := SkipOf(last, tags, latest).value;
      SkipsGrow(SkipsOf(front, tags, latest).value, tag, skip, tags, latest);
    }
  }

  lemma NoSkipsSound(tags: seq<string>, latest: int)
    ensures SoundSkips(map[], tags, latest)
  {
  }

  lemma SkipsGrow(skips: Skips, tag: string, skip: Skip, tags: seq<string>, latest: int)
    requires SoundSkips(skips, tags, latest) && tag !in skips && !Numbered(skips, skip.n)
    requires tag in tags && 1 <= skip.n <= latest
    requires skip.target.Some? ==> LastIndex(tags, tag) < LastIndex(tags, skip.target.value)
    ensures SoundSkips(skips[tag := skip], tags, latest) && |skips[tag := skip]| == |skips| + 1
  {
    hide LastIndex;
  }

  lemma SkipSound(record: Json, tags: seq<string>, latest: int)
    requires SkipOf(record, tags, latest).Ok?
    ensures var (tag, skip) := SkipOf(record, tags, latest).value;
            && tag in tags && 1 <= skip.n <= latest
            && (skip.target.Some? ==> LastIndex(tags, tag) < LastIndex(tags, skip.target.value))
  {
    hide LastIndex, ProductTag, Strip;
  }

  /** The loop over the records: a dictionary by tag and the numbers seen so far. */
  method ValidateSkips(records: seq<Json>, tags: seq<string>, latest: int) returns (r: Result<Skips>)
    ensures r == SkipsOf(records, tags, latest)
  {
    hide SkipOf;
    var skipped: Skips := map[];
    var numbers: set<int> := {};
    for i := 0 to |records|
      invariant SkipsOf(records[..i], tags, latest) == Ok(skipped)
      invariant forall n :: n in numbers <==> Numbered(skipped, n)
    {
      assert records[..i + 1][..i] == records[..i];
      var one := SkipOf(records[i], tags, latest);
      if one.Refused? || one.value.0 in skipped || one.value.1.n in numbers {
        RefusedOnward(records, tags, latest, i + 1);
        return Refused;
      }
      NumberedOne(skipped, one.value.0, one.value.1);
      skipped, numbers := skipped[one.value.0 := one.value.1], numbers + {one.value.1.n};
    }
    assert records[..|records|] == records;
    r := Ok(skipped);
  }

  lemma NumberedOne(skips: Skips, tag: string, skip: Skip)
    requires tag !in skips
    ensures forall n :: Numbered(skips[tag := skip], n) <==> Numbered(skips, n) || n == skip.n
  {
    var more := skips[tag := skip];
    assert tag in more && more[tag].n == skip.n;
    forall n | Numbered(skips, n)
      ensures Numbered(more, n)
    {
      var t :| t in skips && skips[t].n == n;
      assert t in more && more[t].n == n;
    }
  }

  lemma {:induction false} RefusedOnward(records: seq<Json>, tags: seq<string>, latest: int, k: nat)
    requires k <= |records| && SkipsOf(records[..k], tags, latest).Refused?
    ensures SkipsOf(records, tags, latest).Refused?
    decreases |records| - k
  {
    if k < |records| {
      assert records[..k + 1][..k] == records[..k];
      RefusedOnward(records, tags, latest, k + 1);
    } else {
      assert records[..k] == records;
    }
  }

  // ------------------------------------------------------------------ the plan

  const RELEASE := "upstream-release"
  const HOTFIX := "hotfix"
  const BRANCH := "z2k-enhanced"

  /** One call of the planner, its view of the production manifest aside. */
  datatype Call = Call(operation: string, tag: Json, n: Json, commit: Json, upstream: Fields, upstreamCommit: Json,
                       registry: Option<Fields>, productExists: bool, technicalExists: bool)
  {
    function History(): seq<Json> {
      var h := Get(upstream, "history");
      if h.List? then h.items else []
    }
  }

  /** The release tag of a history entry. */
  function TagAt(history: seq<Json>, i: int): Json
    requires 0 <= i < |history|
  {
    if history[i].Dict? then Get(history[i].m, "v") else Null
  }

  function TagsOf(history: seq<Json>): Result<seq<string>> {
    if forall i :: 0 <= i < |history| ==> TagAt(history, i).Str? && TagAt(history, i).s != ""
    then Ok(seq(|history|, i requires 0 <= i < |history| && TagAt(history, i).Str? => TagAt(history, i).s))
    else Refused
  }

  /** The places a tag stands at. */
  function Places(tags: seq<string>, tag: string): set<int> {
    set i | 0 <= i < |tags| && tags[i] == tag
  }

  /** Every release strictly between is on record with its own number, and none belongs to another target. */
  predicate Accounted(release: seq<string>, base: int, target: string, skips: Skips) {
    forall k :: 0 < k < |release| - 1 ==>
      release[k] in skips && skips[release[k]].n == base + k
      && (skips[release[k]].target.None? || skips[release[k]].target == Some(target))
  }

  /** A release that follows the one in production: no gap between them is left unexplained. */
  predicate Follows(tags: seq<string>, target: (string, int), base: (string, int), skips: Result<Skips>) {
    && target.1 > base.1 && target.0 != base.0
    && |tags| >= 2 && tags[|tags| - 1] == target.0 && |Places(tags, target.0)| == 1 && |Places(tags, base.0)| == 1
    && var release := tags[LastIndex(tags, base.0)..];
       && |release| - 1 == target.1 - base.1
       && (forall i, j :: 0 <= i < j < |release| ==> release[i] != release[j])
       && (forall t :: t in release ==> ProductTag(t))
       && skips.Ok? && Accounted(release, base.1, target.0, skips.value)
  }

  function TechnicalTag(commit: string): string {
    TECHNICAL + commit
  }

  function TechnicalTitle(commit: string): string {
    "OpenWrt payload " + if |commit| < 7 then commit else commit[..7]
  }

  function Candidate(call: Call, commit: string, upstreamCommit: string, target: (string, int), base: (string, int),
                     payload: string, fallback: bool): Fields
  {
    map["schema" := Num(1), "operation" := Str(call.operation), "tag" := Str(target.0), "seq" := Num(target.1),
        "source_sha" := Str(commit), "technical_tag" := Str(TechnicalTag(commit)),
        "technical_title" := Str(TechnicalTitle(commit)),
        "product_tag" := if call.operation == RELEASE then Str(target.0) else Null,
        "upstream_commit" := Str(upstreamCommit), "base_current" := Str(base.0), "base_seq" := Num(base.1),
        "base_payload_sha" := Str(payload), "include_legacy_fallback" := Bool(fallback)]
  }

  /** What both operations ask for, whatever they publish. */
  predicate WellFormed(call: Call, controlled: Fields) {
    && call.operation in {RELEASE, HOTFIX}
    && call.commit.Str? && Sha(call.commit.s) && call.upstreamCommit.Str? && Sha(call.upstreamCommit.s)
    && Get(call.upstream, "branch") == Str(BRANCH)
    && Version(Get(call.upstream, "current"), Get(call.upstream, "seq")).Ok?
    && Version(Get(controlled, "current"), Get(controlled, "seq")).Ok?
    && Version(call.tag, call.n) == Version(Get(call.upstream, "current"), Get(call.upstream, "seq"))
    && call.History() != [] && (forall e :: e in call.History() ==> e.Dict?)
    && TagAt(call.History(), |call.History()| - 1) == Get(call.upstream, "current")
    && PayloadCommit(controlled).Ok?
  }

  function Target(call: Call): Result<(string, int)> {
    Version(Get(call.upstream, "current"), Get(call.upstream, "seq"))
  }

  function Current(manifest: Fields): Result<(string, int)> {
    Version(Get(manifest, "current"), Get(manifest, "seq"))
  }

  predicate MayRelease(call: Call, target: (string, int), base: (string, int)) {
    var tags := TagsOf(call.History());
    && tags.Ok? && Follows(tags.value, target, base, Registry(call.registry, tags.value, target.1))
    && !call.productExists && !call.technicalExists
  }

  predicate MayFix(call: Call, target: (string, int), base: (string, int), payload: string) {
    target == base && !call.technicalExists && call.commit != Str(payload)
  }

  function Plan(call: Call, controlled: Fields): Result<Fields> {
    if !WellFormed(call, controlled) then Refused
    else
      var target, base, payload := Target(call).value, Current(controlled).value, PayloadCommit(controlled).value;
      if (if call.operation == RELEASE then MayRelease(call, target, base) else MayFix(call, target, base, payload))
      then Ok(Candidate(call, call.commit.s, call.upstreamCommit.s, target, base, payload, NeedsFallback(controlled)))
      else Refused
  }

  // ------------------------------------------------------------------ checks of a candidate

  predicate Moves(operation: Json, base: Result<(string, int)>, tag: string, n: int) {
    base.Ok? && if operation == Str(HOTFIX) then base.value == (tag, n) else n > base.value.1 && tag != base.value.0
  }

  predicate Validates(c: Fields, commit: string, tag: string, n: int) {
    && IsNumber(Get(c, "schema"), 1)
    && (Get(c, "operation") == Str(RELEASE) || Get(c, "operation") == Str(HOTFIX))
    && Version(Get(c, "tag"), Get(c, "seq")) == Ok((tag, n))
    && Get(c, "source_sha") == Str(commit) && Sha(commit)
    && Get(c, "technical_tag") == Str(TechnicalTag(commit)) && Get(c, "technical_title") == Str(TechnicalTitle(commit))
    && Get(c, "product_tag") == (if Get(c, "operation") == Str(RELEASE) then Str(tag) else Null)
    && Moves(Get(c, "operation"), Version(Get(c, "base_current"), Get(c, "base_seq")), tag, n)
    && Get(c, "base_payload_sha").Str? && Sha(Get(c, "base_payload_sha").s)
    && Get(c, "upstream_commit").Str? && Sha(Get(c, "upstream_commit").s)
    && Get(c, "include_legacy_fallback").Bool?
  }

  /** Of the values a schema may have, Python takes one, true and 1.0 for one, and nothing else. */
  lemma SchemaExactlyWhen(c: Fields, j: Json, commit: string, tag: string, n: int)
    requires Validates(c, commit, tag, n)
    ensures Validates(c["schema" := j], commit, tag, n) <==> j in {Num(1), Bool(true), Real(1.0)}
  {
    var d := c["schema" := j];
    assert forall k :: k != "schema" ==> Get(d, k) == Get(c, k);
    hide Version, Sha, TechnicalTag, TechnicalTitle, Moves;
  }

  datatype Standing = Baseline | Published

  predicate IsTriple(c: Fields, tag: string, n: string, commit: string, current: (string, int), payload: string) {
    Get(c, tag) == Str(current.0) && IsNumber(Get(c, n), current.1) && Get(c, commit) == Str(payload)
  }

  const TRIPLES := {"base_current", "base_seq", "base_payload_sha", "tag", "seq", "source_sha"}

  function ManifestState(manifest: Fields, c: Fields): Result<Standing> {
    if !(TRIPLES <= c.Keys) || Current(manifest).Refused? || PayloadCommit(manifest).Refused? then Refused
    else
      var current, payload := Current(manifest).value, PayloadCommit(manifest).value;
      if IsTriple(c, "base_current", "base_seq", "base_payload_sha", current, payload) then Ok(Baseline)
      else if IsTriple(c, "tag", "seq", "source_sha", current, payload) then Ok(Published)
      else Refused
  }
}
