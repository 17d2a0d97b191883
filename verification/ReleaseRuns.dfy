/** Whole runs of publications over an upstream history that only grows. */
module ReleaseRuns {
  import opened Options
  import opened Publication

  /** What a plan that was made says. */
  lemma PlanMeans(call: Call, controlled: Fields)
    requires Plan(call, controlled).Ok?
    ensures WellFormed(call, controlled) && Target(call).Ok? && Current(controlled).Ok? && PayloadCommit(controlled).Ok?
    ensures var c, target, base := Plan(call, controlled).value, Target(call).value, Current(controlled).value;
            && TRIPLES <= c.Keys
            && c["tag"] == Str(target.0) && c["seq"] == Num(target.1) && c["source_sha"] == call.commit
            && c["base_current"] == Str(base.0) && c["base_seq"] == Num(base.1)
            && c["base_payload_sha"] == Str(PayloadCommit(controlled).value)
    ensures if call.operation == RELEASE then MayRelease(call, Target(call).value, Current(controlled).value)
            else MayFix(call, Target(call).value, Current(controlled).value, PayloadCommit(controlled).value)
  {
    hide MayRelease, Version, PayloadCommit, Sha;
  }

  lemma CandidateReads(call: Call, commit: string, upstreamCommit: string, target: (string, int), base: (string, int),
                       payload: string, fallback: bool)
    ensures var c := Candidate(call, commit, upstreamCommit, target, base, payload, fallback);
            && Get(c, "schema") == Num(1) && Get(c, "operation") == Str(call.operation)
            && Get(c, "tag") == Str(target.0) && Get(c, "seq") == Num(target.1) && Get(c, "source_sha") == Str(commit)
            && Get(c, "technical_tag") == Str(TechnicalTag(commit))
            && Get(c, "technical_title") == Str(TechnicalTitle(commit))
            && Get(c, "product_tag") == (if call.operation == RELEASE then Str(target.0) else Null)
            && Get(c, "upstream_commit") == Str(upstreamCommit)
            && Get(c, "base_current") == Str(base.0) && Get(c, "base_seq") == Num(base.1)
            && Get(c, "base_payload_sha") == Str(payload) && Get(c, "include_legacy_fallback") == Bool(fallback)
  {
    hide TechnicalTitle, TechnicalTag;
  }

  lemma VersionReads(tag: Json, n: Json)
    requires Version(tag, n).Ok?
    ensures tag == Str(Version(tag, n).value.0) && n == Num(Version(tag, n).value.1)
  {
  }

  /** Every plan passes the check of candidates, under its own commit, tag and number. */
  lemma PlanValidates(call: Call, controlled: Fields)
    requires Plan(call, controlled).Ok?
    ensures call.commit.Str? && Target(call).Ok?
    ensures Validates(Plan(call, controlled).value, call.commit.s, Target(call).value.0, Target(call).value.1)
  {
    hide Sha, Version, TechnicalTitle, TechnicalTag, Candidate, PayloadCommit, Get, NeedsFallback, Follows;
    PayloadCommitIsSha(controlled);
    var target, base := Target(call).value, Current(controlled).value;
    CandidateReads(call, call.commit.s, call.upstreamCommit.s, target, base, PayloadCommit(controlled).value,
                   NeedsFallback(controlled));
    VersionReads(Get(call.upstream, "current"), Get(call.upstream, "seq"));
    VersionReads(Get(controlled, "current"), Get(controlled, "seq"));
    if call.operation == RELEASE {
      ReleaseMoves(call, target, base);
    }
  }

  lemma ReleaseMoves(call: Call, target: (string, int), base: (string, int))
    requires MayRelease(call, target, base)
    ensures target.1 > base.1 && target.0 != base.0
  {
  }

  /** Base and target never coincide: a release moves the number, a hotfix moves the payload. */
  lemma BaseIsNotTarget(call: Call, controlled: Fields)
    requires Plan(call, controlled).Ok?
    ensures var c := Plan(call, controlled).value;
            c["seq"] != c["base_seq"] || c["source_sha"] != c["base_payload_sha"]
  {
    hide Version, PayloadCommit, Sha;
    PlanMeans(call, controlled);
  }

  /** One publication: the call, and the production manifest once it is out. */
  datatype Shipment = Shipment(call: Call, manifest: Fields)

  ghost predicate Step(before: Fields, p: Shipment) {
    Plan(p.call, before).Ok? && ManifestState(p.manifest, Plan(p.call, before).value) == Ok(Published)
  }

  /** Publications one after another, each planned on what the one before left, over a history that only grows. */
  ghost predicate Run(start: Fields, run: seq<Shipment>)
    decreases |run|
  {
    run == []
    || (var front, last := run[..|run| - 1], run[|run| - 1];
        Run(start, front) && Step(After(start, front), last)
        && (front == [] || front[|front| - 1].call.History() <= last.call.History()))
  }

  function After(start: Fields, run: seq<Shipment>): Fields {
    if run == [] then start else run[|run| - 1].manifest
  }

  /** A publication leaves its own target in production, and does not read as its own baseline. */
  lemma StepMoves(before: Fields, p: Shipment)
    requires Step(before, p)
    ensures Current(before).Ok? && Current(p.manifest).Ok? && WellFormed(p.call, before)
    ensures Current(p.manifest) == Target(p.call) && PayloadCommit(p.manifest) == Ok(p.call.commit.s)
    ensures if p.call.operation == RELEASE then MayRelease(p.call, Current(p.manifest).value, Current(before).value)
            else Current(p.manifest) == Current(before)
    ensures ManifestState(before, Plan(p.call, before).value) == Ok(Baseline)
  {
    hide Version, PayloadCommit, Sha, Candidate, MayRelease;
    PlanMeans(p.call, before);
  }

  /** This release came out, under this number, in one of the publications. */
  ghost predicate Came(run: seq<Shipment>, tag: string, n: int) {
    exists p :: p in run && Current(p.manifest) == Ok((tag, n))
  }

  /** One of the releases passed over this tag with an entry under this number, and for itself if included. */
  ghost predicate PassedOver(run: seq<Shipment>, tag: string, n: int) {
    exists p :: p in run && Explains(p, tag, n)
  }

  ghost predicate Explains(p: Shipment, tag: string, n: int) {
    var tags := TagsOf(p.call.History());
    && tags.Ok? && Target(p.call).Ok?
    && var skips := Registry(p.call.registry, tags.value, Target(p.call).value.1);
       skips.Ok? && tag in skips.value && skips.value[tag].n == n
       && (skips.value[tag].target.None? || skips.value[tag].target == Some(Target(p.call).value.0))
  }

  // ------------------------------------------------------------------ what is accepted

  /** What both operations ask for: the release asked for is the live one, and production names one too. */
  ghost predicate Asked(call: Call, controlled: Fields, target: string, n: int, base: string, b: int) {
    && call.commit.Str? && Sha(call.commit.s) && call.upstreamCommit.Str? && Sha(call.upstreamCommit.s)
    && Get(call.upstream, "branch") == Str("z2k-enhanced")
    && Get(call.upstream, "current") == call.tag == Str(target) && Get(call.upstream, "seq") == call.n == Num(n)
    && Get(controlled, "current") == Str(base) && Get(controlled, "seq") == Num(b)
    && ProductTag(target) && ProductTag(base) && n >= 1 && b >= 1
    && PayloadCommit(controlled).Ok?
    && var h := call.History();
       h != [] && (forall e :: e in h ==> e.Dict?) && TagAt(h, |h| - 1) == Str(target)
  }

  /** Entry i of the history, entry at being number b, is on record under its number and for no other target. */
  predicate Recorded(h: seq<Json>, i: nat, at: nat, b: int, skips: Skips, target: string)
    requires i < |h|
  {
    && TagAt(h, i).Str? && TagAt(h, i).s in skips && skips[TagAt(h, i).s].n == b + i - at
    && (skips[TagAt(h, i).s].target.None? || skips[TagAt(h, i).s].target.value == target)
  }

  /** The target follows the base that stands at one place of the history, as far on as the numbers say. */
  ghost predicate Follow(call: Call, target: string, n: int, base: string, b: int, at: nat) {
    var h := call.History();
    && at < |h| - 1 && n - b == |h| - 1 - at
    && (forall i :: 0 <= i < |h| ==> TagAt(h, i).Str? && TagAt(h, i).s != "")
    && (forall i :: 0 <= i < |h| ==> (TagAt(h, i) == Str(base) <==> i == at))
    && (forall i :: 0 <= i < |h| ==> (TagAt(h, i) == Str(target) <==> i == |h| - 1))
    && (forall i :: at <= i < |h| ==> ProductTag(TagAt(h, i).s))
    && (forall i, j :: at <= i < j < |h| ==> TagAt(h, i) != TagAt(h, j))
    && TagsOf(h).Ok? && Registry(call.registry, TagsOf(h).value, n).Ok?
    && (forall i :: at < i < |h| - 1 ==>
          Recorded(h, i, at, b, Registry(call.registry, TagsOf(h).value, n).value, target))
    && !call.productExists && !call.technicalExists
  }

  /** A release is accepted exactly when it follows production in the history with every release between on record. */
  lemma ReleaseAcceptedExactlyWhen(call: Call, controlled: Fields)
    requires call.operation == "upstream-release"
    ensures Plan(call, controlled).Ok? <==>
            exists target, n, base, b, at: nat ::
              Asked(call, controlled, target, n, base, b) && Follow(call, target, n, base, b, at)
  {
    hide Sha, PayloadCommit, ProductTag, Candidate, MayRelease, NeedsFallback, Registry;
    if Plan(call, controlled).Ok? {
      var target, base := Target(call).value, Current(controlled).value;
      VersionReads(Get(call.upstream, "current"), Get(call.upstream, "seq"));
      VersionReads(Get(controlled, "current"), Get(controlled, "seq"));
      VersionReads(call.tag, call.n);
      assert Asked(call, controlled, target.0, target.1, base.0, base.1);
      var at := MayReleaseFollows(call, target, base);
    }
    if target, n, base, b, at: nat :|
       Asked(call, controlled, target, n, base, b) && Follow(call, target, n, base, b, at) {
      AskedWellFormed(call, controlled, target, n, base, b);
      FollowMayRelease(call, target, n, base, b, at);
    }
  }

  lemma AskedWellFormed(call: Call, controlled: Fields, target: string, n: int, base: string, b: int)
    requires Asked(call, controlled, target, n, base, b) && call.operation in {RELEASE, HOTFIX}
    ensures WellFormed(call, controlled) && Target(call) == Ok((target, n)) && Current(controlled) == Ok((base, b))
  {
    hide Sha, PayloadCommit, ProductTag;
  }

  lemma MayReleaseFollows(call: Call, target: (string, int), base: (string, int)) returns (at: nat)
    requires MayRelease(call, target, base)
    ensures Follow(call, target.0, target.1, base.0, base.1, at)
  {
    hide ProductTag, Registry, Recorded, TagAt, Accounted;
    var h := call.History();
    var tags := TagsOf(h).value;
    TagsAre(h);
    OnePlace(tags, base.0);
    OnePlace(tags, target.0);
    at := LastIndex(tags, base.0);
    assert |tags| - 1 == LastIndex(tags, target.0);
    var release, skips := tags[at..], Registry(call.registry, tags, target.1).value;
    SliceIs(tags, at);
    AccountedRecorded(h, tags, at, base.1, target.0, skips);
    hide Places, LastIndex;
    NonEmptyTags(h);
    forall i | at <= i < |h|
      ensures ProductTag(tags[i])
    {
      assert release[i - at] in release;
    }
    forall i, j | at <= i < j < |h|
      ensures tags[i] != tags[j]
    {
      assert release[i - at] != release[j - at];
    }
  }

  lemma SliceIs(tags: seq<string>, at: nat)
    requires at <= |tags|
    ensures |tags[at..]| == |tags| - at && forall k :: 0 <= k < |tags| - at ==> tags[at..][k] == tags[at + k]
  {
  }

  lemma NonEmptyTags(h: seq<Json>)
    requires TagsOf(h).Ok?
    ensures forall i :: 0 <= i < |h| ==> TagAt(h, i).Str? && TagAt(h, i).s != ""
  {
  }

  /** Every release strictly between is on record, said place by place. */
  lemma AccountedRecorded(h: seq<Json>, tags: seq<string>, at: nat, b: int, target: string, skips: Skips)
    requires |tags| == |h| && at < |h| && forall i :: 0 <= i < |h| ==> TagAt(h, i) == Str(tags[i])
    ensures Accounted(tags[at..], b, target, skips) <==>
            forall i :: at < i < |h| - 1 ==> Recorded(h, i, at, b, skips, target)
  {
    hide TagAt;
    var release := tags[at..];
    SliceIs(tags, at);
    if Accounted(release, b, target, skips) {
      forall i | at < i < |h| - 1
        ensures Recorded(h, i, at, b, skips, target)
      {
        assert release[i - at] == tags[i];
      }
    }
    if forall i :: at < i < |h| - 1 ==> Recorded(h, i, at, b, skips, target) {
      forall k | 0 < k < |release| - 1
        ensures release[k] in skips && skips[release[k]].n == b + k
        ensures skips[release[k]].target.None? || skips[release[k]].target == Some(target)
      {
        assert Recorded(h, at + k, at, b, skips, target);
      }
    }
  }

  lemma FollowMayRelease(call: Call, target: string, n: int, base: string, b: int, at: nat)
    requires Follow(call, target, n, base, b, at)
    ensures MayRelease(call, (target, n), (base, b))
  {
    hide ProductTag, Registry, Recorded, TagAt, Accounted;
    var h := call.History();
    var tags := TagsOf(h).value;
    TagsAre(h);
    Alone(tags, base, at);
    Alone(tags, target, |h| - 1);
    hide Places, LastIndex;
    var release := tags[at..];
    SliceIs(tags, at);
    AccountedRecorded(h, tags, at, b, target, Registry(call.registry, tags, n).value);
    FollowTags(call, target, n, base, b, at, tags);
  }

  lemma Alone(tags: seq<string>, tag: string, at: nat)
    requires at < |tags| && forall i :: 0 <= i < |tags| ==> (tags[i] == tag <==> i == at)
    ensures |Places(tags, tag)| == 1 && LastIndex(tags, tag) == at
  {
    assert Places(tags, tag) == {at};
    assert tags[at] == tag && tag in tags;
  }

  lemma FollowTags(call: Call, target: string, n: int, base: string, b: int, at: nat, tags: seq<string>)
    requires Follow(call, target, n, base, b, at) && TagsOf(call.History()) == Ok(tags)
    requires |tags| == |call.History()| && forall i :: 0 <= i < |tags| ==> TagAt(call.History(), i) == Str(tags[i])
    ensures tags[|tags| - 1] == target && target != base && n > b
    ensures forall t :: t in tags[at..] ==> ProductTag(t)
    ensures forall i, j :: 0 <= i < j < |tags[at..]| ==> tags[at..][i] != tags[at..][j]
  {
    hide ProductTag, Registry, Recorded, TagAt;
    SliceIs(tags, at);
    var h := call.History();
    assert TagAt(h, |h| - 1) == Str(target) && TagAt(h, at) == Str(base);
    forall i, j | 0 <= i < j < |tags[at..]|
      ensures tags[at..][i] != tags[at..][j]
    {
      assert TagAt(h, at + i) != TagAt(h, at + j);
    }
  }

  /** A hotfix is accepted exactly when it keeps the release in production and brings a payload that is not out yet. */
  lemma HotfixAcceptedExactlyWhen(call: Call, controlled: Fields)
    requires call.operation == "hotfix"
    ensures Plan(call, controlled).Ok? <==>
            && (exists tag, n :: Asked(call, controlled, tag, n, tag, n))
            && !call.technicalExists && PayloadCommit(controlled) != Ok(call.commit.s)
  {
    hide Sha, PayloadCommit, ProductTag, Candidate, NeedsFallback;
    if Plan(call, controlled).Ok? {
      var target := Target(call).value;
      VersionReads(Get(call.upstream, "current"), Get(call.upstream, "seq"));
      VersionReads(call.tag, call.n);
      VersionReads(Get(controlled, "current"), Get(controlled, "seq"));
      assert Asked(call, controlled, target.0, target.1, target.0, target.1);
    }
    if tag, n :| Asked(call, controlled, tag, n, tag, n) {
      AskedWellFormed(call, controlled, tag, n, tag, n);
    }
  }

  /** Nothing else is ever accepted. */
  lemma OtherOperationsRefused(call: Call, controlled: Fields)
    requires call.operation != "upstream-release" && call.operation != "hotfix"
    ensures Plan(call, controlled).Refused?
  {
  }

  /** What an accepted plan says: the target under its commit, a tag for a release only, the way of old clients. */
  lemma PlanSays(call: Call, controlled: Fields)
    requires Plan(call, controlled).Ok?
    ensures var c := Plan(call, controlled).value;
            && call.commit.Str? && |call.commit.s| >= 7
            && Get(c, "schema") == Num(1) && Get(c, "operation") == Str(call.operation)
            && Get(c, "tag") == call.tag && Get(c, "seq") == call.n && Get(c, "source_sha") == call.commit
            && Get(c, "technical_tag") == Str("openwrt-" + call.commit.s)
            && Get(c, "technical_title") == Str("OpenWrt payload " + call.commit.s[..7])
            && Get(c, "product_tag") == (if call.operation == "upstream-release" then call.tag else Null)
            && Get(c, "upstream_commit") == call.upstreamCommit
            && Get(c, "base_current") == Get(controlled, "current") && Get(c, "base_seq") == Get(controlled, "seq")
            && PayloadCommit(controlled).Ok? && Get(c, "base_payload_sha") == Str(PayloadCommit(controlled).value)
            && Get(c, "include_legacy_fallback") == Bool("artifacts" !in controlled || "artifact" in controlled)
  {
    hide PayloadCommit, ProductTag, MayRelease, Candidate;
    VersionReads(Get(call.upstream, "current"), Get(call.upstream, "seq"));
    VersionReads(call.tag, call.n);
    VersionReads(Get(controlled, "current"), Get(controlled, "seq"));
    var target, base := Target(call).value, Current(controlled).value;
    CandidateReads(call, call.commit.s, call.upstreamCommit.s, target, base, PayloadCommit(controlled).value,
                   NeedsFallback(controlled));
  }

  // ------------------------------------------------------------------ no gaps

  /** From index b of the history on, up to the release in production, every entry is explained. */
  ghost predicate Tracked(start: (string, int), now: (string, int), run: seq<Shipment>, history: seq<Json>, b: int) {
    && 0 <= b && now.1 >= start.1 && b + now.1 - start.1 < |history|
    && TagAt(history, b) == Str(start.0) && TagAt(history, b + now.1 - start.1) == Str(now.0)
    && forall j :: b < j <= b + now.1 - start.1 ==>
         TagAt(history, j).Str?
         && (Came(run, TagAt(history, j).s, start.1 + j - b) || PassedOver(run, TagAt(history, j).s, start.1 + j - b))
  }

  /** The last release accepted explains everything after the one before it. */
  lemma ReleaseExplains(before: Fields, p: Shipment) returns (at: int)
    requires Step(before, p) && p.call.operation == RELEASE
    ensures Current(before).Ok? && Current(p.manifest).Ok?
    ensures var h, base, now := p.call.History(), Current(before).value, Current(p.manifest).value;
            && now.1 > base.1 && 0 <= at && at + now.1 - base.1 == |h| - 1
            && TagAt(h, at) == Str(base.0) && TagAt(h, |h| - 1) == Str(now.0)
            && (forall j :: 0 <= j < |h| && TagAt(h, j) == Str(base.0) ==> j == at)
            && (forall j :: at < j < |h| - 1 ==> TagAt(h, j).Str? && Explains(p, TagAt(h, j).s, base.1 + j - at))
  {
    hide Version, PayloadCommit, Sha, Candidate, WellFormed, Registry, NeedsFallback;
    StepMoves(before, p);
    var h, base, now := p.call.History(), Current(before).value, Current(p.manifest).value;
    var tags := TagsOf(h).value;
    at := LastIndex(tags, base.0);
    TagsAre(h);
    OnePlace(tags, base.0);
    assert tags[|h| - 1] == now.0;
    var release := tags[at..];
    forall j | at < j < |h| - 1
      ensures TagAt(h, j).Str? && Explains(p, TagAt(h, j).s, base.1 + j - at)
    {
      assert release[j - at] == tags[j];
    }
  }

  lemma TagsAre(h: seq<Json>)
    requires TagsOf(h).Ok?
    ensures |TagsOf(h).value| == |h|
    ensures forall i :: 0 <= i < |h| ==> TagAt(h, i) == Str(TagsOf(h).value[i])
  {
  }

  lemma OnePlace(tags: seq<string>, tag: string)
    requires |Places(tags, tag)| == 1
    ensures forall i :: 0 <= i < |tags| && tags[i] == tag ==> i == LastIndex(tags, tag)
    ensures tag in tags
  {
    var i :| i in Places(tags, tag);
    forall k | 0 <= k < |tags| && tags[k] == tag
      ensures k == LastIndex(tags, tag)
    {
      Lone(Places(tags, tag), k, LastIndex(tags, tag));
    }
  }

  lemma Lone(s: set<int>, x: int, y: int)
    requires |s| == 1 && x in s && y in s
    ensures x == y
  {
    assert |s - {x}| == 0;
  }

  lemma Wider(front: seq<Shipment>, p: Shipment)
    ensures forall t, n :: Came(front, t, n) ==> Came(front + [p], t, n)
    ensures forall t, n :: PassedOver(front, t, n) ==> PassedOver(front + [p], t, n)
    ensures forall t, n :: Current(p.manifest) == Ok((t, n)) ==> Came(front + [p], t, n)
    ensures forall t, n :: Explains(p, t, n) ==> PassedOver(front + [p], t, n)
  {
    hide Explains, Current;
    assert p in front + [p];
  }

  /** The first shipment: the entries from its base on. */
  lemma FirstTracked(start: Fields, p: Shipment) returns (b: int)
    requires Step(start, p)
    ensures Current(start).Ok? && Current(p.manifest).Ok?
    ensures Tracked(Current(start).value, Current(p.manifest).value, [p], p.call.History(), b)
  {
    hide Explains, PayloadCommit, MayRelease, Came, PassedOver;
    StepMoves(start, p);
    Wider([], p);
    assert [] + [p] == [p];
    if p.call.operation == RELEASE {
      b := ReleaseExplains(start, p);
    } else {
      b := |p.call.History()| - 1;
      VersionReads(Get(p.call.upstream, "current"), Get(p.call.upstream, "seq"));
    }
  }

  lemma TagsKept(h: seq<Json>, more: seq<Json>)
    requires h <= more
    ensures forall j :: 0 <= j < |h| ==> TagAt(more, j) == TagAt(h, j)
  {
  }

  /** One more shipment over a history that grew. */
  lemma NextTracked(start: (string, int), front: seq<Shipment>, p: Shipment, b: int)
    requires front != [] && Step(front[|front| - 1].manifest, p) && Current(front[|front| - 1].manifest).Ok?
    requires Tracked(start, Current(front[|front| - 1].manifest).value, front, front[|front| - 1].call.History(), b)
    requires front[|front| - 1].call.History() <= p.call.History()
    ensures Current(p.manifest).Ok? && Tracked(start, Current(p.manifest).value, front + [p], p.call.History(), b)
  {
    hide Explains, Version, PayloadCommit, MayRelease, Step, WellFormed, Came, PassedOver, Target, Current;
    var before := front[|front| - 1];
    StepMoves(before.manifest, p);
    Wider(front, p);
    TagsKept(before.call.History(), p.call.History());
    hide TagAt;
    if p.call.operation == RELEASE {
      var at := ReleaseExplains(before.manifest, p);
    }
  }

  /**
    Every run of accepted publications, releases and hotfixes mixed, over a history that only grows: the number
    never moves back, it equals the history position counted from the first base, and every history entry from
    there to the release in production came out or was passed over with a record, under exactly its number.
    */
  lemma {:induction false} NoGaps(start: Fields, run: seq<Shipment>) returns (b: int)
    requires Run(start, run) && run != []
    ensures Current(start).Ok? && Current(After(start, run)).Ok?
    ensures Tracked(Current(start).value, Current(After(start, run)).value, run, run[|run| - 1].call.History(), b)
    decreases |run|
  {
    hide Step, Current, Tracked;
    var front, last := run[..|run| - 1], run[|run| - 1];
    assert front + [last] == run;
    if front == [] {
      b := FirstTracked(start, last);
    } else {
      b := NoGaps(start, front);
      NextTracked(Current(start).value, front, last, b);
    }
  }

  /** Along a run the number strictly grows with every release and stays with every hotfix. */
  lemma NumbersGrow(start: Fields, run: seq<Shipment>)
    requires Run(start, run) && run != []
    ensures var front, last := run[..|run| - 1], run[|run| - 1];
            && Current(After(start, front)).Ok? && Current(last.manifest).Ok?
            && var was, now := Current(After(start, front)).value, Current(last.manifest).value;
               if last.call.operation == RELEASE then now.1 > was.1 && now.0 != was.0 else now == was
  {
    hide Version, PayloadCommit, MayRelease;
    var front, last := run[..|run| - 1], run[|run| - 1];
    StepMoves(After(start, front), last);
    if last.call.operation == RELEASE {
      ReleaseMoves(last.call, Current(last.manifest).value, Current(After(start, front)).value);
    }
  }
}
