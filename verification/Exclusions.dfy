/**
  The exclusion cache drives the kernel set: justifications give a latest expiry per address,
  reports carry it to the writer, the writer keeps mirror and kernel. Over every run of
  reports, periodic passes and resynchronisations, whether they are written at once, late or never.
  */
module Exclusions {
  import opened RouteCache
  import opened NftSet

  /** An exclusion cache's view, address by address. */
  function DestView(v: View): Mirror {
    map k | k in v && k.client == NETWORK_WIDE :: k.dest := v[k]
  }

  function FollowDest(m: Mirror, c: Change): Mirror {
    if c.delete then m - {c.dest} else m[c.dest := c.expiry]
  }

  function FollowAllDest(m: Mirror, cs: seq<Change>): Mirror
    decreases |cs|
  {
    if cs == [] then m else FollowDest(FollowAllDest(m, cs[..|cs| - 1]), cs[|cs| - 1])
  }

  lemma DestStep(v: View, c: Change)
    requires c.client == NETWORK_WIDE
    ensures DestView(Follow(v, c)) == FollowDest(DestView(v), c)
  {
    var k := Pair(c.client, c.dest);
    forall a: Addr
      ensures a in DestView(Follow(v, c)) <==> a in FollowDest(DestView(v), c)
    {
      assert a in DestView(Follow(v, c)) <==> Pair(NETWORK_WIDE, a) in Follow(v, c);
      assert a in DestView(v) <==> Pair(NETWORK_WIDE, a) in v;
    }
  }

  /** Following reports pair by pair is following them address by address. */
  lemma {:induction false} DestFollows(v: View, cs: seq<Change>)
    requires forall c :: c in cs ==> c.client == NETWORK_WIDE
    ensures DestView(FollowAll(v, cs)) == FollowAllDest(DestView(v), cs)
    decreases |cs|
  {
    if cs != [] {
      DestFollows(v, cs[..|cs| - 1]);
      assert cs[|cs| - 1] in cs;
      DestStep(FollowAll(v, cs[..|cs| - 1]), cs[|cs| - 1]);
    }
  }

  // ------------------------------------------------------------------ one batch

  lemma UnexpiredLater(m: Mirror, n: Mirror, t: Time, now: Time)
    requires t <= now && Unexpired(m, t) == Unexpired(n, t)
    ensures Unexpired(m, now) == Unexpired(n, now)
  {
    forall a: Addr
      ensures a in Unexpired(m, now) <==> a in Unexpired(n, now)
      ensures a in Unexpired(m, now) ==> m[a] == n[a]
    {
      assert a in Unexpired(m, t) <==> a in Unexpired(n, t);
      if a in Unexpired(m, t) {
        assert Unexpired(m, t)[a] == Unexpired(n, t)[a];
      }
    }
  }

  lemma OneWanted(m: Mirror, v: Mirror, c: Change, now: Time)
    requires Unexpired(m, now) == Unexpired(v, now)
    ensures Unexpired(if Removes(c, now) then m - {c.dest} else m[c.dest := c.expiry], now) ==
            Unexpired(FollowDest(v, c), now)
  {
    forall a: Addr
      ensures (a in m && m[a] > now) <==> (a in v && v[a] > now)
      ensures a in m && m[a] > now ==> m[a] == v[a]
    {
      assert a in Unexpired(m, now) <==> a in Unexpired(v, now);
      if a in Unexpired(m, now) {
        assert Unexpired(m, now)[a] == Unexpired(v, now)[a];
      }
    }
  }

  /** A batch taken at its word keeps the mirror on the cache's unexpired view. */
  lemma {:induction false} WantedFollows(m: Mirror, v: Mirror, cs: seq<Change>, t: Time, now: Time)
    requires t <= now && Unexpired(m, t) == Unexpired(v, t)
    ensures Unexpired(Wanted(m, cs, now, false), now) == Unexpired(FollowAllDest(v, cs), now)
    decreases |cs|
  {
    if cs == [] {
      UnexpiredLater(m, v, t, now);
      assert Unexpired(Unexpired(m, now), now) == Unexpired(m, now);
    } else {
      WantedFollows(m, v, cs[..|cs| - 1], t, now);
      OneWanted(Wanted(m, cs[..|cs| - 1], now, false), FollowAllDest(v, cs[..|cs| - 1]), cs[|cs| - 1], now);
    }
  }

  /** What the mirror holds unexpired is what the view has; some of the view may be missing. */
  predicate Part(m: Mirror, v: Mirror, t: Time) {
    forall a :: a in m && m[a] > t ==> a in v && v[a] == m[a]
  }

  lemma {:induction false} WantedStaysPart(m: Mirror, v: Mirror, cs: seq<Change>, t: Time, now: Time)
    requires t <= now && Part(m, v, t)
    ensures Part(Wanted(m, cs, now, false), FollowAllDest(v, cs), now)
    decreases |cs|
  {
    if cs != [] {
      WantedStaysPart(m, v, cs[..|cs| - 1], t, now);
    }
  }

  /** Reports that put every entry of v, each once. */
  predicate ListsDest(cs: seq<Change>, v: Mirror) {
    && OneEach(cs)
    && (forall c :: c in cs ==> !c.delete && c.dest in v && v[c.dest] == c.expiry)
    && (forall a :: a in v ==> exists c :: c in cs && c.dest == a)
  }

  lemma ListsAll(cs: seq<Change>, v: View)
    requires Lists(cs, v) && forall k :: k in v ==> k.client == NETWORK_WIDE
    ensures ListsDest(cs, DestView(v))
  {
    forall i, j | 0 <= i < j < |cs|
      ensures cs[i].dest != cs[j].dest
    {
      assert cs[i] in cs && cs[j] in cs;
      assert Pair(cs[i].client, cs[i].dest) in v && Pair(cs[j].client, cs[j].dest) in v;
    }
    forall a | a in DestView(v)
      ensures exists c :: c in cs && c.dest == a
    {
      assert Change(NETWORK_WIDE, a, v[Pair(NETWORK_WIDE, a)], false) in cs;
    }
  }

  lemma {:induction false} ListedValue(m: Mirror, v: Mirror, cs: seq<Change>, now: Time, replace: bool, a: Addr)
    requires forall c :: c in cs ==> !c.delete && c.dest in v && v[c.dest] == c.expiry
    requires exists c :: c in cs && c.dest == a
    ensures var w := Wanted(m, cs, now, replace);
            if v[a] > now then a in w && w[a] == v[a] else a !in w
    decreases |cs|
  {
    var front, c := cs[..|cs| - 1], cs[|cs| - 1];
    assert c in cs && forall d :: d in front ==> d in cs;
    if c.dest != a {
      var d :| d in cs && d.dest == a;
      assert d in front;
      ListedValue(m, v, front, now, replace, a);
    }
  }

  /** Applying the whole view fills whatever part was missing. */
  lemma ListingCompletes(m: Mirror, v: Mirror, cs: seq<Change>, t: Time, now: Time)
    requires t <= now && Part(m, v, t) && ListsDest(cs, v)
    ensures Unexpired(Wanted(m, cs, now, false), now) == Unexpired(v, now)
  {
    var w := Wanted(m, cs, now, false);
    forall a: Addr
      ensures SameAt(Unexpired(w, now), Unexpired(v, now), a)
    {
      if a in v {
        ListedValue(m, v, cs, now, false, a);
      } else {
        WantedFromAnywhere(m, m, cs, now, a);
      }
    }
    SameEverywhere(Unexpired(w, now), Unexpired(v, now));
  }

  /** Replacing with the whole view leaves a part of it, whatever was there before. */
  lemma ReplacingGivesPart(m: Mirror, v: Mirror, cs: seq<Change>, now: Time)
    requires ListsDest(cs, v)
    ensures Part(PlanFor(m, cs, now, true, AsWritten).next, v, now)
  {
    var next := PlanFor(m, cs, now, true, AsWritten).next;
    forall a | a in next && next[a] > now
      ensures a in v && v[a] == next[a]
    {
      ReplacedValue(m, v, cs, now, a);
    }
  }

  lemma {:induction false} ReplacedValue(m: Mirror, v: Mirror, cs: seq<Change>, now: Time, a: Addr)
    requires forall c :: c in cs ==> !c.delete && c.dest in v && v[c.dest] == c.expiry
    requires a in PlanFor(m, cs, now, true, AsWritten).next
    ensures a in v && PlanFor(m, cs, now, true, AsWritten).next[a] == v[a]
    decreases |cs|
  {
    var front, c := cs[..|cs| - 1], cs[|cs| - 1];
    assert c in cs && forall d :: d in front ==> d in cs;
    if a in PlanFor(m, front, now, true, AsWritten).next {
      ReplacedValue(m, v, front, now, a);
    }
  }

  /** A resynchronisation is complete exactly when the mirror shared no unexpired entry with the view. */
  lemma ResyncCompleteExactlyWhen(m: Mirror, v: Mirror, cs: seq<Change>, now: Time)
    requires ListsDest(cs, v)
    ensures PlanFor(m, cs, now, true, AsWritten).next == Unexpired(v, now) <==>
            forall a :: a in v && v[a] > now ==> !(a in m && m[a] == v[a])
  {
    ReplaceExactlyWhen(m, cs, now);
    var w := Wanted(m, cs, now, true);
    forall a: Addr
      ensures SameAt(w, Unexpired(v, now), a)
    {
      if a in v {
        ListedValue(m, v, cs, now, true, a);
      } else {
        WantedFromAnywhere(m, m, cs, now, a);
      }
    }
    SameEverywhere(w, Unexpired(v, now));
    forall i | 0 <= i < |cs|
      ensures Repeats(m, cs[i], now) <==> v[cs[i].dest] > now && cs[i].dest in m && m[cs[i].dest] == v[cs[i].dest]
    {
      assert cs[i] in cs;
    }
    if forall i :: 0 <= i < |cs| ==> !Repeats(m, cs[i], now) {
      forall a | a in v && v[a] > now
        ensures !(a in m && m[a] == v[a])
      {
        var c :| c in cs && c.dest == a;
        var i :| 0 <= i < |cs| && cs[i] == c;
      }
    } else {
      var i :| 0 <= i < |cs| && Repeats(m, cs[i], now);
      assert cs[i] in cs;
    }
  }

  /** The set holds exactly the unexpired addresses of v, each until its expiry and less than a second longer. */
  ghost predicate Holds(kernel: Kernel, v: Mirror, now: Time) {
    && Live(kernel, now) == Unexpired(v, now).Keys
    && forall a :: a in v && v[a] > now ==> a in kernel && v[a] <= kernel[a] < v[a] + SECOND
  }

  lemma SyncedHolds(kernel: Kernel, v: Mirror, next: Mirror, now: Time)
    requires Synced(kernel, next, now) && Live(kernel, now) == next.Keys && next == Unexpired(v, now)
    ensures Holds(kernel, v, now)
  {
    forall a | a in v && v[a] > now
      ensures a in next && next[a] == v[a]
    {
      assert a in Unexpired(v, now);
    }
  }

  /** With the guard as meant, replacing with the whole view gives exactly it, whatever was there before. */
  lemma ResyncAsMeant(kernel: Kernel, m: Mirror, v: Mirror, cs: seq<Change>, now: Time)
    requires ListsDest(cs, v) && ChangesBounded(cs, now)
    ensures var plan := PlanFor(m, cs, now, true, AsMeant);
            plan.next == Unexpired(v, now) && Holds(After(kernel, plan.ops.Keys, plan.ops, now, true), v, now)
  {
    var plan := PlanFor(m, cs, now, true, AsMeant);
    MeantIsWanted(m, cs, now, true);
    ReplaceWanted(m, v, cs, now);
    UpdateKeepsSynced(kernel, m, cs, now, now, true, AsMeant);
    SyncedHolds(After(kernel, plan.ops.Keys, plan.ops, now, true), v, plan.next, now);
  }

  lemma ReplaceWanted(m: Mirror, v: Mirror, cs: seq<Change>, now: Time)
    requires ListsDest(cs, v)
    ensures Wanted(m, cs, now, true) == Unexpired(v, now)
  {
    var w := Wanted(m, cs, now, true);
    forall a: Addr
      ensures SameAt(w, Unexpired(v, now), a)
    {
      if a in v {
        ListedValue(m, v, cs, now, true, a);
      } else {
        WantedFromAnywhere(m, m, cs, now, a);
      }
    }
    SameEverywhere(w, Unexpired(v, now));
  }

  /**
    As written it does so, for any kernel at all, exactly when the mirror shared no unexpired entry with the view:
    at the start of the daemon, with an empty mirror over a kernel set that outlived it, always.
    */
  lemma ResyncAsWrittenExactlyWhen(kernel: Kernel, m: Mirror, v: Mirror, cs: seq<Change>, now: Time)
    requires ListsDest(cs, v) && ChangesBounded(cs, now)
    ensures var plan := PlanFor(m, cs, now, true, AsWritten);
            (plan.next == Unexpired(v, now) && Holds(After(kernel, plan.ops.Keys, plan.ops, now, true), v, now))
            <==> forall a :: a in v && v[a] > now ==> !(a in m && m[a] == v[a])
  {
    var plan := PlanFor(m, cs, now, true, AsWritten);
    ResyncCompleteExactlyWhen(m, v, cs, now);
    UpdateKeepsSynced(kernel, m, cs, now, now, true, AsWritten);
    if plan.next == Unexpired(v, now) {
      SyncedHolds(After(kernel, plan.ops.Keys, plan.ops, now, true), v, plan.next, now);
    }
  }

  // ------------------------------------------------------------------ cache and set together

  /** What All leaves of an exclusion cache is its unexpired view. */
  lemma CleanedDest(pairs: Pairs, now: Time, rules: Rules)
    requires Justified(pairs, true) && Matching(pairs, rules)
    ensures DestView(ViewOf(CleanPairs(pairs, now, rules))) == Unexpired(DestView(ViewOf(pairs)), now)
  {
    CleanedView(pairs, now, rules, true);
    hide CleanPairs;
    var v, w := ViewOf(pairs), ViewOf(CleanPairs(pairs, now, rules));
    forall a: Addr
      ensures SameAt(DestView(w), Unexpired(DestView(v), now), a)
    {
      var k := Pair(NETWORK_WIDE, a);
      assert k in w <==> k in v && v[k] > now;
      assert a in DestView(v) <==> k in v;
    }
    SameEverywhere(DestView(w), Unexpired(DestView(v), now));
  }

  lemma AllLists(pairs: Pairs, rules: Rules, cs: seq<Change>, t: Time, now: Time)
    requires Justified(pairs, true) && Matching(pairs, rules) && Bounded(pairs, t) && 0 <= t <= now
    requires Lists(cs, ViewOf(CleanPairs(pairs, now, rules)))
    ensures ListsDest(cs, Unexpired(DestView(ViewOf(pairs)), now)) && ChangesBounded(cs, now)
  {
    var left := CleanPairs(pairs, now, rules);
    assert forall k :: k in ViewOf(left) ==> k in pairs;
    CleanBounded(pairs, now, rules, t);
    BoundedLater(left, t, now);
    ListBounded(left, cs, now);
    ListsAll(cs, ViewOf(left));
    CleanedDest(pairs, now, rules);
  }

  /**
    All of a reachable exclusion cache, written as a replacement over any kernel and any mirror: the guard as meant
    always leaves both on the view the cache had, as far as it is unexpired; the guard as written does exactly when
    the mirror shared no unexpired entry with it.
    */
  lemma AllThenReplace(kernel: Kernel, m: Mirror, pairs: Pairs, rules: Rules, cs: seq<Change>, t: Time, now: Time)
    requires Justified(pairs, true) && Matching(pairs, rules) && Bounded(pairs, t) && 0 <= t <= now
    requires Lists(cs, ViewOf(CleanPairs(pairs, now, rules)))
    ensures Replaced(kernel, m, cs, DestView(ViewOf(pairs)), now, AsMeant)
    ensures var v := DestView(ViewOf(pairs));
            Replaced(kernel, m, cs, v, now, AsWritten) <==>
            forall a :: a in v && v[a] > now ==> !(a in m && m[a] == v[a])
  {
    var v, w := DestView(ViewOf(pairs)), Unexpired(DestView(ViewOf(pairs)), now);
    AllLists(pairs, rules, cs, t, now);
    hide *;
    ResyncAsMeant(kernel, m, w, cs, now);
    ResyncAsWrittenExactlyWhen(kernel, m, w, cs, now);
    ReplacedUnexpired(kernel, m, cs, v, now);
    UnexpiredEntries(v, now);
  }

  /** A replacement that leaves mirror and kernel on v. */
  ghost predicate Replaced(kernel: Kernel, m: Mirror, cs: seq<Change>, v: Mirror, now: Time, guard: Guard) {
    var plan := PlanFor(m, cs, now, true, guard);
    plan.next == Unexpired(v, now) && Holds(After(kernel, plan.ops.Keys, plan.ops, now, true), v, now)
  }

  lemma ReplacedUnexpired(kernel: Kernel, m: Mirror, cs: seq<Change>, v: Mirror, now: Time)
    ensures forall guard :: Replaced(kernel, m, cs, v, now, guard) ==
                            Replaced(kernel, m, cs, Unexpired(v, now), now, guard)
  {
    UnexpiredTwice(v, now);
  }

  lemma UnexpiredTwice(v: Mirror, now: Time)
    ensures Unexpired(Unexpired(v, now), now) == Unexpired(v, now)
  {
  }

  lemma UnexpiredEntries(v: Mirror, now: Time)
    ensures forall a :: (a in v && v[a] > now <==> a in Unexpired(v, now) && Unexpired(v, now)[a] > now)
                        && (a in Unexpired(v, now) ==> Unexpired(v, now)[a] == v[a])
  {
  }

  // ------------------------------------------------------------------ runs

  /** How far the kernel is known to follow the mirror, and the mirror the view. */
  datatype Trust = Unknown | Astray | Partial | Full

  datatype System = System(view: Mirror, mirror: Mirror, kernel: Kernel, time: Time, trust: Trust)

  /** Packets and the ticker change the cache and write the set under two locks, in whatever order they meet. */
  datatype Action =
    | Learn(cs: seq<Change>, now: Time)                 // the cache changed; its batch waits, or its script failed
    | Report(cs: seq<Change>, now: Time)                // the cache changed and nothing came before its batch
    | Late(cs: seq<Change>, now: Time, replace: bool)   // a batch or a list computed earlier is written
    | Pass(cs: seq<Change>, now: Time)                  // the whole view is written while it is current
    | Resync(cs: seq<Change>, now: Time)                // the whole view replaces the set while it is current

  predicate Replaces(a: Action) {
    a.Resync? || (a.Late? && a.replace)
  }

  predicate Possible(s: System, a: Action) {
    && s.time <= a.now && ChangesBounded(a.cs, a.now)
    && (a.Pass? || a.Resync? ==> ListsDest(a.cs, s.view))
  }

  function Written(s: System, cs: seq<Change>, now: Time, replace: bool): System {
    var plan := PlanFor(s.mirror, cs, now, replace, AsWritten);
    s.(mirror := plan.next, kernel := After(s.kernel, plan.ops.Keys, plan.ops, now, replace), time := now)
  }

  function Lowered(t: Trust): Trust {
    if t.Unknown? then Unknown else Astray
  }

  function Act(s: System, a: Action): System {
    match a
    case Learn(cs, now) => s.(view := FollowAllDest(s.view, cs), trust := Lowered(s.trust), time := now)
    case Report(cs, now) =>
      Written(s, cs, now, false).(
        view := FollowAllDest(s.view, cs), trust := if OneEach(cs) then s.trust else Lowered(s.trust))
    case Late(cs, now, replace) => Written(s, cs, now, replace).(trust := if replace then Astray else Lowered(s.trust))
    case Pass(cs, now) => Written(s, cs, now, false).(trust := if s.trust.Partial? then Full else s.trust)
    case Resync(cs, now) => Written(s, cs, now, true).(trust := Partial)
  }

  predicate Sound(s: System) {
    && (!s.trust.Unknown? ==> Synced(s.kernel, s.mirror, s.time))
    && (s.trust.Partial? ==> Part(s.mirror, s.view, s.time))
    && (s.trust.Full? ==> Unexpired(s.mirror, s.time) == Unexpired(s.view, s.time))
  }

  lemma FullIsPart(m: Mirror, v: Mirror, t: Time)
    requires Unexpired(m, t) == Unexpired(v, t)
    ensures Part(m, v, t)
  {
    forall a | a in m && m[a] > t
      ensures a in v && v[a] == m[a]
    {
      assert a in Unexpired(m, t) && Unexpired(m, t)[a] == Unexpired(v, t)[a];
    }
  }

  lemma LaterSynced(kernel: Kernel, mirror: Mirror, t: Time, now: Time)
    requires Synced(kernel, mirror, t) && t <= now
    ensures Synced(kernel, mirror, now)
  {
  }

  lemma ActSound(s: System, a: Action)
    requires Sound(s) && Possible(s, a)
    ensures Sound(Act(s, a))
  {
    hide Synced, Part, ListsDest, ChangesBounded, PlanFor, After, Wanted, OneEach;
    if a.Learn? {
      if !s.trust.Unknown? {
        LaterSynced(s.kernel, s.mirror, s.time, a.now);
      }
    } else {
      if Replaces(a) || !s.trust.Unknown? {
        UpdateKeepsSynced(s.kernel, s.mirror, a.cs, s.time, a.now, Replaces(a), AsWritten);
      }
      FollowsOn(s, a);
    }
  }

  /** The part of soundness that speaks of the view. */
  lemma FollowsOn(s: System, a: Action)
    requires Sound(s) && Possible(s, a)
    ensures Act(s, a).trust.Partial? ==> Part(Act(s, a).mirror, Act(s, a).view, a.now)
    ensures Act(s, a).trust.Full? ==> Unexpired(Act(s, a).mirror, a.now) == Unexpired(Act(s, a).view, a.now)
  {
    hide Synced, After, ChangesBounded;
    match a
    case Learn(cs, now) =>
    case Late(cs, now, replace) =>
    case Report(cs, now) =>
      if OneEach(cs) {
        ApplyExact(s.mirror, cs, now);
        if s.trust.Full? {
          WantedFollows(s.mirror, s.view, cs, s.time, now);
        } else if s.trust.Partial? {
          WantedStaysPart(s.mirror, s.view, cs, s.time, now);
        }
      }
    case Pass(cs, now) =>
      ApplyExact(s.mirror, cs, now);
      if s.trust.Full? {
        FullIsPart(s.mirror, s.view, s.time);
      }
      if s.trust.Full? || s.trust.Partial? {
        ListingCompletes(s.mirror, s.view, cs, s.time, now);
      }
    case Resync(cs, now) =>
      ReplacingGivesPart(s.mirror, s.view, cs, now);
  }

  function RunFrom(s: System, run: seq<Action>): System
    decreases |run|
  {
    if run == [] then s else RunFrom(Act(s, run[0]), run[1..])
  }

  predicate PossibleRun(s: System, run: seq<Action>)
    decreases |run|
  {
    run == [] || (Possible(s, run[0]) && PossibleRun(Act(s, run[0]), run[1..]))
  }

  lemma {:induction false} RunSound(s: System, run: seq<Action>)
    requires Sound(s) && PossibleRun(s, run)
    ensures Sound(RunFrom(s, run))
    decreases |run|
  {
    hide Sound, Possible, Act;
    if run != [] {
      ActSound(s, run[0]);
      RunSound(Act(s, run[0]), run[1..]);
    }
  }

  lemma {:induction false} TrustRemains(s: System, run: seq<Action>)
    ensures (exists a :: a in run && Replaces(a)) || !s.trust.Unknown? ==> !RunFrom(s, run).trust.Unknown?
    decreases |run|
  {
    hide Written, FollowAllDest, OneEach;
    if run != [] {
      TrustRemains(Act(s, run[0]), run[1..]);
      assert forall a :: a in run <==> a == run[0] || a in run[1..];
    }
  }

  /**
    From any kernel and any mirror at all: once something replaced the set, kernel and mirror hold the same
    addresses to the second, in every interleaving of learning, stale and fresh writes that follows.
    */
  lemma AnyStartSynced(start: System, run: seq<Action>)
    requires PossibleRun(start.(trust := Unknown), run) && exists a :: a in run && Replaces(a)
    ensures var s := RunFrom(start.(trust := Unknown), run); Synced(s.kernel, s.mirror, s.time)
  {
    RunSound(start.(trust := Unknown), run);
    TrustRemains(start.(trust := Unknown), run);
  }

  /** Right after a successful script the kernel finds exactly the unexpired addresses of the cache. */
  lemma KernelIsView(start: System, run: seq<Action>, last: Action)
    requires Sound(start) && PossibleRun(start, run)
    requires var s := RunFrom(start, run); Possible(s, last) && !last.Learn? && Act(s, last).trust.Full?
    ensures var s := Act(RunFrom(start, run), last); Holds(s.kernel, s.view, s.time)
  {
    RunSound(start, run);
    ActSound(RunFrom(start, run), last);
    FullHolds(RunFrom(start, run), last);
  }

  lemma FullHolds(s: System, last: Action)
    requires Sound(s) && Possible(s, last) && !last.Learn? && Act(s, last).trust.Full? && Sound(Act(s, last))
    ensures Holds(Act(s, last).kernel, Act(s, last).view, last.now)
  {
    UpdateKeepsSynced(s.kernel, s.mirror, last.cs, s.time, last.now, false, AsWritten);
    var t := Act(s, last);
    NextUnexpired(s.mirror, last.cs, last.now, false);
    assert Unexpired(t.mirror, t.time) == t.mirror;
    SyncedHolds(t.kernel, t.view, t.mirror, t.time);
  }

  lemma {:induction false} NextUnexpired(m: Mirror, cs: seq<Change>, now: Time, replace: bool)
    ensures forall a :: a in PlanFor(m, cs, now, replace, AsWritten).next ==>
            PlanFor(m, cs, now, replace, AsWritten).next[a] > now
    decreases |cs|
  {
    if cs != [] {
      NextUnexpired(m, cs[..|cs| - 1], now, replace);
    }
  }

  /** However astray kernel and mirror are, a resynchronisation and the next pass restore both. */
  lemma ResyncThenPassRestores(s: System, resync: Action, pass: Action)
    requires resync.Resync? && pass.Pass? && Possible(s, resync) && Possible(Act(s, resync), pass)
    ensures var t := Act(Act(s, resync), pass);
            Unexpired(t.mirror, t.time) == Unexpired(t.view, t.time) && Holds(t.kernel, t.view, t.time)
  {
    var lost := s.(trust := Unknown);
    ActSound(lost, resync);
    ActSound(Act(lost, resync), pass);
    FullHolds(Act(lost, resync), pass);
  }

  // ------------------------------------------------------------------ writes that come late

  lemma {:induction false} NamedValue(m: Mirror, cs: seq<Change>, now: Time, c: Change)
    requires OneEach(cs) && c in cs
    ensures var w := Wanted(m, cs, now, false);
            if Removes(c, now) then c.dest !in w else c.dest in w && w[c.dest] == c.expiry
    decreases |cs|
  {
    var front, last := cs[..|cs| - 1], cs[|cs| - 1];
    if c != last {
      var i :| 0 <= i < |cs| && cs[i] == c;
      assert c in front && c.dest != last.dest;
      NamedValue(m, front, now, c);
    }
  }

  /** A report that says what the view holds now. */
  predicate Agrees(c: Change, v: Mirror, now: Time) {
    if Removes(c, now) then !(c.dest in v && v[c.dest] > now) else c.dest in v && v[c.dest] == c.expiry
  }

  /** A late batch leaves the mirror on the view exactly when each of its reports still agrees with it. */
  lemma LateExactlyWhen(m: Mirror, v: Mirror, cs: seq<Change>, t: Time, now: Time)
    requires t <= now && OneEach(cs) && Unexpired(m, t) == Unexpired(v, t)
    ensures Unexpired(PlanFor(m, cs, now, false, AsWritten).next, now) == Unexpired(v, now) <==>
            forall c :: c in cs ==> Agrees(c, v, now)
  {
    ApplyExact(m, cs, now);
    UnexpiredLater(m, v, t, now);
    var w := Wanted(m, cs, now, false);
    if forall c :: c in cs ==> Agrees(c, v, now) {
      forall a: Addr
        ensures SameAt(Unexpired(w, now), Unexpired(v, now), a)
      {
        LateAt(m, v, cs, now, a);
      }
      SameEverywhere(Unexpired(w, now), Unexpired(v, now));
    } else {
      var c :| c in cs && !Agrees(c, v, now);
      NamedValue(m, cs, now, c);
      assert c.dest in Unexpired(w, now) <==> !Removes(c, now);
      assert c.dest in Unexpired(v, now) <==> c.dest in v && v[c.dest] > now;
    }
  }

  lemma LateAt(m: Mirror, v: Mirror, cs: seq<Change>, now: Time, a: Addr)
    requires OneEach(cs) && Unexpired(m, now) == Unexpired(v, now) && forall c :: c in cs ==> Agrees(c, v, now)
    ensures SameAt(Unexpired(Wanted(m, cs, now, false), now), Unexpired(v, now), a)
  {
    if c :| c in cs && c.dest == a {
      NamedValue(m, cs, now, c);
    } else {
      WantedFromAnywhere(m, m, cs, now, a);
      assert a in Unexpired(m, now) <==> a in Unexpired(v, now);
    }
  }

  /** A list computed before an address was renewed puts the earlier expiry back. */
  lemma StaleListOverwrites(a: Addr, stale: Time, renewed: Time, now: Time)
    requires now < stale < renewed
    ensures var v, cs := map[a := renewed], [Change(NETWORK_WIDE, a, stale, false)];
            Unexpired(PlanFor(v, cs, now, false, AsWritten).next, now) != Unexpired(v, now)
  {
    var v, cs := map[a := renewed], [Change(NETWORK_WIDE, a, stale, false)];
    assert cs[0] in cs && !Agrees(cs[0], v, now);
    LateExactlyWhen(v, v, cs, now, now);
  }

  /** A fresh pass gives every address of the view its due, whatever came before; what is left over is what it lacks. */
  lemma FreshPassCovers(s: System, pass: Action)
    requires Synced(s.kernel, s.mirror, s.time) && pass.Pass? && Possible(s, pass)
    ensures var t := Act(s, pass);
            forall a :: a in t.view && t.view[a] > t.time ==>
              a in t.mirror && t.mirror[a] == t.view[a]
              && a in t.kernel && t.view[a] <= t.kernel[a] < t.view[a] + SECOND
    ensures var t := Act(s, pass);
            Unexpired(t.mirror, t.time) == Unexpired(t.view, t.time) <==>
            forall a :: a in s.mirror && s.mirror[a] > t.time ==> a in s.view
  {
    var m, v, cs, now, t := s.mirror, s.view, pass.cs, pass.now, Act(s, pass);
    UpdateKeepsSynced(s.kernel, m, cs, s.time, now, false, AsWritten);
    ApplyExact(m, cs, now);
    forall a | a in v
      ensures if v[a] > now then a in t.mirror && t.mirror[a] == v[a] else a !in t.mirror
    {
      ListedValue(m, v, cs, now, false, a);
    }
    forall a | a !in v
      ensures SameAt(t.mirror, Unexpired(m, now), a)
    {
      WantedFromAnywhere(m, m, cs, now, a);
    }
    PassLeaves(m, v, t.mirror, now);
  }

  lemma PassLeaves(m: Mirror, v: Mirror, w: Mirror, now: Time)
    requires forall a :: a in v ==> if v[a] > now then a in w && w[a] == v[a] else a !in w
    requires forall a :: a !in v ==> SameAt(w, Unexpired(m, now), a)
    ensures Unexpired(w, now) == Unexpired(v, now) <==> forall a :: a in m && m[a] > now ==> a in v
  {
    if forall a :: a in m && m[a] > now ==> a in v {
      forall a: Addr
        ensures SameAt(Unexpired(w, now), Unexpired(v, now), a)
      {
        assert a !in v ==> SameAt(w, Unexpired(m, now), a);
      }
      SameEverywhere(Unexpired(w, now), Unexpired(v, now));
    } else {
      var a :| a in m && m[a] > now && a !in v;
      assert SameAt(w, Unexpired(m, now), a);
      assert a in Unexpired(w, now) && a !in Unexpired(v, now);
    }
  }
}
