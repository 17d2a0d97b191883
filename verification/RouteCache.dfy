/**
  The cache of observed DNS answers. A pair (client, address) is kept alive by the names
  that justify it, each with its own expiry; every operation reports the pairs whose latest
  expiry changed. A follower that applies these reports holds the cache's view, and beside it at
  most pairs that had run out when the whole cache was last listed: All keeps the reports of its
  own cleaning to itself.
  */
module RouteCache {

  type Addr = nat
  /** Nanoseconds; zero is the zero time. */
  type Time = int

  const SECOND: int := 1_000_000_000
  const HOUR: int := 3600 * SECOND
  const MAX_PAIRS: nat := 8192
  const MAX_CLIENTS: nat := 128
  const MAX_JUSTIFICATIONS: nat := 16384
  /** The client of every pair of an exclusion cache. */
  const NETWORK_WIDE: Addr := 0

  datatype Pair = Pair(client: Addr, dest: Addr)
  datatype Change = Change(client: Addr, dest: Addr, expiry: Time, delete: bool)
  datatype Answer = Answer(ip: Addr, ttl: int)
  type Names = map<string, Time>
  type Pairs = map<Pair, Names>
  type View = map<Pair, Time>
  type Rules = string -> bool

  // ------------------------------------------------------------------ latest expiry

  ghost predicate IsLatest(names: Names, t: Time) {
    && 0 <= t
    && (forall n :: n in names ==> names[n] <= t)
    && (t == 0 || exists n :: n in names && names[n] == t)
  }

  lemma {:induction false} LatestExists(names: Names)
    ensures exists t :: IsLatest(names, t)
    decreases |names|
  {
    if names == map[] {
      assert IsLatest(names, 0);
    } else {
      var n :| n in names;
      var rest := names - {n};
      assert |rest| < |names| by {
        assert names.Keys == rest.Keys + {n};
      }
      LatestExists(rest);
      var t :| IsLatest(rest, t);
      assert IsLatest(names, if names[n] > t then names[n] else t);
    }
  }

  /** The latest expiry among names, or the zero time. */
  ghost function Latest(names: Names): (t: Time)
    ensures IsLatest(names, t)
  {
    LatestExists(names);
    var t :| IsLatest(names, t);
    t
  }

  /** Finds the latest expiry, whatever the iteration order. */
  method LatestOf(names: Names) returns (t: Time)
    ensures t == Latest(names)
  {
    t := 0;
    var todo := names.Keys;
    while todo != {}
      invariant todo <= names.Keys
      invariant 0 <= t && (t == 0 || exists n :: n in names && names[n] == t)
      invariant forall n :: n in names.Keys - todo ==> names[n] <= t
      decreases |todo|
    {
      var n :| n in todo;
      todo := todo - {n};
      if names[n] > t {
        t := names[n];
      }
    }
  }

  // ------------------------------------------------------------------ view and reports

  ghost function ViewOf(pairs: Pairs): (v: View)
    ensures v.Keys == pairs.Keys
  {
    map k | k in pairs :: Latest(pairs[k])
  }

  /** A follower's reaction to one report. */
  function Follow(v: View, c: Change): View {
    if c.delete then v - {Pair(c.client, c.dest)} else v[Pair(c.client, c.dest) := c.expiry]
  }

  function FollowAll(v: View, cs: seq<Change>): View
    decreases |cs|
  {
    if cs == [] then v else Follow(FollowAll(v, cs[..|cs| - 1]), cs[|cs| - 1])
  }

  lemma FollowOne(v: View, cs: seq<Change>, c: Change)
    ensures FollowAll(v, cs + [c]) == Follow(FollowAll(v, cs), c)
  {
    assert (cs + [c])[..|cs|] == cs;
  }

  lemma {:induction false} FollowConcat(v: View, a: seq<Change>, b: seq<Change>)
    ensures FollowAll(v, a + b) == FollowAll(FollowAll(v, a), b)
    decreases |b|
  {
    if b == [] {
      assert a + b == a;
    } else {
      assert (a + b)[..|a + b| - 1] == a + b[..|b| - 1];
      FollowConcat(v, a, b[..|b| - 1]);
    }
  }

  // ------------------------------------------------------------------ counting

  ghost function Justifications(pairs: Pairs): set<(Pair, string)> {
    set k, n | k in pairs && n in pairs[k] :: (k, n)
  }

  ghost function Clients(pairs: Pairs): set<Addr> {
    set k | k in pairs :: k.client
  }

  function Tagged(k: Pair, names: set<string>): set<(Pair, string)> {
    set n | n in names :: (k, n)
  }

  lemma {:induction false} TaggedSize(k: Pair, names: set<string>)
    ensures |Tagged(k, names)| == |names|
    decreases |names|
  {
    if names != {} {
      var n :| n in names;
      TaggedSize(k, names - {n});
      assert Tagged(k, names) == Tagged(k, names - {n}) + {(k, n)};
    }
  }

  ghost function JustificationsOf(pairs: Pairs, keys: set<Pair>): set<(Pair, string)> {
    set k, n | k in pairs && k in keys && n in pairs[k] :: (k, n)
  }

  lemma AddKey(pairs: Pairs, keys: set<Pair>, k: Pair)
    requires k in pairs && k !in keys
    ensures |JustificationsOf(pairs, keys + {k})| == |JustificationsOf(pairs, keys)| + |pairs[k]|
  {
    TaggedSize(k, pairs[k].Keys);
    var a, b := JustificationsOf(pairs, keys), Tagged(k, pairs[k].Keys);
    assert JustificationsOf(pairs, keys + {k}) == a + b;
    assert a !! b;
  }

  /** Every pair with a name has its own justification. */
  lemma {:induction false} PairsBelowJustifications(pairs: Pairs, keys: set<Pair>)
    requires keys <= pairs.Keys && forall k :: k in pairs ==> pairs[k] != map[]
    ensures |keys| <= |JustificationsOf(pairs, keys)|
    decreases |keys|
  {
    if keys != {} {
      var k :| k in keys;
      PairsBelowJustifications(pairs, keys - {k});
      AddKey(pairs, keys - {k}, k);
      assert keys - {k} + {k} == keys;
      var n :| n in pairs[k];
      assert {n} <= pairs[k].Keys;
    }
  }

  // ------------------------------------------------------------------ what clean keeps

  /** The names of one pair that are unexpired and still match the rules. */
  function Kept(names: Names, now: Time, rules: Rules): Names {
    map n | n in names && names[n] > now && rules(n) :: names[n]
  }

  function CleanPairs(pairs: Pairs, now: Time, rules: Rules): Pairs {
    map k | k in pairs && Kept(pairs[k], now, rules) != map[] :: Kept(pairs[k], now, rules)
  }

  /** Exactly the unexpired matching justifications survive. */
  lemma CleanKeepsExactly(pairs: Pairs, now: Time, rules: Rules, k: Pair, n: string)
    ensures (k in CleanPairs(pairs, now, rules) && n in CleanPairs(pairs, now, rules)[k])
            <==> (k in pairs && n in pairs[k] && pairs[k][n] > now && rules(n))
    ensures k in CleanPairs(pairs, now, rules) ==> CleanPairs(pairs, now, rules)[k] != map[]
  {
    if k in pairs && n in pairs[k] && pairs[k][n] > now && rules(n) {
      assert n in Kept(pairs[k], now, rules);
    }
  }

  lemma KeptTwice(names: Names, t1: Time, t2: Time, rules: Rules)
    requires t1 <= t2
    ensures Kept(Kept(names, t1, rules), t2, rules) == Kept(names, t2, rules)
  {
  }

  /** Expiring twice is expiring once at the later time. */
  lemma CleanTwice(pairs: Pairs, t1: Time, t2: Time, rules: Rules)
    requires t1 <= t2
    ensures CleanPairs(CleanPairs(pairs, t1, rules), t2, rules) == CleanPairs(pairs, t2, rules)
  {
    var once, twice := CleanPairs(pairs, t2, rules), CleanPairs(CleanPairs(pairs, t1, rules), t2, rules);
    forall k
      ensures k in once <==> k in twice
      ensures k in once ==> once[k] == twice[k]
    {
      if k in pairs {
        KeptTwice(pairs[k], t1, t2, rules);
        if Kept(pairs[k], t2, rules) != map[] {
          KeptLess(pairs[k], t1, t2, rules);
        }
      }
    }
  }

  /** What survives the later time survived the earlier one. */
  lemma KeptLess(names: Names, t1: Time, t2: Time, rules: Rules)
    requires t1 <= t2 && Kept(names, t2, rules) != map[]
    ensures Kept(names, t1, rules) != map[]
  {
    var n :| n in Kept(names, t2, rules);
    assert n in Kept(names, t1, rules);
  }

  // ------------------------------------------------------------------ what observe does

  datatype Outcome = Outcome(pairs: Pairs, skipped: nat, changes: seq<Change>)

  function CappedTtl(ttl: int): int {
    if ttl < HOUR then ttl else HOUR
  }

  function NamesAt(pairs: Pairs, k: Pair): Names {
    if k in pairs then pairs[k] else map[]
  }

  /** Whether a cap refuses a justification of pair k by name. */
  ghost predicate Refused(pairs: Pairs, k: Pair, name: string) {
    || (name !in NamesAt(pairs, k) && |Justifications(pairs)| >= MAX_JUSTIFICATIONS)
    || (k !in pairs && (|pairs| >= MAX_PAIRS || (k.client !in Clients(pairs) && |Clients(pairs)| >= MAX_CLIENTS)))
  }

  ghost function Observed(o: Outcome, k: Pair, name: string, expiry: Time): Outcome {
    if Refused(o.pairs, k, name) then o.(skipped := o.skipped + 1)
    else
      var before, names := Latest(NamesAt(o.pairs, k)), NamesAt(o.pairs, k)[name := expiry];
      Outcome(o.pairs[k := names], o.skipped,
              if Latest(names) == before then o.changes
              else o.changes + [Change(k.client, k.dest, Latest(names), false)])
  }

  /** Observing the answers in order; ineligible addresses and empty TTLs are passed over. */
  ghost function ObservedAll(
    o: Outcome, client: Addr, name: string, answers: seq<Answer>, now: Time, eligible: Addr -> bool): Outcome
    decreases |answers|
  {
    if answers == [] then o
    else
      Answered(ObservedAll(o, client, name, answers[..|answers| - 1], now, eligible), client, name,
               answers[|answers| - 1], now, eligible)
  }

  ghost function Answered(
    o: Outcome, client: Addr, name: string, a: Answer, now: Time, eligible: Addr -> bool): Outcome {
    if !eligible(a.ip) || a.ttl <= 0 then o
    else Observed(o, Pair(client, a.ip), name, now + CappedTtl(a.ttl))
  }

  ghost predicate Within(pairs: Pairs) {
    && |pairs| <= MAX_PAIRS
    && |Clients(pairs)| <= MAX_CLIENTS
    && |Justifications(pairs)| <= MAX_JUSTIFICATIONS
  }

  /** No pair without a justification, no expiry at the zero time. */
  predicate Justified(pairs: Pairs, isGlobal: bool) {
    && (forall k :: k in pairs ==> pairs[k] != map[])
    && (forall k, n :: k in pairs && n in pairs[k] ==> pairs[k][n] > 0)
    && (isGlobal ==> forall k :: k in pairs ==> k.client == NETWORK_WIDE)
  }

  /** What every reachable cache satisfies. */
  ghost predicate Capped(pairs: Pairs, isGlobal: bool) {
    Within(pairs) && Justified(pairs, isGlobal)
  }

  lemma CappedCounts(pairs: Pairs, isGlobal: bool)
    requires Capped(pairs, isGlobal)
    ensures |pairs| <= |Justifications(pairs)|
    ensures isGlobal ==> |Clients(pairs)| <= 1
  {
    PairsBelowJustifications(pairs, pairs.Keys);
    assert JustificationsOf(pairs, pairs.Keys) == Justifications(pairs);
    if isGlobal {
      assert Clients(pairs) <= {NETWORK_WIDE};
      SubsetSize(Clients(pairs), {NETWORK_WIDE});
    }
  }

  lemma {:induction false} SubsetSize<T>(a: set<T>, b: set<T>)
    requires a <= b
    ensures |a| <= |b|
    decreases |a|
  {
    if a != {} {
      var x :| x in a;
      SubsetSize(a - {x}, b - {x});
    }
  }

  lemma AcceptedSizes(pairs: Pairs, k: Pair, name: string, expiry: Time)
    ensures var after := pairs[k := NamesAt(pairs, k)[name := expiry]];
            && Justifications(after) == Justifications(pairs) + {(k, name)}
            && Clients(after) == Clients(pairs) + {k.client}
            && |after| == (if k in pairs then |pairs| else |pairs| + 1)
            && (name in NamesAt(pairs, k) ==> (k, name) in Justifications(pairs))
            && (k in pairs ==> k.client in Clients(pairs))
  {
    var after := pairs[k := NamesAt(pairs, k)[name := expiry]];
    assert after.Keys == pairs.Keys + {k};
    assert |after| == |after.Keys|;
    forall j: (Pair, string) | j in Justifications(pairs)
      ensures j in Justifications(after)
    {
    }
    assert (k, name) in Justifications(after);
    forall c | c in Clients(pairs) + {k.client}
      ensures c in Clients(after)
    {
      if c != k.client {
        var k' :| k' in pairs && k'.client == c;
        assert k' in after;
      } else {
        assert k in after;
      }
    }
  }

  lemma ObservedCapped(o: Outcome, k: Pair, name: string, expiry: Time, isGlobal: bool)
    requires Capped(o.pairs, isGlobal) && expiry > 0 && (isGlobal ==> k.client == NETWORK_WIDE)
    ensures Capped(Observed(o, k, name, expiry).pairs, isGlobal)
  {
    if !Refused(o.pairs, k, name) {
      AcceptedSizes(o.pairs, k, name, expiry);
      AcceptedJustified(o.pairs, k, name, expiry, isGlobal);
    }
  }

  lemma AcceptedJustified(pairs: Pairs, k: Pair, name: string, expiry: Time, isGlobal: bool)
    requires Justified(pairs, isGlobal) && expiry > 0 && (isGlobal ==> k.client == NETWORK_WIDE)
    ensures Justified(pairs[k := NamesAt(pairs, k)[name := expiry]], isGlobal)
  {
    assert name in NamesAt(pairs, k)[name := expiry];
  }

  lemma ViewUpdated(pairs: Pairs, k: Pair, names: Names)
    ensures ViewOf(pairs[k := names]) == ViewOf(pairs)[k := Latest(names)]
  {
  }

  lemma LatestPositive(names: Names, name: string, expiry: Time)
    requires expiry > 0
    ensures Latest(names[name := expiry]) > 0
  {
    assert names[name := expiry][name] == expiry;
  }

  lemma LatestOfNone()
    ensures Latest(map[]) == 0
  {
  }

  /** A follower of the reports keeps up with one observation. */
  lemma ObservedFollows(o: Outcome, k: Pair, name: string, expiry: Time, start: View)
    requires expiry > 0 && FollowAll(start, o.changes) == ViewOf(o.pairs)
    ensures var after := Observed(o, k, name, expiry);
            FollowAll(start, after.changes) == ViewOf(after.pairs)
  {
    var names := NamesAt(o.pairs, k)[name := expiry];
    ViewUpdated(o.pairs, k, names);
    LatestPositive(NamesAt(o.pairs, k), name, expiry);
    LatestOfNone();
    FollowOne(start, o.changes, Change(k.client, k.dest, Latest(names), false));
    if Latest(names) == Latest(NamesAt(o.pairs, k)) {
      assert ViewOf(o.pairs)[k := Latest(names)] == ViewOf(o.pairs);
    }
  }

  /** All of it: caps, the follower, and the bound on every reported expiry. */
  lemma {:induction false} ObservedAllKeeps(
    o: Outcome, client: Addr, name: string, answers: seq<Answer>, now: Time, eligible: Addr -> bool, isGlobal: bool,
    start: View)
    requires now >= 0 && Capped(o.pairs, isGlobal) && (isGlobal ==> client == NETWORK_WIDE)
    requires FollowAll(start, o.changes) == ViewOf(o.pairs)
    ensures var after := ObservedAll(o, client, name, answers, now, eligible);
            Capped(after.pairs, isGlobal) && FollowAll(start, after.changes) == ViewOf(after.pairs)
    decreases |answers|
  {
    if answers != [] {
      var a := answers[|answers| - 1];
      ObservedAllKeeps(o, client, name, answers[..|answers| - 1], now, eligible, isGlobal, start);
      if eligible(a.ip) && a.ttl > 0 {
        var front := ObservedAll(o, client, name, answers[..|answers| - 1], now, eligible);
        ObservedCapped(front, Pair(client, a.ip), name, now + CappedTtl(a.ttl), isGlobal);
        ObservedFollows(front, Pair(client, a.ip), name, now + CappedTtl(a.ttl), start);
      }
    }
  }

  /** With room under the three caps a justification is accepted; a renewed one always is. */
  lemma AcceptedWithRoom(o: Outcome, k: Pair, name: string, expiry: Time)
    requires || (k in o.pairs && name in o.pairs[k])
             || (k in o.pairs && |Justifications(o.pairs)| < 16384)
             || (|Justifications(o.pairs)| < 16384 && |o.pairs| < 8192
                 && ((exists j :: j in o.pairs && j.client == k.client) || |Clients(o.pairs)| < 128))
    ensures var after := Observed(o, k, name, expiry);
            after.skipped == o.skipped && k in after.pairs && name in after.pairs[k] && after.pairs[k][name] == expiry
  {
  }

  /** Without room it is counted as skipped, and nothing else happens. */
  lemma SkippedWithoutRoom(o: Outcome, k: Pair, name: string, expiry: Time)
    requires !(k in o.pairs && name in o.pairs[k])
    requires || |Justifications(o.pairs)| >= 16384
             || (k !in o.pairs && |o.pairs| >= 8192)
             || (k !in o.pairs && |Clients(o.pairs)| >= 128 && forall j :: j in o.pairs ==> j.client != k.client)
    ensures Observed(o, k, name, expiry) == o.(skipped := o.skipped + 1)
  {
    if k in o.pairs {
      assert |Justifications(o.pairs)| >= MAX_JUSTIFICATIONS;
    }
  }

  /** An eligible answer justifies its address for its TTL, for an hour if that is longer, and not at all at zero. */
  lemma AnswerExpires(o: Outcome, client: Addr, name: string, a: Answer, now: Time, eligible: Addr -> bool)
    ensures var after, k := Answered(o, client, name, a, now, eligible), Pair(client, a.ip);
            && (!eligible(a.ip) || a.ttl <= 0 ==> after == o)
            && (eligible(a.ip) && a.ttl > 0 && after.skipped == o.skipped ==>
                  && k in after.pairs && name in after.pairs[k]
                  && (a.ttl <= 3600 * SECOND ==> after.pairs[k][name] == now + a.ttl)
                  && (a.ttl > 3600 * SECOND ==> after.pairs[k][name] == now + 3600 * SECOND))
            && (eligible(a.ip) && a.ttl > 0 && after.skipped != o.skipped ==> after == o.(skipped := o.skipped + 1))
  {
  }

  /** So the first answer of a cache with room decides the expiry of its pair, and is reported. */
  lemma FirstAnswer(client: Addr, name: string, a: Answer, now: Time, eligible: Addr -> bool)
    requires eligible(a.ip) && a.ttl > 0 && now >= 0
    ensures var after, expiry := ObservedAll(Outcome(map[], 0, []), client, name, [a], now, eligible),
                                 now + if a.ttl <= 3600 * SECOND then a.ttl else 3600 * SECOND;
            && after.pairs == map[Pair(client, a.ip) := map[name := expiry]] && after.skipped == 0
            && after.changes == [Change(client, a.ip, expiry, false)]
  {
    var none := Outcome(map[], 0, []);
    assert Justifications(none.pairs) == {} && Clients(none.pairs) == {};
    assert ObservedAll(none, client, name, [a][..0], now, eligible) == none;
    hide Justifications, Clients;
    FirstObserved(Pair(client, a.ip), name, now + CappedTtl(a.ttl));
    hide Observed;
  }

  lemma FirstObserved(k: Pair, name: string, expiry: Time)
    requires expiry > 0
    requires Justifications(map[]) == {} && Clients(map[]) == {}
    ensures Observed(Outcome(map[], 0, []), k, name, expiry) ==
            Outcome(map[k := map[name := expiry]], 0, [Change(k.client, k.dest, expiry, false)])
  {
    hide Justifications, Clients;
    var names: Names := map[];
    assert names[name := expiry] == map[name := expiry];
    LatestOfNone();
    LatestOfOne(name, expiry);
  }

  lemma LatestOfOne(name: string, expiry: Time)
    requires expiry > 0
    ensures Latest(map[name := expiry]) == expiry
  {
    var names := map[name := expiry];
    assert IsLatest(names, Latest(names)) && names[name] == expiry;
  }

  /** Nothing but the observed name's justifications of the observed client's pairs changes. */
  lemma {:induction false} ObservedAllFrame(
    o: Outcome, client: Addr, name: string, answers: seq<Answer>, now: Time, eligible: Addr -> bool, k: Pair, n: string)
    requires n != name || k.client != client || forall a :: a in answers ==> a.ip != k.dest
    ensures var after := ObservedAll(o, client, name, answers, now, eligible);
            (k in after.pairs && n in after.pairs[k]) <==> (k in o.pairs && n in o.pairs[k])
    ensures var after := ObservedAll(o, client, name, answers, now, eligible);
            k in o.pairs && n in o.pairs[k] ==> after.pairs[k][n] == o.pairs[k][n]
    decreases |answers|
  {
    if answers != [] {
      ObservedAllFrame(o, client, name, answers[..|answers| - 1], now, eligible, k, n);
      assert answers[|answers| - 1] in answers;
    }
  }

  /** A justification already held is never refused: its last answer sets the expiry. */
  lemma {:induction false} ObservedAllRenews(
    o: Outcome, client: Addr, name: string, answers: seq<Answer>, now: Time, eligible: Addr -> bool, dest: Addr,
    last: nat)
    requires Pair(client, dest) in o.pairs && name in o.pairs[Pair(client, dest)]
    requires last < |answers| && answers[last].ip == dest && eligible(dest) && answers[last].ttl > 0
    requires forall i :: last < i < |answers| ==> answers[i].ip != dest || answers[i].ttl <= 0
    ensures var after := ObservedAll(o, client, name, answers, now, eligible).pairs;
            Pair(client, dest) in after && name in after[Pair(client, dest)]
            && after[Pair(client, dest)][name] ==
               now + if answers[last].ttl <= 3600 * SECOND then answers[last].ttl else 3600 * SECOND
    decreases |answers|
  {
    var front := answers[..|answers| - 1];
    StaysHeld(o, client, name, front, now, eligible, dest);
    if last < |answers| - 1 {
      ObservedAllRenews(o, client, name, front, now, eligible, dest, last);
    }
  }

  lemma {:induction false} StaysHeld(
    o: Outcome, client: Addr, name: string, answers: seq<Answer>, now: Time, eligible: Addr -> bool, dest: Addr)
    requires Pair(client, dest) in o.pairs && name in o.pairs[Pair(client, dest)]
    ensures var after := ObservedAll(o, client, name, answers, now, eligible).pairs;
            Pair(client, dest) in after && name in after[Pair(client, dest)]
    decreases |answers|
  {
    if answers != [] {
      StaysHeld(o, client, name, answers[..|answers| - 1], now, eligible, dest);
    }
  }

  /** No justification outlives t by more than an hour. */
  predicate Bounded(pairs: Pairs, t: Time) {
    forall k, n :: k in pairs && n in pairs[k] ==> pairs[k][n] <= t + HOUR
  }

  predicate ChangesBounded(cs: seq<Change>, t: Time) {
    forall c :: c in cs ==> c.delete || c.expiry <= t + HOUR
  }

  function Later(a: Time, b: Time): Time {
    if a < b then b else a
  }

  lemma BoundedLater(pairs: Pairs, t: Time, later: Time)
    requires Bounded(pairs, t) && t <= later
    ensures Bounded(pairs, later)
  {
  }

  lemma LatestBounded(pairs: Pairs, kept: Names, k: Pair, t: Time)
    requires 0 <= t && Bounded(pairs, t) && k in pairs
    requires forall n :: n in kept ==> n in pairs[k] && kept[n] == pairs[k][n]
    ensures Latest(kept) <= t + HOUR
  {
  }

  /** Cleaning keeps every expiry within the hour. */
  lemma CleanBounded(pairs: Pairs, now: Time, rules: Rules, t: Time)
    requires Bounded(pairs, t)
    ensures Bounded(CleanPairs(pairs, now, rules), t)
  {
  }

  /** So is what a whole list reports. */
  lemma ListBounded(pairs: Pairs, cs: seq<Change>, t: Time)
    requires 0 <= t && Bounded(pairs, t) && Lists(cs, ViewOf(pairs))
    ensures ChangesBounded(cs, t)
  {
    forall c | c in cs
      ensures c.expiry <= t + HOUR
    {
      var k := Pair(c.client, c.dest);
      LatestBounded(pairs, pairs[k], k, t);
    }
  }

  lemma NothingReported(told: View, v: View, t: Time)
    ensures FollowAll(told, []) == told && FollowAll(v, []) == v && ChangesBounded([], t)
  {
  }

  /** Every report names another pair. */
  predicate Distinct(cs: seq<Change>) {
    forall i, j :: 0 <= i < j < |cs| ==> cs[i].client != cs[j].client || cs[i].dest != cs[j].dest
  }

  lemma {:induction false} ObservedAllBounded(
    o: Outcome, client: Addr, name: string, answers: seq<Answer>, now: Time, eligible: Addr -> bool, t: Time)
    requires 0 <= now <= t && Bounded(o.pairs, t) && ChangesBounded(o.changes, t)
    ensures var after := ObservedAll(o, client, name, answers, now, eligible);
            Bounded(after.pairs, t) && ChangesBounded(after.changes, t)
    decreases |answers|
  {
    if answers != [] {
      ObservedAllBounded(o, client, name, answers[..|answers| - 1], now, eligible, t);
    }
  }

  lemma {:induction false} ObservedAllDistinct(
    pairs: Pairs, skipped: nat, client: Addr, name: string, answers: seq<Answer>, now: Time, eligible: Addr -> bool)
    requires forall i, j :: 0 <= i < j < |answers| ==> answers[i].ip != answers[j].ip
    ensures var cs := ObservedAll(Outcome(pairs, skipped, []), client, name, answers, now, eligible).changes;
            Distinct(cs) && forall c :: c in cs ==> c.client == client && exists a :: a in answers && a.ip == c.dest
    decreases |answers|
  {
    if answers != [] {
      var front, a := answers[..|answers| - 1], answers[|answers| - 1];
      ObservedAllDistinct(pairs, skipped, client, name, front, now, eligible);
      var cs := ObservedAll(Outcome(pairs, skipped, []), client, name, front, now, eligible).changes;
      forall c | c in cs
        ensures c.dest != a.ip
      {
        var b :| b in front && b.ip == c.dest;
      }
    }
  }

  lemma CleanKeepsCapped(pairs: Pairs, now: Time, rules: Rules, isGlobal: bool)
    requires Capped(pairs, isGlobal)
    ensures Capped(CleanPairs(pairs, now, rules), isGlobal)
  {
    var after := CleanPairs(pairs, now, rules);
    assert after.Keys <= pairs.Keys;
    SubsetSize(after.Keys, pairs.Keys);
    assert |after| == |after.Keys|;
    SubsetSize(Clients(after), Clients(pairs));
    assert Justifications(after) <= Justifications(pairs);
    SubsetSize(Justifications(after), Justifications(pairs));
  }

  // ------------------------------------------------------------------ how far behind a follower is

  /** Every justification is by a name the rules still match. */
  predicate Matching(pairs: Pairs, rules: Rules) {
    forall k, n :: k in pairs && n in pairs[k] ==> rules(n)
  }

  /** A follower holds the view, and beside it only what had expired at t. */
  predicate Behind(told: View, v: View, t: Time) {
    && (forall k :: k in v ==> k in told && told[k] == v[k])
    && (forall k :: k in told && k !in v ==> told[k] <= t)
  }

  lemma {:induction false} FollowKeepsBehind(told: View, v: View, cs: seq<Change>, t: Time)
    requires Behind(told, v, t)
    ensures Behind(FollowAll(told, cs), FollowAll(v, cs), t)
    decreases |cs|
  {
    if cs != [] {
      FollowKeepsBehind(told, v, cs[..|cs| - 1], t);
    }
  }

  lemma {:induction false} ObservedAllMatches(
    o: Outcome, client: Addr, name: string, answers: seq<Answer>, now: Time, eligible: Addr -> bool, rules: Rules)
    requires Matching(o.pairs, rules) && rules(name)
    ensures Matching(ObservedAll(o, client, name, answers, now, eligible).pairs, rules)
    decreases |answers|
  {
    if answers != [] {
      ObservedAllMatches(o, client, name, answers[..|answers| - 1], now, eligible, rules);
    }
  }

  /** Of names that all match, cleaning leaves the latest, or none when that one has expired. */
  lemma KeptLatest(names: Names, now: Time, rules: Rules)
    requires names != map[] && forall n :: n in names ==> rules(n) && names[n] > 0
    ensures Kept(names, now, rules) == map[] <==> Latest(names) <= now
    ensures Kept(names, now, rules) != map[] ==> Latest(Kept(names, now, rules)) == Latest(names)
  {
    var kept := Kept(names, now, rules);
    var some :| some in names;
    var last :| last in names && names[last] == Latest(names);
    if names[last] > now {
      assert last in kept;
    } else {
      assert IsLatest(names, Latest(names));
      assert kept == map[];
    }
  }

  /** What cleaning does to the view when every name matches: the expired pairs go. */
  lemma CleanedView(pairs: Pairs, now: Time, rules: Rules, isGlobal: bool)
    requires Justified(pairs, isGlobal) && Matching(pairs, rules)
    ensures ViewOf(CleanPairs(pairs, now, rules)) == map k | k in pairs && Latest(pairs[k]) > now :: Latest(pairs[k])
  {
    forall k | k in pairs
      ensures k in CleanPairs(pairs, now, rules) <==> Latest(pairs[k]) > now
      ensures k in CleanPairs(pairs, now, rules) ==> Latest(CleanPairs(pairs, now, rules)[k]) == Latest(pairs[k])
    {
      KeptLatest(pairs[k], now, rules);
    }
  }

  lemma ListedBehind(told: View, pairs: Pairs, now: Time, rules: Rules, isGlobal: bool, t: Time)
    requires Justified(pairs, isGlobal) && Matching(pairs, rules) && Behind(told, ViewOf(pairs), t)
    ensures Behind(told, ViewOf(CleanPairs(pairs, now, rules)), if t < now then now else t)
  {
    CleanedView(pairs, now, rules, isGlobal);
  }

  /** A list of v overwrites what a follower holds by v; into an empty hand it gives v itself. */
  lemma {:induction false} ListFollowed(told: View, v: View, cs: seq<Change>)
    requires Lists(cs, v)
    ensures FollowAll(told, cs) == told + v
    decreases |cs|
  {
    if cs == [] {
      assert told + v == told;
    } else {
      ListFront(cs, v);
      hide Lists;
      var c := cs[|cs| - 1];
      var k := Pair(c.client, c.dest);
      ListFollowed(told, v - {k}, cs[..|cs| - 1]);
      MergedLast(told, v, k);
    }
  }

  lemma MergedLast(told: View, v: View, k: Pair)
    requires k in v
    ensures (told + (v - {k}))[k := v[k]] == told + v
  {
  }

  /** A follower with no more than expired pairs too many learns nothing from a list. */
  lemma ListHeard(told: View, v: View, cs: seq<Change>, t: Time)
    requires Behind(told, v, t) && Lists(cs, v)
    ensures FollowAll(told, cs) == told && FollowAll(map[], cs) == v
  {
    ListFollowed(told, v, cs);
    ListFollowed(map[], v, cs);
    hide FollowAll, Lists;
    assert told + v == told;
    assert map[] + v == v;
  }

  lemma ListFront(cs: seq<Change>, v: View)
    requires Lists(cs, v) && cs != []
    ensures var c := cs[|cs| - 1];
            !c.delete && Pair(c.client, c.dest) in v && v[Pair(c.client, c.dest)] == c.expiry
    ensures var c := cs[|cs| - 1]; Lists(cs[..|cs| - 1], v - {Pair(c.client, c.dest)})
  {
    assert cs[|cs| - 1] in cs;
    var front, c := cs[..|cs| - 1], cs[|cs| - 1];
    var k := Pair(c.client, c.dest);
    forall d | d in front
      ensures d in cs && Pair(d.client, d.dest) != k
    {
      var i :| 0 <= i < |front| && front[i] == d;
      assert cs[i] == d;
    }
    forall j | j in v - {k}
      ensures Change(j.client, j.dest, v[j], false) in front
    {
      var i :| 0 <= i < |cs| && cs[i] == Change(j.client, j.dest, v[j], false);
      assert i != |cs| - 1;
      assert front[i] == cs[i];
    }
  }

  lemma MergedIsSecond(a: View, b: View)
    ensures a + b == b <==> a.Keys <= b.Keys
  {
    if a + b == b {
      assert (a + b).Keys == a.Keys + b.Keys;
    }
  }

  /** A follower that held the view holds it after All's list exactly when no pair had expired. */
  lemma AllFollowedExactlyWhen(pairs: Pairs, now: Time, rules: Rules, isGlobal: bool, cs: seq<Change>)
    requires Justified(pairs, isGlobal) && Matching(pairs, rules)
    requires Lists(cs, ViewOf(CleanPairs(pairs, now, rules)))
    ensures FollowAll(ViewOf(pairs), cs) == ViewOf(CleanPairs(pairs, now, rules))
            <==> forall k :: k in pairs ==> Latest(pairs[k]) > now
  {
    var v := ViewOf(CleanPairs(pairs, now, rules));
    CleanedView(pairs, now, rules, isGlobal);
    ListFollowed(ViewOf(pairs), v, cs);
    hide *;
    MergedIsSecond(ViewOf(pairs), v);
    assert ViewOf(pairs).Keys <= v.Keys <==> forall k :: k in pairs ==> Latest(pairs[k]) > now;
  }

  // ------------------------------------------------------------------ the cache

  class Cache {
    var rules: Rules
    var pairs: Pairs
    var skipped: nat
    const isGlobal: bool
    const lan: Addr -> bool
    const eligible: Addr -> bool
    /** What a follower of every report returned so far holds. */
    ghost var told: View
    /** The latest time at which the whole cache was listed. */
    ghost var listed: Time
    /** The latest time any operation was given. */
    ghost var clock: Time

    ghost predicate Valid()
      reads this
    {
      && Capped(pairs, isGlobal) && Matching(pairs, rules) && Behind(told, ViewOf(pairs), listed)
      && 0 <= clock && Bounded(pairs, clock)
    }

    constructor (rules: Rules, isGlobal: bool, lan: Addr -> bool, eligible: Addr -> bool)
      ensures Valid() && pairs == map[] && skipped == 0 && told == map[] && clock == 0
      ensures this.rules == rules && this.isGlobal == isGlobal && this.lan == lan && this.eligible == eligible
    {
      this.rules, this.isGlobal, this.lan, this.eligible := rules, isGlobal, lan, eligible;
      pairs, skipped, told, listed, clock := map[], 0, map[], 0, 0;
      new;
      assert Clients(pairs) == {} && Justifications(pairs) == {};
    }

    method JustificationCount() returns (n: nat)
      ensures n == |Justifications(pairs)|
    {
      n := 0;
      var todo := pairs.Keys;
      while todo != {}
        invariant todo <= pairs.Keys
        invariant n == |JustificationsOf(pairs, pairs.Keys - todo)|
        decreases |todo|
      {
        var k :| k in todo;
        AddKey(pairs, pairs.Keys - todo, k);
        assert pairs.Keys - todo + {k} == pairs.Keys - (todo - {k});
        todo := todo - {k};
        n := n + |pairs[k]|;
      }
      assert JustificationsOf(pairs, pairs.Keys - {}) == Justifications(pairs);
    }

    method HasClient(client: Addr) returns (found: bool)
      ensures found <==> client in Clients(pairs)
    {
      found := false;
      var todo := pairs.Keys;
      while todo != {}
        invariant todo <= pairs.Keys
        invariant forall k :: k in pairs.Keys - todo ==> k.client != client
        decreases |todo|
      {
        var k :| k in todo;
        if k.client == client {
          return true;
        }
        todo := todo - {k};
      }
    }

    method ClientCount() returns (n: nat)
      ensures n == |Clients(pairs)|
    {
      var seen: set<Addr> := {};
      var todo := pairs.Keys;
      while todo != {}
        invariant todo <= pairs.Keys
        invariant seen == set k | k in pairs.Keys - todo :: k.client
        decreases |todo|
      {
        var k :| k in todo;
        seen := seen + {k.client};
        todo := todo - {k};
      }
      assert seen == Clients(pairs);
      n := |seen|;
    }

    /** Adds or renews one justification, or counts it as skipped when a cap refuses it. */
    method Justify(k: Pair, name: string, expiry: Time) returns (change: seq<Change>)
      modifies this`pairs, this`skipped
      ensures Outcome(pairs, skipped, change) == Observed(Outcome(old(pairs), old(skipped), []), k, name, expiry)
    {
      change := [];
      var justifications := JustificationCount();
      if name !in NamesAt(pairs, k) && justifications >= MAX_JUSTIFICATIONS {
        skipped := skipped + 1;
        return;
      }
      var known := HasClient(k.client);
      var clients := ClientCount();
      if k !in pairs && (|pairs| >= MAX_PAIRS || (!known && clients >= MAX_CLIENTS)) {
        skipped := skipped + 1;
        return;
      }
      var names := NamesAt(pairs, k);
      var before := LatestOf(names);
      names := names[name := expiry];
      var after := LatestOf(names);
      pairs := pairs[k := names];
      if after != before {
        change := [Change(k.client, k.dest, after, false)];
      }
    }

    /** Learns a DNS reply: client asked for name and was given answers. */
    method Observe(client: Addr, name: string, answers: seq<Answer>, now: Time) returns (changes: seq<Change>)
      requires Valid() && now >= 0
      modifies this`pairs, this`skipped, this`told, this`clock
      ensures clock == Later(old(clock), now) && (old(clock) <= now ==> ChangesBounded(changes, now))
      ensures Valid() && told == FollowAll(old(told), changes)
      ensures FollowAll(ViewOf(old(pairs)), changes) == ViewOf(pairs)
      ensures old(told) == old(ViewOf(pairs)) ==> told == ViewOf(pairs)
      ensures !(lan(client) && rules(name)) ==> pairs == old(pairs) && skipped == old(skipped) && changes == []
      ensures lan(client) && rules(name) ==>
                Outcome(pairs, skipped, changes) ==
                ObservedAll(Outcome(old(pairs), old(skipped), []),
                            if isGlobal then NETWORK_WIDE else client, name, answers, now, eligible)
    {
      hide Capped, Matching, Behind, Bounded, ChangesBounded, ObservedAll, FollowAll, ViewOf;
      changes := [];
      NothingReported(told, ViewOf(pairs), now);
      BoundedLater(pairs, clock, Later(clock, now));
      clock := Later(clock, now);
      if !lan(client) || !rules(name) {
        return;
      }
      var who := if isGlobal then NETWORK_WIDE else client;
      ghost var start := Outcome(pairs, skipped, []);
      changes := JustifyAll(who, name, answers, now);
      ObservedAllKeeps(start, who, name, answers, now, eligible, isGlobal, ViewOf(start.pairs));
      ObservedAllMatches(start, who, name, answers, now, eligible, rules);
      ObservedAllBounded(start, who, name, answers, now, eligible, clock);
      FollowKeepsBehind(told, ViewOf(start.pairs), changes, listed);
      told := FollowAll(told, changes);
    }

    method JustifyAll(who: Addr, name: string, answers: seq<Answer>, now: Time) returns (changes: seq<Change>)
      modifies this`pairs, this`skipped
      ensures Outcome(pairs, skipped, changes) ==
              ObservedAll(Outcome(old(pairs), old(skipped), []), who, name, answers, now, eligible)
    {
      changes := [];
      ghost var start := Outcome(pairs, skipped, []);
      for i := 0 to |answers|
        invariant Outcome(pairs, skipped, changes) == ObservedAll(start, who, name, answers[..i], now, eligible)
      {
        ObservedAllStep(start, who, name, answers, i, now, eligible);
        var change := JustifyAnswer(who, name, answers[i], now, changes);
        changes := changes + change;
      }
      assert answers[..|answers|] == answers;
    }

    method JustifyAnswer(who: Addr, name: string, a: Answer, now: Time, ghost changes: seq<Change>)
      returns (change: seq<Change>)
      modifies this`pairs, this`skipped
      ensures Outcome(pairs, skipped, changes + change) ==
              Answered(Outcome(old(pairs), old(skipped), changes), who, name, a, now, eligible)
    {
      hide Observed, Answered;
      change := [];
      ghost var front := Outcome(pairs, skipped, changes);
      if eligible(a.ip) && a.ttl > 0 {
        change := Justify(Pair(who, a.ip), name, now + CappedTtl(a.ttl));
        AnsweredAppends(front, who, name, a, now, eligible, Outcome(pairs, skipped, change));
      } else {
        AnsweredSkips(front, who, name, a, now, eligible);
        assert changes + change == changes;
      }
    }

    /** Removes from one pair's names those that expired or no longer match. */
    method Sift(names: Names, now: Time) returns (kept: Names)
      ensures kept == Kept(names, now, rules)
    {
      kept := names;
      var todo := names.Keys;
      while todo != {}
        invariant todo <= names.Keys
        invariant kept == map n | n in names && (n in todo || (names[n] > now && rules(n))) :: names[n]
        decreases |todo|
      {
        var n :| n in todo;
        todo := todo - {n};
        if names[n] <= now || !rules(n) {
          kept := kept - {n};
        }
      }
    }

    /** Sifts one pair and reports it when its latest expiry changed. */
    method CleanOne(k: Pair, now: Time) returns (change: seq<Change>)
      requires k in pairs
      modifies this`pairs
      ensures pairs == Sifted(old(pairs), k, Kept(old(pairs)[k], now, rules))
      ensures FollowAll(ViewOf(old(pairs)), change) == ViewOf(pairs)
      ensures |change| <= 1 && forall c :: c in change ==> c.client == k.client && c.dest == k.dest
      ensures forall c :: c in change ==> c.delete || c.expiry == Latest(Kept(old(pairs)[k], now, rules))
    {
      var names := pairs[k];
      var latest := LatestOf(names);
      var kept := Sift(names, now);
      ghost var held := pairs;
      if kept == map[] {
        pairs := pairs - {k};
        change := [Change(k.client, k.dest, 0, true)];
      } else {
        var after := LatestOf(kept);
        pairs := pairs[k := kept];
        change := if after != latest then [Change(k.client, k.dest, after, false)] else [];
      }
      SiftedFollows(held, k, kept, pairs, change);
    }

    /**
      Drops what expired or no longer matches. The pairs are visited in no particular order;
      what is left, and what a follower of the reports then holds, does not depend on it.
      */
    method CleanEach(now: Time, ghost t: Time) returns (changes: seq<Change>)
      requires 0 <= t && Bounded(pairs, t)
      modifies this`pairs
      ensures ChangesBounded(changes, t)
      ensures pairs == CleanPairs(old(pairs), now, rules)
      ensures FollowAll(ViewOf(old(pairs)), changes) == ViewOf(pairs)
      ensures Distinct(changes)
    {
      changes := [];
      ghost var before := pairs;
      var todo := pairs.Keys;
      assert PartlyClean(before, pairs, todo, now, rules);
      while todo != {}
        invariant todo <= before.Keys
        invariant PartlyClean(before, pairs, todo, now, rules)
        invariant FollowAll(ViewOf(before), changes) == ViewOf(pairs)
        invariant Distinct(changes) && NoneOf(changes, todo) && ChangesBounded(changes, t)
        decreases |todo|
      {
        var k :| k in todo;
        PartlyCleanAt(before, pairs, todo, now, rules, k);
        LatestBounded(before, Kept(before[k], now, rules), k, t);
        var change := CleanOne(k, now);
        FollowConcat(ViewOf(before), changes, change);
        DistinctStep(changes, change, todo, k);
        changes, todo := changes + change, todo - {k};
      }
      PartlyCleanDone(before, pairs, now, rules);
    }

    /** Asks nothing of the rules: they may just have been replaced. */
    method Clean(now: Time) returns (changes: seq<Change>)
      requires Capped(pairs, isGlobal) && Behind(told, ViewOf(pairs), listed) && 0 <= clock && Bounded(pairs, clock)
      modifies this`pairs, this`told, this`clock
      ensures clock == Later(old(clock), now) && (old(clock) <= now ==> ChangesBounded(changes, now))
      ensures Valid() && told == FollowAll(old(told), changes)
      ensures FollowAll(ViewOf(old(pairs)), changes) == ViewOf(pairs)
      ensures old(told) == old(ViewOf(pairs)) ==> told == ViewOf(pairs)
      ensures pairs == CleanPairs(old(pairs), now, rules)
      ensures Distinct(changes)
    {
      hide Within, Justified, Behind, Bounded, ChangesBounded, FollowAll, ViewOf;
      CleanKeepsCapped(pairs, now, rules, isGlobal);
      ghost var before := ViewOf(pairs);
      BoundedLater(pairs, clock, Later(clock, now));
      clock := Later(clock, now);
      CleanBounded(pairs, now, rules, clock);
      changes := CleanEach(now, clock);
      FollowKeepsBehind(told, before, changes, listed);
      told := FollowAll(told, changes);
    }

    method ReplaceRules(r: Rules, now: Time) returns (changes: seq<Change>)
      requires Valid()
      modifies this`rules, this`pairs, this`told, this`clock
      ensures clock == Later(old(clock), now) && (old(clock) <= now ==> ChangesBounded(changes, now))
      ensures Valid() && told == FollowAll(old(told), changes)
      ensures FollowAll(ViewOf(old(pairs)), changes) == ViewOf(pairs)
      ensures old(told) == old(ViewOf(pairs)) ==> told == ViewOf(pairs)
      ensures rules == r && pairs == CleanPairs(old(pairs), now, r)
      ensures Distinct(changes)
    {
      rules := r;
      changes := Clean(now);
    }

    method Expire(now: Time) returns (changes: seq<Change>)
      requires Valid()
      modifies this`pairs, this`told, this`clock
      ensures clock == Later(old(clock), now) && (old(clock) <= now ==> ChangesBounded(changes, now))
      ensures Valid() && told == FollowAll(old(told), changes)
      ensures FollowAll(ViewOf(old(pairs)), changes) == ViewOf(pairs)
      ensures old(told) == old(ViewOf(pairs)) ==> told == ViewOf(pairs)
      ensures pairs == CleanPairs(old(pairs), now, rules)
      ensures Distinct(changes)
    {
      changes := Clean(now);
    }

    /**
      The whole cache as reports, one per pair, after dropping what expired. What the dropping
      reports is thrown away: a follower still holds those pairs, all of them expired.
      */
    method All(now: Time) returns (changes: seq<Change>)
      requires Valid()
      modifies this`pairs, this`told, this`listed, this`clock
      ensures clock == Later(old(clock), now) && (old(clock) <= now ==> ChangesBounded(changes, now))
      ensures Valid() && told == FollowAll(old(told), changes) == old(told)
      ensures listed == if old(listed) < now then now else old(listed)
      ensures pairs == CleanPairs(old(pairs), now, rules)
      ensures Lists(changes, ViewOf(pairs))
      ensures FollowAll(map[], changes) == ViewOf(pairs)
    {
      hide Matching, Behind, Bounded, ChangesBounded, Lists, FollowAll, ViewOf, CleanPairs;
      ghost var heard := told;
      ListedBehind(told, pairs, now, rules, isGlobal, listed);
      var unreported := Expire(now);
      changes := List();
      told, listed := heard, if listed < now then now else listed;
      ListHeard(heard, ViewOf(pairs), changes, listed);
      ListBounded(pairs, changes, clock);
    }

    method List() returns (changes: seq<Change>)
      ensures Lists(changes, ViewOf(pairs))
    {
      changes := [];
      var todo := pairs.Keys;
      while todo != {}
        invariant todo <= pairs.Keys
        invariant Lists(changes, ViewOf(pairs) - todo)
        decreases |todo|
      {
        var k :| k in todo;
        var t := LatestOf(pairs[k]);
        ListOne(changes, ViewOf(pairs) - todo, k, t);
        assert (ViewOf(pairs) - todo)[k := t] == ViewOf(pairs) - (todo - {k});
        changes := changes + [Change(k.client, k.dest, t, false)];
        todo := todo - {k};
      }
      assert ViewOf(pairs) - {} == ViewOf(pairs);
    }

    /** Forgets every pair whose destination is one of the router's own addresses. */
    method Forget(local: set<Addr>) returns (changes: seq<Change>)
      requires Valid()
      modifies this`pairs, this`told
      ensures Valid() && told == FollowAll(old(told), changes)
      ensures FollowAll(ViewOf(old(pairs)), changes) == ViewOf(pairs)
      ensures old(told) == old(ViewOf(pairs)) ==> told == ViewOf(pairs)
      ensures forall c :: c in changes ==> c.delete
      ensures pairs == map k | k in old(pairs) && k.dest !in local :: old(pairs)[k]
    {
      hide Capped, Matching, Behind, Bounded, FollowAll, ViewOf, Without;
      ghost var before := pairs;
      changes := ForgetEach(local);
      ForgetKeeps(before, local, rules, isGlobal, clock);
      FollowKeepsBehind(told, ViewOf(before), changes, listed);
      told := FollowAll(told, changes);
    }

    method ForgetEach(local: set<Addr>) returns (changes: seq<Change>)
      modifies this`pairs
      ensures forall c :: c in changes ==> c.delete
      ensures pairs == Without(old(pairs), old(pairs).Keys, local)
      ensures FollowAll(ViewOf(old(pairs)), changes) == ViewOf(pairs)
    {
      hide ViewOf, FollowAll, Without;
      changes := [];
      NothingReported(ViewOf(pairs), ViewOf(pairs), 0);
      ghost var before := pairs;
      var todo := pairs.Keys;
      ghost var done: set<Pair> := {};
      WithoutNone(before, local);
      while todo != {}
        invariant todo !! done && todo + done == before.Keys
        invariant pairs == Without(before, done, local) && forall c :: c in changes ==> c.delete
        invariant FollowAll(ViewOf(before), changes) == ViewOf(pairs)
        decreases |todo|
      {
        var k :| k in todo;
        WithoutStep(before, done, local, k);
        todo, done := todo - {k}, done + {k};
        if k.dest in local {
          FollowOne(ViewOf(before), changes, Change(k.client, k.dest, 0, true));
          ViewRemoved(pairs, k);
          pairs := pairs - {k};
          changes := changes + [Change(k.client, k.dest, 0, true)];
        }
      }
      assert done == before.Keys;
    }
  }

  lemma ObservedAllStep(
    o: Outcome, client: Addr, name: string, answers: seq<Answer>, i: nat, now: Time, eligible: Addr -> bool)
    requires i < |answers|
    ensures ObservedAll(o, client, name, answers[..i + 1], now, eligible) ==
            Answered(ObservedAll(o, client, name, answers[..i], now, eligible), client, name, answers[i], now, eligible)
  {
    assert answers[..i + 1][..i] == answers[..i];
  }

  function Without(pairs: Pairs, done: set<Pair>, local: set<Addr>): Pairs {
    map k | k in pairs && !(k in done && k.dest in local) :: pairs[k]
  }

  lemma ForgetKeeps(pairs: Pairs, local: set<Addr>, rules: Rules, isGlobal: bool, t: Time)
    requires Capped(pairs, isGlobal) && Matching(pairs, rules) && Bounded(pairs, t)
    ensures var after := Without(pairs, pairs.Keys, local);
            && Capped(after, isGlobal) && Matching(after, rules) && Bounded(after, t)
            && after == map k | k in pairs && k.dest !in local :: pairs[k]
  {
    FewerCapped(pairs, Without(pairs, pairs.Keys, local), isGlobal);
  }

  lemma WithoutNone(pairs: Pairs, local: set<Addr>)
    ensures Without(pairs, {}, local) == pairs
  {
  }

  lemma WithoutStep(pairs: Pairs, done: set<Pair>, local: set<Addr>, k: Pair)
    requires k in pairs && k !in done
    ensures Without(pairs, done + {k}, local) ==
            if k.dest in local then Without(pairs, done, local) - {k} else Without(pairs, done, local)
  {
  }

  lemma ViewRemoved(pairs: Pairs, k: Pair)
    ensures ViewOf(pairs - {k}) == ViewOf(pairs) - {k}
  {
  }

  lemma AnsweredSkips(o: Outcome, who: Addr, name: string, a: Answer, now: Time, eligible: Addr -> bool)
    requires !(eligible(a.ip) && a.ttl > 0)
    ensures Answered(o, who, name, a, now, eligible) == o
  {
  }

  /** Reports only append. */
  lemma AnsweredAppends(o: Outcome, who: Addr, name: string, a: Answer, now: Time, eligible: Addr -> bool, one: Outcome)
    requires eligible(a.ip) && a.ttl > 0
    requires one == Observed(o.(changes := []), Pair(who, a.ip), name, now + CappedTtl(a.ttl))
    ensures Answered(o, who, name, a, now, eligible) == one.(changes := o.changes + one.changes)
  {
  }

  function Sifted(pairs: Pairs, k: Pair, kept: Names): Pairs {
    if kept == map[] then pairs - {k} else pairs[k := kept]
  }

  predicate NoneOf(cs: seq<Change>, keys: set<Pair>) {
    forall c :: c in cs ==> Pair(c.client, c.dest) !in keys
  }

  lemma DistinctStep(cs: seq<Change>, change: seq<Change>, todo: set<Pair>, k: Pair)
    requires Distinct(cs) && NoneOf(cs, todo) && k in todo
    requires |change| <= 1 && forall c :: c in change ==> c.client == k.client && c.dest == k.dest
    ensures Distinct(cs + change) && NoneOf(cs + change, todo - {k})
  {
    if change != [] {
      assert change == [change[0]] && change[0] in change;
      forall i | 0 <= i < |cs|
        ensures cs[i].client != k.client || cs[i].dest != k.dest
      {
        assert cs[i] in cs;
        assert Pair(cs[i].client, cs[i].dest) != Pair(k.client, k.dest);
      }
    }
  }

  /** A submap of a capped cache is capped. */
  lemma FewerCapped(before: Pairs, after: Pairs, isGlobal: bool)
    requires Capped(before, isGlobal) && forall k :: k in after ==> k in before && after[k] == before[k]
    ensures Capped(after, isGlobal)
  {
    assert after.Keys <= before.Keys;
    SubsetSize(after.Keys, before.Keys);
    assert |after| == |after.Keys|;
    SubsetSize(Clients(after), Clients(before));
    assert Justifications(after) <= Justifications(before);
    SubsetSize(Justifications(after), Justifications(before));
  }

  /** Every pair outside todo is as cleaning leaves it, every pair in todo as it was. */
  predicate PartlyClean(before: Pairs, after: Pairs, todo: set<Pair>, now: Time, rules: Rules) {
    && (forall k :: k in after ==> k in before)
    && (forall k :: k in before && k in todo ==> k in after && after[k] == before[k])
    && (forall k :: k in before && k !in todo ==> (k in after <==> Kept(before[k], now, rules) != map[]))
    && (forall k :: k in after && k !in todo ==> after[k] == Kept(before[k], now, rules))
  }

  lemma PartlyCleanAt(before: Pairs, after: Pairs, todo: set<Pair>, now: Time, rules: Rules, k: Pair)
    requires PartlyClean(before, after, todo, now, rules) && k in todo && todo <= before.Keys
    ensures k in after && after[k] == before[k]
    ensures PartlyClean(before, Sifted(after, k, Kept(after[k], now, rules)), todo - {k}, now, rules)
  {
  }

  lemma PartlyCleanDone(before: Pairs, after: Pairs, now: Time, rules: Rules)
    requires PartlyClean(before, after, {}, now, rules)
    ensures after == CleanPairs(before, now, rules)
  {
    var clean := CleanPairs(before, now, rules);
    assert after.Keys == clean.Keys;
  }

  lemma SiftedFollows(held: Pairs, k: Pair, kept: Names, after: Pairs, change: seq<Change>)
    requires k in held
    requires kept == map[] ==> after == held - {k} && change == [Change(k.client, k.dest, 0, true)]
    requires kept != map[] ==> after == held[k := kept]
    requires kept != map[] && Latest(kept) != Latest(held[k]) ==>
             change == [Change(k.client, k.dest, Latest(kept), false)]
    requires kept != map[] && Latest(kept) == Latest(held[k]) ==> change == []
    ensures FollowAll(ViewOf(held), change) == ViewOf(after)
  {
    if kept == map[] {
      FollowOne(ViewOf(held), [], change[0]);
      assert ViewOf(after) == ViewOf(held) - {k};
    } else {
      ViewUpdated(held, k, kept);
      if change != [] {
        FollowOne(ViewOf(held), [], change[0]);
      }
    }
  }

  /** The reports cs put exactly the entries of v, each once. */
  predicate Lists(cs: seq<Change>, v: View) {
    && Distinct(cs)
    && (forall c :: c in cs ==> !c.delete && Pair(c.client, c.dest) in v && v[Pair(c.client, c.dest)] == c.expiry)
    && (forall k :: k in v ==> Change(k.client, k.dest, v[k], false) in cs)
  }

  lemma ListOne(cs: seq<Change>, v: View, k: Pair, t: Time)
    requires Lists(cs, v) && k !in v
    ensures Lists(cs + [Change(k.client, k.dest, t, false)], v[k := t])
  {
    var c := Change(k.client, k.dest, t, false);
    forall i | 0 <= i < |cs|
      ensures cs[i].client != c.client || cs[i].dest != c.dest
    {
      assert cs[i] in cs;
    }
  }
}
