/** The ring of upstream proxies: rebuilt from DNS, swapped after probes, walked by requests, pruned on failures. */
module ProxyPool {
  import opened Bits
  import opened Options

  type Ip = string

  const WRAP: int := 0x1_0000_0000_0000_0000

  predicate Distinct<T(==)>(s: seq<T>) {
    forall i, j :: 0 <= i < j < |s| ==> s[i] != s[j]
  }

  // ------------------------------------------------------------------ lists

  /** s without any copy of ip, the others in their order. */
  function Without(s: seq<Ip>, ip: Ip): (r: seq<Ip>)
    ensures |r| <= |s| && ip !in r
    ensures forall x :: x in r <==> x in s && x != ip
  {
    if s == [] then []
    else if s[|s| - 1] == ip then Without(s[..|s| - 1], ip)
    else Without(s[..|s| - 1], ip) + [s[|s| - 1]]
  }

  lemma WithoutNone(ip: Ip)
    ensures Without([], ip) == []
  {
  }

  lemma WithoutNext(s: seq<Ip>, i: nat, ip: Ip)
    requires i < |s|
    ensures Without(s[..i + 1], ip) == Without(s[..i], ip) + if s[i] == ip then [] else [s[i]]
  {
    assert s[..i + 1][..i] == s[..i];
  }

  lemma {:induction false} WithoutDistinct(s: seq<Ip>, ip: Ip)
    requires Distinct(s)
    ensures Distinct(Without(s, ip))
  {
    if s != [] {
      var front, last := s[..|s| - 1], s[|s| - 1];
      WithoutDistinct(front, ip);
      assert last !in front;
    }
  }

  /** What is added to acc by going through s: valid addresses not there yet. */
  function AddAll(acc: seq<Ip>, s: seq<Ip>, valid: Ip -> bool): (r: seq<Ip>)
    ensures acc <= r
    ensures forall x :: x in r <==> x in acc || (x in s && valid(x))
  {
    if s == [] then acc
    else
      var r, x := AddAll(acc, s[..|s| - 1], valid), s[|s| - 1];
      assert forall y :: y in s <==> y in s[..|s| - 1] || y == x;
      if valid(x) && x !in r then r + [x] else r
  }

  lemma {:induction false} AddAllDistinct(acc: seq<Ip>, s: seq<Ip>, valid: Ip -> bool)
    requires Distinct(acc)
    ensures Distinct(AddAll(acc, s, valid))
  {
    if s != [] {
      AddAllDistinct(acc, s[..|s| - 1], valid);
    }
  }

  /** All answers of the resolvers, one after another. */
  function Joined(answers: seq<seq<Ip>>): seq<Ip> {
    if answers == [] then [] else Joined(answers[..|answers| - 1]) + answers[|answers| - 1]
  }

  // ------------------------------------------------------------------ the pool as a value

  datatype Pool = Pool(seed: seq<Ip>, all: seq<Ip>, live: seq<Ip>, rr: int)

  function Resolved(p: Pool, answers: seq<seq<Ip>>, valid: Ip -> bool): Pool {
    var found := AddAll([], Joined(answers), valid);
    if found == [] then p
    else p.(all := AddAll(AddAll(AddAll([], p.seed, valid), found, valid), p.live, valid))
  }

  /** The new ring after a probe round: those that delivered, or those at least reached when none did. */
  function NewLive(delivered: seq<Ip>, reached: seq<Ip>): seq<Ip> {
    if delivered == [] then reached else delivered
  }

  /** A resolution that finds something leaves every valid seed, found and live address, each once. */
  lemma ResolveRebuilds(p: Pool, answers: seq<seq<Ip>>, valid: Ip -> bool)
    requires exists x :: x in Joined(answers) && valid(x)
    ensures var all := Resolved(p, answers, valid).all;
            && Distinct(all)
            && forall x :: x in all <==> valid(x) && (x in p.seed || x in Joined(answers) || x in p.live)
  {
    var found := AddAll([], Joined(answers), valid);
    AddAllDistinct([], p.seed, valid);
    AddAllDistinct(AddAll([], p.seed, valid), found, valid);
    AddAllDistinct(AddAll(AddAll([], p.seed, valid), found, valid), p.live, valid);
  }

  lemma {:induction false} JoinedMembers(answers: seq<seq<Ip>>, x: Ip)
    ensures x in Joined(answers) <==> exists a :: a in answers && x in a
    decreases |answers|
  {
    if answers != [] {
      JoinedMembers(answers[..|answers| - 1], x);
      assert forall a :: a in answers <==> a in answers[..|answers| - 1] || a == answers[|answers| - 1];
    }
  }

  /** A resolution without one valid address changes nothing. */
  lemma ResolveNothing(p: Pool, answers: seq<seq<Ip>>, valid: Ip -> bool)
    requires forall a, x :: a in answers && x in a ==> !valid(x)
    ensures Resolved(p, answers, valid) == p
  {
    var found := AddAll([], Joined(answers), valid);
    if found != [] {
      assert found[0] in found;
      JoinedMembers(answers, found[0]);
    }
  }

  /** Going through distinct valid addresses that are new appends them as they stand. */
  lemma {:induction false} AddAllInOrder(acc: seq<Ip>, s: seq<Ip>, valid: Ip -> bool)
    requires Distinct(s) && forall x :: x in s ==> valid(x) && x !in acc
    ensures AddAll(acc, s, valid) == acc + s
    decreases |s|
  {
    if s == [] {
      assert acc + s == acc;
    } else {
      var front, last := s[..|s| - 1], s[|s| - 1];
      assert forall x :: x in front ==> x in s;
      AddAllInOrder(acc, front, valid);
      assert last in s && last !in front;
      assert acc + s == acc + front + [last];
    }
  }

  /** Seeds come first, then what was found, then what is left of the ring; the ring and the cursor stay as they are. */
  lemma ResolveInOrder(p: Pool, answers: seq<seq<Ip>>, valid: Ip -> bool)
    requires Joined(answers) != [] && Distinct(p.seed + Joined(answers) + p.live)
    requires forall x :: x in p.seed + Joined(answers) + p.live ==> valid(x)
    ensures Resolved(p, answers, valid) == p.(all := p.seed + Joined(answers) + p.live)
  {
    var found, whole := Joined(answers), p.seed + Joined(answers) + p.live;
    Disjoint(p.seed, found, p.live);
    AddAllInOrder([], found, valid);
    AddAllInOrder([], p.seed, valid);
    AddAllInOrder(p.seed, found, valid);
    AddAllInOrder(p.seed + found, p.live, valid);
    assert [] + found == found && [] + p.seed == p.seed;
  }

  lemma Disjoint(a: seq<Ip>, b: seq<Ip>, c: seq<Ip>)
    requires Distinct(a + b + c)
    ensures Distinct(a) && Distinct(b) && Distinct(c)
    ensures (forall x :: x in b ==> x !in a) && (forall x :: x in c ==> x !in a + b)
  {
    var s := a + b + c;
    assert forall i :: 0 <= i < |a| ==> s[i] == a[i];
    assert forall i :: 0 <= i < |b| ==> s[|a| + i] == b[i];
    assert forall i :: 0 <= i < |c| ==> s[|a| + |b| + i] == c[i];
  }

  /** A probe round that found a node to deliver keeps exactly those; otherwise those that were at least reached. */
  lemma PublishPrefers(s: Shared, delivered: seq<Ip>, reached: seq<Ip>, valid: Ip -> bool)
    ensures var p := Apply(s, Publish(delivered, reached), valid).pool;
            && (delivered != [] ==> p == s.pool.(live := delivered))
            && (delivered == [] ==> p == s.pool.(live := reached))
  {
  }

  /** Dropping a node leaves every other in its place in the order. */
  lemma {:induction false} WithoutConcat(a: seq<Ip>, b: seq<Ip>, ip: Ip)
    ensures Without(a + b, ip) == Without(a, ip) + Without(b, ip)
    ensures ip !in b ==> Without(b, ip) == b
    decreases |b|
  {
    if b == [] {
      assert a + b == a;
    } else {
      assert (a + b)[..|a + b| - 1] == a + b[..|b| - 1];
      WithoutConcat(a, b[..|b| - 1], ip);
    }
  }

  // ------------------------------------------------------------------ every interleaving

  /** Single steps of the goroutines that share the pool, each under its lock. */
  datatype Act =
    | Resolve(answers: seq<seq<Ip>>)
    | Snapshot
    | Publish(delivered: seq<Ip>, reached: seq<Ip>)
    | Demote(ip: Ip)
    | Pick

  /** The pool and the candidate list a probe round works on. */
  datatype Shared = Shared(pool: Pool, probing: seq<Ip>)

  function Apply(s: Shared, a: Act, valid: Ip -> bool): Shared {
    match a
    case Resolve(answers) => s.(pool := Resolved(s.pool, answers, valid))
    case Snapshot => s.(probing := s.pool.all)
    case Publish(delivered, reached) => s.(pool := s.pool.(live := NewLive(delivered, reached)))
    case Demote(ip) => s.(pool := s.pool.(live := Without(s.pool.live, ip)))
    case Pick => if s.pool.live == [] then s else s.(pool := s.pool.(rr := (s.pool.rr + 1) % WRAP))
  }

  /** Probe results speak of the snapshot, each entry at most once. */
  ghost predicate Possible(s: Shared, a: Act) {
    a.Publish? ==> multiset(a.delivered) <= multiset(s.probing) && multiset(a.reached) <= multiset(s.probing)
  }

  ghost predicate Tidy(s: Shared) {
    Distinct(s.pool.all) && Distinct(s.pool.live) && Distinct(s.probing)
  }

  lemma {:induction false} DistinctMultiset(s: seq<Ip>)
    ensures Distinct(s) <==> forall x :: multiset(s)[x] <= 1
  {
    if s != [] {
      var front, last := s[..|s| - 1], s[|s| - 1];
      DistinctMultiset(front);
      assert s == front + [last];
      assert multiset(s) == multiset(front) + multiset{last};
      assert forall x :: multiset(front)[x] <= multiset(s)[x];
      if Distinct(s) {
        assert last !in front;
        assert multiset(front)[last] == 0;
      }
      if forall x :: multiset(s)[x] <= 1 {
        assert multiset(s)[last] == multiset(front)[last] + 1;
        assert last !in multiset(front);
        assert Distinct(front) && last !in front;
      }
    }
  }

  lemma SubDistinct(s: seq<Ip>, whole: seq<Ip>)
    requires Distinct(whole) && multiset(s) <= multiset(whole)
    ensures Distinct(s)
  {
    DistinctMultiset(whole);
    DistinctMultiset(s);
  }

  function ApplyAll(s: Shared, acts: seq<Act>, valid: Ip -> bool): Shared {
    if acts == [] then s else Apply(ApplyAll(s, acts[..|acts| - 1], valid), acts[|acts| - 1], valid)
  }

  ghost predicate AllPossible(s: Shared, acts: seq<Act>, valid: Ip -> bool) {
    acts == [] || (AllPossible(s, acts[..|acts| - 1], valid)
      && Possible(ApplyAll(s, acts[..|acts| - 1], valid), acts[|acts| - 1]))
  }

  /** However the steps interleave, no list ever gains a second copy of an address. */
  lemma {:induction false} StaysTidy(s: Shared, acts: seq<Act>, valid: Ip -> bool)
    requires Tidy(s) && AllPossible(s, acts, valid)
    ensures Tidy(ApplyAll(s, acts, valid))
    decreases |acts|
  {
    if acts != [] {
      StaysTidy(s, acts[..|acts| - 1], valid);
      var t, a := ApplyAll(s, acts[..|acts| - 1], valid), acts[|acts| - 1];
      match a
      case Resolve(answers) =>
        if AddAll([], Joined(answers), valid) != [] {
          assert AddAll([], Joined(answers), valid)[0] in AddAll([], Joined(answers), valid);
          ResolveRebuilds(t.pool, answers, valid);
        }
      case Snapshot =>
      case Publish(delivered, reached) =>
        SubDistinct(delivered, t.probing);
        SubDistinct(reached, t.probing);
      case Demote(ip) => WithoutDistinct(t.pool.live, ip);
      case Pick =>
    }
  }

  // ------------------------------------------------------------------ the cursor

  /** Where the k-th pick from now lands in a ring of n. */
  function PickedAt(rr: int, n: nat, k: nat): (i: nat)
    requires n > 0
    ensures i < n
  {
    (rr + k) % WRAP % n
  }

  ghost predicate VisitsEach(rr: int, n: nat)
    requires n > 0
  {
    forall j, k :: 1 <= j < k <= n ==> PickedAt(rr, n, j) != PickedAt(rr, n, k)
  }

  /** One pick moves every later one up by one; an empty ring is not moved. */
  lemma PickAdvances(s: Shared, valid: Ip -> bool, k: nat)
    ensures s.pool.live == [] ==> Apply(s, Pick, valid) == s
    ensures s.pool.live != [] ==>
            var next := Apply(s, Pick, valid).pool;
            && next == s.pool.(rr := next.rr) && 0 <= next.rr < 0x1_0000_0000_0000_0000
            && PickedAt(next.rr, |s.pool.live|, k) == PickedAt(s.pool.rr, |s.pool.live|, k + 1)
  {
    if s.pool.live != [] {
      AddWrapped(s.pool.rr + 1, k);
    }
  }

  lemma AddWrapped(x: int, k: nat)
    ensures (x % WRAP + k) % WRAP == (x + k) % WRAP
  {
    var q, r := (x % WRAP + k) / WRAP, (x % WRAP + k) % WRAP;
    QuotientUnique(x + k, WRAP, x / WRAP + q, r);
  }

  lemma SameResidue(a: int, b: int, n: nat)
    requires n > 0 && a <= b < a + n && a % n == b % n
    ensures a == b
  {
    var q := b / n - a / n;
    assert b - a == n * q by {
      assert n * (b / n) - n * (a / n) == n * q;
    }
    if q >= 1 {
      ProductAtLeast(n, q);
    } else if q <= -1 {
      ProductAtLeast(n, -q);
    }
  }

  /**
    As many picks in a row as the ring has places visit each place once, exactly when the 64-bit counter does not
    wrap within them, or its range is a multiple of the ring.
    */
  lemma VisitsExactlyWhen(rr: int, n: nat)
    requires 0 <= rr < WRAP && 0 < n < WRAP
    ensures VisitsEach(rr, n) <==> rr + n < WRAP || rr == WRAP - 1 || WRAP % n == 0
  {
    if rr + n < WRAP || rr == WRAP - 1 {
      StraightVisits(rr, n);
    } else if WRAP % n == 0 {
      EvenVisits(rr, n);
    } else {
      var j, k := Repeated(rr, n);
    }
  }

  /** A ring of three around the wrap: the first place comes again, the third is passed over. */
  lemma ThreeAtTheWrap()
    ensures PickedAt(WRAP - 2, 3, 1) == 0 && PickedAt(WRAP - 2, 3, 2) == 0 && PickedAt(WRAP - 2, 3, 3) == 1
    ensures !VisitsEach(WRAP - 2, 3)
  {
    VisitsExactlyWhen(WRAP - 2, 3);
  }

  lemma StraightPick(rr: int, n: nat, k: nat)
    requires 0 <= rr < WRAP && 0 < n < WRAP && (rr + n < WRAP || rr == WRAP - 1) && 1 <= k <= n
    ensures PickedAt(rr, n, k) == (if rr == WRAP - 1 then k - 1 else rr + k) % n
  {
    if rr == WRAP - 1 {
      QuotientUnique(rr + k, WRAP, 1, k - 1);
    } else {
      QuotientUnique(rr + k, WRAP, 0, rr + k);
    }
  }

  lemma StraightVisits(rr: int, n: nat)
    requires 0 <= rr < WRAP && 0 < n < WRAP && (rr + n < WRAP || rr == WRAP - 1)
    ensures VisitsEach(rr, n)
  {
    hide PickedAt;
    forall j, k | 1 <= j < k <= n
      ensures PickedAt(rr, n, j) != PickedAt(rr, n, k)
    {
      StraightPick(rr, n, j);
      StraightPick(rr, n, k);
      var start := if rr == WRAP - 1 then -1 else rr;
      if (start + j) % n == (start + k) % n {
        SameResidue(start + j, start + k, n);
      }
    }
  }

  lemma WrapShift(x: int, n: nat)
    requires n > 0 && WRAP % n == 0 && WRAP <= x
    ensures (x - WRAP) % n == x % n
  {
    var q, r, w := (x - WRAP) / n, (x - WRAP) % n, WRAP / n;
    assert x == n * (q + w) + r by {
      assert n * (q + w) == n * q + n * w;
    }
    QuotientUnique(x, n, q + w, r);
  }

  lemma EvenPick(rr: int, n: nat, k: nat)
    requires 0 <= rr < WRAP && 0 < n < WRAP && WRAP % n == 0 && k <= n
    ensures PickedAt(rr, n, k) == (rr + k) % n
  {
    if rr + k >= WRAP {
      WrapShift(rr + k, n);
      assert (rr + k) % WRAP == rr + k - WRAP;
    } else {
      assert (rr + k) % WRAP == rr + k;
    }
  }

  lemma EvenVisits(rr: int, n: nat)
    requires 0 <= rr < WRAP && 0 < n < WRAP && WRAP % n == 0
    ensures VisitsEach(rr, n)
  {
    hide PickedAt;
    forall j, k | 1 <= j < k <= n
      ensures PickedAt(rr, n, j) != PickedAt(rr, n, k)
    {
      EvenPick(rr, n, j);
      EvenPick(rr, n, k);
      if (rr + j) % n == (rr + k) % n {
        SameResidue(rr + j, rr + k, n);
      }
    }
  }

  /** i places before the wrap, counted down. */
  lemma BeforeWrap(n: nat, i: nat)
    requires 0 < n < WRAP && 1 <= i <= n
    ensures (WRAP - i) % n == if WRAP % n >= i then WRAP % n - i else WRAP % n - i + n
  {
    var q, r := WRAP / n, WRAP % n;
    if r >= i {
      QuotientUnique(WRAP - i, n, q, r - i);
    } else {
      assert WRAP - i == n * (q - 1) + (r - i + n) by {
        assert n * (q - 1) == n * q - n;
      }
      QuotientUnique(WRAP - i, n, q - 1, r - i + n);
    }
  }

  lemma PickBefore(rr: int, n: nat, k: nat)
    requires 0 <= rr < WRAP && 0 < n < WRAP && 1 <= k <= n && rr + k < WRAP && WRAP - rr - k <= n
    ensures var i := WRAP - rr - k; PickedAt(rr, n, k) == if WRAP % n >= i then WRAP % n - i else WRAP % n - i + n
  {
    BeforeWrap(n, WRAP - rr - k);
  }

  lemma PickAfter(rr: int, n: nat, k: nat)
    requires 0 <= rr < WRAP && 0 < n < WRAP && WRAP <= rr + k < WRAP + n
    ensures PickedAt(rr, n, k) == rr + k - WRAP
  {
    var x := rr + k - WRAP;
    QuotientUnique(rr + k, WRAP, 1, x);
    QuotientUnique(x, n, 0, x);
  }

  /** Otherwise the window crosses the wrap off beat, and some place comes up twice. */
  lemma Repeated(rr: int, n: nat) returns (j: nat, k: nat)
    requires 0 <= rr < WRAP - 1 && 0 < n < WRAP && rr + n >= WRAP && WRAP % n != 0
    ensures 1 <= j < k <= n && PickedAt(rr, n, j) == PickedAt(rr, n, k)
  {
    hide PickedAt;
    var before, r := WRAP - 1 - rr, WRAP % n;
    if r + before <= n {
      j, k := before, before + r;
    } else if r >= before {
      j, k := 1, 1 + r;
    } else {
      j, k := before + 1 - r, before + 1;
    }
    PickBefore(rr, n, j);
    PickAfter(rr, n, k);
  }

  // ------------------------------------------------------------------ one request

  /** What opening a tunnel through a node came to: reached at all, CONNECT accepted, first record delivered. */
  datatype Attempt = Attempt(reachable: bool, ok: bool, verified: bool)
  {
    /** The failures a node is blamed for; a refused CONNECT is not one. */
    predicate Faulty() {
      !reachable || (ok && !verified)
    }
  }

  datatype Try = Try(ip: Ip, attempt: Attempt)

  /** The line during a request: what others leave in the ring before each look, the deadline, the nodes. */
  datatype World = World(ring: nat -> seq<Ip>, late: nat -> bool, attempt: (nat, Ip) -> Attempt)

  /** A node that stood in the ring at some look, and what then came of it. */
  ghost predicate Happened(world: World, t: Try) {
    exists k: nat :: t.ip in world.ring(k) && t.attempt == world.attempt(k + 1, t.ip)
  }

  /** The node blamed: the first one that was at fault. */
  function Blamed(tries: seq<Try>): seq<Ip> {
    if tries == [] then []
    else
      var front, last := Blamed(tries[..|tries| - 1]), tries[|tries| - 1];
      if front == [] && last.attempt.Faulty() then [last.ip] else front
  }

  class Ring {
    const seed: seq<Ip>
    var all: seq<Ip>
    var live: array<Ip>
    var count: nat
    var rr: int
    ghost var demoted: seq<Ip>

    ghost predicate Valid()
      reads this, live
    {
      count <= live.Length && 0 <= rr < WRAP
    }

    ghost function Value(): Pool
      requires Valid()
      reads this, live
    {
      Pool(seed, all, live[..count], rr)
    }

    constructor (seed: seq<Ip>)
      ensures Valid() && Value() == Pool(seed, seed, [], 0) && demoted == [] && fresh(live)
    {
      this.seed := seed;
      all, live, count, rr, demoted := seed, new Ip[0], 0, 0, [];
    }

    method PickNext() returns (ip: Ip)
      requires Valid()
      modifies this`rr
      ensures Valid() && Value() == Apply(Shared(old(Value()), []), Pick, _ => true).pool
      ensures ip == if count == 0 then "" else live[PickedAt(old(rr), count, 1)]
      ensures rr == if count == 0 then old(rr) else (old(rr) + 1) % 0x1_0000_0000_0000_0000
    {
      if count == 0 {
        return "";
      }
      rr := (rr + 1) % WRAP;
      ip := live[rr % count];
    }

    /** Moves the nodes that stay to the front of the same array. */
    method Drop(ip: Ip)
      requires Valid()
      modifies this`count, live, this`demoted
      ensures Valid() && Value() == old(Value()).(live := Without(old(Value()).live, ip))
      ensures demoted == old(demoted) + [ip]
    {
      hide Without;
      ghost var before := live[..count];
      var n := 0;
      WithoutNone(ip);
      for i := 0 to count
        invariant n <= i && count == old(count) && demoted == old(demoted)
        invariant live[..n] == Without(before[..i], ip)
        invariant forall k :: i <= k < count ==> live[k] == before[k]
      {
        WithoutNext(before, i, ip);
        if live[i] != ip {
          live[n] := live[i];
          n := n + 1;
          assert live[..n] == live[..n - 1] + [before[i]];
        }
      }
      assert before[..|before|] == before;
      count, demoted := n, demoted + [ip];
    }

    method Rebuild(answers: seq<seq<Ip>>, valid: Ip -> bool)
      requires Valid()
      modifies this`all
      ensures Valid() && Value() == Resolved(old(Value()), answers, valid)
    {
      var joined := [];
      for i := 0 to |answers|
        invariant joined == Joined(answers[..i])
      {
        assert answers[..i + 1][..i] == answers[..i];
        joined := joined + answers[i];
      }
      assert answers[..|answers|] == answers;
      var found := Collect([], joined, valid);
      if found == [] {
        return;
      }
      var next := Collect([], seed, valid);
      next := Collect(next, found, valid);
      next := Collect(next, live[..count], valid);
      all := next;
    }

    static method Collect(acc: seq<Ip>, s: seq<Ip>, valid: Ip -> bool) returns (r: seq<Ip>)
      ensures r == AddAll(acc, s, valid)
    {
      r := acc;
      var seen := set x | x in acc;
      for i := 0 to |s|
        invariant r == AddAll(acc, s[..i], valid) && forall x :: x in seen <==> x in r
      {
        assert s[..i + 1][..i] == s[..i];
        if valid(s[i]) && s[i] !in seen {
          r, seen := r + [s[i]], seen + {s[i]};
        }
      }
      assert s[..|s|] == s;
    }

    /** Replaces the ring after a probe round. */
    method Swap(ips: seq<Ip>)
      requires Valid()
      modifies this`live, this`count
      ensures Valid() && Value() == old(Value()).(live := ips) && fresh(live) && live[..count] == ips
    {
      live := new Ip[|ips|](i requires 0 <= i < |ips| => ips[i]);
      count := |ips|;
    }

    /** Tries a node that was just picked; start is what had been demoted before the request. */
    method TryNode(ip: Ip, attempt: Attempt, wasBlamed: bool, ghost start: seq<Ip>, ghost tries: seq<Try>)
      returns (blamed: bool, ghost now: seq<Try>)
      requires Valid() && demoted == start + Blamed(tries) && wasBlamed == (Blamed(tries) != [])
      modifies this`count, live, this`demoted
      ensures Valid() && now == tries + [Try(ip, attempt)]
      ensures demoted == start + Blamed(now) && blamed == (Blamed(now) != [])
    {
      hide Value, Without;
      now, blamed := tries + [Try(ip, attempt)], wasBlamed;
      assert now[..|now| - 1] == tries;
      if !attempt.reachable && !blamed {
        Drop(ip);
        blamed := true;
      }
      if attempt.ok && !attempt.verified && !blamed {
        Drop(ip);
        blamed := true;
      }
    }

    /**
      One request. Others may change the ring before every look; the deadline comes at look limit at the latest.
      Only a verified tunnel is handed out, at most maxTries nodes are tried, and at most one leaves the ring.
      */
    method Dial(world: World, maxTries: int, ghost limit: nat) returns (got: Option<Ip>, ghost tries: seq<Try>)
      requires Valid() && world.late(limit)
      modifies this
      ensures Valid()
      ensures |tries| <= if maxTries > 1 then maxTries else 1
      ensures demoted == old(demoted) + Blamed(tries) && forall t :: t in tries ==> Happened(world, t)
      ensures got.Some? ==> tries != []
      ensures forall i :: 0 <= i < |tries| - (if got.Some? then 1 else 0) ==>
                !(tries[i].attempt.ok && tries[i].attempt.verified)
      ensures got.Some? ==> tries != [] && got.value == tries[|tries| - 1].ip
      ensures got.Some? ==> tries[|tries| - 1].attempt.ok && tries[|tries| - 1].attempt.verified
      ensures got.None? ==> |tries| >= maxTries || exists k: nat :: k <= limit && world.late(k)
    {
      hide Value, Apply, PickedAt, Blamed;
      NoTries();
      tries := [];
      var look, made, blamed := 0, 0, false;
      while true
        invariant Valid() && look <= limit && made == |tries|
        invariant |tries| == 0 || |tries| < maxTries
        invariant NoneGood(tries) && forall t :: t in tries ==> Happened(world, t)
        invariant demoted == old(demoted) + Blamed(tries) && blamed == (Blamed(tries) != [])
        decreases limit - look
      {
        if world.late(look) {
          return None, tries;
        }
        Swap(world.ring(look));
        var ip := PickNext();
        assert ip != "" ==> ip in live[..count];
        look := look + 1;
        if ip == "" {
          continue;
        }
        var attempt := world.attempt(look, ip);
        ghost var before := tries;
        blamed, tries := TryNode(ip, attempt, blamed, old(demoted), tries);
        OneMore(before, Try(ip, attempt));
        assert Happened(world, Try(ip, attempt));
        if attempt.ok && attempt.verified {
          return Some(ip), tries;
        }
        made := made + 1;
        if made >= maxTries {
          return None, tries;
        }
      }
    }
  }

  predicate NoneGood(tries: seq<Try>) {
    forall i :: 0 <= i < |tries| ==> !(tries[i].attempt.ok && tries[i].attempt.verified)
  }

  lemma NoTries()
    ensures Blamed([]) == [] && NoneGood([])
  {
  }

  lemma OneMore(tries: seq<Try>, t: Try)
    requires NoneGood(tries)
    ensures (tries + [t])[..|tries|] == tries
    ensures NoneGood(tries + [t]) <==> !(t.attempt.ok && t.attempt.verified)
  {
    assert (tries + [t])[|tries|] == t;
    assert forall i :: 0 <= i < |tries| ==> (tries + [t])[i] == tries[i];
  }

  lemma {:induction false} NoFaultNoBlame(tries: seq<Try>)
    requires forall t :: t in tries ==> t.attempt.reachable && (t.attempt.ok ==> t.attempt.verified)
    ensures Blamed(tries) == []
  {
    if tries != [] {
      assert tries[|tries| - 1] in tries && forall t :: t in tries[..|tries| - 1] ==> t in tries;
      NoFaultNoBlame(tries[..|tries| - 1]);
    }
  }

  /** The first node that was not reached, or took CONNECT without delivering, is the one; what follows is spared. */
  lemma {:induction false} FirstFaultIsBlamed(before: seq<Try>, t: Try, after: seq<Try>)
    requires forall u :: u in before ==> u.attempt.reachable && (u.attempt.ok ==> u.attempt.verified)
    requires !t.attempt.reachable || (t.attempt.ok && !t.attempt.verified)
    ensures Blamed(before + [t] + after) == [t.ip]
    decreases |after|
  {
    var tries := before + [t] + after;
    if after == [] {
      assert tries[..|tries| - 1] == before;
      NoFaultNoBlame(before);
    } else {
      assert tries[..|tries| - 1] == before + [t] + after[..|after| - 1];
      FirstFaultIsBlamed(before, t, after[..|after| - 1]);
    }
  }

  /** Never more than one node is blamed, however many failed. */
  lemma {:induction false} BlamesAtMostOne(tries: seq<Try>)
    ensures |Blamed(tries)| <= 1
    ensures Blamed(tries) != [] <==> exists t :: t in tries && t.attempt.Faulty()
    ensures forall ip :: ip in Blamed(tries) ==> exists t :: t in tries && t.ip == ip && t.attempt.Faulty()
  {
    if tries != [] {
      var front, last := tries[..|tries| - 1], tries[|tries| - 1];
      BlamesAtMostOne(front);
      assert forall t :: t in tries <==> t in front || t == last;
    }
  }
}
