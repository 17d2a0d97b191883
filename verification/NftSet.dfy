/**
  The kernel set of excluded addresses and the writer that keeps it. A batch of reports
  becomes one nft script, run atomically, and a mirror of what the set should hold.

  The writer passes over a report whose expiry the mirror already had before the batch. Plan
  takes the map this guard looks at as a choice: the mirror before the batch, as written, or
  the mirror under construction, which is what the guard is for.
  */
module NftSet {
  import opened RouteCache

  const MAX_SECONDS: nat := 3600

  datatype Op = Put(expiry: Time) | Drop
  datatype Command = Flush | Destroy(addr: Addr) | Add(addr: Addr, seconds: nat)
  /** Address to deadline. */
  type Kernel = map<Addr, Time>
  /** Address to expiry. */
  type Mirror = map<Addr, Time>

  // ------------------------------------------------------------------ the kernel

  /** nft: destroy never fails, add leaves an element alone that is already there and alive. */
  function Execute(kernel: Kernel, now: Time, c: Command): Kernel {
    match c
    case Flush => map[]
    case Destroy(a) => kernel - {a}
    case Add(a, s) => if a in kernel && kernel[a] > now then kernel else kernel[a := now + s * SECOND]
  }

  function ExecuteAll(kernel: Kernel, now: Time, script: seq<Command>): Kernel
    decreases |script|
  {
    if script == [] then kernel
    else Execute(ExecuteAll(kernel, now, script[..|script| - 1]), now, script[|script| - 1])
  }

  /** The elements a lookup finds at time t. */
  function Live(kernel: Kernel, t: Time): set<Addr> {
    set a | a in kernel && kernel[a] > t
  }

  // ------------------------------------------------------------------ timeouts

  /** Whole seconds that reach expiry, at least one and at most an hour. */
  function Timeout(expiry: Time, now: Time): (s: nat)
    ensures 1 <= s <= MAX_SECONDS
  {
    var ceiling := (expiry - now + SECOND - 1) / SECOND;
    if ceiling < 1 then 1 else if ceiling > MAX_SECONDS then MAX_SECONDS else ceiling
  }

  /** Within the hour the timeout reaches the expiry and overshoots it by less than a second. */
  lemma TimeoutCovers(expiry: Time, now: Time)
    requires now < expiry <= now + HOUR
    ensures expiry <= now + Timeout(expiry, now) * SECOND < expiry + SECOND
  {
  }

  /** Beyond the hour the clamp cuts the entry short. */
  lemma TimeoutCutsShort(expiry: Time, now: Time)
    requires expiry > now + HOUR
    ensures now + Timeout(expiry, now) * SECOND < expiry
  {
  }

  /** Integer division that truncates toward zero. */
  function Quotient(x: int, d: int): int
    requires d > 0
  {
    if x >= 0 then x / d else -((-x) / d)
  }

  method TimeoutSeconds(expiry: Time, now: Time) returns (seconds: nat)
    ensures seconds == Timeout(expiry, now)
  {
    var s := Quotient(expiry - now, SECOND);
    if expiry > now + s * SECOND {
      s := s + 1;
    }
    if s < 1 {
      s := 1;
    }
    if s > MAX_SECONDS {
      s := MAX_SECONDS;
    }
    seconds := s;
  }

  // ------------------------------------------------------------------ planning a batch

  datatype Plan = Plan(next: Mirror, ops: map<Addr, Op>)

  /** Which map the guard against repeated work looks at. */
  datatype Guard = AsWritten | AsMeant

  function Unexpired(current: Mirror, now: Time): Mirror {
    map a | a in current && current[a] > now :: current[a]
  }

  function Begin(current: Mirror, now: Time, replace: bool): Plan {
    if replace then Plan(map[], map[])
    else Plan(Unexpired(current, now), map a | a in current && current[a] <= now :: Drop)
  }

  predicate Removes(c: Change, now: Time) {
    c.delete || c.expiry <= now
  }

  predicate Repeats(m: Mirror, c: Change, now: Time) {
    !Removes(c, now) && c.dest in m && m[c.dest] > now && m[c.dest] == c.expiry
  }

  function Step(plan: Plan, c: Change, current: Mirror, now: Time, guard: Guard): Plan {
    if Removes(c, now) then Plan(plan.next - {c.dest}, plan.ops[c.dest := Drop])
    else if Repeats(if guard.AsWritten? then current else plan.next, c, now) then plan
    else Plan(plan.next[c.dest := c.expiry], plan.ops[c.dest := Put(c.expiry)])
  }

  function PlanFor(current: Mirror, cs: seq<Change>, now: Time, replace: bool, guard: Guard): Plan
    decreases |cs|
  {
    if cs == [] then Begin(current, now, replace)
    else Step(PlanFor(current, cs[..|cs| - 1], now, replace, guard), cs[|cs| - 1], current, now, guard)
  }

  /** What the batch asks for: each report taken at its word, the last one for an address winning. */
  function Wanted(current: Mirror, cs: seq<Change>, now: Time, replace: bool): Mirror
    decreases |cs|
  {
    if cs == [] then (if replace then map[] else Unexpired(current, now))
    else
      var m, c := Wanted(current, cs[..|cs| - 1], now, replace), cs[|cs| - 1];
      if Removes(c, now) then m - {c.dest} else m[c.dest := c.expiry]
  }

  // ------------------------------------------------------------------ the script

  function CommandsFor(a: Addr, op: Op, now: Time, replace: bool): seq<Command> {
    (if !replace || op.Drop? then [Destroy(a)] else [])
    + (if op.Put? then [Add(a, Timeout(op.expiry, now))] else [])
  }

  function ScriptFor(order: seq<Addr>, ops: map<Addr, Op>, now: Time, replace: bool): seq<Command>
    requires forall a :: a in order ==> a in ops
    decreases |order|
  {
    if order == [] then (if replace then [Flush] else [])
    else
      var a := order[|order| - 1];
      ScriptFor(order[..|order| - 1], ops, now, replace) + CommandsFor(a, ops[a], now, replace)
  }

  /** The kernel after the script: put addresses with fresh deadlines, dropped ones gone, others kept unless flushed. */
  function After(kernel: Kernel, done: set<Addr>, ops: map<Addr, Op>, now: Time, replace: bool): Kernel
    requires done <= ops.Keys
  {
    map a | a in kernel.Keys + done && (if a in done then ops[a].Put? else !replace)
         :: if a in done then now + Timeout(ops[a].expiry, now) * SECOND else kernel[a]
  }

  lemma ExecuteOne(kernel: Kernel, now: Time, c: Command)
    ensures ExecuteAll(kernel, now, [c]) == Execute(kernel, now, c)
  {
    assert [c][..0] == [];
    assert ExecuteAll(kernel, now, []) == kernel;
  }

  lemma {:induction false} ExecuteConcat(kernel: Kernel, now: Time, a: seq<Command>, b: seq<Command>)
    ensures ExecuteAll(kernel, now, a + b) == ExecuteAll(ExecuteAll(kernel, now, a), now, b)
    decreases |b|
  {
    if b == [] {
      assert a + b == a;
    } else {
      assert (a + b)[..|a + b| - 1] == a + b[..|b| - 1];
      ExecuteConcat(kernel, now, a, b[..|b| - 1]);
    }
  }

  lemma CommandsEffect(kernel: Kernel, now: Time, a: Addr, op: Op, replace: bool)
    requires replace ==> a !in kernel
    ensures ExecuteAll(kernel, now, CommandsFor(a, op, now, replace)) ==
            if op.Put? then kernel[a := now + Timeout(op.expiry, now) * SECOND] else kernel - {a}
  {
    hide ExecuteAll, Timeout;
    var first := if !replace || op.Drop? then [Destroy(a)] else [];
    var second := if op.Put? then [Add(a, Timeout(op.expiry, now))] else [];
    ExecuteConcat(kernel, now, first, second);
    Destroyed(kernel, now, a, !replace || op.Drop?);
    if op.Put? {
      Added(kernel, now, a, Timeout(op.expiry, now));
    } else {
      ExecuteNone(kernel - {a}, now);
    }
  }

  lemma ExecuteNone(kernel: Kernel, now: Time)
    ensures ExecuteAll(kernel, now, []) == kernel
  {
  }

  lemma Destroyed(kernel: Kernel, now: Time, a: Addr, destroy: bool)
    requires destroy || a !in kernel
    ensures ExecuteAll(kernel, now, if destroy then [Destroy(a)] else []) == kernel - {a}
  {
    hide ExecuteAll;
    ExecuteOne(kernel, now, Destroy(a));
    ExecuteNone(kernel, now);
  }

  lemma Added(kernel: Kernel, now: Time, a: Addr, s: nat)
    ensures ExecuteAll(kernel - {a}, now, [Add(a, s)]) == kernel[a := now + s * SECOND]
  {
    hide ExecuteAll;
    ExecuteOne(kernel - {a}, now, Add(a, s));
    assert (kernel - {a})[a := now + s * SECOND] == kernel[a := now + s * SECOND];
  }

  function Elements(order: seq<Addr>): set<Addr> {
    set a | a in order
  }

  lemma ElementsAppend(order: seq<Addr>, a: Addr)
    ensures Elements(order + [a]) == Elements(order) + {a}
  {
  }

  predicate Ascending(order: seq<Addr>) {
    forall i, j :: 0 <= i < j < |order| ==> order[i] < order[j]
  }

  predicate AllBelow(order: seq<Addr>, s: set<Addr>) {
    forall i, a :: 0 <= i < |order| && a in s ==> order[i] < a
  }

  lemma AscendingNoRepeat(order: seq<Addr>)
    requires Ascending(order)
    ensures NoRepeat(order)
  {
  }

  lemma LeastNext(order: seq<Addr>, todo: set<Addr>, least: Addr)
    requires Ascending(order) && AllBelow(order, todo) && least in todo && forall a :: a in todo ==> least <= a
    ensures Ascending(order + [least]) && AllBelow(order + [least], todo - {least})
  {
  }

  predicate NoRepeat(order: seq<Addr>) {
    forall i, j :: 0 <= i < j < |order| ==> order[i] != order[j]
  }

  /** The effect of the whole script depends on the operations only, not on their order. */
  lemma {:induction false} ScriptEffect(kernel: Kernel, order: seq<Addr>, ops: map<Addr, Op>, now: Time, replace: bool)
    requires NoRepeat(order) && Elements(order) <= ops.Keys
    ensures ExecuteAll(kernel, now, ScriptFor(order, ops, now, replace)) ==
            After(kernel, Elements(order), ops, now, replace)
    decreases |order|
  {
    hide Timeout, CommandsFor, ExecuteAll, After;
    if order == [] {
      assert Elements(order) == {};
      ScriptStart(kernel, ops, now, replace);
    } else {
      var front, a := order[..|order| - 1], order[|order| - 1];
      assert Elements(order) == Elements(front) + {a};
      ScriptEffect(kernel, front, ops, now, replace);
      var before := After(kernel, Elements(front), ops, now, replace);
      ExecuteConcat(kernel, now, ScriptFor(front, ops, now, replace), CommandsFor(a, ops[a], now, replace));
      assert a !in Elements(front);
      AfterOne(kernel, Elements(front), a, ops, now, replace);
      CommandsEffect(before, now, a, ops[a], replace);
    }
  }

  lemma ScriptNone(order: seq<Addr>, ops: map<Addr, Op>, now: Time, replace: bool)
    requires order == []
    ensures ScriptFor(order, ops, now, replace) == if replace then [Flush] else []
  {
  }

  lemma ScriptGrows(order: seq<Addr>, i: nat, ops: map<Addr, Op>, now: Time, replace: bool)
    requires i < |order| && forall a :: a in order ==> a in ops
    ensures ScriptFor(order[..i + 1], ops, now, replace) ==
            ScriptFor(order[..i], ops, now, replace) + CommandsFor(order[i], ops[order[i]], now, replace)
  {
    assert order[..i + 1][..i] == order[..i];
  }

  lemma ScriptStart(kernel: Kernel, ops: map<Addr, Op>, now: Time, replace: bool)
    ensures ExecuteAll(kernel, now, ScriptFor([], ops, now, replace)) == After(kernel, {}, ops, now, replace)
  {
    ExecuteOne(kernel, now, Flush);
  }

  lemma AfterOne(kernel: Kernel, done: set<Addr>, a: Addr, ops: map<Addr, Op>, now: Time, replace: bool)
    requires done + {a} <= ops.Keys && a !in done
    ensures After(kernel, done + {a}, ops, now, replace) ==
            var before := After(kernel, done, ops, now, replace);
            if ops[a].Put? then before[a := now + Timeout(ops[a].expiry, now) * SECOND] else before - {a}
    ensures replace ==> a !in After(kernel, done, ops, now, replace)
  {
  }

  // ------------------------------------------------------------------ mirror and kernel agree

  /** The kernel holds every mirrored address until its expiry, and lets go less than a second later. */
  predicate Covered(kernel: Kernel, mirror: Mirror) {
    forall a :: a in mirror ==> a in kernel && mirror[a] <= kernel[a] < mirror[a] + SECOND
  }

  /** Besides, whatever else it holds is dead at time t. */
  predicate Synced(kernel: Kernel, mirror: Mirror, t: Time) {
    Covered(kernel, mirror) && forall a :: a in kernel && a !in mirror ==> kernel[a] <= t
  }

  /** The plan's mirror and operations tell the same story. */
  predicate Coherent(plan: Plan, current: Mirror, now: Time, replace: bool) {
    && (forall a :: a in plan.next && a in plan.ops ==>
       plan.ops[a] == Put(plan.next[a]) && now < plan.next[a] <= now + HOUR)
    && (forall a :: a in plan.next && a !in plan.ops ==>
       !replace && a in current && current[a] == plan.next[a] && now < current[a])
    && (forall a :: a !in plan.next && a in plan.ops ==> plan.ops[a].Drop?)
    && (forall a :: a !in plan.next && a !in plan.ops ==> replace || a !in current)
  }

  lemma {:induction false} PlanCoherent(current: Mirror, cs: seq<Change>, now: Time, replace: bool, guard: Guard)
    requires ChangesBounded(cs, now)
    ensures Coherent(PlanFor(current, cs, now, replace, guard), current, now, replace)
    decreases |cs|
  {
    if cs != [] {
      var front, c := cs[..|cs| - 1], cs[|cs| - 1];
      assert c in cs && forall d :: d in front ==> d in cs;
      PlanCoherent(current, front, now, replace, guard);
    }
  }

  /**
    One successful batch takes agreement at an earlier time to agreement now, whichever guard is in place: mirror
    and kernel hold the same addresses. A replacing batch needs no agreement beforehand: it takes any kernel there.
    */
  lemma UpdateKeepsSynced(
    kernel: Kernel, current: Mirror, cs: seq<Change>, before: Time, now: Time, replace: bool, guard: Guard)
    requires ChangesBounded(cs, now) && (replace || (Synced(kernel, current, before) && before <= now))
    ensures var plan := PlanFor(current, cs, now, replace, guard);
            var after := After(kernel, plan.ops.Keys, plan.ops, now, replace);
            Synced(after, plan.next, now) && Live(after, now) == plan.next.Keys
  {
    PlanCoherent(current, cs, now, replace, guard);
    var plan := PlanFor(current, cs, now, replace, guard);
    var after := After(kernel, plan.ops.Keys, plan.ops, now, replace);
    CoherentSynced(kernel, current, plan, before, now, replace);
  }

  lemma CoherentCovered(kernel: Kernel, current: Mirror, plan: Plan, now: Time, replace: bool)
    requires (replace || Covered(kernel, current)) && Coherent(plan, current, now, replace)
    ensures Covered(After(kernel, plan.ops.Keys, plan.ops, now, replace), plan.next)
  {
    forall a | a in plan.next && a in plan.ops
      ensures plan.next[a] <= now + Timeout(plan.next[a], now) * SECOND < plan.next[a] + SECOND
    {
      TimeoutCovers(plan.next[a], now);
    }
  }

  lemma CoherentSynced(kernel: Kernel, current: Mirror, plan: Plan, before: Time, now: Time, replace: bool)
    requires (replace || (Synced(kernel, current, before) && before <= now)) && Coherent(plan, current, now, replace)
    ensures var after := After(kernel, plan.ops.Keys, plan.ops, now, replace);
            Synced(after, plan.next, now) && Live(after, now) == plan.next.Keys
  {
    CoherentCovered(kernel, current, plan, now, replace);
  }

  /** With nothing to do the kernel needs no script. */
  lemma NothingToDo(kernel: Kernel, ops: map<Addr, Op>, now: Time)
    requires ops == map[]
    ensures After(kernel, ops.Keys, ops, now, false) == kernel
  {
  }

  /** Skipping a script that only drops keeps every mirrored address in the kernel. */
  lemma LazyKeepsCovered(kernel: Kernel, current: Mirror, cs: seq<Change>, now: Time, replace: bool, guard: Guard)
    requires Covered(kernel, current) && ChangesBounded(cs, now)
    requires forall a :: a in PlanFor(current, cs, now, replace, guard).ops ==>
             PlanFor(current, cs, now, replace, guard).ops[a].Drop?
    ensures Covered(kernel, PlanFor(current, cs, now, replace, guard).next)
  {
    PlanCoherent(current, cs, now, replace, guard);
  }

  // ------------------------------------------------------------------ the guard as written

  /** Some report for a does not repeat what the mirror had before the batch. */
  predicate Touched(current: Mirror, cs: seq<Change>, now: Time, a: Addr) {
    exists j :: 0 <= j < |cs| && cs[j].dest == a && !Repeats(current, cs[j], now)
  }

  predicate LastFor(cs: seq<Change>, i: nat)
    requires i < |cs|
  {
    forall j :: i < j < |cs| ==> cs[j].dest != cs[i].dest
  }

  /**
    Report i is lost: it is the last word on its address and repeats the old mirror, while the
    batch starts from nothing or said something else about the address.
    */
  predicate Lost(current: Mirror, cs: seq<Change>, now: Time, replace: bool, i: nat)
    requires i < |cs|
  {
    Repeats(current, cs[i], now) && LastFor(cs, i) && (replace || Touched(current, cs, now, cs[i].dest))
  }

  predicate LosesAt(current: Mirror, cs: seq<Change>, now: Time, replace: bool, a: Addr) {
    exists i :: 0 <= i < |cs| && cs[i].dest == a && Lost(current, cs, now, replace, i)
  }

  predicate SameAt(m: Mirror, n: Mirror, a: Addr) {
    (a in m <==> a in n) && (a in m && a in n ==> m[a] == n[a])
  }

  lemma TouchedStep(current: Mirror, cs: seq<Change>, now: Time, a: Addr)
    requires cs != []
    ensures Touched(current, cs, now, a) <==>
            Touched(current, cs[..|cs| - 1], now, a) || (cs[|cs| - 1].dest == a && !Repeats(current, cs[|cs| - 1], now))
  {
    var front, c := cs[..|cs| - 1], cs[|cs| - 1];
    if j :| 0 <= j < |cs| && cs[j].dest == a && !Repeats(current, cs[j], now) {
      if j < |front| {
        assert front[j] == cs[j];
      }
    }
    if j :| 0 <= j < |front| && front[j].dest == a && !Repeats(current, front[j], now) {
      assert cs[j] == front[j];
    }
  }

  lemma LostElsewhere(current: Mirror, cs: seq<Change>, now: Time, replace: bool, i: nat)
    requires i < |cs| - 1 && cs[|cs| - 1].dest != cs[i].dest
    ensures Lost(current, cs, now, replace, i) <==> Lost(current, cs[..|cs| - 1], now, replace, i)
  {
    var front := cs[..|cs| - 1];
    TouchedStep(current, cs, now, cs[i].dest);
    assert LastFor(cs, i) <==> LastFor(front, i);
  }

  /** A report on another address changes nothing about a. */
  lemma LosesElsewhere(current: Mirror, cs: seq<Change>, now: Time, replace: bool, a: Addr)
    requires cs != [] && cs[|cs| - 1].dest != a
    ensures LosesAt(current, cs, now, replace, a) <==> LosesAt(current, cs[..|cs| - 1], now, replace, a)
  {
    var front := cs[..|cs| - 1];
    if i :| 0 <= i < |cs| && cs[i].dest == a && Lost(current, cs, now, replace, i) {
      LostElsewhere(current, cs, now, replace, i);
      assert front[i].dest == a && Lost(current, front, now, replace, i);
    }
    if i :| 0 <= i < |front| && front[i].dest == a && Lost(current, front, now, replace, i) {
      LostElsewhere(current, cs, now, replace, i);
      assert cs[i].dest == a && Lost(current, cs, now, replace, i);
    }
  }

  /** The last report decides whether its own address is lost. */
  lemma LosesHere(current: Mirror, cs: seq<Change>, now: Time, replace: bool)
    requires cs != []
    ensures var c := cs[|cs| - 1];
            LosesAt(current, cs, now, replace, c.dest) <==>
            Repeats(current, c, now) && (replace || Touched(current, cs, now, c.dest))
  {
    var last: nat := |cs| - 1;
    assert LastFor(cs, last);
    if i :| 0 <= i < |cs| && cs[i].dest == cs[last].dest && Lost(current, cs, now, replace, i) {
      assert i == last;
    }
    if Repeats(current, cs[last], now) && (replace || Touched(current, cs, now, cs[last].dest)) {
      assert Lost(current, cs, now, replace, last);
    }
  }

  /** Address by address: plan and wish agree exactly where no report is lost. */
  lemma {:induction false} AgreesAt(current: Mirror, cs: seq<Change>, now: Time, replace: bool, a: Addr)
    ensures var next := PlanFor(current, cs, now, replace, AsWritten).next;
            && (!Touched(current, cs, now, a) ==> SameAt(next, Begin(current, now, replace).next, a))
            && (Touched(current, cs, now, a) && a in current && current[a] > now ==>
               a !in next || next[a] != current[a])
            && (SameAt(next, Wanted(current, cs, now, replace), a) <==> !LosesAt(current, cs, now, replace, a))
    decreases |cs|
  {
    if cs != [] {
      var front, c := cs[..|cs| - 1], cs[|cs| - 1];
      AgreesAt(current, front, now, replace, a);
      TouchedStep(current, cs, now, a);
      if c.dest == a {
        LosesHere(current, cs, now, replace);
      } else {
        LosesElsewhere(current, cs, now, replace, a);
      }
    }
  }

  /** The guard as written gives what the batch asks for exactly when no report is lost. */
  lemma WrittenExactlyWhen(current: Mirror, cs: seq<Change>, now: Time, replace: bool)
    ensures PlanFor(current, cs, now, replace, AsWritten).next == Wanted(current, cs, now, replace) <==>
            forall i :: 0 <= i < |cs| ==> !Lost(current, cs, now, replace, i)
  {
    var next, wanted := PlanFor(current, cs, now, replace, AsWritten).next, Wanted(current, cs, now, replace);
    forall a: Addr
      ensures SameAt(next, wanted, a) <==> !LosesAt(current, cs, now, replace, a)
    {
      AgreesAt(current, cs, now, replace, a);
    }
    if forall a :: SameAt(next, wanted, a) {
      SameEverywhere(next, wanted);
      forall i | 0 <= i < |cs|
        ensures !Lost(current, cs, now, replace, i)
      {
        assert SameAt(next, wanted, cs[i].dest);
      }
    } else {
      var a :| !SameAt(next, wanted, a);
      assert LosesAt(current, cs, now, replace, a);
    }
  }

  lemma SameEverywhere(m: Mirror, n: Mirror)
    requires forall a :: SameAt(m, n, a)
    ensures m == n
  {
    forall a: Addr | a in m || a in n
      ensures a in m && a in n && m[a] == n[a]
    {
      assert SameAt(m, n, a);
    }
  }

  /** The guard as meant always gives what the batch asks for. */
  lemma {:induction false} MeantIsWanted(current: Mirror, cs: seq<Change>, now: Time, replace: bool)
    ensures PlanFor(current, cs, now, replace, AsMeant).next == Wanted(current, cs, now, replace)
    decreases |cs|
  {
    if cs != [] {
      var m, c := Wanted(current, cs[..|cs| - 1], now, replace), cs[|cs| - 1];
      MeantIsWanted(current, cs[..|cs| - 1], now, replace);
      if Repeats(m, c, now) {
        assert m[c.dest := c.expiry] == m;
      }
    }
  }

  predicate OneEach(cs: seq<Change>) {
    forall i, j :: 0 <= i < j < |cs| ==> cs[i].dest != cs[j].dest
  }

  /** A batch that names every address once is applied as asked. */
  lemma ApplyExact(current: Mirror, cs: seq<Change>, now: Time)
    requires OneEach(cs)
    ensures PlanFor(current, cs, now, false, AsWritten).next == Wanted(current, cs, now, false)
  {
    WrittenExactlyWhen(current, cs, now, false);
  }

  /** Replacing everything works exactly when no report repeats what the mirror already had. */
  lemma ReplaceExactlyWhen(current: Mirror, cs: seq<Change>, now: Time)
    requires OneEach(cs)
    ensures PlanFor(current, cs, now, true, AsWritten).next == Wanted(current, cs, now, true) <==>
            forall i :: 0 <= i < |cs| ==> !Repeats(current, cs[i], now)
  {
    WrittenExactlyWhen(current, cs, now, true);
    forall i | 0 <= i < |cs|
      ensures Lost(current, cs, now, true, i) <==> Repeats(current, cs[i], now)
    {
    }
  }

  /** An address that is unchanged disappears from mirror and kernel: flushed, and not put back. */
  lemma ReplaceDropsUnchanged(a: Addr, expiry: Time, now: Time, kernel: Kernel)
    requires expiry > now
    ensures var cs := [Change(0, a, expiry, false)]; var plan := PlanFor(map[a := expiry], cs, now, true, AsWritten);
            && plan.next == map[] && After(kernel, plan.ops.Keys, plan.ops, now, true) == map[]
            && Wanted(map[a := expiry], cs, now, true) == map[a := expiry]
  {
    var cs := [Change(0, a, expiry, false)];
    assert cs[..0] == [];
    assert PlanFor(map[a := expiry], [], now, true, AsWritten) == Plan(map[], map[]);
    assert Wanted(map[a := expiry], [], now, true) == map[];
    assert PlanFor(map[a := expiry], cs, now, true, AsWritten) == Plan(map[], map[]);
  }

  lemma {:induction false} WantedFromAnywhere(m: Mirror, n: Mirror, cs: seq<Change>, now: Time, a: Addr)
    ensures (exists c :: c in cs && c.dest == a) ==> SameAt(Wanted(m, cs, now, false), Wanted(n, cs, now, true), a)
    ensures !(exists c :: c in cs && c.dest == a) ==>
              SameAt(Wanted(m, cs, now, false), Unexpired(m, now), a) && a !in Wanted(n, cs, now, true)
    decreases |cs|
  {
    if cs != [] {
      var front, c := cs[..|cs| - 1], cs[|cs| - 1];
      WantedFromAnywhere(m, n, front, now, a);
      assert c in cs;
      if d :| d in cs && d.dest == a {
        assert d == c || d in front;
      }
      if d :| d in front && d.dest == a {
        assert d in cs;
      }
    }
  }

  lemma {:induction false} PlannedAreNamed(current: Mirror, cs: seq<Change>, now: Time, guard: Guard, a: Addr)
    requires a in PlanFor(current, cs, now, true, guard).next
    ensures exists c :: c in cs && c.dest == a
    decreases |cs|
  {
    var front, c := cs[..|cs| - 1], cs[|cs| - 1];
    assert c in cs;
    if a in PlanFor(current, front, now, true, guard).next {
      PlannedAreNamed(current, front, now, guard, a);
      var d :| d in front && d.dest == a;
      assert d in cs;
    }
  }

  /** Applying the same reports once more repairs whatever the replacement lost. */
  lemma SecondPassHeals(current: Mirror, cs: seq<Change>, now: Time, later: Time)
    requires OneEach(cs) && now <= later
    ensures var first := PlanFor(current, cs, now, true, AsWritten).next;
            PlanFor(first, cs, later, false, AsWritten).next == Wanted(current, cs, later, true)
  {
    var first := PlanFor(current, cs, now, true, AsWritten).next;
    ApplyExact(first, cs, later);
    var a, b := Wanted(first, cs, later, false), Wanted(current, cs, later, true);
    forall x: Addr
      ensures SameAt(a, b, x)
    {
      WantedFromAnywhere(first, current, cs, later, x);
      if x in first {
        PlannedAreNamed(current, cs, now, AsWritten, x);
      }
    }
    SameEverywhere(a, b);
  }

  // ------------------------------------------------------------------ the writer

  datatype Outcome = Done | BadAddress | TooMany | NotOwned | ScriptFailed

  predicate AllEligible(cs: seq<Change>, eligible: Addr -> bool) {
    forall c :: c in cs ==> eligible(c.dest)
  }

  predicate OnlyDrops(ops: map<Addr, Op>) {
    forall a :: a in ops ==> ops[a].Drop?
  }

  class NftExclSet {
    const lazy: bool
    const eligible: Addr -> bool
    /** Whether, at the n-th script, the set is ours and nft takes the script. */
    const owned: nat -> bool
    const accepts: nat -> bool
    var mirror: Mirror
    var kernel: Kernel
    var scripts: nat

    constructor (lazy: bool, eligible: Addr -> bool, owned: nat -> bool, accepts: nat -> bool)
      ensures mirror == map[] && kernel == map[] && scripts == 0
      ensures this.lazy == lazy && this.eligible == eligible && this.owned == owned && this.accepts == accepts
    {
      this.lazy, this.eligible, this.owned, this.accepts := lazy, eligible, owned, accepts;
      mirror, kernel, scripts := map[], map[], 0;
    }

    /** Goes through the reports; None when one names an ineligible address. */
    method Prepare(cs: seq<Change>, now: Time, replace: bool) returns (ok: bool, plan: Plan)
      ensures ok <==> AllEligible(cs, eligible)
      ensures ok ==> plan == PlanFor(mirror, cs, now, replace, AsWritten)
    {
      plan := Begin(mirror, now, replace);
      for i := 0 to |cs|
        invariant forall j :: 0 <= j < i ==> eligible(cs[j].dest)
        invariant plan == PlanFor(mirror, cs[..i], now, replace, AsWritten)
      {
        var c := cs[i];
        if !eligible(c.dest) {
          return false, plan;
        }
        assert cs[..i + 1][..i] == cs[..i];
        if Removes(c, now) {
          plan := Plan(plan.next - {c.dest}, plan.ops[c.dest := Drop]);
        } else if c.dest in mirror && mirror[c.dest] > now && mirror[c.dest] == c.expiry {
          // nothing new about this address
        } else {
          plan := Plan(plan.next[c.dest := c.expiry], plan.ops[c.dest := Put(c.expiry)]);
        }
      }
      assert cs[..|cs|] == cs;
      ok := true;
    }

    method HasPut(ops: map<Addr, Op>) returns (found: bool)
      ensures found <==> !OnlyDrops(ops)
    {
      found := false;
      var todo := ops.Keys;
      while todo != {} && !found
        invariant todo <= ops.Keys
        invariant forall a :: a in ops.Keys - todo && !found ==> ops[a].Drop?
        invariant found ==> !OnlyDrops(ops)
        decreases |todo|
      {
        var a :| a in todo;
        found := ops[a].Put?;
        todo := todo - {a};
      }
    }

    /** The addresses in ascending order. */
    method SortedAddresses(addrs: set<Addr>) returns (order: seq<Addr>)
      ensures Elements(order) == addrs && Ascending(order)
    {
      order := [];
      var todo := addrs;
      while todo != {}
        invariant todo <= addrs && Elements(order) == addrs - todo
        invariant Ascending(order) && AllBelow(order, todo)
        decreases |todo|
      {
        var least := Least(todo);
        LeastNext(order, todo, least);
        ElementsAppend(order, least);
        order, todo := order + [least], todo - {least};
      }
    }

    method Least(addrs: set<Addr>) returns (least: Addr)
      requires addrs != {}
      ensures least in addrs && forall a :: a in addrs ==> least <= a
    {
      least :| least in addrs;
      var todo := addrs - {least};
      while todo != {}
        invariant todo <= addrs && least in addrs
        invariant forall a :: a in addrs && a !in todo ==> least <= a
        decreases |todo|
      {
        var a :| a in todo;
        todo := todo - {a};
        if a < least {
          least := a;
        }
      }
    }

    method BuildScript(ops: map<Addr, Op>, now: Time, replace: bool)
      returns (script: seq<Command>, ghost order: seq<Addr>)
      ensures Ascending(order) && NoRepeat(order) && Elements(order) == ops.Keys
      ensures script == ScriptFor(order, ops, now, replace)
    {
      hide Timeout, Ascending, ScriptFor;
      var addrs := SortedAddresses(ops.Keys);
      AscendingNoRepeat(addrs);
      order := addrs;
      assert forall a :: a in addrs ==> a in Elements(addrs);
      script := if replace then [Flush] else [];
      ScriptNone(addrs[..0], ops, now, replace);
      for i := 0 to |addrs|
        invariant script == ScriptFor(addrs[..i], ops, now, replace)
      {
        ScriptGrows(addrs, i, ops, now, replace);
        var a := addrs[i];
        var commands: seq<Command> := [];
        if !replace || ops[a].Drop? {
          commands := [Destroy(a)];
        }
        if ops[a].Put? {
          var seconds := TimeoutSeconds(ops[a].expiry, now);
          commands := commands + [Add(a, seconds)];
        }
        script := script + commands;
      }
      assert addrs[..|addrs|] == addrs;
    }

    /**
      Applies a batch. A script is needed unless there is nothing to do, or only to drop and the writer is lazy; it
      goes out when the set is ours. On any refusal mirror and kernel stay as they were.
      */
    method Update(cs: seq<Change>, now: Time, replace: bool) returns (r: Outcome)
      modifies this`mirror, this`kernel, this`scripts
      ensures r == BadAddress <==> exists c :: c in cs && !eligible(c.dest)
      ensures var plan := PlanFor(old(mirror), cs, now, replace, AsWritten);
              var fits := (forall c :: c in cs ==> eligible(c.dest)) && |plan.next| <= MAX_PAIRS;
              var needed :=
                (exists a :: a in plan.ops && plan.ops[a].Put?) || (!lazy && (plan.ops != map[] || replace));
              && (r == TooMany <==> (forall c :: c in cs ==> eligible(c.dest)) && |plan.next| > MAX_PAIRS)
              && (r == NotOwned <==> fits && needed && !owned(old(scripts) + 1))
              && (r == ScriptFailed <==> fits && needed && owned(old(scripts) + 1) && !accepts(old(scripts) + 1))
              && (r == Done <==> fits && (needed ==> owned(old(scripts) + 1) && accepts(old(scripts) + 1)))
              && scripts == (if fits && needed then old(scripts) + 1 else old(scripts))
      ensures r != Done ==> mirror == old(mirror) && kernel == old(kernel)
      ensures var plan := PlanFor(old(mirror), cs, now, replace, AsWritten);
              && (r == Done ==> mirror == plan.next)
              && (r == Done ==> kernel == if lazy && OnlyDrops(plan.ops) then old(kernel)
                                          else After(old(kernel), plan.ops.Keys, plan.ops, now, replace))
    {
      hide PlanFor, After, ExecuteAll, Elements, ScriptFor, NoRepeat, Ascending;
      var ok, plan := Prepare(cs, now, replace);
      if !ok {
        return BadAddress;
      }
      if |plan.next| > MAX_PAIRS {
        return TooMany;
      }
      if lazy {
        var hasPut := HasPut(plan.ops);
        if !hasPut {
          mirror := plan.next;
          return Done;
        }
      }
      if plan.ops == map[] && !replace {
        NothingToDo(kernel, plan.ops, now);
        mirror := plan.next;
        return Done;
      }
      scripts := scripts + 1;
      if !owned(scripts) {
        return NotOwned;
      }
      var script, order := BuildScript(plan.ops, now, replace);
      if !accepts(scripts) {
        return ScriptFailed;
      }
      ScriptEffect(kernel, order, plan.ops, now, replace);
      kernel := ExecuteAll(kernel, now, script);
      mirror := plan.next;
      r := Done;
    }
  }
}
