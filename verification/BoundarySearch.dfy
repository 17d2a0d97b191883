/**
  Measuring where a signature ends: a probe writes the trigger in pieces, a measurement repeats it, and a
  binary search over cut positions looks for the first cut that no longer helps.
  */
module BoundarySearch {
  import opened Bits

  datatype Span = Span(from: int, to: int)

  // ------------------------------------------------------------------ cutting the payload

  /** The least cut strictly between prev and n; n when there is none. */
  function NextCut(cuts: seq<int>, prev: int, n: int): (c: int)
    ensures c <= n && (c < n ==> prev < c)
  {
    if cuts == [] then n
    else
      var rest := NextCut(cuts[1..], prev, n);
      if prev < cuts[0] < rest then cuts[0] else rest
  }

  /** The pieces between prev and n. */
  function Pieces(cuts: seq<int>, prev: int, n: int): seq<Span>
    requires prev <= n
    decreases n - prev
  {
    var c := NextCut(cuts, prev, n);
    if c == n then [Span(prev, n)] else [Span(prev, c)] + Pieces(cuts, c, n)
  }

  /** Adjacent, non-empty, from start to end. */
  predicate Partition(ps: seq<Span>, start: int, end: int) {
    && ps != [] && ps[0].from == start && ps[|ps| - 1].to == end
    && (forall i :: 0 <= i < |ps| ==> ps[i].from < ps[i].to)
    && (forall i :: 0 <= i < |ps| - 1 ==> ps[i].to == ps[i + 1].from)
  }

  lemma {:induction false} PiecesPartition(cuts: seq<int>, prev: int, n: int)
    requires prev < n
    ensures Partition(Pieces(cuts, prev, n), prev, n)
    decreases n - prev
  {
    var c := NextCut(cuts, prev, n);
    if c < n {
      PiecesPartition(cuts, c, n);
    }
  }

  /** What is written, piece after piece, is the payload. */
  function Written(payload: seq<byte>, ps: seq<Span>): seq<byte>
    requires forall p :: p in ps ==> 0 <= p.from <= p.to <= |payload|
  {
    if ps == [] then [] else payload[ps[0].from..ps[0].to] + Written(payload, ps[1..])
  }

  lemma {:induction false} WritesAll(payload: seq<byte>, cuts: seq<int>, prev: int)
    requires 0 <= prev <= |payload|
    ensures forall p :: p in Pieces(cuts, prev, |payload|) ==> 0 <= p.from <= p.to <= |payload|
    ensures Written(payload, Pieces(cuts, prev, |payload|)) == payload[prev..]
    decreases |payload| - prev
  {
    var c, ps := NextCut(cuts, prev, |payload|), Pieces(cuts, prev, |payload|);
    if c < |payload| {
      WritesAll(payload, cuts, c);
      assert ps[1..] == Pieces(cuts, c, |payload|);
      assert payload[prev..] == payload[prev..c] + payload[c..];
    } else {
      assert payload[prev..] == payload[prev..|payload|];
      assert Written(payload, ps[1..]) == [];
    }
  }

  lemma {:induction false} NextCutIs(cuts: seq<int>, prev: int, n: int, c: int)
    requires c == n || (prev < c < n && c in cuts)
    requires forall d :: d in cuts && prev < d < n ==> c <= d
    ensures NextCut(cuts, prev, n) == c
  {
    if cuts != [] {
      var rest := cuts[1..];
      assert cuts[0] in cuts && forall d :: d in cuts <==> d == cuts[0] || d in rest;
      if c == n || c in rest {
        NextCutIs(rest, prev, n, c);
      } else {
        NextCutBound(rest, prev, n, c);
      }
    }
  }

  lemma {:induction false} NextCutBound(cuts: seq<int>, prev: int, n: int, c: int)
    requires c <= n && forall d :: d in cuts && prev < d < n ==> c <= d
    ensures c <= NextCut(cuts, prev, n)
  {
    if cuts != [] {
      assert cuts[0] in cuts && forall d :: d in cuts[1..] ==> d in cuts;
      NextCutBound(cuts[1..], prev, n, c);
    }
  }

  method InsertSorted(s: seq<int>, x: int) returns (r: seq<int>)
    requires forall i, j :: 0 <= i < j < |s| ==> s[i] <= s[j]
    ensures forall i, j :: 0 <= i < j < |r| ==> r[i] <= r[j]
    ensures forall y :: y in r <==> y in s || y == x
  {
    var k := 0;
    while k < |s| && s[k] <= x
      invariant k <= |s| && forall i :: 0 <= i < k ==> s[i] <= x
    {
      k := k + 1;
    }
    r := s[..k] + [x] + s[k..];
    assert s == s[..k] + s[k..];
  }

  /** Drops cuts outside the payload, sorts the others and skips repeats. */
  method SplitOffsets(cuts: seq<int>, n: nat) returns (out: seq<Span>)
    ensures out == Pieces(cuts, 0, n)
  {
    var cl: seq<int> := [];
    for i := 0 to |cuts|
      invariant forall a, b :: 0 <= a < b < |cl| ==> cl[a] <= cl[b]
      invariant forall c :: c in cl <==> c in cuts[..i] && 0 < c < n
    {
      assert cuts[..i + 1] == cuts[..i] + [cuts[i]];
      if 0 < cuts[i] < n {
        cl := InsertSorted(cl, cuts[i]);
      }
    }
    assert cuts[..|cuts|] == cuts;
    assert forall k :: 0 <= k < |cl| ==> cl[k] in cl;
    out := [];
    var prev := 0;
    for i := 0 to |cl|
      invariant 0 <= prev <= n && out + Pieces(cuts, prev, n) == Pieces(cuts, 0, n)
      invariant forall k :: 0 <= k < i ==> cl[k] <= prev
      invariant forall k :: i <= k < |cl| ==> prev <= cl[k]
    {
      var c := cl[i];
      if c == prev {
        continue;
      }
      Onward(cuts, cl, i, prev, n);
      out := out + [Span(prev, c)];
      prev := c;
    }
    NothingOnward(cuts, cl, prev, n);
    out := out + [Span(prev, n)];
  }

  lemma Onward(cuts: seq<int>, cl: seq<int>, i: nat, prev: int, n: nat)
    requires i < |cl| && 0 <= prev < cl[i]
    requires forall a, b :: 0 <= a < b < |cl| ==> cl[a] <= cl[b]
    requires forall c :: c in cl <==> c in cuts && 0 < c < n
    requires forall k :: 0 <= k < i ==> cl[k] <= prev
    ensures cl[i] < n && Pieces(cuts, prev, n) == [Span(prev, cl[i])] + Pieces(cuts, cl[i], n)
  {
    assert cl[i] in cl;
    forall d | d in cuts && prev < d < n
      ensures cl[i] <= d
    {
      assert d in cl;
    }
    NextCutIs(cuts, prev, n, cl[i]);
  }

  lemma NothingOnward(cuts: seq<int>, cl: seq<int>, prev: int, n: nat)
    requires 0 <= prev <= n && forall c :: c in cl <==> c in cuts && 0 < c < n
    requires forall k :: 0 <= k < |cl| ==> cl[k] <= prev
    ensures Pieces(cuts, prev, n) == [Span(prev, n)]
  {
    forall d | d in cuts && 0 < d < n
      ensures d <= prev
    {
      assert d in cl;
    }
    NextCutIs(cuts, prev, n, n);
  }

  // ------------------------------------------------------------------ one measurement

  datatype Outcome = Answered | Silent | Broken

  /** The line: what probe number k gets back, and whether the run's context has ended at its t-th look. */
  datatype Line = Line(
    n: nat, repeats: nat, answer: (nat, seq<Span>, bool) -> Outcome, ended: nat -> bool, accepts: bool)
  {
    ghost predicate Valid() {
      n >= 2 && repeats >= 1 && forall t, u :: t <= u && ended(t) ==> ended(u)
    }
  }

  datatype State = State(probes: nat, looks: nat)

  datatype Tally = Tally(pass: nat, fail: nat, broken: bool)

  const NONE := Tally(0, 0, false)

  function Noted(t: Tally, o: Outcome): Tally {
    match o
    case Answered => t.(pass := t.pass + 1)
    case Silent => t.(fail := t.fail + 1)
    case Broken => t.(fail := t.fail + 1, broken := true)
  }

  /** The tries still left; none of them is made once the context has ended. */
  function Tries(line: Line, s: State, ps: seq<Span>, long: bool, left: nat, t: Tally): (Tally, State)
    decreases left
  {
    if left == 0 then (t, s)
    else if line.ended(s.looks) then (t, State(s.probes, s.looks + 1))
    else Tries(line, State(s.probes + 1, s.looks + 1), ps, long, left - 1, Noted(t, line.answer(s.probes, ps, long)))
  }

  function Measured(line: Line, s: State, cuts: seq<int>, long: bool): (Tally, State) {
    Tries(line, s, Pieces(cuts, 0, line.n), long, line.repeats, NONE)
  }

  lemma {:induction false} TriesAdd(line: Line, s: State, ps: seq<Span>, long: bool, left: nat, t: Tally)
    requires line.Valid()
    ensures var (r, s') := Tries(line, s, ps, long, left, t);
            && t.pass <= r.pass && t.fail <= r.fail && r.pass + r.fail <= t.pass + t.fail + left
            && s'.probes - s.probes == r.pass + r.fail - t.pass - t.fail && s.looks <= s'.looks
            && (!line.ended(s'.looks) ==> r.pass + r.fail == t.pass + t.fail + left)
            && (r.pass == t.pass + left ==>
                forall k :: s.probes <= k < s'.probes ==> line.answer(k, ps, long) == Answered)
            && (r.pass == t.pass ==> forall k :: s.probes <= k < s'.probes ==> line.answer(k, ps, long) != Answered)
    decreases left
  {
    if left > 0 && !line.ended(s.looks) {
      TriesAdd(line, State(s.probes + 1, s.looks + 1), ps, long, left - 1, Noted(t, line.answer(s.probes, ps, long)));
    }
  }

  // ------------------------------------------------------------------ the decision tree

  datatype Verdict = Flaky | Unreachable | Clear | NoCutHelps | WholePacket | Prefix(boundary: int) | Rejected

  datatype Observation = Observation(cuts: seq<int>, long: bool, tally: Tally)

  datatype Bound = Unsteady | Found(hi: int)

  /** The search: unanimous measurements move a limit, a mixed one gives up. */
  function Bisect(line: Line, s: State, lo: int, hi: int): (Bound, State, seq<Observation>)
    decreases hi - lo
  {
    if hi - lo <= 1 then (Found(hi), s, [])
    else
      var mid := (lo + hi) / 2;
      var (t, s') := Measured(line, s, [mid], false);
      var o := Observation([mid], false, t);
      if t.pass == line.repeats then
        var (b, s'', os) := Bisect(line, s', mid, hi);
        (b, s'', [o] + os)
      else if t.pass == 0 then
        var (b, s'', os) := Bisect(line, s', lo, mid);
        (b, s'', [o] + os)
      else (Unsteady, s', [o])
  }

  /** From the cut behind the first byte on: the slow repeat, the last cut, then the search. */
  function Bounded(line: Line, s: State): (Verdict, State, seq<Observation>) {
    var (slow, s1) := Measured(line, s, [1], true);
    var (last, s2) := Measured(line, s1, [line.n - 1], false);
    var seen := [Observation([1], true, slow), Observation([line.n - 1], false, last)];
    if last.pass == line.repeats && line.accepts then (WholePacket, s2, seen)
    else
      var (b, s3, os) := Bisect(line, s2, 1, line.n - 1);
      (if b.Unsteady? then Flaky else if line.accepts then Prefix(b.hi) else Rejected, s3, seen + os)
  }

  function Split(line: Line, s: State): (Verdict, State, seq<Observation>) {
    var (one, s1) := Measured(line, s, [1], false);
    var seen := [Observation([1], false, one)];
    if line.ended(s1.looks) then (Flaky, State(s1.probes, s1.looks + 1), seen)
    else
      var s2 := State(s1.probes, s1.looks + 1);
      if one.pass == 0 then (NoCutHelps, s2, seen)
      else if one.pass != line.repeats then (Flaky, s2, seen)
      else
        var (v, s3, os) := Bounded(line, s2);
        (v, s3, seen + os)
  }

  function Classified(line: Line): (Verdict, State, seq<Observation>) {
    var (whole, s1) := Measured(line, State(0, 0), [], false);
    var seen := [Observation([], false, whole)];
    if line.ended(s1.looks) then (Flaky, State(s1.probes, s1.looks + 1), seen)
    else
      var s2 := State(s1.probes, s1.looks + 1);
      if whole.broken && whole.pass == 0 then (Unreachable, s2, seen)
      else if whole.pass == line.repeats then (Clear, s2, seen)
      else if whole.pass > 0 then (Flaky, s2, seen)
      else
        var (v, s3, os) := Split(line, s2);
        (v, s3, seen + os)
  }

  // ------------------------------------------------------------------ the prober

  class Prober {
    const line: Line
    var probes: nat
    var looks: nat
    var trace: seq<Observation>

    ghost function Here(): State
      reads this
    {
      State(probes, looks)
    }

    constructor (line: Line)
      ensures this.line == line && Here() == State(0, 0) && trace == []
    {
      this.line := line;
      probes, looks, trace := 0, 0, [];
    }

    /** One look at the context. */
    method Ended() returns (e: bool)
      modifies this`looks
      ensures e == line.ended(old(looks)) && looks == old(looks) + 1
    {
      e := line.ended(looks);
      looks := looks + 1;
    }

    method Measure(cuts: seq<int>, long: bool) returns (t: Tally)
      modifies this
      ensures (t, Here()) == Measured(line, old(Here()), cuts, long)
      ensures trace == old(trace) + [Observation(cuts, long, t)]
    {
      var ps := SplitOffsets(cuts, line.n);
      t := NONE;
      var i := 0;
      while i < line.repeats
        invariant i <= line.repeats && trace == old(trace)
        invariant Tries(line, Here(), ps, long, line.repeats - i, t) == Measured(line, old(Here()), cuts, long)
      {
        var e := Ended();
        if e {
          break;
        }
        t := Noted(t, line.answer(probes, ps, long));
        probes, i := probes + 1, i + 1;
      }
      trace := trace + [Observation(cuts, long, t)];
    }

    /** The whole search between two limits, one measurement a round. */
    method Search(start: int, end: int) returns (b: Bound)
      modifies this
      ensures var (found, s, os) := Bisect(line, old(Here()), start, end);
              b == found && Here() == s && trace == old(trace) + os
    {
      var lo, hi := start, end;
      ghost var goal := Bisect(line, Here(), lo, hi);
      while hi - lo > 1
        invariant Reaches(goal, old(trace), Bisect(line, Here(), lo, hi), trace)
        decreases hi - lo
      {
        var mid := (lo + hi) / 2;
        ghost var at, before := Here(), trace;
        var t := Measure([mid], false);
        BisectStep(line, at, lo, hi, t, Here(), goal, old(trace), before);
        if t.pass == line.repeats {
          lo := mid;
        } else if t.pass == 0 {
          hi := mid;
        } else {
          return Unsteady;
        }
      }
      b := Found(hi);
    }

    method Classify() returns (v: Verdict)
      requires Here() == State(0, 0) && trace == []
      modifies this
      ensures (v, Here(), trace) == Classified(line)
    {
      hide Measured, Bisect;
      var whole := Measure([], false);
      assert trace == [Observation([], false, whole)];
      var e := Ended();
      if e {
        return Flaky;
      }
      if whole.broken && whole.pass == 0 {
        return Unreachable;
      }
      if whole.pass == line.repeats {
        return Clear;
      }
      if whole.pass > 0 {
        return Flaky;
      }
      v := ClassifySplit();
    }

    method ClassifySplit() returns (v: Verdict)
      modifies this
      ensures var (w, s, os) := Split(line, old(Here())); v == w && Here() == s && trace == old(trace) + os
    {
      hide Measured, Bisect;
      var one := Measure([1], false);
      var e := Ended();
      if e {
        return Flaky;
      }
      if one.pass == 0 {
        return NoCutHelps;
      }
      if one.pass != line.repeats {
        return Flaky;
      }
      v := ClassifyBounded();
    }

    method ClassifyBounded() returns (v: Verdict)
      modifies this
      ensures var (w, s, os) := Bounded(line, old(Here())); v == w && Here() == s && trace == old(trace) + os
    {
      hide Measured, Bisect;
      var _ := Measure([1], true);
      var last := Measure([line.n - 1], false);
      if last.pass == line.repeats && line.accepts {
        return WholePacket;
      }
      var b := Search(1, line.n - 1);
      if b.Unsteady? {
        return Flaky;
      }
      v := if line.accepts then Prefix(b.hi) else Rejected;
    }
  }

  /** Running on from here, with this trace, ends as goal says. */
  ghost predicate Reaches(goal: (Bound, State, seq<Observation>), start: seq<Observation>,
                          rest: (Bound, State, seq<Observation>), trace: seq<Observation>)
  {
    rest.0 == goal.0 && rest.1 == goal.1 && trace + rest.2 == start + goal.2
  }

  lemma BisectStep(line: Line, s: State, lo: int, hi: int, t: Tally, s': State,
                   goal: (Bound, State, seq<Observation>), start: seq<Observation>, trace: seq<Observation>)
    requires hi - lo > 1 && (t, s') == Measured(line, s, [(lo + hi) / 2], false)
    requires Reaches(goal, start, Bisect(line, s, lo, hi), trace)
    ensures var now, mid := trace + [Observation([(lo + hi) / 2], false, t)], (lo + hi) / 2;
            if t.pass == line.repeats then Reaches(goal, start, Bisect(line, s', mid, hi), now)
            else if t.pass == 0 then Reaches(goal, start, Bisect(line, s', lo, mid), now)
            else goal.0 == Unsteady && goal.1 == s' && now == start + goal.2
  {
    hide Measured;
    var o := Observation([(lo + hi) / 2], false, t);
    if t.pass == line.repeats {
      assert trace + ([o] + Bisect(line, s', (lo + hi) / 2, hi).2) ==
             (trace + [o]) + Bisect(line, s', (lo + hi) / 2, hi).2;
    } else if t.pass == 0 {
      assert trace + ([o] + Bisect(line, s', lo, (lo + hi) / 2).2) ==
             (trace + [o]) + Bisect(line, s', lo, (lo + hi) / 2).2;
    }
  }

  // ------------------------------------------------------------------ what a prefix verdict rests on

  /** Cut c was measured and every try got an answer. */
  ghost predicate Passed(os: seq<Observation>, c: int, repeats: nat) {
    exists o :: o in os && o.cuts == [c] && !o.long && o.tally.pass == repeats
  }

  /** Cut c was measured and not every try got an answer. */
  ghost predicate Failed(os: seq<Observation>, c: int, repeats: nat) {
    exists o :: o in os && o.cuts == [c] && !o.long && o.tally.pass < repeats
  }

  lemma {:induction false} BisectBrackets(line: Line, s: State, lo: int, hi: int, seen: seq<Observation>)
    requires line.Valid() && lo < hi
    requires Passed(seen, lo, line.repeats) && Failed(seen, hi, line.repeats)
    ensures var (b, _, os) := Bisect(line, s, lo, hi);
            b.Found? ==>
              lo < b.hi <= hi && Passed(seen + os, b.hi - 1, line.repeats) && Failed(seen + os, b.hi, line.repeats)
    decreases hi - lo
  {
    hide Measured;
    if hi - lo > 1 {
      var mid := (lo + hi) / 2;
      var (t, s') := Measured(line, s, [mid], false);
      var o := Observation([mid], false, t);
      Grown(seen, o);
      if t.pass == line.repeats {
        assert o in seen + [o];
        BisectBrackets(line, s', mid, hi, seen + [o]);
        assert seen + [o] + Bisect(line, s', mid, hi).2 == seen + ([o] + Bisect(line, s', mid, hi).2);
      } else if t.pass == 0 {
        assert o in seen + [o];
        BisectBrackets(line, s', lo, mid, seen + [o]);
        assert seen + [o] + Bisect(line, s', lo, mid).2 == seen + ([o] + Bisect(line, s', lo, mid).2);
      }
    } else {
      assert seen + [] == seen;
    }
  }

  lemma Grown(seen: seq<Observation>, o: Observation)
    ensures forall c, r :: Passed(seen, c, r) ==> Passed(seen + [o], c, r)
    ensures forall c, r :: Failed(seen, c, r) ==> Failed(seen + [o], c, r)
  {
  }

  /** What is known of an observation: its tries, and that none is missing while the context lived. */
  predicate Complete(o: Observation, repeats: nat) {
    o.tally.pass + o.tally.fail == repeats
  }

  /** Looks only go on, and a measurement is complete when the context was still alive after it. */
  lemma MeasuredFull(line: Line, s: State, cuts: seq<int>, long: bool)
    requires line.Valid()
    ensures var (t, s') := Measured(line, s, cuts, long);
            && t.pass <= line.repeats && s.looks <= s'.looks
            && (!line.ended(s'.looks) ==> Complete(Observation(cuts, long, t), line.repeats))
  {
    TriesAdd(line, s, Pieces(cuts, 0, line.n), long, line.repeats, NONE);
  }

  /** The last look of these tries found the context alive exactly when none of them is missing. */
  lemma {:induction false} TriesLastLook(line: Line, s: State, ps: seq<Span>, long: bool, left: nat, t: Tally)
    requires line.Valid() && left > 0
    ensures var (r, s') := Tries(line, s, ps, long, left, t);
            && s.looks < s'.looks
            && (r.pass + r.fail == t.pass + t.fail + left <==> !line.ended(s'.looks - 1))
    decreases left
  {
    if !line.ended(s.looks) {
      var s1, t1 := State(s.probes + 1, s.looks + 1), Noted(t, line.answer(s.probes, ps, long));
      if left > 1 {
        TriesLastLook(line, s1, ps, long, left - 1, t1);
      }
    } else {
      TriesAdd(line, s, ps, long, left, t);
    }
  }

  lemma MeasuredLastLook(line: Line, s: State, cuts: seq<int>, long: bool)
    requires line.Valid()
    ensures var (t, s') := Measured(line, s, cuts, long);
            s.looks < s'.looks && (Complete(Observation(cuts, long, t), line.repeats) <==> !line.ended(s'.looks - 1))
  {
    TriesLastLook(line, s, Pieces(cuts, 0, line.n), long, line.repeats, NONE);
  }

  /** A search that starts after a complete measurement is complete exactly when its last look found life. */
  lemma {:induction false} BisectLastLook(line: Line, s: State, lo: int, hi: int, seen: bool)
    requires line.Valid() && s.looks > 0 && (seen <==> !line.ended(s.looks - 1))
    ensures var (_, s', os) := Bisect(line, s, lo, hi);
            && s'.looks > 0
            && ((seen && forall o :: o in os ==> Complete(o, line.repeats)) <==> !line.ended(s'.looks - 1))
    decreases hi - lo
  {
    hide Measured, Complete;
    if hi - lo > 1 {
      var mid := (lo + hi) / 2;
      MeasuredLastLook(line, s, [mid], false);
      var (t, s') := Measured(line, s, [mid], false);
      var full := Complete(Observation([mid], false, t), line.repeats);
      if !line.ended(s'.looks - 1) {
        AliveBefore(line, s.looks - 1, s'.looks - 1);
      }
      if t.pass == line.repeats {
        BisectLastLook(line, s', mid, hi, full);
      } else if t.pass == 0 {
        BisectLastLook(line, s', lo, mid, full);
      }
    }
  }

  lemma AliveBefore(line: Line, t: nat, u: nat)
    requires line.Valid() && t <= u && !line.ended(u)
    ensures !line.ended(t)
  {
  }

  lemma BoundedLastLook(line: Line, s: State)
    requires line.Valid() && s.looks > 0
    ensures var (_, s', os) := Bounded(line, s);
            && s'.looks > s.looks && |os| >= 2
            && ((forall o :: o in os ==> Complete(o, line.repeats)) <==> !line.ended(s'.looks - 1))
  {
    hide Measured, Bisect, Complete;
    var (slow, s1) := Measured(line, s, [1], true);
    MeasuredLastLook(line, s, [1], true);
    var (last, s2) := Measured(line, s1, [line.n - 1], false);
    MeasuredLastLook(line, s1, [line.n - 1], false);
    var a, b := Observation([1], true, slow), Observation([line.n - 1], false, last);
    assert forall o :: o in [a, b] <==> o == a || o == b;
    BisectLastLook(line, s2, 1, line.n - 1, Complete(b, line.repeats));
    var os := [a, b] + Bisect(line, s2, 1, line.n - 1).2;
    assert forall o :: o in os <==> o == a || o == b || o in Bisect(line, s2, 1, line.n - 1).2;
    BisectLater(line, s2, 1, line.n - 1);
  }

  lemma {:induction false} BisectLater(line: Line, s: State, lo: int, hi: int)
    requires line.Valid()
    ensures s.looks <= Bisect(line, s, lo, hi).1.looks
    decreases hi - lo
  {
    hide Measured;
    if hi - lo > 1 {
      var mid := (lo + hi) / 2;
      MeasuredFull(line, s, [mid], false);
      var s' := Measured(line, s, [mid], false).1;
      BisectLater(line, s', mid, hi);
      BisectLater(line, s', lo, mid);
    }
  }

  /**
    Every verdict rests on complete measurements only, exactly when the last look a measurement took at the
    context still found it alive: the very last look, or the one before it when the run ended on a look of its own.
    */
  lemma CompleteExactlyWhen(line: Line)
    requires line.Valid()
    ensures var (_, s, os) := Classified(line); var back := if |os| <= 2 then 2 else 1;
            && s.looks >= back
            && ((forall o :: o in os ==> Complete(o, line.repeats)) <==> !line.ended(s.looks - back))
  {
    hide Measured, Bounded, Complete;
    var (whole, s1) := Measured(line, State(0, 0), [], false);
    MeasuredLastLook(line, State(0, 0), [], false);
    var s2 := State(s1.probes, s1.looks + 1);
    var (one, s3) := Measured(line, s2, [1], false);
    MeasuredLastLook(line, s2, [1], false);
    var s4 := State(s3.probes, s3.looks + 1);
    BoundedLastLook(line, s4);
    var a, b, os := Observation([], false, whole), Observation([1], false, one), Bounded(line, s4).2;
    assert forall o :: o in [a] + ([b] + os) <==> o == a || o == b || o in os;
    assert forall o :: o in [a] + [b] <==> o == a || o == b;
  }

  /**
    A prefix verdict, for any line at all: from three bytes on, the cut one byte short of the boundary was
    measured and every try was answered, the cut at the boundary was measured and not every try was.
    */
  lemma PrefixIsBracketed(line: Line)
    requires line.Valid() && line.n >= 3 && Classified(line).0.Prefix?
    ensures var (v, _, os) := Classified(line);
            && 2 <= v.boundary <= line.n - 1
            && Passed(os, v.boundary - 1, line.repeats) && Failed(os, v.boundary, line.repeats)
  {
    hide Measured, Bisect, Bounded;
    var (whole, s1) := Measured(line, State(0, 0), [], false);
    var s2 := State(s1.probes, s1.looks + 1);
    var (one, s3) := Measured(line, s2, [1], false);
    var first, second := Observation([], false, whole), Observation([1], false, one);
    var s4 := State(s3.probes, s3.looks + 1);
    assert second in [first, second];
    BoundedBrackets(line, s4, [first, second]);
    assert [first] + ([second] + Bounded(line, s4).2) == [first, second] + Bounded(line, s4).2;
  }

  lemma BoundedBrackets(line: Line, s: State, seen: seq<Observation>)
    requires line.Valid() && line.n >= 3 && Passed(seen, 1, line.repeats) && Bounded(line, s).0.Prefix?
    ensures var (v, _, os) := Bounded(line, s);
            && 2 <= v.boundary <= line.n - 1
            && Passed(seen + os, v.boundary - 1, line.repeats) && Failed(seen + os, v.boundary, line.repeats)
  {
    hide Measured, Bisect;
    var (slow, s1) := Measured(line, s, [1], true);
    MeasuredFull(line, s1, [line.n - 1], false);
    var (last, s2) := Measured(line, s1, [line.n - 1], false);
    var a, b := Observation([1], true, slow), Observation([line.n - 1], false, last);
    Grown(seen, a);
    Grown(seen + [a], b);
    assert b in seen + [a] + [b];
    BisectBrackets(line, s2, 1, line.n - 1, seen + [a] + [b]);
    assert seen + [a] + [b] + Bisect(line, s2, 1, line.n - 1).2 == seen + ([a, b] + Bisect(line, s2, 1, line.n - 1).2);
  }

  // ------------------------------------------------------------------ which verdict which line gets

  /** Of count probes from number first on, written as ps. */
  ghost predicate AllAnswered(line: Line, first: nat, count: nat, ps: seq<Span>, long: bool) {
    forall k :: first <= k < first + count ==> line.answer(k, ps, long) == Answered
  }

  ghost predicate NoneAnswered(line: Line, first: nat, count: nat, ps: seq<Span>, long: bool) {
    forall k :: first <= k < first + count ==> line.answer(k, ps, long) != Answered
  }

  ghost predicate SomeBroken(line: Line, first: nat, count: nat, ps: seq<Span>, long: bool) {
    exists k :: first <= k < first + count && line.answer(k, ps, long) == Broken
  }

  /** With the context alive to the last look every try is made, and the tally says what came of them. */
  lemma {:induction false} TriesAll(line: Line, s: State, ps: seq<Span>, long: bool, left: nat, t: Tally)
    requires line.Valid() && (left == 0 || !line.ended(s.looks + left - 1))
    ensures var (r, s') := Tries(line, s, ps, long, left, t);
            && s' == State(s.probes + left, s.looks + left)
            && t.pass <= r.pass <= t.pass + left
            && (r.pass == t.pass + left <==> AllAnswered(line, s.probes, left, ps, long))
            && (r.pass == t.pass <==> NoneAnswered(line, s.probes, left, ps, long))
            && (r.broken <==> t.broken || SomeBroken(line, s.probes, left, ps, long))
    decreases left
  {
    if left > 0 {
      var o := line.answer(s.probes, ps, long);
      AliveBefore(line, s.looks, s.looks + left - 1);
      TriesAll(line, State(s.probes + 1, s.looks + 1), ps, long, left - 1, Noted(t, o));
      OneTry(line, s.probes, left, ps, long);
    }
  }

  lemma OneTry(line: Line, first: nat, left: nat, ps: seq<Span>, long: bool)
    requires left > 0
    ensures var o := line.answer(first, ps, long);
            && (AllAnswered(line, first, left, ps, long) <==>
                  o == Answered && AllAnswered(line, first + 1, left - 1, ps, long))
            && (NoneAnswered(line, first, left, ps, long) <==>
                  o != Answered && NoneAnswered(line, first + 1, left - 1, ps, long))
            && (SomeBroken(line, first, left, ps, long) <==>
                  o == Broken || SomeBroken(line, first + 1, left - 1, ps, long))
  {
  }

  /** When the context ends in between, it has ended at the next look too. */
  lemma {:induction false} TriesCut(line: Line, s: State, ps: seq<Span>, long: bool, left: nat, t: Tally)
    requires line.Valid() && left > 0 && line.ended(s.looks + left - 1)
    ensures line.ended(Tries(line, s, ps, long, left, t).1.looks)
    decreases left
  {
    if !line.ended(s.looks) {
      TriesCut(line, State(s.probes + 1, s.looks + 1), ps, long, left - 1,
               Noted(t, line.answer(s.probes, ps, long)));
    }
  }

  lemma PlainPieces(n: nat)
    requires n >= 2
    ensures Pieces([], 0, n) == [Span(0, n)] && Pieces([1], 0, n) == [Span(0, 1), Span(1, n)]
  {
    NextCutIs([1], 0, n, 1);
    NextCutIs([1], 1, n, n);
    assert Pieces([1], 1, n) == [Span(1, n)];
  }

  /**
    The first measurement decides, for every line: with the context alive at the look after its last try, a trigger
    answered every time is clear, one answered only sometimes flaky, one never answered with a connection that broke
    unreachable. Without the context the verdict is flaky.
    */
  lemma WholeDecides(line: Line)
    requires line.Valid()
    ensures var v, n, whole := Classified(line).0, line.repeats, [Span(0, line.n)];
            && (v == Clear <==> !line.ended(n) && AllAnswered(line, 0, n, whole, false))
            && (v == Unreachable <==>
                  !line.ended(n) && NoneAnswered(line, 0, n, whole, false) && SomeBroken(line, 0, n, whole, false))
            && (line.ended(n) ==> v == Flaky)
            && (!AllAnswered(line, 0, n, whole, false) && !NoneAnswered(line, 0, n, whole, false) ==> v == Flaky)
  {
    PlainPieces(line.n);
    WholeTries(line);
    SplitNeverClear(line, State(Measured(line, State(0, 0), [], false).1.probes,
                                Measured(line, State(0, 0), [], false).1.looks + 1));
    hide Split, Measured, AllAnswered, NoneAnswered, SomeBroken;
  }

  lemma WholeTries(line: Line)
    requires line.Valid()
    ensures var (t, s) := Measured(line, State(0, 0), [], false);
            if line.ended(line.repeats) then line.ended(s.looks)
            else
              && s == State(line.repeats, line.repeats)
              && (t.pass == line.repeats <==> AllAnswered(line, 0, line.repeats, [Span(0, line.n)], false))
              && (t.pass == 0 <==> NoneAnswered(line, 0, line.repeats, [Span(0, line.n)], false))
              && (t.broken <==> SomeBroken(line, 0, line.repeats, [Span(0, line.n)], false))
  {
    PlainPieces(line.n);
    var whole := [Span(0, line.n)];
    if line.ended(line.repeats - 1) {
      TriesCut(line, State(0, 0), whole, false, line.repeats, NONE);
    } else {
      TriesAll(line, State(0, 0), whole, false, line.repeats, NONE);
    }
  }

  lemma SplitNeverClear(line: Line, s: State)
    ensures Split(line, s).0 != Clear && Split(line, s).0 != Unreachable
  {
    hide Measured, Bisect;
  }

  /**
    No cut helps: for every line exactly when neither the whole trigger nor the cut behind its first byte is ever
    answered, no connection broke on the whole, and the context lived to see both.
    */
  lemma NoCutHelpsExactlyWhen(line: Line)
    requires line.Valid()
    ensures var n := line.repeats;
            Classified(line).0 == NoCutHelps <==>
            && !line.ended(2 * n + 1)
            && NoneAnswered(line, 0, n, [Span(0, line.n)], false) && !SomeBroken(line, 0, n, [Span(0, line.n)], false)
            && NoneAnswered(line, n, n, [Span(0, 1), Span(1, line.n)], false)
  {
    hide Bounded, Measured, AllAnswered, NoneAnswered, SomeBroken, Pieces;
    WholeTries(line);
    var n := line.repeats;
    var s1 := Measured(line, State(0, 0), [], false).1;
    var s2 := State(s1.probes, s1.looks + 1);
    var s3 := Measured(line, s2, [1], false).1;
    CutTries(line, s2);
    BoundedNeverNone(line, State(s3.probes, s3.looks + 1));
    if line.ended(n) {
      assert line.ended(2 * n + 1);
    }
  }

  lemma CutTries(line: Line, s: State)
    requires line.Valid() && line.repeats >= 1
    ensures var (t, s') := Measured(line, s, [1], false);
            if line.ended(s.looks + line.repeats) then line.ended(s'.looks)
            else
              && s' == State(s.probes + line.repeats, s.looks + line.repeats)
              && (t.pass == 0 <==> NoneAnswered(line, s.probes, line.repeats, [Span(0, 1), Span(1, line.n)], false))
  {
    PlainPieces(line.n);
    var ps := [Span(0, 1), Span(1, line.n)];
    if line.ended(s.looks + line.repeats - 1) {
      TriesCut(line, s, ps, false, line.repeats, NONE);
    } else {
      TriesAll(line, s, ps, false, line.repeats, NONE);
    }
  }

  lemma BoundedNeverNone(line: Line, s: State)
    ensures Bounded(line, s).0 != NoCutHelps
  {
    hide Measured, Bisect;
  }

  /** The search gives up exactly at a measurement that is neither all nor nothing, and that is its last. */
  lemma {:induction false} UnsteadyExactlyWhen(line: Line, s: State, lo: int, hi: int)
    ensures var (b, _, os) := Bisect(line, s, lo, hi);
            && (b.Found? <==> forall o :: o in os ==> o.tally.pass == line.repeats || o.tally.pass == 0)
            && (b.Unsteady? ==> os != [] && os[|os| - 1].tally.pass !in {0, line.repeats})
    decreases hi - lo
  {
    hide Measured;
    if hi - lo > 1 {
      var mid := (lo + hi) / 2;
      var (t, s') := Measured(line, s, [mid], false);
      var o := Observation([mid], false, t);
      assert o in [o];
      if t.pass == line.repeats {
        UnsteadyExactlyWhen(line, s', mid, hi);
        assert forall x :: x in [o] + Bisect(line, s', mid, hi).2 <==> x == o || x in Bisect(line, s', mid, hi).2;
      } else if t.pass == 0 {
        UnsteadyExactlyWhen(line, s', lo, mid);
        assert forall x :: x in [o] + Bisect(line, s', lo, mid).2 <==> x == o || x in Bisect(line, s', lo, mid).2;
      }
    }
  }

  /** A verdict that any cut works rests on both outermost cuts having passed, and on the other addresses. */
  lemma WholePacketMeans(line: Line)
    requires line.Valid() && Classified(line).0 == WholePacket
    ensures line.accepts && Passed(Classified(line).2, 1, line.repeats)
            && Passed(Classified(line).2, line.n - 1, line.repeats)
  {
    hide Measured, Bisect;
    var os := Classified(line).2;
    assert os[1] in os && os[3] in os;
  }

  // ------------------------------------------------------------------ a line that follows its signature

  /** Cuts before the boundary get through, later ones and the uncut payload do not; nothing ends the run. */
  ghost predicate Follows(line: Line, boundary: int) {
    && (forall k, c, long :: 0 < c < line.n ==>
          line.answer(k, Pieces([c], 0, line.n), long) == if c < boundary then Answered else Silent)
    && (forall k :: line.answer(k, Pieces([], 0, line.n), false) == Silent)
    && (forall t :: !line.ended(t))
  }

  lemma {:induction false} TriesUniform(
    line: Line, s: State, ps: seq<Span>, long: bool, left: nat, t: Tally, o: Outcome)
    requires (forall k :: line.answer(k, ps, long) == o) && (forall u :: !line.ended(u)) && o != Broken
    ensures Tries(line, s, ps, long, left, t).0 ==
         if o.Answered? then t.(pass := t.pass + left) else t.(fail := t.fail + left)
    decreases left
  {
    if left > 0 {
      TriesUniform(line, State(s.probes + 1, s.looks + 1), ps, long, left - 1, Noted(t, o), o);
    }
  }

  lemma CutFollows(line: Line, boundary: int, s: State, c: int, long: bool)
    requires line.Valid() && Follows(line, boundary) && 0 < c < line.n
    ensures Measured(line, s, [c], long).0 ==
         if c < boundary then Tally(line.repeats, 0, false) else Tally(0, line.repeats, false)
  {
    TriesUniform(line, s, Pieces([c], 0, line.n), long, line.repeats, NONE, if c < boundary then Answered else Silent);
  }

  /** The search ends on the boundary when it lies between the limits, and on the upper limit otherwise. */
  lemma {:induction false} BisectFinds(line: Line, boundary: int, s: State, lo: int, hi: int)
    requires line.Valid() && Follows(line, boundary) && 0 < lo < hi < line.n && lo < boundary
    ensures Bisect(line, s, lo, hi).0 == Found(if boundary < hi then boundary else hi)
    decreases hi - lo
  {
    hide Measured, Follows;
    if hi - lo > 1 {
      var mid := (lo + hi) / 2;
      CutFollows(line, boundary, s, mid, false);
      var s' := Measured(line, s, [mid], false).1;
      if mid < boundary {
        BisectFinds(line, boundary, s', mid, hi);
      } else {
        BisectFinds(line, boundary, s', lo, mid);
      }
    }
  }

  /** On such a line the verdict names the one first cut that fails, and no cut fails when there is none. */
  lemma FindsTheBoundary(line: Line, boundary: int)
    requires line.Valid() && Follows(line, boundary) && line.n >= 3 && boundary >= 2
    ensures Classified(line).0 ==
            if !line.accepts then Rejected else if boundary < line.n then Prefix(boundary) else WholePacket
  {
    hide Measured, Bisect, Follows;
    WholeSilent(line, boundary);
    var s1 := Measured(line, State(0, 0), [], false).1;
    var s2 := State(s1.probes, s1.looks + 1);
    CutFollows(line, boundary, s2, 1, false);
    var s3 := Measured(line, s2, [1], false).1;
    var s4 := State(s3.probes, s3.looks + 1);
    var s5 := Measured(line, s4, [1], true).1;
    CutFollows(line, boundary, s5, line.n - 1, false);
    NeverEnds(line, boundary);
    BisectFinds(line, boundary, Measured(line, s5, [line.n - 1], false).1, 1, line.n - 1);
  }

  lemma NeverEnds(line: Line, boundary: int)
    requires Follows(line, boundary)
    ensures forall t :: !line.ended(t)
  {
  }

  lemma WholeSilent(line: Line, boundary: int)
    requires line.Valid() && Follows(line, boundary)
    ensures Measured(line, State(0, 0), [], false).0 == Tally(0, line.repeats, false)
  {
    TriesUniform(line, State(0, 0), Pieces([], 0, line.n), false, line.repeats, NONE, Silent);
  }

  /** The search takes no more measurements than halvings of the range, on any line. */
  lemma {:induction false} LogarithmicallyMany(line: Line, s: State, lo: int, hi: int, k: nat)
    requires lo < hi <= lo + Pow2(k)
    ensures |Bisect(line, s, lo, hi).2| <= k
    decreases k
  {
    hide Measured;
    if hi - lo > 1 {
      assert Pow2(k) == 2 * Pow2(k - 1);
      var mid := (lo + hi) / 2;
      var (t, s') := Measured(line, s, [mid], false);
      if t.pass == line.repeats {
        LogarithmicallyMany(line, s', mid, hi, k - 1);
      } else if t.pass == 0 {
        LogarithmicallyMany(line, s', lo, mid, k - 1);
      }
    }
  }

  // ------------------------------------------------------------------ where the verdict misleads

  /** Silent without a cut, answered with one right after the first byte, silent with the last one. */
  function Abandoned(): Line {
    Line(4, 1, (k, ps, long) => if ps == [Span(0, 1), Span(1, 4)] then Answered else Silent, t => t >= 6, true)
  }

  /**
    The search does not look at the context between measurements. When it ends there, cuts count as failing
    that were never tried: the verdict still names a boundary.
    */
  lemma EndedContextStillNamesBoundary()
    ensures Abandoned().Valid()
    ensures Classified(Abandoned()).0 == Prefix(2)
    ensures Classified(Abandoned()).2[|Classified(Abandoned()).2| - 1] == Observation([2], false, NONE)
  {
    hide Pieces;
    var line := Abandoned();
    AbandonedPieces();
    Once(line, State(0, 0), [], false);
    Once(line, State(1, 2), [1], false);
    Once(line, State(2, 4), [1], true);
    Once(line, State(3, 5), [3], false);
    Once(line, State(4, 6), [2], false);
    assert Bisect(line, State(4, 7), 1, 2) == (Found(2), State(4, 7), []);
  }

  lemma Once(line: Line, s: State, cuts: seq<int>, long: bool)
    requires line.repeats == 1
    ensures Measured(line, s, cuts, long) ==
         if line.ended(s.looks) then (NONE, State(s.probes, s.looks + 1))
            else (Noted(NONE, line.answer(s.probes, Pieces(cuts, 0, line.n), long)), State(s.probes + 1, s.looks + 1))
  {
  }

  lemma AbandonedPieces()
    ensures Pieces([], 0, 4) == [Span(0, 4)] && Pieces([1], 0, 4) == [Span(0, 1), Span(1, 4)]
    ensures Pieces([3], 0, 4) == [Span(0, 3), Span(3, 4)]
  {
    NextCutIs([1], 0, 4, 1);
    NextCutIs([1], 1, 4, 4);
    NextCutIs([3], 0, 4, 3);
    NextCutIs([3], 3, 4, 4);
  }

  /** With two bytes there is one cut only; a prefix verdict then rests on it both passing and failing. */
  lemma TwoBytesContradict(line: Line)
    requires line.Valid() && line.n == 2 && Classified(line).0.Prefix?
    ensures Classified(line).0 == Prefix(1)
    ensures Passed(Classified(line).2, 1, line.repeats) && Failed(Classified(line).2, 1, line.repeats)
  {
    hide Measured;
    var (whole, s1) := Measured(line, State(0, 0), [], false);
    var (one, s3) := Measured(line, State(s1.probes, s1.looks + 1), [1], false);
    var s4 := State(s3.probes, s3.looks + 1);
    var s5 := Measured(line, s4, [1], true).1;
    MeasuredFull(line, s5, [1], false);
    var os := Classified(line).2;
    assert os[1] == Observation([1], false, one) && os[3] == Observation([1], false, Measured(line, s5, [1], false).0);
    assert os[1] in os && os[3] in os;
  }
}
