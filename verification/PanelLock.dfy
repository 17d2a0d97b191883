/** The panel's lock: while jobs run, controls are forced off and their own state waits in a backup. */
module PanelLock {
  import opened Options

  type Group = string

  /** A switch obeys the lock group it sits in, if any; buttons know no groups. */
  datatype Control = Control(disabled: bool, backup: Option<bool>, isSwitch: bool, group: Group)

  type Jobs = map<string, Group>

  // ------------------------------------------------------------------ one control

  /** Some job runs that is not of this group. */
  predicate ForeignJobs(jobs: Jobs, group: Group) {
    exists j :: j in jobs && jobs[j] != group
  }

  predicate Blocked(c: Control, jobs: Jobs) {
    if c.isSwitch && c.group != "" then ForeignJobs(jobs, c.group) else jobs != map[]
  }

  /** A write that respects the lock. */
  function Written(c: Control, disabled: bool): Control {
    if c.backup.Some? then c.(backup := Some(disabled)) else c.(disabled := disabled)
  }

  function Relocked(c: Control, jobs: Jobs): Control {
    if Blocked(c, jobs) then
      if c.backup.None? then c.(backup := Some(c.disabled), disabled := true) else c
    else if c.backup.Some? then c.(disabled := c.backup.value, backup := None)
    else c
  }

  // ------------------------------------------------------------------ the page

  /** The controls, the jobs, and what each control was last meant to be. */
  datatype Page = Page(controls: seq<Control>, jobs: Jobs, meant: seq<bool>)

  function RelockedAll(cs: seq<Control>, jobs: Jobs): (r: seq<Control>)
    ensures |r| == |cs| && forall i :: 0 <= i < |cs| ==> r[i] == Relocked(cs[i], jobs)
  {
    seq(|cs|, i requires 0 <= i < |cs| => Relocked(cs[i], jobs))
  }

  /** Everything that happens to the page; only job events redraw the lock. */
  datatype Event =
    | Start(job: string, group: Group)
    | Finish(job: string)
    | Write(at: nat, disabled: bool)
    | Regroup(at: nat, group: Group)
    | Appear(disabled: bool, isSwitch: bool, group: Group)

  function Next(p: Page, e: Event): Page {
    match e
    case Start(j, g) =>
      if j in p.jobs then p else p.(jobs := p.jobs[j := g], controls := RelockedAll(p.controls, p.jobs[j := g]))
    case Finish(j) => p.(jobs := p.jobs - {j}, controls := RelockedAll(p.controls, p.jobs - {j}))
    case Write(i, d) =>
      if i < |p.controls| && i < |p.meant|
      then p.(controls := p.controls[i := Written(p.controls[i], d)], meant := p.meant[i := d]) else p
    case Regroup(i, g) =>
      if i < |p.controls| then p.(controls := p.controls[i := p.controls[i].(group := g)]) else p
    case Appear(d, s, g) => p.(controls := p.controls + [Control(d, None, s, g)], meant := p.meant + [d])
  }

  function AfterAll(p: Page, es: seq<Event>): Page {
    if es == [] then p else Next(AfterAll(p, es[..|es| - 1]), es[|es| - 1])
  }

  /** A control with a backup is off and its backup is what was last meant; one without shows what was meant. */
  predicate Faithful(c: Control, meant: bool) {
    if c.backup.Some? then c.disabled && c.backup.value == meant else c.disabled == meant
  }

  ghost predicate Sound(p: Page) {
    && |p.controls| == |p.meant|
    && (forall i :: 0 <= i < |p.controls| ==> Faithful(p.controls[i], p.meant[i]))
    && (p.jobs == map[] ==> forall i :: 0 <= i < |p.controls| ==> p.controls[i].backup.None?)
  }

  lemma RelockKeeps(c: Control, jobs: Jobs, meant: bool)
    requires Faithful(c, meant)
    ensures Faithful(Relocked(c, jobs), meant)
    ensures Relocked(c, jobs).backup.Some? <==> Blocked(c, jobs)
    ensures !Blocked(c, jobs) ==> Relocked(c, jobs).disabled == meant
    ensures jobs == map[] ==> !Blocked(c, jobs)
  {
  }

  lemma NextSound(p: Page, e: Event)
    requires Sound(p)
    ensures Sound(Next(p, e))
  {
    hide Relocked;
    var q := Next(p, e);
    if e.Finish? || (e.Start? && e.job !in p.jobs) {
      forall i | 0 <= i < |p.controls|
        ensures Faithful(q.controls[i], q.meant[i]) && (q.jobs == map[] ==> q.controls[i].backup.None?)
      {
        RelockKeeps(p.controls[i], q.jobs, p.meant[i]);
      }
    }
  }

  /** In every run of starts, finishes, writes, regroupings and new controls, nothing meant is ever lost. */
  lemma {:induction false} RunSound(p: Page, es: seq<Event>)
    requires Sound(p)
    ensures Sound(AfterAll(p, es))
    decreases |es|
  {
    if es != [] {
      RunSound(p, es[..|es| - 1]);
      NextSound(AfterAll(p, es[..|es| - 1]), es[|es| - 1]);
    }
  }

  /** With no job left every control shows what was last meant. */
  lemma IdleShowsMeant(p: Page, es: seq<Event>, i: nat)
    requires Sound(p) && i < |AfterAll(p, es).controls| && AfterAll(p, es).jobs == map[]
    ensures i < |AfterAll(p, es).meant| && AfterAll(p, es).controls[i].disabled == AfterAll(p, es).meant[i]
  {
    RunSound(p, es);
  }

  /** A job of this group holds every control but the switches of its own group. */
  predicate Holds(group: Group, c: Control) {
    !(c.isSwitch && c.group != "" && c.group == group)
  }

  lemma BlockedExactlyWhen(c: Control, jobs: Jobs)
    ensures Blocked(c, jobs) <==> exists j :: j in jobs && Holds(jobs[j], c)
  {
    if jobs != map[] {
      var j :| j in jobs;
      assert (c.isSwitch && c.group != "") || Holds(jobs[j], c);
    }
  }

  /** After every change of the jobs exactly the controls some job holds are held, and those are off. */
  lemma HeldExactlyWhenBlocked(p: Page, es: seq<Event>, e: Event, i: nat)
    requires Sound(p) && (e.Finish? || (e.Start? && e.job !in AfterAll(p, es).jobs)) && i < |AfterAll(p, es).controls|
    ensures var q := Next(AfterAll(p, es), e);
            && i < |q.controls| && i < |q.meant|
            && (q.controls[i].backup.Some? <==> exists j :: j in q.jobs && Holds(q.jobs[j], q.controls[i]))
            && (q.controls[i].backup.Some? ==> q.controls[i].disabled)
            && (q.controls[i].backup.None? ==> q.controls[i].disabled == q.meant[i])
  {
    RunSound(p, es);
    var before, q := AfterAll(p, es), Next(AfterAll(p, es), e);
    RelockKeeps(before.controls[i], q.jobs, before.meant[i]);
    assert q.controls[i] == Relocked(before.controls[i], q.jobs);
    BlockedExactlyWhen(q.controls[i], q.jobs);
  }

  /** Jobs come and go without touching what was meant; a write says it for one control. */
  lemma MeantOnlyWritten(p: Page, e: Event, i: nat)
    requires Sound(p) && i < |p.meant|
    ensures i < |Next(p, e).meant|
    ensures Next(p, e).meant[i] == if e.Write? && e.at == i then e.disabled else p.meant[i]
  {
  }

  lemma {:induction false} MeantStays(p: Page, es: seq<Event>, i: nat)
    requires Sound(p) && i < |p.meant| && forall e :: e in es ==> !(e.Write? && e.at == i)
    ensures i < |AfterAll(p, es).meant| && AfterAll(p, es).meant[i] == p.meant[i]
    decreases |es|
  {
    hide Next;
    if es != [] {
      var front, last := es[..|es| - 1], es[|es| - 1];
      assert last in es && forall e :: e in front ==> e in es;
      MeantStays(p, front, i);
      RunSound(p, front);
      MeantOnlyWritten(AfterAll(p, front), last, i);
    }
  }

  lemma {:induction false} AfterConcat(p: Page, a: seq<Event>, b: seq<Event>)
    ensures AfterAll(p, a + b) == AfterAll(AfterAll(p, a), b)
    decreases |b|
  {
    if b == [] {
      assert a + b == a;
    } else {
      assert (a + b)[..|a + b| - 1] == a + b[..|b| - 1];
      AfterConcat(p, a, b[..|b| - 1]);
    }
  }

  /** Once all jobs are over a control shows what was last written to it, whether jobs held it then or not. */
  lemma LastWriteShows(p: Page, before: seq<Event>, i: nat, d: bool, after: seq<Event>)
    requires Sound(p) && i < |AfterAll(p, before).controls| && forall e :: e in after ==> !(e.Write? && e.at == i)
    requires AfterAll(p, before + [Write(i, d)] + after).jobs == map[]
    ensures var q := AfterAll(p, before + [Write(i, d)] + after);
            i < |q.controls| && q.controls[i].disabled == d
  {
    hide Next, Sound;
    RunSound(p, before);
    var es, written := before + [Write(i, d)], Next(AfterAll(p, before), Write(i, d));
    assert es[..|es| - 1] == before;
    SameLengths(AfterAll(p, before));
    MeantOnlyWritten(AfterAll(p, before), Write(i, d), i);
    NextSound(AfterAll(p, before), Write(i, d));
    AfterConcat(p, es, after);
    MeantStays(written, after, i);
    RunSound(written, after);
    SameLengths(AfterAll(written, after));
    IdleShowsMeant(p, es + after, i);
  }

  lemma SameLengths(p: Page)
    requires Sound(p)
    ensures |p.controls| == |p.meant|
  {
  }

  // ------------------------------------------------------------------ the panel

  class Panel {
    var controls: seq<Control>
    var jobs: Jobs
    ghost var meant: seq<bool>

    ghost function Now(): Page
      reads this
    {
      Page(controls, jobs, meant)
    }

    constructor (controls: seq<Control>)
      requires forall c :: c in controls ==> c.backup.None?
      ensures this.controls == controls && jobs == map[] && Sound(Now())
    {
      this.controls, jobs := controls, map[];
      meant := seq(|controls|, i requires 0 <= i < |controls| => controls[i].disabled);
    }

    method SetLockAware(at: nat, disabled: bool)
      requires at < |controls| == |meant|
      modifies this`controls, this`meant
      ensures Now() == Next(old(Now()), Write(at, disabled))
    {
      var c := controls[at];
      if c.backup.Some? {
        c := c.(backup := Some(disabled));
      } else {
        c := c.(disabled := disabled);
      }
      controls, meant := controls[at := c], meant[at := disabled];
    }

    method ForeignJobsActive(group: Group) returns (found: bool)
      ensures found == ForeignJobs(jobs, group)
    {
      var todo := jobs.Keys;
      while todo != {}
        invariant todo <= jobs.Keys
        invariant forall j :: j in jobs && j !in todo ==> jobs[j] == group
        decreases |todo|
      {
        var j :| j in todo;
        if jobs[j] != group {
          return true;
        }
        todo := todo - {j};
      }
      found := false;
    }

    method UpdateLock()
      modifies this`controls
      ensures controls == RelockedAll(old(controls), jobs)
    {
      var busy := jobs != map[];
      for i := 0 to |controls|
        invariant |controls| == |old(controls)|
        invariant forall k :: 0 <= k < |controls| ==>
          controls[k] == if k < i then Relocked(old(controls)[k], jobs) else old(controls)[k]
      {
        var c := controls[i];
        var held := busy;
        if c.isSwitch && c.group != "" {
          held := ForeignJobsActive(c.group);
        }
        if held {
          if c.backup.None? {
            c := c.(backup := Some(c.disabled));
            c := c.(disabled := true);
          }
        } else if c.backup.Some? {
          c := c.(disabled := c.backup.value);
          c := c.(backup := None);
        }
        controls := controls[i := c];
      }
    }

    method Track(job: string, group: Group)
      modifies this`controls, this`jobs
      ensures Now() == Next(old(Now()), Start(job, group))
    {
      if job !in jobs {
        jobs := jobs[job := group];
        UpdateLock();
      }
    }

    method Done(job: string)
      modifies this`controls, this`jobs
      ensures Now() == Next(old(Now()), Finish(job))
    {
      jobs := jobs - {job};
      UpdateLock();
    }
  }

  // ------------------------------------------------------------------ the poller

  datatype JobResult = Ok | Fail | Gone | Offline

  /** What the server says of a job; no answer at all, or a refusal. */
  datatype Reply = Answer(done: bool, known: bool, success: bool) | Silence | Refusal

  datatype Watch = Watch(tolerant: bool, expectGone: bool)
  {
    function MaxErrors(): nat {
      if tolerant then 300 else 5
    }
  }

  /** After these replies: polling with so many errors behind it, or finished with a result. */
  datatype Polling = Going(errors: nat, refusals: nat) | Finished(result: JobResult)

  function Polled(w: Watch, p: Polling, r: Reply): Polling {
    if p.Finished? then p
    else if r.Answer? then
      if !r.known then Finished(Gone)
      else if r.done then Finished(if r.success then Ok else Fail)
      else Going(0, p.refusals)
    else
      var errors, refusals := p.errors + 1, if r.Refusal? then p.refusals + 1 else 0;
      if w.expectGone && errors >= 10 then Finished(Gone)
      else if refusals >= 3 || errors >= w.MaxErrors() then Finished(Offline)
      else Going(errors, refusals)
  }

  function PolledAll(w: Watch, rs: seq<Reply>): Polling {
    if rs == [] then Going(0, 0) else Polled(w, PolledAll(w, rs[..|rs| - 1]), rs[|rs| - 1])
  }

  /** Success or failure is only ever reported because the server said so; silence never becomes a result. */
  lemma {:induction false} NoGuessedResult(w: Watch, rs: seq<Reply>)
    requires PolledAll(w, rs).Finished? && PolledAll(w, rs).result in {Ok, Fail}
    ensures exists r :: r in rs && r == Answer(true, true, PolledAll(w, rs).result.Ok?)
    decreases |rs|
  {
    var front := PolledAll(w, rs[..|rs| - 1]);
    if front.Finished? {
      NoGuessedResult(w, rs[..|rs| - 1]);
      var r :| r in rs[..|rs| - 1] && r == Answer(true, true, front.result.Ok?);
      assert r in rs;
    } else {
      assert rs[|rs| - 1] in rs;
    }
  }

  /** A panel that has stopped answering is given up after a bounded number of tries, however it is silent. */
  lemma {:induction false} SilenceEnds(w: Watch, rs: seq<Reply>, n: nat)
    requires n <= |rs| && n >= w.MaxErrors() && forall i :: |rs| - n <= i < |rs| ==> !rs[i].Answer?
    ensures PolledAll(w, rs).Finished?
  {
    Errors(w, rs, n);
  }

  lemma {:induction false} Errors(w: Watch, rs: seq<Reply>, n: nat)
    requires n <= |rs| && forall i :: |rs| - n <= i < |rs| ==> !rs[i].Answer?
    ensures PolledAll(w, rs).Going? ==> n <= PolledAll(w, rs).errors < w.MaxErrors()
    decreases |rs|
  {
    if rs != [] {
      Errors(w, rs[..|rs| - 1], if n > 0 then n - 1 else 0);
    }
  }

  /** An answer that knows the job ends the watch with its result when it is done; one that does not, as gone. */
  lemma AnswerDecides(w: Watch, rs: seq<Reply>, done: bool, known: bool, success: bool)
    requires PolledAll(w, rs).Going?
    ensures var after := PolledAll(w, rs + [Answer(done, known, success)]);
            && (!known ==> after == Finished(Gone))
            && (known && done && success ==> after == Finished(Ok))
            && (known && done && !success ==> after == Finished(Fail))
            && (known && !done ==> after == Going(0, PolledAll(w, rs).refusals))
  {
    assert (rs + [Answer(done, known, success)])[..|rs|] == rs;
  }

  /** Nothing changes a result any more. */
  lemma ResultStays(w: Watch, rs: seq<Reply>, r: Reply)
    requires PolledAll(w, rs).Finished?
    ensures PolledAll(w, rs + [r]) == PolledAll(w, rs)
  {
    assert (rs + [r])[..|rs|] == rs;
  }

  /** Silence alone ends a watch at the fifth try, at the tenth when the panel is expected to go, or at the 300th. */
  lemma {:induction false} SilenceExactly(w: Watch, rs: seq<Reply>)
    requires forall r :: r in rs ==> r.Silence?
    ensures PolledAll(w, rs).Finished? <==> |rs| >= if !w.tolerant then 5 else if w.expectGone then 10 else 300
    ensures PolledAll(w, rs).Finished? ==>
            PolledAll(w, rs) == Finished(if w.tolerant && w.expectGone then Gone else Offline)
    ensures PolledAll(w, rs).Going? ==> PolledAll(w, rs) == Going(|rs|, 0)
    decreases |rs|
  {
    if rs != [] {
      assert rs[|rs| - 1] in rs && forall r :: r in rs[..|rs| - 1] ==> r in rs;
      SilenceExactly(w, rs[..|rs| - 1]);
    }
  }

  /** Refusals since the panel was last silent; answers in between do not count them down. */
  function Refusals(rs: seq<Reply>): nat {
    if rs == [] || rs[|rs| - 1].Silence? then 0
    else Refusals(rs[..|rs| - 1]) + if rs[|rs| - 1].Refusal? then 1 else 0
  }

  /** Tries since the last answer. */
  function Unanswered(rs: seq<Reply>): nat {
    if rs == [] || rs[|rs| - 1].Answer? then 0 else Unanswered(rs[..|rs| - 1]) + 1
  }

  /** The panel counts as lost: three refusals, or too long without an answer. */
  predicate Lost(w: Watch, rs: seq<Reply>) {
    Refusals(rs) >= 3 || Unanswered(rs) >= if w.expectGone && w.MaxErrors() > 10 then 10 else w.MaxErrors()
  }

  ghost predicate EverLost(w: Watch, rs: seq<Reply>) {
    exists k :: 0 <= k <= |rs| && Lost(w, rs[..k])
  }

  /** As long as no answer decides it, the watch ends exactly when the panel counts as lost, and never with a result. */
  lemma {:induction false} GivesUpExactlyWhen(w: Watch, rs: seq<Reply>)
    requires forall r :: r in rs ==> r.Answer? ==> r.known && !r.done
    ensures PolledAll(w, rs).Finished? <==> EverLost(w, rs)
    ensures PolledAll(w, rs).Finished? ==> PolledAll(w, rs).result in {Gone, Offline}
    ensures PolledAll(w, rs).Going? ==> PolledAll(w, rs) == Going(Unanswered(rs), Refusals(rs))
    decreases |rs|
  {
    hide Lost;
    if rs == [] {
      assert rs[..0] == [];
      NothingLost(w);
      assert !EverLost(w, rs);
    } else {
      var front, last := rs[..|rs| - 1], rs[|rs| - 1];
      assert last in rs && forall r :: r in front ==> r in rs;
      GivesUpExactlyWhen(w, front);
      LostNow(w, rs);
      if PolledAll(w, front).Going? {
        assert front[..|front|] == front;
        OneStep(w, rs);
      }
    }
  }

  lemma NothingLost(w: Watch)
    ensures !Lost(w, [])
  {
  }

  /** Lost by now is lost before or just now. */
  lemma LostNow(w: Watch, rs: seq<Reply>)
    requires rs != []
    ensures EverLost(w, rs) <==> EverLost(w, rs[..|rs| - 1]) || Lost(w, rs)
  {
    hide Lost;
    var front := rs[..|rs| - 1];
    forall k | 0 <= k <= |front|
      ensures front[..k] == rs[..k]
    {
    }
    assert rs[..|rs|] == rs;
    if EverLost(w, front) {
      var k :| 0 <= k <= |front| && Lost(w, front[..k]);
      assert Lost(w, rs[..k]);
    }
    if EverLost(w, rs) {
      var k :| 0 <= k <= |rs| && Lost(w, rs[..k]);
      if k < |rs| {
        assert Lost(w, front[..k]);
      }
    }
  }

  /** What one more reply makes of a watch that goes on. */
  lemma OneStep(w: Watch, rs: seq<Reply>)
    requires rs != [] && (rs[|rs| - 1].Answer? ==> rs[|rs| - 1].known && !rs[|rs| - 1].done)
    requires var front := rs[..|rs| - 1];
             PolledAll(w, front) == Going(Unanswered(front), Refusals(front)) && !Lost(w, front)
    ensures PolledAll(w, rs).Finished? <==> Lost(w, rs)
    ensures PolledAll(w, rs).Finished? ==> PolledAll(w, rs).result in {Gone, Offline}
    ensures PolledAll(w, rs).Going? ==> PolledAll(w, rs) == Going(Unanswered(rs), Refusals(rs))
  {
  }

  /** Three refusals in a job's whole life end the watch, however many good answers came between them. */
  lemma {:induction false} RefusalsAddUp(w: Watch, rs: seq<Reply>)
    requires forall r :: r in rs ==> r == Refusal || r == Answer(false, true, false)
    ensures PolledAll(w, rs) == Finished(Offline) <==> Refusals(rs) >= 3
    ensures PolledAll(w, rs).Finished? ==> PolledAll(w, rs) == Finished(Offline)
    ensures PolledAll(w, rs).Going? ==>
            PolledAll(w, rs).refusals == Refusals(rs) && PolledAll(w, rs).errors <= Refusals(rs)
    decreases |rs|
  {
    if rs != [] {
      var front, last := rs[..|rs| - 1], rs[|rs| - 1];
      assert last in rs && forall r :: r in front ==> r in rs;
      RefusalsAddUp(w, front);
    }
  }
}
