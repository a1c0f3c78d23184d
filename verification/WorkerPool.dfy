/**
 * internal/checker/checker.go: the worker pool of Run as a state machine over every
 * interleaving, the options it starts from and the summary of what it returns.
 */
module WorkerPool {
  datatype Status = Live | Dead | Invalid | Blank

  /** The part of a result the pool and the summary look at. */
  datatype Outcome = Outcome(input: string, status: Status)

  const ZERO := Outcome("", Blank)

  // ---- the machine

  /** Concurrency is the number of workers; `may` relates an input to what checking it can yield. */
  datatype Job = Job(inputs: seq<string>, workers: nat, may: (string, Outcome) -> bool)

  datatype Worker = Idle | Checking(i: nat) | Reporting(i: nat) | Gone

  datatype Main = Sending | Waiting | Returned

  /**
   * `next` is the first index not handed out. `cancelled` is the context, `aborted`
   * records that the cancel branch was taken, `writes` the slots in the order they were
   * written and `reports` what the callback was given.
   */
  datatype Pool = Pool(main: Main, next: nat, workers: seq<Worker>, results: seq<Outcome>,
                       cancelled: bool, aborted: bool, writes: seq<nat>, reports: seq<(nat, Outcome)>)

  datatype Step =
    | Interrupt | Send(w: nat) | Close | Cancel | Finish(w: nat, r: Outcome) | Report(w: nat) | Exit(w: nat) | Return

  function Init(job: Job): Pool {
    Pool(Sending, 0, seq(job.workers, _ => Idle), seq(|job.inputs|, _ => ZERO), false, false, [], [])
  }

  ghost predicate Enabled(job: Job, s: Pool, step: Step) {
    match step
    case Interrupt => !s.cancelled
    case Send(w) => s.main.Sending? && s.next < |job.inputs| && w < |s.workers| && s.workers[w].Idle?
    case Close => s.main.Sending? && s.next == |job.inputs|
    case Cancel => s.main.Sending? && s.next < |job.inputs| && s.cancelled
    case Finish(w, r) =>
      && w < |s.workers| && s.workers[w].Checking?
      && s.workers[w].i < |job.inputs| && |s.results| == |job.inputs| && job.may(job.inputs[s.workers[w].i], r)
    case Report(w) => w < |s.workers| && s.workers[w].Reporting? && s.workers[w].i < |s.results|
    case Exit(w) => !s.main.Sending? && w < |s.workers| && s.workers[w].Idle?
    case Return => s.main.Waiting? && forall w :: 0 <= w < |s.workers| ==> s.workers[w].Gone?
  }

  ghost function Apply(job: Job, s: Pool, step: Step): Pool
    requires Enabled(job, s, step)
  {
    match step
    case Interrupt => s.(cancelled := true)
    case Send(w) => s.(workers := s.workers[w := Checking(s.next)], next := s.next + 1)
    case Close => s.(main := Waiting)
    case Cancel => s.(main := Waiting, aborted := true)
    case Finish(w, r) =>
      var i := s.workers[w].i;
      s.(workers := s.workers[w := Reporting(i)], results := s.results[i := r], writes := s.writes + [i])
    case Report(w) =>
      var i := s.workers[w].i;
      s.(workers := s.workers[w := Idle], reports := s.reports + [(i, s.results[i])])
    case Exit(w) => s.(workers := s.workers[w := Gone])
    case Return => s.(main := Returned)
  }

  ghost predicate Run(job: Job, s: Pool, steps: seq<Step>, t: Pool)
    decreases |steps|
  {
    if steps == [] then s == t
    else Enabled(job, s, steps[0]) && Run(job, Apply(job, s, steps[0]), steps[1..], t)
  }

  // ---- the invariant, clause by clause

  ghost predicate Holds(k: Worker, i: nat) { k == Checking(i) || k == Reporting(i) }

  ghost predicate Sized(job: Job, s: Pool) {
    |s.workers| == job.workers && |s.results| == |job.inputs| && s.next <= |job.inputs|
  }

  /** Two workers never hold the same index. */
  ghost predicate Exclusive(s: Pool) {
    forall v, w, i: nat :: 0 <= v < |s.workers| && 0 <= w < |s.workers| && Holds(s.workers[v], i) && Holds(s.workers[w], i) ==> v == w
  }

  ghost predicate Distinct(xs: seq<nat>) {
    forall a, b :: 0 <= a < b < |xs| ==> xs[a] != xs[b]
  }

  ghost predicate Reported(s: Pool, i: nat) { exists k :: 0 <= k < |s.reports| && s.reports[k].0 == i }

  /** A worker that checks has not written its slot; one that reports has, and has not reported it. */
  ghost predicate WorkersAgree(s: Pool) {
    forall w :: 0 <= w < |s.workers| ==>
      && (s.workers[w].Checking? ==> s.workers[w].i < s.next && s.workers[w].i !in s.writes)
      && (s.workers[w].Reporting? ==> s.workers[w].i in s.writes && !Reported(s, s.workers[w].i))
      && (s.workers[w].Gone? ==> !s.main.Sending?)
  }

  /** No index that was handed out is lost. */
  ghost predicate Accounted(s: Pool) {
    && (forall i: nat :: i < s.next && i !in s.writes ==> exists w :: 0 <= w < |s.workers| && s.workers[w] == Checking(i))
    && (forall i: nat :: i in s.writes && !Reported(s, i) ==> exists w :: 0 <= w < |s.workers| && s.workers[w] == Reporting(i))
  }

  /** Every slot is written at most once, with a result of its own input; the others are zero. */
  ghost predicate SlotsRight(job: Job, s: Pool)
    requires Sized(job, s)
  {
    && Distinct(s.writes)
    && (forall i :: i in s.writes ==> i < s.next)
    && (forall i :: 0 <= i < |s.results| ==>
          if i in s.writes then job.may(job.inputs[i], s.results[i]) else s.results[i] == ZERO)
  }

  /** The callback sees each written slot at most once, with its final contents. */
  ghost predicate ReportsRight(s: Pool) {
    && (forall k :: 0 <= k < |s.reports| ==>
          s.reports[k].0 in s.writes && s.reports[k].0 < |s.results| && s.reports[k].1 == s.results[s.reports[k].0])
    && (forall a, b :: 0 <= a < b < |s.reports| ==> s.reports[a].0 != s.reports[b].0)
  }

  ghost predicate MainRight(job: Job, s: Pool) {
    && (s.aborted ==> s.cancelled && !s.main.Sending?)
    && (!s.main.Sending? && !s.aborted ==> s.next == |job.inputs|)
    && (s.main.Returned? ==> forall w :: 0 <= w < |s.workers| ==> s.workers[w].Gone?)
  }

  ghost predicate Inv(job: Job, s: Pool) {
    && Sized(job, s) && Exclusive(s) && WorkersAgree(s) && Accounted(s)
    && SlotsRight(job, s) && ReportsRight(s) && MainRight(job, s)
  }

  lemma InitHolds(job: Job)
    ensures Inv(job, Init(job))
  {}

  lemma SendKeeps(job: Job, s: Pool, w: nat)
    requires Inv(job, s) && Enabled(job, s, Send(w))
    ensures Inv(job, Apply(job, s, Send(w)))
  {
    var t := Apply(job, s, Send(w));
    assert forall i: nat :: Reported(t, i) == Reported(s, i);
    assert t.workers[w] == Checking(s.next);
    forall i: nat | i < t.next && i !in t.writes
      ensures exists v :: 0 <= v < |t.workers| && t.workers[v] == Checking(i)
    {
      if i < s.next {
        var v :| 0 <= v < |s.workers| && s.workers[v] == Checking(i);
        assert t.workers[v] == Checking(i);
      }
    }
    forall i: nat | i in t.writes && !Reported(t, i)
      ensures exists v :: 0 <= v < |t.workers| && t.workers[v] == Reporting(i)
    {
      var v :| 0 <= v < |s.workers| && s.workers[v] == Reporting(i);
      assert t.workers[v] == Reporting(i);
    }
  }

  /** Nobody else holds the index a worker holds. */
  lemma Others(s: Pool, v: nat, w: nat)
    requires Exclusive(s) && v < |s.workers| && w < |s.workers| && v != w
    requires !s.workers[v].Idle? && !s.workers[v].Gone? && !s.workers[w].Idle? && !s.workers[w].Gone?
    ensures s.workers[v].i != s.workers[w].i
  {
    assert Holds(s.workers[v], s.workers[v].i) && Holds(s.workers[w], s.workers[w].i);
  }

  lemma FinishWorkers(job: Job, s: Pool, w: nat, r: Outcome)
    requires Inv(job, s) && Enabled(job, s, Finish(w, r))
    ensures
      var t := Apply(job, s, Finish(w, r));
      Exclusive(t) && WorkersAgree(t)
  {
    hide SlotsRight, ReportsRight, MainRight;
    var t := Apply(job, s, Finish(w, r));
    var j := s.workers[w].i;
    assert forall i: nat :: Reported(t, i) == Reported(s, i);
    assert forall i: nat :: i in t.writes <==> i in s.writes || i == j;
    assert !Reported(s, j) by { if Reported(s, j) { ReportsWritten(job, s, j); } }
    forall v | 0 <= v < |s.workers| && v != w && s.workers[v].Checking?
      ensures s.workers[v].i != j
    {
      Others(s, v, w);
    }
  }

  lemma ReportsWritten(job: Job, s: Pool, i: nat)
    requires Inv(job, s) && Reported(s, i)
    ensures i in s.writes
  {}

  lemma FinishAccounted(job: Job, s: Pool, w: nat, r: Outcome)
    requires Inv(job, s) && Enabled(job, s, Finish(w, r))
    ensures Accounted(Apply(job, s, Finish(w, r)))
  {
    hide SlotsRight, ReportsRight, MainRight, WorkersAgree, Exclusive;
    var t := Apply(job, s, Finish(w, r));
    var j := s.workers[w].i;
    assert forall i: nat :: Reported(t, i) == Reported(s, i);
    assert forall i: nat :: i in t.writes <==> i in s.writes || i == j;
    assert t.workers[w] == Reporting(j);
    forall i: nat | i < t.next && i !in t.writes
      ensures exists v :: 0 <= v < |t.workers| && t.workers[v] == Checking(i)
    {
      var v :| 0 <= v < |s.workers| && s.workers[v] == Checking(i);
      assert t.workers[v] == Checking(i);
    }
    forall i: nat | i in t.writes && !Reported(t, i)
      ensures exists v :: 0 <= v < |t.workers| && t.workers[v] == Reporting(i)
    {
      if i != j {
        var v :| 0 <= v < |s.workers| && s.workers[v] == Reporting(i);
        assert t.workers[v] == Reporting(i);
      }
    }
  }

  lemma FinishSlots(job: Job, s: Pool, w: nat, r: Outcome)
    requires Inv(job, s) && Enabled(job, s, Finish(w, r))
    ensures
      var t := Apply(job, s, Finish(w, r));
      Sized(job, t) && SlotsRight(job, t) && ReportsRight(t)
  {
    hide Accounted, MainRight, Exclusive;
    var t := Apply(job, s, Finish(w, r));
    var j := s.workers[w].i;
    assert forall i: nat :: i in t.writes <==> i in s.writes || i == j;
  }

  lemma FinishKeeps(job: Job, s: Pool, w: nat, r: Outcome)
    requires Inv(job, s) && Enabled(job, s, Finish(w, r))
    ensures Inv(job, Apply(job, s, Finish(w, r)))
  {
    hide SlotsRight, ReportsRight, WorkersAgree, Exclusive, Accounted;
    FinishWorkers(job, s, w, r);
    FinishAccounted(job, s, w, r);
    FinishSlots(job, s, w, r);
  }

  lemma ReportedAfter(job: Job, s: Pool, w: nat, i: nat)
    requires Enabled(job, s, Report(w))
    ensures Reported(Apply(job, s, Report(w)), i) == (Reported(s, i) || i == s.workers[w].i)
  {
    var t := Apply(job, s, Report(w));
    assert t.reports[|s.reports|].0 == s.workers[w].i;
    if Reported(s, i) {
      var k :| 0 <= k < |s.reports| && s.reports[k].0 == i;
      assert t.reports[k].0 == i;
    }
  }

  lemma ReportAgrees(job: Job, s: Pool, w: nat)
    requires Inv(job, s) && Enabled(job, s, Report(w))
    ensures WorkersAgree(Apply(job, s, Report(w)))
  {
    hide SlotsRight, ReportsRight, MainRight, Accounted, Reported, Exclusive;
    var t := Apply(job, s, Report(w));
    forall v | 0 <= v < |t.workers| && t.workers[v].Reporting?
      ensures !Reported(t, t.workers[v].i)
    {
      Others(s, v, w);
      ReportedAfter(job, s, w, s.workers[v].i);
    }
  }

  lemma ReportAccounted(job: Job, s: Pool, w: nat)
    requires Inv(job, s) && Enabled(job, s, Report(w))
    ensures Accounted(Apply(job, s, Report(w)))
  {
    hide SlotsRight, ReportsRight, MainRight, WorkersAgree, Reported, Exclusive;
    var t := Apply(job, s, Report(w));
    forall i: nat | i < t.next && i !in t.writes
      ensures exists v :: 0 <= v < |t.workers| && t.workers[v] == Checking(i)
    {
      var v :| 0 <= v < |s.workers| && s.workers[v] == Checking(i);
      assert t.workers[v] == Checking(i);
    }
    forall i: nat | i in t.writes && !Reported(t, i)
      ensures exists v :: 0 <= v < |t.workers| && t.workers[v] == Reporting(i)
    {
      ReportedAfter(job, s, w, i);
      var v :| 0 <= v < |s.workers| && s.workers[v] == Reporting(i);
      assert t.workers[v] == Reporting(i);
    }
  }

  lemma ReportKeeps(job: Job, s: Pool, w: nat)
    requires Inv(job, s) && Enabled(job, s, Report(w))
    ensures Inv(job, Apply(job, s, Report(w)))
  {
    hide WorkersAgree, Accounted;
    ReportAgrees(job, s, w);
    ReportAccounted(job, s, w);
    ReportsOnce(job, s, w);
  }

  lemma ReportsOnce(job: Job, s: Pool, w: nat)
    requires Inv(job, s) && Enabled(job, s, Report(w))
    ensures ReportsRight(Apply(job, s, Report(w)))
  {
    hide Accounted, Exclusive, MainRight, SlotsRight;
    var j := s.workers[w].i;
    assert !Reported(s, j);
    assert forall k :: 0 <= k < |s.reports| ==> s.reports[k].0 != j;
  }

  lemma ExitKeeps(job: Job, s: Pool, w: nat)
    requires Inv(job, s) && Enabled(job, s, Exit(w))
    ensures Inv(job, Apply(job, s, Exit(w)))
  {
    var t := Apply(job, s, Exit(w));
    assert forall i: nat :: Reported(t, i) == Reported(s, i);
    assert forall v :: 0 <= v < |s.workers| && v != w ==> t.workers[v] == s.workers[v];
    forall i: nat | i < t.next && i !in t.writes
      ensures exists v :: 0 <= v < |t.workers| && t.workers[v] == Checking(i)
    {
      var v :| 0 <= v < |s.workers| && s.workers[v] == Checking(i);
      assert t.workers[v] == Checking(i);
    }
    forall i: nat | i in t.writes && !Reported(t, i)
      ensures exists v :: 0 <= v < |t.workers| && t.workers[v] == Reporting(i)
    {
      var v :| 0 <= v < |s.workers| && s.workers[v] == Reporting(i);
      assert t.workers[v] == Reporting(i);
    }
  }

  lemma MainKeeps(job: Job, s: Pool, step: Step)
    requires Inv(job, s) && Enabled(job, s, step) && (step.Interrupt? || step.Close? || step.Cancel? || step.Return?)
    ensures Inv(job, Apply(job, s, step))
  {
    var t := Apply(job, s, step);
    assert forall i: nat :: Reported(t, i) == Reported(s, i);
  }

  lemma StepKeeps(job: Job, s: Pool, step: Step)
    requires Inv(job, s) && Enabled(job, s, step)
    ensures Inv(job, Apply(job, s, step))
  {
    hide Inv, Enabled, Apply;
    match step
    case Send(w) => SendKeeps(job, s, w);
    case Finish(w, r) => FinishKeeps(job, s, w, r);
    case Report(w) => ReportKeeps(job, s, w);
    case Exit(w) => ExitKeeps(job, s, w);
    case _ => MainKeeps(job, s, step);
  }

  /** Every interleaving keeps the invariant. */
  lemma {:induction false} RunKeeps(job: Job, s: Pool, steps: seq<Step>, t: Pool)
    requires Inv(job, s) && Run(job, s, steps, t)
    ensures Inv(job, t)
    decreases |steps|
  {
    hide Inv, Enabled, Apply;
    if steps != [] {
      StepKeeps(job, s, steps[0]);
      RunKeeps(job, Apply(job, s, steps[0]), steps[1..], t);
    }
  }

  /** Once every worker is gone, exactly the indices handed out were written and reported. */
  lemma AllDone(job: Job, t: Pool)
    requires Inv(job, t) && t.main.Returned?
    ensures forall i: nat :: i in t.writes <==> i < t.next
    ensures forall i: nat :: Reported(t, i) <==> i < t.next
  {
    hide Exclusive, Reported;
    assert forall i: nat :: i < t.next ==> i in t.writes;
    forall i: nat
      ensures Reported(t, i) <==> i < t.next
    {
      if Reported(t, i) { ReportsWritten(job, t, i); }
    }
  }

  lemma ReportedOnce(t: Pool, n: nat)
    requires forall i: nat :: Reported(t, i) <==> i < n
    requires forall a, b :: 0 <= a < b < |t.reports| ==> t.reports[a].0 != t.reports[b].0
    ensures |t.reports| == n
  {
    var told := seq(|t.reports|, k requires 0 <= k < |t.reports| => t.reports[k].0);
    forall i: nat ensures i in told <==> i < n {
      if i < n {
        assert Reported(t, i);
        var k :| 0 <= k < |t.reports| && t.reports[k].0 == i;
        assert told[k] == i;
      }
      if i in told {
        var k :| 0 <= k < |told| && told[k] == i;
        assert t.reports[k].0 == i;
        assert Reported(t, i);
      }
    }
    CountDistinct(told, n);
  }

  /**
   * What Run returns, on every run: each index below `next` was handed out, written once
   * with a result of its own input and reported once with it; every other slot is zero;
   * and without the cancel branch every slot is filled.
   */
  lemma ReturnsResults(job: Job, steps: seq<Step>, t: Pool)
    requires Run(job, Init(job), steps, t) && t.main.Returned?
    ensures |t.results| == |job.inputs| && t.next <= |job.inputs|
    ensures Distinct(t.writes) && forall i: nat :: i in t.writes <==> i < t.next
    ensures forall i :: 0 <= i < t.next ==> job.may(job.inputs[i], t.results[i]) && (i, t.results[i]) in t.reports
    ensures forall i :: t.next <= i < |job.inputs| ==> t.results[i] == ZERO
    ensures |t.reports| == |t.writes| == t.next
    ensures t.next < |job.inputs| ==> t.aborted && t.cancelled
  {
    hide Run, Apply, Enabled, Init, Exclusive, WorkersAgree, Accounted, Distinct, Reported;
    InitHolds(job);
    RunKeeps(job, Init(job), steps, t);
    AllDone(job, t);
    CountDistinct(t.writes, t.next);
    ReportedOnce(t, t.next);
    forall i: nat | i < t.next
      ensures (i, t.results[i]) in t.reports
    {
      ReportFound(t, i);
    }
  }

  lemma ReportFound(t: Pool, i: nat)
    requires ReportsRight(t) && Reported(t, i) && i < |t.results|
    ensures (i, t.results[i]) in t.reports
  {
    var k :| 0 <= k < |t.reports| && t.reports[k].0 == i;
    assert t.reports[k] == (i, t.results[i]);
  }

  lemma Member(xs: seq<nat>, k: nat)
    requires k < |xs|
    ensures xs[k] in xs
  {}

  /** A sequence that names each number below n once, and no other, has n elements. */
  lemma {:induction false} CountDistinct(xs: seq<nat>, n: nat)
    requires Distinct(xs) && forall i: nat :: i in xs <==> i < n
    ensures |xs| == n
    decreases n
  {
    if n == 0 {
      if xs != [] { Member(xs, 0); }
    } else {
      assert n - 1 in xs;
      var k :| 0 <= k < |xs| && xs[k] == n - 1;
      var rest := xs[..k] + xs[k + 1..];
      assert forall a :: 0 <= a < |rest| ==> rest[a] == if a < k then xs[a] else xs[a + 1];
      forall i: nat ensures i in rest <==> i < n - 1 {
        if i in rest {
          var a :| 0 <= a < |rest| && rest[a] == i;
          assert xs[if a < k then a else a + 1] in xs;
        }
        if i < n - 1 {
          assert i in xs;
          var a :| 0 <= a < |xs| && xs[a] == i;
          assert rest[if a < k then a else a - 1] == i;
        }
      }
      CountDistinct(rest, n - 1);
    }
  }

  // ---- progress

  /** No step of the program itself is possible; only the context could still change. */
  ghost predicate Stuck(job: Job, s: Pool) {
    forall step: Step :: Enabled(job, s, step) ==> step.Interrupt?
  }

  /** Checking an input comes to some result. */
  ghost predicate Total(job: Job) {
    forall i :: 0 <= i < |job.inputs| ==> exists r :: job.may(job.inputs[i], r)
  }

  lemma BusyMoves(job: Job, s: Pool, w: nat) returns (step: Step)
    requires Total(job) && Inv(job, s) && w < |s.workers| && (s.workers[w].Checking? || s.workers[w].Reporting?)
    ensures Enabled(job, s, step) && !step.Interrupt?
  {
    if s.workers[w].Checking? {
      var r :| job.may(job.inputs[s.workers[w].i], r);
      step := Finish(w, r);
    } else {
      step := Report(w);
    }
  }

  /** With a worker at all, some step is possible until Run returns. */
  lemma Moves(job: Job, s: Pool) returns (step: Step)
    requires Total(job) && Inv(job, s) && !s.main.Returned?
    requires job.workers >= 1 || s.next == |job.inputs| || s.cancelled || !s.main.Sending?
    ensures Enabled(job, s, step) && !step.Interrupt?
  {
    if s.main.Sending? && s.next == |job.inputs| { return Close; }
    if s.main.Sending? && s.cancelled { return Cancel; }
    if w :| 0 <= w < |s.workers| && (s.workers[w].Checking? || s.workers[w].Reporting?) {
      step := BusyMoves(job, s, w);
    } else if s.main.Sending? {
      assert s.workers[0].Idle?;
      return Send(0);
    } else if w :| 0 <= w < |s.workers| && s.workers[w].Idle? {
      return Exit(w);
    } else {
      return Return;
    }
  }

  /**
   * Deadlock, exactly: a state is stuck only after Run has returned, or when there is no
   * worker to take the next input and nobody has cancelled.
   */
  lemma StuckExactly(job: Job, s: Pool)
    requires Total(job) && Inv(job, s)
    ensures Stuck(job, s) <==>
            s.main.Returned? || (job.workers == 0 && s.main.Sending? && s.next < |job.inputs| && !s.cancelled)
  {
    if !(s.main.Returned? || (job.workers == 0 && s.main.Sending? && s.next < |job.inputs| && !s.cancelled)) {
      var step := Moves(job, s);
    }
  }

  function Weight(k: Worker): nat {
    match k case Gone => 0 case Idle => 1 case Reporting(_) => 2 case Checking(_) => 3
  }

  function Load(ks: seq<Worker>): nat {
    if ks == [] then 0 else Weight(ks[0]) + Load(ks[1..])
  }

  lemma {:induction false} LoadUpdate(ks: seq<Worker>, w: nat, k: Worker)
    requires w < |ks|
    ensures Load(ks[w := k]) == Load(ks) - Weight(ks[w]) + Weight(k)
    decreases |ks|
  {
    if w == 0 {
      assert ks[w := k][1..] == ks[1..];
    } else {
      assert ks[w := k][1..] == ks[1..][w - 1 := k];
      LoadUpdate(ks[1..], w - 1, k);
    }
  }

  lemma {:induction false} LoadIdle(n: nat)
    ensures Load(seq(n, _ => Idle)) == n
  {
    if n > 0 {
      assert seq(n, _ => Idle)[1..] == seq(n - 1, _ => Idle);
      LoadIdle(n - 1);
    }
  }

  /** How many steps are left at most; every step counts down by one. */
  function Remaining(job: Job, s: Pool): int {
    3 * (|job.inputs| - s.next) + Load(s.workers)
    + (match s.main case Sending => 2 case Waiting => 1 case Returned => 0) + if s.cancelled then 0 else 1
  }

  lemma StepCountsDown(job: Job, s: Pool, step: Step)
    requires Enabled(job, s, step)
    ensures Remaining(job, Apply(job, s, step)) == Remaining(job, s) - 1
  {
    hide Load;
    match step
    case Send(w) => LoadUpdate(s.workers, w, Checking(s.next));
    case Finish(w, _) => LoadUpdate(s.workers, w, Reporting(s.workers[w].i));
    case Report(w) => LoadUpdate(s.workers, w, Idle);
    case Exit(w) => LoadUpdate(s.workers, w, Gone);
    case _ =>
  }

  lemma {:induction false} RunCountsDown(job: Job, s: Pool, steps: seq<Step>, t: Pool)
    requires Run(job, s, steps, t)
    ensures Remaining(job, t) == Remaining(job, s) - |steps|
    decreases |steps|
  {
    hide Enabled, Apply, Remaining;
    if steps != [] {
      StepCountsDown(job, s, steps[0]);
      RunCountsDown(job, Apply(job, s, steps[0]), steps[1..], t);
    }
  }

  /** Termination: no run is longer than 3 steps an input, one a worker, and three more. */
  lemma RunsAreBounded(job: Job, steps: seq<Step>, t: Pool)
    requires Run(job, Init(job), steps, t)
    ensures |steps| <= 3 * |job.inputs| + job.workers + 3
    ensures t.main.Returned? && !t.cancelled ==> |steps| == 3 * |job.inputs| + job.workers + 2
  {
    hide Run;
    InitHolds(job);
    RunKeeps(job, Init(job), steps, t);
    RunCountsDown(job, Init(job), steps, t);
    LoadIdle(job.workers);
    if t.main.Returned? { LoadGone(t.workers); }
  }

  lemma {:induction false} LoadGone(ks: seq<Worker>)
    requires forall w :: 0 <= w < |ks| ==> ks[w].Gone?
    ensures Load(ks) == 0
  {
    if ks != [] { LoadGone(ks[1..]); }
  }

  /** From every state the workers can bring Run to its return. */
  lemma {:induction false} CanReturn(job: Job, s: Pool) returns (steps: seq<Step>, t: Pool)
    requires Total(job) && Inv(job, s) && job.workers >= 1
    ensures Run(job, s, steps, t) && t.main.Returned?
    decreases Remaining(job, s)
  {
    hide Enabled, Apply, Remaining;
    if s.main.Returned? { return [], s; }
    var step := Moves(job, s);
    StepKeeps(job, s, step);
    StepCountsDown(job, s, step);
    RemainingIsNatural(job, s);
    var rest, end := CanReturn(job, Apply(job, s, step));
    assert ([step] + rest)[1..] == rest;
    return [step] + rest, end;
  }

  lemma RemainingIsNatural(job: Job, s: Pool)
    requires Inv(job, s)
    ensures Remaining(job, s) >= 0
  {}

  // ---- options

  /** Durations in nanoseconds. */
  datatype Options = Options(timeout: int, concurrency: int, attempts: int, minSuccesses: int, retryDelay: int)

  const SECOND := 1_000_000_000

  /** Lines 53-73. */
  function Defaults(o: Options): Options {
    var attempts := if o.attempts <= 0 then 2 else o.attempts;
    var minimum := if o.minSuccesses <= 0 then 1 else o.minSuccesses;
    Options(
      if o.timeout <= 0 then 10 * SECOND else o.timeout,
      if o.concurrency <= 0 then 16 else o.concurrency,
      attempts,
      if minimum > attempts then attempts else minimum,
      if o.retryDelay <= 0 then SECOND / 4 else o.retryDelay)
  }

  /** Sensible options are kept, any others become sensible; so Run never starts without workers. */
  ghost predicate Sensible(o: Options) {
    o.timeout > 0 && o.concurrency >= 1 && 1 <= o.minSuccesses <= o.attempts && o.retryDelay > 0
  }

  lemma DefaultsExactly(o: Options)
    ensures Sensible(Defaults(o)) && (Defaults(o) == o <==> Sensible(o))
    ensures Defaults(Options(0, 0, 0, 0, 0)) == Options(10_000_000_000, 16, 2, 1, 250_000_000)
    ensures
      var d := Defaults(o);
      && (o.timeout > 0 ==> d.timeout == o.timeout) && (o.concurrency > 0 ==> d.concurrency == o.concurrency)
      && (o.attempts > 0 ==> d.attempts == o.attempts) && (o.retryDelay > 0 ==> d.retryDelay == o.retryDelay)
      && (o.minSuccesses > 0 ==> d.minSuccesses == if o.minSuccesses < d.attempts then o.minSuccesses else d.attempts)
  {}

  /** Run itself: after Defaults no reachable state but the returned one is stuck. */
  lemma RunNeverDeadlocks(inputs: seq<string>, o: Options, may: (string, Outcome) -> bool, steps: seq<Step>, t: Pool)
    requires
      var job := Job(inputs, Defaults(o).concurrency, may);
      Total(job) && Run(job, Init(job), steps, t)
    ensures Stuck(Job(inputs, Defaults(o).concurrency, may), t) <==> t.main.Returned?
  {
    hide Run, Stuck, Inv, Init;
    var job := Job(inputs, Defaults(o).concurrency, may);
    InitHolds(job);
    RunKeeps(job, Init(job), steps, t);
    StuckExactly(job, t);
  }

  // ---- the summary

  datatype Summary = Summary(total: nat, live: nat, dead: nat, invalid: nat)

  function Count(rs: seq<Outcome>, p: Status -> bool): nat {
    if rs == [] then 0 else Count(rs[..|rs| - 1], p) + if p(rs[|rs| - 1].status) then 1 else 0
  }

  ghost predicate Summed(rs: seq<Outcome>, s: Summary) {
    && s.total == |rs| && s.live == Count(rs, x => x == Live) && s.dead == Count(rs, x => x == Dead)
    && s.invalid == Count(rs, x => x != Live && x != Dead)
  }

  /** Lines 383-396: every result is counted in exactly one class. */
  method Summarize(rs: seq<Outcome>) returns (s: Summary)
    ensures Summed(rs, s) && s.live + s.dead + s.invalid == s.total
  {
    s := Summary(|rs|, 0, 0, 0);
    for k := 0 to |rs|
      invariant Summed(rs[..k], s.(total := k)) && s.total == |rs|
      invariant s.live + s.dead + s.invalid == k
    {
      assert rs[..k + 1][..k] == rs[..k];
      match rs[k].status {
        case Live => s := s.(live := s.live + 1);
        case Dead => s := s.(dead := s.dead + 1);
        case _ => s := s.(invalid := s.invalid + 1);
      }
    }
    assert rs[..|rs|] == rs;
  }

  lemma {:induction false} CountTail(rs: seq<Outcome>, k: nat, p: Status -> bool)
    requires k <= |rs| && forall i :: k <= i < |rs| ==> p(rs[i].status)
    ensures Count(rs, p) == Count(rs[..k], p) + |rs| - k
    decreases |rs|
  {
    if k < |rs| {
      assert rs[..|rs| - 1][..k] == rs[..k];
      CountTail(rs[..|rs| - 1], k, p);
    } else {
      assert rs[..k] == rs;
    }
  }

  /** Inputs never handed out count as invalid in the summary of what Run returned. */
  lemma CancelledCountInvalid(job: Job, steps: seq<Step>, t: Pool, s: Summary)
    requires Run(job, Init(job), steps, t) && t.main.Returned? && Summed(t.results, s)
    ensures s.total == |job.inputs| == |t.results| && t.next <= |t.results|
    ensures s.invalid == |job.inputs| - t.next + Count(t.results[..t.next], x => x != Live && x != Dead)
  {
    hide Run, Init, Count;
    ReturnsResults(job, steps, t);
    CountTail(t.results, t.next, x => x != Live && x != Dead);
  }
}
