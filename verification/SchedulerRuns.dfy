/** What the scheduler promises over whole runs, and where it falls short. */
module SchedulerRuns {
  import opened Jobs
  import opened Scheduler

  /** A run from the freshly created queue: `states[i]` is the state before `events[i]`. */
  ghost predicate Behaviour(states: seq<State>, events: seq<Event>) {
    && |states| == |events| + 1
    && states[0] == INIT
    && forall i :: 0 <= i < |events| ==> StepAt(states, events, i)
  }

  ghost predicate StepAt(states: seq<State>, events: seq<Event>, i: nat)
    requires i < |events| < |states|
  {
    Next(states[i], events[i], states[i + 1])
  }

  ghost predicate Next(s: State, e: Event, t: State) {
    Enabled(s, e) && t == Apply(s, e)
  }

  lemma {:induction false} ReachableInv(states: seq<State>, events: seq<Event>, n: nat)
    requires Behaviour(states, events) && n <= |events|
    ensures Inv(states[n])
  {
    hide Inv, Apply, Enabled;
    if n == 0 {
      InitInv();
    } else {
      ReachableInv(states, events, n - 1);
      assert StepAt(states, events, n - 1);
      StepKeepsInv(states[n - 1], events[n - 1]);
    }
  }

  // ---- Sleepers ----

  /** In every reachable state a sleeping scheduler has no free slot to fill, and a sleeping
      drain is looking at an unfinished job. */
  lemma NoLostWakeup(states: seq<State>, events: seq<Event>, n: nat)
    requires Behaviour(states, events) && n <= |events|
    ensures states[n].sched == Asleep ==> NumRunning(states[n].jobs) >= states[n].njobs >= 1
    ensures states[n].shell.DrainAsleep? ==>
              states[n].shell.cursor < |states[n].jobs| && states[n].jobs[states[n].shell.cursor].state != Done
  {
    ReachableInv(states, events, n);
  }

  // ---- Order ----

  /** Jobs are started in submission order, whatever is removed in between. */
  lemma StartOrder(states: seq<State>, events: seq<Event>, n: nat)
    requires Behaviour(states, events) && n <= |events|
    ensures Increasing(states[n].started)
    ensures forall i, j :: 0 <= i < j < |states[n].jobs| && states[n].jobs[i].state == Wait
              ==> states[n].jobs[j].state == Wait
  {
    ReachableInv(states, events, n);
  }

  // ---- The concurrency limit ----

  /** The number of running jobs never exceeds the largest limit set so far. */
  lemma PeakLimit(states: seq<State>, events: seq<Event>, n: nat)
    requires Behaviour(states, events) && n <= |events|
    ensures NumRunning(states[n].jobs) <= states[n].peak
  {
    ReachableInv(states, events, n);
  }

  /** When the limit is never lowered it is never exceeded. */
  lemma {:induction false} LimitHolds(states: seq<State>, events: seq<Event>, n: nat)
    requires Behaviour(states, events) && n <= |events|
    requires forall i, j :: 0 <= i <= j <= n ==> states[i].njobs <= states[j].njobs
    ensures states[n].njobs == states[n].peak
    ensures NumRunning(states[n].jobs) <= states[n].njobs
  {
    ReachableInv(states, events, n);
    if n > 0 {
      LimitHolds(states, events, n - 1);
      assert states[n - 1].njobs <= states[n].njobs;
      assert StepAt(states, events, n - 1);
      PeakStep(states[n - 1], events[n - 1]);
    }
  }

  /** As long as no command lowers the limit below the number of running jobs, it is kept. */
  lemma {:induction false} LimitKept(states: seq<State>, events: seq<Event>, n: nat)
    requires Behaviour(states, events) && n <= |events|
    requires forall i :: 0 <= i < n ==> !(events[i].SetLimit? && 0 < events[i].n < NumRunning(states[i].jobs))
    ensures NumRunning(states[n].jobs) <= states[n].njobs
  {
    hide Inv, Apply, Enabled, NumRunning;
    if n == 0 {
      NoneRunning();
    } else {
      LimitKept(states, events, n - 1);
      ReachableInv(states, events, n - 1);
      assert StepAt(states, events, n - 1);
      assert !(events[n - 1].SetLimit? && 0 < events[n - 1].n < NumRunning(states[n - 1].jobs));
      LimitBrokenExactly(states[n - 1], events[n - 1]);
    }
  }

  lemma NoneRunning()
    ensures NumRunning(INIT.jobs) == 0 && INIT.njobs == 1
  {
  }

  /** A run that ends over its limit: two jobs are started under limit 2, then it is set to 1. */
  lemma OverLimitRun() returns (states: seq<State>, events: seq<Event>)
    ensures Behaviour(states, events)
    ensures NumRunning(states[|events|].jobs) == 2 && states[|events|].njobs == 1
  {
    events := [SetLimit(2), Submit, Submit, Select(7), Select(8), SetLimit(1)];
    var s1 := INIT.(njobs := 2, peak := 2);
    var s2 := s1.(jobs := [NewJob(1)], nextId := 2);
    var s3 := s1.(jobs := [NewJob(1), NewJob(2)], nextId := 3);
    var s4 := s3.(jobs := [Job(1, 7, Run, -1), NewJob(2)], children := {7}, pids := [7], started := [1]);
    var s5 := s4.(jobs := [Job(1, 7, Run, -1), Job(2, 8, Run, -1)],
                  children := {7, 8}, pids := [7, 8], started := [1, 2]);
    var s6 := s5.(njobs := 1);
    states := [INIT, s1, s2, s3, s4, s5, s6];
    FirstTwoLaunch(s3, s4, s5);
    assert Next(INIT, SetLimit(2), s1) && Next(s1, Submit, s2) && Next(s2, Submit, s3) && Next(s5, SetLimit(1), s6);
    hide Next;
  }

  lemma FirstTwoLaunch(s3: State, s4: State, s5: State)
    requires s3 == INIT.(njobs := 2, peak := 2, jobs := [NewJob(1), NewJob(2)], nextId := 3)
    requires s4 == s3.(jobs := [Job(1, 7, Run, -1), NewJob(2)], children := {7}, pids := [7], started := [1])
    requires s5 == s4.(jobs := [Job(1, 7, Run, -1), Job(2, 8, Run, -1)],
                       children := {7, 8}, pids := [7, 8], started := [1, 2])
    ensures Next(s3, Select(7), s4) && Next(s4, Select(8), s5) && NumRunning(s5.jobs) == 2
  {
    assert s3.jobs[..1][..0] == [] && s4.jobs[..1][..0] == [] && s5.jobs[..1][..0] == [];
    assert NumRunning(s3.jobs) == 0 && NumRunning(s4.jobs) == 1;
    assert First(s3.jobs, Waiting, 0) == 0 && First(s4.jobs, Waiting, 0) == 1;
  }

  lemma PeakStep(s: State, e: Event)
    requires Enabled(s, e)
    ensures Apply(s, e).peak == s.peak || Apply(s, e).peak == Apply(s, e).njobs
    ensures Apply(s, e).peak >= s.peak
    ensures s.njobs == s.peak && s.njobs <= Apply(s, e).njobs ==> Apply(s, e).njobs == Apply(s, e).peak
  {
  }

  /** The only step that takes a state within its limit over it is lowering the limit below the
      number of running jobs. */
  lemma LimitBrokenExactly(s: State, e: Event)
    requires Inv(s) && Enabled(s, e) && NumRunning(s.jobs) <= s.njobs
    ensures NumRunning(Apply(s, e).jobs) > Apply(s, e).njobs
            <==> e.SetLimit? && 0 < e.n < NumRunning(s.jobs)
  {
    RunningStep(s, e);
  }

  // ---- Lives of jobs ----

  function Rank(st: Status): nat {
    match st
    case Wait => 0
    case Run => 1
    case Done => 2
  }

  ghost predicate MovesOn(j: Job, t: seq<Job>) {
    && (forall i :: 0 <= i < |t| && t[i].id == j.id ==> Rank(j.state) <= Rank(t[i].state) <= Rank(j.state) + 1)
    && (j.state == Run ==> exists i :: 0 <= i < |t| && t[i].id == j.id)
  }

  lemma RemovalMoves(jobs: seq<Job>, t: seq<Job>, k: nat, i: nat)
    requires DistinctIds(jobs) && k < |jobs| && i < |jobs| && RemovedAt(jobs, t, k)
    ensures MovesOn(jobs[i], t)
  {
    hide RemovedAt;
    RemovedIndex(jobs, t, k);
    if jobs[i].state == Run {
      assert i != k by { RemovedIsIdle(jobs, t, k); }
      assert t[if i < k then i else i - 1] == jobs[i];
    }
  }

  lemma RemovedIsIdle(jobs: seq<Job>, t: seq<Job>, k: nat)
    requires k < |jobs| && RemovedAt(jobs, t, k)
    ensures jobs[k].state != Run
  {
  }

  lemma InPlaceMoves(jobs: seq<Job>, t: seq<Job>, i: nat)
    requires DistinctIds(jobs) && i < |jobs| <= |t|
    requires forall j :: 0 <= j < |jobs| ==> t[j].id == jobs[j].id
    requires forall j :: 0 <= j < |jobs| ==> Rank(jobs[j].state) <= Rank(t[j].state) <= Rank(jobs[j].state) + 1
    requires forall j :: |jobs| <= j < |t| ==> t[j].id != jobs[i].id
    ensures MovesOn(jobs[i], t)
  {
    assert t[i].id == jobs[i].id;
  }

  /** A job keeps its id and moves at most one stage on in a step, never back, and a running job
      stays in the list. */
  lemma JobsMoveForward(s: State, e: Event, i: nat)
    requires Inv(s) && Enabled(s, e) && i < |s.jobs|
    ensures var j, t := s.jobs[i], Apply(s, e).jobs;
            && (forall k :: 0 <= k < |t| && t[k].id == j.id ==>
                  match j.state
                  case Wait => t[k].state == Wait || t[k].state == Run
                  case Run => t[k].state == Run || t[k].state == Done
                  case Done => t[k].state == Done)
            && (j.state == Run ==> exists k :: 0 <= k < |t| && t[k].id == j.id)
  {
    OneStageOn(s, e, i);
    hide Apply, Enabled, Inv;
  }

  lemma OneStageOn(s: State, e: Event, i: nat)
    requires Inv(s) && Enabled(s, e) && i < |s.jobs|
    ensures MovesOn(s.jobs[i], Apply(s, e).jobs)
  {
    hide Apply, Enabled, WaitLast, StartedOk, SleepOk, DrainOk, PidsOk, ChildrenOk, LimitOk, MovesOn;
    EditCases(s, e);
    var t := Apply(s, e).jobs;
    if e.RemoveJob? && t != s.jobs {
      var k :| 0 <= k < |s.jobs| && RemovedAt(s.jobs, t, k);
      RemovalMoves(s.jobs, t, k, i);
    } else {
      InPlaceMoves(s.jobs, t, i);
    }
  }

  // ---- Drain ----

  /** While the shell drains, the list neither grows nor shrinks nor is reordered. */
  lemma DrainSpine(s: State, e: Event)
    requires Inv(s) && Enabled(s, e) && (s.shell.DrainAsleep? || s.shell.DrainWoken?)
    ensures var t := Apply(s, e);
            |t.jobs| == |s.jobs| && forall i :: 0 <= i < |s.jobs| ==> t.jobs[i].id == s.jobs[i].id
  {
  }

  /** The drain command ends only with every job in the list finished. */
  lemma DrainEnds(s: State, e: Event)
    requires Inv(s) && Enabled(s, e) && Apply(s, e).shell == Prompt
    requires s.shell.DrainAsleep? || s.shell.DrainWoken? || e.Drain?
    ensures forall i :: 0 <= i < |s.jobs| ==> Apply(s, e).jobs[i].state == Done
    ensures |Apply(s, e).jobs| == |s.jobs|
  {
  }

  // ---- Progress ----

  /** Every running job has a live child: no fork failed and no child was killed. */
  predicate Healthy(s: State) {
    forall i :: 0 <= i < |s.jobs| && s.jobs[i].state == Run ==> s.jobs[i].pid in s.children
  }

  /** Steps other than commands that edit the list or the limit, failed forks and killed children. */
  predicate Quiet(e: Event) {
    match e
    case Submit => false
    case RemoveJob(_) => false
    case SetLimit(_) => false
    case Select(pid) => pid > 0
    case Killed(_) => false
    case _ => true
  }

  predicate IsProgress(s: State, e: Event) {
    (e.Select? && MayLaunch(s)) || e.Exit?
  }

  function Measure(s: State): nat {
    2 * NumWaiting(s.jobs) + NumRunning(s.jobs)
  }

  /** A woken scheduler with nothing in the list is about to dereference a null head. */
  predicate Doomed(s: State) {
    s.sched == Woken && s.jobs == []
  }

  predicate Live(s: State) {
    !s.crashed && s.shell != Exited && !Doomed(s)
  }

  /** Each launch and each completion takes exactly one off the measure; no other step but the
      commands that edit the list moves it. */
  lemma MeasureStep(s: State, e: Event)
    requires Inv(s) && Enabled(s, e) && !e.Submit? && !e.RemoveJob?
    ensures Measure(Apply(s, e)) == Measure(s) - if IsProgress(s, e) then 1 else 0
  {
    hide IdsOk, StartedOk, SleepOk, DrainOk, LimitOk;
    match e
    case Select(pid) => if MayLaunch(s) { LaunchCounts(s.jobs, First(s.jobs, Waiting, 0), pid); }
    case Exit(pid, status) =>
      ChildIsRunning(s, pid);
      var k := First(s.jobs, WithPid(pid), 0);
      CountUpdate(s.jobs, k, s.jobs[k].(state := Done, exit := status));
    case _ =>
  }

  /** Neither a failed fork nor a killed child. */
  predicate Smooth(e: Event) {
    !e.Killed? && (e.Select? ==> e.pid > 0)
  }

  lemma RemovalKeepsHealthy(s: State, t: State, k: nat)
    requires Healthy(s) && k < |s.jobs| && RemovedAt(s.jobs, t.jobs, k) && t.children == s.children
    ensures Healthy(t)
  {
    hide RemovedAt;
    RemovedIndex(s.jobs, t.jobs, k);
  }

  /** Every step, commands included, leaves each running job with its child. */
  lemma StepKeepsHealthy(s: State, e: Event)
    requires Inv(s) && Enabled(s, e) && Healthy(s) && Smooth(e)
    ensures Healthy(Apply(s, e))
  {
    hide IdsOk, WaitLast, StartedOk, SleepOk, DrainOk, ChildrenOk, LimitOk;
    match e
    case RemoveJob(id) =>
      if Remove(s.jobs, id).1 == 0 {
        var k := RemoveAt(s.jobs, id);
        RemovalKeepsHealthy(s, Apply(s, e), k);
      }
    case Exit(pid, _) => ChildIsRunning(s, pid);
    case _ =>
  }

  lemma QuietKeeps(s: State, e: Event)
    requires Inv(s) && Enabled(s, e) && Quiet(e) && Healthy(s) && Live(s)
    ensures Healthy(Apply(s, e)) && Live(Apply(s, e))
  {
    hide Healthy, IdsOk, StartedOk, DrainOk, PidsOk, WaitLast, ChildrenOk;
    StepKeepsHealthy(s, e);
    if e.Exit? { ChildIsRunning(s, e.pid); }
  }

  /** A process id that was never used: there is always one, since finitely many were. */
  function FreshPid(pids: seq<int>): (p: int)
    ensures p > 0 && forall i :: 0 <= i < |pids| ==> pids[i] < p
  {
    if pids == [] then 1
    else
      var p, last := FreshPid(pids[..|pids| - 1]), pids[|pids| - 1];
      if last < p then p else last + 1
  }

  /** While work remains the system is not stuck: some launch or completion is enabled. A waiting
      job and a free slot always find the scheduler awake. */
  lemma Progress(s: State) returns (e: Event)
    requires Inv(s) && Healthy(s) && Live(s) && Measure(s) > 0
    ensures Enabled(s, e) && IsProgress(s, e) && (e.Exit? || (e.Select? && e.pid > 0))
    ensures NumRunning(s.jobs) < s.njobs && NumWaiting(s.jobs) > 0 ==> s.sched != Asleep && MayLaunch(s)
  {
    CountNone(s.jobs);
    if NumWaiting(s.jobs) > 0 && First(s.jobs, Waiting, 0) == |s.jobs| { assert false; }
    if NumRunning(s.jobs) > 0 {
      var i :| 0 <= i < |s.jobs| && s.jobs[i].state == Run;
      e := Exit(s.jobs[i].pid, 0);
    } else {
      e := Select(FreshPid(s.pids));
    }
  }

  /** `events` leads from `s` to `t`. */
  ghost predicate Path(s: State, events: seq<Event>, t: State)
    decreases |events|
  {
    if events == [] then s == t
    else Enabled(s, events[0]) && Path(Apply(s, events[0]), events[1..], t)
  }

  /** Only exits of children and runs of the scheduler with a successful fork. */
  predicate OnlyWork(events: seq<Event>) {
    forall i :: 0 <= i < |events| ==> events[i].Exit? || (events[i].Select? && events[i].pid > 0)
  }

  /** How many launches and completions a path contains. */
  ghost function ProgressCount(s: State, events: seq<Event>): nat
    decreases |events|
  {
    if events == [] || !Enabled(s, events[0]) then 0
    else ProgressCount(Apply(s, events[0]), events[1..]) + if IsProgress(s, events[0]) then 1 else 0
  }

  /** Any run without submissions and removals performs exactly as many launches and completions
      as the measure drops, so at most `Measure(s)` of them. */
  lemma {:induction false} ProgressBound(s: State, events: seq<Event>, t: State)
    requires Inv(s) && Path(s, events, t)
    requires forall i :: 0 <= i < |events| ==> !events[i].Submit? && !events[i].RemoveJob?
    ensures Inv(t) && Measure(s) == Measure(t) + ProgressCount(s, events)
    decreases |events|
  {
    hide Inv, Apply, Enabled, Measure, IsProgress;
    if events != [] {
      StepKeepsInv(s, events[0]);
      MeasureStep(s, events[0]);
      ProgressBound(Apply(s, events[0]), events[1..], t);
    }
  }

  /** From any healthy state all the work can be finished, in exactly `Measure(s)` steps. */
  lemma {:induction false} RunsDry(s: State) returns (events: seq<Event>, t: State)
    requires Inv(s) && Healthy(s) && Live(s)
    ensures Path(s, events, t) && OnlyWork(events) && |events| == Measure(s)
    ensures Inv(t) && Healthy(t) && Live(t) && Measure(t) == 0
    ensures forall i :: 0 <= i < |t.jobs| ==> t.jobs[i].state == Done
    decreases Measure(s)
  {
    hide Inv, Apply, Enabled, Healthy, Live, IsProgress;
    if Measure(s) == 0 {
      events, t := [], s;
      CountNone(s.jobs);
    } else {
      var e := Progress(s);
      MeasureStep(s, e);
      StepKeepsInv(s, e);
      QuietKeeps(s, e);
      var rest;
      rest, t := RunsDry(Apply(s, e));
      events := [e] + rest;
      assert events[1..] == rest;
    }
  }

  // ---- Progress in reachable states ----

  ghost predicate AllSmooth(events: seq<Event>, n: nat)
    requires n <= |events|
  {
    forall i :: 0 <= i < n ==> Smooth(events[i])
  }

  /** In every run whose forks succeed and whose children exit, whatever is submitted and removed
      and however the limit is set, every running job has a live child. */
  lemma {:induction false} ReachableHealthy(states: seq<State>, events: seq<Event>, n: nat)
    requires Behaviour(states, events) && n <= |events| && AllSmooth(events, n)
    ensures Healthy(states[n])
  {
    hide Inv, Apply, Enabled, Smooth, Healthy;
    if n == 0 {
      InitHealthy();
    } else {
      ReachableHealthy(states, events, n - 1);
      ReachableInv(states, events, n - 1);
      assert StepAt(states, events, n - 1);
      StepKeepsHealthy(states[n - 1], events[n - 1]);
    }
  }

  lemma InitHealthy()
    ensures Healthy(INIT)
  {
  }

  /** In no state that such a run reaches is the work stuck, unless the shell has quit or the null
      head is about to be read. */
  lemma ReachableProgress(states: seq<State>, events: seq<Event>, n: nat) returns (e: Event)
    requires Behaviour(states, events) && n <= |events| && AllSmooth(events, n)
    requires Live(states[n]) && Measure(states[n]) > 0
    ensures Enabled(states[n], e) && IsProgress(states[n], e) && (e.Exit? || (e.Select? && e.pid > 0))
  {
    hide Inv, Healthy;
    ReachableInv(states, events, n);
    ReachableHealthy(states, events, n);
    e := Progress(states[n]);
  }

  /** From every state that such a run reaches all jobs can be finished, in exactly as many steps
      as the measure says. */
  lemma ReachableRunsDry(states: seq<State>, events: seq<Event>, n: nat) returns (more: seq<Event>, t: State)
    requires Behaviour(states, events) && n <= |events| && AllSmooth(events, n) && Live(states[n])
    ensures Path(states[n], more, t) && OnlyWork(more) && |more| == Measure(states[n])
    ensures forall i :: 0 <= i < |t.jobs| ==> t.jobs[i].state == Done
  {
    hide Inv, Healthy, Path;
    ReachableInv(states, events, n);
    ReachableHealthy(states, events, n);
    more, t := RunsDry(states[n]);
  }

  /** Once the work is finished no drain is left asleep: it has returned or returns when it runs. */
  lemma DrainReturns(s: State)
    requires Inv(s) && Live(s) && Measure(s) == 0
    ensures s.shell == Prompt || (Enabled(s, DrainResume) && Apply(s, DrainResume).shell == Prompt)
  {
    CountNone(s.jobs);
  }

  // ---- The null head ----

  /** A step crashes exactly when the scheduler resumes with an empty list. */
  lemma CrashExactly(s: State, e: Event)
    requires Inv(s) && Enabled(s, e)
    ensures Apply(s, e).crashed <==> Doomed(s) && e.Select?
  {
    assert s.jobs == [] ==> NumRunning(s.jobs) == 0;
  }

  /** The only step into that state removes the sole, finished or waiting, job after the
      scheduler was woken and before it runs again. */
  lemma DoomExactly(s: State, e: Event)
    requires Inv(s) && Enabled(s, e) && !Doomed(s)
    ensures Doomed(Apply(s, e)) <==>
              s.sched == Woken && |s.jobs| == 1 && s.jobs[0].state != Run && e == RemoveJob(s.jobs[0].id)
  {
    assert s.jobs == [] ==> NumRunning(s.jobs) == 0;
  }

  lemma LoneJobRuns(s1: State, s2: State, s3: State)
    requires s1 == INIT.(jobs := [NewJob(1)], nextId := 2)
    requires s2 == s1.(jobs := [Job(1, 7, Run, -1)], children := {7}, pids := [7], started := [1])
    requires s3 == s2.(sched := Asleep)
    ensures Next(s1, Select(7), s2) && Next(s2, Select(8), s3)
  {
    assert NumRunning(s1.jobs) == 0 && NumRunning(s2.jobs) == 1;
    assert First(s1.jobs, Waiting, 0) == 0;
  }

  lemma LoneJobEnds(s3: State, s4: State, s5: State, s6: State)
    requires s3.jobs == [Job(1, 7, Run, -1)] && s3.children == {7} && s3.sched == Asleep && s3.shell == Prompt
    requires !s3.crashed && s3.njobs == 1 && s3.pids == [7]
    requires s4 == s3.(sched := Woken, jobs := [Job(1, 7, Done, 0)], children := {})
    requires s5 == s4.(jobs := []) && s6 == s5.(crashed := true)
    ensures Next(s3, Exit(7, 0), s4) && Next(s4, RemoveJob(1), s5) && Next(s5, Select(8), s6)
  {
    assert First(s3.jobs, WithPid(7), 0) == 0;
    assert NumRunning(s5.jobs) == 0;
  }

  /** A run that crashes: submit one job, let it run to completion while the scheduler sleeps on
      the full limit, and remove it before the woken scheduler gets the mutex back. */
  lemma CrashingRun() returns (states: seq<State>, events: seq<Event>)
    ensures Behaviour(states, events) && states[|events|].crashed
  {
    events := [Submit, Select(7), Select(8), Exit(7, 0), RemoveJob(1), Select(8)];
    var s1 := INIT.(jobs := [NewJob(1)], nextId := 2);
    var s2 := s1.(jobs := [Job(1, 7, Run, -1)], children := {7}, pids := [7], started := [1]);
    var s3 := s2.(sched := Asleep);
    var s4 := s3.(sched := Woken, jobs := [Job(1, 7, Done, 0)], children := {});
    var s5 := s4.(jobs := []);
    var s6 := s5.(crashed := true);
    states := [INIT, s1, s2, s3, s4, s5, s6];
    assert Next(INIT, Submit, s1);
    LoneJobRuns(s1, s2, s3);
    LoneJobEnds(s3, s4, s5, s6);
    hide Next;
  }
}
