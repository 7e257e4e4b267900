/** The job scheduler as a monitor: the shell thread, the scheduler thread and the completion
    handler interleave at the granularity of critical sections, split where a thread sleeps on
    the condition variable. */
module Scheduler {
  import opened Jobs

  /** Looping: about to call `select_job_to_run`. Asleep and Woken: inside its wait. */
  datatype SchedPc = Looping | Asleep | Woken

  /** `cursor` is the list position of the job the drain command is looking at. */
  datatype ShellPc = Prompt | DrainAsleep(cursor: nat) | DrainWoken(cursor: nat) | Exited

  /** `children` are the live child processes and `pids` every pid handed out so far.
      `started` records the ids given to `run_job`, in order; `peak` the largest limit so far. */
  datatype State = State(
    jobs: seq<Job>,
    njobs: int,
    nextId: int,
    sched: SchedPc,
    shell: ShellPc,
    crashed: bool,
    children: set<int>,
    pids: seq<int>,
    started: seq<int>,
    peak: int
  )

  /** `Select(pid)` is the scheduler's critical section, with the result its fork would have.
      `Killed` is a child that ends without an exit status, which the handler ignores. */
  datatype Event =
    | Submit
    | RemoveJob(id: int)
    | SetLimit(n: int)
    | Drain
    | DrainResume
    | Select(pid: int)
    | Exit(pid: int, status: int)
    | Killed(pid: int)
    | SpuriousSched
    | SpuriousShell

  const INIT := State([], 1, 1, Looping, Prompt, false, {}, [], [], 1)

  // ---- One step ----

  function Broadcast(s: State): State {
    s.(sched := if s.sched == Asleep then Woken else s.sched,
       shell := if s.shell.DrainAsleep? then DrainWoken(s.shell.cursor) else s.shell)
  }

  /** Between `s` and `t` whoever slept on the condition was woken exactly if there was a broadcast. */
  predicate Wakes(s: State, t: State, broadcast: bool) {
    && (s.sched == Asleep ==> t.sched == if broadcast then Woken else Asleep)
    && (s.shell.DrainAsleep? ==> t.shell == if broadcast then DrainWoken(s.shell.cursor) else s.shell)
    && (s.sched != Asleep ==> t.sched == s.sched)
  }

  /** The drain loop from position `from`: to the first job that is not DONE, or to the end. */
  function DrainFrom(s: State, from: nat): State
    requires from <= |s.jobs|
  {
    var k := First(s.jobs, Undone, from);
    s.(shell := if k == |s.jobs| then Prompt else DrainAsleep(k))
  }

  predicate MayLaunch(s: State) {
    s.jobs != [] && NumRunning(s.jobs) < s.njobs && First(s.jobs, Waiting, 0) < |s.jobs|
  }

  /** One critical section of the scheduler thread. A woken scheduler does not look at the head
      again, so an empty list sends it through a null pointer. */
  function SelectStep(s: State, pid: int): State {
    if s.sched == Looping && s.jobs == [] then s
    else if NumRunning(s.jobs) >= s.njobs then s.(sched := Asleep)
    else if s.jobs == [] then s.(crashed := true)
    else
      var k := First(s.jobs, Waiting, 0);
      if k == |s.jobs| then s.(sched := Looping)
      else s.(sched := Looping,
              jobs := Launch(s.jobs, k, pid),
              children := if pid > 0 then s.children + {pid} else s.children,
              pids := if pid > 0 then s.pids + [pid] else s.pids,
              started := s.started + [s.jobs[k].id])
  }

  predicate Enabled(s: State, e: Event) {
    && !s.crashed && s.shell != Exited
    && match e
       case Submit => s.shell == Prompt
       case RemoveJob(_) => s.shell == Prompt
       case SetLimit(_) => s.shell == Prompt
       case Drain => s.shell == Prompt
       case DrainResume => s.shell.DrainWoken? && s.shell.cursor <= |s.jobs|
       case Select(pid) => s.sched != Asleep && (pid > 0 ==> pid !in s.pids)
       case Exit(pid, _) => pid in s.children
       case Killed(pid) => pid in s.children
       case SpuriousSched => s.sched == Asleep
       case SpuriousShell => s.shell.DrainAsleep?
  }

  function Apply(s: State, e: Event): State
    requires Enabled(s, e)
  {
    match e
    case Submit => s.(jobs := s.jobs + [NewJob(s.nextId)], nextId := s.nextId + 1)
    case RemoveJob(id) =>
      var (jobs, code) := Remove(s.jobs, id);
      s.(jobs := jobs, shell := if code < 0 then Exited else s.shell)
    case SetLimit(n) =>
      if n > 0 then Broadcast(s.(njobs := n, peak := if n > s.peak then n else s.peak)) else s
    case Drain => DrainFrom(s, 0)
    case DrainResume => DrainFrom(s, s.shell.cursor)
    case Select(pid) => SelectStep(s, pid)
    case Exit(pid, status) =>
      var t := s.(jobs := Complete(s.jobs, pid, status), children := s.children - {pid});
      if First(s.jobs, WithPid(pid), 0) < |s.jobs| then Broadcast(t) else t
    case Killed(pid) => s.(children := s.children - {pid})
    case SpuriousSched => s.(sched := Woken)
    case SpuriousShell => s.(shell := DrainWoken(s.shell.cursor))
  }

  // ---- What holds in every reachable state ----

  predicate Increasing(q: seq<int>) {
    forall i, j :: 0 <= i < j < |q| ==> q[i] < q[j]
  }

  predicate IdsOk(s: State) {
    && (forall i, j :: 0 <= i < j < |s.jobs| ==> s.jobs[i].id < s.jobs[j].id)
    && (forall i :: 0 <= i < |s.jobs| ==> s.jobs[i].id < s.nextId)
  }

  /** No waiting job comes before a running or finished one. */
  predicate WaitLast(jobs: seq<Job>) {
    forall i, j :: 0 <= i < j < |jobs| && jobs[i].state == Wait ==> jobs[j].state == Wait
  }

  predicate StartedOk(s: State) {
    && Increasing(s.started)
    && (forall i :: 0 <= i < |s.started| ==> s.started[i] < s.nextId)
    && (forall i, j :: 0 <= i < |s.started| && 0 <= j < |s.jobs| && s.jobs[j].state == Wait
                       ==> s.started[i] < s.jobs[j].id)
  }

  /** A sleeping thread is waiting for something that is really not so. */
  predicate SleepOk(s: State) {
    && (s.sched == Asleep ==> NumRunning(s.jobs) >= s.njobs)
    && (s.shell.DrainAsleep? ==> s.shell.cursor < |s.jobs| && s.jobs[s.shell.cursor].state != Done)
  }

  /** Everything behind the drain cursor is finished. */
  predicate DrainOk(s: State) {
    s.shell.DrainAsleep? || s.shell.DrainWoken? ==>
      && s.shell.cursor < |s.jobs|
      && forall i :: 0 <= i < s.shell.cursor ==> s.jobs[i].state == Done
  }

  predicate PidsOk(s: State) {
    && (forall p :: p in s.children ==> p in s.pids)
    && (forall p :: p in s.pids ==> p > 0)
    && (forall i :: 0 <= i < |s.jobs| ==> s.jobs[i].pid == -1 || s.jobs[i].pid in s.pids)
    && (forall i :: 0 <= i < |s.jobs| && s.jobs[i].state == Wait ==> s.jobs[i].pid == -1)
    && (forall i, j :: 0 <= i < j < |s.jobs| && s.jobs[i].pid > 0 ==> s.jobs[i].pid != s.jobs[j].pid)
  }

  /** Every live child belongs to a running job. */
  ghost predicate ChildrenOk(s: State) {
    forall p :: p in s.children ==> exists i :: 0 <= i < |s.jobs| && s.jobs[i].pid == p && s.jobs[i].state == Run
  }

  predicate LimitOk(s: State) {
    1 <= s.njobs <= s.peak && NumRunning(s.jobs) <= s.peak
  }

  ghost predicate Inv(s: State) {
    IdsOk(s) && WaitLast(s.jobs) && StartedOk(s) && SleepOk(s) && DrainOk(s) && PidsOk(s) && ChildrenOk(s) && LimitOk(s)
  }

  // ---- How the list changes in a step ----

  predicate RemovedAt(jobs: seq<Job>, t: seq<Job>, k: nat)
    requires k < |jobs|
  {
    jobs[k].state != Run && t == jobs[..k] + jobs[k + 1..]
  }

  predicate FinishedAt(jobs: seq<Job>, t: seq<Job>, k: nat, pid: int, status: int)
    requires k < |jobs|
  {
    && jobs[k].state == Run && jobs[k].pid == pid
    && t == jobs[k := jobs[k].(state := Done, exit := status)]
  }

  /** A step leaves the list alone, appends a new job, drops one job that is not running, or
      moves one job on: the first waiting one to RUN, or a running one to DONE. */
  lemma EditCases(s: State, e: Event)
    requires Enabled(s, e) && Inv(s)
    ensures var t := Apply(s, e).jobs;
            || t == s.jobs
            || (e.Submit? && t == s.jobs + [NewJob(s.nextId)])
            || (e.RemoveJob? && exists k :: 0 <= k < |s.jobs| && RemovedAt(s.jobs, t, k))
            || (e.Select? && MayLaunch(s) && t == Launch(s.jobs, First(s.jobs, Waiting, 0), e.pid))
            || (e.Exit? && exists k :: 0 <= k < |s.jobs| && FinishedAt(s.jobs, t, k, e.pid, e.status))
  {
    hide IdsOk, WaitLast, StartedOk, SleepOk, DrainOk, LimitOk;
    if e.RemoveJob? && Remove(s.jobs, e.id).1 == 0 {
      var k := RemoveAt(s.jobs, e.id);
      assert RemovedAt(s.jobs, Apply(s, e).jobs, k);
    } else if e.Exit? {
      ChildIsRunning(s, e.pid);
      assert FinishedAt(s.jobs, Apply(s, e).jobs, First(s.jobs, WithPid(e.pid), 0), e.pid, e.status);
    }
  }

  /** The job that `job_complete` finds for a live child is that child's own, running, job. */
  lemma ChildIsRunning(s: State, pid: int)
    requires Inv(s) && pid in s.children
    ensures var k := First(s.jobs, WithPid(pid), 0);
            k < |s.jobs| && s.jobs[k].pid == pid && s.jobs[k].state == Run
  {
    var i :| 0 <= i < |s.jobs| && s.jobs[i].pid == pid && s.jobs[i].state == Run;
    assert pid > 0;
  }

  // ---- The list clauses of the invariant, under each kind of change ----

  ghost predicate ListOk(s: State) {
    IdsOk(s) && WaitLast(s.jobs) && StartedOk(s) && PidsOk(s) && ChildrenOk(s)
  }

  lemma SubmitKeeps(s: State, t: State)
    requires ListOk(s) && t == s.(jobs := s.jobs + [NewJob(s.nextId)], nextId := s.nextId + 1)
    ensures ListOk(t)
  {
    hide Increasing;
    forall p | p in t.children
      ensures exists i :: 0 <= i < |t.jobs| && t.jobs[i].pid == p && t.jobs[i].state == Run
    {
      var i :| 0 <= i < |s.jobs| && s.jobs[i].pid == p && s.jobs[i].state == Run;
      assert t.jobs[i] == s.jobs[i];
    }
  }

  lemma RemovalKeepsChildren(s: State, t: State, k: nat)
    requires ChildrenOk(s) && k < |s.jobs| && RemovedAt(s.jobs, t.jobs, k) && t.children == s.children
    ensures ChildrenOk(t)
  {
    forall p | p in t.children
      ensures exists i :: 0 <= i < |t.jobs| && t.jobs[i].pid == p && t.jobs[i].state == Run
    {
      var i :| 0 <= i < |s.jobs| && s.jobs[i].pid == p && s.jobs[i].state == Run;
      assert t.jobs[if i < k then i else i - 1] == s.jobs[i];
    }
  }

  lemma RemovalKeeps(s: State, t: State, k: nat)
    requires ListOk(s) && k < |s.jobs| && RemovedAt(s.jobs, t.jobs, k)
    requires t == s.(jobs := t.jobs, shell := t.shell)
    ensures ListOk(t)
  {
    hide Increasing, ChildrenOk, RemovedAt;
    RemovalKeepsChildren(s, t, k);
    RemovedIndex(s.jobs, t.jobs, k);
  }

  lemma RemovedIndex(jobs: seq<Job>, t: seq<Job>, k: nat)
    requires k < |jobs| && RemovedAt(jobs, t, k)
    ensures |t| == |jobs| - 1
    ensures forall i :: 0 <= i < |t| ==> t[i] == jobs[if i < k then i else i + 1]
  {
  }

  lemma LaunchKeepsChildren(s: State, t: State, k: nat, pid: int)
    requires ChildrenOk(s) && k < |s.jobs| && s.jobs[k].state == Wait && t.jobs == Launch(s.jobs, k, pid)
    requires t.children == if pid > 0 then s.children + {pid} else s.children
    ensures ChildrenOk(t)
  {
    forall p | p in t.children
      ensures exists i :: 0 <= i < |t.jobs| && t.jobs[i].pid == p && t.jobs[i].state == Run
    {
      if p in s.children {
        var i :| 0 <= i < |s.jobs| && s.jobs[i].pid == p && s.jobs[i].state == Run;
        assert t.jobs[i] == s.jobs[i];
      } else {
        assert t.jobs[k].pid == p;
      }
    }
  }

  lemma LaunchKeepsStarted(s: State, t: State, k: nat, pid: int)
    requires IdsOk(s) && StartedOk(s) && k < |s.jobs| && s.jobs[k].state == Wait && t.jobs == Launch(s.jobs, k, pid)
    requires forall i :: 0 <= i < k ==> s.jobs[i].state != Wait
    requires t.started == s.started + [s.jobs[k].id] && t.nextId == s.nextId
    ensures IdsOk(t) && StartedOk(t)
  {
    assert forall i :: 0 <= i < |s.jobs| && i != k ==> t.jobs[i] == s.jobs[i];
    assert forall i :: 0 <= i < |s.jobs| ==> t.jobs[i].id == s.jobs[i].id;
  }

  lemma LaunchKeeps(s: State, t: State, pid: int)
    requires ListOk(s) && MayLaunch(s) && (pid > 0 ==> pid !in s.pids)
    requires t == SelectStep(s, pid)
    ensures ListOk(t)
  {
    hide ChildrenOk, StartedOk, IdsOk;
    var k := First(s.jobs, Waiting, 0);
    LaunchKeepsChildren(s, t, k, pid);
    LaunchKeepsStarted(s, t, k, pid);
    assert forall i :: 0 <= i < |s.jobs| && i != k ==> t.jobs[i] == s.jobs[i];
  }

  lemma FinishKeeps(s: State, t: State, k: nat, pid: int, status: int)
    requires ListOk(s) && k < |s.jobs| && FinishedAt(s.jobs, t.jobs, k, pid, status) && pid > 0
    requires t == s.(jobs := t.jobs, children := s.children - {pid}, sched := t.sched, shell := t.shell)
    ensures ListOk(t)
  {
    hide Increasing;
    assert forall i :: 0 <= i < |s.jobs| && i != k ==> t.jobs[i] == s.jobs[i];
    forall p | p in t.children
      ensures exists i :: 0 <= i < |t.jobs| && t.jobs[i].pid == p && t.jobs[i].state == Run
    {
      var i :| 0 <= i < |s.jobs| && s.jobs[i].pid == p && s.jobs[i].state == Run;
      assert t.jobs[i] == s.jobs[i];
    }
  }

  lemma StepKeepsList(s: State, e: Event)
    requires Inv(s) && Enabled(s, e)
    ensures ListOk(Apply(s, e))
  {
    hide Increasing, ChildrenOk, SleepOk, DrainOk, LimitOk, IdsOk, StartedOk;
    var t := Apply(s, e);
    match e
    case Submit => SubmitKeeps(s, t);
    case RemoveJob(id) =>
      if Remove(s.jobs, id).1 == 0 { var k := RemoveAt(s.jobs, id); RemovalKeeps(s, t, k); }
      else { UnchangedList(s, t); }
    case Select(pid) => if MayLaunch(s) { LaunchKeeps(s, t, pid); } else { UnchangedList(s, t); }
    case Exit(pid, status) =>
      ChildIsRunning(s, pid);
      FinishKeeps(s, t, First(s.jobs, WithPid(pid), 0), pid, status);
    case Killed(pid) => KilledKeeps(s, t, pid);
    case _ => UnchangedList(s, t);
  }

  lemma UnchangedList(s: State, t: State)
    requires ListOk(s)
    requires t.jobs == s.jobs && t.nextId == s.nextId && t.children == s.children
    requires t.pids == s.pids && t.started == s.started
    ensures ListOk(t)
  {
  }

  lemma KilledKeeps(s: State, t: State, pid: int)
    requires ListOk(s) && t == s.(children := s.children - {pid})
    ensures ListOk(t)
  {
  }

  // ---- Sleepers and limits ----

  lemma RunningStep(s: State, e: Event)
    requires Inv(s) && Enabled(s, e)
    ensures var t := Apply(s, e);
            NumRunning(t.jobs) == NumRunning(s.jobs)
              + (if e.Select? && MayLaunch(s) then 1 else if e.Exit? then -1 else 0)
  {
    hide Increasing, ChildrenOk, StartedOk, IdsOk;
    match e
    case Submit => CountConcat(s.jobs, [NewJob(s.nextId)]); assert [NewJob(s.nextId)][..0] == [];
    case RemoveJob(id) => RemoveCounts(s.jobs, id);
    case Select(pid) => if MayLaunch(s) { LaunchCounts(s.jobs, First(s.jobs, Waiting, 0), pid); }
    case Exit(pid, status) =>
      ChildIsRunning(s, pid);
      var k := First(s.jobs, WithPid(pid), 0);
      CountUpdate(s.jobs, k, s.jobs[k].(state := Done, exit := status));
    case _ =>
  }

  lemma LaunchCounts(jobs: seq<Job>, k: nat, pid: int)
    requires k < |jobs| && jobs[k].state == Wait
    ensures NumRunning(Launch(jobs, k, pid)) == NumRunning(jobs) + 1
    ensures NumWaiting(Launch(jobs, k, pid)) == NumWaiting(jobs) - 1
  {
    CountUpdate(jobs, k, Launch(jobs, k, pid)[k]);
  }

  lemma CommandKeepsSleep(s: State, e: Event)
    requires Inv(s) && Enabled(s, e) && (e.Submit? || e.RemoveJob? || e.SetLimit?)
    ensures SleepOk(Apply(s, e)) && DrainOk(Apply(s, e))
  {
    hide Increasing, ChildrenOk, StartedOk, IdsOk, WaitLast, PidsOk, NumRunning, First;
    RunningStep(s, e);
  }

  /** The drain loop goes to sleep on an unfinished job or leaves only finished ones behind. */
  lemma DrainKeepsSleep(s: State, from: nat)
    requires SleepOk(s) && from <= |s.jobs| && forall i :: 0 <= i < from ==> s.jobs[i].state == Done
    ensures SleepOk(DrainFrom(s, from)) && DrainOk(DrainFrom(s, from))
  {
    hide NumRunning;
  }

  lemma SelectKeepsSleep(s: State, pid: int)
    requires Inv(s) && Enabled(s, Select(pid))
    ensures SleepOk(Apply(s, Select(pid))) && DrainOk(Apply(s, Select(pid)))
  {
    hide Increasing, ChildrenOk, StartedOk, IdsOk, WaitLast, PidsOk, NumRunning;
  }

  lemma ExitKeepsSleep(s: State, pid: int, status: int)
    requires Inv(s) && Enabled(s, Exit(pid, status))
    ensures SleepOk(Apply(s, Exit(pid, status))) && DrainOk(Apply(s, Exit(pid, status)))
  {
    hide Increasing, StartedOk, IdsOk, WaitLast, PidsOk, NumRunning, First, ChildrenOk;
    ChildIsRunning(s, pid);
  }

  /** No lost wakeup: whatever step is taken, nobody is left asleep on a condition that holds. */
  lemma StepKeepsSleep(s: State, e: Event)
    requires Inv(s) && Enabled(s, e)
    ensures SleepOk(Apply(s, e)) && DrainOk(Apply(s, e))
  {
    hide Increasing, ChildrenOk, StartedOk, IdsOk, WaitLast, PidsOk, NumRunning, First, SelectStep, Remove;
    match e
    case Drain => DrainKeepsSleep(s, 0);
    case DrainResume => DrainKeepsSleep(s, s.shell.cursor);
    case Select(pid) => SelectKeepsSleep(s, pid);
    case Exit(pid, status) => ExitKeepsSleep(s, pid, status);
    case Killed(_) =>
    case SpuriousSched =>
    case SpuriousShell =>
    case _ => CommandKeepsSleep(s, e);
  }

  lemma StepKeepsLimit(s: State, e: Event)
    requires Inv(s) && Enabled(s, e)
    ensures LimitOk(Apply(s, e))
  {
    hide Increasing, ChildrenOk, StartedOk, IdsOk;
    RunningStep(s, e);
  }

  lemma StepKeepsInv(s: State, e: Event)
    requires Inv(s) && Enabled(s, e)
    ensures Inv(Apply(s, e))
  {
    hide Apply, Enabled, IdsOk, WaitLast, StartedOk, SleepOk, DrainOk, PidsOk, ChildrenOk, LimitOk;
    StepKeepsList(s, e);
    StepKeepsSleep(s, e);
    StepKeepsLimit(s, e);
  }

  lemma InitInv()
    ensures Inv(INIT)
  {
  }
}
