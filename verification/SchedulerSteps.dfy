/** What each step of the monitor does to each of its parts, in the terms of the job list alone. */
module SchedulerSteps {
  import opened Jobs
  import opened Scheduler

  /** Position `k` holds the first waiting job. */
  predicate FirstWaiting(jobs: seq<Job>, k: int) {
    0 <= k < |jobs| && jobs[k].state == Wait && forall i :: 0 <= i < k ==> jobs[i].state != Wait
  }

  predicate NoneWaiting(jobs: seq<Job>) {
    forall i :: 0 <= i < |jobs| ==> jobs[i].state != Wait
  }

  /** Are all the slots that the limit allows taken? */
  ghost predicate SlotsTaken(s: State) {
    |InState(s.jobs, Run)| >= s.njobs
  }

  /** An awake scheduler leaves its critical section in one of five ways. It stays inside it, asleep,
      exactly when all slots are taken; otherwise it is back at its loop. */
  lemma SelectExactly(s: State, pid: int, k: int)
    requires s.sched != Asleep && !s.crashed
    ensures var t := SelectStep(s, pid);
            && (s.sched == Looping && s.jobs == [] ==> t == s)
            && (s.sched == Woken || s.jobs != [] ==>
                  && (SlotsTaken(s) ==> t == s.(sched := Asleep))
                  && (!SlotsTaken(s) && s.jobs == [] ==> t == s.(crashed := true))
                  && (!SlotsTaken(s) && s.jobs != [] && NoneWaiting(s.jobs) ==> t == s.(sched := Looping))
                  && (!SlotsTaken(s) && FirstWaiting(s.jobs, k) ==> t == Launched(s, k, pid)))
  {
    CountsPositions(s.jobs);
    if s.jobs != [] && FirstWaiting(s.jobs, k) { assert First(s.jobs, Waiting, 0) == k; }
    if NoneWaiting(s.jobs) { assert First(s.jobs, Waiting, 0) == |s.jobs|; }
  }

  /** `s` with the job at `k` running: as the child `pid` if the fork succeeded, else without one. */
  function Launched(s: State, k: nat, pid: int): State
    requires k < |s.jobs|
  {
    var j := s.jobs[k];
    s.(sched := Looping,
       jobs := s.jobs[k := Job(j.id, if pid > 0 then pid else j.pid, Run, j.exit)],
       children := s.children + (if pid > 0 then {pid} else {}),
       pids := s.pids + (if pid > 0 then [pid] else []),
       started := s.started + [j.id])
  }

  /** Only the null head keeps an awake scheduler from going back to its loop or to sleep. */
  lemma SelectReturns(s: State, pid: int)
    requires s.sched != Asleep && !s.crashed
    ensures var t := SelectStep(s, pid);
            && (t.sched == Woken <==> t.crashed)
            && (t.sched == Looping <==> !t.crashed && t.sched != Asleep)
  {
  }

  /** A new job goes to the end, waiting, with the next id. */
  lemma SubmitExactly(s: State)
    requires Enabled(s, Submit)
    ensures Apply(s, Submit) == s.(jobs := s.jobs + [Job(s.nextId, -1, Wait, -1)], nextId := s.nextId + 1)
  {
  }

  /** A positive limit is set and everyone asleep is woken; any other changes nothing. */
  lemma SetLimitExactly(s: State, n: int)
    requires Enabled(s, SetLimit(n))
    ensures var t := Apply(s, SetLimit(n));
            if n <= 0 then t == s
            else t == s.(njobs := n, peak := if n > s.peak then n else s.peak,
                         sched := if s.sched == Asleep then Woken else s.sched)
  {
  }

  /** The first job with the pid of the child becomes DONE with its status, and everyone asleep is
      woken; the exit of a child that no job belongs to wakes nobody. */
  lemma ExitExactly(s: State, pid: int, status: int, k: nat)
    requires Enabled(s, Exit(pid, status)) && k <= |s.jobs|
    requires forall i :: 0 <= i < k ==> s.jobs[i].pid != pid
    requires k < |s.jobs| ==> s.jobs[k].pid == pid
    ensures var t := Apply(s, Exit(pid, status));
            if k == |s.jobs| then t == s.(children := s.children - {pid})
            else t == s.(jobs := s.jobs[k := Job(s.jobs[k].id, pid, Done, status)],
                         children := s.children - {pid},
                         sched := if s.sched == Asleep then Woken else s.sched,
                         shell := if s.shell.DrainAsleep? then DrainWoken(s.shell.cursor) else s.shell)
  {
    assert First(s.jobs, WithPid(pid), 0) == k;
  }

  /** Being woken: whoever slept is ready to go on, and nobody else is touched. */
  lemma WakesExactly(s: State, t: State, broadcast: bool)
    ensures Wakes(s, t, broadcast)
            <==> && t.sched == (if s.sched == Asleep && broadcast then Woken else s.sched)
                 && (s.shell.DrainAsleep? ==> t.shell == if broadcast then DrainWoken(s.shell.cursor) else s.shell)
  {
  }

  /** A killed child leaves its job as it is. */
  lemma KilledExactly(s: State, pid: int)
    requires Enabled(s, Killed(pid))
    ensures Apply(s, Killed(pid)) == s.(children := s.children - {pid})
  {
  }

  /** Removing touches nothing but the list, and ends the shell on a negative code only. */
  lemma RemovalExactly(s: State, id: int)
    requires Enabled(s, RemoveJob(id))
    ensures var t := Apply(s, RemoveJob(id));
            t == s.(jobs := Remove(s.jobs, id).0, shell := if Remove(s.jobs, id).1 == -1 then Exited else s.shell)
  {
  }

  /** A drain goes to sleep on the first job, from where it is, that is not DONE; without one it
      returns to the prompt. */
  lemma DrainExactly(s: State, e: Event, k: nat)
    requires Enabled(s, e) && (e == Drain || e == DrainResume)
    requires var from := if e == Drain then 0 else s.shell.cursor;
             && from <= k <= |s.jobs|
             && (forall i :: from <= i < k ==> s.jobs[i].state == Done)
             && (k < |s.jobs| ==> s.jobs[k].state != Done)
    ensures Apply(s, e) == s.(shell := if k == |s.jobs| then Prompt else DrainAsleep(k))
  {
    assert First(s.jobs, Undone, if e == Drain then 0 else s.shell.cursor) == k;
  }

  /** A thread may wake without having been woken. */
  lemma SpuriousExactly(s: State)
    ensures Enabled(s, SpuriousSched) ==> Apply(s, SpuriousSched) == s.(sched := Woken)
    ensures Enabled(s, SpuriousShell) ==> Apply(s, SpuriousShell) == s.(shell := DrainWoken(s.shell.cursor))
  {
  }

  /** Which steps are possible in a state that the invariant allows: commands at the prompt, the
      scheduler unless it sleeps, the exit of any live child, and a woken or spuriously waking
      sleeper. A successful fork gives a pid that was never given before. */
  lemma StepsExactly(s: State, id: int, n: int, pid: int, status: int)
    requires Inv(s) && !s.crashed && s.shell != Exited
    ensures Enabled(s, Submit) <==> s.shell == Prompt
    ensures Enabled(s, RemoveJob(id)) <==> s.shell == Prompt
    ensures Enabled(s, SetLimit(n)) <==> s.shell == Prompt
    ensures Enabled(s, Drain) <==> s.shell == Prompt
    ensures Enabled(s, DrainResume) <==> s.shell.DrainWoken?
    ensures Enabled(s, Select(pid)) <==> s.sched != Asleep && (pid <= 0 || pid !in s.pids)
    ensures Enabled(s, Exit(pid, status)) <==> pid in s.children
    ensures Enabled(s, Killed(pid)) <==> pid in s.children
    ensures Enabled(s, SpuriousSched) <==> s.sched == Asleep
    ensures Enabled(s, SpuriousShell) <==> s.shell.DrainAsleep?
  {
  }

  /** After a crash or after the shell has gone there is no step. */
  lemma EndsExactly(s: State, e: Event)
    requires s.crashed || s.shell == Exited
    ensures !Enabled(s, e)
  {
  }

  /** At the start: no job, limit 1, ids from 1. */
  lemma StartExactly()
    ensures INIT.jobs == [] && INIT.njobs == 1 && INIT.nextId == 1 && INIT.sched == Looping && INIT.shell == Prompt
    ensures !INIT.crashed && INIT.children == {} && INIT.pids == [] && INIT.started == [] && INIT.peak == 1
  {
  }
}
