/** The linked list of jobs, updated in place, proved against the sequence operations and the
    monitor's step functions. */
module JobQueue {
  import opened Jobs
  import Scheduler

  class Node {
    var id: int
    var pid: int
    var next: Node?
    var state: Status
    var exit: int

    constructor (id: int)
      ensures Value() == NewJob(id) == Job(id, -1, Wait, -1) && next == null
    {
      this.id, pid, next, state, exit := id, -1, null, Wait, -1;
    }

    function Value(): Job
      reads this
    {
      Job(id, pid, state, exit)
    }
  }

  /** What one critical section of the scheduler thread did. */
  datatype Outcome = Returned(code: int) | Slept | NullHead

  class Queue {
    var head: Node?
    var njobs: int
    ghost var nodes: seq<Node>

    /** The node at position `i`; null past the end. */
    ghost function At(i: int): Node?
      reads this
    {
      if 0 <= i < |nodes| then nodes[i] else null
    }

    ghost predicate Linked(i: nat)
      requires i < |nodes|
      reads this, nodes
    {
      nodes[i].next == At(i + 1)
    }

    ghost predicate Valid()
      reads this, nodes
    {
      && head == At(0)
      && (forall i :: 0 <= i < |nodes| ==> Linked(i))
      && (forall i, j :: 0 <= i < j < |nodes| ==> nodes[i] != nodes[j])
    }

    ghost function Contents(): seq<Job>
      reads this, nodes
    {
      seq(|nodes|, i requires 0 <= i < |nodes| reads this, nodes => nodes[i].Value())
    }

    /** The list and the limit are those of monitor state `s`. */
    ghost predicate Mirrors(s: Scheduler.State)
      reads this, nodes
    {
      Contents() == s.jobs && njobs == s.njobs
    }

    constructor ()
      ensures Valid() && Contents() == [] && njobs == 1 && Mirrors(Scheduler.INIT)
    {
      head, njobs, nodes := null, 1, [];
    }

    /** `submit`, with the monitor state `s` the section starts from. */
    method QueueJob(job: Node, ghost s: Scheduler.State)
      requires Valid() && job !in nodes && job.next == null && Mirrors(s)
      modifies this, nodes
      ensures Valid() && nodes == old(nodes) + [job] && njobs == old(njobs)
      ensures Contents() == old(Contents()) + [old(job.Value())]
      ensures Scheduler.Enabled(s, Scheduler.Submit) && old(job.Value()) == NewJob(s.nextId)
              ==> Mirrors(Scheduler.Apply(s, Scheduler.Submit))
    {
      if head == null {
        head := job;
      } else {
        var j := head;
        ghost var i := 0;
        while j.next != null
          invariant 0 <= i < |nodes| && j == At(i)
          decreases |nodes| - i
        {
          assert Linked(i);
          j := j.next;
          i := i + 1;
        }
        assert Linked(i);
        j.next := job;
      }
      ghost var before := nodes;
      nodes := nodes + [job];
      forall i | 0 <= i < |nodes| ensures Linked(i) {
        if i < |before| { assert old(Linked(i)); }
      }
    }

    /** `njobs`: takes the monitor through its step, and broadcasts exactly when that step wakes
        whoever sleeps. */
    method SetNjobs(n: int, ghost s: Scheduler.State) returns (broadcast: bool)
      requires Mirrors(s)
      modifies this`njobs
      ensures broadcast <==> n > 0
      ensures njobs == if n > 0 then n else old(njobs)
      ensures Scheduler.Enabled(s, Scheduler.SetLimit(n)) ==>
                && Mirrors(Scheduler.Apply(s, Scheduler.SetLimit(n)))
                && Scheduler.Wakes(s, Scheduler.Apply(s, Scheduler.SetLimit(n)), broadcast)
    {
      broadcast := n > 0;
      if broadcast { njobs := n; }
    }

    method NumJobsRunning() returns (n: nat)
      requires Valid()
      ensures n == NumRunning(Contents())
    {
      n := 0;
      var job := head;
      ghost var i := 0;
      ghost var jobs := Contents();
      while job != null
        invariant 0 <= i <= |nodes| && job == At(i)
        invariant n == NumRunning(jobs[..i])
        decreases |nodes| - i
      {
        assert Linked(i) && jobs[..i + 1][..i] == jobs[..i];
        if job.state == Run { n := n + 1; }
        job := job.next;
        i := i + 1;
      }
      assert jobs[..i] == jobs;
    }

    /** The handler's critical section: the monitor's step for that exit, and its broadcast. */
    method JobComplete(pid: int, status: int, ghost s: Scheduler.State) returns (code: int, broadcast: bool)
      requires Valid() && Mirrors(s)
      modifies nodes
      ensures Valid() && nodes == old(nodes)
      ensures Contents() == Complete(old(Contents()), pid, status)
      ensures broadcast <==> First(old(Contents()), WithPid(pid), 0) < |old(Contents())|
      ensures code == if broadcast then 0 else 2
      ensures Scheduler.Enabled(s, Scheduler.Exit(pid, status)) ==>
                && Mirrors(Scheduler.Apply(s, Scheduler.Exit(pid, status)))
                && Scheduler.Wakes(s, Scheduler.Apply(s, Scheduler.Exit(pid, status)), broadcast)
    {
      var curr := head;
      ghost var i := 0;
      ghost var jobs := Contents();
      while curr != null
        invariant 0 <= i <= |nodes| && curr == At(i)
        invariant First(jobs, WithPid(pid), 0) == First(jobs, WithPid(pid), i)
        decreases |nodes| - i
      {
        assert Linked(i) && jobs[i] == curr.Value();
        if curr.pid == pid {
          curr.state := Done;
          curr.exit := status;
          forall k | 0 <= k < |nodes| ensures Linked(k) { assert old(Linked(k)); }
          assert Contents() == Complete(jobs, pid, status);
          return 0, true;
        }
        curr := curr.next;
        i := i + 1;
      }
      return 2, false;
    }

    method FirstWaiting() returns (job: Node?)
      requires Valid() && head != null
      ensures job == At(First(Contents(), Waiting, 0))
    {
      job := head;
      ghost var i := 0;
      ghost var jobs := Contents();
      while job.state != Wait
        invariant 0 <= i < |nodes| && job == At(i)
        invariant First(jobs, Waiting, 0) == First(jobs, Waiting, i)
        decreases |nodes| - i
      {
        assert Linked(i) && jobs[i] == job.Value();
        job := job.next;
        i := i + 1;
        if job == null { return; }
      }
      assert jobs[i] == job.Value();
    }

    /** `run_job` in the parent: `pid` is what fork returned. */
    method RunJob(job: Node, ghost k: nat, pid: int)
      requires Valid() && k < |nodes| && job == At(k)
      modifies job
      ensures Valid() && nodes == old(nodes) && njobs == old(njobs)
      ensures Contents() == Launch(old(Contents()), k, pid)
    {
      ghost var jobs := Contents();
      job.state := Run;
      if pid > 0 { job.pid := pid; }
      forall i | 0 <= i < |nodes| ensures Linked(i) { assert old(Linked(i)); }
      assert Contents() == Launch(jobs, k, pid);
    }

    /** `select_job_to_run` between two points where the mutex is free; `s` is the monitor state
        the section starts from and `pid` what fork returns. */
    method SelectJob(ghost s: Scheduler.State, woken: bool, pid: int) returns (outcome: Outcome)
      requires Valid() && Mirrors(s)
      requires s.sched == (if woken then Scheduler.Woken else Scheduler.Looping) && !s.crashed
      modifies nodes
      ensures Valid() && nodes == old(nodes)
      ensures Mirrors(Scheduler.SelectStep(s, pid))
      ensures outcome == Slept <==> Scheduler.SelectStep(s, pid).sched == Scheduler.Asleep
      ensures outcome == NullHead <==> Scheduler.SelectStep(s, pid).crashed
      ensures outcome == Returned(0) <==> Scheduler.MayLaunch(s) && pid > 0
      ensures outcome.Returned? ==> outcome.code == 0 || outcome.code == 1
      ensures outcome.Returned? <==> Scheduler.SelectStep(s, pid).sched == Scheduler.Looping
    {
      hide NumRunning, First;
      if !woken && head == null { return Returned(1); }
      var running := NumJobsRunning();
      if running >= njobs { return Slept; }
      if head == null { return NullHead; }
      var job := FirstWaiting();
      if job == null { return Returned(1); }
      RunJob(job, First(Contents(), Waiting, 0), pid);
      outcome := Returned(if pid > 0 then 0 else 1);
    }

    /** The node before the first one behind the head with that id, or before the end. */
    method FindBehindHead(id: int) returns (prev: Node, ghost k: nat)
      requires Valid() && head != null
      ensures 1 <= k == First(Contents(), WithId(id), 1) <= |nodes| && prev == At(First(Contents(), WithId(id), 1) - 1)
    {
      assert Linked(0);
      var job := head.next;
      prev := head;
      k := 1;
      ghost var jobs := Contents();
      while prev.next != null && job.id != id
        invariant 1 <= k <= |nodes| && prev == At(k - 1) && job == prev.next
        invariant First(jobs, WithId(id), 1) == First(jobs, WithId(id), k)
        decreases |nodes| - k
      {
        assert Linked(k - 1) && Linked(k) && jobs[k] == job.Value();
        job := job.next;
        prev := prev.next;
        k := k + 1;
      }
      assert Linked(k - 1);
      assert job != null ==> jobs[k] == job.Value();
    }

    method UnlinkHead()
      requires Valid() && head != null
      modifies this
      ensures Valid() && njobs == old(njobs) && Contents() == old(Contents())[1..]
    {
      ghost var jobs := Contents();
      assert Linked(0);
      head := head.next;
      nodes := nodes[1..];
      forall i | 0 <= i < |nodes| ensures Linked(i) { assert old(Linked(i + 1)); }
      assert Contents() == jobs[1..];
    }

    method UnlinkAfter(prev: Node, ghost k: nat)
      requires Valid() && 1 <= k < |nodes| && prev == At(k - 1)
      modifies this, nodes
      ensures Valid() && njobs == old(njobs)
      ensures Contents() == old(Contents())[..k] + old(Contents())[k + 1..]
    {
      ghost var jobs, before := Contents(), nodes;
      assert Linked(k - 1) && Linked(k);
      prev.next := prev.next.next;
      nodes := nodes[..k] + nodes[k + 1..];
      forall i | 0 <= i < |nodes| ensures Linked(i) {
        assert nodes[i] == before[if i < k then i else i + 1];
        assert old(Linked(if i < k then i else i + 1));
      }
      assert Contents() == jobs[..k] + jobs[k + 1..];
    }

    /** `remove`: the monitor's step, after which a negative code ends the shell. */
    method RemoveJob(id: int, ghost s: Scheduler.State) returns (code: int)
      requires Valid() && Mirrors(s)
      modifies this, nodes
      ensures Valid() && njobs == old(njobs)
      ensures (Contents(), code) == Remove(old(Contents()), id)
      ensures Scheduler.Enabled(s, Scheduler.RemoveJob(id)) ==>
                && Mirrors(Scheduler.Apply(s, Scheduler.RemoveJob(id)))
                && (code < 0 <==> Scheduler.Apply(s, Scheduler.RemoveJob(id)).shell == Scheduler.Exited)
    {
      hide First;
      ghost var jobs := Contents();
      if head == null {
        return 1;
      }
      assert Linked(0) && jobs[0] == head.Value();
      if head.id == id && head.state != Run {
        UnlinkHead();
        return 0;
      }
      var prev: Node, k := FindBehindHead(id);
      assert Linked(k - 1);
      if prev.next == null {
        return 1;
      }
      assert jobs[k] == prev.next.Value();
      if prev.next.state == Run {
        return -1;
      }
      UnlinkAfter(prev, k);
      return 0;
    }

    /** The drain loop from the job at position `k`: the job it would sleep on, if any. */
    method DrainScan(from: Node?, ghost k: nat) returns (job: Node?)
      requires Valid() && k <= |nodes| && from == At(k)
      ensures job == At(First(Contents(), Undone, k))
    {
      job := from;
      ghost var i := k;
      ghost var jobs := Contents();
      while job != null && job.state == Done
        invariant k <= i <= |nodes| && job == At(i)
        invariant First(jobs, Undone, k) == First(jobs, Undone, i)
        decreases |nodes| - i
      {
        assert Linked(i) && jobs[i] == job.Value();
        job := job.next;
        i := i + 1;
      }
      assert job != null ==> jobs[i] == job.Value();
    }
  }
}
