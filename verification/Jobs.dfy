/** The job list as a sequence, and what each list operation does to it. */
module Jobs {

  datatype Status = Wait | Run | Done

  datatype Job = Job(id: int, pid: int, state: Status, exit: int)

  function NumRunning(jobs: seq<Job>): (n: nat)
    ensures n <= |jobs|
  {
    if jobs == [] then 0 else NumRunning(jobs[..|jobs| - 1]) + if jobs[|jobs| - 1].state == Run then 1 else 0
  }

  function NumWaiting(jobs: seq<Job>): (n: nat)
    ensures n <= |jobs|
  {
    if jobs == [] then 0 else NumWaiting(jobs[..|jobs| - 1]) + if jobs[|jobs| - 1].state == Wait then 1 else 0
  }

  /** What a traversal of the list looks for. */
  datatype Sought = Waiting | Undone | WithPid(pid: int) | WithId(id: int)

  predicate Meets(j: Job, what: Sought) {
    match what
    case Waiting => j.state == Wait
    case Undone => j.state != Done
    case WithPid(pid) => j.pid == pid
    case WithId(id) => j.id == id
  }

  /** Index of the first job at or after `from` that is sought, or the length. */
  function First(jobs: seq<Job>, what: Sought, from: nat): (k: nat)
    requires from <= |jobs|
    ensures from <= k <= |jobs|
    ensures k < |jobs| ==> Meets(jobs[k], what)
    ensures forall i :: from <= i < k ==> !Meets(jobs[i], what)
    decreases |jobs| - from
  {
    if from == |jobs| || Meets(jobs[from], what) then from else First(jobs, what, from + 1)
  }

  /** A new job as `create_job` leaves it. */
  function NewJob(id: int): Job {
    Job(id, -1, Wait, -1)
  }

  /** `run_job` on job `k`: it becomes RUN; its pid is recorded only when the fork succeeded. */
  function Launch(jobs: seq<Job>, k: nat, pid: int): seq<Job>
    requires k < |jobs|
  {
    jobs[k := jobs[k].(state := Run, pid := if pid > 0 then pid else jobs[k].pid)]
  }

  /** `job_complete`: the first job with that pid, if any, becomes DONE. */
  function Complete(jobs: seq<Job>, pid: int, status: int): seq<Job> {
    var k := First(jobs, WithPid(pid), 0);
    if k < |jobs| then jobs[k := jobs[k].(state := Done, exit := status)] else jobs
  }

  /** `remove_job`: the new list and the return code. A running job that is not the head answers
      -1; a running head falls into the search behind it. */
  function Remove(jobs: seq<Job>, id: int): (r: (seq<Job>, int)) {
    if jobs == [] then (jobs, 1)
    else if jobs[0].id == id && jobs[0].state != Run then (jobs[1..], 0)
    else
      var k := First(jobs, WithId(id), 1);
      if k == |jobs| then (jobs, 1)
      else if jobs[k].state == Run then (jobs, -1)
      else (jobs[..k] + jobs[k + 1..], 0)
  }

  // ---- Counting ----

  lemma {:induction false} CountUpdate(jobs: seq<Job>, k: nat, j: Job)
    requires k < |jobs|
    ensures NumRunning(jobs[k := j]) == NumRunning(jobs)
              - (if jobs[k].state == Run then 1 else 0) + (if j.state == Run then 1 else 0)
    ensures NumWaiting(jobs[k := j]) == NumWaiting(jobs)
              - (if jobs[k].state == Wait then 1 else 0) + (if j.state == Wait then 1 else 0)
  {
    var n := |jobs| - 1;
    if k == n {
      assert jobs[k := j][..n] == jobs[..n];
    } else {
      CountUpdate(jobs[..n], k, j);
      assert jobs[k := j][..n] == jobs[..n][k := j];
    }
  }

  lemma {:induction false} CountConcat(a: seq<Job>, b: seq<Job>)
    ensures NumRunning(a + b) == NumRunning(a) + NumRunning(b)
    ensures NumWaiting(a + b) == NumWaiting(a) + NumWaiting(b)
  {
    if b == [] {
      assert a + b == a;
    } else {
      var n := |b| - 1;
      CountConcat(a, b[..n]);
      assert (a + b)[..|a + b| - 1] == a + b[..n];
    }
  }

  ghost function InState(jobs: seq<Job>, st: Status): set<int> {
    set i | 0 <= i < |jobs| && jobs[i].state == st
  }

  lemma InStateLast(jobs: seq<Job>, st: Status)
    requires jobs != []
    ensures var n := |jobs| - 1;
            |InState(jobs, st)| == |InState(jobs[..n], st)| + if jobs[n].state == st then 1 else 0
  {
    var n := |jobs| - 1;
    var before := InState(jobs[..n], st);
    assert InState(jobs, st) == before + if jobs[n].state == st then {n} else {};
  }

  /** The counters count positions of the list. */
  lemma {:induction false} CountsPositions(jobs: seq<Job>)
    ensures NumRunning(jobs) == |InState(jobs, Run)|
    ensures NumWaiting(jobs) == |InState(jobs, Wait)|
  {
    hide InState;
    if jobs == [] {
      NoneInState(Run);
      NoneInState(Wait);
    } else {
      CountsPositions(jobs[..|jobs| - 1]);
      InStateLast(jobs, Run);
      InStateLast(jobs, Wait);
    }
  }

  lemma NoneInState(st: Status)
    ensures InState([], st) == {}
  {
  }

  lemma {:induction false} CountNone(jobs: seq<Job>)
    ensures NumRunning(jobs) == 0 <==> forall i :: 0 <= i < |jobs| ==> jobs[i].state != Run
    ensures NumWaiting(jobs) == 0 <==> forall i :: 0 <= i < |jobs| ==> jobs[i].state != Wait
  {
    if jobs != [] { CountNone(jobs[..|jobs| - 1]); }
  }

  // ---- Removal by id ----

  ghost predicate DistinctIds(jobs: seq<Job>) {
    forall i, j :: 0 <= i < j < |jobs| ==> jobs[i].id != jobs[j].id
  }

  lemma RemoveAt(jobs: seq<Job>, id: int) returns (k: nat)
    requires Remove(jobs, id).1 == 0
    ensures k < |jobs| && jobs[k].id == id && jobs[k].state != Run
    ensures Remove(jobs, id).0 == jobs[..k] + jobs[k + 1..]
  {
    if jobs[0].id == id && jobs[0].state != Run {
      k := 0;
    } else {
      k := First(jobs, WithId(id), 1);
    }
  }

  /** Removal succeeds exactly when the job is there and not running, and otherwise changes nothing. */
  lemma RemoveOutcome(jobs: seq<Job>, id: int)
    requires DistinctIds(jobs)
    ensures Remove(jobs, id).1 == 0 <==> exists k :: 0 <= k < |jobs| && jobs[k].id == id && jobs[k].state != Run
    ensures Remove(jobs, id).1 == -1 <==> exists k :: 0 < k < |jobs| && jobs[k].id == id && jobs[k].state == Run
    ensures Remove(jobs, id).1 != 0 ==> Remove(jobs, id).0 == jobs
    ensures Remove(jobs, id).1 in {0, 1, -1}
    ensures forall i :: 0 <= i < |jobs| && jobs[i].state == Run ==> jobs[i] in Remove(jobs, id).0
    ensures forall j :: j in jobs && j.id != id ==> j in Remove(jobs, id).0
  {
    if k :| 0 <= k < |jobs| && jobs[k].id == id { }
    if Remove(jobs, id).1 == 0 {
      var k := RemoveAt(jobs, id);
      assert jobs == jobs[..k] + [jobs[k]] + jobs[k + 1..];
    }
  }

  /** Asked to remove a running job, the program answers -1 exactly when it is not the head. */
  lemma RefusedExactly(jobs: seq<Job>, k: nat)
    requires DistinctIds(jobs) && k < |jobs| && jobs[k].state == Run
    ensures Remove(jobs, jobs[k].id) == (jobs, if k != 0 then -1 else 1)
  {
    hide DistinctIds;
    FoundAt(jobs, k);
  }

  /** Removing the first job with an id: it is gone, or the code says why not. */
  lemma RemoveExactly(jobs: seq<Job>, id: int, k: nat)
    requires DistinctIds(jobs) && k <= |jobs|
    requires k == |jobs| ==> forall i :: 0 <= i < |jobs| ==> jobs[i].id != id
    requires k < |jobs| ==> jobs[k].id == id
    ensures k == |jobs| ==> Remove(jobs, id) == (jobs, 1)
    ensures k < |jobs| && jobs[k].state == Run ==> Remove(jobs, id) == (jobs, if k == 0 then 1 else -1)
    ensures k < |jobs| && jobs[k].state != Run ==> Remove(jobs, id) == (jobs[..k] + jobs[k + 1..], 0)
  {
    hide DistinctIds;
    if k < |jobs| {
      FoundAt(jobs, k);
      assert jobs[..0] + jobs[1..] == jobs[1..];
    }
  }

  lemma FoundAt(jobs: seq<Job>, k: nat)
    requires DistinctIds(jobs) && k < |jobs|
    ensures First(jobs, WithId(jobs[k].id), 1) == if k == 0 then |jobs| else k
    ensures k != 0 ==> jobs[0].id != jobs[k].id
  {
  }

  /** The running head of a list of one job: the answer is the one for a job that is not there. */
  lemma RunningHead()
    ensures var jobs := [Job(1, 7, Run, -1)];
            Remove(jobs, 1) == (jobs, 1) && Remove(jobs, 2) == (jobs, 1)
  {
  }

  lemma RemoveCounts(jobs: seq<Job>, id: int)
    ensures NumRunning(Remove(jobs, id).0) == NumRunning(jobs)
  {
    if Remove(jobs, id).1 == 0 {
      var k := RemoveAt(jobs, id);
      assert jobs == jobs[..k] + [jobs[k]] + jobs[k + 1..];
      CountConcat(jobs[..k] + [jobs[k]], jobs[k + 1..]);
      CountConcat(jobs[..k], [jobs[k]]);
      CountConcat(jobs[..k], jobs[k + 1..]);
      assert [jobs[k]][..0] == [];
    }
  }
}
