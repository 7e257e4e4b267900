/** The task renderer: workers pop row bands from a shared list under a lock and paint them,
    interleaved at the granularity of single pixels. */
module Renderer {
  import opened Bands
  import opened Bitmaps

  datatype Task = Task(band: nat, start: int, end: int)

  /** Test: at the loop condition. Want: waiting for the lock. Paint: about to set pixel (i, j).
      A worker that finds the list empty inside the lock finishes still holding it. */
  datatype Pc =
    | Test
    | Want
    | Paint(task: Task, num: int, j: int, i: int)
    | Finished(holding: bool)

  datatype State = State(
    width: nat,
    height: nat,
    k: nat,
    tasks: seq<Task>,
    taskNum: int,
    locked: bool,
    workers: seq<Pc>,
    image: Rows
  )

  function BandTask(b: nat, height: nat, k: nat): Task
    requires k > 0
  {
    Task(b, BandStart(b, height, k), BandEnd(b, height, k))
  }

  /** The list that pushing bands `0 .. n` at the front leaves: the last band comes first. */
  function TaskList(n: nat, height: nat, k: nat): (r: seq<Task>)
    requires k > 0
    ensures |r| == n
    ensures forall x :: 0 <= x < n ==> r[x] == BandTask(n - 1 - x, height, k)
  {
    seq(n, x requires 0 <= x < n => BandTask(n - 1 - x, height, k))
  }

  /** Cuts the image into `k` tasks, each pushed in front of the ones before. */
  method MakeTasks(height: nat, k: nat) returns (tasks: seq<Task>)
    requires k > 0
    ensures tasks == TaskList(k, height, k)
  {
    tasks := [];
    var i := 0;
    while i < k
      invariant 0 <= i <= k && tasks == TaskList(i, height, k)
    {
      var start := i * (height / k);
      var end := (i + 1) * (height / k);
      if i == k - 1 { end := end + height % k; }
      tasks := [Task(i, start, end)] + tasks;
      i := i + 1;
    }
  }

  ghost predicate Initial(s: State) {
    && s.k > 0
    && s.tasks == TaskList(s.k, s.height, s.k)
    && s.taskNum == 1 && !s.locked
    && (forall w :: 0 <= w < |s.workers| ==> s.workers[w] == Test)
    && |s.image| == s.height && forall j :: 0 <= j < s.height ==> |s.image[j]| == s.width
  }

  /** The start: any positive number of tasks, any number of workers and any picture. */
  lemma InitialExactly(s: State)
    ensures Initial(s)
            <==> && s.k >= 1 && |s.tasks| == s.k && s.taskNum == 1 && !s.locked
                 && (forall x :: 0 <= x < s.k ==> s.tasks[x] == BandTask(s.k - 1 - x, s.height, s.k))
                 && (forall w :: 0 <= w < |s.workers| ==> s.workers[w] == Test)
                 && |s.image| == s.height && (forall j :: 0 <= j < s.height ==> |s.image[j]| == s.width)
  {
    if s.k >= 1 && |s.tasks| == s.k { TaskListIs(s.tasks, s.k, s.height); }
  }

  lemma TaskListIs(tasks: seq<Task>, k: nat, height: nat)
    requires k > 0 && |tasks| == k
    ensures tasks == TaskList(k, height, k)
            <==> forall x :: 0 <= x < k ==> tasks[x] == BandTask(k - 1 - x, height, k)
  {
  }

  // ---- One step of worker `w` ----

  predicate Enabled(s: State, w: nat) {
    && w < |s.workers|
    && !s.workers[w].Finished?
    && (s.workers[w].Want? ==> !s.locked)
    && (s.workers[w].Paint? ==> OnCanvas(s, s.workers[w]))
  }

  predicate OnCanvas(s: State, pc: Pc)
    requires pc.Paint?
  {
    && 0 <= pc.j && 0 <= pc.i <= s.width
    && (pc.j < pc.task.end ==> pc.j < |s.image| && |s.image[pc.j]| == s.width)
  }

  function Move(s: State, w: nat, pc: Pc): State
    requires w < |s.workers|
  {
    s.(workers := s.workers[w := pc])
  }

  function Apply(s: State, w: nat, f: Pixels): State
    requires Enabled(s, w)
  {
    match s.workers[w]
    case Test => Move(s, w, if s.tasks == [] then Finished(false) else Want)
    case Want =>
      if s.tasks == [] then Move(s, w, Finished(true)).(locked := true)
      else Move(s, w, Paint(s.tasks[0], s.taskNum, s.tasks[0].start, 0))
           .(tasks := s.tasks[1..], taskNum := s.taskNum + 1)
    case Paint(t, l, j, i) =>
      if j >= t.end then Move(s, w, if s.tasks == [] then Finished(false) else Test)
      else if i < s.width then Move(s, w, Paint(t, l, j, i + 1)).(image := s.image[j := s.image[j][i := f(i, j)]])
      else Move(s, w, Paint(t, l, j + 1, 0))
    case Finished(_) => s
  }

  // ---- What holds in every reachable state ----

  predicate CanvasOk(s: State) {
    && s.k > 0 && |s.image| == s.height
    && forall j :: 0 <= j < s.height ==> |s.image[j]| == s.width
  }

  predicate ListOk(s: State)
    requires s.k > 0
  {
    |s.tasks| <= s.k && s.tasks == TaskList(|s.tasks|, s.height, s.k) && s.taskNum == 1 + s.k - |s.tasks|
  }

  predicate PainterOk(s: State, pc: Pc)
    requires s.k > 0 && pc.Paint?
  {
    && |s.tasks| <= pc.task.band < s.k
    && pc.task == BandTask(pc.task.band, s.height, s.k)
    && pc.num == s.k - pc.task.band
    && pc.task.start <= pc.j <= pc.task.end
    && 0 <= pc.i <= s.width
    && (pc.j == pc.task.end ==> pc.i == 0)
  }

  predicate WorkersOk(s: State)
    requires s.k > 0
  {
    && (forall w :: 0 <= w < |s.workers| && s.workers[w].Paint? ==> PainterOk(s, s.workers[w]))
    && (forall v, w :: 0 <= v < w < |s.workers| && s.workers[v].Paint? && s.workers[w].Paint?
                       ==> s.workers[v].task.band != s.workers[w].task.band)
    && (forall w :: 0 <= w < |s.workers| && s.workers[w].Finished? ==> s.tasks == [])
  }

  /** Has worker state `pc` not yet reached pixel (i, j) of the band it paints? */
  predicate Ahead(pc: Pc, b: int, j: int, i: int) {
    pc.Paint? && pc.task.band == b && (pc.j < j || (pc.j == j && pc.i <= i))
  }

  /** A pixel is settled when its band was handed out and no worker still has to paint it. */
  predicate Settled(s: State, j: nat, i: nat)
    requires s.k > 0
  {
    var b := BandOf(j, s.height, s.k);
    |s.tasks| <= b && forall w :: 0 <= w < |s.workers| ==> !Ahead(s.workers[w], b, j, i)
  }

  predicate PixelOk(s: State, f: Pixels, j: nat, i: nat)
    requires CanvasOk(s) && j < s.height && i < s.width
  {
    Settled(s, j, i) ==> s.image[j][i] == f(i, j)
  }

  predicate PixelsOk(s: State, f: Pixels)
    requires CanvasOk(s)
  {
    forall j, i :: 0 <= j < s.height && 0 <= i < s.width ==> PixelOk(s, f, j, i)
  }

  ghost predicate Inv(s: State, f: Pixels) {
    CanvasOk(s) && ListOk(s) && WorkersOk(s) && PixelsOk(s, f)
  }

  // ---- Each kind of step keeps it ----

  lemma InitialInv(s: State, f: Pixels)
    requires Initial(s)
    ensures Inv(s, f)
  {
    forall j, i | 0 <= j < s.height && 0 <= i < s.width ensures PixelOk(s, f, j, i) {
      assert BandOf(j, s.height, s.k) < s.k;
    }
  }

  /** A worker that moves between the loop test, the lock and the exit changes no pixel's status. */
  lemma IdleKeeps(s: State, w: nat, pc: Pc, locked: bool, f: Pixels)
    requires Inv(s, f) && w < |s.workers| && !s.workers[w].Paint? && !pc.Paint?
    requires pc.Finished? ==> s.tasks == []
    ensures Inv(Move(s, w, pc).(locked := locked), f)
  {
    var t := Move(s, w, pc).(locked := locked);
    forall j, i | 0 <= j < t.height && 0 <= i < t.width ensures PixelOk(t, f, j, i) {
      assert PixelOk(s, f, j, i);
      SettledBack(s, t, w, j, i);
    }
  }

  /** If worker `w` is not ahead of the pixel before the step, a pixel settled after it was
      settled before. */
  lemma SettledBack(s: State, t: State, w: nat, j: nat, i: nat)
    requires s.k > 0 && w < |s.workers| && t.k == s.k && t.height == s.height
    requires |t.workers| == |s.workers| && t.workers == s.workers[w := t.workers[w]]
    requires |s.tasks| <= |t.tasks| || |s.tasks| <= BandOf(j, s.height, s.k)
    requires !Ahead(s.workers[w], BandOf(j, s.height, s.k), j, i)
    ensures Settled(t, j, i) ==> Settled(s, j, i)
  {
    if Settled(t, j, i) {
      forall v | 0 <= v < |s.workers| ensures !Ahead(s.workers[v], BandOf(j, s.height, s.k), j, i) {
        if v != w { assert t.workers[v] == s.workers[v]; }
      }
    }
  }

  /** Handing out the first task of the list: nothing in its band is settled yet. */
  lemma PopKeeps(s: State, w: nat, f: Pixels)
    requires Inv(s, f) && w < |s.workers| && s.workers[w].Want? && s.tasks != []
    ensures Inv(Move(s, w, Paint(s.tasks[0], s.taskNum, s.tasks[0].start, 0))
                .(tasks := s.tasks[1..], taskNum := s.taskNum + 1), f)
  {
    var b := |s.tasks| - 1;
    var t := Move(s, w, Paint(s.tasks[0], s.taskNum, s.tasks[0].start, 0))
             .(tasks := s.tasks[1..], taskNum := s.taskNum + 1);
    BandInside(b, s.height, s.k);
    assert s.tasks[0] == BandTask(b, s.height, s.k);
    assert s.tasks[1..] == TaskList(b, s.height, s.k);
    forall j, i | 0 <= j < t.height && 0 <= i < t.width ensures PixelOk(t, f, j, i) {
      assert PixelOk(s, f, j, i);
      BandsTile(j, b, s.height, s.k);
      if BandOf(j, s.height, s.k) == b {
        assert Ahead(t.workers[w], b, j, i);
      } else if Settled(t, j, i) {
        SettledBack(s, t, w, j, i);
      }
    }
  }

  /** Painting pixel (i, j) writes it with its own colour and settles it and no other. */
  lemma PaintKeeps(s: State, w: nat, f: Pixels)
    requires Inv(s, f) && w < |s.workers| && s.workers[w].Paint?
    requires s.workers[w].j < s.workers[w].task.end && s.workers[w].i < s.width
    ensures OnCanvas(s, s.workers[w]) && Inv(Apply(s, w, f), f)
  {
    var pc := s.workers[w];
    var b := pc.task.band;
    BandInside(b, s.height, s.k);
    BandsTile(pc.j, b, s.height, s.k);
    var t := Apply(s, w, f);
    forall j, i | 0 <= j < t.height && 0 <= i < t.width ensures PixelOk(t, f, j, i) {
      assert PixelOk(s, f, j, i);
      if Settled(t, j, i) && !(j == pc.j && i == pc.i) {
        assert !Ahead(t.workers[w], BandOf(j, s.height, s.k), j, i);
        SettledBack(s, t, w, j, i);
      }
    }
  }

  /** Moving to the next row settles nothing new. */
  lemma RowKeeps(s: State, w: nat, f: Pixels)
    requires Inv(s, f) && w < |s.workers| && s.workers[w].Paint?
    requires s.workers[w].j < s.workers[w].task.end && s.workers[w].i == s.width
    ensures OnCanvas(s, s.workers[w]) && Inv(Apply(s, w, f), f)
  {
    var pc := s.workers[w];
    BandInside(pc.task.band, s.height, s.k);
    var t := Apply(s, w, f);
    forall j, i | 0 <= j < t.height && 0 <= i < t.width ensures PixelOk(t, f, j, i) {
      assert PixelOk(s, f, j, i);
      if Settled(t, j, i) {
        assert !Ahead(t.workers[w], BandOf(j, s.height, s.k), j, i);
        SettledBack(s, t, w, j, i);
      }
    }
  }

  /** A worker that leaves its band has painted all of it. */
  lemma LeaveKeeps(s: State, w: nat, f: Pixels)
    requires Inv(s, f) && w < |s.workers| && s.workers[w].Paint? && s.workers[w].j >= s.workers[w].task.end
    ensures Inv(Move(s, w, if s.tasks == [] then Finished(false) else Test), f)
  {
    var pc := s.workers[w];
    var b := pc.task.band;
    var t := Move(s, w, if s.tasks == [] then Finished(false) else Test);
    forall j, i | 0 <= j < t.height && 0 <= i < t.width ensures PixelOk(t, f, j, i) {
      assert PixelOk(s, f, j, i);
      BandsTile(j, b, s.height, s.k);
      SettledBack(s, t, w, j, i);
    }
  }

  /** Every step of every worker keeps the invariant, and painters stay on the canvas. */
  lemma StepKeepsInv(s: State, w: nat, f: Pixels)
    requires Inv(s, f) && Enabled(s, w)
    ensures Inv(Apply(s, w, f), f)
  {
    hide Inv;
    match s.workers[w]
    case Test => IdleKeeps(s, w, if s.tasks == [] then Finished(false) else Want, s.locked, f);
    case Want => if s.tasks == [] { IdleKeeps(s, w, Finished(true), true, f); } else { PopKeeps(s, w, f); }
    case Paint(t, l, j, i) =>
      if j >= t.end { LeaveKeeps(s, w, f); }
      else if i < s.width { PaintKeeps(s, w, f); }
      else { RowKeeps(s, w, f); }
    case Finished(_) =>
  }

  /** Only a held lock can stop an unfinished worker. */
  lemma EnabledExactly(s: State, w: nat, f: Pixels)
    requires Inv(s, f) && w < |s.workers|
    ensures Enabled(s, w) <==> !s.workers[w].Finished? && !(s.workers[w].Want? && s.locked)
  {
    if s.workers[w].Paint? { BandInside(s.workers[w].task.band, s.height, s.k); }
  }
}
