/** Whole runs of the task renderer: what a completed run paints, that every run ends, and
    exactly when a run can end with a worker locked out for ever. */
module RendererRuns {
  import opened Bands
  import opened Bitmaps
  import opened Renderer

  /** `events` names the worker of each step of a run from `s` to `t`. */
  ghost predicate Path(s: State, events: seq<nat>, t: State, f: Pixels)
    decreases |events|
  {
    if events == [] then s == t
    else Enabled(s, events[0]) && Path(Apply(s, events[0], f), events[1..], t, f)
  }

  predicate Completed(s: State) {
    forall w :: 0 <= w < |s.workers| ==> s.workers[w].Finished?
  }

  /** Some worker is not finished, and none can move. */
  predicate Stuck(s: State) {
    !Completed(s) && forall w :: 0 <= w < |s.workers| ==> !Enabled(s, w)
  }

  predicate SameSize(s: State, t: State) {
    t.width == s.width && t.height == s.height && t.k == s.k && |t.workers| == |s.workers|
  }

  lemma {:induction false} PathInv(s: State, events: seq<nat>, t: State, f: Pixels)
    requires Inv(s, f) && Path(s, events, t, f)
    ensures Inv(t, f) && SameSize(s, t)
    decreases |events|
  {
    hide Inv;
    if events != [] {
      StepKeepsInv(s, events[0], f);
      PathInv(Apply(s, events[0], f), events[1..], t, f);
    }
  }

  /** Whatever the interleaving and the numbers of workers and tasks, a completed run has painted
      the sequential image. */
  lemma CompletedIsSequential(s: State, events: seq<nat>, t: State, f: Pixels)
    requires Initial(s) && |s.workers| > 0 && Path(s, events, t, f) && Completed(t)
    ensures t.image == Sequential(s.width, s.height, f)
  {
    hide Inv;
    InitialInv(s, f);
    PathInv(s, events, t, f);
    CompletedImage(t, f);
  }

  lemma CompletedImage(t: State, f: Pixels)
    requires Inv(t, f) && Completed(t) && |t.workers| > 0
    ensures t.image == Sequential(t.width, t.height, f)
  {
    assert t.workers[0].Finished?;
    var q := Sequential(t.width, t.height, f);
    forall j | 0 <= j < t.height ensures t.image[j] == q[j] {
      forall i | 0 <= i < t.width ensures t.image[j][i] == q[j][i] {
        assert PixelOk(t, f, j, i);
      }
    }
  }

  /** The thread renderer: one thread per band, and no list. */
  ghost predicate OneThreadPerBand(s: State) {
    && s.k > 0 && |s.workers| == s.k
    && s.tasks == [] && s.taskNum == 1 + s.k && !s.locked
    && (forall w :: 0 <= w < s.k ==>
          s.workers[w] == Paint(BandTask(w, s.height, s.k), s.k - w, BandStart(w, s.height, s.k), 0))
    && |s.image| == s.height && forall j :: 0 <= j < s.height ==> |s.image[j]| == s.width
  }

  /** Thread `w` of `k` starts at the first pixel of band `w`; no thread waits for anything. */
  lemma ThreadsExactly(s: State)
    ensures OneThreadPerBand(s)
            <==> && s.k >= 1 && |s.workers| == s.k && s.tasks == [] && s.taskNum == s.k + 1 && !s.locked
                 && (forall w :: 0 <= w < s.k ==>
                       var task := BandTask(w, s.height, s.k);
                       s.workers[w] == Paint(task, s.k - w, task.start, 0))
                 && |s.image| == s.height && (forall j :: 0 <= j < s.height ==> |s.image[j]| == s.width)
  {
  }

  lemma ThreadsInv(s: State, f: Pixels)
    requires OneThreadPerBand(s)
    ensures Inv(s, f)
  {
    forall w | 0 <= w < s.k ensures PainterOk(s, s.workers[w]) { BandInside(w, s.height, s.k); }
    forall j, i | 0 <= j < s.height && 0 <= i < s.width ensures PixelOk(s, f, j, i) {
      var b := BandOf(j, s.height, s.k);
      BandsTile(j, b, s.height, s.k);
      assert Ahead(s.workers[b], b, j, i);
    }
  }

  /** The thread renderer paints the sequential image too, in every interleaving. */
  lemma ThreadsAreSequential(s: State, events: seq<nat>, t: State, f: Pixels)
    requires OneThreadPerBand(s) && Path(s, events, t, f) && Completed(t)
    ensures t.image == Sequential(s.width, s.height, f)
  {
    hide Inv;
    ThreadsInv(s, f);
    PathInv(s, events, t, f);
    CompletedImage(t, f);
  }

  lemma BandsDisjoint(a: nat, b: nat, height: nat, k: nat, j: int)
    requires 0 < k && a < k && b < k && a != b
    ensures !(InBand(j, a, height, k) && InBand(j, b, height, k))
  {
    BandInside(a, height, k);
    if InBand(j, a, height, k) {
      BandsTile(j, a, height, k);
      BandsTile(j, b, height, k);
    }
  }

  /** Two workers painting at the same time hold different task numbers and share no row. */
  lemma TasksAreExclusive(s: State, events: seq<nat>, t: State, f: Pixels, v: nat, w: nat, j: int)
    requires Initial(s) && Path(s, events, t, f)
    requires v < w < |t.workers| && t.workers[v].Paint? && t.workers[w].Paint?
    ensures t.workers[v].num != t.workers[w].num
    ensures !(&& t.workers[v].task.start <= j < t.workers[v].task.end
              && t.workers[w].task.start <= j < t.workers[w].task.end)
  {
    hide Path, PixelsOk, BandStart, BandEnd;
    InitialInv(s, f);
    PathInv(s, events, t, f);
    assert PainterOk(t, t.workers[v]) && PainterOk(t, t.workers[w]);
    BandsDisjoint(t.workers[v].task.band, t.workers[w].task.band, t.height, t.k, j);
  }

  /** A worker paints the band that its label says, counting from 1 for the last one. */
  lemma LabelExactly(s: State, events: seq<nat>, t: State, f: Pixels, w: nat)
    requires Initial(s) && Path(s, events, t, f) && w < |t.workers| && t.workers[w].Paint?
    ensures var pc := t.workers[w]; var band := s.k - pc.num;
            && 1 <= pc.num <= s.k
            && pc.task.start == band * (s.height / s.k)
            && pc.task.end == (band + 1) * (s.height / s.k) + (if pc.num == 1 then s.height % s.k else 0)
            && pc.task.start <= pc.j <= pc.task.end && 0 <= pc.i <= s.width
  {
    hide PixelsOk;
    InitialInv(s, f);
    PathInv(s, events, t, f);
    assert PainterOk(t, t.workers[w]);
  }

  // ---- Every run ends ----

  function Rank(pc: Pc, width: nat): int {
    match pc
    case Finished(_) => 0
    case Want => 1
    case Test => 2
    case Paint(t, _, j, i) => 3 + (t.end - j) * (width + 1) + width - i
  }

  function TotalRank(workers: seq<Pc>, width: nat): int {
    if workers == [] then 0
    else TotalRank(workers[..|workers| - 1], width) + Rank(workers[|workers| - 1], width)
  }

  /** Bound on the number of steps still to come. */
  function Fuel(s: State): int {
    |s.tasks| * Slice(s) + TotalRank(s.workers, s.width)
  }

  lemma {:induction false} RankUpdate(workers: seq<Pc>, w: nat, pc: Pc, width: nat)
    requires w < |workers|
    ensures TotalRank(workers[w := pc], width) == TotalRank(workers, width) - Rank(workers[w], width) + Rank(pc, width)
  {
    var n := |workers| - 1;
    if w == n {
      assert workers[w := pc][..n] == workers[..n];
    } else {
      RankUpdate(workers[..n], w, pc, width);
      assert workers[w := pc][..n] == workers[..n][w := pc];
    }
  }

  lemma {:induction false} RankPositive(workers: seq<Pc>, width: nat)
    requires forall w :: 0 <= w < |workers| && workers[w].Paint?
                         ==> workers[w].j <= workers[w].task.end && workers[w].i <= width
    ensures TotalRank(workers, width) >= 0
  {
    if workers != [] {
      var pc := workers[|workers| - 1];
      if pc.Paint? { assert (pc.task.end - pc.j) * (width + 1) >= 0; }
      RankPositive(workers[..|workers| - 1], width);
    }
  }

  lemma FuelPositive(s: State, f: Pixels)
    requires Inv(s, f)
    ensures Fuel(s) >= 0
  {
    RankPositive(s.workers, s.width);
    assert (s.height + 1) * (s.width + 1) >= 0;
    assert |s.tasks| * Slice(s) >= 0;
  }

  function Slice(s: State): int {
    3 + (s.height + 1) * (s.width + 1)
  }

  lemma PopRank(s: State, f: Pixels)
    requires Inv(s, f) && s.tasks != []
    ensures Rank(Paint(s.tasks[0], s.taskNum, s.tasks[0].start, 0), s.width) < Slice(s)
  {
    BandInside(|s.tasks| - 1, s.height, s.k);
    var rows := s.tasks[0].end - s.tasks[0].start;
    MulOrder(rows, s.height, s.width + 1);
    assert (s.height + 1) * (s.width + 1) == s.height * (s.width + 1) + s.width + 1;
  }

  lemma RowRank(e: int, j: int, width: nat)
    ensures (e - (j + 1)) * (width + 1) + width == (e - j) * (width + 1) - 1
  {
  }

  /** The moving worker's own rank falls, or a task is taken off the list. */
  lemma StepRank(s: State, w: nat, f: Pixels)
    requires Inv(s, f) && Enabled(s, w)
    ensures var t := Apply(s, w, f);
            && t.width == s.width && t.height == s.height && |t.workers| == |s.workers|
            && t.workers == s.workers[w := t.workers[w]]
            && (|t.tasks| == |s.tasks| || |t.tasks| == |s.tasks| - 1)
            && Rank(t.workers[w], s.width)
               < Rank(s.workers[w], s.width) + if |t.tasks| == |s.tasks| then 0 else Slice(s)
  {
    hide CanvasOk, PixelsOk, ListOk;
    match s.workers[w]
    case Test =>
    case Want => if s.tasks != [] { PopRank(s, f); }
    case Paint(p, _, j, i) =>
      assert PainterOk(s, s.workers[w]);
      RowRank(p.end, j, s.width);
    case Finished(_) =>
  }

  lemma TasksFuel(n: nat, c: int)
    requires n > 0
    ensures (n - 1) * c == n * c - c
  {
  }

  /** Every step burns fuel. */
  lemma StepBurns(s: State, w: nat, f: Pixels)
    requires Inv(s, f) && Enabled(s, w)
    ensures Fuel(Apply(s, w, f)) < Fuel(s)
  {
    hide Inv, Apply, Rank, TotalRank, Slice;
    var t := Apply(s, w, f);
    StepRank(s, w, f);
    RankUpdate(s.workers, w, t.workers[w], s.width);
    assert Slice(t) == Slice(s) by { SameSlice(s, t); }
    if |t.tasks| < |s.tasks| { TasksFuel(|s.tasks|, Slice(s)); }
  }

  lemma SameSlice(s: State, t: State)
    requires t.width == s.width && t.height == s.height
    ensures Slice(t) == Slice(s)
  {
  }

  /** No run is longer than the fuel it starts with. */
  lemma {:induction false} RunsAreFinite(s: State, events: seq<nat>, t: State, f: Pixels)
    requires Inv(s, f) && Path(s, events, t, f)
    ensures |events| + Fuel(t) <= Fuel(s) && Fuel(t) >= 0
    decreases |events|
  {
    hide Inv, Fuel;
    if events == [] {
      FuelPositive(s, f);
    } else {
      StepBurns(s, events[0], f);
      StepKeepsInv(s, events[0], f);
      RunsAreFinite(Apply(s, events[0], f), events[1..], t, f);
    }
  }

  // ---- The lock that is not given back ----

  /** A held lock was left by a finished worker; once the list is empty somebody else took its
      last task and never came back to the lock. */
  ghost predicate LockOk(s: State) {
    && (s.locked ==> exists w :: 0 <= w < |s.workers| && s.workers[w] == Finished(true))
    && (s.tasks == [] ==> exists w :: 0 <= w < |s.workers| && Served(s.workers[w]))
  }

  predicate Served(pc: Pc) {
    pc.Paint? || pc == Finished(false)
  }

  lemma StepKeepsLock(s: State, w: nat, f: Pixels)
    requires Inv(s, f) && LockOk(s) && Enabled(s, w)
    ensures LockOk(Apply(s, w, f))
  {
    hide Inv;
    var t := Apply(s, w, f);
    assert forall v :: 0 <= v < |s.workers| && v != w ==> t.workers[v] == s.workers[v];
    if t.locked {
      if s.locked {
        var v :| 0 <= v < |s.workers| && s.workers[v] == Finished(true);
        assert t.workers[v] == Finished(true);
      } else {
        assert t.workers[w] == Finished(true);
      }
    }
    if t.tasks == [] {
      if s.tasks == [] {
        var v :| 0 <= v < |s.workers| && Served(s.workers[v]);
        assert Served(t.workers[v]);
      } else {
        assert Served(t.workers[w]);
      }
    }
  }

  lemma {:induction false} PathLock(s: State, events: seq<nat>, t: State, f: Pixels)
    requires Inv(s, f) && LockOk(s) && Path(s, events, t, f)
    ensures Inv(t, f) && LockOk(t) && |t.workers| == |s.workers|
    decreases |events|
  {
    hide Inv, LockOk;
    if events != [] {
      StepKeepsInv(s, events[0], f);
      StepKeepsLock(s, events[0], f);
      PathLock(Apply(s, events[0], f), events[1..], t, f);
    }
  }

  /** With at most two workers no run gets stuck. */
  lemma PairNeverSticks(s: State, events: seq<nat>, t: State, f: Pixels)
    requires Initial(s) && |s.workers| <= 2 && Path(s, events, t, f)
    ensures !Stuck(t)
  {
    hide Inv, LockOk, Path;
    InitialInv(s, f);
    InitialLock(s);
    PathLock(s, events, t, f);
    forall u | 0 <= u < |t.workers| && !t.workers[u].Finished? ensures Enabled(t, u) {
      EnabledExactly(t, u, f);
      if t.workers[u].Want? { WaiterFindsFreeLock(t, u, f); }
    }
  }

  lemma InitialLock(s: State)
    requires Initial(s)
    ensures LockOk(s)
  {
    assert s.tasks != [];
  }

  /** The lock holder and the one who served the last task would make two more workers. */
  lemma WaiterFindsFreeLock(t: State, u: nat, f: Pixels)
    requires Inv(t, f) && LockOk(t) && u < |t.workers| <= 2 && t.workers[u].Want?
    ensures !t.locked
  {
  }

  lemma {:induction false} PathConcat(s: State, a: seq<nat>, t: State, b: seq<nat>, u: State, f: Pixels)
    requires Path(s, a, t, f) && Path(t, b, u, f)
    ensures Path(s, a + b, u, f)
    decreases |a|
  {
    if a == [] {
      assert a + b == b;
    } else {
      PathConcat(Apply(s, a[0], f), a[1..], t, b, u, f);
      assert (a + b)[1..] == a[1..] + b;
    }
  }

  lemma OneStep(s: State, w: nat, f: Pixels)
    requires Enabled(s, w)
    ensures Path(s, [w], Apply(s, w, f), f)
  {
    assert [w][1..] == [];
    assert Path(Apply(s, w, f), [], Apply(s, w, f), f);
  }

  /** Left alone, a worker that does not lose a race for the last task serves the rest of the list. */
  lemma {:induction false} RunAlone(s: State, w: nat, f: Pixels) returns (events: seq<nat>, t: State)
    requires Inv(s, f) && w < |s.workers| && !s.locked
    requires s.workers[w].Finished? ==> s.workers[w] == Finished(false)
    requires s.workers[w].Want? ==> s.tasks != []
    ensures Path(s, events, t, f) && Inv(t, f) && |t.workers| == |s.workers|
    ensures t.tasks == [] && !t.locked && t.workers[w] == Finished(false)
    ensures forall v :: 0 <= v < |s.workers| && v != w ==> t.workers[v] == s.workers[v]
    decreases Fuel(s)
  {
    if s.workers[w].Finished? {
      events, t := [], s;
    } else {
      hide Fuel, PixelsOk, ListOk;
      EnabledExactly(s, w, f);
      StepBurns(s, w, f);
      StepKeepsInv(s, w, f);
      FuelPositive(s, f);
      var u := Apply(s, w, f);
      var rest;
      rest, t := RunAlone(u, w, f);
      OneStep(s, w, f);
      PathConcat(s, [w], u, rest, t, f);
      events := [w] + rest;
    }
  }

  /** With the list empty, workers still at the loop test leave one after the other. */
  lemma {:induction false} LeaveFrom(s: State, w: nat, f: Pixels) returns (events: seq<nat>, t: State)
    requires w <= |s.workers| && s.tasks == []
    requires forall v :: w <= v < |s.workers| ==> s.workers[v] == Test
    ensures Path(s, events, t, f) && t.tasks == [] && t.locked == s.locked && |t.workers| == |s.workers|
    ensures forall v :: 0 <= v < w ==> t.workers[v] == s.workers[v]
    ensures forall v :: w <= v < |s.workers| ==> t.workers[v] == Finished(false)
    decreases |s.workers| - w
  {
    if w == |s.workers| {
      events, t := [], s;
    } else {
      var u := Apply(s, w, f);
      var rest;
      rest, t := LeaveFrom(u, w + 1, f);
      OneStep(s, w, f);
      PathConcat(s, [w], u, rest, t, f);
      events := [w] + rest;
    }
  }

  /** With any number of workers some run completes: the first serves every task alone. */
  lemma SomeRunCompletes(s: State, f: Pixels) returns (events: seq<nat>, t: State)
    requires Initial(s) && |s.workers| > 0
    ensures Path(s, events, t, f) && Completed(t)
  {
    hide Inv, Path;
    InitialInv(s, f);
    var a, u := RunAlone(s, 0, f);
    var b;
    b, t := LeaveFrom(u, 1, f);
    events := a + b;
    PathConcat(s, a, u, b, t, f);
  }

  /** Two workers pass the loop test and wait for the lock. */
  lemma TwoWait(s: State, f: Pixels) returns (t: State)
    requires Initial(s) && |s.workers| >= 3
    ensures Path(s, [1, 2], t, f) && Inv(t, f) && !t.locked && |t.workers| == |s.workers|
    ensures t.workers[1] == Want && t.workers[2] == Want
    ensures forall w :: 0 <= w < |t.workers| && w != 1 && w != 2 ==> t.workers[w] == Test
  {
    hide Inv, Path;
    InitialInv(s, f);
    var u := Apply(s, 1, f);
    StepKeepsInv(s, 1, f);
    t := Apply(u, 2, f);
    StepKeepsInv(u, 2, f);
    OneStep(s, 1, f);
    OneStep(u, 2, f);
    PathConcat(s, [1], u, [2], t, f);
    assert [1] + [2] == [1, 2];
  }

  /** With three or more workers some run gets stuck: two wait for the lock while the first
      serves every task; one of them then finds the list empty and keeps the lock. */
  lemma ThreeCanStick(s: State, f: Pixels) returns (events: seq<nat>, t: State)
    requires Initial(s) && |s.workers| >= 3
    ensures Path(s, events, t, f) && Stuck(t)
  {
    hide Inv, Path, Initial;
    var s2 := TwoWait(s, f);
    var a, s3 := RunAlone(s2, 0, f);
    PathConcat(s, [1, 2], s2, a, s3, f);
    var s4 := Apply(s3, 1, f);
    OneStep(s3, 1, f);
    PathConcat(s, [1, 2] + a, s3, [1], s4, f);
    var b;
    b, t := LeaveFrom(s4, 3, f);
    events := [1, 2] + a + [1] + b;
    PathConcat(s, [1, 2] + a + [1], s4, b, t, f);
    assert t.workers[2] == Want && t.locked;
  }

  ghost predicate CanStick(s: State, f: Pixels) {
    exists events: seq<nat>, t: State :: Path(s, events, t, f) && Stuck(t)
  }

  /** A run can get stuck exactly when there are three or more workers, for any number of tasks
      and any image. */
  lemma StuckExactly(s: State, f: Pixels)
    requires Initial(s)
    ensures CanStick(s, f) <==> |s.workers| >= 3
  {
    if |s.workers| >= 3 {
      var events, t := ThreeCanStick(s, f);
      assert Path(s, events, t, f) && Stuck(t);
    } else {
      forall events, t: State | Path(s, events, t, f) ensures !Stuck(t) { PairNeverSticks(s, events, t, f); }
    }
  }
}
