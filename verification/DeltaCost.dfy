/** What the delta program costs under FIFO: one write scan, then rounds of an upward and a
    downward read scan. */
module DeltaCost {
  import opened PagedMemory
  import opened PageFault
  import opened FlatMemory
  import opened Replacement
  import opened ScanCost
  import opened FifoLog

  // ---- One access, seen by the page log ----

  lemma FifoRecent(s: State, p: int)
    requires Inv(s) && s.policy == Fifo
    ensures p in Residents(s) <==> Recent(s.fifo, s.nframes, p)
  {
    hide TableOk, FramesOk, CleanOk, CountOk, CustomOk, Residents, Distinct;
    FifoExact(s);
    assert p in Elems(s.fifo[s.pop..]) <==> p in s.fifo[s.pop..];
  }

  /** Under FIFO an access appends its page to the log exactly when that page is not among the
      last `nframes` loads. */
  lemma FifoAccess(s: State, st: Step)
    requires Inv(s) && Enabled(s, st) && s.policy == Fifo
    ensures Perform(s, st).fifo == Touch(s.fifo, s.nframes, PageOf(st.access.addr))
  {
    hide Perform, TableOk, FramesOk, CleanOk, CountOk, FifoOk, CustomOk, MayEvict, Residents, Dirty;
    PerformEffect(s, st);
    FifoRecent(s, PageOf(st.access.addr));
    BitSets(s, PageOf(st.access.addr));
  }

  // ---- Scans ----

  ghost predicate VisitsUp(steps: seq<Step>, b: nat, n: nat) {
    && b + n <= |steps|
    && forall i :: b <= i < b + n ==> steps[i].access.addr == i - b
  }

  /** The downward loop stops before byte 0. */
  ghost predicate VisitsDown(steps: seq<Step>, b: nat, n: nat)
    requires n > 0
  {
    && b + n - 1 <= |steps|
    && forall i :: b <= i < b + n - 1 ==> steps[i].access.addr == n - 1 - (i - b)
  }

  lemma TouchedDown(n: nat, i: nat)
    requires i < n * PAGE_SIZE
    ensures PageOf(n * PAGE_SIZE - 1 - i) == n - 1 - PageOf(i)
  {
    assert (n * PAGE_SIZE - 1 - i) == (n - 1 - i / PAGE_SIZE) * PAGE_SIZE + (PAGE_SIZE - 1 - i % PAGE_SIZE);
  }

  lemma {:induction false} UpScan(states: seq<State>, steps: seq<Step>, b: nat, i: nat)
    requires Behaviour(states, steps) && states[0].policy == Fifo && states[0].nframes > 0
    requires VisitsUp(steps, b, i)
    ensures states[b + i].fifo == UpLog(states[b].fifo, states[0].nframes, Touched(i))
  {
    hide Perform, Enabled, Inv, UpLog, Touch;
    var h, f := states[b].fifo, states[0].nframes;
    if i == 0 {
      UpLogStart(h, f);
    } else {
      assert VisitsUp(steps, b, i - 1);
      UpScan(states, steps, b, i - 1);
      assert NextAt(states, steps, b + i - 1);
      RunInv(states, steps, b + i - 1);
      RunSetup(states, steps, b + i - 1);
      FifoAccess(states[b + i - 1], steps[b + i - 1]);
      UpLogStep(h, f, i - 1);
    }
  }

  lemma UpLogStart(h: seq<int>, f: nat)
    ensures UpLog(h, f, Touched(0)) == h
  {
  }

  lemma UpLogStep(h: seq<int>, f: nat, i: nat)
    requires f > 0
    ensures UpLog(h, f, Touched(i + 1)) == Touch(UpLog(h, f, Touched(i)), f, PageOf(i))
  {
    hide Touch, Touched;
    TouchedStep(i);
    if i % PAGE_SIZE != 0 { TouchRecent(UpLog(h, f, PageOf(i)), f, PageOf(i)); }
  }

  lemma {:induction false} DownScan(states: seq<State>, steps: seq<Step>, b: nat, n: nat, i: nat)
    requires Behaviour(states, steps) && states[0].policy == Fifo && states[0].nframes > 0
    requires n > 0 && VisitsDown(steps, b, n * PAGE_SIZE) && i < n * PAGE_SIZE
    ensures states[b + i].fifo == DownLog(states[b].fifo, states[0].nframes, n, Touched(i))
  {
    hide Perform, Enabled, Inv, DownLog, Touch;
    var h, f := states[b].fifo, states[0].nframes;
    if i == 0 {
      DownLogStart(h, f, n);
    } else {
      DownScan(states, steps, b, n, i - 1);
      assert NextAt(states, steps, b + i - 1);
      RunInv(states, steps, b + i - 1);
      RunSetup(states, steps, b + i - 1);
      FifoAccess(states[b + i - 1], steps[b + i - 1]);
      TouchedDown(n, i - 1);
      DownLogStep(h, f, n, i - 1);
    }
  }

  lemma DownLogStart(h: seq<int>, f: nat, n: nat)
    ensures DownLog(h, f, n, Touched(0)) == h
  {
  }

  lemma DownLogStep(h: seq<int>, f: nat, n: nat, i: nat)
    requires f > 0
    ensures DownLog(h, f, n, Touched(i + 1)) == Touch(DownLog(h, f, n, Touched(i)), f, n - 1 - PageOf(i))
  {
    hide Touch, Touched;
    TouchedStep(i);
    if i % PAGE_SIZE != 0 { TouchRecent(DownLog(h, f, n, PageOf(i)), f, n - 1 - PageOf(i)); }
  }

  // ---- The whole program ----

  /** Index of the first step of round `r` when the memory has `len` bytes. */
  function Base(len: nat, r: nat): nat
    requires len > 0
  {
    if r == 0 then len else Base(len, r - 1) + 2 * len - 1
  }

  /** `steps` are the accesses of the delta program with the given number of read rounds. */
  ghost predicate Delta(steps: seq<Step>, len: nat, rounds: nat)
    requires len > 0
  {
    && |steps| == Base(len, rounds)
    && StoresUp(steps, 0, len)
    && LoadsFrom(steps, len)
    && forall r :: 0 <= r < rounds ==> RoundAt(steps, len, r)
  }

  ghost predicate RoundAt(steps: seq<Step>, len: nat, r: nat)
    requires len > 0
  {
    VisitsUp(steps, Base(len, r), len) && VisitsDown(steps, Base(len, r) + len, len)
  }

  lemma {:induction false} LogAfterRounds(states: seq<State>, steps: seq<Step>, n: nat, r: nat, rounds: nat)
    requires Behaviour(states, steps) && Initial(states[0]) && states[0].policy == Fifo
    requires n == states[0].npages && n > 0 && Delta(steps, n * PAGE_SIZE, rounds) && r <= rounds
    ensures Base(n * PAGE_SIZE, r) < |states|
    ensures states[Base(n * PAGE_SIZE, r)].fifo == Rounds(Up(0, n), states[0].nframes, n, r)
  {
    hide Perform, Enabled, Inv, UpLog, DownLog, Touch, Up;
    var len, f := n * PAGE_SIZE, states[0].nframes;
    assert Touched(len) == n && Touched(len - 1) == n;
    if r == 0 {
      assert VisitsUp(steps, 0, len);
      UpScan(states, steps, 0, len);
      FirstSweep(f, n);
    } else {
      LogAfterRounds(states, steps, n, r - 1, rounds);
      var b := Base(len, r - 1);
      assert RoundAt(steps, len, r - 1);
      UpScan(states, steps, b, len);
      DownScan(states, steps, b + len, n, len - 1);
    }
  }

  ghost predicate CleanBelow(s: State, n: nat) {
    forall p :: 0 <= p < n ==> p !in Dirty(s)
  }

  /** With fewer frames than pages the first read sweep leaves nothing dirty behind it. */
  lemma {:induction false} CleanSweep(states: seq<State>, steps: seq<Step>, n: nat, i: nat, rounds: nat)
    requires Behaviour(states, steps) && Initial(states[0]) && states[0].policy == Fifo
    requires n == states[0].npages > states[0].nframes > 0
    requires Delta(steps, n * PAGE_SIZE, rounds) && rounds > 0 && i <= n * PAGE_SIZE
    ensures n * PAGE_SIZE + i < |states|
    ensures CleanBelow(states[n * PAGE_SIZE + i], Touched(i))
  {
    hide Perform, Enabled, Inv, UpLog, Touch, Rounds, Dirty;
    var len, f := n * PAGE_SIZE, states[0].nframes;
    BaseGrows(len, 1, rounds);
    assert RoundAt(steps, len, 0);
    if i > 0 {
      CleanSweep(states, steps, n, i - 1, rounds);
      var b, p := len + i - 1, PageOf(i - 1);
      assert NextAt(states, steps, b);
      RunInv(states, steps, b);
      LoadStep(states[b], steps[b]);
      TouchedStep(i - 1);
      if (i - 1) % PAGE_SIZE == 0 {
        FirstReadMisses(states, steps, n, i - 1, rounds);
      }
    }
  }

  lemma {:induction false} BaseGrows(len: nat, q: nat, r: nat)
    requires len > 0 && q <= r
    ensures Base(len, q) <= Base(len, r)
    decreases r
  {
    if q < r { BaseGrows(len, q, r - 1); }
  }

  lemma FirstReadMisses(states: seq<State>, steps: seq<Step>, n: nat, i: nat, rounds: nat)
    requires Behaviour(states, steps) && Initial(states[0]) && states[0].policy == Fifo
    requires n == states[0].npages > states[0].nframes > 0
    requires Delta(steps, n * PAGE_SIZE, rounds) && rounds > 0
    requires i < n * PAGE_SIZE && i % PAGE_SIZE == 0 && n * PAGE_SIZE + i < |states|
    ensures PageOf(i) !in Dirty(states[n * PAGE_SIZE + i])
  {
    hide Perform, Enabled, UpLog, Touch, Rounds, TableOk, FramesOk, CleanOk, CountOk, FifoOk, CustomOk;
    var len, f := n * PAGE_SIZE, states[0].nframes;
    var s := states[len + i];
    BaseGrows(len, 1, rounds);
    LogAfterRounds(states, steps, n, 0, rounds);
    assert RoundAt(steps, len, 0);
    UpScan(states, steps, len, i);
    TouchedStep(i);
    SecondSweepStart(states[len].fifo, f, n, PageOf(i));
    RunInv(states, steps, len + i);
    RunSetup(states, steps, len + i);
    FifoRecent(s, PageOf(i));
    if PageOf(i) in Dirty(s) { DirtyIsResident(s, PageOf(i)); }
  }

  lemma SecondSweepStart(h: seq<int>, f: nat, n: nat, t: nat)
    requires 0 < f < n && t < n && h == Rounds(Up(0, n), f, n, 0)
    ensures !Recent(UpLog(h, f, t), f, t)
  {
    SecondSweep(f, n, t);
  }

  lemma DirtyIsResident(s: State, p: int)
    requires Inv(s) && p in Dirty(s)
    ensures p in Residents(s)
  {
  }

  // ---- The counts ----

  /** The state after the write scan: every resident page is dirty. */
  lemma AfterWriteScan(states: seq<State>, steps: seq<Step>, n: nat, rounds: nat)
    requires Behaviour(states, steps) && Initial(states[0])
    requires n == states[0].npages && n > 0 && Delta(steps, n * PAGE_SIZE, rounds)
    ensures n * PAGE_SIZE < |states|
    ensures Written(states[n * PAGE_SIZE], n)
  {
    hide Perform, Enabled, Written;
    assert Touched(n * PAGE_SIZE) == n;
    BaseGrows(n * PAGE_SIZE, 0, rounds);
    WriteScan(states, steps, n * PAGE_SIZE);
  }

  /** The first read sweep after the write scan misses on every page. */
  lemma FirstReadSweepCost(states: seq<State>, steps: seq<Step>, rounds: nat)
    requires Behaviour(states, steps) && Initial(states[0]) && states[0].policy == Fifo
    requires states[0].nframes < states[0].npages
    requires Delta(steps, states[0].npages * PAGE_SIZE, rounds) && rounds > 0
    ensures var len := states[0].npages * PAGE_SIZE;
            && 2 * len < |states|
            && states[2 * len].faultCount - states[len].faultCount == states[0].npages
            && states[2 * len].readCount - states[len].readCount == states[0].npages
            && states[2 * len].writeCount - states[len].writeCount == states[0].nframes
  {
    hide Perform, Enabled, UpLog, Touch, Rounds, TableOk, FramesOk, CleanOk, FifoOk, CustomOk, Residents, Dirty;
    var n, f := states[0].npages, states[0].nframes;
    var len := n * PAGE_SIZE;
    AfterWriteScan(states, steps, n, rounds);
    NothingDirty(states, steps, n, rounds);
    RunInv(states, steps, len);
    RunSetup(states, steps, len);
    LoadsKeep(states, steps, len, 2 * len);
    FirstReadLog(states, steps, n, rounds);
    FifoExact(states[2 * len]);
  }

  lemma FirstReadLog(states: seq<State>, steps: seq<Step>, n: nat, rounds: nat)
    requires Behaviour(states, steps) && Initial(states[0]) && states[0].policy == Fifo
    requires n == states[0].npages > states[0].nframes > 0
    requires Delta(steps, n * PAGE_SIZE, rounds) && rounds > 0
    ensures 2 * n * PAGE_SIZE < |states| && |states[2 * n * PAGE_SIZE].fifo| == 2 * n
  {
    hide Perform, Enabled, Inv, UpLog, Touch, Rounds;
    var len, f := n * PAGE_SIZE, states[0].nframes;
    BaseGrows(len, 1, rounds);
    LogAfterRounds(states, steps, n, 0, rounds);
    assert RoundAt(steps, len, 0);
    assert Touched(len) == n;
    UpScan(states, steps, len, len);
    RoundsStart(f, n);
    SecondSweep(f, n, n);
  }

  lemma RoundsStart(f: nat, n: nat)
    ensures Rounds(Up(0, n), f, n, 0) == Up(0, n)
  {
  }

  lemma NothingDirty(states: seq<State>, steps: seq<Step>, n: nat, rounds: nat)
    requires Behaviour(states, steps) && Initial(states[0]) && states[0].policy == Fifo
    requires n == states[0].npages > states[0].nframes > 0
    requires Delta(steps, n * PAGE_SIZE, rounds) && rounds > 0
    ensures 2 * n * PAGE_SIZE < |states| && Inv(states[2 * n * PAGE_SIZE])
    ensures states[2 * n * PAGE_SIZE].policy == Fifo
    ensures Dirty(states[2 * n * PAGE_SIZE]) == {}
  {
    hide Perform, Enabled, TableOk, FramesOk, CleanOk, CountOk, FifoOk, CustomOk, Residents, Dirty, Rounds;
    var len := n * PAGE_SIZE;
    assert Touched(len) == n;
    CleanSweep(states, steps, n, len, rounds);
    RunInv(states, steps, 2 * len);
    RunSetup(states, steps, 2 * len);
    forall p ensures p !in Dirty(states[2 * len]) { BitSets(states[2 * len], p); }
  }

  /** Page loads of the delta program with `rounds` read rounds, in closed form. */
  function DeltaLoads(f: nat, n: nat, rounds: nat): int
    requires rounds > 0
  {
    3 * n - f + (rounds - 1) * (n - f + if f <= n - f then n - f else f)
  }

  lemma {:induction false} DeltaLoadsClosed(f: nat, n: nat, r: nat)
    requires 0 < f < n && r > 0
    ensures RoundLength(f, n, r) == DeltaLoads(f, n, r)
  {
    if r > 1 {
      DeltaLoadsClosed(f, n, r - 1);
      var k := n - f + if f <= n - f then n - f else f;
      assert 2 * n - f - FirstMiss(f, n) == k;
      assert (r - 2) * k + k == (r - 1) * k;
    }
  }

  /** The exact cost of the delta program under FIFO when memory is too small. */
  lemma DeltaFifoCost(states: seq<State>, steps: seq<Step>, rounds: nat)
    requires Behaviour(states, steps) && Initial(states[0]) && states[0].policy == Fifo
    requires states[0].nframes < states[0].npages
    requires Delta(steps, states[0].npages * PAGE_SIZE, rounds) && rounds > 0
    ensures var n, f := states[0].npages, states[0].nframes; var t := states[|steps|];
            && |t.fifo| == DeltaLoads(f, n, rounds)
            && t.readCount == DeltaLoads(f, n, rounds)
            && t.faultCount == DeltaLoads(f, n, rounds) + n
            && t.writeCount == n
  {
    hide Perform, Enabled, UpLog, Touch, Rounds, TableOk, FramesOk, CleanOk, FifoOk, CustomOk, Residents, Dirty;
    hide RoundLength, DeltaLoads;
    var n, f := states[0].npages, states[0].nframes;
    var len := n * PAGE_SIZE;
    AfterWriteScan(states, steps, n, rounds);
    NothingDirty(states, steps, n, rounds);
    BaseGrows(len, 1, rounds);
    LoadsKeep(states, steps, len, |steps|);
    LoadsKeep(states, steps, 2 * len, |steps|);
    RunInv(states, steps, |steps|);
    RunSetup(states, steps, |steps|);
    LogAfterRounds(states, steps, n, rounds, rounds);
    var g := RoundsShape(f, n, rounds);
    DeltaLoadsClosed(f, n, rounds);
    FifoExact(states[|steps|]);
  }

  ghost predicate AllIn(s: State) {
    Shape(s) && forall p :: 0 <= p < s.npages ==> s.bits[p].read
  }

  lemma AllResident(s: State)
    requires Inv(s) && Written(s, s.npages) && s.nframes == s.npages
    ensures AllIn(s)
  {
    SubsetBound(Residents(s), Below(s.npages));
    forall p | 0 <= p < s.npages ensures s.bits[p].read { assert p in Residents(s); }
  }

  lemma HitLoad(s: State, st: Step, t: State)
    requires Next(s, st, t) && st.access.Load? && AllIn(s)
    ensures t == s
  {
  }

  /** Loads from a memory that holds every page change nothing at all. */
  lemma {:induction false} ResidentLoads(states: seq<State>, steps: seq<Step>, b: nat, i: nat)
    requires Behaviour(states, steps) && LoadsFrom(steps, b) && b <= i <= |steps| && AllIn(states[b])
    ensures states[i] == states[b]
    decreases i
  {
    hide Inv, Perform, Enabled, AllIn;
    if b < i {
      ResidentLoads(states, steps, b, i - 1);
      assert NextAt(states, steps, i - 1);
      HitLoad(states[i - 1], steps[i - 1], states[i]);
    }
  }

  /** With a frame for every page the read rounds cost nothing, under any policy. */
  lemma DeltaFittingCost(states: seq<State>, steps: seq<Step>, rounds: nat)
    requires Behaviour(states, steps) && Initial(states[0])
    requires states[0].nframes == states[0].npages
    requires Delta(steps, states[0].npages * PAGE_SIZE, rounds)
    ensures var n := states[0].npages; var t := states[|steps|];
            t.readCount == n && t.faultCount == 2 * n && t.writeCount == 0
  {
    hide Perform, Enabled, TableOk, FramesOk, CleanOk, FifoOk, CustomOk, Residents, Dirty;
    var n := states[0].npages;
    var len := n * PAGE_SIZE;
    AfterWriteScan(states, steps, n, rounds);
    RunInv(states, steps, len);
    RunSetup(states, steps, len);
    AllResident(states[len]);
    BaseGrows(len, 0, rounds);
    ResidentLoads(states, steps, len, |steps|);
  }

  // ---- The 4096 slots of the page log ----

  lemma {:induction false} FifoGrows(states: seq<State>, steps: seq<Step>, i: nat, j: nat)
    requires Behaviour(states, steps) && states[0].policy == Fifo && i <= j <= |steps|
    ensures |states[i].fifo| <= |states[j].fifo|
    decreases j
  {
    hide Perform, Enabled, Inv, Recent;
    if i < j {
      FifoGrows(states, steps, i, j - 1);
      assert NextAt(states, steps, j - 1);
      RunInv(states, steps, j - 1);
      RunSetup(states, steps, j - 1);
      FifoAccess(states[j - 1], steps[j - 1]);
    }
  }

  /** Page loads of the whole program under FIFO, also with a frame for every page. */
  function FifoLoads(f: nat, n: nat, rounds: nat): int
    requires rounds > 0
  {
    if f < n then DeltaLoads(f, n, rounds) else n
  }

  lemma DeltaFifoLoads(states: seq<State>, steps: seq<Step>, rounds: nat)
    requires Behaviour(states, steps) && Initial(states[0]) && states[0].policy == Fifo
    requires Delta(steps, states[0].npages * PAGE_SIZE, rounds) && rounds > 0
    ensures |states[|steps|].fifo| == FifoLoads(states[0].nframes, states[0].npages, rounds)
  {
    hide Perform, Enabled, TableOk, FramesOk, CleanOk, FifoOk, CustomOk, DeltaLoads;
    if states[0].nframes < states[0].npages {
      DeltaFifoCost(states, steps, rounds);
    } else {
      DeltaFittingCost(states, steps, rounds);
      RunInv(states, steps, |steps|);
      RunSetup(states, steps, |steps|);
      FifoExact(states[|steps|]);
    }
  }

  /** The log array never overflows exactly when the number of page loads fits in it. */
  lemma DeltaFifoFits(states: seq<State>, steps: seq<Step>, rounds: nat)
    requires Behaviour(states, steps) && Initial(states[0]) && states[0].policy == Fifo
    requires Delta(steps, states[0].npages * PAGE_SIZE, rounds) && rounds > 0
    ensures (forall i :: 0 <= i <= |steps| ==> |states[i].fifo| <= 4096)
            <==> FifoLoads(states[0].nframes, states[0].npages, rounds) <= 4096
  {
    hide Perform, Enabled, Inv, FifoLoads;
    DeltaFifoLoads(states, steps, rounds);
    forall i | 0 <= i <= |steps| ensures |states[i].fifo| <= |states[|steps|].fifo| {
      FifoGrows(states, steps, i, |steps|);
    }
  }

  /** The accesses of the delta program, as a list. */
  function Program(len: nat, rounds: nat): (r: seq<Access>)
    requires len > 0
    ensures |r| == Base(len, rounds)
  {
    if rounds == 0 then seq(len, i requires 0 <= i < len => Store(i, (i % 256) as byte))
    else Program(len, rounds - 1)
         + seq(len, i requires 0 <= i < len => Load(i))
         + seq(len - 1, i requires 0 <= i < len - 1 => Load(len - 1 - i))
  }

  lemma {:induction false} ProgramPrefix(len: nat, r: nat, rounds: nat)
    requires len > 0 && r <= rounds
    ensures Base(len, r) <= Base(len, rounds)
    ensures Program(len, rounds)[..Base(len, r)] == Program(len, r)
    decreases rounds
  {
    if r < rounds {
      ProgramPrefix(len, r, rounds - 1);
      assert Program(len, rounds)[..Base(len, rounds - 1)] == Program(len, rounds - 1);
      assert Program(len, rounds)[..Base(len, r)] == Program(len, rounds - 1)[..Base(len, r)];
    }
  }

  lemma {:induction false} ProgramAccess(len: nat, rounds: nat, i: nat)
    requires len > 0 && i < Base(len, rounds)
    ensures 0 <= Program(len, rounds)[i].addr < len
    ensures Program(len, rounds)[i].Store? <==> i < len
  {
    BaseGrows(len, 0, rounds);
    if rounds > 0 {
      BaseGrows(len, 0, rounds - 1);
      if i < Base(len, rounds - 1) { ProgramAccess(len, rounds - 1, i); }
    }
  }

  lemma {:induction false} BaseClosed(len: nat, r: nat)
    requires len > 0
    ensures Base(len, r) == len + r * (2 * len - 1)
  {
    if r > 0 {
      BaseClosed(len, r - 1);
      assert r * (2 * len - 1) == (r - 1) * (2 * len - 1) + (2 * len - 1);
    }
  }

  lemma ProgramStart(len: nat, rounds: nat, i: nat)
    requires i < len
    ensures i < |Program(len, rounds)| && Program(len, rounds)[i] == Store(i, (i % 256) as byte)
  {
    hide Base;
    BaseGrows(len, 0, rounds);
    ProgramPrefix(len, 0, rounds);
    assert |Program(len, 0)| == len && Program(len, rounds)[..len][i] == Program(len, 0)[i];
  }

  lemma ProgramInRound(len: nat, rounds: nat, r: nat, i: nat)
    requires r < rounds && i < 2 * len - 1
    ensures Base(len, r) + i < |Program(len, rounds)|
    ensures Program(len, rounds)[Base(len, r) + i] == Load(if i < len then i else 2 * len - 1 - i)
  {
    ProgramPrefix(len, r + 1, rounds);
    RoundLast(len, r, i);
    var k := Base(len, r) + i;
    assert Program(len, rounds)[..Base(len, r + 1)][k] == Program(len, r + 1)[k];
  }

  lemma RoundLast(len: nat, r: nat, i: nat)
    requires i < 2 * len - 1
    ensures Base(len, r) + i < |Program(len, r + 1)|
    ensures Program(len, r + 1)[Base(len, r) + i] == Load(if i < len then i else 2 * len - 1 - i)
  {
  }

  /** The program access by access: every byte is stored its low address byte, then each round
      loads all bytes upwards and all but byte 0 downwards. */
  lemma ProgramExactly(len: nat, rounds: nat, r: nat, i: nat)
    requires len > 0
    ensures |Program(len, rounds)| == len + rounds * (2 * len - 1)
    ensures i < len ==> i < |Program(len, rounds)| && Program(len, rounds)[i] == Store(i, (i % 256) as byte)
    ensures r < rounds && i < 2 * len - 1 ==>
              var k := len + r * (2 * len - 1) + i;
              0 <= k < |Program(len, rounds)|
              && Program(len, rounds)[k] == Load(if i < len then i else 2 * len - 1 - i)
  {
    hide Program, Base;
    BaseClosed(len, rounds);
    if i < len { ProgramStart(len, rounds, i); }
    if r < rounds && i < 2 * len - 1 {
      BaseClosed(len, r);
      ProgramInRound(len, rounds, r, i);
    }
  }

  /** `Delta` says no more and no less than that the steps perform the program, whatever values
      the write scan stores. */
  lemma DeltaAccesses(steps: seq<Step>, len: nat, rounds: nat, i: nat)
    requires len > 0 && Delta(steps, len, rounds) && i < |steps|
    ensures |steps| == |Program(len, rounds)|
    ensures steps[i].access.addr == Program(len, rounds)[i].addr
    ensures steps[i].access.Store? <==> Program(len, rounds)[i].Store?
  {
    BaseGrows(len, 0, rounds);
    ProgramAccess(len, rounds, i);
    if i < len {
      ProgramExactly(len, rounds, 0, i);
    } else {
      var r := RoundOf(len, rounds, i);
      assert RoundAt(steps, len, r);
      BaseClosed(len, r);
      ProgramExactly(len, rounds, r, i - Base(len, r));
    }
  }

  lemma {:induction false} RoundOf(len: nat, rounds: nat, i: nat) returns (r: nat)
    requires len > 0 && len <= i < Base(len, rounds)
    ensures r < rounds && Base(len, r) <= i < Base(len, r + 1)
  {
    if i < Base(len, rounds - 1) { r := RoundOf(len, rounds - 1, i); } else { r := rounds - 1; }
  }

  lemma ProgramIsDelta(steps: seq<Step>, len: nat, rounds: nat)
    requires len > 0 && |steps| == Base(len, rounds)
    requires forall i :: 0 <= i < |steps| ==> steps[i].access == Program(len, rounds)[i]
    ensures Delta(steps, len, rounds)
  {
    ProgramPrefix(len, 0, rounds);
    forall i | 0 <= i < len ensures steps[i].access == Program(len, 0)[i] {
      assert Program(len, rounds)[..Base(len, 0)][i] == Program(len, rounds)[i];
    }
    forall i | len <= i < |steps| ensures steps[i].access.Load? { ProgramAccess(len, rounds, i); }
    forall r | 0 <= r < rounds ensures RoundAt(steps, len, r) { ProgramRound(steps, len, r, rounds); }
  }

  lemma ProgramRound(steps: seq<Step>, len: nat, r: nat, rounds: nat)
    requires len > 0 && |steps| == Base(len, rounds) && r < rounds
    requires forall i :: 0 <= i < |steps| ==> steps[i].access == Program(len, rounds)[i]
    ensures RoundAt(steps, len, r)
  {
    var b := Base(len, r);
    ProgramPrefix(len, r + 1, rounds);
    forall i | b <= i < Base(len, r + 1) ensures steps[i].access == Program(len, r + 1)[i] {
      assert Program(len, rounds)[..Base(len, r + 1)][i] == Program(len, rounds)[i];
    }
  }

  /** The delta program can run to completion from every initial state, under every policy. */
  lemma DeltaRuns(s: State, rounds: nat) returns (states: seq<State>, steps: seq<Step>)
    requires Initial(s)
    ensures Behaviour(states, steps) && states[0] == s && Delta(steps, s.npages * PAGE_SIZE, rounds)
  {
    var len := s.npages * PAGE_SIZE;
    InitialInv(s);
    forall i | 0 <= i < |Program(len, rounds)| ensures InRange(s, Program(len, rounds)[i]) {
      ProgramAccess(len, rounds, i);
    }
    states, steps := RunExists(s, Program(len, rounds));
    ProgramIsDelta(steps, len, rounds);
  }

  /** With 400 pages, 100 frames and FIFO, every run of the delta program walks off the log. */
  lemma DeltaOverruns(s: State) returns (states: seq<State>, steps: seq<Step>)
    requires Initial(s) && s.policy == Fifo && s.npages == 400 && s.nframes == 100
    ensures Behaviour(states, steps) && states[0] == s && Delta(steps, s.npages * PAGE_SIZE, 10)
    ensures |states[|steps|].fifo| == 6500 > 4096
  {
    states, steps := DeltaRuns(s, 10);
    DeltaFifoCost(states, steps, 10);
  }
}
