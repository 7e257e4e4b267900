/** Exact fault and disk-transfer counts of the programs' sequential scans. */
module ScanCost {
  import opened PagedMemory
  import opened PageFault
  import opened FlatMemory
  import opened Replacement

  /** How many pages the first `i` bytes of an upward scan touch. */
  function Touched(i: nat): nat {
    (i + PAGE_SIZE - 1) / PAGE_SIZE
  }

  lemma TouchedStep(i: nat)
    ensures i % PAGE_SIZE == 0 ==> Touched(i) == PageOf(i) && Touched(i + 1) == Touched(i) + 1
    ensures i % PAGE_SIZE != 0 ==> Touched(i) == PageOf(i) + 1 && Touched(i + 1) == Touched(i)
  {
  }

  // ---- The initial write scan, under any policy ----

  /** The counters after `n` pages were written from an empty table, and what makes them so:
      everything resident is dirty. */
  ghost predicate Written(s: State, n: nat) {
    && Dirty(s) == Residents(s)
    && |Residents(s)| == (if n <= s.nframes then n else s.nframes)
    && (forall p :: p in Residents(s) ==> 0 <= p < n)
    && (n > 0 ==> n - 1 in Residents(s))
    && s.readCount == n
    && s.faultCount == 2 * n
  }

  lemma InitialWritten(s: State)
    requires Initial(s)
    ensures Inv(s) && Written(s, 0)
  {
    InitialInv(s);
    assert Residents(s) == {};
    assert Dirty(s) == {};
  }

  lemma SwapIn(a: set<int>, v: int, n: int)
    requires n !in a
    ensures |a + {n}| == |a| + 1
    ensures v in a ==> |a - {v} + {n}| == |a|
  {
    if v in a { assert |a - {v}| == |a| - 1; }
  }

  /** First byte of a page: two faults, and any victim was dirty already. */
  lemma WriteFreshPage(s: State, st: Step, n: nat)
    requires Inv(s) && Enabled(s, st) && st.access.Store? && PageOf(st.access.addr) == n && Written(s, n)
    ensures Written(Perform(s, st), n + 1)
  {
    hide Perform, TableOk, FramesOk, CleanOk, CountOk, FifoOk, CustomOk, MayEvict, Residents, Dirty;
    PerformEffect(s, st);
    PerformKeeps(s, st);
    AccessCost(s, st);
    FullCount(s);
    BitSets(s, n);
    SwapIn(Residents(s), st.victim, n);
    if Full(s) { VictimIsResident(s, st.victim); }
  }

  /** Later bytes of the page: no fault at all. */
  lemma WriteSamePage(s: State, st: Step, n: nat)
    requires Inv(s) && Enabled(s, st) && st.access.Store? && PageOf(st.access.addr) == n - 1 && n > 0 && Written(s, n)
    ensures Written(Perform(s, st), n)
  {
    hide Perform, TableOk, FramesOk, CleanOk, CountOk, FifoOk, CustomOk, MayEvict, Residents, Dirty;
    PerformEffect(s, st);
    PerformKeeps(s, st);
    AccessCost(s, st);
    BitSets(s, n - 1);
    assert Dirty(s) + {n - 1} == Dirty(s);
  }

  lemma WriteStep(s: State, st: Step, i: nat)
    requires Inv(s) && Enabled(s, st) && st.access.Store? && st.access.addr == i && Written(s, Touched(i))
    ensures Written(Perform(s, st), Touched(i + 1))
  {
    hide Perform, Enabled, Written;
    TouchedStep(i);
    if i % PAGE_SIZE == 0 { WriteFreshPage(s, st, Touched(i)); } else { WriteSamePage(s, st, Touched(i)); }
  }

  /** `steps[b..]` starts with one store to each of the first `n` bytes, in order. */
  ghost predicate StoresUp(steps: seq<Step>, b: nat, n: nat) {
    && b + n <= |steps|
    && forall i :: b <= i < b + n ==> steps[i].access.Store? && steps[i].access.addr == i - b
  }

  lemma {:induction false} WriteScan(states: seq<State>, steps: seq<Step>, i: nat)
    requires Behaviour(states, steps) && Initial(states[0]) && StoresUp(steps, 0, i)
    ensures Written(states[i], Touched(i))
  {
    hide Perform, Enabled, Inv, Written, Initial;
    if i == 0 {
      InitialWritten(states[0]);
    } else {
      WriteScan(states, steps, i - 1);
      assert NextAt(states, steps, i - 1);
      RunInv(states, steps, i - 1);
      WriteStep(states[i - 1], steps[i - 1], i - 1);
    }
  }

  /** Writing every byte once from an empty table costs the same under every policy and with
      every choice of victims. */
  lemma WriteScanCost(states: seq<State>, steps: seq<Step>)
    requires Behaviour(states, steps) && Initial(states[0])
    requires StoresUp(steps, 0, states[0].npages * PAGE_SIZE)
    ensures var s := states[0]; var t := states[s.npages * PAGE_SIZE];
            && t.faultCount == 2 * s.npages
            && t.readCount == s.npages
            && t.writeCount == s.npages - s.nframes
  {
    var s, n := states[0], states[0].npages * PAGE_SIZE;
    WriteScan(states, steps, n);
    RunInv(states, steps, n);
    RunSetup(states, steps, n);
    assert Touched(n) == s.npages;
  }

  // ---- Loads under any policy ----

  /** A load never makes a page dirty, and costs one disk read per fault. */
  lemma LoadStep(s: State, st: Step)
    requires Inv(s) && Enabled(s, st) && st.access.Load?
    ensures var t := Perform(s, st);
            && Dirty(t) <= Dirty(s)
            && t.faultCount - t.readCount == s.faultCount - s.readCount
  {
    hide Perform, TableOk, FramesOk, CleanOk, CountOk, FifoOk, CustomOk, MayEvict, Residents, Dirty;
    PerformEffect(s, st);
    AccessCost(s, st);
  }

  ghost predicate LoadsFrom(steps: seq<Step>, b: nat) {
    forall i :: b <= i < |steps| ==> steps[i].access.Load?
  }

  lemma {:induction false} LoadsKeep(states: seq<State>, steps: seq<Step>, b: nat, i: nat)
    requires Behaviour(states, steps) && LoadsFrom(steps, b) && b <= i <= |steps|
    ensures Dirty(states[i]) <= Dirty(states[b])
    ensures states[i].faultCount - states[i].readCount == states[b].faultCount - states[b].readCount
    decreases i
  {
    hide Perform, Enabled, Inv, Dirty;
    if b < i {
      LoadsKeep(states, steps, b, i - 1);
      assert NextAt(states, steps, i - 1);
      RunInv(states, steps, i - 1);
      LoadStep(states[i - 1], steps[i - 1]);
    }
  }
}
