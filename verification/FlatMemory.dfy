/** The paged machine seen by a program: loads and stores that fault until they are permitted
    behave like loads and stores on one flat array of bytes, under every policy. */
module FlatMemory {
  import opened PagedMemory
  import opened PageFault

  datatype Access = Load(addr: int) | Store(addr: int, value: byte)

  /** An access together with the victim the handler picks should it need one. */
  datatype Step = Step(access: Access, victim: int)

  function PageOf(addr: int): int {
    addr / PAGE_SIZE
  }

  function OffsetOf(addr: int): (r: int)
    ensures 0 <= r < PAGE_SIZE
  {
    addr % PAGE_SIZE
  }

  predicate InRange(s: State, a: Access) {
    0 <= a.addr < s.npages * PAGE_SIZE
  }

  // ---- One access ----

  /** Fault until the page's bits permit the access. */
  function Admit(s: State, page: int, write: bool, victim: int): (t: State)
    requires Faultable(s, page, victim)
    ensures Shape(t) && SameSetup(s, t)
    ensures t.bits[page].read && (write ==> t.bits[page].write) && Mapped(t, page)
  {
    var t := if s.bits[page].read then s else Fault(s, page, victim);
    if write && !t.bits[page].write then Fault(t, page, victim) else t
  }

  function Poke(s: State, addr: int, value: byte): State
    requires Shape(s) && 0 <= addr < s.npages * PAGE_SIZE
    requires 0 <= s.mapping[PageOf(addr)] < s.nframes
  {
    var frame := s.mapping[PageOf(addr)];
    s.(phys := s.phys[frame := s.phys[frame][OffsetOf(addr) := value]])
  }

  predicate Enabled(s: State, st: Step) {
    InRange(s, st.access) && Faultable(s, PageOf(st.access.addr), st.victim)
  }

  function Perform(s: State, st: Step): State
    requires Enabled(s, st)
  {
    var t := Admit(s, PageOf(st.access.addr), st.access.Store?, st.victim);
    if st.access.Store? then Poke(t, st.access.addr, st.access.value) else t
  }

  /** The byte the access reads, or has just written, in the frame the page is mapped to. */
  function Observed(s: State, st: Step): byte
    requires Enabled(s, st)
  {
    var t := Perform(s, st);
    t.phys[t.mapping[PageOf(st.access.addr)]][OffsetOf(st.access.addr)]
  }

  lemma AdmitKeepsInv(s: State, page: int, write: bool, victim: int)
    requires Inv(s) && Faultable(s, page, victim)
    ensures Inv(Admit(s, page, write, victim))
  {
    FaultKeepsInv(s, page, victim);
    var t := if s.bits[page].read then s else Fault(s, page, victim);
    FaultKeepsInv(t, page, victim);
  }

  lemma AdmitResidents(s: State, page: int, write: bool, victim: int)
    requires Inv(s) && Faultable(s, page, victim)
    ensures Residents(Admit(s, page, write, victim)) ==
              (if s.bits[page].read then Residents(s) else Residents(Fault(s, page, victim)))
  {
    FaultResidents(s, page, victim);
    FaultGrants(s, page, victim);
    FaultKeepsInv(s, page, victim);
    var t := if s.bits[page].read then s else Fault(s, page, victim);
    if write && !t.bits[page].write { FaultResidents(t, page, victim); }
  }

  lemma AdmitLogs(s: State, page: int, write: bool, victim: int)
    requires Inv(s) && Faultable(s, page, victim)
    ensures var t := Admit(s, page, write, victim);
            && t.readCount == s.readCount + (if s.bits[page].read then 0 else 1)
            && t.fifo == (if s.policy == Fifo && !s.bits[page].read then s.fifo + [page] else s.fifo)
  {
    FaultLogs(s, page, victim);
    FaultGrants(s, page, victim);
    FaultKeepsInv(s, page, victim);
    var t := if s.bits[page].read then s else Fault(s, page, victim);
    if write && !t.bits[page].write { FaultLogs(t, page, victim); }
  }

  lemma AdmitDirty(s: State, page: int, write: bool, victim: int)
    requires Inv(s) && Faultable(s, page, victim)
    ensures Dirty(Admit(s, page, write, victim)) ==
              (if !s.bits[page].read && Full(s) then Dirty(s) - {victim} else Dirty(s))
              + (if write then {page} else {})
  {
    hide Fault, TableOk, FramesOk, CleanOk, CountOk, FifoOk, CustomOk;
    FaultDirty(s, page, victim);
    FaultGrants(s, page, victim);
    FaultKeepsInv(s, page, victim);
    var t := if s.bits[page].read then s else Fault(s, page, victim);
    if write {
      if t.bits[page].write { assert page in Dirty(t); } else { FaultDirty(t, page, victim); }
    }
  }

  lemma AdmitKeepsView(s: State, page: int, write: bool, victim: int)
    requires Inv(s) && Faultable(s, page, victim)
    ensures Inv(Admit(s, page, write, victim))
    ensures forall p :: 0 <= p < s.npages ==> View(Admit(s, page, write, victim), p) == View(s, p)
  {
    AdmitKeepsInv(s, page, write, victim);
    FaultKeepsView(s, page, victim);
    FaultGrants(s, page, victim);
    var t := if s.bits[page].read then s else Fault(s, page, victim);
    if write && !t.bits[page].write { FaultKeepsView(t, page, victim); }
  }

  lemma PokeKeeps(s: State, addr: int, value: byte)
    requires Inv(s) && 0 <= addr < s.npages * PAGE_SIZE && s.bits[PageOf(addr)].write
    ensures Inv(Poke(s, addr, value))
    ensures forall p :: 0 <= p < s.npages ==>
              View(Poke(s, addr, value), p) ==
                if p == PageOf(addr) then View(s, p)[OffsetOf(addr) := value] else View(s, p)
  {
    var t := Poke(s, addr, value);
    assert Residents(t) == Residents(s);
    assert Dirty(t) == Dirty(s);
    forall p | 0 <= p < s.npages && p != PageOf(addr) && s.bits[p].read
      ensures s.mapping[p] != s.mapping[PageOf(addr)] {}
  }

  lemma PerformKeeps(s: State, st: Step)
    requires Inv(s) && Enabled(s, st)
    ensures Inv(Perform(s, st)) && SameSetup(s, Perform(s, st))
    ensures Perform(s, st).bits[PageOf(st.access.addr)].read
  {
    AdmitKeepsInv(s, PageOf(st.access.addr), st.access.Store?, st.victim);
    if st.access.Store? {
      PokeKeeps(Admit(s, PageOf(st.access.addr), true, st.victim), st.access.addr, st.access.value);
    }
  }

  /** A load costs at most one fault, a store at most two; permitted accesses cost none. */
  lemma AccessCost(s: State, st: Step)
    requires Inv(s) && Enabled(s, st)
    ensures var b := s.bits[PageOf(st.access.addr)];
            Perform(s, st).faultCount == s.faultCount
              + (if b.read then 0 else 1) + (if st.access.Store? && !b.write then 1 else 0)
  {
    var page := PageOf(st.access.addr);
    FaultGrants(s, page, st.victim);
    FaultKeepsInv(s, page, st.victim);
    var t := if s.bits[page].read then s else Fault(s, page, st.victim);
    FaultGrants(t, page, st.victim);
  }

  /** What an access does to the resident set, the dirty set, the counters and the FIFO log. */
  lemma PerformEffect(s: State, st: Step)
    requires Inv(s) && Enabled(s, st)
    ensures var t := Perform(s, st);
            var page := PageOf(st.access.addr);
            var miss := !s.bits[page].read;
            && Residents(t) == (if !miss then Residents(s)
                                else if !Full(s) then Residents(s) + {page}
                                else Residents(s) - {st.victim} + {page})
            && Dirty(t) == (if miss && Full(s) then Dirty(s) - {st.victim} else Dirty(s))
                           + (if st.access.Store? then {page} else {})
            && t.readCount == s.readCount + (if miss then 1 else 0)
            && t.fifo == (if s.policy == Fifo && miss then s.fifo + [page] else s.fifo)
  {
    var page := PageOf(st.access.addr);
    AdmitLogs(s, page, st.access.Store?, st.victim);
    AdmitDirty(s, page, st.access.Store?, st.victim);
    AdmitResidents(s, page, st.access.Store?, st.victim);
    FaultResidents(s, page, st.victim);
    var t := Admit(s, page, st.access.Store?, st.victim);
    assert Residents(Perform(s, st)) == Residents(t) && Dirty(Perform(s, st)) == Dirty(t);
  }

  // ---- The flat array ----

  ghost function Flat(s: State): (m: seq<byte>)
    requires Inv(s)
    ensures |m| == s.npages * PAGE_SIZE
  {
    seq(s.npages * PAGE_SIZE, a requires 0 <= a < s.npages * PAGE_SIZE && Inv(s) => View(s, PageOf(a))[OffsetOf(a)])
  }

  function FlatApply(m: seq<byte>, a: Access): seq<byte> {
    if a.Store? && 0 <= a.addr < |m| then m[a.addr := a.value] else m
  }

  /** The flat array after the first `n` accesses. */
  function FlatAfter(m: seq<byte>, steps: seq<Step>, n: nat): (r: seq<byte>)
    requires n <= |steps|
    ensures |r| == |m|
  {
    if n == 0 then m else FlatApply(FlatAfter(m, steps, n - 1), steps[n - 1].access)
  }

  lemma Split(addr: int)
    ensures addr == PageOf(addr) * PAGE_SIZE + OffsetOf(addr)
  {
  }

  lemma PokeRefines(s: State, addr: int, value: byte)
    requires Inv(s) && 0 <= addr < s.npages * PAGE_SIZE && s.bits[PageOf(addr)].write
    ensures Inv(Poke(s, addr, value))
    ensures Flat(Poke(s, addr, value)) == Flat(s)[addr := value]
  {
    PokeKeeps(s, addr, value);
    var t := Poke(s, addr, value);
    forall a | 0 <= a < s.npages * PAGE_SIZE ensures Flat(t)[a] == Flat(s)[addr := value][a] {
      Split(a);
      Split(addr);
      assert Flat(t)[a] == View(t, PageOf(a))[OffsetOf(a)];
    }
  }

  lemma AdmitRefines(s: State, page: int, write: bool, victim: int)
    requires Inv(s) && Faultable(s, page, victim)
    ensures Inv(Admit(s, page, write, victim)) && Flat(Admit(s, page, write, victim)) == Flat(s)
  {
    AdmitKeepsView(s, page, write, victim);
  }

  /** One access does to the machine exactly what it does to the flat array. */
  lemma PerformRefines(s: State, st: Step)
    requires Inv(s) && Enabled(s, st)
    ensures Inv(Perform(s, st)) && SameSetup(s, Perform(s, st))
    ensures Flat(Perform(s, st)) == FlatApply(Flat(s), st.access)
    ensures Observed(s, st) == FlatApply(Flat(s), st.access)[st.access.addr]
  {
    var addr := st.access.addr;
    var t := Admit(s, PageOf(addr), st.access.Store?, st.victim);
    AdmitRefines(s, PageOf(addr), st.access.Store?, st.victim);
    if st.access.Store? { PokeRefines(t, addr, st.access.value); }
    PerformKeeps(s, st);
    ObservedIsFlat(s, st);
  }

  lemma ObservedIsFlat(s: State, st: Step)
    requires Inv(s) && Enabled(s, st)
    ensures Inv(Perform(s, st)) && Perform(s, st).npages == s.npages
    ensures Observed(s, st) == Flat(Perform(s, st))[st.access.addr]
  {
    PerformKeeps(s, st);
    assert Flat(Perform(s, st))[st.access.addr]
        == View(Perform(s, st), PageOf(st.access.addr))[OffsetOf(st.access.addr)];
  }

  // ---- Whole runs ----

  predicate Next(s: State, st: Step, t: State) {
    Enabled(s, st) && t == Perform(s, st)
  }

  /** A run of the machine: `states[i]` is the state before `steps[i]`. */
  ghost predicate Behaviour(states: seq<State>, steps: seq<Step>) {
    && |states| == |steps| + 1
    && Inv(states[0])
    && forall i :: 0 <= i < |steps| ==> NextAt(states, steps, i)
  }

  predicate NextAt(states: seq<State>, steps: seq<Step>, i: nat)
    requires i < |steps| < |states|
  {
    Next(states[i], steps[i], states[i + 1])
  }

  lemma NextRefines(s: State, st: Step, t: State)
    requires Inv(s) && Next(s, st, t)
    ensures Inv(t) && Flat(t) == FlatApply(Flat(s), st.access)
  {
    PerformRefines(s, st);
  }

  lemma NextSetup(s: State, st: Step, t: State)
    requires Next(s, st, t)
    ensures SameSetup(s, t)
  {
  }

  lemma {:induction false} RunInv(states: seq<State>, steps: seq<Step>, n: nat)
    requires Behaviour(states, steps) && n <= |steps|
    ensures Inv(states[n])
  {
    hide Perform, Enabled, Inv, Flat;
    if n > 0 {
      RunInv(states, steps, n - 1);
      assert NextAt(states, steps, n - 1);
      NextRefines(states[n - 1], steps[n - 1], states[n]);
    }
  }

  lemma {:induction false} RunSetup(states: seq<State>, steps: seq<Step>, n: nat)
    requires Behaviour(states, steps) && n <= |steps|
    ensures SameSetup(states[0], states[n])
  {
    hide Perform, Enabled, Inv;
    if n > 0 {
      RunSetup(states, steps, n - 1);
      assert NextAt(states, steps, n - 1);
      NextSetup(states[n - 1], steps[n - 1], states[n]);
    }
  }

  /** Refinement: after any prefix of any run the machine holds the flat array. */
  lemma {:induction false} RunRefinesFlat(states: seq<State>, steps: seq<Step>, n: nat)
    requires Behaviour(states, steps) && n <= |steps|
    ensures Inv(states[n])
    ensures Flat(states[n]) == FlatAfter(Flat(states[0]), steps, n)
  {
    hide Perform, Enabled, Inv, Flat;
    if n > 0 {
      RunRefinesFlat(states, steps, n - 1);
      assert NextAt(states, steps, n - 1);
      NextRefines(states[n - 1], steps[n - 1], states[n]);
    }
  }

  /** At every point of every run: each fault paid for one disk read, one disk write or one page
      that is still dirty. */
  lemma RunConservesCounts(states: seq<State>, steps: seq<Step>, n: nat)
    requires Behaviour(states, steps) && n <= |steps|
    ensures states[n].faultCount == states[n].readCount + states[n].writeCount + |Dirty(states[n])|
  {
    RunInv(states, steps, n);
  }

  /** At every point of every run: two resident pages never share a frame, bits are none, read or
      read-write, and an unwritten resident page equals its disk block. */
  lemma RunKeepsFrames(states: seq<State>, steps: seq<Step>, n: nat, p: int, q: int)
    requires Behaviour(states, steps) && n <= |steps|
    requires 0 <= p < |states[n].bits| && 0 <= q < |states[n].bits| && p != q
    ensures var s := states[n];
            && |s.mapping| == |s.disk| == |s.bits|
            && (s.bits[p] == NONE || s.bits[p] == R || s.bits[p] == RW)
            && (s.bits[p].read ==> 0 <= s.mapping[p] < |s.phys|)
            && (s.bits[p].read && s.bits[q].read ==> s.mapping[p] != s.mapping[q])
            && (s.bits[p] == R ==> s.phys[s.mapping[p]] == s.disk[p])
  {
    RunInv(states, steps, n);
  }

  /** Every access of a run observes the flat array's byte. */
  lemma RunObservesFlat(states: seq<State>, steps: seq<Step>, n: nat)
    requires Behaviour(states, steps) && n < |steps|
    ensures Enabled(states[n], steps[n]) && 0 <= steps[n].access.addr < |Flat(states[0])|
    ensures Observed(states[n], steps[n])
         == FlatAfter(Flat(states[0]), steps, n + 1)[steps[n].access.addr]
  {
    RunSetup(states, steps, n);
    RunRefinesFlat(states, steps, n);
    assert NextAt(states, steps, n);
    PerformRefines(states[n], steps[n]);
  }

  // ---- What the flat array is ----

  /** Step `k` is the last of the first `n` that stores to `a`. */
  predicate LastStore(steps: seq<Step>, n: nat, a: int, k: nat)
    requires n <= |steps|
  {
    k < n && StoresTo(steps[k], a) && forall i :: k < i < n ==> !StoresTo(steps[i], a)
  }

  predicate StoresTo(st: Step, a: int) {
    st.access.Store? && st.access.addr == a
  }

  /** A byte of the flat array holds what was last stored there, or what it held at the start. */
  lemma {:induction false} FlatHoldsLastStore(m: seq<byte>, steps: seq<Step>, n: nat, a: nat)
    requires n <= |steps| && a < |m|
    ensures forall k: nat :: LastStore(steps, n, a, k) ==> FlatAfter(m, steps, n)[a] == steps[k].access.value
    ensures (forall k :: 0 <= k < n ==> !StoresTo(steps[k], a)) ==> FlatAfter(m, steps, n)[a] == m[a]
  {
    if n > 0 {
      FlatHoldsLastStore(m, steps, n - 1, a);
      forall k: nat | LastStore(steps, n, a, k) ensures FlatAfter(m, steps, n)[a] == steps[k].access.value {
        if k < n - 1 { assert LastStore(steps, n - 1, a, k) && !StoresTo(steps[n - 1], a); }
      }
      if forall k :: 0 <= k < n ==> !StoresTo(steps[k], a) { assert !StoresTo(steps[n - 1], a); }
    }
  }

  /** At the start it is the disk, page after page. */
  lemma InitialFlat(s: State, a: nat)
    requires Initial(s) && a < s.npages * 4096
    ensures Inv(s) && a < |Flat(s)| && a / 4096 < |s.disk| && Flat(s)[a] == s.disk[a / 4096][a % 4096]
  {
    InitialInv(s);
  }

  /** From the initial state, a load reads the byte last stored at its address, or the disk's. */
  lemma RunLoadsLastStore(states: seq<State>, steps: seq<Step>, n: nat, k: nat)
    requires Behaviour(states, steps) && Initial(states[0]) && n < |steps| && steps[n].access.Load?
    ensures Enabled(states[n], steps[n])
    ensures var a := steps[n].access.addr;
            && 0 <= a < states[0].npages * 4096
            && (LastStore(steps, n, a, k) ==> Observed(states[n], steps[n]) == steps[k].access.value)
            && ((forall i :: 0 <= i < n ==> !StoresTo(steps[i], a)) ==>
                  a / 4096 < |states[0].disk| && Observed(states[n], steps[n]) == states[0].disk[a / 4096][a % 4096])
  {
    hide Inv, Flat, Observed, Initial;
    RunObservesFlat(states, steps, n);
    var a := steps[n].access.addr;
    FlatHoldsLastStore(Flat(states[0]), steps, n, a);
    InitialFlat(states[0], a);
  }
}
