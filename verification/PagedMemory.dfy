/** The demand-paged machine as a value: physical memory, disk, page table, and the
    bookkeeping of the page-fault handler. Every fault is a function of the old state,
    the faulting page and the victim that was picked. */
module PagedMemory {

  const PAGE_SIZE: nat := 4096

  /** Size of the arrays behind the two page logs. */
  const LOG_SLOTS: nat := 4096

  newtype byte = b: int | 0 <= b < 256

  type Page = p: seq<byte> | |p| == PAGE_SIZE witness seq(PAGE_SIZE, _ => 0)

  datatype Policy = Rand | Fifo | Custom

  datatype Prot = Prot(read: bool, write: bool)

  const NONE := Prot(false, false)
  const R := Prot(true, false)
  const RW := Prot(true, true)

  /** `physFree[i] == 0` means frame `i` is free, whatever the name says. `fifo` and `custom`
      are the filled prefixes of the two page logs, so their lengths are the push indices. */
  datatype State = State(
    npages: nat,
    nframes: nat,
    policy: Policy,
    phys: seq<Page>,
    disk: seq<Page>,
    mapping: seq<int>,
    bits: seq<Prot>,
    physFree: seq<int>,
    fifo: seq<int>,
    pop: nat,
    custom: seq<int>,
    customPop: nat,
    faultCount: nat,
    readCount: nat,
    writeCount: nat
  )

  function BuffSize(nframes: nat): nat {
    if nframes < 10 then 3 else 10
  }

  /** How many log slots the custom policy scans before it accepts a victim. */
  function Window(nframes: nat): nat {
    nframes / BuffSize(nframes)
  }

  // ---- What is resident, what is dirty, what a program sees ----

  ghost function Residents(s: State): set<int> {
    set p | 0 <= p < |s.bits| && s.bits[p].read
  }

  ghost function Dirty(s: State): set<int> {
    set p | 0 <= p < |s.bits| && s.bits[p].write
  }

  lemma BitSets(s: State, p: int)
    ensures p in Residents(s) <==> 0 <= p < |s.bits| && s.bits[p].read
    ensures p in Dirty(s) <==> 0 <= p < |s.bits| && s.bits[p].write
  {
  }

  ghost predicate Distinct(q: seq<int>) {
    forall i, j :: 0 <= i < j < |q| ==> q[i] != q[j]
  }

  ghost function Elems(q: seq<int>): set<int> {
    set p | p in q
  }

  /** `q` lists the elements of `a`, each exactly once. */
  ghost predicate Lists(q: seq<int>, a: set<int>) {
    Distinct(q) && |q| == |a| && Elems(q) == a
  }

  predicate Shape(s: State) {
    && 3 <= s.nframes <= s.npages
    && |s.phys| == s.nframes
    && |s.disk| == s.npages
    && |s.mapping| == s.npages
    && |s.bits| == s.npages
    && |s.physFree| == s.nframes
  }

  ghost predicate TableOk(s: State)
    requires Shape(s)
  {
    && (forall p :: 0 <= p < s.npages && s.bits[p].write ==> s.bits[p].read)
    && (forall p :: 0 <= p < s.npages && s.bits[p].read ==> 0 <= s.mapping[p] < s.nframes)
    && (forall p, q :: 0 <= p < q < s.npages && s.bits[p].read && s.bits[q].read
                       ==> s.mapping[p] != s.mapping[q])
  }

  /** Frames are handed out lowest first and are never given back. */
  ghost predicate FramesOk(s: State)
    requires Shape(s)
  {
    && |Residents(s)| <= s.nframes
    && (forall i :: 0 <= i < s.nframes ==> s.physFree[i] == if i < |Residents(s)| then 1 else 0)
    && (forall p :: 0 <= p < s.npages && s.bits[p].read ==> s.mapping[p] < |Residents(s)|)
  }

  ghost predicate CleanOk(s: State)
    requires Shape(s) && TableOk(s)
  {
    forall p :: 0 <= p < s.npages && s.bits[p] == R ==> s.phys[s.mapping[p]] == s.disk[p]
  }

  ghost predicate CountOk(s: State) {
    s.faultCount == s.readCount + s.writeCount + |Dirty(s)|
  }

  /** The live part of the FIFO log lists the resident pages, oldest load first. */
  ghost predicate FifoOk(s: State) {
    && s.pop <= |s.fifo|
    && Lists(s.fifo[s.pop..], Residents(s))
    && (s.pop > 0 ==> |s.fifo| - s.pop == s.nframes)
    && s.readCount == |s.fifo|
  }

  /** The custom log protects fewer than `Window` pages, all of them resident. */
  ghost predicate CustomOk(s: State) {
    && s.customPop <= |s.custom|
    && |s.custom| - s.customPop < Window(s.nframes)
    && Distinct(s.custom[s.customPop..])
    && Elems(s.custom[s.customPop..]) <= Residents(s)
    && (|s.custom| - s.customPop == Window(s.nframes) - 1 || s.customPop == 0)
    && s.readCount == |s.custom|
  }

  /** The two states belong to the same machine. */
  predicate SameSetup(s: State, t: State) {
    s.npages == t.npages && s.nframes == t.nframes && s.policy == t.policy
  }

  ghost predicate Inv(s: State) {
    && Shape(s)
    && TableOk(s)
    && FramesOk(s)
    && CleanOk(s)
    && CountOk(s)
    && (s.policy == Fifo ==> FifoOk(s))
    && (s.policy == Custom ==> CustomOk(s))
  }

  /** What `main` and `page_table_create` set up; disk and memory contents are arbitrary. */
  ghost predicate Initial(s: State) {
    && Shape(s)
    && (forall p :: 0 <= p < s.npages ==> s.bits[p] == NONE)
    && (forall i :: 0 <= i < s.nframes ==> s.physFree[i] == 0)
    && s.fifo == [] && s.pop == 0
    && s.custom == [] && s.customPop == 0
    && s.faultCount == s.readCount == s.writeCount == 0
  }

  ghost function View(s: State, p: int): Page
    requires Inv(s) && 0 <= p < s.npages
  {
    if s.bits[p].read then s.phys[s.mapping[p]] else s.disk[p]
  }

  // ---- The handler ----

  /** Index of the lowest free frame, or the number of frames when none is free. */
  function FirstFree(physFree: seq<int>): (i: nat)
    ensures i <= |physFree|
    ensures i < |physFree| ==> physFree[i] == 0
    ensures forall j :: 0 <= j < i ==> physFree[j] != 0
  {
    if physFree == [] || physFree[0] == 0 then 0 else 1 + FirstFree(physFree[1..])
  }

  predicate Full(s: State) {
    FirstFree(s.physFree) == |s.physFree|
  }

  /** The exit test of each policy's victim search. Under the custom policy the scan is
      inclusive of the next, still zero, log slot, so page 0 never passes. */
  predicate MayEvict(s: State, victim: int)
    requires Shape(s)
  {
    && 0 <= victim < s.npages
    && match s.policy
       case Rand => s.bits[victim].read
       case Fifo => s.pop < |s.fifo| && victim == s.fifo[s.pop]
       case Custom => s.bits[victim].read && victim != 0
                      && s.customPop <= |s.custom| && victim !in s.custom[s.customPop..]
  }

  /** Append a loaded page to the log of the policy in use. */
  function Note(s: State, page: int): State {
    match s.policy
    case Rand => s
    case Fifo => s.(fifo := s.fifo + [page])
    case Custom =>
      s.(custom := s.custom + [page],
         customPop := if |s.custom| + 1 - s.customPop == Window(s.nframes) then s.customPop + 1
                      else s.customPop)
  }

  function Tick(s: State): State {
    s.(faultCount := s.faultCount + 1)
  }

  /** Map `page` read-only to `frame` and fill the frame from disk. */
  function Fetch(s: State, page: int, frame: int): State
    requires Shape(s) && 0 <= page < s.npages && 0 <= frame < s.nframes
  {
    s.(mapping := s.mapping[page := frame],
       bits := s.bits[page := R],
       phys := s.phys[frame := s.disk[page]],
       readCount := s.readCount + 1)
  }

  function FaultFree(s: State, page: int): State
    requires Shape(s) && 0 <= page < s.npages && !Full(s)
  {
    var frame := FirstFree(s.physFree);
    Note(Fetch(s, page, frame).(physFree := s.physFree[frame := 1]), page)
  }

  /** Take `victim` out of memory, writing it back when dirty. */
  function Unload(s: State, victim: int): State
    requires Shape(s) && 0 <= victim < s.npages
    requires s.bits[victim].write ==> 0 <= s.mapping[victim] < s.nframes
  {
    s.(disk := if s.bits[victim].write then s.disk[victim := s.phys[s.mapping[victim]]] else s.disk,
       writeCount := if s.bits[victim].write then s.writeCount + 1 else s.writeCount,
       mapping := s.mapping[victim := 0],
       bits := s.bits[victim := NONE],
       pop := if s.policy == Fifo then s.pop + 1 else s.pop)
  }

  function FaultEvict(s: State, page: int, victim: int): State
    requires Shape(s) && 0 <= page < s.npages && 0 <= victim < s.npages
    requires 0 <= s.mapping[victim] < s.nframes
  {
    Note(Fetch(Unload(s, victim), page, s.mapping[victim]), page)
  }

  /** Is `page`, if resident, mapped to a frame? */
  predicate Mapped(s: State, page: int)
    requires Shape(s) && 0 <= page < s.npages
  {
    s.bits[page].read ==> 0 <= s.mapping[page] < s.nframes
  }

  /** Can the handler be carried out for `page`, picking `victim` if it needs one? */
  predicate Faultable(s: State, page: int, victim: int) {
    && Shape(s)
    && 0 <= page < s.npages && Mapped(s, page)
    && (!s.bits[page].read && Full(s) ==> MayEvict(s, victim) && 0 <= s.mapping[victim] < s.nframes)
  }

  function Fault(s: State, page: int, victim: int): (t: State)
    requires Faultable(s, page, victim)
    ensures Shape(t) && SameSetup(s, t)
    ensures t.bits[page].read && Mapped(t, page)
  {
    if s.bits[page].read then
      if s.bits[page].write then s else Tick(s).(bits := s.bits[page := RW])
    else if !Full(s) then FaultFree(Tick(s), page)
    else FaultEvict(Tick(s), page, victim)
  }

  // ---- Facts the handler relies on ----

  lemma VictimIsResident(s: State, victim: int)
    requires Inv(s) && MayEvict(s, victim)
    ensures victim in Residents(s) && 0 <= victim < s.npages
    ensures s.bits[victim].read && 0 <= s.mapping[victim] < s.nframes
  {
    if s.policy == Fifo {
      assert s.fifo[s.pop..][0] == victim;
      assert victim in Elems(s.fifo[s.pop..]);
    }
  }

  /** In a state that satisfies the invariant the choice of a victim is all that can stand in the
      handler's way. */
  lemma InvPermits(s: State, page: int, victim: int)
    requires Inv(s) && 0 <= page < s.npages
    ensures Faultable(s, page, victim) <==> (!s.bits[page].read && Full(s) ==> MayEvict(s, victim))
  {
    if !s.bits[page].read && Full(s) && MayEvict(s, victim) { VictimIsResident(s, victim); }
  }

  lemma UpgradeIgnoresVictim(s: State, page: int, v: int, w: int)
    requires Shape(s) && 0 <= page < s.npages && Mapped(s, page) && s.bits[page].read
    ensures Fault(s, page, v) == Fault(s, page, w)
  {
  }

  lemma FullCount(s: State)
    requires Inv(s)
    ensures FirstFree(s.physFree) == |Residents(s)|
    ensures Full(s) <==> |Residents(s)| == s.nframes
  {
    var n := |Residents(s)|;
    assert n < s.nframes ==> s.physFree[n] == 0;
  }

  lemma InitialInv(s: State)
    requires Initial(s)
    ensures Inv(s)
  {
    assert Residents(s) == {};
    assert Dirty(s) == {};
  }
}
