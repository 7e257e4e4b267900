/** The page table, the disk and the fault handler as the program updates them in place, each
    operation proved against the value-level machine. */
module Pager {
  import opened PagedMemory
  import opened PageFault
  import opened FlatMemory
  import opened Replacement

  const MAX_FRAMES: nat := 1024

  /** A bounded array of blocks. Both operations refuse a block number out of range, which is
      where the program aborts. */
  class Disk {
    const blocks: array<Page>

    constructor (contents: seq<Page>)
      ensures fresh(blocks) && blocks[..] == contents
    {
      blocks := new Page[|contents|](i requires 0 <= i < |contents| => contents[i]);
    }

    method Write(block: int, data: Page) returns (ok: bool)
      modifies blocks
      ensures ok <==> 0 <= block < blocks.Length
      ensures blocks[..] == if ok then old(blocks[..])[block := data] else old(blocks[..])
    {
      ok := 0 <= block < blocks.Length;
      if ok { blocks[block] := data; }
    }

    method Read(block: int, phys: array<Page>, frame: nat) returns (ok: bool)
      requires frame < phys.Length && phys != blocks
      modifies phys
      ensures ok <==> 0 <= block < blocks.Length
      ensures phys[..] == if ok then old(phys[..])[frame := blocks[block]] else old(phys[..])
    {
      ok := 0 <= block < blocks.Length;
      if ok { phys[frame] := blocks[block]; }
    }
  }

  class PageTable {
    const npages: nat
    const nframes: nat
    const phys: array<Page>
    const mapping: array<int>
    const bits: array<Prot>

    ghost predicate Valid() {
      phys.Length == nframes && mapping.Length == npages && bits.Length == npages
    }

    constructor (npages: nat, memory: seq<Page>)
      ensures Valid() && this.npages == npages && nframes == |memory|
      ensures fresh(phys) && fresh(mapping) && fresh(bits)
      ensures phys[..] == memory && forall p :: 0 <= p < npages ==> bits[p] == NONE
    {
      this.npages, nframes := npages, |memory|;
      phys := new Page[|memory|](i requires 0 <= i < |memory| => memory[i]);
      mapping := new int[npages];
      bits := new Prot[npages](_ => NONE);
    }

    method SetEntry(page: int, frame: int, prot: Prot) returns (ok: bool)
      requires Valid()
      modifies mapping, bits
      ensures ok <==> 0 <= page < npages && 0 <= frame < nframes
      ensures mapping[..] == if ok then old(mapping[..])[page := frame] else old(mapping[..])
      ensures bits[..] == if ok then old(bits[..])[page := prot] else old(bits[..])
    {
      ok := 0 <= page < npages && 0 <= frame < nframes;
      if ok { mapping[page], bits[page] := frame, prot; }
    }

    method GetEntry(page: int) returns (ok: bool, frame: int, prot: Prot)
      requires Valid()
      ensures ok <==> 0 <= page < npages
      ensures ok ==> frame == mapping[page] && prot == bits[page]
    {
      ok, frame, prot := 0 <= page < npages, 0, NONE;
      if ok { frame, prot := mapping[page], bits[page]; }
    }
  }

  class Pager {
    const policy: Policy
    const disk: Disk
    const pt: PageTable
    const physFree: array<int>
    const fifo: array<int>
    const custom: array<int>
    var pop: nat
    var push: nat
    var customPop: nat
    var customPush: nat
    var faultCount: nat
    var readCount: nat
    var writeCount: nat

    /** The arrays have the program's sizes and do not overlap; unused custom slots hold 0. */
    ghost predicate Wired()
      reads this, physFree, custom
    {
      && pt.Valid()
      && 3 <= pt.nframes <= pt.npages && pt.nframes <= MAX_FRAMES
      && disk.blocks.Length == pt.npages
      && physFree.Length == MAX_FRAMES && fifo.Length == LOG_SLOTS && custom.Length == LOG_SLOTS
      && disk.blocks != pt.phys
      && physFree != fifo && physFree != custom && physFree != pt.mapping
      && fifo != custom && fifo != pt.mapping && custom != pt.mapping
      && push <= LOG_SLOTS && customPush <= LOG_SLOTS
      && forall i :: customPush <= i < LOG_SLOTS ==> custom[i] == 0
    }

    ghost function Model(): State
      requires Wired()
      reads this, disk.blocks, pt.phys, pt.mapping, pt.bits, physFree, fifo, custom
    {
      State(pt.npages, pt.nframes, policy, pt.phys[..], disk.blocks[..], pt.mapping[..], pt.bits[..],
            physFree[..pt.nframes], fifo[..push], pop, custom[..customPush], customPop,
            faultCount, readCount, writeCount)
    }

    /** Room for one more page in the log of the policy in use. */
    predicate Room()
      reads this
    {
      (policy == Fifo ==> push < LOG_SLOTS) && (policy == Custom ==> customPush < LOG_SLOTS)
    }

    constructor (policy: Policy, npages: nat, contents: seq<Page>, memory: seq<Page>)
      requires 3 <= |memory| <= npages == |contents| && |memory| <= MAX_FRAMES
      ensures fresh(disk) && fresh(pt) && fresh(disk.blocks)
      ensures fresh(pt.phys) && fresh(pt.mapping) && fresh(pt.bits)
      ensures fresh(physFree) && fresh(fifo) && fresh(custom)
      ensures Wired() && Initial(Model()) && Model().disk == contents && Model().phys == memory
      ensures Model().policy == policy
    {
      this.policy := policy;
      disk := new Disk(contents);
      pt := new PageTable(npages, memory);
      physFree := new int[MAX_FRAMES](_ => 0);
      fifo := new int[LOG_SLOTS](_ => 0);
      custom := new int[LOG_SLOTS](_ => 0);
      pop, push, customPop, customPush := 0, 0, 0, 0;
      faultCount, readCount, writeCount := 0, 0, 0;
    }

    // ---- Table and disk primitives, seen through the model ----

    method SetEntry(page: nat, frame: nat, prot: Prot)
      requires Wired() && page < pt.npages && frame < pt.nframes
      modifies pt.mapping, pt.bits
      ensures Wired()
      ensures Model() == old(Model()).(mapping := old(Model()).mapping[page := frame],
                                       bits := old(Model()).bits[page := prot])
    {
      var ok := pt.SetEntry(page, frame, prot);
      assert ok;
    }

    method ReadBlock(page: nat, frame: nat)
      requires Wired() && page < pt.npages && frame < pt.nframes
      modifies pt.phys
      ensures Wired()
      ensures Model() == old(Model()).(phys := old(Model()).phys[frame := old(Model()).disk[page]])
    {
      var ok := disk.Read(page, pt.phys, frame);
      assert ok;
    }

    method WriteBlock(page: nat, frame: nat)
      requires Wired() && page < pt.npages && frame < pt.nframes
      modifies disk.blocks
      ensures Wired()
      ensures Model() == old(Model()).(disk := old(Model()).disk[page := old(Model()).phys[frame]])
    {
      var ok := disk.Write(page, pt.phys[frame]);
      assert ok;
    }

    /** Append a loaded page to the log of the policy in use. */
    method Record(page: nat)
      requires Wired() && Room()
      modifies this`push, this`customPop, this`customPush, fifo, custom
      ensures Wired()
      ensures Model() == Note(old(Model()), page)
    {
      if policy == Fifo {
        fifo[push] := page;
        push := push + 1;
        assert fifo[..push] == old(fifo[..push]) + [page];
      }
      if policy == Custom {
        custom[customPush] := page;
        customPush := customPush + 1;
        if customPush - customPop == pt.nframes / BuffSize(pt.nframes) { customPop := customPop + 1; }
        assert custom[..customPush] == old(custom[..customPush]) + [page];
      }
    }

    // ---- The fault handler ----

    /** Lowest free frame, or the number of frames. */
    method FindFree() returns (i: nat)
      requires Wired()
      ensures i == FirstFree(Model().physFree)
    {
      i := 0;
      while i < pt.nframes && physFree[i] != 0
        invariant 0 <= i <= pt.nframes
        invariant forall j :: 0 <= j < i ==> physFree[j] != 0
      {
        i := i + 1;
      }
      assert i < pt.nframes ==> Model().physFree[i] == 0;
    }

    /** The custom scan: slots `customPop` up to and including `customPush`. */
    method Protected(page: nat) returns (found: bool)
      requires Wired() && customPop <= customPush < LOG_SLOTS
      ensures found <==> page == 0 || page in Model().custom[customPop..]
    {
      ghost var window := Model().custom[customPop..];
      var i := customPop;
      while i <= customPush && custom[i] != page
        invariant customPop <= i <= customPush + 1
        invariant forall j :: customPop <= j < i ==> custom[j] != page
      {
        i := i + 1;
      }
      found := i <= customPush;
      assert forall j :: 0 <= j < |window| ==> window[j] == custom[customPop + j];
      assert custom[customPush] == 0;
      if found && i < customPush { assert window[i - customPop] == page; }
    }

    /** Does some value of the random stream pass the exit test of the victim search? */
    ghost predicate Lucky(draws: seq<nat>)
      requires Wired() && Inv(Model())
      reads this, disk.blocks, pt.phys, pt.mapping, pt.bits, physFree, fifo, custom
    {
      exists k :: 0 <= k < |draws| && MayEvict(Model(), draws[k] % pt.npages)
    }

    /** Draw random pages until one passes the exit test. */
    method DrawVictim(draws: seq<nat>) returns (victim: nat)
      requires Wired() && Inv(Model()) && Full(Model()) && policy != Fifo && Room() && Lucky(draws)
      ensures MayEvict(Model(), victim)
    {
      hide TableOk, FramesOk, CleanOk, CountOk, Residents;
      var prot := NONE;
      var k := 0;
      victim := 0;
      while !prot.read
        invariant k <= |draws|
        invariant prot.read ==> MayEvict(Model(), victim)
        invariant !prot.read ==> forall j :: 0 <= j < k ==> !MayEvict(Model(), draws[j] % pt.npages)
        decreases |draws| - k, !prot.read
      {
        victim := draws[k] % pt.npages;
        var ok, frame, p := pt.GetEntry(victim);
        prot := p;
        if policy == Custom {
          var protected := Protected(victim);
          if protected { prot := NONE; }
        }
        k := k + 1;
      }
    }

    /** Map `page` read-only to `frame`, log it and read it from disk. */
    method Place(page: nat, frame: nat)
      requires Wired() && Room() && page < pt.npages && frame < pt.nframes
      modifies this, pt.phys, pt.mapping, pt.bits, fifo, custom
      ensures Wired() && Model() == Note(Fetch(old(Model()), page, frame), page)
    {
      SetEntry(page, frame, R);
      Record(page);
      ReadBlock(page, frame);
      readCount := readCount + 1;
    }

    /** Put `page` into free frame `frame`. */
    method LoadFree(page: nat, frame: nat)
      requires Wired() && Room() && page < pt.npages
      requires !Full(Model()) && frame == FirstFree(Model().physFree)
      modifies this, pt.phys, pt.mapping, pt.bits, physFree, fifo, custom
      ensures Wired() && Model() == FaultFree(old(Model()), page)
    {
      Place(page, frame);
      physFree[frame] := 1;
    }

    /** Take `victim` out of memory, writing it back when dirty. */
    method Clear(victim: nat, frame: nat, prot: Prot)
      requires Wired() && victim < pt.npages && frame < pt.nframes
      requires frame == pt.mapping[victim] && prot == pt.bits[victim]
      modifies this`pop, this`writeCount, disk.blocks, pt.mapping, pt.bits
      ensures Wired() && Model() == Unload(old(Model()), victim)
    {
      if policy == Fifo { pop := pop + 1; }
      if prot.write {
        WriteBlock(victim, frame);
        writeCount := writeCount + 1;
      }
      SetEntry(victim, 0, NONE);
    }

    method LoadOver(page: nat, victim: nat)
      requires Wired() && Room() && page < pt.npages && victim < pt.npages
      requires 0 <= Model().mapping[victim] < pt.nframes
      modifies this, disk.blocks, pt.phys, pt.mapping, pt.bits, fifo, custom
      ensures Wired() && Model() == FaultEvict(old(Model()), page, victim)
    {
      hide Note, Fetch, Unload;
      var ok, frame, prot := pt.GetEntry(victim);
      Clear(victim, frame, prot);
      Place(page, frame);
    }

    method PickVictim(draws: seq<nat>) returns (victim: nat)
      requires Wired() && Inv(Model()) && Full(Model()) && Room()
      requires policy != Fifo ==> Lucky(draws)
      ensures MayEvict(Model(), victim) && victim < pt.npages
      ensures Model().bits[victim].read && 0 <= Model().mapping[victim] < pt.nframes
    {
      hide TableOk, FramesOk, CleanOk, CountOk, CustomOk, Residents, MayEvict;
      if policy == Fifo {
        FifoHead(Model());
        victim := fifo[pop];
      } else {
        victim := DrawVictim(draws);
      }
      VictimIsResident(Model(), victim);
    }

    method CountFault()
      requires Wired()
      modifies this`faultCount
      ensures Wired() && Model() == Tick(old(Model()))
    {
      faultCount := faultCount + 1;
    }

    /** A fault on a page that is not resident. */
    method Miss(page: nat, draws: seq<nat>) returns (ghost victim: int)
      requires Wired() && Inv(Model()) && page < pt.npages && !pt.bits[page].read && Room()
      requires Full(Model()) && policy != Fifo ==> Lucky(draws)
      modifies this, disk.blocks, pt.phys, pt.mapping, pt.bits, physFree, fifo, custom
      ensures Wired() && Faultable(old(Model()), page, victim)
      ensures Model() == Fault(old(Model()), page, victim)
    {
      hide TableOk, FramesOk, CleanOk, CountOk, FifoOk, CustomOk, MayEvict, Fault, FaultFree, FaultEvict, Residents;
      ghost var s := Model();
      var i := FindFree();
      if i < pt.nframes {
        victim := 0;
        InvPermits(s, page, victim);
        FaultCases(s, page, victim);
        CountFault();
        LoadFree(page, i);
      } else {
        var v := PickVictim(draws);
        victim := v;
        InvPermits(s, page, victim);
        FaultCases(s, page, victim);
        CountFault();
        LoadOver(page, v);
      }
    }

    /** The page-fault handler. The random stream must eventually offer an acceptable victim. */
    method HandleFault(page: nat, draws: seq<nat>) returns (ghost victim: int)
      requires Wired() && Inv(Model()) && page < pt.npages
      requires !pt.bits[page].read ==> Room()
      requires !pt.bits[page].read && Full(Model()) && policy != Fifo ==> Lucky(draws)
      modifies this, disk.blocks, pt.phys, pt.mapping, pt.bits, physFree, fifo, custom
      ensures Wired() && Faultable(old(Model()), page, victim)
      ensures Model() == Fault(old(Model()), page, victim)
    {
      hide Inv, MayEvict, Fault;
      ghost var s := Model();
      victim := 0;
      var ok, frame, prot := pt.GetEntry(page);
      if prot.read {
        MappedFrame(s, page);
        FaultCases(s, page, victim);
      }
      if !prot.read {
        victim := Miss(page, draws);
      } else if !prot.write {
        CountFault();
        SetEntry(page, frame, RW);
      }
    }

    // ---- Loads and stores ----

    /** A stream in which every page number comes up offers an acceptable victim. */
    lemma CoveringIsLucky(draws: seq<nat>)
      requires Wired() && Inv(Model()) && Full(Model()) && Covers(draws, pt.npages)
      ensures Lucky(draws)
    {
      hide TableOk, FramesOk, CleanOk, CountOk, FifoOk, CustomOk, Residents;
      var v := VictimExists(Model());
      assert DrawnAt(draws, pt.npages, v);
    }

    /** The hardware retries an access, entering the handler each time, until it is permitted. */
    method Touch(page: nat, write: bool, draws: seq<nat>) returns (ghost victim: int)
      requires Wired() && Inv(Model()) && page < pt.npages && Covers(draws, pt.npages)
      requires !pt.bits[page].read ==> Room()
      modifies this, disk.blocks, pt.phys, pt.mapping, pt.bits, physFree, fifo, custom
      ensures Wired() && Faultable(old(Model()), page, victim)
      ensures Model() == Admit(old(Model()), page, write, victim)
    {
      hide TableOk, FramesOk, CleanOk, CountOk, FifoOk, CustomOk, Residents, MayEvict, Fault;
      ghost var s := Model();
      victim := SomeVictim(s, page);
      while !pt.bits[page].read || (write && !pt.bits[page].write)
        invariant Wired() && Inv(Model()) && Faultable(s, page, victim)
        invariant !pt.bits[page].read ==> Room()
        invariant || Model() == s
                  || (!s.bits[page].read && Model() == Fault(s, page, victim))
                  || (write && Model() == Admit(s, page, true, victim))
        decreases !pt.bits[page].read, !pt.bits[page].write
      {
        ghost var t := Model();
        FaultGrants(s, page, victim);
        if FirstFree(t.physFree) == |t.physFree| { CoveringIsLucky(draws); }
        ghost var v := HandleFault(page, draws);
        FaultKeepsInv(t, page, v);
        FaultGrants(t, page, v);
        if t.bits[page].read { UpgradeIgnoresVictim(t, page, v, victim); } else { victim := v; }
      }
      FaultGrants(s, page, victim);
    }

    /** Slots of the page log in use. */
    function Used(): nat
      reads this
    {
      match policy
      case Rand => 0
      case Fifo => push
      case Custom => customPush
    }

    method Load(addr: nat, draws: seq<nat>) returns (value: byte, ghost victim: int)
      requires Wired() && Inv(Model()) && addr < pt.npages * PAGE_SIZE && Covers(draws, pt.npages)
      requires !pt.bits[addr / PAGE_SIZE].read ==> Room()
      modifies this, disk.blocks, pt.phys, pt.mapping, pt.bits, physFree, fifo, custom
      ensures Wired() && Inv(Model())
      ensures Enabled(old(Model()), Step(Access.Load(addr), victim))
      ensures Model() == Perform(old(Model()), Step(Access.Load(addr), victim))
      ensures Flat(Model()) == old(Flat(Model())) && value == old(Flat(Model()))[addr]
      ensures pt.bits[addr / PAGE_SIZE].read && faultCount <= old(faultCount) + 1
      ensures Used() == old(Used()) + if policy == Rand || old(pt.bits[addr / PAGE_SIZE].read) then 0 else 1
    {
      hide TableOk, FramesOk, CleanOk, CountOk, FifoOk, CustomOk, Residents, MayEvict, Fault, Admit, Flat;
      ghost var s := Model();
      var page := addr / PAGE_SIZE;
      victim := Touch(page, false, draws);
      ghost var st := Step(Access.Load(addr), victim);
      LoadIsPerform(s, st);
      value := pt.phys[pt.mapping[page]][addr % PAGE_SIZE];
    }

    method Store(addr: nat, value: byte, draws: seq<nat>) returns (ghost victim: int)
      requires Wired() && Inv(Model()) && addr < pt.npages * PAGE_SIZE && Covers(draws, pt.npages)
      requires !pt.bits[addr / PAGE_SIZE].read ==> Room()
      modifies this, disk.blocks, pt.phys, pt.mapping, pt.bits, physFree, fifo, custom
      ensures Wired() && Inv(Model())
      ensures Enabled(old(Model()), Step(Access.Store(addr, value), victim))
      ensures Model() == Perform(old(Model()), Step(Access.Store(addr, value), victim))
      ensures Flat(Model()) == old(Flat(Model()))[addr := value]
      ensures pt.bits[addr / PAGE_SIZE] == RW && faultCount <= old(faultCount) + 2
      ensures Used() == old(Used()) + if policy == Rand || old(pt.bits[addr / PAGE_SIZE].read) then 0 else 1
    {
      hide TableOk, FramesOk, CleanOk, CountOk, FifoOk, CustomOk, Residents, MayEvict, Fault, Admit, Flat;
      ghost var s := Model();
      var page := addr / PAGE_SIZE;
      victim := Touch(page, true, draws);
      ghost var st := Step(Access.Store(addr, value), victim);
      StoreIsPerform(s, st);
      var frame := pt.mapping[page];
      pt.phys[frame] := pt.phys[frame][addr % PAGE_SIZE := value];
      assert Model() == Perform(s, st);
    }
  }

  /** What a fault comes to in each branch of the handler. */
  lemma FaultCases(s: State, page: int, victim: int)
    requires Faultable(s, page, victim)
    ensures s.bits[page] == RW ==> Fault(s, page, victim) == s
    ensures s.bits[page] == R ==> Fault(s, page, victim) == Tick(s).(bits := s.bits[page := RW])
    ensures !s.bits[page].read && !Full(s) ==> Fault(s, page, victim) == FaultFree(Tick(s), page)
    ensures !s.bits[page].read && Full(s) ==> Fault(s, page, victim) == FaultEvict(Tick(s), page, victim)
  {
  }

  /** How much an admission adds to the page log of the policy in use. */
  function LogLength(s: State): nat {
    match s.policy
    case Rand => 0
    case Fifo => |s.fifo|
    case Custom => |s.custom|
  }

  lemma AdmitLogLength(s: State, page: int, write: bool, victim: int)
    requires Inv(s) && Faultable(s, page, victim)
    ensures LogLength(Admit(s, page, write, victim))
         == LogLength(s) + if s.policy == Rand || s.bits[page].read then 0 else 1
  {
    hide TableOk, FramesOk, CleanOk, CountOk, Residents, MayEvict;
    AdmitLogs(s, page, write, victim);
    FaultKeepsInv(s, page, victim);
  }

  lemma LoadIsPerform(s: State, st: Step)
    requires Inv(s) && Enabled(s, st) && st.access.Load?
    ensures var page := PageOf(st.access.addr);
            var t := Admit(s, page, false, st.victim);
            && Inv(t) && t == Perform(s, st) && t.bits[page].read && 0 <= t.mapping[page] < t.nframes
            && Flat(t) == Flat(s)
            && t.phys[t.mapping[page]][OffsetOf(st.access.addr)] == Flat(s)[st.access.addr]
            && t.faultCount <= s.faultCount + 1
            && LogLength(t) == LogLength(s) + if s.policy == Rand || s.bits[page].read then 0 else 1
  {
    hide TableOk, FramesOk, CleanOk, CountOk, FifoOk, CustomOk, Residents, MayEvict, Fault, Admit, Flat, LogLength;
    PerformKeeps(s, st);
    PerformRefines(s, st);
    AccessCost(s, st);
    AdmitLogLength(s, PageOf(st.access.addr), false, st.victim);
    MappedFrame(Perform(s, st), PageOf(st.access.addr));
  }

  lemma StoreIsPerform(s: State, st: Step)
    requires Inv(s) && Enabled(s, st) && st.access.Store?
    ensures var page := PageOf(st.access.addr);
            var t := Admit(s, page, true, st.victim);
            && t.bits[page] == RW && 0 <= t.mapping[page] < t.nframes
            && Perform(s, st) == Poke(t, st.access.addr, st.access.value)
            && Inv(Perform(s, st))
            && Flat(Perform(s, st)) == Flat(s)[st.access.addr := st.access.value]
            && t.faultCount <= s.faultCount + 2
            && LogLength(t) == LogLength(s) + if s.policy == Rand || s.bits[page].read then 0 else 1
  {
    hide TableOk, FramesOk, CleanOk, CountOk, FifoOk, CustomOk, Residents, MayEvict, Fault, Admit, Flat, LogLength;
    PerformKeeps(s, st);
    PerformRefines(s, st);
    AccessCost(s, st);
    AdmitLogLength(s, PageOf(st.access.addr), true, st.victim);
    AdmitKeepsInv(s, PageOf(st.access.addr), true, st.victim);
    MappedFrame(Admit(s, PageOf(st.access.addr), true, st.victim), PageOf(st.access.addr));
  }

  ghost predicate DrawnAt(draws: seq<nat>, npages: nat, page: int)
    requires npages > 0
  {
    exists k :: 0 <= k < |draws| && draws[k] % npages == page
  }

  /** Every page number comes up in the random stream. */
  ghost predicate Covers(draws: seq<nat>, npages: nat)
    requires npages > 0
  {
    forall page :: 0 <= page < npages ==> DrawnAt(draws, npages, page)
  }
}
