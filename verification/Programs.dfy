/** The loops of the delta program, run on the paged machine. */
module Programs {
  import opened PagedMemory
  import opened FlatMemory
  import opened ScanCost
  import opened DeltaResult
  import opened FifoLog
  import opened DeltaCost
  import opened LogMeter
  import opened Pager

  /** A random stream for every access of a sweep. */
  type Draws = nat -> seq<nat>

  ghost predicate Fair(draws: Draws, npages: nat)
    requires npages > 0
  {
    forall k :: Covers(draws(k), npages)
  }

  /** Memory holds the low byte of every address below `n`. */
  ghost predicate LowBytes(m: seq<byte>, n: nat) {
    n <= |m| && forall a :: 0 <= a < n ==> m[a] as int == a % 256
  }

  ghost predicate Ready(vm: Pager)
    reads vm, vm.disk.blocks, vm.pt.phys, vm.pt.mapping, vm.pt.bits, vm.physFree, vm.fifo, vm.custom
  {
    vm.Wired() && Inv(vm.Model())
  }

  ghost function MeterOf(vm: Pager): (m: Meter)
    reads vm, vm.disk.blocks, vm.pt.phys, vm.pt.mapping, vm.pt.bits, vm.physFree, vm.fifo, vm.custom
    requires Ready(vm)
    ensures m.policy == vm.policy && m.frames == vm.pt.nframes > 0
    ensures (m.policy == Fifo ==> |m.fifo| <= LOG_SLOTS) && (m.policy == Custom ==> m.used <= LOG_SLOTS)
  {
    Meter(vm.policy, vm.pt.nframes, vm.Model().fifo, vm.Used())
  }

  // ---- One access, refused where the program would write past the log ----

  method TryLoad(vm: Pager, addr: nat, draws: seq<nat>) returns (ok: bool, value: byte)
    requires Ready(vm) && addr < vm.pt.npages * PAGE_SIZE && Covers(draws, vm.pt.npages)
    modifies vm, vm.disk.blocks, vm.pt.phys, vm.pt.mapping, vm.pt.bits, vm.physFree, vm.fifo, vm.custom
    ensures Ready(vm) && Flat(vm.Model()) == old(Flat(vm.Model()))
    ensures ok ==> vm.pt.bits[addr / PAGE_SIZE].read && value == old(Flat(vm.Model()))[addr]
    ensures Metered(old(MeterOf(vm)), MeterOf(vm), PageOf(addr), old(vm.pt.bits[addr / PAGE_SIZE].read), ok)
  {
    hide TableOk, FramesOk, CleanOk, CountOk, FifoOk, CustomOk, Perform, Flat, Covers, Touch;
    ghost var s := vm.Model();
    FifoRoom(s, PageOf(addr));
    if !vm.pt.bits[addr / PAGE_SIZE].read && !vm.Room() { return false, 0; }
    ghost var victim;
    value, victim := vm.Load(addr, draws);
    if vm.policy == Fifo { FifoAccess(s, Step(Access.Load(addr), victim)); }
    ok := true;
  }

  method TryStore(vm: Pager, addr: nat, value: byte, draws: seq<nat>) returns (ok: bool)
    requires Ready(vm) && addr < vm.pt.npages * PAGE_SIZE && Covers(draws, vm.pt.npages)
    modifies vm, vm.disk.blocks, vm.pt.phys, vm.pt.mapping, vm.pt.bits, vm.physFree, vm.fifo, vm.custom
    ensures Ready(vm) && Flat(vm.Model()) == if ok then old(Flat(vm.Model()))[addr := value] else old(Flat(vm.Model()))
    ensures ok ==> vm.pt.bits[addr / PAGE_SIZE].read
    ensures Metered(old(MeterOf(vm)), MeterOf(vm), PageOf(addr), old(vm.pt.bits[addr / PAGE_SIZE].read), ok)
  {
    hide TableOk, FramesOk, CleanOk, CountOk, FifoOk, CustomOk, Perform, Flat, Covers, Touch;
    ghost var s := vm.Model();
    FifoRoom(s, PageOf(addr));
    if !vm.pt.bits[addr / PAGE_SIZE].read && !vm.Room() { return false; }
    ghost var victim := vm.Store(addr, value, draws);
    if vm.policy == Fifo { FifoAccess(s, Step(Access.Store(addr, value), victim)); }
    ok := true;
  }

  /** Under FIFO a page that is not resident needs one more slot. */
  lemma FifoRoom(s: State, page: int)
    requires Inv(s) && 0 <= page < s.npages
    ensures s.policy == Fifo && !s.bits[page].read ==> |Touch(s.fifo, s.nframes, page)| == |s.fifo| + 1
  {
    if s.policy == Fifo { FifoRecent(s, page); }
    BitSets(s, page);
  }

  // ---- The loops ----

  /** The write loop. */
  method Fill(vm: Pager, draws: Draws) returns (ok: bool)
    requires Ready(vm) && Fair(draws, vm.pt.npages)
    modifies vm, vm.disk.blocks, vm.pt.phys, vm.pt.mapping, vm.pt.bits, vm.physFree, vm.fifo, vm.custom
    ensures Ready(vm)
    ensures ok ==> LowBytes(Flat(vm.Model()), vm.pt.npages * PAGE_SIZE)
    ensures var a, n := old(MeterOf(vm)), vm.pt.npages; var log := UpLog(a.fifo, a.frames, n);
            if ok then Within(a, MeterOf(vm), log, n) else Overflows(a, log, n)
  {
    hide Inv, Flat, LowBytes, Covers, MeterOf, Within, Overflows, Metered, UpLog, Touched;
    ghost var a := MeterOf(vm);
    var length := vm.pt.npages * PAGE_SIZE;
    var i := 0;
    SweepStarts(a, vm.pt.npages);
    LowBytesStart(Flat(vm.Model()));
    while i < length
      invariant 0 <= i <= length && Ready(vm)
      invariant Within(a, MeterOf(vm), UpLog(a.fifo, a.frames, Touched(i)), Touched(i))
      invariant i % PAGE_SIZE != 0 ==> vm.pt.bits[i / PAGE_SIZE].read
      invariant LowBytes(Flat(vm.Model()), i)
    {
      ghost var b, resident := MeterOf(vm), vm.pt.bits[i / PAGE_SIZE].read;
      ghost var before := Flat(vm.Model());
      ok := TryStore(vm, i, (i % 256) as byte, draws(i));
      UpByte(a, b, MeterOf(vm), i, vm.pt.npages, resident, ok);
      if !ok { return; }
      LowBytesGrow(before, i);
      i := i + 1;
    }
    ok := true;
  }

  /** The upward read loop. */
  method SumUp(vm: Pager, start: nat, draws: Draws) returns (ok: bool, total: nat)
    requires Ready(vm) && Fair(draws, vm.pt.npages)
    requires LowBytes(Flat(vm.Model()), vm.pt.npages * PAGE_SIZE) && start < UNSIGNED
    modifies vm, vm.disk.blocks, vm.pt.phys, vm.pt.mapping, vm.pt.bits, vm.physFree, vm.fifo, vm.custom
    ensures Ready(vm) && Flat(vm.Model()) == old(Flat(vm.Model()))
    ensures ok ==> total == (start + ByteSum(vm.pt.npages * PAGE_SIZE)) % UNSIGNED
    ensures var a, n := old(MeterOf(vm)), vm.pt.npages; var log := UpLog(a.fifo, a.frames, n);
            if ok then Within(a, MeterOf(vm), log, n) else Overflows(a, log, n)
  {
    hide Inv, Flat, LowBytes, Covers, MeterOf, Within, Overflows, Metered, UpLog, Touched, ByteSum;
    ghost var a := MeterOf(vm);
    var length := vm.pt.npages * PAGE_SIZE;
    var i := 0;
    SweepStarts(a, vm.pt.npages);
    total := start;
    while i < length
      invariant 0 <= i <= length && Ready(vm)
      invariant Within(a, MeterOf(vm), UpLog(a.fifo, a.frames, Touched(i)), Touched(i))
      invariant i % PAGE_SIZE != 0 ==> vm.pt.bits[i / PAGE_SIZE].read
      invariant Flat(vm.Model()) == old(Flat(vm.Model()))
      invariant total == (start + ByteSum(i)) % UNSIGNED
    {
      ghost var b, resident := MeterOf(vm), vm.pt.bits[i / PAGE_SIZE].read;
      var x;
      ok, x := TryLoad(vm, i, draws(i));
      UpByte(a, b, MeterOf(vm), i, vm.pt.npages, resident, ok);
      if !ok { return; }
      LowByteAt(Flat(vm.Model()), length, i);
      Adds(start, i, x as nat);
      total := (total + x as nat) % UNSIGNED;
      i := i + 1;
    }
    ok := true;
  }

  /** The downward read loop; it stops before byte 0. */
  method SumDown(vm: Pager, start: nat, draws: Draws) returns (ok: bool, total: nat)
    requires Ready(vm) && Fair(draws, vm.pt.npages)
    requires LowBytes(Flat(vm.Model()), vm.pt.npages * PAGE_SIZE) && start < UNSIGNED
    modifies vm, vm.disk.blocks, vm.pt.phys, vm.pt.mapping, vm.pt.bits, vm.physFree, vm.fifo, vm.custom
    ensures Ready(vm) && Flat(vm.Model()) == old(Flat(vm.Model()))
    ensures ok ==> total == (start + ByteSum(vm.pt.npages * PAGE_SIZE)) % UNSIGNED
    ensures var a, n := old(MeterOf(vm)), vm.pt.npages; var log := DownLog(a.fifo, a.frames, n, n);
            if ok then Within(a, MeterOf(vm), log, n) else Overflows(a, log, n)
  {
    hide Inv, Flat, LowBytes, Covers, MeterOf, Within, Overflows, Metered, DownLog, Touched, ByteSum, Upper;
    ghost var a, n := MeterOf(vm), vm.pt.npages;
    var length := vm.pt.npages * PAGE_SIZE;
    var i := length - 1;
    SweepStarts(a, n);
    UpperEnds(start, length);
    total := start;
    while i > 0
      invariant 0 <= i < length && Ready(vm)
      invariant Within(a, MeterOf(vm), DownLog(a.fifo, a.frames, n, Touched(length - 1 - i)), Touched(length - 1 - i))
      invariant (i + 1) % PAGE_SIZE != 0 ==> vm.pt.bits[(i + 1) / PAGE_SIZE].read
      invariant Flat(vm.Model()) == old(Flat(vm.Model()))
      invariant total == Upper(start, length, i + 1)
    {
      ghost var b, resident := MeterOf(vm), vm.pt.bits[i / PAGE_SIZE].read;
      SamePage(i);
      var x;
      ok, x := TryLoad(vm, i, draws(i));
      DownByteAt(a, b, MeterOf(vm), i, n, resident, ok);
      if !ok { return; }
      LowByteAt(Flat(vm.Model()), length, i);
      AddsBack(start, length, i, x as nat);
      total := (total + x as nat) % UNSIGNED;
      i := i - 1;
    }
    ok := true;
  }

  // ---- Steps of the loops ----

  lemma LowBytesStart(m: seq<byte>)
    ensures LowBytes(m, 0)
  {
  }

  lemma LowBytesGrow(m: seq<byte>, i: nat)
    requires LowBytes(m, i) && i < |m|
    ensures LowBytes(m[i := (i % 256) as byte], i + 1)
  {
  }

  lemma LowByteAt(m: seq<byte>, n: nat, i: nat)
    requires LowBytes(m, n) && i < n
    ensures i < |m| && m[i] as int == i % 256
  {
  }

  lemma SweepStarts(a: Meter, n: nat)
    requires n > 0 && (a.policy == Fifo ==> |a.fifo| <= LOG_SLOTS) && (a.policy == Custom ==> a.used <= LOG_SLOTS)
    ensures Within(a, a, UpLog(a.fifo, a.frames, Touched(0)), Touched(0))
    ensures Within(a, a, DownLog(a.fifo, a.frames, n, Touched(0)), Touched(0))
    ensures Touched(n * PAGE_SIZE) == n && Touched(n * PAGE_SIZE - 1) == n
    ensures ByteSum(0) == 0 && ByteSum(1) == 0
  {
    hide UpLog, DownLog;
    UpLogStart(a.fifo, a.frames);
    DownLogStart(a.fifo, a.frames, n);
  }

  lemma Adds(start: nat, i: nat, x: nat)
    requires x == i % 256
    ensures ((start + ByteSum(i)) % UNSIGNED + x) % UNSIGNED == (start + ByteSum(i + 1)) % UNSIGNED
  {
    Wraps(start + ByteSum(i), x);
  }

  /** `start` and the bytes from `i` on. */
  function Upper(start: nat, length: nat, i: nat): nat {
    (start + ByteSum(length) - ByteSum(i)) % UNSIGNED
  }

  lemma UpperEnds(start: nat, length: nat)
    requires start < UNSIGNED
    ensures Upper(start, length, length) == start
    ensures Upper(start, length, 1) == (start + ByteSum(length)) % UNSIGNED
  {
    OneMore(1, 1);
  }

  lemma AddsBack(start: nat, length: nat, i: nat, x: nat)
    requires x == i % 256 && i < length
    ensures (Upper(start, length, i + 1) + x) % UNSIGNED == Upper(start, length, i)
  {
    ByteSumGrows(i + 1, length);
    Wraps(start + ByteSum(length) - ByteSum(i + 1), x);
  }

  /** Going down, a byte that is not the last of its page shares the page of the byte before. */
  lemma SamePage(i: nat)
    ensures (i + 1) % PAGE_SIZE != 0 ==> (i + 1) / PAGE_SIZE == i / PAGE_SIZE
  {
  }

  lemma DownByteAt(a: Meter, b: Meter, c: Meter, i: nat, n: nat, resident: bool, ok: bool)
    requires a.frames > 0 && i < n * PAGE_SIZE && ((i + 1) % PAGE_SIZE != 0 ==> resident)
    requires var t := Touched(n * PAGE_SIZE - 1 - i); Within(a, b, DownLog(a.fifo, a.frames, n, t), t)
    requires Metered(b, c, PageOf(i), resident, ok)
    ensures ok ==> var t := Touched(n * PAGE_SIZE - i); Within(a, c, DownLog(a.fifo, a.frames, n, t), t)
    ensures !ok ==> Overflows(a, DownLog(a.fifo, a.frames, n, n), n)
  {
    hide Within, Metered, Overflows, DownLog, Touched;
    DownByte(a, b, c, n * PAGE_SIZE - 1 - i, n, resident, ok);
  }

  lemma {:induction false} ByteSumGrows(a: nat, b: nat)
    requires a <= b
    ensures ByteSum(a) <= ByteSum(b)
    decreases b
  {
    if a < b { ByteSumGrows(a, b - 1); }
  }

  // ---- The program ----

  /** Round `j`: one sweep up and one down. `a` is the meter at the start of the program. */
  method Round(vm: Pager, start: nat, up: Draws, down: Draws, ghost a: Meter, ghost j: nat)
    returns (ok: bool, total: nat)
    requires Ready(vm) && Fair(up, vm.pt.npages) && Fair(down, vm.pt.npages)
    requires LowBytes(Flat(vm.Model()), vm.pt.npages * PAGE_SIZE) && start < UNSIGNED
    requires Empty(a) && 0 < a.frames <= vm.pt.npages && j < 10 && AfterRounds(a, MeterOf(vm), vm.pt.npages, j)
    modifies vm, vm.disk.blocks, vm.pt.phys, vm.pt.mapping, vm.pt.bits, vm.physFree, vm.fifo, vm.custom
    ensures Ready(vm) && Flat(vm.Model()) == old(Flat(vm.Model()))
    ensures ok ==> AfterRounds(a, MeterOf(vm), vm.pt.npages, j + 1)
    ensures ok ==> total == (start + 1044480 * vm.pt.npages) % UNSIGNED
    ensures !ok ==> !ProgramFits(a.policy, a.frames, vm.pt.npages)
  {
    hide Inv, LowBytes, Flat, Fair, MeterOf, ByteSum, Within, Overflows, AfterRounds, ProgramFits, Rounds, UpLog,
      DownLog, Empty;
    ghost var n, b := vm.pt.npages, MeterOf(vm);
    ByteSumClosed(16 * n);
    ok, total := SumUp(vm, start, up);
    if !ok { UpFails(a, b, n, j); return; }
    ghost var c := MeterOf(vm);
    Wraps(start + 522240 * n, 522240 * n);
    ok, total := SumDown(vm, total, down);
    if !ok { DownFails(a, b, c, n, j); return; }
    AfterRound(a, b, c, MeterOf(vm), n, j);
  }

  /** The delta program. When it gets to its end its result depends neither on the policy nor on
      the random draws; otherwise (`ok` is false) a load found the page log full. Under FIFO that
      happens exactly when the program's loads do not fit in the log. */
  method DeltaProgram(vm: Pager, draws: nat -> Draws) returns (ok: bool, total: nat)
    requires Ready(vm) && Initial(vm.Model()) && forall j :: Fair(draws(j), vm.pt.npages)
    modifies vm, vm.disk.blocks, vm.pt.phys, vm.pt.mapping, vm.pt.bits, vm.physFree, vm.fifo, vm.custom
    ensures Ready(vm)
    ensures ok ==> total == (10444800 * vm.pt.npages) % 0x1_0000_0000
    ensures vm.policy == Rand ==> ok
    ensures vm.policy == Fifo ==> (ok <==> FifoLoads(vm.pt.nframes, vm.pt.npages, 10) <= 4096)
    ensures vm.policy == Custom && 21 * vm.pt.npages <= 4096 ==> ok
  {
    hide Inv, Initial, LowBytes, Flat, Fair, Within, Overflows, AfterRounds, ProgramFits, UpLog, Empty, ByteSum,
      MeterOf, TotalAfter, FifoLoads;
    ghost var n, a := vm.pt.npages, MeterOf(vm);
    TotalEnds(n);
    StartsEmpty(vm);
    FitsExactly(vm.policy, vm.pt.nframes, n);
    ok := Fill(vm, draws(0));
    total := 0;
    if !ok { FillFails(a, n); return; }
    AfterFill(a, MeterOf(vm), n);
    var j := 0;
    while j < 10
      invariant 0 <= j <= 10 && Ready(vm)
      invariant AfterRounds(a, MeterOf(vm), n, j)
      invariant LowBytes(Flat(vm.Model()), n * PAGE_SIZE)
      invariant total == TotalAfter(j, n)
    {
      TotalStep(j, n);
      ok, total := Round(vm, total, draws(1 + 2 * j), draws(2 + 2 * j), a, j);
      if !ok { return; }
      j := j + 1;
    }
    ProgramEnds(a, MeterOf(vm), n);
    ok := true;
  }

  /** The total after `j` rounds. */
  function TotalAfter(j: nat, n: nat): (t: nat)
    ensures t < UNSIGNED
  {
    (j * (1044480 * n)) % UNSIGNED
  }

  lemma TotalStep(j: nat, n: nat)
    ensures (TotalAfter(j, n) + 1044480 * n) % UNSIGNED == TotalAfter(j + 1, n)
  {
    Wraps(j * (1044480 * n), 1044480 * n);
    OneMore(j + 1, 1044480 * n);
  }

  lemma TotalEnds(n: nat)
    ensures TotalAfter(0, n) == 0 && TotalAfter(10, n) == (10444800 * n) % UNSIGNED
  {
  }

  lemma StartsEmpty(vm: Pager)
    requires Ready(vm) && Initial(vm.Model())
    ensures Empty(MeterOf(vm)) && 0 < MeterOf(vm).frames <= vm.pt.npages
    ensures MeterOf(vm).policy == vm.policy && MeterOf(vm).frames == vm.pt.nframes
  {
  }
}
