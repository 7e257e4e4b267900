/** What the delta program prints: the same number under every replacement policy. */
module DeltaResult {
  import opened PagedMemory
  import opened FlatMemory
  import opened ScanCost
  import opened DeltaCost

  const UNSIGNED: nat := 0x1_0000_0000

  /** Sum of the bytes `i % 256` at addresses below `a`. */
  function ByteSum(a: nat): nat {
    if a == 0 then 0 else ByteSum(a - 1) + (a - 1) % 256
  }

  function Triangle(r: nat): nat {
    if r == 0 then 0 else Triangle(r - 1) + r - 1
  }

  lemma {:induction false} TriangleClosed(r: nat)
    ensures 2 * Triangle(r) == r * (r - 1)
  {
    if r > 0 { TriangleClosed(r - 1); }
  }

  lemma LowByte(k: nat, q: nat)
    requires q < 256
    ensures (256 * k + q) % 256 == q
  {
  }

  lemma {:induction false} RowSum(k: nat, r: nat)
    requires r <= 256
    ensures ByteSum(256 * k + r) == ByteSum(256 * k) + Triangle(r)
  {
    if r > 0 {
      RowSum(k, r - 1);
      LowByte(k, r - 1);
    }
  }

  lemma {:induction false} ByteSumClosed(k: nat)
    ensures ByteSum(256 * k) == 32640 * k
  {
    if k > 0 {
      ByteSumClosed(k - 1);
      RowSum(k - 1, 256);
      TriangleClosed(256);
    }
  }

  // ---- What a run adds up ----

  /** The C `unsigned` total after the first `n` steps. */
  ghost function Total(states: seq<State>, steps: seq<Step>, n: nat): nat
    requires Behaviour(states, steps) && n <= |steps|
  {
    if n == 0 then 0
    else
      assert NextAt(states, steps, n - 1);
      if steps[n - 1].access.Load? then
        (Total(states, steps, n - 1) + Observed(states[n - 1], steps[n - 1]) as nat) % UNSIGNED
      else Total(states, steps, n - 1)
  }

  /** Sum of `addr % 256` over the loads among the first `n` steps. */
  ghost function AddressTotal(steps: seq<Step>, n: nat): int
    requires n <= |steps|
  {
    if n == 0 then 0
    else AddressTotal(steps, n - 1) + if steps[n - 1].access.Load? then steps[n - 1].access.addr % 256 else 0
  }

  ghost predicate StoresLowByte(steps: seq<Step>, n: nat)
    requires n <= |steps|
  {
    forall i :: 0 <= i < n ==> steps[i].access.Store? && steps[i].access.value as int == i % 256
  }

  lemma {:induction false} FlatStores(m: seq<byte>, steps: seq<Step>, n: nat, a: nat)
    requires n <= |m| && StoresUp(steps, 0, n) && StoresLowByte(steps, n) && a < n
    ensures FlatAfter(m, steps, n)[a] as int == a % 256
  {
    if a < n - 1 { FlatStores(m, steps, n - 1, a); }
  }

  lemma {:induction false} FlatLoads(m: seq<byte>, steps: seq<Step>, b: nat, n: nat)
    requires b <= n <= |steps| && LoadsFrom(steps, b)
    ensures FlatAfter(m, steps, n) == FlatAfter(m, steps, b)
  {
    if b < n { FlatLoads(m, steps, b, n - 1); }
  }

  /** Every load of the program reads the low byte of its address. */
  lemma LoadsLowByte(states: seq<State>, steps: seq<Step>, len: nat, i: nat)
    requires Behaviour(states, steps) && len == states[0].npages * PAGE_SIZE
    requires len <= i < |steps| && StoresUp(steps, 0, len) && StoresLowByte(steps, len) && LoadsFrom(steps, len)
    ensures Enabled(states[i], steps[i]) && 0 <= steps[i].access.addr
    ensures Observed(states[i], steps[i]) as int == steps[i].access.addr % 256
  {
    hide Observed, Perform, TableOk, FramesOk, CleanOk, CountOk, FifoOk, CustomOk;
    RunObservesFlat(states, steps, i);
    FlatLoads(Flat(states[0]), steps, len, i + 1);
    FlatStores(Flat(states[0]), steps, len, steps[i].access.addr);
  }

  lemma Wraps(a: nat, x: nat)
    ensures (a % UNSIGNED + x) % UNSIGNED == (a + x) % UNSIGNED
  {
  }

  lemma {:induction false} TotalIsAddressTotal(states: seq<State>, steps: seq<Step>, len: nat, n: nat)
    requires Behaviour(states, steps) && len == states[0].npages * PAGE_SIZE && len <= |steps|
    requires n <= |steps| && StoresUp(steps, 0, len) && StoresLowByte(steps, len) && LoadsFrom(steps, len)
    ensures AddressTotal(steps, n) >= 0
    ensures Total(states, steps, n) == AddressTotal(steps, n) % UNSIGNED
  {
    hide Observed, Perform, Enabled, Inv;
    if n > 0 {
      TotalIsAddressTotal(states, steps, len, n - 1);
      if steps[n - 1].access.Load? {
        LoadsLowByte(states, steps, len, n - 1);
        Wraps(AddressTotal(steps, n - 1), steps[n - 1].access.addr % 256);
      }
    }
  }

  // ---- Adding up the sweeps ----

  lemma {:induction false} StoresTotal(steps: seq<Step>, n: nat)
    requires StoresUp(steps, 0, n)
    ensures AddressTotal(steps, n) == 0
  {
    if n > 0 { StoresTotal(steps, n - 1); }
  }

  lemma {:induction false} UpTotal(steps: seq<Step>, b: nat, n: nat)
    requires VisitsUp(steps, b, n) && LoadsFrom(steps, b)
    ensures AddressTotal(steps, b + n) == AddressTotal(steps, b) + ByteSum(n)
  {
    if n > 0 { UpTotal(steps, b, n - 1); }
  }

  lemma {:induction false} DownTotal(steps: seq<Step>, b: nat, n: nat, i: nat)
    requires n > 0 && VisitsDown(steps, b, n) && LoadsFrom(steps, b) && i < n
    ensures AddressTotal(steps, b + i) == AddressTotal(steps, b) + ByteSum(n) - ByteSum(n - i)
  {
    if i > 0 { DownTotal(steps, b, n, i - 1); }
  }

  lemma LoadsLater(steps: seq<Step>, b: nat, c: nat)
    requires LoadsFrom(steps, b) && b <= c
    ensures LoadsFrom(steps, c)
  {
  }

  lemma OneMore(r: int, x: int)
    ensures r * x == (r - 1) * x + x
    ensures ByteSum(1) == 0
  {
  }

  lemma {:induction false} RoundsTotal(steps: seq<Step>, len: nat, r: nat, rounds: nat)
    requires len > 0 && Delta(steps, len, rounds) && r <= rounds
    ensures Base(len, r) <= |steps|
    ensures AddressTotal(steps, Base(len, r)) == r * (2 * ByteSum(len))
  {
    hide AddressTotal, ByteSum, LoadsFrom;
    BaseGrows(len, r, rounds);
    if r == 0 {
      StoresTotal(steps, len);
    } else {
      RoundsTotal(steps, len, r - 1, rounds);
      var b := Base(len, r - 1);
      BaseGrows(len, 0, r - 1);
      LoadsLater(steps, len, b);
      LoadsLater(steps, len, b + len);
      assert RoundAt(steps, len, r - 1);
      UpTotal(steps, b, len);
      DownTotal(steps, b + len, len, len - 1);
      OneMore(r, 2 * ByteSum(len));
    }
  }

  /** Under every policy and with every choice of victims the program computes
      `20 * 522240 * npages`, reduced to 32 bits. */
  lemma DeltaPrints(states: seq<State>, steps: seq<Step>)
    requires Behaviour(states, steps) && states[0].npages > 0
    requires Delta(steps, states[0].npages * PAGE_SIZE, 10) && StoresLowByte(steps, states[0].npages * PAGE_SIZE)
    ensures Total(states, steps, |steps|) == (10444800 * states[0].npages) % 0x1_0000_0000
  {
    hide Inv, Total;
    var n := states[0].npages;
    RoundsTotal(steps, n * PAGE_SIZE, 10, 10);
    ByteSumClosed(16 * n);
    BaseGrows(n * PAGE_SIZE, 0, 10);
    TotalIsAddressTotal(states, steps, n * PAGE_SIZE, |steps|);
  }
}
