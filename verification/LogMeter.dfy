/** How full the page log of the policy in use is while a program sweeps over memory: known
    exactly under FIFO, bounded under the custom policy, unused under the random one. */
module LogMeter {
  import opened PagedMemory
  import opened FlatMemory
  import opened ScanCost
  import opened FifoLog
  import opened DeltaCost

  datatype Meter = Meter(policy: Policy, frames: nat, fifo: seq<int>, used: nat)

  /** From `a` the log became `log` (FIFO), or grew by at most `t` pages (custom), and fits. */
  predicate Within(a: Meter, b: Meter, log: seq<int>, t: int) {
    && b.policy == a.policy && b.frames == a.frames
    && (a.policy == Fifo ==> b.fifo == log && |log| <= LOG_SLOTS)
    && (a.policy == Custom ==> b.used <= a.used + t && b.used <= LOG_SLOTS)
  }

  /** Getting from `a` to `log`, or `t` pages further, does not fit. */
  predicate Overflows(a: Meter, log: seq<int>, t: int) {
    && a.policy != Rand
    && (a.policy == Fifo ==> |log| > LOG_SLOTS)
    && (a.policy == Custom ==> a.used + t > LOG_SLOTS)
  }

  /** One access to page `p`, carried out or refused because a load finds the log full. */
  predicate Metered(a: Meter, b: Meter, p: int, resident: bool, ok: bool) {
    && b.policy == a.policy && b.frames == a.frames
    && (a.policy == Fifo ==>
          if ok then b.fifo == Touch(a.fifo, a.frames, p) && |b.fifo| <= LOG_SLOTS
          else |Touch(a.fifo, a.frames, p)| > LOG_SLOTS)
    && (a.policy == Custom ==>
          if ok then b.used == a.used + (if resident then 0 else 1) && b.used <= LOG_SLOTS
          else !resident && a.used == LOG_SLOTS)
    && (a.policy == Rand ==> ok)
  }

  lemma {:induction false} UpLogGrows(h: seq<int>, f: nat, s: nat, t: nat)
    requires s <= t
    ensures |UpLog(h, f, s)| <= |UpLog(h, f, t)|
    decreases t
  {
    if s < t { UpLogGrows(h, f, s, t - 1); }
  }

  lemma {:induction false} DownLogGrows(h: seq<int>, f: nat, n: nat, s: nat, t: nat)
    requires s <= t
    ensures |DownLog(h, f, n, s)| <= |DownLog(h, f, n, t)|
    decreases t
  {
    if s < t { DownLogGrows(h, f, n, s, t - 1); }
  }

  lemma {:induction false} RoundsGrow(h: seq<int>, f: nat, n: nat, q: nat, r: nat)
    requires q <= r
    ensures |Rounds(h, f, n, q)| <= |Rounds(h, f, n, r)|
    ensures q < r ==> |UpLog(Rounds(h, f, n, q), f, n)| <= |Rounds(h, f, n, r)|
    decreases r
  {
    hide UpLog, DownLog;
    if q < r {
      RoundsGrow(h, f, n, q, r - 1);
      RoundGrows(Rounds(h, f, n, r - 1), f, n);
    }
  }

  lemma RoundGrows(h: seq<int>, f: nat, n: nat)
    ensures |h| <= |UpLog(h, f, n)| <= |DownLog(UpLog(h, f, n), f, n, n)|
  {
    UpLogGrows(h, f, 0, n);
    DownLogGrows(UpLog(h, f, n), f, n, 0, n);
  }

  // ---- One more byte of a sweep ----

  lemma UpByte(a: Meter, b: Meter, c: Meter, i: nat, n: nat, resident: bool, ok: bool)
    requires a.frames > 0 && i < n * PAGE_SIZE && (i % PAGE_SIZE != 0 ==> resident)
    requires Within(a, b, UpLog(a.fifo, a.frames, Touched(i)), Touched(i))
    requires Metered(b, c, PageOf(i), resident, ok)
    ensures ok ==> Within(a, c, UpLog(a.fifo, a.frames, Touched(i + 1)), Touched(i + 1))
    ensures !ok ==> Overflows(a, UpLog(a.fifo, a.frames, n), n)
  {
    hide UpLog, Touch;
    TouchedStep(i);
    UpLogStep(a.fifo, a.frames, i);
    UpLogGrows(a.fifo, a.frames, Touched(i + 1), n);
  }

  lemma DownByte(a: Meter, b: Meter, c: Meter, j: nat, n: nat, resident: bool, ok: bool)
    requires a.frames > 0 && j < n * PAGE_SIZE && (j % PAGE_SIZE != 0 ==> resident)
    requires Within(a, b, DownLog(a.fifo, a.frames, n, Touched(j)), Touched(j))
    requires Metered(b, c, PageOf(n * PAGE_SIZE - 1 - j), resident, ok)
    ensures ok ==> Within(a, c, DownLog(a.fifo, a.frames, n, Touched(j + 1)), Touched(j + 1))
    ensures !ok ==> Overflows(a, DownLog(a.fifo, a.frames, n, n), n)
  {
    hide DownLog, Touch;
    TouchedStep(j);
    TouchedDown(n, j);
    DownLogStep(a.fifo, a.frames, n, j);
    DownLogGrows(a.fifo, a.frames, n, Touched(j + 1), n);
  }

  // ---- The whole program ----

  /** The meter of a machine that has loaded nothing. */
  predicate Empty(a: Meter) {
    a.fifo == [] && a.used == 0 && a.frames > 0
  }

  /** Where the log is after the write scan and `r` rounds. */
  predicate AfterRounds(a: Meter, b: Meter, n: nat, r: nat) {
    Within(a, b, Rounds(Up(0, n), a.frames, n, r), n + r * (2 * n))
  }

  lemma AfterFill(a: Meter, b: Meter, n: nat)
    requires Empty(a) && Within(a, b, UpLog(a.fifo, a.frames, n), n)
    ensures AfterRounds(a, b, n, 0)
  {
    FirstSweep(a.frames, n);
    RoundsStart(a.frames, n);
  }

  lemma AfterRound(a: Meter, b: Meter, c: Meter, d: Meter, n: nat, r: nat)
    requires AfterRounds(a, b, n, r)
    requires Within(b, c, UpLog(b.fifo, b.frames, n), n)
    requires Within(c, d, DownLog(c.fifo, c.frames, n, n), n)
    ensures AfterRounds(a, d, n, r + 1)
  {
    hide UpLog, DownLog;
    assert (r + 1) * (2 * n) == r * (2 * n) + 2 * n;
  }

  /** What the loads of the program need in the log, all in all. */
  predicate ProgramFits(policy: Policy, f: nat, n: nat)
    requires 0 < f <= n
  {
    match policy
    case Rand => true
    case Fifo => FifoLoads(f, n, 10) <= LOG_SLOTS
    case Custom => 21 * n <= LOG_SLOTS
  }

  lemma FitsExactly(policy: Policy, f: nat, n: nat)
    requires 0 < f <= n
    ensures policy == Rand ==> ProgramFits(policy, f, n)
    ensures policy == Fifo ==> (ProgramFits(policy, f, n) <==> FifoLoads(f, n, 10) <= 4096)
    ensures policy == Custom ==> (ProgramFits(policy, f, n) <==> 21 * n <= 4096)
  {
  }

  lemma ProgramLog(f: nat, n: nat)
    requires 0 < f <= n
    ensures |Rounds(Up(0, n), f, n, 10)| == FifoLoads(f, n, 10)
  {
    hide Rounds, RoundLength;
    if f < n {
      var g := RoundsShape(f, n, 10);
      DeltaLoadsClosed(f, n, 10);
    } else {
      FittingRounds(n, 10);
    }
  }

  lemma FillFails(a: Meter, n: nat)
    requires Empty(a) && 0 < a.frames <= n && Overflows(a, UpLog(a.fifo, a.frames, n), n)
    ensures !ProgramFits(a.policy, a.frames, n)
  {
    hide Rounds, FifoLoads, UpLog;
    FirstSweep(a.frames, n);
    RoundsStart(a.frames, n);
    RoundsGrow(Up(0, n), a.frames, n, 0, 10);
    ProgramLog(a.frames, n);
  }

  lemma RoundFits(r: nat, n: nat)
    requires r < 10
    ensures n + r * (2 * n) + n <= 21 * n && n + r * (2 * n) + 2 * n <= 21 * n
  {
  }

  lemma UpFails(a: Meter, b: Meter, n: nat, r: nat)
    requires Empty(a) && 0 < a.frames <= n && r < 10 && AfterRounds(a, b, n, r)
    requires Overflows(b, UpLog(b.fifo, b.frames, n), n)
    ensures !ProgramFits(a.policy, a.frames, n)
  {
    hide Rounds, FifoLoads, UpLog;
    RoundFits(r, n);
    RoundsGrow(Up(0, n), a.frames, n, r, 10);
    ProgramLog(a.frames, n);
  }

  lemma DownFails(a: Meter, b: Meter, c: Meter, n: nat, r: nat)
    requires Empty(a) && 0 < a.frames <= n && r < 10 && AfterRounds(a, b, n, r)
    requires Within(b, c, UpLog(b.fifo, b.frames, n), n)
    requires Overflows(c, DownLog(c.fifo, c.frames, n, n), n)
    ensures !ProgramFits(a.policy, a.frames, n)
  {
    hide FifoLoads, UpLog, DownLog;
    RoundFits(r, n);
    RoundsGrow(Up(0, n), a.frames, n, r + 1, 10);
    ProgramLog(a.frames, n);
  }

  lemma ProgramEnds(a: Meter, b: Meter, n: nat)
    requires Empty(a) && 0 < a.frames <= n && AfterRounds(a, b, n, 10)
    ensures a.policy == Fifo ==> ProgramFits(a.policy, a.frames, n)
  {
    hide Rounds, FifoLoads;
    ProgramLog(a.frames, n);
  }
}
