/** The FIFO page log as a plain sequence: which accesses append to it, and what sweeps over
    `n` pages with room for the last `f` loads make of it. */
module FifoLog {

  /** Is `p` among the last `f` pages loaded? */
  predicate Recent(h: seq<int>, f: nat, p: int) {
    p in h[if |h| <= f then 0 else |h| - f..]
  }

  function Touch(h: seq<int>, f: nat, p: int): seq<int> {
    if Recent(h, f, p) then h else h + [p]
  }

  /** Touch pages `0 .. t`, upwards. */
  function UpLog(h: seq<int>, f: nat, t: nat): seq<int> {
    if t == 0 then h else Touch(UpLog(h, f, t - 1), f, t - 1)
  }

  /** Touch the `t` highest of `n` pages, downwards. */
  function DownLog(h: seq<int>, f: nat, n: nat, t: nat): seq<int> {
    if t == 0 then h else Touch(DownLog(h, f, n, t - 1), f, n - t)
  }

  function Up(a: int, b: int): (r: seq<int>)
    requires a <= b
    ensures |r| == b - a
    ensures forall i :: 0 <= i < |r| ==> r[i] == a + i
  {
    seq(b - a, i => a + i)
  }

  /** `n - 1` down to `n - t`. */
  function Down(n: nat, t: nat): (r: seq<int>)
    ensures |r| == t
    ensures forall i :: 0 <= i < |r| ==> r[i] == n - 1 - i
  {
    seq(t, i => n - 1 - i)
  }

  lemma RecentIndex(h: seq<int>, f: nat, p: int)
    ensures Recent(h, f, p) <==> exists i :: 0 <= i < |h| && |h| - f <= i && h[i] == p
  {
    var start := if |h| <= f then 0 else |h| - f;
    if i :| 0 <= i < |h| && |h| - f <= i && h[i] == p {
      assert h[start..][i - start] == p;
    }
  }

  lemma TouchRecent(h: seq<int>, f: nat, p: int)
    requires f > 0
    ensures Recent(Touch(h, f, p), f, p)
    ensures Touch(Touch(h, f, p), f, p) == Touch(h, f, p)
  {
    RecentIndex(h + [p], f, p);
    assert (h + [p])[|h|] == p;
  }

  /** The last `f` loads are the top `f` of `n` pages, in ascending order. */
  ghost predicate Top(h: seq<int>, f: nat, n: nat) {
    && f <= n && f <= |h|
    && forall i :: |h| - f <= i < |h| ==> h[i] == n - |h| + i
  }

  lemma {:induction false} FirstSweep(f: nat, t: nat)
    ensures UpLog([], f, t) == Up(0, t)
  {
    if t > 0 {
      FirstSweep(f, t - 1);
      RecentIndex(Up(0, t - 1), f, t - 1);
      assert Up(0, t) == Up(0, t - 1) + [t - 1];
    }
  }

  /** With fewer frames than pages, a second upward sweep misses on every page. */
  lemma {:induction false} SecondSweep(f: nat, n: nat, t: nat)
    requires 0 < f < n && t <= n
    ensures UpLog(Up(0, n), f, t) == Up(0, n) + Up(0, t)
    ensures t < n ==> !Recent(UpLog(Up(0, n), f, t), f, t)
  {
    if t > 0 {
      SecondSweep(f, n, t - 1);
      assert Up(0, n) + Up(0, t) == (Up(0, n) + Up(0, t - 1)) + [t - 1];
    } else {
      assert Up(0, n) + Up(0, 0) == Up(0, n);
    }
    RecentIndex(Up(0, n) + Up(0, t), f, t);
  }

  /** With a frame for every page, every later sweep hits on every page. */
  lemma {:induction false} FittingSweep(n: nat, t: nat)
    requires t <= n
    ensures UpLog(Up(0, n), n, t) == Up(0, n)
    ensures DownLog(Up(0, n), n, n, t) == Up(0, n)
  {
    hide Touch, Up;
    if t > 0 {
      FittingSweep(n, t - 1);
      TouchHit(Up(0, n), n, t - 1, t - 1);
      TouchHit(Up(0, n), n, n - t, n - t);
    }
  }

  lemma TouchHit(h: seq<int>, f: nat, p: int, i: nat)
    requires i < |h| <= i + f && h[i] == p
    ensures Touch(h, f, p) == h
  {
    RecentIndex(h, f, p);
  }

  lemma TouchMiss(h: seq<int>, f: nat, p: int)
    requires forall i :: 0 <= i < |h| && |h| - f <= i ==> h[i] != p
    ensures Touch(h, f, p) == h + [p]
  {
    RecentIndex(h, f, p);
  }

  lemma DownAppend(h: seq<int>, n: nat, t: nat)
    ensures h + Down(n, t + 1) == (h + Down(n, t)) + [n - 1 - t]
  {
    assert Down(n, t + 1) == Down(n, t) + [n - 1 - t];
  }

  lemma UpAppend(h: seq<int>, m: nat, t: nat)
    requires m <= t
    ensures h + Up(m, t + 1) == (h + Up(m, t)) + [t]
  {
    assert Up(m, t + 1) == Up(m, t) + [t];
  }

  /** Below the top `f` pages a downward sweep meets only pages it has not just loaded. */
  lemma DownMisses(h: seq<int>, f: nat, n: nat, t: nat)
    requires 0 < f < t <= n && Top(h, f, n)
    ensures var g := h + Down(n - f, t - 1 - f); Touch(g, f, n - t) == g + [n - t]
  {
    hide Touch, Down;
    var d := Down(n - f, t - 1 - f);
    var g := h + d;
    forall i | 0 <= i < |g| && |g| - f <= i ensures g[i] != n - t {
      if i < |h| { assert g[i] == h[i]; } else { assert g[i] == d[i - |h|]; }
    }
    TouchMiss(g, f, n - t);
  }

  /** A downward sweep hits the top `f` pages and then misses on all the others. */
  lemma {:induction false} DownSweep(h: seq<int>, f: nat, n: nat, t: nat)
    requires 0 < f < n && t <= n && Top(h, f, n)
    ensures DownLog(h, f, n, t) == h + Down(n - f, if t <= f then 0 else t - f)
  {
    hide Touch, Down;
    assert h + Down(n - f, 0) == h;
    if t > 0 {
      DownSweep(h, f, n, t - 1);
      if t <= f {
        TouchHit(h, f, n - t, |h| - t);
      } else {
        DownMisses(h, f, n, t);
        DownAppend(h, n - f, t - 1 - f);
      }
    }
  }

  /** Pages `0 .. FirstMiss` survive a downward sweep. */
  function FirstMiss(f: nat, n: nat): nat
    requires f <= n
  {
    if f <= n - f then f else n - f
  }

  lemma UpHits(h: seq<int>, f: nat, n: nat, p: nat)
    requires 0 < f < n && Top(h, f, n) && p < FirstMiss(f, n)
    ensures var g := h + Down(n - f, n - f); Touch(g, f, p) == g
  {
    hide Touch, Down;
    var d := Down(n - f, n - f);
    var g := h + d;
    assert g[|g| - 1 - p] == d[n - f - 1 - p] == p;
    TouchHit(g, f, p, |g| - 1 - p);
  }

  lemma {:induction false} UpSweepHits(h: seq<int>, f: nat, n: nat, t: nat)
    requires 0 < f < n && Top(h, f, n) && t <= FirstMiss(f, n)
    ensures UpLog(h + Down(n - f, n - f), f, t) == h + Down(n - f, n - f)
  {
    hide Touch, Down;
    if t > 0 {
      UpSweepHits(h, f, n, t - 1);
      UpHits(h, f, n, t - 1);
    }
  }

  /** The sweep that follows a downward one hits a prefix and misses on every page after it. */
  lemma {:induction false} UpSweep(h: seq<int>, f: nat, n: nat, t: nat)
    requires 0 < f < n && Top(h, f, n) && FirstMiss(f, n) <= t <= n
    ensures UpLog(h + Down(n - f, n - f), f, t) == h + Down(n - f, n - f) + Up(FirstMiss(f, n), t)
  {
    hide Recent, Down, Up, Top;
    var g, m := h + Down(n - f, n - f), FirstMiss(f, n);
    if t == m {
      UpSweepHits(h, f, n, t);
      assert g + Up(m, m) == g;
    } else {
      UpSweep(h, f, n, t - 1);
      NotRecent(h, f, n, t - 1);
      UpAppend(g, m, t - 1);
    }
  }

  lemma NotRecent(h: seq<int>, f: nat, n: nat, p: nat)
    requires 0 < f < n && Top(h, f, n) && FirstMiss(f, n) <= p < n
    ensures !Recent(h + Down(n - f, n - f) + Up(FirstMiss(f, n), p), f, p)
  {
    var m := FirstMiss(f, n);
    var g := h + Down(n - f, n - f) + Up(m, p);
    RecentIndex(g, f, p);
    forall i | 0 <= i < |g| && |g| - f <= i ensures g[i] != p {
      if i < |h| {
        assert g[i] == h[i] == n - |h| + i;
      } else if i < |h| + (n - f) {
        assert g[i] == Down(n - f, n - f)[i - |h|];
      } else {
        assert g[i] == Up(m, p)[i - |h| - (n - f)];
      }
    }
  }

  lemma UpSweepTop(h: seq<int>, f: nat, n: nat)
    requires 0 < f < n && Top(h, f, n)
    ensures Top(h + Down(n - f, n - f) + Up(FirstMiss(f, n), n), f, n)
  {
  }

  /** The log after `r` rounds of one upward and one downward sweep over all `n` pages. */
  function Rounds(h: seq<int>, f: nat, n: nat, r: nat): seq<int> {
    if r == 0 then h else DownLog(UpLog(Rounds(h, f, n, r - 1), f, n), f, n, n)
  }

  function RoundLength(f: nat, n: nat, r: nat): nat
    requires 0 < f < n && r > 0
  {
    if r == 1 then 3 * n - f else RoundLength(f, n, r - 1) + 2 * n - f - FirstMiss(f, n)
  }

  /** Shape and length of the log after any number of rounds that follow a first upward sweep. */
  lemma {:induction false} RoundsShape(f: nat, n: nat, r: nat) returns (g: seq<int>)
    requires 0 < f < n && r > 0
    ensures Rounds(Up(0, n), f, n, r) == g + Down(n - f, n - f) && Top(g, f, n)
    ensures |Rounds(Up(0, n), f, n, r)| == RoundLength(f, n, r)
  {
    if r == 1 {
      SecondSweep(f, n, n);
      g := Up(0, n) + Up(0, n);
      assert Rounds(Up(0, n), f, n, 0) == Up(0, n);
      DownSweep(g, f, n, n);
    } else {
      var h := RoundsShape(f, n, r - 1);
      UpSweep(h, f, n, n);
      UpSweepTop(h, f, n);
      g := h + Down(n - f, n - f) + Up(FirstMiss(f, n), n);
      DownSweep(g, f, n, n);
    }
  }

  lemma {:induction false} FittingRounds(n: nat, r: nat)
    ensures Rounds(Up(0, n), n, n, r) == Up(0, n)
  {
    if r > 0 {
      FittingRounds(n, r - 1);
      FittingSweep(n, n);
    }
  }
}
