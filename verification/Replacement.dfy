/** What each replacement policy guarantees: a victim can always be found, the page logs mean
    what they should, and the free-frame table tells the truth. */
module Replacement {
  import opened PagedMemory
  import opened PageFault
  import opened FlatMemory

  // ---- Counting ----

  lemma {:induction false} ElementsBound(q: seq<int>)
    ensures |Elems(q)| <= |q|
  {
    if q == [] {
      assert Elems(q) == {};
    } else {
      ElementsBound(q[1..]);
      assert q == [q[0]] + q[1..];
      assert Elems(q) == {q[0]} + Elems(q[1..]);
    }
  }

  lemma SubsetBound(a: set<int>, b: set<int>)
    requires a <= b
    ensures |a| <= |b|
    ensures |a| == |b| ==> a == b
  {
    assert |b| == |a| + |b - a|;
    if |a| == |b| { assert b - a == {}; }
  }

  ghost function Below(n: nat): (r: set<int>)
    ensures |r| == n
    ensures forall x :: x in r <==> 0 <= x < n
  {
    if n == 0 then {} else Below(n - 1) + {n - 1}
  }

  lemma RemoveBound(a: set<int>, b: set<int>)
    ensures |a - b| >= |a| - |b|
  {
    SubsetBound(a * b, b);
    assert |a - b| == |a| - |a * b|;
  }

  // ---- The free-frame table ----

  /** The frames owned by resident pages below `n`. */
  ghost function Owned(s: State, n: nat): set<int>
    requires n <= |s.bits| == |s.mapping|
  {
    if n == 0 then {}
    else if s.bits[n - 1].read then Owned(s, n - 1) + {s.mapping[n - 1]}
    else Owned(s, n - 1)
  }

  lemma {:induction false} OwnedMember(s: State, n: nat, i: int)
    requires n <= |s.bits| == |s.mapping|
    ensures i in Owned(s, n) <==> exists p :: 0 <= p < n && s.bits[p].read && s.mapping[p] == i
  {
    if n > 0 { OwnedMember(s, n - 1, i); }
  }

  ghost function ResidentsBelow(s: State, n: nat): (r: set<int>)
    requires n <= |s.bits|
    ensures forall p :: p in r <==> 0 <= p < n && s.bits[p].read
  {
    if n == 0 then {}
    else if s.bits[n - 1].read then ResidentsBelow(s, n - 1) + {n - 1}
    else ResidentsBelow(s, n - 1)
  }

  lemma OwnedFresh(s: State, n: nat)
    requires Shape(s) && TableOk(s) && n < s.npages && s.bits[n].read
    ensures s.mapping[n] !in Owned(s, n)
  {
    OwnedMember(s, n, s.mapping[n]);
  }

  lemma {:induction false} OwnedSize(s: State, n: nat)
    requires Shape(s) && TableOk(s) && n <= s.npages
    ensures |Owned(s, n)| == |ResidentsBelow(s, n)|
  {
    hide TableOk;
    if n > 0 {
      OwnedSize(s, n - 1);
      if s.bits[n - 1].read {
        OwnedFresh(s, n - 1);
        Grown(Owned(s, n - 1), s.mapping[n - 1]);
        Grown(ResidentsBelow(s, n - 1), n - 1);
      }
    }
  }

  lemma Grown(a: set<int>, x: int)
    requires x !in a
    ensures |a + {x}| == |a| + 1
  {
  }

  /** `physFree[i]` is 1 exactly when some resident page owns frame `i`. */
  lemma FrameOwner(s: State, i: int)
    requires Inv(s) && 0 <= i < s.nframes
    ensures s.physFree[i] == 1 <==> exists p :: 0 <= p < s.npages && s.bits[p].read && s.mapping[p] == i
    ensures s.physFree[i] == 0 || s.physFree[i] == 1
  {
    var a, k := Owned(s, s.npages), |Residents(s)|;
    OwnedSize(s, s.npages);
    assert ResidentsBelow(s, s.npages) == Residents(s);
    forall j | j in a ensures j in Below(k) { OwnedMember(s, s.npages, j); }
    SubsetBound(a, Below(k));
    OwnedMember(s, s.npages, i);
  }

  // ---- A victim can always be found ----

  /** The pages the victim search of the policy in use can end on. */
  ghost function Candidates(s: State): set<int>
    requires Shape(s)
  {
    set v | 0 <= v < s.npages && MayEvict(s, v)
  }

  /** Is `v` among the pages that the scan of the custom policy protects? */
  predicate RecentlyLoaded(s: State, v: int) {
    var window := s.nframes / (if s.nframes < 10 then 3 else 10);
    exists i :: 0 <= i < |s.custom| && i > |s.custom| - window && s.custom[i] == v
  }

  /** What the victim search of each policy accepts: any resident page; the oldest load; any
      resident page but page 0 and the last loads. */
  lemma VictimExactly(s: State, v: int)
    requires Inv(s) && Full(s)
    ensures s.policy == Rand ==> (MayEvict(s, v) <==> v in Residents(s))
    ensures s.policy == Fifo ==> |s.fifo| >= s.nframes && (MayEvict(s, v) <==> v == s.fifo[|s.fifo| - s.nframes])
    ensures s.policy == Custom ==> (MayEvict(s, v) <==> v in Residents(s) && v != 0 && !RecentlyLoaded(s, v))
  {
    hide TableOk, FramesOk, CleanOk, CountOk;
    match s.policy
    case Rand =>
    case Fifo =>
      FifoExact(s);
      FifoHead(s);
      FullCount(s);
    case Custom => CustomVictimExactly(s, v);
  }

  lemma CustomVictimExactly(s: State, v: int)
    requires Inv(s) && s.policy == Custom
    ensures MayEvict(s, v) <==> v in Residents(s) && v != 0 && !RecentlyLoaded(s, v)
  {
    hide TableOk, FramesOk, CleanOk, CountOk;
    var q := s.custom[s.customPop..];
    assert v in q <==> exists i :: s.customPop <= i < |s.custom| && s.custom[i] == v by {
      if i :| s.customPop <= i < |s.custom| && s.custom[i] == v { assert q[i - s.customPop] == v; }
    }
  }

  lemma CustomCandidateSet(s: State)
    requires Shape(s) && s.policy == Custom && s.customPop <= |s.custom|
    ensures Candidates(s) == Residents(s) - (Elems(s.custom[s.customPop..]) + {0})
  {
  }

  /** With every frame taken, the custom scan rules out at most `Window` resident pages. */
  lemma CustomCandidates(s: State)
    requires Inv(s) && Full(s) && s.policy == Custom
    ensures |Candidates(s)| >= s.nframes - s.nframes / (if s.nframes < 10 then 3 else 10)
  {
    FullCount(s);
    var q := s.custom[s.customPop..];
    CustomCandidateSet(s);
    ElementsBound(q);
    RemoveBound(Residents(s), Elems(q) + {0});
  }

  /** Whatever the policy, a full memory has a page the handler may evict, and the random
      policies keep at least two thirds of the frames to choose from. */
  lemma VictimExists(s: State) returns (v: int)
    requires Inv(s) && Full(s)
    ensures MayEvict(s, v) && v in Residents(s)
    ensures s.policy != Fifo ==> 3 * |Candidates(s)| >= 2 * s.nframes
  {
    FullCount(s);
    match s.policy
    case Rand =>
      assert Candidates(s) == Residents(s);
      v :| v in Residents(s);
    case Fifo =>
      v := s.fifo[s.pop];
      assert v in Elems(s.fifo[s.pop..]);
    case Custom =>
      CustomCandidates(s);
      assert Candidates(s) != {};
      v :| v in Candidates(s);
  }

  lemma SomeVictim(s: State, page: int) returns (v: int)
    requires Inv(s) && 0 <= page < s.npages
    ensures Faultable(s, page, v)
  {
    v := 0;
    if Full(s) { v := VictimExists(s); }
    InvPermits(s, page, v);
  }

  /** The victim is always resident and is never the page being loaded. */
  lemma VictimIsNotFaultingPage(s: State, page: int, victim: int)
    requires Inv(s) && Faultable(s, page, victim) && !s.bits[page].read && Full(s)
    ensures victim in Residents(s) && victim != page
  {
    VictimIsResident(s, victim);
  }

  /** Any program can run to completion: some run performs exactly the given accesses. */
  lemma {:induction false} RunExists(s: State, accesses: seq<Access>) returns (states: seq<State>, steps: seq<Step>)
    requires Inv(s) && forall i :: 0 <= i < |accesses| ==> InRange(s, accesses[i])
    ensures Behaviour(states, steps) && states[0] == s && |steps| == |accesses|
    ensures forall i :: 0 <= i < |steps| ==> steps[i].access == accesses[i]
  {
    hide Perform, TableOk, FramesOk, CleanOk, CountOk, FifoOk, CustomOk;
    if accesses == [] {
      states, steps := [s], [];
    } else {
      var n := |accesses| - 1;
      states, steps := RunExists(s, accesses[..n]);
      RunInv(states, steps, n);
      RunSetup(states, steps, n);
      var v := 0;
      if Full(states[n]) { v := VictimExists(states[n]); }
      var st := Step(accesses[n], v);
      InvPermits(states[n], PageOf(accesses[n].addr), v);
      states, steps := Grow(states, steps, st);
    }
  }

  lemma Grow(states: seq<State>, steps: seq<Step>, st: Step) returns (longer: seq<State>, more: seq<Step>)
    requires Behaviour(states, steps) && Enabled(states[|steps|], st)
    ensures Behaviour(longer, more) && more == steps + [st] && longer[0] == states[0]
  {
    longer, more := states + [Perform(states[|steps|], st)], steps + [st];
    forall i | 0 <= i < |more| ensures NextAt(longer, more, i) {
      if i < |steps| { assert NextAt(states, steps, i); }
    }
  }

  // ---- FIFO ----

  /** The resident pages are exactly the last `nframes` loads, in load order. */
  lemma FifoExact(s: State)
    requires Inv(s) && s.policy == Fifo
    ensures s.pop == if |s.fifo| <= s.nframes then 0 else |s.fifo| - s.nframes
    ensures Lists(s.fifo[s.pop..], Residents(s))
    ensures s.readCount == |s.fifo|
  {
  }

  lemma FifoHead(s: State)
    requires Inv(s) && Full(s) && s.policy == Fifo
    ensures s.pop < |s.fifo| && 0 <= s.fifo[s.pop] < s.npages && MayEvict(s, s.fifo[s.pop])
  {
    FullCount(s);
    assert s.fifo[s.pop..][0] == s.fifo[s.pop];
    assert s.fifo[s.pop] in Elems(s.fifo[s.pop..]);
  }

  lemma MappedFrame(s: State, p: int)
    requires Inv(s) && 0 <= p < s.npages && s.bits[p].read
    ensures 0 <= s.mapping[p] < s.nframes
  {
  }

  /** The page brought in by load `n`, if not loaded again since, is resident until load
      `n + nframes` happens and gone from then on. */
  lemma FifoLifetime(s: State, n: nat)
    requires Inv(s) && s.policy == Fifo && n < |s.fifo| && s.fifo[n] !in s.fifo[n + 1..]
    ensures s.fifo[n] in Residents(s) <==> |s.fifo| <= n + s.nframes
  {
    FifoExact(s);
    var q := s.fifo[s.pop..];
    if s.pop <= n {
      assert q[n - s.pop] == s.fifo[n] && s.fifo[n] in Elems(q);
    } else {
      assert forall i :: 0 <= i < |q| ==> q[i] == s.fifo[n + 1..][s.pop + i - n - 1];
    }
  }

  // ---- Custom ----

  /** The last `Window - 1` loads are all still resident. */
  lemma CustomRecent(s: State, n: nat)
    requires Inv(s) && s.policy == Custom && n < |s.custom|
    requires |s.custom| < n + s.nframes / (if s.nframes < 10 then 3 else 10)
    ensures s.custom[n] in Residents(s)
  {
    assert s.customPop <= n;
    assert s.custom[s.customPop..][n - s.customPop] == s.custom[n];
    assert s.custom[n] in Elems(s.custom[s.customPop..]);
  }

  /** A page leaves memory only as a victim. */
  lemma OnlyVictimsLeave(s: State, st: Step, p: int)
    requires Inv(s) && Enabled(s, st) && p in Residents(s)
    requires Full(s) && !s.bits[PageOf(st.access.addr)].read ==> p != st.victim
    ensures p in Residents(Perform(s, st))
  {
    var page := PageOf(st.access.addr);
    AdmitResidents(s, page, st.access.Store?, st.victim);
    FaultResidents(s, page, st.victim);
  }

  lemma PinStep(s: State, st: Step, t: State)
    requires Inv(s) && Next(s, st, t) && s.policy == Custom && 0 in Residents(s)
    ensures t.policy == Custom && 0 in Residents(t)
  {
    hide Inv, Perform, Residents;
    OnlyVictimsLeave(s, st, 0);
    NextSetup(s, st, t);
  }

  /** Page 0 is never evicted under the custom policy: the scan's inclusive bound always
      compares against a log slot that still holds 0. */
  lemma {:induction false} CustomPinsPageZero(states: seq<State>, steps: seq<Step>, m: nat, n: nat)
    requires Behaviour(states, steps) && m <= n <= |steps|
    requires states[m].policy == Custom && 0 in Residents(states[m])
    ensures states[n].policy == Custom && 0 in Residents(states[n])
    decreases n
  {
    hide Inv, Perform, Enabled, Residents;
    if m < n {
      CustomPinsPageZero(states, steps, m, n - 1);
      assert NextAt(states, steps, n - 1);
      RunInv(states, steps, n - 1);
      PinStep(states[n - 1], steps[n - 1], states[n]);
    }
  }
}
