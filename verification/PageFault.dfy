/** What one entry into the page-fault handler keeps, and what it never changes. */
module PageFault {
  import opened PagedMemory

  // ---- How the two counted sets move when one page's bits change ----

  lemma BitsUpdate(s: State, t: State, page: int)
    requires 0 <= page < |s.bits| == |t.bits|
    requires t.bits == s.bits[page := t.bits[page]]
    ensures Residents(t) == if t.bits[page].read then Residents(s) + {page} else Residents(s) - {page}
    ensures Dirty(t) == if t.bits[page].write then Dirty(s) + {page} else Dirty(s) - {page}
  {
    assert forall p :: p != page && 0 <= p < |s.bits| ==> t.bits[p] == s.bits[p];
    var r := if t.bits[page].read then Residents(s) + {page} else Residents(s) - {page};
    var d := if t.bits[page].write then Dirty(s) + {page} else Dirty(s) - {page};
    forall p ensures p in Residents(t) <==> p in r {}
    forall p ensures p in Dirty(t) <==> p in d {}
  }

  // ---- First outcome: a free frame takes the page ----

  /** The fields of the state after `page` went into the free frame `frame`. */
  ghost predicate Placed(s: State, t: State, page: int, frame: int) {
    && Shape(s) && Shape(t)
    && 0 <= page < s.npages && 0 <= frame < s.nframes
    && t.npages == s.npages && t.nframes == s.nframes && t.policy == s.policy
    && t.mapping == s.mapping[page := frame] && t.bits == s.bits[page := R]
    && t.phys == s.phys[frame := s.disk[page]] && t.disk == s.disk
    && t.physFree == s.physFree[frame := 1]
    && t.faultCount == s.faultCount && t.readCount == s.readCount + 1 && t.writeCount == s.writeCount
  }

  lemma FreeFields(s: State, page: int)
    requires Shape(s) && 0 <= page < s.npages && !Full(s)
    ensures Placed(s, FaultFree(s, page), page, FirstFree(s.physFree))
  {
  }

  lemma FreeSets(s: State, t: State, page: int, frame: int)
    requires Placed(s, t, page, frame) && !s.bits[page].read && !s.bits[page].write
    ensures Residents(t) == Residents(s) + {page} && Dirty(t) == Dirty(s)
    ensures |Residents(t)| == |Residents(s)| + 1
  {
    BitsUpdate(s, t, page);
    assert page !in Residents(s) && page !in Dirty(s);
  }

  lemma FreeKeepsTable(s: State, t: State, page: int, frame: int)
    requires Placed(s, t, page, frame) && TableOk(s)
    requires forall p :: 0 <= p < s.npages && s.bits[p].read ==> s.mapping[p] != frame
    ensures TableOk(t)
    ensures CleanOk(s) ==> CleanOk(t)
  {
    assert forall p :: 0 <= p < s.npages && p != page ==> t.bits[p] == s.bits[p] && t.mapping[p] == s.mapping[p];
  }

  lemma FreeKeepsFrames(s: State, t: State, page: int, frame: int)
    requires Placed(s, t, page, frame) && TableOk(s) && FramesOk(s)
    requires !s.bits[page].read && frame == |Residents(s)|
    ensures FramesOk(t)
  {
    hide Residents;
    FreeSets(s, t, page, frame);
    assert forall p :: 0 <= p < s.npages && p != page ==> t.bits[p] == s.bits[p] && t.mapping[p] == s.mapping[p];
  }

  // ---- Second outcome: a victim makes room ----

  /** The fields of the state after `victim` made room for `page`. */
  ghost predicate Evicted(s: State, t: State, page: int, victim: int) {
    && Shape(s) && Shape(t)
    && 0 <= page < s.npages && 0 <= victim < s.npages && page != victim
    && 0 <= s.mapping[victim] < s.nframes
    && t.npages == s.npages && t.nframes == s.nframes && t.policy == s.policy
    && t.physFree == s.physFree
    && t.mapping == s.mapping[victim := 0][page := s.mapping[victim]]
    && t.bits == s.bits[victim := NONE][page := R]
    && t.disk == (if s.bits[victim].write then s.disk[victim := s.phys[s.mapping[victim]]] else s.disk)
    && t.phys == s.phys[s.mapping[victim] := s.disk[page]]
    && t.faultCount == s.faultCount && t.readCount == s.readCount + 1
    && t.writeCount == s.writeCount + (if s.bits[victim].write then 1 else 0)
  }

  lemma EvictFields(s: State, page: int, victim: int)
    requires Shape(s) && 0 <= page < s.npages && 0 <= victim < s.npages && page != victim
    requires 0 <= s.mapping[victim] < s.nframes
    ensures Evicted(s, FaultEvict(s, page, victim), page, victim)
  {
  }

  lemma EvictSets(s: State, t: State, page: int, victim: int)
    requires Evicted(s, t, page, victim)
    requires !s.bits[page].read && !s.bits[page].write && s.bits[victim].read
    ensures Residents(t) == Residents(s) - {victim} + {page} && Dirty(t) == Dirty(s) - {victim}
    ensures |Residents(t)| == |Residents(s)|
    ensures |Dirty(t)| == |Dirty(s)| - if s.bits[victim].write then 1 else 0
  {
    var u := s.(bits := s.bits[victim := NONE]);
    BitsUpdate(s, u, victim);
    BitsUpdate(u, t, page);
    assert page !in Residents(u) && victim in Residents(s);
    assert page !in Dirty(u) && (s.bits[victim].write <==> victim in Dirty(s));
  }

  lemma EvictKeepsTable(s: State, t: State, page: int, victim: int)
    requires Evicted(s, t, page, victim) && TableOk(s) && s.bits[victim].read
    ensures TableOk(t)
    ensures forall p :: 0 <= p < s.npages && t.bits[p].read && p != page
                        ==> t.bits[p] == s.bits[p] && t.mapping[p] == s.mapping[p] != s.mapping[victim]
  {
    forall p | 0 <= p < s.npages && t.bits[p].read && p != page
      ensures t.bits[p] == s.bits[p] && t.mapping[p] == s.mapping[p] != s.mapping[victim]
    {
      assert p != victim;
    }
  }

  lemma EvictKeepsFrames(s: State, t: State, page: int, victim: int)
    requires Evicted(s, t, page, victim) && TableOk(s) && FramesOk(s)
    requires !s.bits[page].read && s.bits[victim].read
    ensures FramesOk(t)
  {
    EvictSets(s, t, page, victim);
    EvictKeepsTable(s, t, page, victim);
    assert t.mapping[page] == s.mapping[victim];
    forall p | 0 <= p < t.npages && t.bits[p].read ensures t.mapping[p] < |Residents(t)| {
      if p != page { assert t.mapping[p] == s.mapping[p]; }
    }
  }

  lemma EvictKeepsClean(s: State, t: State, page: int, victim: int)
    requires Evicted(s, t, page, victim) && TableOk(s) && CleanOk(s) && s.bits[victim].read
    ensures TableOk(t) && CleanOk(t)
  {
    EvictKeepsTable(s, t, page, victim);
  }

  // ---- Third outcome: write permission ----

  lemma UpgradeSets(s: State, t: State, page: int)
    requires 0 <= page < |s.bits| && s.bits[page] == R && t.bits == s.bits[page := RW]
    ensures Residents(t) == Residents(s) && Dirty(t) == Dirty(s) + {page}
    ensures |Dirty(t)| == |Dirty(s)| + 1
  {
    BitsUpdate(s, t, page);
    assert page in Residents(s) && page !in Dirty(s);
    assert Residents(t) == Residents(s);
  }

  lemma UpgradeKeepsTable(s: State, t: State, page: int)
    requires Shape(s) && TableOk(s)
    requires 0 <= page < s.npages && s.bits[page] == R
    requires t == s.(faultCount := t.faultCount, bits := s.bits[page := RW])
    ensures Shape(t) && TableOk(t)
    ensures CleanOk(s) ==> CleanOk(t)
    ensures forall p :: 0 <= p < s.npages ==> t.bits[p].read == s.bits[p].read
  {
    assert forall p :: 0 <= p < s.npages && p != page ==> t.bits[p] == s.bits[p];
  }

  lemma UpgradeKeeps(s: State, t: State, page: int)
    requires Shape(s) && TableOk(s) && FramesOk(s) && CleanOk(s)
    requires 0 <= page < s.npages && s.bits[page] == R
    requires t == s.(faultCount := t.faultCount, bits := s.bits[page := RW])
    ensures Shape(t) && TableOk(t) && FramesOk(t) && CleanOk(t)
  {
    UpgradeSets(s, t, page);
    UpgradeKeepsTable(s, t, page);
  }

  // ---- The page logs ----

  lemma FifoAppend(q: seq<int>, page: int)
    requires Distinct(q) && page !in q
    ensures Distinct(q + [page])
    ensures Elems(q + [page]) == Elems(q) + {page}
  {
  }

  lemma FifoDrop(q: seq<int>)
    requires Distinct(q) && q != []
    ensures Distinct(q[1..])
    ensures Elems(q[1..]) == Elems(q) - {q[0]} && q[0] in Elems(q)
  {
    assert q == [q[0]] + q[1..];
  }

  lemma FreeKeepsLogs(s: State, page: int)
    requires Shape(s) && 0 <= page < s.npages && !Full(s) && page !in Residents(s)
    requires |Residents(s)| < s.nframes
    requires var t := FaultFree(s, page); Residents(t) == Residents(s) + {page} && |Residents(t)| == |Residents(s)| + 1
    ensures s.policy == Fifo && FifoOk(s) ==> FifoOk(FaultFree(s, page))
    ensures s.policy == Custom && CustomOk(s) ==> CustomOk(FaultFree(s, page))
  {
    var t := FaultFree(s, page);
    if s.policy == Fifo && FifoOk(s) {
      Extend(s.fifo[s.pop..], Residents(s), page);
      assert t.fifo[t.pop..] == s.fifo[s.pop..] + [page];
    }
    if s.policy == Custom && CustomOk(s) { CustomKeeps(s, t, page); }
  }

  lemma ElemsMember(q: seq<int>, p: int)
    ensures p in Elems(q) <==> p in q
  {
  }

  lemma CustomKeeps(s: State, t: State, page: int)
    requires s.policy == Custom && CustomOk(s) && page !in Residents(s)
    requires t.nframes == s.nframes && t.readCount == s.readCount + 1
    requires t.custom == s.custom + [page]
    requires t.customPop == if |t.custom| - s.customPop == Window(s.nframes) then s.customPop + 1 else s.customPop
    requires Elems(s.custom[s.customPop..]) + {page} <= Residents(t)
    ensures CustomOk(t)
  {
    hide Distinct, Elems, Residents, Window;
    var q := s.custom[s.customPop..];
    ElemsMember(q, page);
    FifoAppend(q, page);
    var w := q + [page];
    assert t.custom[s.customPop..] == w;
    if t.customPop != s.customPop {
      FifoDrop(w);
      assert t.custom[t.customPop..] == w[1..];
    }
  }

  /** Dropping the head and appending a newcomer keeps a listing a listing. */
  lemma Rotate(q: seq<int>, a: set<int>, page: int)
    requires Lists(q, a) && q != [] && page !in a
    ensures Lists(q[1..] + [page], a - {q[0]} + {page})
  {
    assert page in q <==> page in Elems(q);
    FifoDrop(q);
    FifoAppend(q[1..], page);
  }

  lemma Extend(q: seq<int>, a: set<int>, page: int)
    requires Lists(q, a) && page !in a
    ensures Lists(q + [page], a + {page})
  {
    assert page in q <==> page in Elems(q);
    FifoAppend(q, page);
  }

  lemma Slide(q: seq<int>, pop: nat, page: int)
    requires pop < |q|
    ensures (q + [page])[pop + 1..] == q[pop..][1..] + [page]
    ensures q[pop..][0] == q[pop]
  {
  }

  lemma FifoEvictKeeps(s: State, t: State, page: int, victim: int)
    requires FifoOk(s) && s.pop < |s.fifo| && s.fifo[s.pop] == victim
    requires page !in Residents(s) && |Residents(s)| == s.nframes == t.nframes
    requires Residents(t) == Residents(s) - {victim} + {page}
    requires t.fifo == s.fifo + [page] && t.pop == s.pop + 1 && t.readCount == s.readCount + 1
    ensures FifoOk(t)
  {
    Rotate(s.fifo[s.pop..], Residents(s), page);
    Slide(s.fifo, s.pop, page);
  }

  // ---- The whole handler ----

  lemma EvictKeepsInv(s: State, page: int, victim: int)
    requires Shape(s) && TableOk(s) && FramesOk(s) && CleanOk(s)
    requires s.faultCount == s.readCount + s.writeCount + |Dirty(s)| + 1
    requires s.policy == Fifo ==> FifoOk(s)
    requires s.policy == Custom ==> CustomOk(s)
    requires 0 <= page < s.npages && MayEvict(s, victim)
    requires 0 <= s.mapping[victim] < s.nframes
    requires !s.bits[page].read && s.bits[victim].read && |Residents(s)| == s.nframes
    ensures Inv(FaultEvict(s, page, victim))
  {
    var t := FaultEvict(s, page, victim);
    EvictFields(s, page, victim);
    EvictSets(s, t, page, victim);
    EvictKeepsTable(s, t, page, victim);
    EvictKeepsFrames(s, t, page, victim);
    EvictKeepsClean(s, t, page, victim);
    EvictKeepsLogs(s, page, victim);
  }

  lemma EvictKeepsLogs(s: State, page: int, victim: int)
    requires Shape(s) && 0 <= page < s.npages && MayEvict(s, victim)
    requires 0 <= s.mapping[victim] < s.nframes
    requires page !in Residents(s) && |Residents(s)| == s.nframes
    requires var t := FaultEvict(s, page, victim);
             Residents(t) == Residents(s) - {victim} + {page}
    ensures s.policy == Fifo && FifoOk(s) ==> FifoOk(FaultEvict(s, page, victim))
    ensures s.policy == Custom && CustomOk(s) ==> CustomOk(FaultEvict(s, page, victim))
  {
    var t := FaultEvict(s, page, victim);
    if s.policy == Fifo && FifoOk(s) { FifoEvictKeeps(s, t, page, victim); }
    if s.policy == Custom && CustomOk(s) { CustomKeeps(s, t, page); }
  }

  lemma FreeKeepsInv(s: State, page: int)
    requires Shape(s) && TableOk(s) && FramesOk(s) && CleanOk(s)
    requires s.faultCount == s.readCount + s.writeCount + |Dirty(s)| + 1
    requires s.policy == Fifo ==> FifoOk(s)
    requires s.policy == Custom ==> CustomOk(s)
    requires 0 <= page < s.npages && !s.bits[page].read
    requires FirstFree(s.physFree) == |Residents(s)| < s.nframes
    ensures Inv(FaultFree(s, page))
  {
    var t, frame := FaultFree(s, page), FirstFree(s.physFree);
    assert page !in Residents(s);
    FreeFields(s, page);
    FreeSets(s, t, page, frame);
    FreeKeepsTable(s, t, page, frame);
    FreeKeepsFrames(s, t, page, frame);
    FreeKeepsLogs(s, page);
  }

  lemma TickKeeps(s: State, u: State)
    requires Inv(s) && u == Tick(s)
    ensures Shape(u) && TableOk(u) && FramesOk(u) && CleanOk(u)
    ensures u.faultCount == u.readCount + u.writeCount + |Dirty(u)| + 1
    ensures u.policy == Fifo ==> FifoOk(u)
    ensures u.policy == Custom ==> CustomOk(u)
    ensures Residents(u) == Residents(s)
  {
    assert Residents(u) == Residents(s);
    assert Dirty(u) == Dirty(s);
  }

  lemma FreeMissKeepsInv(s: State, page: int)
    requires Inv(s) && 0 <= page < s.npages && !s.bits[page].read && !Full(s)
    ensures Inv(FaultFree(Tick(s), page))
  {
    FullCount(s);
    TickKeeps(s, Tick(s));
    FreeKeepsInv(Tick(s), page);
  }

  lemma FullMissKeepsInv(s: State, page: int, victim: int)
    requires Inv(s) && 0 <= page < s.npages && !s.bits[page].read && Full(s) && MayEvict(s, victim)
    ensures s.bits[victim].read && 0 <= s.mapping[victim] < s.nframes
    ensures Inv(FaultEvict(Tick(s), page, victim))
  {
    FullCount(s);
    TickKeeps(s, Tick(s));
    VictimIsResident(s, victim);
    EvictKeepsInv(Tick(s), page, victim);
  }

  lemma UpgradeKeepsInv(s: State, page: int, victim: int)
    requires Inv(s) && Faultable(s, page, victim) && s.bits[page] == R
    ensures Inv(Fault(s, page, victim))
  {
    var t := Fault(s, page, victim);
    UpgradeKeeps(s, t, page);
    UpgradeSets(s, t, page);
  }

  /** Every entry into the handler keeps the whole invariant, whatever the policy. */
  lemma FaultKeepsInv(s: State, page: int, victim: int)
    requires Inv(s) && Faultable(s, page, victim)
    ensures Inv(Fault(s, page, victim)) && SameSetup(s, Fault(s, page, victim))
  {
    if !s.bits[page].read {
      if !Full(s) {
        FreeMissKeepsInv(s, page);
        assert Fault(s, page, victim) == FaultFree(Tick(s), page);
      } else {
        FullMissKeepsInv(s, page, victim);
        assert Fault(s, page, victim) == FaultEvict(Tick(s), page, victim);
      }
    } else if !s.bits[page].write {
      UpgradeKeepsInv(s, page, victim);
    }
  }

  lemma EvictKeepsView(s: State, t: State, page: int, victim: int, p: int)
    requires Evicted(s, t, page, victim) && TableOk(s) && CleanOk(s) && 0 <= p < s.npages
    requires !s.bits[page].read && s.bits[victim].read
    ensures t.bits[p].read ==> 0 <= t.mapping[p] < s.nframes
    ensures (if t.bits[p].read then t.phys[t.mapping[p]] else t.disk[p])
         == (if s.bits[p].read then s.phys[s.mapping[p]] else s.disk[p])
  {
    EvictKeepsTable(s, t, page, victim);
    if p == victim { assert !s.bits[p].write ==> s.bits[p] == R; }
  }

  lemma FreeKeepsView(s: State, t: State, page: int, frame: int, p: int)
    requires Shape(s) && Shape(t) && s.npages == t.npages && s.nframes == t.nframes
    requires 0 <= page < s.npages && 0 <= frame < s.nframes && 0 <= p < s.npages && !s.bits[page].read
    requires t.mapping == s.mapping[page := frame] && t.bits == s.bits[page := R]
    requires t.phys == s.phys[frame := s.disk[page]] && t.disk == s.disk
    requires s.bits[p].read ==> 0 <= s.mapping[p] < s.nframes && s.mapping[p] != frame
    ensures t.bits[p].read ==> 0 <= t.mapping[p] < s.nframes
    ensures (if t.bits[p].read then t.phys[t.mapping[p]] else t.disk[p])
         == (if s.bits[p].read then s.phys[s.mapping[p]] else s.disk[p])
  {
  }

  lemma MissKeepsView(s: State, page: int, victim: int, p: int)
    requires Inv(s) && Faultable(s, page, victim) && !s.bits[page].read && 0 <= p < s.npages
    requires Inv(Fault(s, page, victim))
    ensures View(Fault(s, page, victim), p) == View(s, p)
  {
    FullCount(s);
    var u, t := Tick(s), Fault(s, page, victim);
    if Full(s) {
      VictimIsResident(s, victim);
      EvictFields(u, page, victim);
      EvictKeepsView(u, t, page, victim, p);
    } else {
      FreeKeepsView(u, t, page, FirstFree(s.physFree), p);
    }
  }

  /** A fault moves pages around but never changes what any page holds. */
  lemma FaultKeepsView(s: State, page: int, victim: int)
    requires Inv(s) && Faultable(s, page, victim)
    ensures Inv(Fault(s, page, victim))
    ensures forall p :: 0 <= p < s.npages ==> View(Fault(s, page, victim), p) == View(s, p)
  {
    FaultKeepsInv(s, page, victim);
    if !s.bits[page].read {
      forall p | 0 <= p < s.npages ensures View(Fault(s, page, victim), p) == View(s, p) {
        MissKeepsView(s, page, victim, p);
      }
    }
  }

  /** Which pages a fault brings in and takes out of memory. */
  lemma FaultResidents(s: State, page: int, victim: int)
    requires Inv(s) && Faultable(s, page, victim)
    ensures Residents(Fault(s, page, victim)) ==
              (if s.bits[page].read then Residents(s)
               else if !Full(s) then Residents(s) + {page}
               else Residents(s) - {victim} + {page})
  {
    FullCount(s);
    assert Residents(Tick(s)) == Residents(s);
    if s.bits[page].read {
      BitsUpdate(s, Fault(s, page, victim), page);
      assert page in Residents(s);
    } else if !Full(s) {
      FreeFields(Tick(s), page);
      FreeSets(Tick(s), Fault(s, page, victim), page, FirstFree(s.physFree));
    } else {
      VictimIsResident(s, victim);
      EvictFields(Tick(s), page, victim);
      EvictSets(Tick(s), Fault(s, page, victim), page, victim);
    }
  }

  /** Which pages a fault makes dirty and clean. */
  lemma FaultDirty(s: State, page: int, victim: int)
    requires Inv(s) && Faultable(s, page, victim)
    ensures Dirty(Fault(s, page, victim)) ==
              (if s.bits[page].read then Dirty(s) + {page}
               else if !Full(s) then Dirty(s)
               else Dirty(s) - {victim})
  {
    assert Dirty(Tick(s)) == Dirty(s);
    if s.bits[page].read {
      BitsUpdate(s, Fault(s, page, victim), page);
    } else if !Full(s) {
      FreeFields(Tick(s), page);
      FreeSets(Tick(s), Fault(s, page, victim), page, FirstFree(s.physFree));
    } else {
      VictimIsResident(s, victim);
      EvictFields(Tick(s), page, victim);
      EvictSets(Tick(s), Fault(s, page, victim), page, victim);
    }
  }

  /** What a fault adds to the disk-read counter and to the FIFO log. */
  lemma FaultLogs(s: State, page: int, victim: int)
    requires Inv(s) && Faultable(s, page, victim)
    ensures var t := Fault(s, page, victim);
            && t.readCount == s.readCount + (if s.bits[page].read then 0 else 1)
            && t.fifo == (if s.policy == Fifo && !s.bits[page].read then s.fifo + [page] else s.fifo)
  {
    if !s.bits[page].read && Full(s) { VictimIsResident(s, victim); }
  }

  /** A fault grants the missing permission: reading first, then writing. */
  lemma FaultGrants(s: State, page: int, victim: int)
    requires Inv(s) && Faultable(s, page, victim)
    ensures var t := Fault(s, page, victim);
            && |t.bits| == |s.bits|
            && t.bits[page] == (if s.bits[page].read then RW else R)
            && (s.bits[page] != RW ==> t.faultCount == s.faultCount + 1)
            && (s.bits[page] == RW ==> t == s)
  {
    assert s.bits[page].write ==> s.bits[page].read;
  }

  // ---- The whole effect of a fault, field by field ----

  /** A fault on a resident page counts once and grants writing, or does nothing at all. */
  lemma ResidentFault(s: State, page: int, victim: int)
    requires Faultable(s, page, victim) && s.bits[page].read
    ensures Fault(s, page, victim)
            == if s.bits[page].write then s
               else s.(faultCount := s.faultCount + 1, bits := s.bits[page := Prot(true, true)])
  {
  }

  /** Is `frame` the lowest one marked free? */
  predicate LowestFree(physFree: seq<int>, frame: int) {
    0 <= frame < |physFree| && physFree[frame] == 0 && forall i :: 0 <= i < frame ==> physFree[i] != 0
  }

  /** What every load of a page does to the page logs, with the sizes of the custom window. */
  predicate Logged(s: State, t: State, page: int) {
    && t.fifo == (if s.policy == Fifo then s.fifo + [page] else s.fifo)
    && t.custom == (if s.policy == Custom then s.custom + [page] else s.custom)
    && t.customPop == s.customPop + if s.policy == Custom && |s.custom| + 1 - s.customPop
                                         == s.nframes / (if s.nframes < 10 then 3 else 10) then 1 else 0
  }

  /** With a free frame: the lowest one is taken and filled from disk, and nothing is evicted. */
  lemma FreeFault(s: State, page: int, victim: int, frame: int)
    requires Faultable(s, page, victim) && !s.bits[page].read && LowestFree(s.physFree, frame)
    ensures var t := Fault(s, page, victim);
            && Logged(s, t, page)
            && t == s.(faultCount := s.faultCount + 1, readCount := s.readCount + 1,
                       physFree := s.physFree[frame := 1],
                       mapping := s.mapping[page := frame], bits := s.bits[page := Prot(true, false)],
                       phys := s.phys[frame := s.disk[page]],
                       fifo := t.fifo, custom := t.custom, customPop := t.customPop)
  {
    assert FirstFree(s.physFree) == frame;
  }

  /** Without one: the victim is written back if dirty and unmapped, and its frame is filled. */
  lemma FullFault(s: State, page: int, victim: int)
    requires Faultable(s, page, victim) && !s.bits[page].read
    requires forall i :: 0 <= i < s.nframes ==> s.physFree[i] != 0
    ensures var t := Fault(s, page, victim);
            var frame, dirty := s.mapping[victim], s.bits[victim].write;
            && Logged(s, t, page)
            && t == s.(faultCount := s.faultCount + 1, readCount := s.readCount + 1,
                       writeCount := s.writeCount + if dirty then 1 else 0,
                       disk := if dirty then s.disk[victim := s.phys[frame]] else s.disk,
                       mapping := s.mapping[victim := 0][page := frame],
                       bits := s.bits[victim := Prot(false, false)][page := Prot(true, false)],
                       phys := s.phys[frame := t.disk[page]],
                       pop := s.pop + if s.policy == Fifo then 1 else 0,
                       fifo := t.fifo, custom := t.custom, customPop := t.customPop)
  {
    assert FirstFree(s.physFree) == s.nframes;
  }
}
