/** Formatting a SimpleFS disk, and runs of inode creation and deletion on a mounted one. */
module FsRuns {
  import opened SimpleFs

  /** A mounted file system: the disk and the free-block map in memory. */
  datatype Fs = Fs(disk: Disk, bits: seq<int>)

  const FreshInode := Inode(1, 0, [0, 0, 0, 0, 0], 0)

  // ---- Format ----

  function ZeroBlock(): Block {
    seq(WORDS, _ => 0)
  }

  /** A tenth of the disk, rounded up. */
  function TenthUp(n: nat): nat {
    if n % 10 == 0 then n / 10 else n / 10 + 1
  }

  /** The superblock of a disk of `n` blocks; words past the fourth are whatever memory held. */
  function Superblock(junk: Block, n: nat): Block {
    junk[0 := FS_MAGIC][1 := n][2 := TenthUp(n)][3 := INODES_PER_BLOCK * TenthUp(n)]
  }

  function Formatted(was: Disk, junk: Block): (disk: Disk)
    requires was != []
    ensures |disk| == |was|
    ensures forall i :: 0 <= i < |was| ==>
              disk[i] == if i == 0 then Superblock(junk, |was|) else if i < TenthUp(|was|) then ZeroBlock() else was[i]
  {
    [Superblock(junk, |was|)] + seq(TenthUp(|was|) - 1, _ => ZeroBlock()) + was[TenthUp(|was|)..]
  }

  lemma ZeroIsDead(j: nat)
    requires j < INODES_PER_BLOCK
    ensures InodeAt(ZeroBlock(), j) == EmptyInode
  {
  }

  /** Whatever the disk held, after formatting no block is in use. */
  lemma FormattedIsEmpty(was: Disk, junk: Block)
    requires was != []
    ensures var disk := Formatted(was, junk);
            Sound(disk) && forall b :: !Used(disk, b)
  {
    var disk := Formatted(was, junk);
    forall i, j | 1 <= i < NumInodeBlocks(disk) && 0 <= j < INODES_PER_BLOCK ensures !Live(disk, i, j) {
      assert disk[i] == ZeroBlock();
      ZeroIsDead(j);
    }
  }

  /** Format, mount, take a block: the block right after the inode table, if there is one. */
  lemma FirstBlockAfterFormat(was: Disk, junk: Block, bits: seq<int>)
    requires was != [] && |bits| == |was| && Agrees(bits, Formatted(was, junk))
    ensures var n := NumInodeBlocks(Formatted(was, junk));
            NextFree(bits, n + 1) == if n + 1 < |was| then n + 1 else -1
  {
    hide Used;
    FormattedIsEmpty(was, junk);
  }

  // ---- Create ----

  /** Where a search for a free inode ends; a read past the disk aborts the program. */
  datatype Found = Slot(i: nat, j: nat) | NoSlot | BadRead

  /** Least invalid inode of a block from `from` on; INODES_PER_BLOCK when there is none. */
  function FirstInvalid(b: Block, from: nat): (j: nat)
    requires from <= INODES_PER_BLOCK
    ensures from <= j <= INODES_PER_BLOCK
    ensures j < INODES_PER_BLOCK ==> InodeAt(b, j).isvalid == 0
    ensures forall m :: from <= m < j ==> InodeAt(b, m).isvalid != 0
    decreases INODES_PER_BLOCK - from
  {
    if from == INODES_PER_BLOCK || InodeAt(b, from).isvalid == 0 then from else FirstInvalid(b, from + 1)
  }

  /** First inode to look at: number 0 is never given out. */
  function FirstSlot(i: nat): nat {
    if i == 1 then 1 else 0
  }

  /** Each inode block is read over the superblock, so the bound of the next round is the word of
      the block just read that lies where the superblock keeps its number of inode blocks. */
  function Search(disk: Disk, i: nat, bound: int): (r: Found)
    requires i >= 1
    ensures r.Slot? ==> && i <= r.i < |disk| && FirstSlot(r.i) <= r.j < INODES_PER_BLOCK
                        && !Live(disk, r.i, r.j)
    decreases |disk| - i
  {
    if i >= bound + 1 then NoSlot
    else if i >= |disk| then BadRead
    else
      var j := FirstInvalid(disk[i], FirstSlot(i));
      if j < INODES_PER_BLOCK then Slot(i, j) else Search(disk, i + 1, disk[i][2])
  }

  function Number(i: nat, j: nat): int {
    (i - 1) * INODES_PER_BLOCK + j
  }

  predicate CanCreate(fs: Fs) {
    && fs.disk != []
    && var f := Search(fs.disk, 1, NumInodeBlocks(fs.disk));
       !f.BadRead? && (f.Slot? ==> f.i < |fs.bits|)
  }

  function SetInode(disk: Disk, i: nat, j: nat, node: Inode): Disk
    requires i < |disk| && j < INODES_PER_BLOCK
  {
    disk[i := PutInode(disk[i], j, node)]
  }

  function Create(fs: Fs): (Fs, int)
    requires CanCreate(fs)
  {
    match Search(fs.disk, 1, NumInodeBlocks(fs.disk))
    case Slot(i, j) => (Fs(SetInode(fs.disk, i, j, FreshInode), fs.bits[i := 1]), Number(i, j))
    case NoSlot => (fs, 0)
  }

  // ---- Delete ----

  function BlockOfNumber(n: nat): nat {
    (n + INODES_PER_BLOCK - 1) / INODES_PER_BLOCK
  }

  predicate CanDelete(fs: Fs, n: nat) {
    fs.disk != [] && (BlockOfNumber(n) <= NumInodeBlocks(fs.disk) ==> BlockOfNumber(n) < |fs.disk|)
  }

  function Delete(fs: Fs, n: nat): (Fs, int)
    requires CanDelete(fs, n)
  {
    var i, j := BlockOfNumber(n), n % INODES_PER_BLOCK;
    if i > NumInodeBlocks(fs.disk) || !Live(fs.disk, i, j) then (fs, 0)
    else (fs.(disk := SetInode(fs.disk, i, j, EmptyInode)), 1)
  }

  /** The number given to an inode leads back to it exactly when it is not the first of its block. */
  lemma NumberRoundTrip(i: nat, j: nat)
    requires i >= 1 && j < INODES_PER_BLOCK
    ensures Number(i, j) >= 0
    ensures BlockOfNumber(Number(i, j)) == i && Number(i, j) % INODES_PER_BLOCK == j <==> j != 0
  {
  }

  // ---- What every run keeps ----

  datatype Op = CreateOp | DeleteOp(n: nat)

  /** The table fits on the disk, and inode 0, which lies over the search bound, holds no block. */
  predicate Layout(fs: Fs) {
    && |fs.disk| >= 2
    && 1 <= NumInodeBlocks(fs.disk) < NumBlocks(fs.disk) <= |fs.disk|
    && |fs.bits| == NumBlocks(fs.disk)
    && fs.disk[1][2] < 2
  }

  /** No indirect block lies in the inode table. */
  predicate Apart(disk: Disk)
    requires disk != []
  {
    forall i, j :: 1 <= i < NumInodeBlocks(disk) && 0 <= j < INODES_PER_BLOCK && Live(disk, i, j)
                   && InodeAt(disk[i], j).size > DIRECT_BYTES
                   ==> !(0 <= InodeAt(disk[i], j).indirect <= NumInodeBlocks(disk))
  }

  /** No block that a scanned inode refers to is marked free. */
  ghost predicate Covered(fs: Fs)
    requires fs.disk != []
  {
    forall b :: 0 <= b < |fs.bits| && Used(fs.disk, b) ==> fs.bits[b] != 0
  }

  ghost predicate Safe(fs: Fs) {
    Layout(fs) && Sound(fs.disk) && Apart(fs.disk) && Covered(fs)
  }

  /** Creation looks at the first inode block only, so it never has more than 127 inodes to give. */
  lemma CreateStaysInFirst(fs: Fs)
    requires Layout(fs)
    ensures CanCreate(fs)
    ensures var j := FirstInvalid(fs.disk[1], 1);
            Search(fs.disk, 1, NumInodeBlocks(fs.disk)) == if j < INODES_PER_BLOCK then Slot(1, j) else NoSlot
    ensures Create(fs).1 == 0 <==> forall j :: 1 <= j < INODES_PER_BLOCK ==> Live(fs.disk, 1, j)
    ensures Create(fs).1 != 0 ==> && 1 <= Create(fs).1 < INODES_PER_BLOCK && !Live(fs.disk, 1, Create(fs).1)
                                  && forall j :: 1 <= j < Create(fs).1 ==> Live(fs.disk, 1, j)
  {
  }

  predicate CanApply(fs: Fs, op: Op) {
    match op
    case CreateOp => CanCreate(fs)
    case DeleteOp(n) => CanDelete(fs, n)
  }

  function Apply(fs: Fs, op: Op): Fs
    requires CanApply(fs, op)
  {
    match op
    case CreateOp => Create(fs).0
    case DeleteOp(n) => Delete(fs, n).0
  }

  /** What a file holds does not change when an inode block is rewritten. */
  lemma HoldsSame(disk: Disk, disk': Disk, m: nat, node: Inode, b: int)
    requires |disk'| == |disk| && m < |disk| && disk' == disk[m := disk'[m]]
    requires node.size > DIRECT_BYTES ==> node.indirect != m
    ensures Holds(disk', node, b) <==> Holds(disk, node, b)
  {
    forall k | 0 <= k < FileBlocks(node.size) ensures Pointer(disk', node, k) == Pointer(disk, node, k) {
    }
    if Holds(disk, node, b) && !(node.size > DIRECT_BYTES && b == node.indirect) {
      var k :| 0 <= k < FileBlocks(node.size) && Pointer(disk, node, k) == b;
      assert Pointer(disk', node, k) == b;
    }
  }

  /** Rewriting one inode of the table with an empty file: every other inode stays as it was. */
  lemma SetInodeKeeps(disk: Disk, m: nat, j: nat, node: Inode, i: nat, k: nat)
    requires m < |disk| && j < INODES_PER_BLOCK && k < INODES_PER_BLOCK && i < |disk|
    ensures InodeAt(SetInode(disk, m, j, node)[i], k) == if i == m && k == j then node else InodeAt(disk[i], k)
  {
    PutGetInode(disk[m], j, node, k);
  }

  predicate EmptyFile(node: Inode) {
    node.size == 0
  }

  lemma RefersAfter(disk: Disk, m: nat, j: nat, node: Inode, i: nat, k: nat, b: int)
    requires disk != [] && Apart(disk) && 1 <= m <= NumInodeBlocks(disk) && m < |disk|
    requires j < INODES_PER_BLOCK && EmptyFile(node)
    requires 1 <= i < NumInodeBlocks(disk) && k < INODES_PER_BLOCK
    requires Refers(SetInode(disk, m, j, node), i, k, b)
    ensures Refers(disk, i, k, b) || (i == m && k == j && b == m && node.isvalid != 0)
  {
    hide Holds, PutInode;
    var disk' := SetInode(disk, m, j, node);
    SetInodeKeeps(disk, m, j, node, i, k);
    var old_node := InodeAt(disk'[i], k);
    if i == m && k == j {
      EmptyHoldsNothing(disk', node, b);
    } else {
      HoldsSame(disk, disk', m, old_node, b);
    }
  }

  lemma EmptyHoldsNothing(disk: Disk, node: Inode, b: int)
    requires EmptyFile(node)
    ensures !Holds(disk, node, b)
  {
  }

  /** The shape conditions survive the rewriting. */
  lemma SetInodeShape(fs: Fs, m: nat, j: nat, node: Inode, bits: seq<int>)
    requires Layout(fs) && Sound(fs.disk) && Apart(fs.disk) && |bits| == |fs.bits|
    requires 1 <= m <= NumInodeBlocks(fs.disk) && j < INODES_PER_BLOCK && EmptyFile(node)
    requires node.direct == [0, 0, 0, 0, 0]
    ensures var t := Fs(SetInode(fs.disk, m, j, node), bits);
            Layout(t) && Sound(t.disk) && Apart(t.disk)
  {
    hide PutInode, Pointer, FileBlocks, InodeAt;
    var disk' := SetInode(fs.disk, m, j, node);
    BoundWord(fs.disk[m], j, node);
    forall i, k | 1 <= i < NumInodeBlocks(disk') && 0 <= k < INODES_PER_BLOCK && Live(disk', i, k)
      ensures NodeSound(disk', InodeAt(disk'[i], k))
      ensures InodeAt(disk'[i], k).size > DIRECT_BYTES
              ==> !(0 <= InodeAt(disk'[i], k).indirect <= NumInodeBlocks(disk'))
    {
      SetInodeKeeps(fs.disk, m, j, node, i, k);
      if i == m && k == j {
        EmptySound(disk', node);
      } else {
        assert Live(fs.disk, i, k);
        NodeSoundSame(fs.disk, disk', m, InodeAt(fs.disk[i], k));
      }
    }
  }

  lemma EmptySound(disk: Disk, node: Inode)
    requires disk != [] && EmptyFile(node)
    ensures NodeSound(disk, node)
  {
  }

  lemma NodeSoundSame(disk: Disk, disk': Disk, m: nat, node: Inode)
    requires disk != [] && |disk'| == |disk| && 1 <= m < |disk| && disk' == disk[m := disk'[m]]
    requires node.size > DIRECT_BYTES ==> node.indirect != m
    requires NodeSound(disk, node)
    ensures NodeSound(disk', node)
  {
    forall k | 0 <= k < FileBlocks(node.size) ensures 0 <= Pointer(disk', node, k) < NumBlocks(disk') {
      assert Pointer(disk', node, k) == Pointer(disk, node, k);
    }
  }

  /** The word over the search bound belongs to inode 0 of the block. */
  lemma BoundWord(b: Block, j: nat, node: Inode)
    requires j < INODES_PER_BLOCK
    ensures PutInode(b, j, node)[2] == if j == 0 then node.direct[0] else b[2]
  {
  }

  lemma CoveredAfter(fs: Fs, m: nat, j: nat, node: Inode, bits: seq<int>)
    requires Safe(fs) && 1 <= m <= NumInodeBlocks(fs.disk) && j < INODES_PER_BLOCK && EmptyFile(node)
    requires |bits| == |fs.bits| && forall b :: 0 <= b < |bits| && fs.bits[b] != 0 ==> bits[b] != 0
    requires node.isvalid != 0 ==> bits[m] != 0
    ensures Covered(Fs(SetInode(fs.disk, m, j, node), bits))
  {
    hide Refers, Sound, Apart, PutInode;
    var disk' := SetInode(fs.disk, m, j, node);
    forall b | 0 <= b < |bits| && Used(disk', b) ensures bits[b] != 0 {
      var i, k :| 1 <= i < NumInodeBlocks(disk') && 0 <= k < INODES_PER_BLOCK && Refers(disk', i, k, b);
      RefersAfter(fs.disk, m, j, node, i, k, b);
      if Refers(fs.disk, i, k, b) { assert Used(fs.disk, b); }
    }
  }

  /** Creating, and deleting any inode but number 0, keeps every used block covered. */
  lemma StepKeepsSafe(fs: Fs, op: Op)
    requires Safe(fs) && op != DeleteOp(0)
    ensures CanApply(fs, op) && Safe(Apply(fs, op))
    ensures NumInodeBlocks(Apply(fs, op).disk) == NumInodeBlocks(fs.disk)
    ensures |Apply(fs, op).bits| == |fs.bits|
    ensures forall b :: NumInodeBlocks(fs.disk) < b < |fs.bits| ==> Apply(fs, op).bits[b] == fs.bits[b]
  {
    hide Covered, Apart, Sound, PutInode, Search, Live, InodeAt, FirstInvalid;
    match op
    case CreateOp =>
      CreateStaysInFirst(fs);
      var j := FirstInvalid(fs.disk[1], 1);
      if j < INODES_PER_BLOCK {
        SetInodeShape(fs, 1, j, FreshInode, fs.bits[1 := 1]);
        CoveredAfter(fs, 1, j, FreshInode, fs.bits[1 := 1]);
      }
    case DeleteOp(n) =>
      var m, j := BlockOfNumber(n), n % INODES_PER_BLOCK;
      if m <= NumInodeBlocks(fs.disk) && Live(fs.disk, m, j) {
        SetInodeShape(fs, m, j, EmptyInode, fs.bits);
        CoveredAfter(fs, m, j, EmptyInode, fs.bits);
      }
  }

  /** A step breaks this exactly when it deletes number 0 while the first word of the superblock
      is not 0. */
  lemma StepSafeExactly(fs: Fs, op: Op)
    requires Safe(fs)
    ensures CanApply(fs, op)
    ensures Safe(Apply(fs, op)) <==> op != DeleteOp(0) || fs.disk[0][0] == 0
  {
    hide Covered, Apart, Sound, PutInode;
    if op == DeleteOp(0) {
      BoundWord(fs.disk[0], 0, EmptyInode);
    } else {
      StepKeepsSafe(fs, op);
    }
  }

  /** A run of operations; deleting number 0 is looked at separately. */
  predicate Run(fs: Fs, ops: seq<Op>, t: Fs)
    decreases |ops|
  {
    if ops == [] then fs == t
    else CanApply(fs, ops[0]) && Run(Apply(fs, ops[0]), ops[1..], t)
  }

  /** From a freshly mounted disk, whatever is created and deleted, the next free block is never
      one that a scanned inode refers to; and it is always the same one, because deletion gives no
      block back. */
  lemma {:induction false} RunNeverHandsOutUsed(fs: Fs, ops: seq<Op>, t: Fs)
    requires Safe(fs) && Run(fs, ops, t) && forall x :: 0 <= x < |ops| ==> ops[x] != DeleteOp(0)
    ensures Safe(t)
    ensures var b := NextFree(t.bits, NumInodeBlocks(t.disk) + 1);
            && (b != -1 ==> !Used(t.disk, b))
            && b == NextFree(fs.bits, NumInodeBlocks(fs.disk) + 1)
    decreases |ops|
  {
    hide Safe, Used;
    if ops == [] {
      SafeFree(t);
    } else {
      StepKeepsSafe(fs, ops[0]);
      var u := Apply(fs, ops[0]);
      SafeTable(fs);
      RunNeverHandsOutUsed(u, ops[1..], t);
      NextFreeSame(fs.bits, u.bits, NumInodeBlocks(fs.disk) + 1);
    }
  }

  lemma SafeTable(fs: Fs)
    requires Safe(fs)
    ensures fs.disk != [] && NumInodeBlocks(fs.disk) >= 1
  {
  }

  lemma SafeFree(fs: Fs)
    requires Safe(fs)
    ensures var b := NextFree(fs.bits, NumInodeBlocks(fs.disk) + 1);
            b != -1 ==> !Used(fs.disk, b)
  {
  }

  lemma {:induction false} NextFreeSame(bits: seq<int>, bits': seq<int>, i: nat)
    requires |bits'| == |bits| && forall b :: i <= b < |bits| ==> bits'[b] == bits[b]
    ensures NextFree(bits', i) == NextFree(bits, i)
    decreases |bits| - i
  {
    if i < |bits| { NextFreeSame(bits, bits', i + 1); }
  }

  /** A map that mounting computed leaves no used block unmarked. */
  lemma MountCovers(fs: Fs)
    requires fs.disk != [] && Agrees(fs.bits, fs.disk)
    ensures Covered(fs)
  {
  }

  /** Mounting again after a run only takes marks away: what the run leaked is free again. */
  lemma RemountFreesOnly(fs: Fs, bits: seq<int>, b: nat)
    requires Safe(fs) && |bits| == |fs.bits| && Agrees(bits, fs.disk) && b < |bits|
    ensures bits[b] != 0 ==> fs.bits[b] != 0
  {
  }

  /** Deleting what was just created is possible and leaves the disk as it was, up to the words
      of the inode itself. */
  lemma CreateThenDelete(fs: Fs, t: Fs, n: nat)
    requires Safe(fs) && CanCreate(fs) && Create(fs) == (t, n) && n != 0
    ensures CanDelete(t, n) && Delete(t, n).1 == 1
    ensures n < INODES_PER_BLOCK && InodeAt(t.disk[1], n) == FreshInode
    ensures InodeAt(fs.disk[1], n) == EmptyInode ==> Delete(t, n).0.disk == fs.disk
  {
    hide Covered, Apart, Sound, InodeAt, PutInode;
    CreateStaysInFirst(fs);
    NumberRoundTrip(1, n);
    PutGetInode(fs.disk[1], n, FreshInode, n);
    PutTwice(fs.disk[1], n, FreshInode);
  }

  lemma PutTwice(b: Block, j: nat, node: Inode)
    requires j < INODES_PER_BLOCK
    ensures InodeAt(b, j) == EmptyInode ==> PutInode(PutInode(b, j, node), j, EmptyInode) == b
  {
    if InodeAt(b, j) == EmptyInode {
      var c := PutInode(PutInode(b, j, node), j, EmptyInode);
      var d := b[8 * j + 2..8 * j + 7];
      assert d == [0, 0, 0, 0, 0];
      assert d[0] == b[8 * j + 2] && d[1] == b[8 * j + 3] && d[2] == b[8 * j + 4];
      assert d[3] == b[8 * j + 5] && d[4] == b[8 * j + 6];
      assert forall x :: 0 <= x < WORDS ==> c[x] == b[x];
    }
  }

  // ---- Inode number 0 ----

  /** Deleting number 0 takes the superblock for an inode block: it survives only if its magic
      number is 0. */
  lemma DeleteZeroExactly(fs: Fs, n: nat)
    requires CanDelete(fs, n) && NumInodeBlocks(fs.disk) >= 0
    ensures Delete(fs, n).0.disk[0] == fs.disk[0] <==> n != 0 || fs.disk[0][0] == 0
  {
    if n == 0 && fs.disk[0][0] != 0 {
      PutGetInode(fs.disk[0], 0, EmptyInode, 0);
    }
  }

  /** After it, a freshly formatted and mounted disk hands out its first inode block. */
  lemma DeleteZeroThenTake(was: Disk, junk: Block, fs: Fs, t: Fs)
    requires |was| >= 2 && fs.disk == Formatted(was, junk) && |fs.bits| == |was| && Agrees(fs.bits, fs.disk)
    requires CanDelete(fs, 0) && t == Delete(fs, 0).0
    ensures NumInodeBlocks(t.disk) == 0 && NextFree(t.bits, NumInodeBlocks(t.disk) + 1) == 1
  {
    hide Used, PutInode;
    FormattedIsEmpty(was, junk);
    BoundWord(fs.disk[0], 0, EmptyInode);
    assert fs.bits[1] == 0;
  }

  // ---- How many inodes a formatted disk has ----

  predicate FormattedAndMounted(was: Disk, junk: Block, fs: Fs) {
    was != [] && fs.disk == Formatted(was, junk) && |fs.bits| == |was|
  }

  /** Eleven blocks are the fewest for which formatting clears an inode block. */
  lemma FormattedIsSafe(was: Disk, junk: Block, fs: Fs)
    requires FormattedAndMounted(was, junk, fs) && Agrees(fs.bits, fs.disk) && |was| >= 11
    ensures Safe(fs) && fs.disk[1] == ZeroBlock()
    ensures forall j :: 1 <= j < INODES_PER_BLOCK ==> !Live(fs.disk, 1, j)
  {
    hide Used;
    FormattedIsEmpty(was, junk);
    forall i, j | 1 <= i < NumInodeBlocks(fs.disk) && 0 <= j < INODES_PER_BLOCK ensures !Live(fs.disk, i, j) {
      assert fs.disk[i] == ZeroBlock();
      ZeroIsDead(j);
    }
  }

  /** Whatever is created and deleted on a disk formatted and mounted by this program, creation
      gives the least free number of 1 .. 127, and fails exactly when these are all taken, however
      many inodes the superblock announces. */
  lemma FormattedCapacity(was: Disk, junk: Block, fs: Fs, ops: seq<Op>, t: Fs)
    requires FormattedAndMounted(was, junk, fs) && Agrees(fs.bits, fs.disk) && |was| >= 11
    requires Run(fs, ops, t) && forall x :: 0 <= x < |ops| ==> ops[x] != DeleteOp(0)
    ensures |t.disk| >= 2 && CanCreate(t)
    ensures var n := Create(t).1;
            if n == 0 then forall j :: 1 <= j < INODES_PER_BLOCK ==> Live(t.disk, 1, j)
            else 1 <= n < INODES_PER_BLOCK && !Live(t.disk, 1, n) && forall j :: 1 <= j < n ==> Live(t.disk, 1, j)
  {
    hide Used, Agrees, Run, Live;
    FormattedIsSafe(was, junk, fs);
    RunNeverHandsOutUsed(fs, ops, t);
    CreateStaysInFirst(t);
  }

  function Creations(k: nat): seq<Op> {
    seq(k, _ => CreateOp)
  }

  lemma {:induction false} RunThen(fs: Fs, ops: seq<Op>, t: Fs, op: Op)
    requires Run(fs, ops, t) && CanApply(t, op)
    ensures Run(fs, ops + [op], Apply(t, op))
    decreases |ops|
  {
    if ops == [] {
      assert ops + [op] == [op] && [op][1..] == [];
      assert Run(Apply(t, op), [], Apply(t, op));
    } else {
      RunThen(Apply(fs, ops[0]), ops[1..], t, op);
      assert (ops + [op])[1..] == ops[1..] + [op];
    }
  }

  /** Creating over and over gives 1, 2, .. 127 and then nothing. */
  lemma {:induction false} FormattedCounts(was: Disk, junk: Block, fs: Fs, k: nat) returns (t: Fs)
    requires FormattedAndMounted(was, junk, fs) && Agrees(fs.bits, fs.disk) && |was| >= 11
    requires k < INODES_PER_BLOCK
    ensures Run(fs, Creations(k), t) && Safe(t) && CanCreate(t)
    ensures forall j :: 1 <= j < INODES_PER_BLOCK ==> (Live(t.disk, 1, j) <==> j <= k)
    ensures Create(t).1 == if k < INODES_PER_BLOCK - 1 then k + 1 else 0
  {
    hide Used, Agrees, Run, Live, Covered, Apart, Sound, Search;
    if k == 0 {
      t := fs;
      FormattedIsSafe(was, junk, fs);
      RunNothing(fs);
    } else {
      var u := FormattedCounts(was, junk, fs, k - 1);
      t := Apply(u, CreateOp);
      RunThen(fs, Creations(k - 1), u, CreateOp);
      assert Creations(k) == Creations(k - 1) + [CreateOp];
      StepKeepsSafe(u, CreateOp);
      CreateStaysInFirst(u);
      forall j | 1 <= j < INODES_PER_BLOCK ensures Live(t.disk, 1, j) <==> j <= k {
        CreateMakesLive(u, j);
      }
    }
    NextNumber(t, k);
  }

  lemma NextNumber(fs: Fs, k: nat)
    requires Layout(fs) && k < INODES_PER_BLOCK
    requires forall j :: 1 <= j < INODES_PER_BLOCK ==> (Live(fs.disk, 1, j) <==> j <= k)
    ensures CanCreate(fs) && Create(fs).1 == if k < INODES_PER_BLOCK - 1 then k + 1 else 0
  {
    hide Live, Create;
    CreateStaysInFirst(fs);
    assert k + 1 < INODES_PER_BLOCK ==> !Live(fs.disk, 1, k + 1);
  }

  lemma RunNothing(fs: Fs)
    ensures Run(fs, Creations(0), fs)
  {
  }

  lemma CreateMakesLive(fs: Fs, j: nat)
    requires Layout(fs) && CanCreate(fs) && Create(fs).1 != 0 && 1 <= j < INODES_PER_BLOCK
    ensures Live(Create(fs).0.disk, 1, j) <==> Live(fs.disk, 1, j) || j == Create(fs).1
  {
    CreateStaysInFirst(fs);
    var n := Create(fs).1;
    SetInodeKeeps(fs.disk, 1, n, FreshInode, 1, j);
  }
}
