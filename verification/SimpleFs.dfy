/** Blocks, inodes and the references between them on a SimpleFS disk. */
module SimpleFs {

  const BLOCK_SIZE := 4096
  const WORDS := 1024
  const INODES_PER_BLOCK := 128
  /** The magic number as a signed 32-bit word. */
  const FS_MAGIC := 0xf0f03410 - 0x1_0000_0000
  /** A file above this size needs its indirect block. */
  const DIRECT_BYTES := 5 * BLOCK_SIZE

  /** One block as words; superblock, inodes and pointers are overlays of the same words. */
  type Block = b: seq<int> | |b| == WORDS witness seq(WORDS, _ => 0)
  type Direct = d: seq<int> | |d| == 5 witness [0, 0, 0, 0, 0]

  datatype Inode = Inode(isvalid: int, size: int, direct: Direct, indirect: int)

  type Disk = seq<Block>

  const EmptyInode := Inode(0, 0, [0, 0, 0, 0, 0], 0)

  // ---- Overlays ----

  function InodeAt(b: Block, j: nat): Inode
    requires j < INODES_PER_BLOCK
  {
    Inode(b[8 * j], b[8 * j + 1], b[8 * j + 2..8 * j + 7], b[8 * j + 7])
  }

  function PutInode(b: Block, j: nat, node: Inode): Block
    requires j < INODES_PER_BLOCK
  {
    b[..8 * j] + [node.isvalid, node.size] + node.direct + [node.indirect] + b[8 * j + 8..]
  }

  function NumBlocks(disk: Disk): int
    requires disk != []
  {
    disk[0][1]
  }

  function NumInodeBlocks(disk: Disk): int
    requires disk != []
  {
    disk[0][2]
  }

  /** Writing one inode of a block leaves the other inodes of the block alone. */
  lemma PutGetInode(b: Block, j: nat, node: Inode, m: nat)
    requires j < INODES_PER_BLOCK && m < INODES_PER_BLOCK
    ensures InodeAt(PutInode(b, j, node), m) == if m == j then node else InodeAt(b, m)
  {
    var c := PutInode(b, j, node);
    if m < j {
      assert c[8 * m..8 * m + 8] == b[8 * m..8 * m + 8];
      assert c[8 * m + 2..8 * m + 7] == b[8 * m + 2..8 * m + 7];
    } else if m > j {
      assert c[8 * m + 2..8 * m + 7] == b[8 * m + 2..8 * m + 7];
    } else {
      assert c[8 * j + 2..8 * j + 7] == node.direct;
    }
  }

  // ---- What an inode refers to ----

  /** Number of data blocks of a file. */
  function FileBlocks(size: int): nat {
    if size <= 0 then 0 else (size + BLOCK_SIZE - 1) / BLOCK_SIZE
  }

  /** Block number of data block `k`; -1 where the inode has none. */
  function Pointer(disk: Disk, node: Inode, k: nat): int {
    if k < 5 then node.direct[k]
    else if 0 <= node.indirect < |disk| && k - 5 < WORDS then disk[node.indirect][k - 5]
    else -1
  }

  ghost predicate Holds(disk: Disk, node: Inode, b: int) {
    || (exists k :: 0 <= k < FileBlocks(node.size) && Pointer(disk, node, k) == b)
    || (node.size > DIRECT_BYTES && b == node.indirect)
  }

  predicate Live(disk: Disk, i: nat, j: nat) {
    i < |disk| && j < INODES_PER_BLOCK && InodeAt(disk[i], j).isvalid != 0
  }

  /** Inode `j` of block `i` is valid and its block, its data or its pointers are in block `b`. */
  ghost predicate Refers(disk: Disk, i: nat, j: nat, b: int) {
    Live(disk, i, j) && (b == i || Holds(disk, InodeAt(disk[i], j), b))
  }

  /** Does a valid inode that mounting looks at refer to block `b`? */
  ghost predicate Used(disk: Disk, b: int)
    requires disk != []
  {
    exists i, j :: 1 <= i < NumInodeBlocks(disk) && 0 <= j < INODES_PER_BLOCK && Refers(disk, i, j, b)
  }

  // ---- The same as sets, in the order in which mounting finds them ----

  function PointerMarks(disk: Disk, node: Inode, n: nat): set<int> {
    if n == 0 then {} else PointerMarks(disk, node, n - 1) + {Pointer(disk, node, n - 1)}
  }

  function NodeMarks(disk: Disk, node: Inode): set<int> {
    PointerMarks(disk, node, FileBlocks(node.size)) + if node.size > DIRECT_BYTES then {node.indirect} else {}
  }

  function SlotMarks(disk: Disk, i: nat, j: nat): set<int> {
    if Live(disk, i, j) then {i as int} + NodeMarks(disk, InodeAt(disk[i], j)) else {}
  }

  function BlockMarks(disk: Disk, i: nat, n: nat): set<int> {
    if n == 0 then {} else BlockMarks(disk, i, n - 1) + SlotMarks(disk, i, n - 1)
  }

  /** Blocks referred to from inode blocks `1 .. n`, `n` excluded. */
  function TableMarks(disk: Disk, n: int): set<int>
    decreases n
  {
    if n <= 1 then {} else TableMarks(disk, n - 1) + BlockMarks(disk, n - 1, INODES_PER_BLOCK)
  }

  lemma {:induction false} PointerMarksExactly(disk: Disk, node: Inode, n: nat, b: int)
    ensures b in PointerMarks(disk, node, n) <==> exists k :: 0 <= k < n && Pointer(disk, node, k) == b
  {
    if n > 0 {
      PointerMarksExactly(disk, node, n - 1, b);
      assert Pointer(disk, node, n - 1) == b || Pointer(disk, node, n - 1) != b;
    }
  }

  lemma SlotMarksExactly(disk: Disk, i: nat, j: nat, b: int)
    ensures b in SlotMarks(disk, i, j) <==> Refers(disk, i, j, b)
  {
    if Live(disk, i, j) {
      var node := InodeAt(disk[i], j);
      PointerMarksExactly(disk, node, FileBlocks(node.size), b);
    }
  }

  lemma {:induction false} BlockMarksExactly(disk: Disk, i: nat, n: nat, b: int)
    ensures b in BlockMarks(disk, i, n) <==> exists j :: 0 <= j < n && Refers(disk, i, j, b)
  {
    hide Refers, SlotMarks;
    if n > 0 {
      BlockMarksExactly(disk, i, n - 1, b);
      SlotMarksExactly(disk, i, n - 1, b);
      assert Refers(disk, i, n - 1, b) || !Refers(disk, i, n - 1, b);
    }
  }

  lemma {:induction false} TableMarksExactly(disk: Disk, n: int, b: int)
    ensures b in TableMarks(disk, n)
            <==> exists i, j :: 1 <= i < n && 0 <= j < INODES_PER_BLOCK && Refers(disk, i, j, b)
    decreases n
  {
    hide Refers, BlockMarks;
    if n > 1 {
      var m: nat := n - 1;
      TableMarksExactly(disk, m, b);
      BlockMarksExactly(disk, m, INODES_PER_BLOCK, b);
      if j :| 0 <= j < INODES_PER_BLOCK && Refers(disk, m, j, b) {
        assert 1 <= m < n && Refers(disk, m, j, b);
      }
      if i, j :| 1 <= i < n && 0 <= j < INODES_PER_BLOCK && Refers(disk, i, j, b) {
        assert i < m ==> b in TableMarks(disk, m);
      }
    }
  }

  /** The collected marks are exactly the used blocks. */
  lemma MarksAreUsed(disk: Disk, b: int)
    requires disk != []
    ensures b in TableMarks(disk, NumInodeBlocks(disk)) <==> Used(disk, b)
  {
    TableMarksExactly(disk, NumInodeBlocks(disk), b);
  }

  // ---- Disks that mounting can scan ----

  /** Every block number met while scanning this inode is one of the disk's. */
  predicate NodeSound(disk: Disk, node: Inode)
    requires disk != []
  {
    && (forall k :: 0 <= k < FileBlocks(node.size) ==> 0 <= Pointer(disk, node, k) < NumBlocks(disk))
    && (node.size > DIRECT_BYTES ==> 0 <= node.indirect < NumBlocks(disk) && node.indirect < |disk|)
  }

  predicate Sound(disk: Disk) {
    && disk != []
    && 0 <= NumInodeBlocks(disk) <= |disk| && NumInodeBlocks(disk) <= NumBlocks(disk)
    && forall i, j :: 1 <= i < NumInodeBlocks(disk) && 0 <= j < INODES_PER_BLOCK && Live(disk, i, j)
         ==> NodeSound(disk, InodeAt(disk[i], j))
  }

  /** The indirect block of a sound inode holds all the pointers its size asks for. */
  lemma SoundFits(disk: Disk, node: Inode)
    requires disk != [] && NodeSound(disk, node)
    ensures FileBlocks(node.size) <= 5 + WORDS
    ensures node.size > DIRECT_BYTES <==> FileBlocks(node.size) > 5
  {
    assert Pointer(disk, node, 5 + WORDS) == -1;
  }

  /** `bits` is the free-block map that a mount computes for `disk`. */
  ghost predicate Agrees(bits: seq<int>, disk: Disk)
    requires disk != []
  {
    forall b :: 0 <= b < |bits| ==> bits[b] == if Used(disk, b) then 1 else 0
  }

  // ---- Taking a free block ----

  /** Least free block from `i` on; -1 when there is none. */
  function NextFree(bits: seq<int>, i: nat): (r: int)
    ensures r == -1 || i <= r < |bits|
    ensures r != -1 ==> bits[r] == 0
    ensures forall b :: i <= b < (if r == -1 then |bits| else r) ==> bits[b] != 0
    decreases |bits| - i
  {
    if i >= |bits| then -1 else if bits[i] == 0 then i else NextFree(bits, i + 1)
  }

  /** `b` is the least block past the inode table that no scanned inode refers to. */
  ghost predicate LeastUnused(disk: Disk, b: int)
    requires disk != []
  {
    && NumInodeBlocks(disk) < b < NumBlocks(disk) && !Used(disk, b)
    && forall c :: NumInodeBlocks(disk) < c < b ==> Used(disk, c)
  }

  /** On a freshly mounted disk the block handed out is the least one past the inode table that no
      scanned inode refers to; none is handed out exactly when all of them are referred to. */
  lemma MountedNextFree(bits: seq<int>, disk: Disk, b: int)
    requires Sound(disk) && |bits| == NumBlocks(disk) && Agrees(bits, disk)
    ensures NextFree(bits, NumInodeBlocks(disk) + 1) == b && b != -1 <==> LeastUnused(disk, b)
    ensures NextFree(bits, NumInodeBlocks(disk) + 1) == -1
            <==> forall c :: NumInodeBlocks(disk) < c < NumBlocks(disk) ==> Used(disk, c)
  {
    hide Used, Sound;
    assert Sound(disk);
    SoundTable(disk);
  }

  lemma SoundTable(disk: Disk)
    requires Sound(disk)
    ensures 0 <= NumInodeBlocks(disk) <= |disk| && NumInodeBlocks(disk) <= NumBlocks(disk)
  {
  }

  // ---- The inode block that mounting does not look at ----

  /** Does a valid inode anywhere in the table that the superblock announces refer to `b`? */
  ghost predicate Referred(disk: Disk, b: int)
    requires disk != []
  {
    exists i, j :: 1 <= i <= NumInodeBlocks(disk) && 0 <= j < INODES_PER_BLOCK && Refers(disk, i, j, b)
  }

  /** Does a valid inode of the last inode block refer to `b`? */
  ghost predicate InLast(disk: Disk, b: int)
    requires disk != [] && NumInodeBlocks(disk) >= 0
  {
    exists j :: 0 <= j < INODES_PER_BLOCK && Refers(disk, NumInodeBlocks(disk), j, b)
  }

  lemma ReferredCases(disk: Disk, b: int)
    requires disk != [] && NumInodeBlocks(disk) >= 1
    ensures Referred(disk, b) <==> Used(disk, b) || InLast(disk, b)
  {
    hide Refers;
    var n := NumInodeBlocks(disk);
    if i, j :| 1 <= i <= n && 0 <= j < INODES_PER_BLOCK && Refers(disk, i, j, b) {
      assert i < n ==> Used(disk, b);
    }
    if i, j :| 1 <= i < n && 0 <= j < INODES_PER_BLOCK && Refers(disk, i, j, b) {
      assert Referred(disk, b);
    }
    if j :| 0 <= j < INODES_PER_BLOCK && Refers(disk, n, j, b) {
      assert Referred(disk, b);
    }
  }

  /** Mounting a disk and taking a block hands out one that some valid inode refers to exactly
      when the first block past the table that no scanned inode refers to is one that an inode of
      the last inode block does. */
  lemma HandsOutReferred(bits: seq<int>, disk: Disk)
    requires Sound(disk) && |bits| == NumBlocks(disk) && Agrees(bits, disk) && NumInodeBlocks(disk) >= 1
    ensures var b := NextFree(bits, NumInodeBlocks(disk) + 1);
            b != -1 && Referred(disk, b) <==> exists c :: LeastUnused(disk, c) && InLast(disk, c)
  {
    hide Used, Referred, InLast, Sound;
    SoundTable(disk);
    var b := NextFree(bits, NumInodeBlocks(disk) + 1);
    MountedNextFree(bits, disk, b);
    ReferredCases(disk, b);
    if c :| LeastUnused(disk, c) && InLast(disk, c) {
      MountedNextFree(bits, disk, c);
    }
  }

  /** In particular never, while the last inode block holds no valid inode. */
  lemma EmptyLastBlockIsSafe(bits: seq<int>, disk: Disk)
    requires Sound(disk) && |bits| == NumBlocks(disk) && Agrees(bits, disk) && NumInodeBlocks(disk) >= 1
    requires forall j :: 0 <= j < INODES_PER_BLOCK ==> !Live(disk, NumInodeBlocks(disk), j)
    ensures var b := NextFree(bits, NumInodeBlocks(disk) + 1);
            b != -1 ==> !Referred(disk, b)
  {
    hide Used, Referred, Holds;
    HandsOutReferred(bits, disk);
  }

  /** A disk of 12 blocks whose only file is in the last inode block and holds block 3. */
  function LostFileDisk(): (disk: Disk) {
    var zero: Block := seq(WORDS, _ => 0);
    var super: Block := zero[0 := FS_MAGIC][1 := 12][2 := 2][3 := 256];
    seq(12, i => if i == 0 then super else if i == 2 then PutInode(zero, 1, Inode(1, 1, [3, 0, 0, 0, 0], 0)) else zero)
  }

  /** Mounting it and taking a block hands out block 3, although the file holds it. */
  lemma LostFile(bits: seq<int>)
    requires |bits| == NumBlocks(LostFileDisk()) && Agrees(bits, LostFileDisk())
    ensures Sound(LostFileDisk()) && Referred(LostFileDisk(), 3)
    ensures NextFree(bits, NumInodeBlocks(LostFileDisk()) + 1) == 3
  {
    var disk := LostFileDisk();
    var zero: Block := seq(WORDS, _ => 0);
    var node := Inode(1, 1, [3, 0, 0, 0, 0], 0);
    PutGetInode(zero, 1, node, 1);
    assert InodeAt(disk[2], 1) == node;
    assert Pointer(disk, node, 0) == 3;
    assert Refers(disk, 2, 1, 3);
    forall j | 0 <= j < INODES_PER_BLOCK ensures !Live(disk, 1, j) {
      assert InodeAt(zero, j).isvalid == 0;
    }
    assert !Used(disk, 3);
  }
}
