/** The file system in the words of the disk: which words make a block used, what formatting,
    creating and deleting write, and where the search for an inode ends. */
module FsWords {
  import opened SimpleFs
  import opened FsRuns

  // ---- Inodes ----

  /** Inode `j` is the eight words from `8 * j` on: valid, size, five direct blocks, indirect. */
  lemma InodeWords(b: Block, j: nat)
    requires j < 128
    ensures var node := InodeAt(b, j);
            && node.isvalid == b[8 * j] && node.size == b[8 * j + 1] && node.indirect == b[8 * j + 7]
            && node.direct[0] == b[8 * j + 2] && node.direct[1] == b[8 * j + 3] && node.direct[2] == b[8 * j + 4]
            && node.direct[3] == b[8 * j + 5] && node.direct[4] == b[8 * j + 6]
  {
  }

  lemma PutWords(b: Block, j: nat, node: Inode)
    requires j < 128
    ensures PutInode(b, j, node)
         == b[..8 * j] + [node.isvalid, node.size, node.direct[0], node.direct[1], node.direct[2],
                          node.direct[3], node.direct[4], node.indirect] + b[8 * j + 8..]
  {
    var d := node.direct;
    assert [node.isvalid, node.size] + d + [node.indirect]
        == [node.isvalid, node.size, d[0], d[1], d[2], d[3], d[4], node.indirect];
  }

  lemma DirectWord(b: Block, j: nat, k: nat)
    requires j < 128 && k < 5
    ensures 8 * j + 2 + k < |b| && InodeAt(b, j).direct[k] == b[8 * j + 2 + k]
  {
  }

  /** A file has the least number of blocks of 4096 bytes that hold it. */
  lemma FileBlocksExactly(size: int)
    ensures size <= 0 ==> FileBlocks(size) == 0
    ensures size > 0 ==> (FileBlocks(size) - 1) * 4096 < size <= FileBlocks(size) * 4096
  {
  }

  lemma BlockCounts(size: int, k: nat)
    ensures k < FileBlocks(size) <==> k * 4096 < size
  {
  }

  // ---- Used blocks ----

  /** Direct block `k` of inode `j` of block `i` belongs to its file and is `b`. */
  predicate DirectIs(disk: Disk, i: nat, j: nat, k: nat, b: int)
    requires i < |disk| && j < 128 && k < 5
  {
    k * 4096 < disk[i][8 * j + 1] && disk[i][8 * j + 2 + k] == b
  }

  /** Word `q` of the indirect block of that inode belongs to its file and is `b`. */
  predicate ListedIs(disk: Disk, i: nat, j: nat, q: nat, b: int)
    requires i < |disk| && j < 128
  {
    var indirect := disk[i][8 * j + 7];
    20480 + q * 4096 < disk[i][8 * j + 1] && 0 <= indirect < |disk| && q < 1024 && disk[indirect][q] == b
  }

  /** The words of inode `j` of block `i` refer to block `b`. */
  ghost predicate WordsRefer(disk: Disk, i: nat, j: nat, b: int)
    requires i < |disk| && j < 128
  {
    && disk[i][8 * j] != 0
    && (|| b == i
        || (exists k :: 0 <= k < 5 && DirectIs(disk, i, j, k, b))
        || (disk[i][8 * j + 1] > 20480 && b == disk[i][8 * j + 7])
        || (exists q :: 0 <= q < 1024 && ListedIs(disk, i, j, q, b)))
  }

  lemma PointerWord(disk: Disk, i: nat, j: nat, k: nat, b: int)
    requires i < |disk| && j < 128 && b >= 0
    ensures k < FileBlocks(InodeAt(disk[i], j).size) && Pointer(disk, InodeAt(disk[i], j), k) == b
            <==> if k < 5 then DirectIs(disk, i, j, k, b) else ListedIs(disk, i, j, k - 5, b)
  {
    InodeWords(disk[i], j);
    BlockCounts(InodeAt(disk[i], j).size, k);
    if k < 5 { DirectWord(disk[i], j, k); }
  }

  lemma RefersExactly(disk: Disk, i: nat, j: nat, b: int)
    requires i < |disk| && j < 128 && b >= 0
    ensures Refers(disk, i, j, b) <==> WordsRefer(disk, i, j, b)
  {
    hide DirectIs, ListedIs, Pointer, FileBlocks;
    var node := InodeAt(disk[i], j);
    InodeWords(disk[i], j);
    forall k: nat ensures k < FileBlocks(node.size) && Pointer(disk, node, k) == b
                          <==> if k < 5 then DirectIs(disk, i, j, k, b) else ListedIs(disk, i, j, k - 5, b)
    {
      PointerWord(disk, i, j, k, b);
    }
    if k :| 0 <= k < FileBlocks(node.size) && Pointer(disk, node, k) == b {
      if k >= 5 { ListedBounded(disk, i, j, k - 5, b); }
    }
    if q :| 0 <= q < 1024 && ListedIs(disk, i, j, q, b) {
      assert Pointer(disk, node, 5 + q) == b;
    }
    if k :| 0 <= k < 5 && DirectIs(disk, i, j, k, b) {
      assert Pointer(disk, node, k) == b;
    }
  }

  lemma ListedBounded(disk: Disk, i: nat, j: nat, q: nat, b: int)
    requires i < |disk| && j < 128 && ListedIs(disk, i, j, q, b)
    ensures q < 1024
  {
  }

  /** A block is used exactly when the words of some valid inode in blocks 1 up to, but without,
      the number in word 2 of the superblock refer to it. */
  lemma UsedExactly(disk: Disk, b: int)
    requires disk != [] && b >= 0
    ensures Used(disk, b)
            <==> exists i, j :: 1 <= i < disk[0][2] && 0 <= j < 128 && i < |disk| && WordsRefer(disk, i, j, b)
  {
    hide Refers, WordsRefer;
    if i, j :| 1 <= i < NumInodeBlocks(disk) && 0 <= j < 128 && Refers(disk, i, j, b) {
      RefersBlock(disk, i, j, b);
      RefersExactly(disk, i, j, b);
    }
    if i, j :| 1 <= i < disk[0][2] && 0 <= j < 128 && i < |disk| && WordsRefer(disk, i, j, b) {
      RefersExactly(disk, i, j, b);
    }
  }

  lemma RefersBlock(disk: Disk, i: nat, j: nat, b: int)
    requires Refers(disk, i, j, b)
    ensures i < |disk| && j < 128
  {
  }

  // ---- Format ----

  /** What formatting writes: the magic number, the number of blocks, a tenth of it rounded up, and
      128 inodes for each; then zeros into all inode blocks but the last, and nothing else. */
  lemma FormatExactly(was: Disk, junk: Block, i: nat, k: nat)
    requires was != [] && i < |was| && k < 1024
    ensures var disk := Formatted(was, junk); var n := disk[0][2];
            && |disk| == |was|
            && disk[0][0] == 0xf0f03410 - 0x1_0000_0000 && disk[0][1] == |was|
            && 10 * (n - 1) < |was| <= 10 * n && disk[0][3] == 128 * n
            && (k >= 4 ==> disk[0][k] == junk[k])
            && (i > 0 ==> disk[i][k] == if i < n then 0 else was[i][k])
  {
  }

  // ---- Create ----

  /** Inode numbers start at 1, so the first inode of the first block is not looked at. */
  function FirstLooked(i: nat): nat {
    if i == 1 then 1 else 0
  }

  predicate ValidAt(b: Block, m: int) {
    0 <= m < 128 && b[8 * m] != 0
  }

  predicate Taken(disk: Disk, i: nat)
    requires i < |disk|
  {
    forall m :: FirstLooked(i) <= m < 128 ==> ValidAt(disk[i], m)
  }

  /** The word that bounds the search when it gets to block `i`: word 2 of the block read before. */
  function BoundAt(disk: Disk, i: nat): int
    requires 1 <= i <= |disk|
  {
    disk[i - 1][2]
  }

  /** The search gets to block `i`: the blocks before it are full, and no bound stops it. */
  predicate GetsTo(disk: Disk, i: nat)
    requires 1 <= i <= |disk|
  {
    && (forall b :: 1 <= b < i ==> Taken(disk, b))
    && (forall b :: 1 <= b <= i ==> b <= BoundAt(disk, b))
  }

  predicate LeastInvalid(disk: Disk, i: nat, j: nat)
    requires i < |disk|
  {
    && FirstLooked(i) <= j < 128 && !ValidAt(disk[i], j)
    && forall m :: FirstLooked(i) <= m < j ==> ValidAt(disk[i], m)
  }

  ghost predicate StopsBefore(disk: Disk, i: nat)
    requires 1 <= i <= |disk|
  {
    (forall b :: 1 <= b < i ==> Taken(disk, b) && b <= BoundAt(disk, b)) && BoundAt(disk, i) < i
  }

  lemma FirstInvalidWords(disk: Disk, i: nat)
    requires i < |disk|
    ensures var j := FirstInvalid(disk[i], FirstSlot(i));
            if j < 128 then LeastInvalid(disk, i, j) else Taken(disk, i)
  {
    forall m: nat | m < 128 ensures ValidAt(disk[i], m) <==> InodeAt(disk[i], m).isvalid != 0 { }
  }

  /** Where the search ends: at the least invalid inode of a block it gets to, or before a block
      that the bound excludes, or with a read past the disk. */
  lemma {:induction false} SearchFrom(disk: Disk, i: nat)
    requires 1 <= i <= |disk|
    requires forall b :: 1 <= b < i ==> Taken(disk, b) && b <= BoundAt(disk, b)
    ensures var r := Search(disk, i, BoundAt(disk, i));
            && (r.Slot? ==> r.i < |disk| && GetsTo(disk, r.i) && LeastInvalid(disk, r.i, r.j))
            && (r.NoSlot? ==> exists k :: 1 <= k <= |disk| && StopsBefore(disk, k))
            && (r.BadRead? ==> GetsTo(disk, |disk|))
    decreases |disk| - i
  {
    hide Taken, LeastInvalid, FirstInvalid;
    if BoundAt(disk, i) < i {
      assert StopsBefore(disk, i);
    } else if i < |disk| {
      FirstInvalidWords(disk, i);
      if FirstInvalid(disk[i], FirstSlot(i)) == 128 { SearchFrom(disk, i + 1); }
    }
  }

  lemma SearchExactly(disk: Disk)
    requires disk != []
    ensures var r := Search(disk, 1, disk[0][2]);
            && (r.Slot? ==> 1 <= r.i < |disk| && GetsTo(disk, r.i) && LeastInvalid(disk, r.i, r.j))
            && (r.NoSlot? ==> exists k :: 1 <= k <= |disk| && StopsBefore(disk, k))
            && (r.BadRead? ==> GetsTo(disk, |disk|))
  {
    hide GetsTo, LeastInvalid, StopsBefore;
    SearchFrom(disk, 1);
  }

  /** Creating writes the eight words of the inode found, marks its block, and answers its number;
      when the search finds none it changes nothing and answers 0. */
  lemma CreateExactly(fs: Fs)
    requires CanCreate(fs)
    ensures var r := Search(fs.disk, 1, fs.disk[0][2]); var (t, n) := Create(fs);
            if r.Slot? then
              && n == 128 * (r.i - 1) + r.j
              && t.bits == fs.bits[r.i := 1]
              && t.disk == fs.disk[r.i := t.disk[r.i]]
              && t.disk[r.i] == fs.disk[r.i][..8 * r.j] + [1, 0, 0, 0, 0, 0, 0, 0] + fs.disk[r.i][8 * r.j + 8..]
            else n == 0 && t == fs
  {
    hide Search, PutInode;
    match Search(fs.disk, 1, fs.disk[0][2])
    case Slot(i, j) => PutWords(fs.disk[i], j, FreshInode);
    case NoSlot =>
  }

  // ---- Delete ----

  /** Deleting answers 1 exactly when the number is in bounds and its inode valid; then it clears
      the eight words of the inode, and otherwise it changes nothing and answers 0. */
  lemma DeleteExactly(fs: Fs, n: nat)
    requires CanDelete(fs, n)
    ensures var i, j := (n + 127) / 128, n % 128; var (t, code) := Delete(fs, n);
            && (code == 1 <==> i <= fs.disk[0][2] && i < |fs.disk| && fs.disk[i][8 * j] != 0)
            && (code != 1 ==> code == 0 && t == fs)
            && (code == 1 ==>
                  var b := fs.disk[i];
                  t == fs.(disk := fs.disk[i := b[..8 * j] + [0, 0, 0, 0, 0, 0, 0, 0] + b[8 * j + 8..]]))
  {
    hide PutInode;
    var i, j := (n + 127) / 128, n % 128;
    if Delete(fs, n).1 == 1 { PutWords(fs.disk[i], j, EmptyInode); }
  }

  // ---- Disks that can be mounted ----

  predicate WordsSound(disk: Disk, i: nat, j: nat)
    requires disk != [] && i < |disk| && j < 128
  {
    var size, indirect := disk[i][8 * j + 1], disk[i][8 * j + 7];
    && (forall k :: 0 <= k < 5 && k * 4096 < size ==> 0 <= InodeAt(disk[i], j).direct[k] < disk[0][1])
    && (size > 20480 ==>
          && 0 <= indirect < disk[0][1] && indirect < |disk| && size <= 20480 + 1024 * 4096
          && forall q :: 0 <= q < 1024 && 20480 + q * 4096 < size ==> 0 <= disk[indirect][q] < disk[0][1])
  }

  /** What mounting asks of an inode: that the block numbers it comes across are the disk's. */
  lemma NodeSoundExactly(disk: Disk, i: nat, j: nat)
    requires disk != [] && i < |disk| && j < 128
    ensures NodeSound(disk, InodeAt(disk[i], j)) <==> WordsSound(disk, i, j)
  {
    var node := InodeAt(disk[i], j);
    InodeWords(disk[i], j);
    if NodeSound(disk, node) {
      SoundFits(disk, node);
      forall k | 0 <= k < 5 && k * 4096 < node.size ensures 0 <= node.direct[k] < disk[0][1] {
        assert 0 <= Pointer(disk, node, k) < NumBlocks(disk);
      }
      if node.size > 20480 {
        forall q | 0 <= q < 1024 && 20480 + q * 4096 < node.size ensures 0 <= disk[node.indirect][q] < disk[0][1] {
          assert 0 <= Pointer(disk, node, 5 + q) < NumBlocks(disk);
        }
      }
    }
  }

  /** Which disks mounting can scan: the table is on the disk and in the map, and every scanned
      valid inode is as `WordsSound` says. */
  lemma SoundExactly(disk: Disk)
    ensures Sound(disk)
            <==> && disk != [] && 0 <= disk[0][2] <= |disk| && disk[0][2] <= disk[0][1]
                 && forall i, j :: 1 <= i < disk[0][2] && 0 <= j < 128 && ValidAt(disk[i], j) ==> WordsSound(disk, i, j)
  {
    hide NodeSound, WordsSound;
    if disk != [] && 0 <= disk[0][2] <= |disk| {
      forall i, j | 1 <= i < disk[0][2] && 0 <= j < 128
        ensures Live(disk, i, j) <==> ValidAt(disk[i], j)
        ensures NodeSound(disk, InodeAt(disk[i], j)) <==> WordsSound(disk, i, j)
      {
        NodeSoundExactly(disk, i, j);
      }
    }
  }

  /** The map that mounting computes holds 1 at the used blocks and 0 at the others. */
  lemma MapExactly(bits: seq<int>, disk: Disk, b: nat)
    requires disk != [] && Agrees(bits, disk) && b < |bits|
    ensures bits[b] == 0 || bits[b] == 1
    ensures bits[b] == 1
            <==> exists i, j :: 1 <= i < disk[0][2] && 0 <= j < 128 && i < |disk| && WordsRefer(disk, i, j, b)
  {
    hide Used, WordsRefer;
    UsedExactly(disk, b);
  }

  /** The condition that runs of creations and deletions keep, in words: the table is on the disk,
      inode 0 bounds no further search, no indirect block is in the table, and no used block is
      marked free. */
  lemma SafeExactly(fs: Fs)
    ensures Safe(fs)
            <==> && |fs.disk| >= 2 && 1 <= fs.disk[0][2] < fs.disk[0][1] <= |fs.disk|
                 && |fs.bits| == fs.disk[0][1] && fs.disk[1][2] < 2 && Sound(fs.disk)
                 && (forall i, j :: 1 <= i < fs.disk[0][2] && 0 <= j < 128 && ValidAt(fs.disk[i], j)
                                    ==> IndirectApart(fs.disk, i, j))
                 && forall b :: 0 <= b < |fs.bits| && Used(fs.disk, b) ==> fs.bits[b] != 0
  {
    hide Sound, Used;
    forall i, j | 0 <= i < |fs.disk| && 0 <= j < 128 ensures Live(fs.disk, i, j) <==> ValidAt(fs.disk[i], j) { }
  }

  predicate IndirectApart(disk: Disk, i: nat, j: nat)
    requires disk != [] && i < |disk| && j < 128
  {
    disk[i][8 * j + 1] > 20480 ==> disk[i][8 * j + 7] < 0 || disk[i][8 * j + 7] > disk[0][2]
  }
}
