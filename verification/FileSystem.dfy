/** The SimpleFS operations, with the disk and the free-block map updated in place. */
module FileSystem {
  import opened SimpleFs
  import opened FsRuns

  /** The map has 1 at exactly the blocks of `marks`, and 0 elsewhere. */
  predicate Shows(bits: seq<int>, marks: set<int>) {
    forall b :: 0 <= b < |bits| ==> bits[b] == if b in marks then 1 else 0
  }

  lemma ShowsUsed(bits: seq<int>, disk: Disk)
    requires disk != [] && Shows(bits, TableMarks(disk, NumInodeBlocks(disk)))
    ensures Agrees(bits, disk)
  {
    hide Used;
    forall b | 0 <= b < |bits| ensures bits[b] == if Used(disk, b) then 1 else 0 {
      MarksAreUsed(disk, b);
    }
  }

  lemma SoundSlot(disk: Disk, i: nat, j: nat)
    requires Sound(disk) && 1 <= i < NumInodeBlocks(disk) && Live(disk, i, j)
    ensures NodeSound(disk, InodeAt(disk[i], j)) && i < NumBlocks(disk)
  {
  }

  lemma SoundDisk(disk: Disk)
    requires Sound(disk)
    ensures disk != [] && NumInodeBlocks(disk) <= |disk|
  {
  }

  class FileSystem {
    var disk: Disk
    /** Null until a disk is mounted. */
    var bitmap: array?<int>

    constructor (image: Disk)
      ensures disk == image && bitmap == null
    {
      disk, bitmap := image, null;
    }

    ghost function Mounted(): Fs
      reads this, bitmap
      requires bitmap != null
    {
      Fs(disk, bitmap[..])
    }

    /** Refuses a mounted disk; otherwise lays out an empty file system. */
    method Format(junk: Block) returns (r: int)
      requires disk != []
      modifies this
      ensures bitmap == old(bitmap)
      ensures if bitmap != null then r == 0 && disk == old(disk) else r == 1 && disk == Formatted(old(disk), junk)
    {
      if bitmap != null { return 0; }
      var was, n := disk, TenthUp(|disk|);
      disk := disk[0 := Superblock(junk, |disk|)];
      var i := 1;
      while i < n
        invariant 1 <= i <= n <= |was| && bitmap == old(bitmap)
        invariant |disk| == |was|
        invariant forall b :: 0 <= b < |was| ==>
                    disk[b] == if b == 0 then Superblock(junk, |was|) else if b < i then ZeroBlock() else was[b]
      {
        disk := disk[i := ZeroBlock()];
        i := i + 1;
      }
      assert disk == Formatted(was, junk);
      return 1;
    }

    /** Computes the free-block bits: a block is marked exactly when a scanned inode refers to it. */
    method Mount() returns (r: int)
      requires Sound(disk)
      modifies this
      ensures r == 1 && disk == old(disk)
      ensures bitmap != null && fresh(bitmap) && bitmap.Length == NumBlocks(disk)
      ensures Agrees(bitmap[..], disk)
    {
      hide Sound, BlockMarks, Agrees, Used;
      SoundDisk(disk);
      SoundTable(disk);
      var size := NumBlocks(disk);
      var bits := new int[size](_ => 0);
      bitmap := bits;
      var i := 1;
      assert Shows(bits[..], TableMarks(disk, 1));
      while i < NumInodeBlocks(disk)
        invariant disk == old(disk) && bitmap == bits && fresh(bits) && bits.Length == size
        invariant i == 1 || 1 < i <= NumInodeBlocks(disk)
        invariant Shows(bits[..], TableMarks(disk, i))
      {
        ScanBlock(disk, i, bits, TableMarks(disk, i));
        i := i + 1;
      }
      ShowsUsed(bits[..], disk);
      return 1;
    }

    static method ScanBlock(disk: Disk, i: nat, bits: array<int>, ghost marks: set<int>)
      requires Sound(disk) && bits.Length == NumBlocks(disk) && 1 <= i < NumInodeBlocks(disk)
      requires Shows(bits[..], marks)
      modifies bits
      ensures Shows(bits[..], marks + BlockMarks(disk, i, INODES_PER_BLOCK))
    {
      hide Sound, NodeSound, NodeMarks;
      var j := 0;
      while j < INODES_PER_BLOCK
        invariant 0 <= j <= INODES_PER_BLOCK
        invariant Shows(bits[..], marks + BlockMarks(disk, i, j))
      {
        SoundDisk(disk);
        var node := InodeAt(disk[i], j);
        ghost var now := marks + BlockMarks(disk, i, j);
        if node.isvalid != 0 {
          SoundSlot(disk, i, j);
          ScanInode(disk, i, node, bits, now);
          assert now + ({i as int} + NodeMarks(disk, node)) == marks + BlockMarks(disk, i, j + 1);
        } else {
          assert now == marks + BlockMarks(disk, i, j + 1);
        }
        j := j + 1;
      }
    }

    /** Marks the block of the inode, its direct blocks, its indirect block and the blocks listed
        there. */
    static method ScanInode(disk: Disk, i: nat, node: Inode, bits: array<int>, ghost marks: set<int>)
      requires disk != [] && NodeSound(disk, node) && bits.Length == NumBlocks(disk) && i < NumBlocks(disk)
      requires Shows(bits[..], marks)
      modifies bits
      ensures Shows(bits[..], marks + ({i as int} + NodeMarks(disk, node)))
    {
      SoundFits(disk, node);
      ghost var base := marks + {i as int};
      bits[i] := 1;
      assert Shows(bits[..], base);
      var k := 0;
      while k * BLOCK_SIZE < node.size && k < 5
        invariant 0 <= k <= 5 && k <= FileBlocks(node.size)
        invariant Shows(bits[..], base + PointerMarks(disk, node, k))
      {
        assert 0 <= Pointer(disk, node, k) < NumBlocks(disk);
        bits[node.direct[k]] := 1;
        k := k + 1;
      }
      if node.size > DIRECT_BYTES {
        bits[node.indirect] := 1;
        base := base + {node.indirect};
        var listed := disk[node.indirect];
        var indirectBlocks :=
          if node.size % BLOCK_SIZE == 0 then node.size / BLOCK_SIZE - 5 else node.size / BLOCK_SIZE - 5 + 1;
        var q := 0;
        while q < indirectBlocks
          invariant 0 <= q <= indirectBlocks == FileBlocks(node.size) - 5
          invariant Shows(bits[..], base + PointerMarks(disk, node, 5 + q))
        {
          assert 0 <= Pointer(disk, node, 5 + q) < NumBlocks(disk);
          bits[listed[q]] := 1;
          q := q + 1;
        }
      }
      assert base + PointerMarks(disk, node, FileBlocks(node.size)) == marks + ({i as int} + NodeMarks(disk, node));
    }

    /** The least block past the inode table that the map has free; -1 when there is none. The map
        is not changed, so a second call gives the same block. */
    method GetNextBlock() returns (r: int)
      requires disk != [] && bitmap != null && NumInodeBlocks(disk) >= 0
      ensures r == NextFree(bitmap[..], NumInodeBlocks(disk) + 1)
      ensures r != -1 ==> NumInodeBlocks(disk) < r < bitmap.Length && bitmap[r] == 0
    {
      var i := NumInodeBlocks(disk) + 1;
      while i < bitmap.Length
        invariant NumInodeBlocks(disk) < i
        invariant NextFree(bitmap[..], i) == NextFree(bitmap[..], NumInodeBlocks(disk) + 1)
      {
        if bitmap[i] == 0 { return i; }
        i := i + 1;
      }
      return -1;
    }

    /** Takes the first invalid inode found; 0 when nothing is mounted or the search ends. */
    method Create() returns (r: int)
      requires bitmap != null ==> CanCreate(Mounted())
      modifies this, bitmap
      ensures bitmap == old(bitmap)
      ensures bitmap == null ==> r == 0 && disk == old(disk)
      ensures bitmap != null ==> (Mounted(), r) == FsRuns.Create(old(Mounted()))
    {
      hide FirstInvalid, PutInode, InodeAt;
      if bitmap == null { return 0; }
      ghost var was := Mounted();
      var i, bound := 1, NumInodeBlocks(disk);
      while i < bound + 1
        invariant i >= 1 && bitmap == old(bitmap) && bitmap != null && Mounted() == was && CanCreate(was)
        invariant Search(disk, i, bound) == Search(disk, 1, NumInodeBlocks(disk))
        decreases |disk| - i
      {
        var block := disk[i];
        var j := FindSlot(block, i);
        if j < INODES_PER_BLOCK {
          bitmap[i] := 1;
          disk := disk[i := PutInode(block, j, FreshInode)];
          return Number(i, j);
        }
        bound := block[2];
        i := i + 1;
      }
      return 0;
    }

    static method FindSlot(block: Block, i: nat) returns (j: nat)
      ensures j == FirstInvalid(block, FirstSlot(i))
    {
      j := 0;
      while j < INODES_PER_BLOCK
        invariant 0 <= j <= INODES_PER_BLOCK
        invariant FirstInvalid(block, if j == 0 then FirstSlot(i) else j) == FirstInvalid(block, FirstSlot(i))
      {
        if j == 0 && i == 1 { j := 1; }
        if InodeAt(block, j).isvalid == 0 { return j; }
        j := j + 1;
      }
    }

    /** Invalidates inode `n`; 0 when it is out of bounds or not valid. */
    method Delete(n: nat) returns (r: int)
      requires CanDelete(Fs(disk, []), n)
      modifies this
      ensures bitmap == old(bitmap)
      ensures (Fs(disk, []), r) == FsRuns.Delete(Fs(old(disk), []), n)
    {
      var i := BlockOfNumber(n);
      if i > NumInodeBlocks(disk) { return 0; }
      var block := disk[i];
      if InodeAt(block, n % INODES_PER_BLOCK).isvalid != 0 {
        disk := disk[i := PutInode(block, n % INODES_PER_BLOCK, EmptyInode)];
        return 1;
      }
      return 0;
    }

    /** Size of inode `n`; -1 when it is out of bounds or not valid. */
    method GetSize(n: nat) returns (r: int)
      requires CanDelete(Fs(disk, []), n)
      ensures var i, j := BlockOfNumber(n), n % INODES_PER_BLOCK;
              r == if i <= NumInodeBlocks(disk) && Live(disk, i, j) then InodeAt(disk[i], j).size else -1
    {
      var i := BlockOfNumber(n);
      if i > NumInodeBlocks(disk) { return -1; }
      var node := InodeAt(disk[i], n % INODES_PER_BLOCK);
      return if node.isvalid != 0 then node.size else -1;
    }
  }
}
