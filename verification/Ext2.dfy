/** The mounted ext2 file system (src/kernel/fs/ext2fs.c): the block device, the group descriptors and
    the superblock counter in memory, and what of them has been written back. */
module Ext2 {
  import opened Bytes
  import opened BlockCounts
  import opened BlockTree
  import opened TreeUpdates
  import opened Growth
  import opened Volumes
  import opened Allocation
  import opened Files
  import opened FileGrowth
  import opened FileBytes
  import opened OnDevice
  import opened Ranks
  import opened Shrinking

  const E_SUCCESS := 0
  const E_BADBLOCK := 1
  const E_NOSPACE := 2

  /** The fields of an inode that its blocks depend on, as write_inode stores them. */
  datatype InodeRecord = InodeRecord(block: seq<nat>, blocks: int, size: nat)

  class Inode {
    var block: seq<nat>
    var blocks: int
    var size: nat

    ghost function Record(): InodeRecord
      reads this
    {
      InodeRecord(block, blocks, size)
    }

    constructor (block: seq<nat>, blocks: int, size: nat)
      ensures Record() == InodeRecord(block, blocks, size)
    {
      this.block, this.blocks, this.size := block, blocks, size;
    }
  }

  /** m' and m agree on all entries but that of k. */
  ghost predicate OthersKept<T>(m: map<nat, T>, m': map<nat, T>, k: nat) {
    forall j: nat | j != k :: (j in m' <==> j in m) && (j in m ==> m'[j] == m[j])
  }

  lemma OthersKeptRefl<T>(m: map<nat, T>, k: nat)
    ensures OthersKept(m, m, k)
  {
  }

  lemma OthersKeptTransitive<T>(m: map<nat, T>, m1: map<nat, T>, m2: map<nat, T>, k: nat)
    requires OthersKept(m, m1, k) && OthersKept(m1, m2, k)
    ensures OthersKept(m, m2, k)
  {
  }

  class Ext2Fs {
    /** The device's blocks, and the group descriptors in memory. */
    var vol: Volume
    /** sb->s_free_blocks_count in memory. */
    var freeBlocks: int
    /** The group descriptors and the free count as last written to the device. */
    var savedGroups: seq<Group>
    var savedFreeBlocks: int
    /** The inodes as last written to the device. */
    var inodeTable: map<nat, InodeRecord>

    /** The counts in memory are right, and those on the device agree with them. */
    ghost predicate Valid()
      reads this
    {
      BlocksOk(vol) && Synced()
    }

    ghost predicate Synced()
      reads this
    {
      && PointersPerBlock(vol.p)
      && freeBlocks == SumFree(vol.groups)
      && savedGroups == vol.groups && savedFreeBlocks == freeBlocks
    }

    /** A mounted volume whose counters on the device are right. */
    constructor (vol: Volume, freeBlocks: int)
      requires BlocksOk(vol) && PointersPerBlock(vol.p) && freeBlocks == SumFree(vol.groups)
      ensures Valid()
      ensures this.vol == vol && this.inodeTable == map[]
    {
      this.vol, this.freeBlocks := vol, freeBlocks;
      this.savedGroups, this.savedFreeBlocks := vol.groups, freeBlocks;
      this.inodeTable := map[];
    }

    /** ext2fs.c:77-83: block 0 is not a block; buf then keeps what it had. */
    method ReadBlock(off: nat, buf: Block) returns (r: Block, err: int)
      requires off < |vol.disk|
      ensures err == if off == 0 then E_BADBLOCK else E_SUCCESS
      ensures r == if off == 0 then buf else vol.disk[off]
    {
      if off == 0 {
        return buf, E_BADBLOCK;
      }
      return vol.disk[off], E_SUCCESS;
    }

    /** ext2fs.c:88-94. */
    method WriteBlock(off: nat, buf: Block) returns (err: int)
      requires off < |vol.disk|
      modifies this`vol
      ensures err == if off == 0 then E_BADBLOCK else E_SUCCESS
      ensures vol == if off == 0 then old(vol) else old(vol).(disk := old(vol).disk[off := buf])
    {
      if off == 0 {
        return E_BADBLOCK;
      }
      vol := vol.(disk := vol.disk[off := buf]);
      return E_SUCCESS;
    }

    /** ext2fs.c:364-370: the descriptor table and the superblock go to the device. */
    method WriteCounts()
      modifies this`savedGroups, this`savedFreeBlocks
      ensures savedGroups == vol.groups && savedFreeBlocks == freeBlocks
    {
      savedGroups := vol.groups;
      savedFreeBlocks := freeBlocks;
    }

    /** ext2fs.c:359-375: the bit is set, counted and written back, the block zeroed. */
    method TakeBlock(bg: nat, blocki: nat, off: nat, blockno: nat)
      requires Synced() && Layout(vol)
      requires bg < |vol.groups| && 1 <= off <= 32 && blocki * 32 + (off - 1) < vol.n
      requires bg == GroupOf(vol.n, blockno)
      requires blocki * 32 + (off - 1) == BitOf(vol.n, blockno)
      requires 0 < blockno < |vol.disk|
      modifies this`vol, this`freeBlocks, this`savedGroups, this`savedFreeBlocks
      ensures vol == Allocated(old(vol), blockno)
      ensures Synced()
    {
      ghost var v := vol;
      AllocatedParts(v, blockno, blocki, off);
      SumFreeUpdate(vol.groups, bg, vol.groups[bg].(free := vol.groups[bg].free - 1));
      var bitmap := vol.groups[bg].bitmap;
      var buf := vol.disk[bitmap];
      buf := PutWordAt(buf, blocki * 4, WithBit(WordAt(buf, blocki * 4), off - 1));
      var err := WriteBlock(bitmap, buf);
      vol := vol.(groups := vol.groups[bg := vol.groups[bg].(free := vol.groups[bg].free - 1)]);
      freeBlocks := freeBlocks - 1;
      WriteCounts();
      err := WriteBlock(blockno, Zeros(4 * vol.p));
      assert vol == Allocated(v, blockno);
    }

    /** ext2fs.c:336-378: takes the lowest free block and zeroes it; 0 when every block is in use. */
    method AllocBlock() returns (blockno: nat)
      requires Valid()
      modifies this`vol, this`freeBlocks, this`savedGroups, this`savedFreeBlocks
      ensures Valid()
      ensures blockno == FirstFree(old(vol))
      ensures blockno == 0 ==> vol == old(vol)
      ensures blockno != 0 ==> LowestFree(old(vol), blockno) && blockno < |old(vol).disk|
      ensures blockno != 0 ==> GroupOf(old(vol).n, blockno) < |old(vol).groups|
      ensures blockno != 0 ==> vol == Allocated(old(vol), blockno)
    {
      ghost var v := vol;
      var found, bg, blocki, off := FindFree(vol);
      if !found {
        NothingClear(v);
        NoFirstFree(v, 0);
        return 0;
      }
      NumberSplits(vol.n, bg, blocki * 32 + (off - 1));
      blockno := off - 1 + 32 * blocki + bg * vol.n;
      FirstClearIsLowest(v, blockno);
      AllocatedOk(v, blockno);
      FirstFreeIs(v, blockno, 0);
      TakeBlock(bg, blocki, off, blockno);
    }

    /** ext2fs.c:303-329; inode 0 does not exist. */
    method WriteInode(ino: Inode, inoNo: nat) returns (err: int)
      modifies this`inodeTable
      ensures err == if inoNo == 0 then E_BADBLOCK else E_SUCCESS
      ensures inodeTable == if inoNo == 0 then old(inodeTable) else old(inodeTable)[inoNo := ino.Record()]
      ensures OthersKept(old(inodeTable), inodeTable, inoNo)
    {
      if inoNo == 0 {
        return E_BADBLOCK;
      }
      inodeTable := inodeTable[inoNo := InodeRecord(ino.block, ino.blocks, ino.size)];
      return E_SUCCESS;
    }

    /** ext2fs.c:903-908, 920-925 and 955-960: the index block in a slot of i_block. */
    method EnsureRoot(ino: Inode, inoNo: nat, slot: nat) returns (err: int)
      requires Valid() && Mapped(vol, ino.block) && SIND <= slot < NSLOTS && IsPosition(vol.p, [slot])
      modifies this, ino`block
      ensures Synced()
      ensures IndexSpec(old(vol), old(ino.block), [slot]) == Made(vol, ino.block, err == E_SUCCESS)
      ensures err == E_SUCCESS || err == E_NOSPACE
      ensures OthersKept(old(inodeTable), inodeTable, inoNo)
    {
      FirstFreeWorks(vol);
      if ino.block[slot] == 0 {
        var newBlock := AllocBlock();
        if newBlock == 0 {
          return E_NOSPACE;
        }
        ino.block := ino.block[slot := newBlock];
        var e := WriteInode(ino, inoNo);
      }
      return E_SUCCESS;
    }

    /** ext2fs.c:931-945, 968-982 and 983-996: the index block in a slot of index block blk. */
    method EnsureChild(blk: nat, idx: nat, ghost root: seq<nat>, ghost pos: Position) returns (err: int, child: nat)
      requires Valid() && Mapped(vol, root)
      requires IsPosition(vol.p, pos) && !IsLeaf(vol.p, pos) && 1 < |pos| && idx == Last(pos)
      requires 0 < blk < |vol.disk| && IsPosition(vol.p, Parent(pos)) && blk == Node(vol, root, Parent(pos))
      modifies this`vol, this`freeBlocks, this`savedGroups, this`savedFreeBlocks
      ensures Synced()
      ensures IndexSpec(old(vol), root, pos) == Made(vol, root, err == E_SUCCESS)
      ensures err == E_SUCCESS || err == E_NOSPACE
      ensures err == E_SUCCESS ==> vol.p == old(vol).p && Mapped(vol, root) && child == Node(vol, root, pos)
    {
      hide BlocksOk, NodeAt, WithIndex, Allocated, FirstFree;
      ghost var v := vol;
      IndexSpecNode(v, root, pos);
      MappedShape(v, root);
      NodeOfChild(v, root, pos, Parent(pos));
      var tmp, e := ReadBlock(blk, Zeros(4 * vol.p));
      if Pointer(vol.p, tmp, idx) == 0 {
        var newBlock := AllocBlock();
        if newBlock == 0 {
          return E_NOSPACE, 0;
        }
        IndexWritten(v, root, pos, blk, newBlock);
        PutGetPointer(vol.p, tmp, idx, newBlock, idx);
        tmp := PutPointer(vol.p, tmp, idx, newBlock);
        e := WriteBlock(blk, tmp);
      }
      child := Pointer(vol.p, tmp, idx);
      err := E_SUCCESS;
    }

    /** tmp[idx] = real_block in index block blk. */
    method PutLeaf(blk: nat, idx: nat, realBlock: nat) returns (err: int)
      requires Formatted(vol.p, vol.disk) && 0 < blk < |vol.disk| && idx < vol.p
      modifies this`vol
      ensures err == E_SUCCESS
      ensures vol == Pointed(old(vol), blk, idx, realBlock)
    {
      var tmp, e := ReadBlock(blk, Zeros(4 * vol.p));
      tmp := PutPointer(vol.p, tmp, idx, realBlock);
      err := WriteBlock(blk, tmp);
    }

    /** ext2fs.c:901-917. */
    method SetSingle(ino: Inode, inoNo: nat, inoBlock: nat, realBlock: nat) returns (err: int)
      requires Valid() && Mapped(vol, ino.block) && NDIR <= inoBlock < NDIR + vol.p && inoBlock < MaxBlocks(vol.p)
      modifies this, ino`block
      ensures Synced()
      ensures err == E_SUCCESS || err == E_NOSPACE
      ensures SetSpec(old(vol), old(ino.block), inoBlock, realBlock) == Made(vol, ino.block, err == E_SUCCESS)
      ensures OthersKept(old(inodeTable), inodeTable, inoNo)
    {
      hide Path, MaxBlocks, PathSpec, IndexSpec, SetSpec, NodeAt, Mapped, BlocksOk;
      ghost var v, root := vol, ino.block;
      ghost var path := Path(v.p, inoBlock);
      SinglePath(v.p, inoBlock);
      PathSpecZero(v, root, path);
      PathSpecNext(v, root, path, 1);
      err := EnsureRoot(ino, inoNo, SIND);
      if err != E_SUCCESS {
        SetSpecStops(v, root, inoBlock, realBlock, path, 1);
        return;
      }
      SetSpecLast(v, root, inoBlock, realBlock, path, 1, [SIND]);
      MappedShape(vol, ino.block);
      NodeOfSlot(vol, ino.block, SIND);
      err := PutLeaf(ino.block[SIND], inoBlock - NDIR, realBlock);
    }

    /** ext2fs.c:918-950. */
    method SetDouble(ino: Inode, inoNo: nat, inoBlock: nat, realBlock: nat) returns (err: int)
      requires Valid() && Mapped(vol, ino.block)
      requires NDIR + vol.p <= inoBlock < NDIR + vol.p + vol.p * vol.p && inoBlock < MaxBlocks(vol.p)
      modifies this, ino`block
      ensures Synced()
      ensures err == E_SUCCESS || err == E_NOSPACE
      ensures SetSpec(old(vol), old(ino.block), inoBlock, realBlock) == Made(vol, ino.block, err == E_SUCCESS)
      ensures OthersKept(old(inodeTable), inodeTable, inoNo)
    {
      hide Path, MaxBlocks, PathSpec, IndexSpec, SetSpec, NodeAt, Mapped, BlocksOk;
      ghost var v, root := vol, ino.block;
      ghost var path := Path(v.p, inoBlock);
      DoublePath(v.p, inoBlock);
      var a := inoBlock - NDIR - vol.p;
      var idx1, idx2 := a / vol.p, a % vol.p;
      PathSpecZero(v, root, path);
      PathSpecNext(v, root, path, 1);
      err := EnsureRoot(ino, inoNo, DIND);
      if err != E_SUCCESS {
        SetSpecStops(v, root, inoBlock, realBlock, path, 1);
        return;
      }
      PathSpecNext(v, root, path, 2);
      PathSpecParent(v, root, path, 2);
      MappedShape(vol, ino.block);
      NodeOfSlot(vol, ino.block, DIND);
      var intermediate;
      err, intermediate := EnsureChild(ino.block[DIND], idx1, ino.block, path[..2]);
      if err != E_SUCCESS {
        SetSpecStops(v, root, inoBlock, realBlock, path, 2);
        return;
      }
      SetSpecLast(v, root, inoBlock, realBlock, path, 2, path[..2]);
      MappedShape(vol, ino.block);
      err := PutLeaf(intermediate, idx2, realBlock);
    }

    /** ext2fs.c:951-1002. */
    method SetTriple(ino: Inode, inoNo: nat, inoBlock: nat, realBlock: nat) returns (err: int)
      requires Valid() && Mapped(vol, ino.block)
      requires NDIR + vol.p + vol.p * vol.p <= inoBlock < MaxBlocks(vol.p)
      modifies this, ino`block
      ensures Synced()
      ensures err == E_SUCCESS || err == E_NOSPACE
      ensures SetSpec(old(vol), old(ino.block), inoBlock, realBlock) == Made(vol, ino.block, err == E_SUCCESS)
      ensures OthersKept(old(inodeTable), inodeTable, inoNo)
    {
      hide Path, MaxBlocks, PathSpec, IndexSpec, SetSpec, NodeAt, Mapped, BlocksOk;
      ghost var v, root := vol, ino.block;
      ghost var path := Path(v.p, inoBlock);
      TriplePath(v.p, inoBlock);
      var a := inoBlock - NDIR - vol.p - vol.p * vol.p;
      var idx1 := a / (vol.p * vol.p);
      a := a % (vol.p * vol.p);
      var idx2, idx3 := a / vol.p, a % vol.p;
      PathSpecZero(v, root, path);
      PathSpecNext(v, root, path, 1);
      err := EnsureRoot(ino, inoNo, TIND);
      if err != E_SUCCESS {
        SetSpecStops(v, root, inoBlock, realBlock, path, 1);
        return;
      }
      PathSpecNext(v, root, path, 2);
      PathSpecParent(v, root, path, 2);
      MappedShape(vol, ino.block);
      NodeOfSlot(vol, ino.block, TIND);
      var intermediate;
      err, intermediate := EnsureChild(ino.block[TIND], idx1, ino.block, path[..2]);
      if err != E_SUCCESS {
        SetSpecStops(v, root, inoBlock, realBlock, path, 2);
        return;
      }
      PathSpecNext(v, root, path, 3);
      PathSpecParent(v, root, path, 3);
      err, intermediate := EnsureChild(intermediate, idx2, ino.block, path[..3]);
      if err != E_SUCCESS {
        SetSpecStops(v, root, inoBlock, realBlock, path, 3);
        return;
      }
      SetSpecLast(v, root, inoBlock, realBlock, path, 3, path[..3]);
      MappedShape(vol, ino.block);
      err := PutLeaf(intermediate, idx3, realBlock);
    }

    /** ext2fs.c:885-1010. */
    method SetRealBlock(ino: Inode, inoNo: nat, inoBlock: nat, realBlock: nat) returns (err: int)
      requires Valid() && Mapped(vol, ino.block) && inoBlock < MaxBlocks(vol.p)
      modifies this, ino`block
      ensures Synced()
      ensures err == E_SUCCESS || (err == E_NOSPACE || err == E_BADBLOCK)
      ensures SetSpec(old(vol), old(ino.block), inoBlock, realBlock) == Made(vol, ino.block, err != E_NOSPACE)
      ensures inoNo != 0 ==> err != E_BADBLOCK
      ensures err != E_NOSPACE && old(Attachable(vol, ino.block, realBlock)) ==>
                && old(|ino.block|) == |ino.block| == 15 && vol.p == old(vol).p
                && forall o: nat | o < MaxBlocks(vol.p) ::
                     RealBlock(vol.p, vol.disk, ino.block, o)
                     == if o == inoBlock then realBlock else old(RealBlock(vol.p, vol.disk, ino.block, o))
      ensures OthersKept(old(inodeTable), inodeTable, inoNo)
    {
      SetReal(vol, ino.block, inoBlock, realBlock);
      hide RealBlock, Attachable, SetSpec, BlocksOk, Mapped, MaxBlocks;
      if inoBlock < NDIR {
        DirectSpec(vol, ino.block, inoBlock, realBlock);
        ino.block := ino.block[inoBlock := realBlock];
        err := WriteInode(ino, inoNo);
      } else if inoBlock < NDIR + vol.p {
        err := SetSingle(ino, inoNo, inoBlock, realBlock);
      } else if inoBlock < NDIR + vol.p + vol.p * vol.p {
        err := SetDouble(ino, inoNo, inoBlock, realBlock);
      } else {
        err := SetTriple(ino, inoNo, inoBlock, realBlock);
      }
    }

    /** tmp[idx] of index block blk, which must be there. */
    method ReadPointer(blk: nat, idx: nat, ghost root: seq<nat>, ghost pos: Position) returns (r: nat)
      requires Mapped(vol, root)
      requires IsPosition(vol.p, pos) && 1 < |pos| && idx == Last(pos)
      requires blk != 0 && IsPosition(vol.p, Parent(pos)) && blk == Node(vol, root, Parent(pos))
      ensures r == Node(vol, root, pos)
    {
      MappedShape(vol, root);
      NodeInRange(vol, root, Parent(pos));
      NodeOfChild(vol, root, pos, Parent(pos));
      var tmp, e := ReadBlock(blk, Zeros(4 * vol.p));
      r := Pointer(vol.p, tmp, idx);
    }

    method GetDouble(ino: Inode, off: nat) returns (r: nat)
      requires PointersPerBlock(vol.p) && Mapped(vol, ino.block)
      requires NDIR + vol.p <= off < NDIR + vol.p + vol.p * vol.p
      ensures IsPosition(vol.p, Path(vol.p, off))
      ensures r == Node(vol, ino.block, Path(vol.p, off))
    {
      hide Mapped, NodeAt, MaxBlocks, Path;
      ghost var path, root := Path(vol.p, off), ino.block;
      MappedShape(vol, ino.block);
      DoublePath(vol.p, off);
      NodeOfSlot(vol, root, DIND);
      ParentPosition(vol.p, path);
      if ino.block[DIND] == 0 {
        NodeBelowNothing(vol, root, path[..2], [DIND]);
        NodeBelowNothing(vol, root, path, path[..2]);
        return 0;
      }
      var a := off - NDIR - vol.p;
      var idx1, idx2 := a / vol.p, a % vol.p;
      var intermediate := ReadPointer(ino.block[DIND], idx1, root, path[..2]);
      if intermediate == 0 {
        NodeBelowNothing(vol, root, path, path[..2]);
        return 0;
      }
      r := ReadPointer(intermediate, idx2, root, path);
    }

    method GetTriple(ino: Inode, off: nat) returns (r: nat)
      requires PointersPerBlock(vol.p) && Mapped(vol, ino.block)
      requires NDIR + vol.p + vol.p * vol.p <= off < MaxBlocks(vol.p)
      ensures IsPosition(vol.p, Path(vol.p, off))
      ensures r == Node(vol, ino.block, Path(vol.p, off))
    {
      hide Mapped, NodeAt, MaxBlocks, Path;
      ghost var path, root := Path(vol.p, off), ino.block;
      MappedShape(vol, ino.block);
      TriplePath(vol.p, off);
      NodeOfSlot(vol, root, TIND);
      ParentPosition(vol.p, path);
      ParentPosition(vol.p, path[..3]);
      if ino.block[TIND] == 0 {
        NodeBelowNothing(vol, root, path[..2], [TIND]);
        NodeBelowNothing(vol, root, path[..3], path[..2]);
        NodeBelowNothing(vol, root, path, path[..3]);
        return 0;
      }
      var a := off - NDIR - vol.p - vol.p * vol.p;
      var idx1 := a / (vol.p * vol.p);
      a := a % (vol.p * vol.p);
      var idx2, idx3 := a / vol.p, a % vol.p;
      var intermediate := ReadPointer(ino.block[TIND], idx1, root, path[..2]);
      if intermediate == 0 {
        NodeBelowNothing(vol, root, path[..3], path[..2]);
        NodeBelowNothing(vol, root, path, path[..3]);
        return 0;
      }
      intermediate := ReadPointer(intermediate, idx2, root, path[..3]);
      if intermediate == 0 {
        NodeBelowNothing(vol, root, path, path[..3]);
        return 0;
      }
      r := ReadPointer(intermediate, idx3, root, path);
    }

    /** The four ranges of an offset. */
    method Lookup(ino: Inode, off: nat) returns (r: nat)
      requires PointersPerBlock(vol.p) && Mapped(vol, ino.block) && off < MaxBlocks(vol.p)
      ensures IsPosition(vol.p, Path(vol.p, off))
      ensures r == Node(vol, ino.block, Path(vol.p, off))
    {
      hide Mapped, NodeAt, MaxBlocks;
      ghost var path, root := Path(vol.p, off), ino.block;
      MappedShape(vol, ino.block);
      if off < NDIR {
        PathIsLeaf(vol.p, off);
        NodeOfSlot(vol, root, off);
        return ino.block[off];
      } else if off < NDIR + vol.p {
        SinglePath(vol.p, off);
        NodeOfSlot(vol, root, SIND);
        if ino.block[SIND] == 0 {
          NodeBelowNothing(vol, root, path, [SIND]);
          return 0;
        }
        r := ReadPointer(ino.block[SIND], off - NDIR, root, path);
      } else if off < NDIR + vol.p + vol.p * vol.p {
        r := GetDouble(ino, off);
      } else {
        r := GetTriple(ino, off);
      }
    }

    /** ext2fs.c:785-880: the block of content offset off, 0 when it or an index block above it is missing. */
    method GetRealBlock(ino: Inode, off: nat) returns (r: nat)
      requires PointersPerBlock(vol.p) && Mapped(vol, ino.block) && off < MaxBlocks(vol.p)
      ensures IsPosition(vol.p, Path(vol.p, off))
      ensures r == Node(vol, ino.block, Path(vol.p, off))
      ensures |ino.block| == 15 && Formatted(vol.p, vol.disk)
      ensures off < 12 ==> r == ino.block[off]
      ensures 12 <= off < 12 + vol.p ==>
                ino.block[12] < |vol.disk|
                && if ino.block[12] == 0 then r == 0
                   else r == LittleEndian(vol.disk[ino.block[12]][4 * (off - 12)..4 * (off - 12) + 4])
      ensures 12 + vol.p <= off < 12 + vol.p + vol.p * vol.p ==>
                var a := off - 12 - vol.p;
                r == EntryOf(vol.disk, EntryOf(vol.disk, ino.block[13], a / vol.p), a % vol.p)
      ensures 12 + vol.p + vol.p * vol.p <= off ==>
                var pp, a := vol.p * vol.p, off - 12 - vol.p - vol.p * vol.p;
                && 0 < pp
                && r == EntryOf(vol.disk, EntryOf(vol.disk, EntryOf(vol.disk, ino.block[14], a / pp), a % pp / vol.p),
                                a % pp % vol.p)
    {
      hide Mapped, NodeAt, MaxBlocks, EntryOf, LittleEndian, RealBlock, Path;
      r := Lookup(ino, off);
      RealRanges(vol, ino.block, off);
      FartherIsReal(vol.p, vol.disk, ino.block, off);
    }

    /** The content blocks that i_blocks tells of. */
    ghost function Length(ino: Inode): int
      requires PointersPerBlock(vol.p)
      reads this`vol, ino`blocks
    {
      GetContentBlocks(vol.p, ino.blocks)
    }

    /** ino is a file of n content blocks, and i_blocks says so. */
    ghost predicate HasFile(ino: Inode, n: nat)
      reads this, ino
    {
      && Valid()
      && Fits(vol.p, n) && ino.blocks == GetBlockCount(vol.p, n)
      && FileOk(vol, ino.block, n)
    }

    /** The inode on the device is the one in memory. */
    ghost predicate Saved(ino: Inode, inoNo: nat)
      reads this`inodeTable, ino
    {
      inoNo in inodeTable && inodeTable[inoNo] == ino.Record()
    }

    /** ext2fs.c:499-510: succeeds exactly when the block and the index blocks it needs are free. */
    method AllocInodeBlock(ino: Inode, inoNo: nat, block: nat) returns (err: int)
      requires HasFile(ino, block) && block < MaxBlocks(vol.p) && Fits(vol.p, block + 1) && inoNo != 0
      modifies this, ino`block, ino`blocks
      ensures err == E_SUCCESS || err == E_NOSPACE
      ensures err == E_SUCCESS <==> 1 + NewIndexBlocks(old(vol).p, block) <= old(freeBlocks)
      ensures err == E_SUCCESS ==> HasFile(ino, block + 1) && Saved(ino, inoNo)
      ensures err == E_SUCCESS ==> Grew(old(vol), old(ino.block), block, vol, ino.block, block + 1)
      ensures Valid() && Mapped(vol, ino.block)
      ensures OthersKept(old(inodeTable), inodeTable, inoNo)
    {
      hide BlocksOk, FileOk, Grew, Mapped, SetSpec, MaxBlocks, Allocated, FirstFree, GetBlockCount, Fits;
      ghost var v, root := vol, ino.block;
      AllocInodeWorks(v, root, block);
      var realBlock := AllocBlock();
      if realBlock == 0 {
        return E_NOSPACE;
      }
      AllocatedMapped(v, root, realBlock);
      err := SetRealBlock(ino, inoNo, block, realBlock);
      if err != E_SUCCESS {
        return;
      }
      CountGrows(vol.p, block);
      var sectors := GetBlockCount(vol.p, block + 1);
      if ino.blocks < sectors {
        ino.blocks := sectors;
      }
      err := WriteInode(ino, inoNo);
    }

    /** ext2fs.c:110-123: what is not allocated reads as zeros, with an error. */
    method ReadBlockInode(ino: Inode, off: nat, ghost n: nat) returns (buf: Block, err: int)
      requires HasFile(ino, n)
      ensures Mapped(vol, ino.block) && buf == Content(vol, ino.block, off)
      ensures err == if off < n then E_SUCCESS else E_BADBLOCK
    {
      hide BlocksOk, NodeAt;
      CountsInvert(vol.p, n);
      MappedOf(vol, ino.block, n);
      buf := Zeros(4 * vol.p);
      if off >= GetContentBlocks(vol.p, ino.blocks) {
        BlankBehindEnd(vol, ino.block, n, off);
        return buf, E_BADBLOCK;
      }
      MappedBelow(vol, ino.block, n, off);
      NodeInRange(vol, ino.block, Path(vol.p, off));
      var b := GetRealBlock(ino, off);
      buf, err := ReadBlock(b, buf);
    }

    /** ext2fs.c:129-138: the file grows until the offset is allocated, which succeeds exactly when all
        the blocks that takes are free; then the block is written. */
    method WriteBlockInode(ino: Inode, inoNo: nat, off: nat, buf: Block, ghost n: nat) returns (err: int)
      requires HasFile(ino, n) && inoNo != 0
      requires FirstByte(4 * vol.p, off) < WORD && |buf| == 4 * vol.p
      modifies this, ino`block, ino`blocks
      ensures err == E_SUCCESS || err == E_NOSPACE
      ensures err == E_SUCCESS
              <==> off < n || TotalBlocks(old(vol).p, off + 1) - TotalBlocks(old(vol).p, n) <= old(freeBlocks)
      ensures err == E_SUCCESS ==> BlockWritten(old(vol), old(ino.block), n, vol, ino.block, off, buf)
      ensures err == E_SUCCESS ==> HasFile(ino, Max(n, off + 1))
      ensures err == E_SUCCESS && (n <= off || old(Saved(ino, inoNo))) ==> Saved(ino, inoNo)
      ensures Valid() && Mapped(vol, ino.block)
      ensures OthersKept(old(inodeTable), inodeTable, inoNo)
    {
      hide BlocksOk, NodeAt, Grew, FileOk, Mapped, GetBlockCount, Fits, MaxBlocks, OthersKept, Saved, BlockWritten,
           TotalBlocks;
      ghost var v, root := vol, ino.block;
      SmallFits(vol.p, off);
      err := GrowTo(ino, inoNo, off, n);
      if err != E_SUCCESS {
        return;
      }
      GrewFacts(v, root, n, vol, ino.block, Max(n, off + 1));
      WrittenAfterGrowth(v, root, n, vol, ino.block, Max(n, off + 1), off, buf);
      err := PutContent(ino, off, buf, Max(n, off + 1));
      MappedOf(vol, ino.block, Max(n, off + 1));
    }

    /** write_block(fs, get_real_block(fs, ino, off), buf) for an allocated offset. */
    method PutContent(ino: Inode, off: nat, buf: Block, ghost n: nat) returns (err: int)
      requires HasFile(ino, n) && off < n && off < MaxBlocks(vol.p) && |buf| == 4 * vol.p
      modifies this`vol
      ensures err == E_SUCCESS
      ensures vol == Rewritten(old(vol), ino.block, off, buf)
      ensures HasFile(ino, n)
    {
      hide BlocksOk, NodeAt, GetBlockCount, Fits, MaxBlocks;
      MappedBelow(vol, ino.block, n, off);
      NodeInRange(vol, ino.block, Path(vol.p, off));
      RewriteKeepsTree(vol, ino.block, n, off, buf);
      var b := GetRealBlock(ino, off);
      err := WriteBlock(b, buf);
    }

    /** ext2fs.c:131-135: while(off >= get_content_blocks(i_blocks)) alloc_inode_block(...). */
    method GrowTo(ino: Inode, inoNo: nat, off: nat, ghost n: nat) returns (err: int)
      requires HasFile(ino, n) && inoNo != 0 && off < MaxBlocks(vol.p) && Fits(vol.p, off + 1)
      modifies this, ino`block, ino`blocks
      ensures err == E_SUCCESS || err == E_NOSPACE
      ensures err == E_SUCCESS
              <==> off < n || TotalBlocks(old(vol).p, off + 1) - TotalBlocks(old(vol).p, n) <= old(freeBlocks)
      ensures err == E_SUCCESS ==> Grew(old(vol), old(ino.block), n, vol, ino.block, Max(n, off + 1))
      ensures err == E_SUCCESS ==> HasFile(ino, Max(n, off + 1))
      ensures err == E_SUCCESS && (n <= off || old(Saved(ino, inoNo))) ==> Saved(ino, inoNo)
      ensures Valid() && Mapped(vol, ino.block)
      ensures OthersKept(old(inodeTable), inodeTable, inoNo)
    {
      hide BlocksOk, NodeAt, Grew, FileOk, Mapped, GetBlockCount, GetContentBlocks, Fits, MaxBlocks, OthersKept,
           Saved;
      ghost var v, root, table := vol, ino.block, inodeTable;
      OthersKeptRefl(table, inoNo);
      var p := vol.p;
      ghost var m := n;
      GrewRefl(v, root, n);
      GrewFacts(v, root, n, v, root, n);
      CountsInvert(p, n);
      while off >= GetContentBlocks(p, ino.blocks)
        invariant vol.p == p && n <= m <= Max(n, off + 1)
        invariant HasFile(ino, m) && GetContentBlocks(p, ino.blocks) == m
        invariant Grew(v, root, n, vol, ino.block, m)
        invariant Mapped(vol, ino.block)
        invariant freeBlocks == old(freeBlocks) - (TotalBlocks(p, m) - TotalBlocks(p, n))
        invariant old(Saved(ino, inoNo)) || n < m ==> Saved(ino, inoNo)
        invariant OthersKept(old(inodeTable), inodeTable, inoNo)
        decreases off + 1 - m
      {
        FitsBelow(p, m + 1, off + 1);
        TotalMonotone(p, m + 1, off + 1);
        ghost var v1, root1, table1 := vol, ino.block, inodeTable;
        err := AllocInodeBlock(ino, inoNo, GetContentBlocks(p, ino.blocks));
        OthersKeptTransitive(table, table1, inodeTable, inoNo);
        if err != E_SUCCESS {
          return;
        }
        GrewTransitive(v, root, n, v1, root1, m, vol, ino.block, m + 1);
        m := m + 1;
        GrewFacts(v, root, n, vol, ino.block, m);
        CountsInvert(p, m);
      }
      err := E_SUCCESS;
      GrewCost(v, root, n, vol, ino.block, m);
    }

    /** One block of write j: it is the first or the last one still open, and blk is what it is to hold. */
    method WritePart(ino: Inode, inoNo: nat, o: nat, blk: Block, ghost j: Job, ghost m: nat,
                     ghost start: nat, ghost end: int, ghost start': nat, ghost end': int)
      requires HasFile(ino, m) && inoNo != 0
      requires JobOk(j) && j.v.p == vol.p && Writing(j, vol, ino.block, m, start, end)
      requires o <= LastBlock(j.v.p, j.off, |j.buf|)
      requires Mapped(j.v, j.root) && blk == Target(j, o)
      requires (o == start && start' == start + 1 && end' == end) || (o == end && start' == start && end' == end - 1)
      modifies this, ino`block, ino`blocks
      ensures HasFile(ino, Max(m, o + 1)) && vol.p == j.v.p
      ensures Writing(j, vol, ino.block, Max(m, o + 1), start', end')
      ensures m <= o || old(Saved(ino, inoNo)) ==> Saved(ino, inoNo)
      ensures OthersKept(old(inodeTable), inodeTable, inoNo)
    {
      hide BlocksOk, Mapped, FileOk, Writing, LastBlock, FirstByte, GetBlockCount, Fits, TotalBlocks, Target,
           OthersKept, BlockWritten, Saved;
      TouchedInRange(vol.p, j.off, |j.buf|, o);
      WritingHasSpace(j, vol, ino.block, m, start, end, o);
      ghost var v, root := vol, ino.block;
      var err := WriteBlockInode(ino, inoNo, o, blk, m);
      WritingGoesOn(j, v, root, m, start, end, o, vol, ino.block, start', end');
      WritingFacts(j, vol, ino.block, Max(m, o + 1), start', end');
    }

    /** ext2fs.c:216-230: the part of the buffer that falls into the first block. */
    method WriteHead(ino: Inode, inoNo: nat, off: nat, buf: seq<Byte>, start: nat, ghost j: Job, ghost m: nat,
                     ghost end: nat)
      returns (prefix: nat)
      requires HasFile(ino, m) && inoNo != 0
      requires JobOk(j) && j.v.p == vol.p && off == j.off && buf == j.buf && Writing(j, vol, ino.block, m, start, end)
      requires Mapped(j.v, j.root)
      requires start == BlockOf(4 * vol.p, off) && end == BlockOf(4 * vol.p, off + |buf| - 1)
      requires start <= LastBlock(vol.p, off, |buf|)
      modifies this, ino`block, ino`blocks
      ensures HasFile(ino, Max(m, start + 1)) && vol.p == j.v.p
      ensures Writing(j, vol, ino.block, Max(m, start + 1), start + 1, end)
      ensures prefix <= |buf| && off + prefix <= FirstByte(4 * vol.p, start + 1)
      ensures prefix == |buf| || off + prefix == FirstByte(4 * vol.p, start + 1)
      ensures m <= start || old(Saved(ino, inoNo)) ==> Saved(ino, inoNo)
      ensures OthersKept(old(inodeTable), inodeTable, inoNo)
    {
      hide BlocksOk, Mapped, FileOk, Writing, LastBlock, BlockOf, FirstByte, GetBlockCount, Fits, Content, OthersKept,
           Saved;
      ghost var p := vol.p;
      BlockBytes(4 * vol.p, off);
      ghost var base := FirstByte(4 * vol.p, start);
      NextBlock(4 * vol.p, start, start + 1);
      var a := off % (4 * vol.p);
      prefix := 4 * vol.p - a;
      if prefix > |buf| {
        prefix := |buf|;
      }
      HeadContent(j, vol, ino.block, m, start, end);
      var tmp, err := ReadBlockInode(ino, start, m);
      PrefixTarget(tmp, base, off, buf, a, prefix);
      tmp := tmp[..a] + buf[..prefix] + tmp[a + prefix..];
      WritePart(ino, inoNo, start, tmp, j, m, start, end, start + 1, end);
    }

    /** ext2fs.c:232-244: the part of the buffer that falls into the last block. */
    method WriteTail(ino: Inode, inoNo: nat, off: nat, buf: seq<Byte>, end: nat, ghost j: Job, ghost m: nat,
                     ghost start: nat)
      requires HasFile(ino, m) && inoNo != 0
      requires JobOk(j) && j.v.p == vol.p && off == j.off && buf == j.buf && Writing(j, vol, ino.block, m, start, end)
      requires Mapped(j.v, j.root)
      requires start <= end <= LastBlock(vol.p, off, |buf|) && end == BlockOf(4 * vol.p, off + |buf| - 1)
      requires off <= FirstByte(4 * vol.p, start) && (off + |buf|) % (4 * vol.p) != 0
      modifies this, ino`block, ino`blocks
      ensures HasFile(ino, Max(m, end + 1)) && vol.p == j.v.p
      ensures Writing(j, vol, ino.block, Max(m, end + 1), start, end - 1)
      ensures m <= end || old(Saved(ino, inoNo)) ==> Saved(ino, inoNo)
      ensures OthersKept(old(inodeTable), inodeTable, inoNo)
    {
      hide BlocksOk, Mapped, FileOk, Writing, LastBlock, BlockOf, FirstByte, GetBlockCount, Fits, Content, OthersKept,
           Saved;
      var postfix := (off + |buf|) % (4 * vol.p);
      ghost var base := FirstByte(4 * vol.p, end);
      LastBlockBytes(4 * vol.p, off + |buf|);
      if start < end {
        NextBlock(4 * vol.p, start, end);
      }
      OpenContent(j, vol, ino.block, m, start, end, end);
      var tmp, err := ReadBlockInode(ino, end, m);
      PostfixTarget(tmp, base, off, buf, postfix);
      tmp := buf[|buf| - postfix..] + tmp[postfix..];
      WritePart(ino, inoNo, end, tmp, j, m, start, end, start, end - 1);
    }

    /** ext2fs.c:246-251: the blocks that the buffer covers whole. */
    method WriteMiddle(ino: Inode, inoNo: nat, off: nat, buf: seq<Byte>, start0: nat, end: int, bufOffset0: nat,
                       ghost j: Job, ghost m0: nat) returns (ghost m: nat)
      requires HasFile(ino, m0) && inoNo != 0
      requires JobOk(j) && j.v.p == vol.p && off == j.off && buf == j.buf && Writing(j, vol, ino.block, m0, start0, end)
      requires Mapped(j.v, j.root)
      requires end <= LastBlock(vol.p, off, |buf|)
      requires start0 <= end ==>
                 off + bufOffset0 == FirstByte(4 * vol.p, start0) && FirstByte(4 * vol.p, end + 1) <= off + |buf|
      modifies this, ino`block, ino`blocks
      ensures m == if start0 <= end then Max(m0, end + 1) else m0
      ensures HasFile(ino, m) && vol.p == j.v.p
      ensures Writing(j, vol, ino.block, m, if start0 <= end then end + 1 else start0, end)
      ensures m0 < m || old(Saved(ino, inoNo)) ==> Saved(ino, inoNo)
      ensures OthersKept(old(inodeTable), inodeTable, inoNo)
    {
      hide BlocksOk, Mapped, FileOk, JobOk, Writing, LastBlock, FirstByte, GetBlockCount, Fits, Content, OthersKept,
           Saved;
      ghost var table := inodeTable;
      OthersKeptRefl(table, inoNo);
      var start: nat, bufOffset: nat := start0, bufOffset0;
      var B := 4 * vol.p;
      m := m0;
      while start <= end
        invariant start0 <= start && (start <= end + 1 || start == start0)
        invariant start <= end ==> off + bufOffset == FirstByte(B, start)
        invariant HasFile(ino, m) && j.v.p == vol.p
        invariant m == if start0 < start then Max(m0, start) else m0
        invariant Writing(j, vol, ino.block, m, start, end)
        invariant m0 < m || old(Saved(ino, inoNo)) ==> Saved(ino, inoNo)
        invariant OthersKept(table, inodeTable, inoNo)
      {
        ghost var table1 := inodeTable;
        if start < end {
          NextBlock(B, start + 1, end + 1);
        }
        NextBlock(B, start, start + 1);
        OpenContent(j, vol, ino.block, m, start, end, start);
        MiddleTarget(Content(j.v, j.root, start), FirstByte(B, start), off, buf);
        WritePart(ino, inoNo, start, buf[bufOffset..bufOffset + B], j, m, start, end, start + 1, end);
        OthersKeptTransitive(table, table1, inodeTable, inoNo);
        m := Max(m, start + 1);
        bufOffset := bufOffset + B;
        start := start + 1;
      }
    }

    /** ext2fs.c:210-251: first the block that the buffer starts in, then the one it ends in, then those
        in between. */
    method WriteBlocks(ino: Inode, inoNo: nat, off: nat, buf: seq<Byte>, ghost j: Job)
      returns (ghost start': nat, ghost end': int)
      requires HasFile(ino, j.n) && inoNo != 0
      requires JobOk(j) && j.v == vol && j.root == ino.block && off == j.off && buf == j.buf && Mapped(j.v, j.root)
      requires Writing(j, vol, ino.block, j.n, BlockOf(4 * vol.p, off), BlockOf(4 * vol.p, off + |buf| - 1))
      modifies this, ino`block, ino`blocks
      ensures vol.p == j.v.p && HasFile(ino, Max(j.n, LastBlock(vol.p, off, |buf|) + 1))
      ensures end' < start' && Writing(j, vol, ino.block, Max(j.n, LastBlock(vol.p, off, |buf|) + 1), start', end')
      ensures j.n <= LastBlock(vol.p, off, |buf|) || old(Saved(ino, inoNo)) ==> Saved(ino, inoNo)
      ensures OthersKept(old(inodeTable), inodeTable, inoNo)
    {
      hide BlocksOk, Mapped, FileOk, Writing, BlockOf, FirstByte, GetBlockCount, Fits, Content, OthersKept, Saved;
      ghost var table := inodeTable;
      OthersKeptRefl(table, inoNo);
      var B, sz := 4 * vol.p, |buf|;
      ghost var start0, end0 := BlockOf(B, off), BlockOf(B, off + sz - 1);
      BlockBytes(B, off);
      BlockBytes(B, off + sz - 1);
      RangeOf(B, off, sz, start0, end0);
      var start: nat, end: nat, bufOffset := off / B, EndBlock(B, off, sz), 0;
      ghost var m := j.n;
      if off % B != 0 || sz < B {
        bufOffset := WriteHead(ino, inoNo, off, buf, start, j, m, end);
        m := Max(m, start + 1);
        start := start + 1;
      }
      ghost var table1 := inodeTable;
      if (off + sz) % B != 0 && start <= end {
        if start0 == start {
          TailIsLater(B, off, sz, end);
        }
        WriteTail(ino, inoNo, off, buf, end, j, m, start);
        OthersKeptTransitive(table, table1, inodeTable, inoNo);
        m := Max(m, end + 1);
        LastBlockBytes(B, off + sz);
        end := end - 1;
      } else if start <= end {
        LastBlockFull(B, off + sz);
      }
      ghost var table2 := inodeTable;
      m := WriteMiddle(ino, inoNo, off, buf, start, end, bufOffset, j, m);
      OthersKeptTransitive(table, table2, inodeTable, inoNo);
      start', end' := if start <= end then end + 1 else start, end;
    }

    /** ext2fs.c:201-254: the file, as a flat sequence of bytes, takes the buffer at off. What lies between
        the old end and off is not written; it reads as zeros when the file kept zeros behind its end, which
        writing itself maintains. */
    method WriteBufferInode(ino: Inode, inoNo: nat, off: nat, buf: seq<Byte>, ghost n: nat) returns (r: nat)
      requires HasFile(ino, n) && Mapped(vol, ino.block) && inoNo != 0
      requires 0 < off + |buf| < WORD
      requires TotalBlocks(vol.p, Max(n, LastBlock(vol.p, off, |buf|) + 1)) - TotalBlocks(vol.p, n) <= freeBlocks
      modifies this, ino
      ensures r == |buf|
      ensures vol.p == old(vol).p && Mapped(vol, ino.block)
      ensures HasFile(ino, Max(n, LastBlock(vol.p, off, |buf|) + 1))
      ensures ino.size == Max(old(ino.size), off + |buf|)
      ensures BytesOf(vol, ino.block, ino.size) == FlatWrite(old(BytesOf(vol, ino.block, ino.size)), off, buf)
              <==> ZeroGap(old(vol), old(ino.block), old(ino.size), off)
      ensures old(ZeroTail(vol, ino.block, ino.size)) ==>
                ZeroTail(vol, ino.block, ino.size) && ZeroGap(old(vol), old(ino.block), old(ino.size), off)
      ensures Evolved(old(vol), old(ino.block), n, vol, ino.block, Max(n, LastBlock(vol.p, off, |buf|) + 1))
      ensures old(ino.size) < ino.size || old(Saved(ino, inoNo)) ==> Saved(ino, inoNo)
      ensures OthersKept(old(inodeTable), inodeTable, inoNo)
    {
      hide BlocksOk, Mapped, FileOk, Writing, BlockOf, GetBlockCount, Fits, Content, OthersKept, Saved, Evolved,
           ZeroTail, ZeroGap, BytesOf, FlatWrite, TotalBlocks;
      ghost var j, size, table := Job(vol, ino.block, n, off, buf), ino.size, inodeTable;
      WritingStarts(j, BlockOf(4 * vol.p, off), BlockOf(4 * vol.p, off + |buf| - 1));
      OthersKeptRefl(table, inoNo);
      if off + |buf| > ino.size {
        SetSize(ino, inoNo, off + |buf|);
      }
      ghost var table1 := inodeTable;
      ghost var start, end := WriteBlocks(ino, inoNo, off, buf, j);
      OthersKeptTransitive(table, table1, inodeTable, inoNo);
      WritingFacts(j, vol, ino.block, Max(n, LastBlock(vol.p, off, |buf|) + 1), start, end);
      WrittenBytes(j, vol, ino.block, Max(n, LastBlock(vol.p, off, |buf|) + 1), start, end, size);
      r := |buf|;
    }

    method SetSize(ino: Inode, inoNo: nat, size: nat)
      requires inoNo != 0
      modifies this`inodeTable, ino`size
      ensures ino.size == size && Saved(ino, inoNo)
      ensures OthersKept(old(inodeTable), inodeTable, inoNo)
    {
      ino.size := size;
      var err := WriteInode(ino, inoNo);
    }

    /** memcpy(buf + at, tmp + i, len). */
    method Copy(buf: array<Byte>, at: nat, tmp: Block, i: nat, len: nat)
      requires at + len <= buf.Length && i + len <= |tmp|
      modifies buf
      ensures buf[..] == old(buf[..at]) + tmp[i..i + len] + old(buf[at + len..])
    {
      forall k | 0 <= k < len {
        buf[at + k] := tmp[i + k];
      }
    }

    /** ext2fs.c:144-195: fills the buffer with the file's bytes from off on, to the end of the buffer or of the file,
        whichever comes first. */
    method ReadBufferInode(ino: Inode, off: nat, sz0: nat, buf: array<Byte>, ghost n: nat) returns (r: nat)
      requires HasFile(ino, n) && Mapped(vol, ino.block)
      requires off + sz0 < WORD && sz0 <= buf.Length
      requires off <= ino.size ==> 0 < off + sz0 && 0 < ino.size
      modifies buf
      ensures r == Clamped(off, sz0, ino.size)
      ensures ino.size < off ==> r == 0
      ensures off <= ino.size ==> r <= sz0 && off + r <= ino.size && (r == sz0 || off + r == ino.size)
      ensures off <= ino.size ==> buf[..r] == BytesOf(vol, ino.block, ino.size)[off..off + r]
      ensures buf[r..] == old(buf[r..])
    {
      hide BlocksOk, Mapped, FileOk, GetBlockCount, Fits, Content, Copied, BytesOf;
      if off > ino.size {
        return 0;
      }
      var sz := sz0;
      if U32(off + sz) > ino.size {
        sz := ino.size - off;
      }
      ghost var start, end := ReadBlocks(ino, off, sz, buf, n);
      AllCopied(buf[..], vol, ino.block, off, sz, start, end, ino.size);
      r := sz;
    }

    /** ext2fs.c:150-193: first the block that the range starts in, then the one it ends in, then those in between. */
    method ReadBlocks(ino: Inode, off: nat, sz: nat, buf: array<Byte>, ghost n: nat)
      returns (ghost start': nat, ghost end': int)
      requires HasFile(ino, n) && Mapped(vol, ino.block)
      requires 0 < off + sz < WORD && sz <= buf.Length
      modifies buf
      ensures end' < start' && Copied(buf[..], vol, ino.block, off, sz, start', end')
      ensures buf[sz..] == old(buf[sz..])
    {
      hide BlocksOk, Mapped, FileOk, BlockOf, FirstByte, GetBlockCount, Fits, Content, Copied;
      var B := 4 * vol.p;
      ghost var start0, end0 := BlockOf(B, off), BlockOf(B, off + sz - 1);
      BlockBytes(B, off);
      BlockBytes(B, off + sz - 1);
      RangeOf(B, off, sz, start0, end0);
      NothingCopied(buf[..], vol, ino.block, off, sz);
      var start: nat, end: nat, bufOffset := off / B, EndBlock(B, off, sz), 0;
      if off % B != 0 || sz < B {
        bufOffset := ReadHead(ino, off, sz, buf, start, end, n);
        start := start + 1;
      }
      if (off + sz) % B != 0 && start <= end {
        if start0 == start {
          TailIsLater(B, off, sz, end);
        }
        ReadTail(ino, off, sz, buf, start, end, n);
        LastBlockBytes(B, off + sz);
        end := end - 1;
      } else if start <= end {
        LastBlockFull(B, off + sz);
      }
      ReadMiddle(ino, off, sz, buf, start, end, bufOffset, n);
      start', end' := if start <= end then end + 1 else start, end;
    }

    /** ext2fs.c:154-169. */
    method ReadHead(ino: Inode, off: nat, sz: nat, buf: array<Byte>, start: nat, ghost end: nat,
                    ghost n: nat)
      returns (prefix: nat)
      requires HasFile(ino, n) && Mapped(vol, ino.block) && sz <= buf.Length
      requires start == BlockOf(4 * vol.p, off) && Copied(buf[..], vol, ino.block, off, sz, start, end)
      modifies buf
      ensures Copied(buf[..], vol, ino.block, off, sz, start + 1, end)
      ensures prefix <= sz && off + prefix <= FirstByte(4 * vol.p, start + 1)
      ensures prefix == sz || off + prefix == FirstByte(4 * vol.p, start + 1)
      ensures buf[sz..] == old(buf[sz..])
    {
      hide BlocksOk, Mapped, FileOk, BlockOf, FirstByte, GetBlockCount, Fits, Content, Copied;
      BlockBytes(4 * vol.p, off);
      NextBlock(4 * vol.p, start, start + 1);
      prefix := 4 * vol.p - off % (4 * vol.p);
      if prefix > sz {
        prefix := sz;
      }
      var tmp, err := ReadBlockInode(ino, start, n);
      BlockCopied(buf[..], vol, ino.block, off, sz, start, end, start, 0, off % (4 * vol.p), prefix, start + 1, end);
      Copy(buf, 0, tmp, off % (4 * vol.p), prefix);
    }

    /** ext2fs.c:171-185. */
    method ReadTail(ino: Inode, off: nat, sz: nat, buf: array<Byte>, ghost start: nat, end: nat, ghost n: nat)
      requires HasFile(ino, n) && Mapped(vol, ino.block) && sz <= buf.Length
      requires Copied(buf[..], vol, ino.block, off, sz, start, end)
      requires 0 < off + sz && (off + sz) % (4 * vol.p) != 0
      requires start <= end == BlockOf(4 * vol.p, off + sz - 1) && off <= FirstByte(4 * vol.p, start)
      modifies buf
      ensures Copied(buf[..], vol, ino.block, off, sz, start, end - 1)
      ensures buf[sz..] == old(buf[sz..])
    {
      hide BlocksOk, Mapped, FileOk, BlockOf, FirstByte, GetBlockCount, Fits, Content, Copied;
      var postfix := (off + sz) % (4 * vol.p);
      LastBlockBytes(4 * vol.p, off + sz);
      if start < end {
        NextBlock(4 * vol.p, start, end);
      }
      var tmp, err := ReadBlockInode(ino, end, n);
      BlockCopied(buf[..], vol, ino.block, off, sz, start, end, end, sz - postfix, 0, postfix, start, end - 1);
      Copy(buf, sz - postfix, tmp, 0, postfix);
    }

    /** ext2fs.c:187-192. */
    method ReadMiddle(ino: Inode, off: nat, sz: nat, buf: array<Byte>, start0: nat, end: int, bufOffset0: nat,
                      ghost n: nat)
      requires HasFile(ino, n) && Mapped(vol, ino.block) && sz <= buf.Length
      requires Copied(buf[..], vol, ino.block, off, sz, start0, end)
      requires start0 <= end ==>
                 off + bufOffset0 == FirstByte(4 * vol.p, start0) && FirstByte(4 * vol.p, end + 1) <= off + sz
      modifies buf
      ensures Copied(buf[..], vol, ino.block, off, sz, if start0 <= end then end + 1 else start0, end)
      ensures buf[sz..] == old(buf[sz..])
    {
      hide BlocksOk, Mapped, FileOk, BlockOf, FirstByte, GetBlockCount, Fits, Content, Copied;
      var start: nat, bufOffset: nat := start0, bufOffset0;
      var B := 4 * vol.p;
      while start <= end
        invariant start0 <= start && (start <= end + 1 || start == start0)
        invariant start <= end ==> off + bufOffset == FirstByte(B, start)
        invariant Copied(buf[..], vol, ino.block, off, sz, start, end)
        invariant buf[sz..] == old(buf[sz..])
      {
        if start < end {
          NextBlock(B, start + 1, end + 1);
        }
        NextBlock(B, start, start + 1);
        var tmp, err := ReadBlockInode(ino, start, n);
        BlockCopied(buf[..], vol, ino.block, off, sz, start, end, start, bufOffset, 0, B, start + 1, end);
        Copy(buf, bufOffset, tmp, 0, B);
        bufOffset := bufOffset + B;
        start := start + 1;
      }
    }

    /** ext2fs.c:383-412; the block counts as in use before, or the counts will be wrong after. */
    method FreeBlock(block: nat) returns (err: int)
      requires Synced() && Layout(vol) && GroupOf(vol.n, block) < |vol.groups|
      modifies this`vol, this`freeBlocks, this`savedGroups, this`savedFreeBlocks
      ensures err == if block == 0 then E_BADBLOCK else E_SUCCESS
      ensures vol == if block == 0 then old(vol) else Freed(old(vol), block)
      ensures Synced()
    {
      if block == 0 {
        return E_BADBLOCK;
      }
      ghost var v := vol;
      DivMod(vol.n, block);
      var bg, bgi := block / vol.n, block % vol.n;
      var blockoff, blocki := bgi / 32, bgi % 32;
      FreedParts(v, block, blockoff, blocki);
      SumFreeUpdate(vol.groups, bg, vol.groups[bg].(free := vol.groups[bg].free + 1));
      var bitmap := vol.groups[bg].bitmap;
      var buf := vol.disk[bitmap];
      buf := PutWordAt(buf, blockoff * 4, WithoutBit(WordAt(buf, blockoff * 4), blocki));
      err := WriteBlock(bitmap, buf);
      vol := vol.(groups := vol.groups[bg := vol.groups[bg].(free := vol.groups[bg].free + 1)]);
      freeBlocks := freeBlocks + 1;
      WriteCounts();
      assert vol == Freed(v, block);
    }

    /** free_block(fs, ino->i_block[slot]); ino->i_block[slot] = 0. */
    method FreeSlot(ino: Inode, slot: nat)
      requires Valid() && Mapped(vol, ino.block) && IsPosition(vol.p, [slot]) && Node(vol, ino.block, [slot]) != 0
      modifies this`vol, this`freeBlocks, this`savedGroups, this`savedFreeBlocks, ino`block
      ensures Synced()
      ensures vol == Dropped(old(vol), old(ino.block), [slot])
      ensures ino.block == SlotRoot(old(ino.block), [slot], 0)
    {
      hide BlocksOk, Mapped, Freed, Dropped, SlotRoot, NodeAt;
      DropSlot(vol, ino.block, slot);
      var e := FreeBlock(ino.block[slot]);
      ino.block := ino.block[slot := 0];
    }

    /** free_block(fs, tmp[idx]); tmp[idx] = 0, for tmp read from index block blk and written back to it. */
    method FreePointer(blk: nat, idx: nat, ghost root: seq<nat>, ghost pos: Position, ghost par: Position)
      requires Valid() && Mapped(vol, root) && IsPosition(vol.p, pos) && Node(vol, root, pos) != 0
      requires 1 < |pos| && idx == Last(pos)
      requires par == Parent(pos) && IsPosition(vol.p, par) && blk == Node(vol, root, par)
      modifies this`vol, this`freeBlocks, this`savedGroups, this`savedFreeBlocks
      ensures Synced()
      ensures vol == Dropped(old(vol), root, pos)
    {
      hide BlocksOk, Mapped, Freed, Dropped, SlotRoot, NodeAt;
      DropPointer(vol, root, pos, par, blk);
      var p := vol.p;
      var tmp, e := ReadBlock(blk, Zeros(4 * p));
      e := FreeBlock(Pointer(p, tmp, idx));
      tmp := PutPointer(p, tmp, idx, 0);
      e := WriteBlock(blk, tmp);
    }

    /** ext2fs.c:595-620 and 662-687: below a double-indirect block, as far as the division by p*p + p finds its way.
        The guards against missing index blocks cannot fire for a block that is there. */
    method FreeBelow(dind: nat, start: nat, ghost root: seq<nat>, ghost above: Position, ghost pos: Position)
      requires Valid() && Mapped(vol, root) && IsPosition(vol.p, above) && dind == Node(vol, root, above)
      requires pos == FreedBelow(vol.p, above, start)
      requires IsPosition(vol.p, pos) && Node(vol, root, pos) != 0
      modifies this`vol, this`freeBlocks, this`savedGroups, this`savedFreeBlocks
      ensures Synced()
      ensures vol == Dropped(old(vol), root, pos)
    {
      hide BlocksOk, Mapped, Freed, Dropped, SlotRoot, NodeAt;
      ghost var v := vol;
      var p := vol.p;
      ParentIsThere(v, root, pos);
      var b, a: nat := start / SingleTrees(p), start % SingleTrees(p);
      if a == 0 {
        assert Parent(pos) == above;
        FreePointer(dind, b, root, pos, above);
        return;
      }
      a := a - 1;
      ghost var sind := above + [b];
      assert Parent(pos) == sind && Parent(sind) == above;
      ParentIsThere(v, root, sind);
      var intermediate := ReadPointer(dind, b, root, sind);
      FreePointer(intermediate, a, root, pos, sind);
    }

    /** ext2fs.c:579-620: the double-indirect range. */
    method FreeDouble(ino: Inode, off: nat, ghost pos: Position)
      requires Valid() && Mapped(vol, ino.block) && NDIR + vol.p + 1 <= off < TripleRank(vol.p)
      requires pos == FreedPosition(vol.p, off) && IsPosition(vol.p, pos) && Node(vol, ino.block, pos) != 0
      modifies this`vol, this`freeBlocks, this`savedGroups, this`savedFreeBlocks, ino`block
      ensures Synced()
      ensures vol == Dropped(old(vol), old(ino.block), pos)
      ensures ino.block == SlotRoot(old(ino.block), pos, 0)
    {
      hide BlocksOk, Mapped, Freed, Dropped, SlotRoot, NodeAt;
      var a := off - NDIR - vol.p - 1;
      if a == 0 {
        FreeSlot(ino, DIND);
        return;
      }
      MappedShape(vol, ino.block);
      NodeOfSlot(vol, ino.block, DIND);
      SlotRootDeep(ino.block, pos);
      FreeBelow(ino.block[DIND], a - 1, ino.block, [DIND], pos);
    }

    /** ext2fs.c:622-687: the triple-indirect range. */
    method FreeTriple(ino: Inode, off: nat, ghost pos: Position)
      requires Valid() && Mapped(vol, ino.block) && TripleRank(vol.p) <= off
      requires pos == FreedPosition(vol.p, off) && IsPosition(vol.p, pos) && Node(vol, ino.block, pos) != 0
      modifies this`vol, this`freeBlocks, this`savedGroups, this`savedFreeBlocks, ino`block
      ensures Synced()
      ensures vol == Dropped(old(vol), old(ino.block), pos)
      ensures ino.block == SlotRoot(old(ino.block), pos, 0)
    {
      hide BlocksOk, Mapped, Freed, Dropped, SlotRoot, NodeAt;
      var p, a := vol.p, off - TripleRank(vol.p);
      if a == 0 {
        FreeSlot(ino, TIND);
        return;
      }
      MappedShape(vol, ino.block);
      NodeOfSlot(vol, ino.block, TIND);
      TripleParts(vol, ino.block, off, pos);
      SlotRootDeep(ino.block, pos);
      var b, rest: nat := (a - 1) / DoubleTrees(p), (a - 1) % DoubleTrees(p);
      if rest == 0 {
        FreePointer(ino.block[TIND], b, ino.block, pos, [TIND]);
        return;
      }
      var intermediate := ReadPointer(ino.block[TIND], b, ino.block, [TIND, b]);
      FreeBelow(intermediate, rest - 1, ino.block, [TIND, b], pos);
    }

    /** ext2fs.c:539-687: the block of rank off is freed and its slot cleared, for the ranks that are found. */
    method FreeInodeBlock(ino: Inode, off: nat) returns (err: int)
      requires Valid() && Mapped(vol, ino.block) && off < AllRanks(vol.p) && FoundRank(vol.p, off)
      requires IsPosition(vol.p, RankPosition(vol.p, off)) && Node(vol, ino.block, RankPosition(vol.p, off)) != 0
      modifies this`vol, this`freeBlocks, this`savedGroups, this`savedFreeBlocks, ino`block
      ensures Synced()
      ensures err == E_SUCCESS
      ensures vol == Dropped(old(vol), old(ino.block), RankPosition(old(vol).p, off))
      ensures ino.block == SlotRoot(old(ino.block), RankPosition(old(vol).p, off), 0)
    {
      hide BlocksOk, Mapped, Freed, Dropped, SlotRoot, NodeAt, RankPosition;
      FreedExactly(vol.p, off);
      ghost var pos := FreedPosition(vol.p, off);
      if off < NDIR {
        FreeSlot(ino, off);
      } else if off < NDIR + vol.p + 1 {
        var a := off - NDIR;
        if a == 0 {
          FreeSlot(ino, SIND);
        } else {
          MappedShape(vol, ino.block);
          NodeOfSlot(vol, ino.block, SIND);
          assert Parent(pos) == [SIND];
          SlotRootDeep(ino.block, pos);
          FreePointer(ino.block[SIND], a - 1, ino.block, pos, [SIND]);
        }
      } else if off < TripleRank(vol.p) {
        FreeDouble(ino, off, pos);
      } else {
        FreeTriple(ino, off, pos);
      }
      err := E_SUCCESS;
    }

    /** One round of ext2fs.c:525-529: of the t1 real blocks left, the last one goes. */
    method FreeLastBlock(ino: Inode, off: nat, ghost v: Volume, ghost root: seq<nat>, ghost t: nat, ghost t1: nat)
      requires Valid() && Mapped(vol, ino.block) && Mapped(v, root) && v.p == vol.p
      requires Trims(v, root, vol, ino.block, t, t1) && Trimmed(v, root, t) && t1 == off + 1 && FoundRank(v.p, off)
      modifies this`vol, this`freeBlocks, this`savedGroups, this`savedFreeBlocks, ino`block
      ensures Valid() && Mapped(vol, ino.block) && v.p == vol.p
      ensures Trims(v, root, vol, ino.block, t, off)
    {
      hide BlocksOk, Mapped, Trims, Trimmed, DropStep, Dropped, SlotRoot, RankPosition, NodeAt;
      ghost var v1, root1 := vol, ino.block;
      TrimsKeepTrimmed(v, root, v1, root1, t, t1);
      LastIsBare(v1, root1, t1);
      DropWorks(v1, root1, RankPosition(v1.p, off));
      var err := FreeInodeBlock(ino, off);
      TrimsOneMore(v, root, t, v1, root1, t1, vol, ino.block);
      TrimsKeepTrimmed(v, root, vol, ino.block, t, off);
    }

    /** ext2fs.c:517-533: the real blocks behind the new end are freed one by one, the last one first. */
    method FreeInodeBlocks(ino: Inode, blocks: nat, ghost n: nat) returns (err: int)
      requires HasFile(ino, n) && Fits(vol.p, blocks) && (blocks < n ==> FoundRange(vol.p, blocks, n))
      modifies this`vol, this`freeBlocks, this`savedGroups, this`savedFreeBlocks, ino`block, ino`blocks
      ensures err == if blocks < n then E_SUCCESS else E_BADBLOCK
      ensures n <= blocks ==> vol == old(vol) && ino.block == old(ino.block) && HasFile(ino, n)
      ensures blocks < n ==>
                && Mapped(old(vol), old(ino.block))
                && Trims(old(vol), old(ino.block), vol, ino.block, TotalBlocks(old(vol).p, n),
                     TotalBlocks(old(vol).p, blocks))
                && Shrank(old(vol), old(ino.block), n, vol, ino.block, blocks)
                && HasFile(ino, blocks)
    {
      hide BlocksOk, Mapped, FileOk, Trims, Trimmed, Shrank, Grown, DropStep, Fits, GetBlockCount;
      ghost var v, root := vol, ino.block;
      var p := vol.p;
      var sectors := GetBlockCount(p, blocks);
      MappedOf(v, root, n);
      CountsInOrder(p, blocks, n);
      if ino.blocks <= sectors {
        return E_BADBLOCK;
      }
      CountDifference(p, blocks, n);
      FoundRanks(p, blocks, n);
      ghost var t := TotalBlocks(p, n);
      var lastBlock: nat := ino.blocks / SectorsPerBlock(p);
      var toFree: nat := (ino.blocks - sectors) / SectorsPerBlock(p);
      FileTrimmed(v, root, n);
      TrimsNothing(v, root, t);
      var i: nat := 0;
      while i < toFree
        invariant i <= toFree && Valid() && v.p == vol.p == p && Mapped(vol, ino.block)
        invariant Trims(v, root, vol, ino.block, t, t - i)
        invariant ino.blocks == old(ino.blocks)
      {
        assert FoundRank(p, lastBlock - i - 1);
        FreeLastBlock(ino, lastBlock - i - 1, v, root, t, t - i);
        i := i + 1;
      }
      ino.blocks := sectors;
      TrimsShrinks(v, root, n, vol, ino.block, blocks);
      ShrankIsFile(v, root, n, vol, ino.block, blocks);
      err := E_SUCCESS;
    }
  }
}
