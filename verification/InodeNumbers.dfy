/** alloc_inode and free_inode (ext2fs.c:418-490). Inodes are numbered from 1: inode k has bit k - 1. */
module InodeNumbers {
  import opened Bytes
  import opened Bitmaps
  import opened BlockCounts
  import opened Volumes
  import opened Allocation

  const E_SUCCESS := 0
  const E_BADBLOCK := 1

  /** The memory operations of alloc_inode amount to Take. */
  lemma TakeParts(v: Volume, b: nat, blocki: nat, off: nat)
    requires Layout(v) && GroupOf(v.n, b) < |v.groups|
    requires 1 <= off <= 32 && blocki * 32 + (off - 1) == BitOf(v.n, b)
    ensures var g := v.groups[GroupOf(v.n, b)];
            var buf := v.disk[g.bitmap];
            && blocki * 4 + 4 <= |buf|
            && Take(v, GroupOf(v.n, b), BitOf(v.n, b)) == Volume(v.p, v.n,
                 v.disk[g.bitmap := PutWordAt(buf, blocki * 4, WithBit(WordAt(buf, blocki * 4), off - 1))],
                 v.groups[GroupOf(v.n, b) := g.(free := g.free - 1)])
  {
    WordMarks(v.disk[v.groups[GroupOf(v.n, b)].bitmap], blocki, off - 1);
  }

  lemma TakeCounts(v: Volume, b: nat)
    requires Counted(v) && !InUse(v, b)
    ensures GroupOf(v.n, b) < |v.groups|
    ensures Counted(Take(v, GroupOf(v.n, b), BitOf(v.n, b)))
    ensures SumFree(Take(v, GroupOf(v.n, b), BitOf(v.n, b)).groups) == SumFree(v.groups) - 1
  {
    var g, i := GroupOf(v.n, b), BitOf(v.n, b);
    TakeCounted(v, g, i);
    SumFreeUpdate(v.groups, g, v.groups[g].(free := v.groups[g].free - 1));
  }

  /** Giving an item back keeps the counts right exactly when it was in use. */
  lemma GiveCounts(v: Volume, b: nat)
    requires Counted(v) && GroupOf(v.n, b) < |v.groups|
    ensures Counted(Give(v, GroupOf(v.n, b), BitOf(v.n, b))) <==> InUse(v, b)
  {
    var g, i := GroupOf(v.n, b), BitOf(v.n, b);
    if Taken(v, g, i) {
      GiveCounted(v, g, i);
    } else {
      GiveTwiceMiscounts(v, g, i);
    }
  }

  lemma GiveSum(v: Volume, b: nat)
    requires Layout(v) && GroupOf(v.n, b) < |v.groups|
    ensures SumFree(Give(v, GroupOf(v.n, b), BitOf(v.n, b)).groups) == SumFree(v.groups) + 1
  {
    hide BitmapBlock, Layout;
    var g := GroupOf(v.n, b);
    SumFreeUpdate(v.groups, g, v.groups[g].(free := v.groups[g].free + 1));
  }

  class InodeMap {
    /** The device's blocks, and of the group descriptors the inode bitmaps and free inode counts. */
    var vol: Volume
    /** sb->s_free_inodes_count. */
    var freeInodes: int

    ghost predicate Valid()
      reads this
    {
      Counted(vol) && vol.n % 32 == 0 && freeInodes == SumFree(vol.groups)
    }

    /** ext2fs.c:442-452: the bit is set, counted and written back. */
    method TakeInode(bg: nat, blocki: nat, off: nat, ghost b: nat)
      requires Valid() && !InUse(vol, b) && bg == GroupOf(vol.n, b)
      requires 1 <= off <= 32 && blocki * 32 + (off - 1) == BitOf(vol.n, b)
      modifies this
      ensures Valid()
      ensures vol == Take(old(vol), bg, BitOf(old(vol).n, b))
    {
      hide Counted, Take, InUse, BitmapBlock, WithBit, PutWordAt, WordAt, SumFree, Layout;
      CountedLayout(vol);
      TakeCounts(vol, b);
      TakeParts(vol, b, blocki, off);
      var bitmap := vol.groups[bg].bitmap;
      var buf := vol.disk[bitmap];
      buf := PutWordAt(buf, blocki * 4, WithBit(WordAt(buf, blocki * 4), off - 1));
      vol := vol.(disk := vol.disk[bitmap := buf],
          groups := vol.groups[bg := vol.groups[bg].(free := vol.groups[bg].free - 1)]);
      freeInodes := freeInodes - 1;
    }

    /** ext2fs.c:418-456: takes the lowest free inode; 0 when there is none. */
    method AllocInode() returns (inono: nat)
      requires Valid()
      modifies this
      ensures Valid()
      ensures inono == 0 <==> old(freeInodes) == 0
      ensures inono == 0 ==> vol == old(vol)
      ensures inono != 0 ==> LowestFree(old(vol), inono - 1) && GroupOf(old(vol).n, inono - 1) < |old(vol).groups|
      ensures inono != 0 ==> vol == Take(old(vol), GroupOf(old(vol).n, inono - 1), BitOf(old(vol).n, inono - 1))
    {
      hide Counted, Taken, InUse, Take, Layout, SumFree;
      CountedLayout(vol);
      AllFull(vol);
      var found, bg, blocki, off := FindFree(vol);
      if !found {
        NothingClear(vol);
        return 0;
      }
      ProductMonotone(0, bg, vol.n);
      inono := off + 32 * blocki + bg * vol.n;
      LowestFound(vol, bg, blocki, off, inono);
      TakeInode(bg, blocki, off, inono - 1);
    }

    /** ext2fs.c:474-487: the bit is cleared, counted and written back. */
    method GiveInode(bg: nat, blockoff: nat, blocki: nat, ghost b: nat)
      requires Valid() && bg == GroupOf(vol.n, b) < |vol.groups|
      requires blocki < 32 && blockoff * 32 + blocki == BitOf(vol.n, b)
      modifies this
      ensures vol == Give(old(vol), bg, BitOf(old(vol).n, b))
      ensures Valid() <==> InUse(old(vol), b)
    {
      hide Counted, Give, InUse, BitmapBlock, WithoutBit, PutWordAt, WordAt, SumFree, Layout;
      CountedLayout(vol);
      GiveCounts(vol, b);
      GiveSum(vol, b);
      FreedParts(vol, b, blockoff, blocki);
      var bitmap := vol.groups[bg].bitmap;
      var buf := vol.disk[bitmap];
      buf := PutWordAt(buf, blockoff * 4, WithoutBit(WordAt(buf, blockoff * 4), blocki));
      vol := vol.(disk := vol.disk[bitmap := buf],
          groups := vol.groups[bg := vol.groups[bg].(free := vol.groups[bg].free + 1)]);
      freeInodes := freeInodes + 1;
    }

    /** ext2fs.c:461-490: the counts stay right exactly when the inode was in use. */
    method FreeInode(inoNo: nat) returns (err: int)
      requires Valid() && (inoNo != 0 ==> GroupOf(vol.n, inoNo - 1) < |vol.groups|)
      modifies this
      ensures err == if inoNo == 0 then E_BADBLOCK else E_SUCCESS
      ensures inoNo == 0 ==> vol == old(vol) && Valid()
      ensures inoNo != 0 ==> vol == Give(old(vol), GroupOf(old(vol).n, inoNo - 1), BitOf(old(vol).n, inoNo - 1))
      ensures inoNo != 0 ==> (Valid() <==> InUse(old(vol), inoNo - 1))
    {
      if inoNo == 0 {
        return E_BADBLOCK;
      }
      hide Counted, Give, InUse, Layout, SumFree;
      CountedLayout(vol);
      var bit := inoNo - 1;
      DivMod(vol.n, bit);
      var bg, bgi := bit / vol.n, bit % vol.n;
      GiveInode(bg, bgi / 32, bgi % 32, bit);
      err := E_SUCCESS;
    }
  }

  lemma CountedLayout(v: Volume)
    requires Counted(v)
    ensures Layout(v) && 0 < v.n
  {
  }

  /** The number computed from group, word and bit is that of the lowest free inode. */
  lemma LowestFound(v: Volume, bg: nat, blocki: nat, off: nat, inono: nat)
    requires Layout(v) && bg < |v.groups| && 1 <= off && blocki * 32 + (off - 1) < v.n
    requires !Taken(v, bg, blocki * 32 + (off - 1))
    requires inono == off + 32 * blocki + bg * v.n
    requires forall j: nat | j < blocki * 32 + (off - 1) :: Taken(v, bg, j)
    requires forall h: nat, j: nat | h < bg && j < v.n :: Taken(v, h, j)
    ensures 0 < inono
    ensures GroupOf(v.n, inono - 1) == bg && BitOf(v.n, inono - 1) == blocki * 32 + (off - 1)
    ensures LowestFree(v, inono - 1) && !InUse(v, inono - 1)
  {
    hide Taken;
    var i, product := blocki * 32 + (off - 1), bg * v.n;
    NumberSplits(v.n, bg, i);
    assert inono - 1 == i + product;
    FirstClearIsLowest(v, inono - 1);
  }
}
