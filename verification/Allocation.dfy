/** What allocating and freeing a block do to a volume (ext2fs.c:336-412). */
module Allocation {
  import opened Bytes
  import opened Bitmaps
  import opened Volumes

  /** A volume of blocks: besides the counts, block 0, the bitmaps and every number behind the end of the
      disk are marked in use. */
  ghost predicate BlocksOk(v: Volume) {
    && Counted(v)
    && |v.disk| <= WORD
    && v.n % 32 == 0
    && InUse(v, 0)
    && (forall b: nat | |v.disk| <= b :: InUse(v, b))
    && (forall b: nat | IsBitmap(v, b) :: InUse(v, b))
    && (forall b: nat | b < |v.disk| :: GroupOf(v.n, b) < |v.groups|)
  }

  /** The volume after block b was taken and zeroed. */
  ghost function Allocated(v: Volume, b: nat): Volume
    requires Layout(v) && GroupOf(v.n, b) < |v.groups| && b < |v.disk|
  {
    var t := Take(v, GroupOf(v.n, b), BitOf(v.n, b));
    t.(disk := t.disk[b := Zeros(4 * v.p)])
  }

  /** The volume after block b was given back. */
  ghost function Freed(v: Volume, b: nat): Volume
    requires Layout(v) && GroupOf(v.n, b) < |v.groups|
  {
    Give(v, GroupOf(v.n, b), BitOf(v.n, b))
  }

  /** The lowest block that is not in use. */
  ghost predicate LowestFree(v: Volume, b: nat)
    requires Layout(v)
  {
    !InUse(v, b) && forall c: nat | c < b :: InUse(v, c)
  }

  /** The lowest free block from b on, 0 when there is none. */
  ghost function FirstFreeFrom(v: Volume, b: nat): nat
    requires Layout(v)
    decreases |v.disk| - b
  {
    if |v.disk| <= b then 0 else if !InUse(v, b) then b else FirstFreeFrom(v, b + 1)
  }

  ghost function FirstFree(v: Volume): nat
    requires Layout(v)
  {
    FirstFreeFrom(v, 0)
  }

  lemma {:induction false} FirstFreeIs(v: Volume, b: nat, from: nat)
    requires Layout(v) && from <= b < |v.disk|
    requires !InUse(v, b) && forall c: nat | c < b :: InUse(v, c)
    ensures FirstFreeFrom(v, from) == b
    decreases b - from
  {
    if from < b {
      FirstFreeIs(v, b, from + 1);
    }
  }

  lemma {:induction false} NoFirstFree(v: Volume, from: nat)
    requires Layout(v) && forall c: nat :: InUse(v, c)
    ensures FirstFreeFrom(v, from) == 0
    decreases |v.disk| - from
  {
    if from < |v.disk| {
      NoFirstFree(v, from + 1);
    }
  }

  /** FirstFree finds a free block whenever there is one. */
  lemma {:induction false} FirstFreeFromWorks(v: Volume, from: nat)
    requires Layout(v) && forall c: nat | c < from :: InUse(v, c)
    ensures var b := FirstFreeFrom(v, from); b != 0 ==> b < |v.disk| && LowestFree(v, b)
    ensures FirstFreeFrom(v, from) == 0 && InUse(v, 0) ==> forall c: nat | c < |v.disk| :: InUse(v, c)
    decreases |v.disk| - from
  {
    if from < |v.disk| && InUse(v, from) {
      FirstFreeFromWorks(v, from + 1);
    }
  }

  lemma FirstFreeWorks(v: Volume)
    requires BlocksOk(v)
    ensures FirstFree(v) != 0 ==> LowestFree(v, FirstFree(v))
    ensures FirstFree(v) == 0 <==> SumFree(v.groups) == 0
  {
    FirstFreeFromWorks(v, 0);
    AllFull(v);
  }

  lemma FreeIsOnDisk(v: Volume, b: nat)
    requires BlocksOk(v) && !InUse(v, b)
    ensures 0 < b < |v.disk| && GroupOf(v.n, b) < |v.groups| && !IsBitmap(v, b)
  {
  }

  /** Allocating keeps the volume right and puts exactly b in use. */
  lemma AllocatedOk(v: Volume, b: nat)
    requires BlocksOk(v) && !InUse(v, b)
    ensures 0 < b < |v.disk| && GroupOf(v.n, b) < |v.groups| && !IsBitmap(v, b)
    ensures BlocksOk(Allocated(v, b)) && SameLayout(v, Allocated(v, b))
    ensures forall c: nat :: InUse(Allocated(v, b), c) == (c == b || InUse(v, c))
    ensures SumFree(Allocated(v, b).groups) == SumFree(v.groups) - 1
  {
    FreeIsOnDisk(v, b);
    var g, i := GroupOf(v.n, b), BitOf(v.n, b);
    var t, a := Take(v, g, i), Allocated(v, b);
    TakeBits(v, g, i, g, i);
    TakeCounted(v, g, i);
    forall c: nat ensures InUse(t, c) == (c == b || InUse(v, c)) {
      TakeInUse(v, b, c);
    }
    forall c: nat ensures IsBitmap(t, c) == IsBitmap(v, c) && IsBitmap(a, c) == IsBitmap(v, c) {
      SameBitmaps(v, t, c);
      SameBitmaps(v, a, c);
    }
    WriteKeepsUse(t, a);
    SumFreeUpdate(v.groups, g, t.groups[g]);
  }

  /** Which blocks allocating changes: the bitmap and the new block. */
  lemma AllocatedFrame(v: Volume, b: nat, c: nat)
    requires Layout(v) && GroupOf(v.n, b) < |v.groups| && b < |v.disk| && c < |v.disk|
    ensures c == b ==> Allocated(v, b).disk[c] == Zeros(4 * v.p)
    ensures c != b && !IsBitmap(v, c) ==> Allocated(v, b).disk[c] == v.disk[c]
  {
    assert IsBitmap(v, v.groups[GroupOf(v.n, b)].bitmap);
  }

  /** Freeing keeps the volume right exactly when the block was in use. */
  lemma FreedOk(v: Volume, b: nat)
    requires BlocksOk(v) && 0 < b < |v.disk| && !IsBitmap(v, b)
    ensures Layout(Freed(v, b)) && SameLayout(v, Freed(v, b))
    ensures BlocksOk(Freed(v, b)) == InUse(v, b)
    ensures forall c: nat :: InUse(Freed(v, b), c) == (c != b && InUse(v, c))
    ensures SumFree(Freed(v, b).groups) == SumFree(v.groups) + 1
  {
    var g, i := GroupOf(v.n, b), BitOf(v.n, b);
    var f := Freed(v, b);
    GiveBits(v, g, i, g, i);
    if Taken(v, g, i) {
      GiveCounted(v, g, i);
    } else {
      GiveTwiceMiscounts(v, g, i);
    }
    forall c: nat ensures InUse(f, c) == (c != b && InUse(v, c)) {
      GiveInUse(v, b, c);
    }
    forall c: nat ensures IsBitmap(f, c) == IsBitmap(v, c) {
      SameBitmaps(v, f, c);
    }
    SumFreeUpdate(v.groups, g, f.groups[g]);
  }

  lemma FreedFrame(v: Volume, b: nat, c: nat)
    requires Layout(v) && GroupOf(v.n, b) < |v.groups| && c < |v.disk|
    ensures !IsBitmap(v, c) ==> Freed(v, b).disk[c] == v.disk[c]
  {
    assert IsBitmap(v, v.groups[GroupOf(v.n, b)].bitmap);
  }

  /** Freeing right after allocating restores bitmaps and counts; only the block itself stays zeroed. */
  lemma FreeUndoesAlloc(v: Volume, b: nat)
    requires BlocksOk(v) && !InUse(v, b)
    ensures b < |v.disk| && GroupOf(v.n, b) < |v.groups|
    ensures BlocksOk(Allocated(v, b))
    ensures Freed(Allocated(v, b), b) == v.(disk := v.disk[b := Zeros(4 * v.p)])
  {
    AllocatedOk(v, b);
    var g, i := GroupOf(v.n, b), BitOf(v.n, b);
    TakeBits(v, g, i, g, i);
    assert IsBitmap(v, v.groups[g].bitmap);
    GiveAfterWrite(Take(v, g, i), g, i, b, Zeros(4 * v.p));
    GiveUndoesTake(v, g, i);
  }

  /** A free count of 0 is a full group. */
  lemma FullGroup(v: Volume, g: nat)
    requires Counted(v) && g < |v.groups|
    ensures 0 <= v.groups[g].free <= v.n
    ensures v.groups[g].free == 0 <==> forall i: nat | i < v.n :: Taken(v, g, i)
  {
    var s := Decode(BitmapBlock(v, g))[..v.n];
    CountZero(s);
    assert forall i: nat | i < v.n :: s[i] == Taken(v, g, i);
  }

  /** When all groups are full nothing is free, and conversely. */
  lemma AllFull(v: Volume)
    requires Counted(v)
    ensures 0 <= SumFree(v.groups)
    ensures SumFree(v.groups) == 0 <==> forall b: nat :: InUse(v, b)
  {
    forall g: nat | g < |v.groups|
      ensures 0 <= v.groups[g].free
      ensures v.groups[g].free == 0 <==> forall i: nat | i < v.n :: Taken(v, g, i)
    {
      FullGroup(v, g);
    }
    NothingFree(v.groups);
    if forall b: nat :: InUse(v, b) {
      forall g: nat, i: nat | g < |v.groups| && i < v.n ensures Taken(v, g, i) {
        NumberSplits(v.n, g, i);
        assert InUse(v, i + g * v.n);
      }
    }
  }

  /** The first clear bit of the first group with one is the lowest free item. */
  lemma FirstClearIsLowest(v: Volume, b: nat)
    requires Layout(v) && GroupOf(v.n, b) < |v.groups|
    requires forall h: nat, j: nat | h < GroupOf(v.n, b) && j < v.n :: Taken(v, h, j)
    requires forall j: nat | j < BitOf(v.n, b) :: Taken(v, GroupOf(v.n, b), j)
    requires !Taken(v, GroupOf(v.n, b), BitOf(v.n, b))
    ensures LowestFree(v, b)
  {
    forall c: nat | c < b ensures InUse(v, c) {
      BeforeFirstClear(v, b, c);
    }
  }

  lemma BeforeFirstClear(v: Volume, b: nat, c: nat)
    requires Layout(v) && GroupOf(v.n, b) < |v.groups| && c < b
    requires forall h: nat, j: nat | h < GroupOf(v.n, b) && j < v.n :: Taken(v, h, j)
    requires forall j: nat | j < BitOf(v.n, b) :: Taken(v, GroupOf(v.n, b), j)
    ensures InUse(v, c)
  {
    GroupsInOrder(v.n, b, c);
  }

  lemma GroupsInOrder(n: nat, b: nat, c: nat)
    requires 0 < n && c < b
    ensures GroupOf(n, c) < GroupOf(n, b) || (GroupOf(n, c) == GroupOf(n, b) && BitOf(n, c) < BitOf(n, b))
    decreases b
  {
    if n <= c {
      GroupsInOrder(n, b - n, c - n);
    }
  }

  /** The memory operations of alloc_block amount to Allocated. */
  lemma AllocatedParts(v: Volume, b: nat, blocki: nat, off: nat)
    requires Layout(v) && GroupOf(v.n, b) < |v.groups| && b < |v.disk|
    requires 1 <= off <= 32 && blocki * 32 + (off - 1) == BitOf(v.n, b)
    ensures var g := v.groups[GroupOf(v.n, b)];
            var buf := v.disk[g.bitmap];
            && blocki * 4 + 4 <= |buf|
            && Allocated(v, b) == Volume(v.p, v.n,
                 v.disk[g.bitmap := PutWordAt(buf, blocki * 4,
                     WithBit(WordAt(buf, blocki * 4), off - 1))][b := Zeros(4 * v.p)],
                 v.groups[GroupOf(v.n, b) := g.(free := g.free - 1)])
  {
    WordMarks(v.disk[v.groups[GroupOf(v.n, b)].bitmap], blocki, off - 1);
  }

  /** The memory operations of free_block amount to Freed. */
  lemma FreedParts(v: Volume, b: nat, blockoff: nat, blocki: nat)
    requires Layout(v) && GroupOf(v.n, b) < |v.groups|
    requires blocki < 32 && blockoff * 32 + blocki == BitOf(v.n, b)
    ensures var g := v.groups[GroupOf(v.n, b)];
            var buf := v.disk[g.bitmap];
            && blockoff * 4 + 4 <= |buf|
            && Freed(v, b) == Volume(v.p, v.n,
                 v.disk[g.bitmap := PutWordAt(buf, blockoff * 4, WithoutBit(WordAt(buf, blockoff * 4), blocki))],
                 v.groups[GroupOf(v.n, b) := g.(free := g.free + 1)])
  {
    WordMarks(v.disk[v.groups[GroupOf(v.n, b)].bitmap], blockoff, blocki);
  }

  lemma NothingClear(v: Volume)
    requires Layout(v)
    requires forall g: nat, i: nat | g < |v.groups| && i < v.n :: Taken(v, g, i)
    ensures forall b: nat :: InUse(v, b)
  {
  }

  /** Group bg was searched in vain: all its bits are taken. */
  lemma NoneInGroup(v: Volume, g: nat)
    requires Counted(v) && g < |v.groups|
    requires v.groups[g].free == 0 || forall i | 0 <= i < v.n :: Decode(BitmapBlock(v, g))[i]
    ensures forall i: nat | i < v.n :: Taken(v, g, i)
  {
    FullGroup(v, g);
  }

  /** ext2fs.c:340-352 and 422-434: group by group, skipping the ones without free items, the first clear
      bit of the bitmap; the numbers tell its group, its word and one plus its place in the word. */
  method FindFree(v: Volume) returns (found: bool, bg: nat, blocki: nat, off: nat)
    requires Counted(v) && v.n % 32 == 0
    ensures !found ==> forall g: nat, i: nat | g < |v.groups| && i < v.n :: Taken(v, g, i)
    ensures found ==> bg < |v.groups| && 1 <= off <= 32 && blocki * 32 + (off - 1) < v.n
    ensures found ==> !Taken(v, bg, blocki * 32 + (off - 1))
    ensures found ==> forall j: nat | j < blocki * 32 + (off - 1) :: Taken(v, bg, j)
    ensures found ==> forall h: nat, j: nat | h < bg && j < v.n :: Taken(v, h, j)
  {
    bg, blocki, off := 0, 0, 0;
    while bg < |v.groups|
      invariant bg <= |v.groups|
      invariant forall h: nat, j: nat | h < bg && j < v.n :: Taken(v, h, j)
    {
      if v.groups[bg].free != 0 {
        var buf := v.disk[v.groups[bg].bitmap];
        blocki, off := FindClear(buf, v.n / 8 / 4);
        if off != 0 {
          return true, bg, blocki, off;
        }
      }
      NoneInGroup(v, bg);
      bg := bg + 1;
    }
    found := false;
  }
}
