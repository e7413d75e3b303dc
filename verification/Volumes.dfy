/** The allocation state of an ext2 volume: groups of numbered items (blocks or inodes), each group with
    a bitmap block and a free count. */
module Volumes {
  import opened Bitmaps
  import opened BlockCounts
  import opened BlockTree

  /** What a group descriptor holds for one kind of item. */
  datatype Group = Group(bitmap: nat, free: int)

  /** A snapshot: p pointers in a block, n items in a group. */
  datatype Volume = Volume(p: nat, n: nat, disk: seq<Block>, groups: seq<Group>)

  /** The group of an item and its bit there: b / n and b % n. */
  function GroupOf(n: nat, b: nat): nat
    requires 0 < n
    decreases b
  {
    if b < n then 0 else GroupOf(n, b - n) + 1
  }

  function BitOf(n: nat, b: nat): (i: nat)
    requires 0 < n
    ensures i < n
    decreases b
  {
    if b < n then b else BitOf(n, b - n)
  }

  lemma {:induction false} DivMod(n: nat, b: nat)
    requires 0 < n
    ensures GroupOf(n, b) == b / n && BitOf(n, b) == b % n
    ensures b == BitOf(n, b) + GroupOf(n, b) * n
    decreases b
  {
    if b < n {
      DivUnique(b, n, 0, b);
    } else {
      DivMod(n, b - n);
      var q, r := (b - n) / n, (b - n) % n;
      DivModBounds(b - n, n);
      assert (q + 1) * n == q * n + n;
      DivUnique(b, n, q + 1, r);
    }
  }

  lemma {:induction false} NumberSplits(n: nat, g: nat, i: nat)
    requires i < n
    ensures 0 <= i + g * n
    ensures GroupOf(n, i + g * n) == g && BitOf(n, i + g * n) == i
  {
    ProductMonotone(0, g, n);
    DivMod(n, i + g * n);
    DivUnique(i + g * n, n, g, i);
  }

  function SumFree(groups: seq<Group>): int {
    if groups == [] then 0 else SumFree(groups[..|groups| - 1]) + groups[|groups| - 1].free
  }

  /** The shape that no operation changes: one bitmap block for each group. */
  ghost predicate Layout(v: Volume) {
    && 0 < v.p
    && Formatted(v.p, v.disk)
    && 0 < v.n <= 32 * v.p
    && (forall g | 0 <= g < |v.groups| :: 0 < v.groups[g].bitmap < |v.disk|)
    && (forall g, h | 0 <= g < h < |v.groups| :: v.groups[g].bitmap != v.groups[h].bitmap)
  }

  ghost function BitmapBlock(v: Volume, g: nat): Block
    requires Layout(v) && g < |v.groups|
  {
    v.disk[v.groups[g].bitmap]
  }

  ghost predicate Taken(v: Volume, g: nat, i: nat)
    requires Layout(v) && g < |v.groups| && i < v.n
  {
    Decode(BitmapBlock(v, g))[i]
  }

  /** Item b is marked in use; numbers behind the last group count as in use. */
  ghost predicate InUse(v: Volume, b: nat)
    requires Layout(v)
  {
    GroupOf(v.n, b) < |v.groups| ==> Taken(v, GroupOf(v.n, b), BitOf(v.n, b))
  }

  ghost predicate IsBitmap(v: Volume, b: nat) {
    exists g :: 0 <= g < |v.groups| && v.groups[g].bitmap == b
  }

  /** The free count of each group is the number of its clear bits. */
  ghost predicate Counted(v: Volume) {
    && Layout(v)
    && (forall g | 0 <= g < |v.groups| :: v.groups[g].free == CountClear(BitmapBlock(v, g), v.n))
  }

  /** A bitmap and its count replaced together. */
  ghost function WithBitmap(v: Volume, g: nat, bitmap: Block, free: int): Volume
    requires Layout(v) && g < |v.groups|
  {
    v.(disk := v.disk[v.groups[g].bitmap := bitmap],
       groups := v.groups[g := v.groups[g].(free := free)])
  }

  /** Bit i of group g taken, and the count of the group lowered. */
  ghost function Take(v: Volume, g: nat, i: nat): Volume
    requires Layout(v) && g < |v.groups| && i < v.n
  {
    WithBitmap(v, g, Mark(BitmapBlock(v, g), i), v.groups[g].free - 1)
  }

  /** Bit i of group g given back, and the count of the group raised. */
  ghost function Give(v: Volume, g: nat, i: nat): Volume
    requires Layout(v) && g < |v.groups| && i < v.n
  {
    WithBitmap(v, g, Unmark(BitmapBlock(v, g), i), v.groups[g].free + 1)
  }

  /** The same bitmaps in the same places, and equal sizes. */
  ghost predicate SameLayout(v: Volume, v': Volume) {
    && v'.p == v.p && v'.n == v.n
    && |v'.disk| == |v.disk|
    && |v'.groups| == |v.groups|
    && (forall g | 0 <= g < |v.groups| :: v'.groups[g].bitmap == v.groups[g].bitmap)
  }

  lemma TakeBits(v: Volume, g: nat, i: nat, h: nat, j: nat)
    requires Layout(v) && g < |v.groups| && i < v.n && h < |v.groups| && j < v.n
    ensures Layout(Take(v, g, i)) && SameLayout(v, Take(v, g, i))
    ensures Taken(Take(v, g, i), h, j) == ((g == h && i == j) || Taken(v, h, j))
  {
    if h == g {
      DecodeMark(BitmapBlock(v, g), i);
    }
  }

  lemma GiveBits(v: Volume, g: nat, i: nat, h: nat, j: nat)
    requires Layout(v) && g < |v.groups| && i < v.n && h < |v.groups| && j < v.n
    ensures Layout(Give(v, g, i)) && SameLayout(v, Give(v, g, i))
    ensures Taken(Give(v, g, i), h, j) == (!(g == h && i == j) && Taken(v, h, j))
  {
    if h == g {
      DecodeMark(BitmapBlock(v, g), i);
    }
  }

  /** Taking the bit of item b puts exactly b in use. */
  lemma TakeInUse(v: Volume, b: nat, c: nat)
    requires Layout(v) && GroupOf(v.n, b) < |v.groups|
    ensures Layout(Take(v, GroupOf(v.n, b), BitOf(v.n, b)))
    ensures InUse(Take(v, GroupOf(v.n, b), BitOf(v.n, b)), c) == (c == b || InUse(v, c))
  {
    var g, i := GroupOf(v.n, b), BitOf(v.n, b);
    var h, j := GroupOf(v.n, c), BitOf(v.n, c);
    DivMod(v.n, b);
    DivMod(v.n, c);
    TakeBits(v, g, i, g, i);
    if h < |v.groups| {
      TakeBits(v, g, i, h, j);
    }
  }

  /** Giving the bit of item b back frees exactly b. */
  lemma GiveInUse(v: Volume, b: nat, c: nat)
    requires Layout(v) && GroupOf(v.n, b) < |v.groups|
    ensures Layout(Give(v, GroupOf(v.n, b), BitOf(v.n, b)))
    ensures InUse(Give(v, GroupOf(v.n, b), BitOf(v.n, b)), c) == (c != b && InUse(v, c))
  {
    var g, i := GroupOf(v.n, b), BitOf(v.n, b);
    var h, j := GroupOf(v.n, c), BitOf(v.n, c);
    DivMod(v.n, b);
    DivMod(v.n, c);
    GiveBits(v, g, i, g, i);
    if h < |v.groups| {
      GiveBits(v, g, i, h, j);
    }
  }

  lemma CountedUpdate(v: Volume, g: nat, bitmap: Block, free: int)
    requires Counted(v) && g < |v.groups| && |bitmap| == 4 * v.p
    ensures Counted(WithBitmap(v, g, bitmap, free)) == (free == CountClear(bitmap, v.n))
  {
    var v' := WithBitmap(v, g, bitmap, free);
    assert Layout(v');
    assert BitmapBlock(v', g) == bitmap;
    assert Counted(v') ==> v'.groups[g].free == CountClear(bitmap, v.n);
    forall h | 0 <= h < |v.groups| && h != g ensures v'.groups[h].free == CountClear(BitmapBlock(v', h), v.n) {
      assert v'.groups[h] == v.groups[h];
      assert BitmapBlock(v', h) == BitmapBlock(v, h);
    }
  }

  lemma CountTaken(v: Volume, g: nat, i: nat)
    requires Counted(v) && g < |v.groups| && i < v.n
    ensures CountClear(Mark(BitmapBlock(v, g), i), v.n) == v.groups[g].free - (if Taken(v, g, i) then 0 else 1)
    ensures CountClear(Unmark(BitmapBlock(v, g), i), v.n) == v.groups[g].free + (if Taken(v, g, i) then 1 else 0)
  {
    CountMark(BitmapBlock(v, g), i, v.n);
  }

  lemma TakeCounted(v: Volume, g: nat, i: nat)
    requires Counted(v) && g < |v.groups| && i < v.n
    requires !Taken(v, g, i)
    ensures Counted(Take(v, g, i))
  {
    CountTaken(v, g, i);
    CountedUpdate(v, g, Mark(BitmapBlock(v, g), i), v.groups[g].free - 1);
  }

  lemma GiveCounted(v: Volume, g: nat, i: nat)
    requires Counted(v) && g < |v.groups| && i < v.n
    requires Taken(v, g, i)
    ensures Counted(Give(v, g, i))
  {
    CountTaken(v, g, i);
    CountedUpdate(v, g, Unmark(BitmapBlock(v, g), i), v.groups[g].free + 1);
  }

  /** Giving back a bit that was not taken makes the count wrong. */
  lemma GiveTwiceMiscounts(v: Volume, g: nat, i: nat)
    requires Counted(v) && g < |v.groups| && i < v.n
    requires !Taken(v, g, i)
    ensures !Counted(Give(v, g, i))
  {
    CountTaken(v, g, i);
    CountedUpdate(v, g, Unmark(BitmapBlock(v, g), i), v.groups[g].free + 1);
  }

  lemma WithBitmapTwice(v: Volume, g: nat, bitmap: Block, free: int)
    requires Layout(v) && g < |v.groups| && |bitmap| == 4 * v.p
    ensures Layout(WithBitmap(v, g, bitmap, free))
    ensures BitmapBlock(WithBitmap(v, g, bitmap, free), g) == bitmap
    ensures WithBitmap(WithBitmap(v, g, bitmap, free), g, BitmapBlock(v, g), v.groups[g].free) == v
  {
    var v' := WithBitmap(WithBitmap(v, g, bitmap, free), g, BitmapBlock(v, g), v.groups[g].free);
    assert v'.disk == v.disk;
    assert v'.groups == v.groups;
  }

  /** Giving back what was just taken restores bitmap and counts. */
  lemma GiveUndoesTake(v: Volume, g: nat, i: nat)
    requires Layout(v) && g < |v.groups| && i < v.n && !Taken(v, g, i)
    ensures Layout(Take(v, g, i))
    ensures Give(Take(v, g, i), g, i) == v
  {
    WithBitmapTwice(v, g, Mark(BitmapBlock(v, g), i), v.groups[g].free - 1);
    MarkThenUnmark(BitmapBlock(v, g), i);
  }

  lemma GiveAfterWrite(v: Volume, g: nat, i: nat, b: nat, block: Block)
    requires Layout(v) && g < |v.groups| && i < v.n
    requires b < |v.disk| && |block| == 4 * v.p && b != v.groups[g].bitmap
    ensures Layout(v.(disk := v.disk[b := block]))
    ensures Give(v.(disk := v.disk[b := block]), g, i) == Give(v, g, i).(disk := Give(v, g, i).disk[b := block])
  {
    var w := v.(disk := v.disk[b := block]);
    assert BitmapBlock(w, g) == BitmapBlock(v, g);
    var m := Unmark(BitmapBlock(v, g), i);
    assert v.disk[b := block][v.groups[g].bitmap := m] == v.disk[v.groups[g].bitmap := m][b := block];
  }

  /** Writing blocks that are no bitmaps leaves the allocation state alone. */
  lemma WriteKeepsUse(v: Volume, v': Volume)
    requires Layout(v) && SameLayout(v, v') && Formatted(v.p, v'.disk)
    requires forall b | 0 <= b < |v.disk| && IsBitmap(v, b) :: v'.disk[b] == v.disk[b]
    ensures Layout(v')
    ensures forall b: nat :: InUse(v', b) == InUse(v, b)
    ensures v'.groups == v.groups && Counted(v) ==> Counted(v')
  {
    forall g | 0 <= g < |v.groups| ensures BitmapBlock(v', g) == BitmapBlock(v, g) {
      assert IsBitmap(v, v.groups[g].bitmap);
    }
  }

  lemma SameBitmaps(v: Volume, v': Volume, b: nat)
    requires SameLayout(v, v')
    ensures IsBitmap(v', b) == IsBitmap(v, b)
  {
    if IsBitmap(v, b) {
      var g :| 0 <= g < |v.groups| && v.groups[g].bitmap == b;
      assert v'.groups[g].bitmap == b;
    }
    if IsBitmap(v', b) {
      var g :| 0 <= g < |v'.groups| && v'.groups[g].bitmap == b;
      assert v.groups[g].bitmap == b;
    }
  }

  /** What is in use determines the bits, and so the counts. */
  lemma SameUseSameCounts(v: Volume, v': Volume)
    requires Counted(v) && Counted(v') && SameLayout(v, v')
    requires forall b: nat :: InUse(v', b) == InUse(v, b)
    ensures forall g: nat, i: nat | g < |v.groups| && i < v.n :: Taken(v', g, i) == Taken(v, g, i)
    ensures v'.groups == v.groups
  {
    forall g: nat, i: nat | g < |v.groups| && i < v.n ensures Taken(v', g, i) == Taken(v, g, i) {
      NumberSplits(v.n, g, i);
      assert InUse(v', i + g * v.n) == InUse(v, i + g * v.n);
    }
    forall g: nat | g < |v.groups| ensures v'.groups[g] == v.groups[g] {
      var s, s' := Decode(BitmapBlock(v, g))[..v.n], Decode(BitmapBlock(v', g))[..v.n];
      forall i: nat | i < v.n ensures s'[i] == s[i] {
        assert Taken(v', g, i) == Taken(v, g, i);
      }
      assert s' == s;
    }
  }

  lemma {:induction false} SumFreeUpdate(groups: seq<Group>, g: nat, x: Group)
    requires g < |groups|
    ensures SumFree(groups[g := x]) == SumFree(groups) - groups[g].free + x.free
    decreases |groups|
  {
    var n := |groups| - 1;
    if g < n {
      SumFreeUpdate(groups[..n], g, x);
      assert groups[g := x][..n] == groups[..n][g := x];
    } else {
      assert groups[g := x][..n] == groups[..n];
    }
  }

  /** The counts add up to 0 exactly when every group's is 0. */
  lemma {:induction false} NothingFree(groups: seq<Group>)
    requires forall g | 0 <= g < |groups| :: 0 <= groups[g].free
    ensures 0 <= SumFree(groups)
    ensures SumFree(groups) == 0 <==> forall g | 0 <= g < |groups| :: groups[g].free == 0
    decreases |groups|
  {
    if groups != [] {
      NothingFree(groups[..|groups| - 1]);
    }
  }
}
