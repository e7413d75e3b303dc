/** Taking blocks away from the end of a file (free_inode_blocks, src/kernel/fs/ext2fs.c:517-687). */
module Shrinking {
  import opened Bytes
  import opened BlockCounts
  import opened BlockTree
  import opened TreeUpdates
  import opened Growth
  import opened Ranks
  import opened Volumes
  import opened Allocation
  import opened Files
  import opened FileGrowth

  /** Nothing hangs below a position. */
  ghost predicate Bare(p: nat, disk: seq<Block>, root: seq<nat>, pos: Position)
    requires Formatted(p, disk) && |root| == NSLOTS
  {
    forall q | IsPosition(p, q) && 1 < |q| && Parent(q) == pos :: NodeAt(p, disk, root, q) == 0
  }

  /** The tree after 0 is stored at a position without anything below it: only that position changes. */
  lemma {:induction false} DetachNode(p: nat, disk: seq<Block>, root: seq<nat>, pos: Position, q: Position)
    requires Owned(p, disk, root) && IsPosition(p, pos) && Bare(p, disk, root, pos) && IsPosition(p, q)
    requires 1 < |pos| ==> NodeAt(p, disk, root, Parent(pos)) != 0
    ensures NodeAt(p, SlotDisk(p, disk, root, pos, 0), SlotRoot(root, pos, 0), q)
            == if q == pos then 0 else NodeAt(p, disk, root, q)
    decreases |q|
  {
    if |q| == 1 {
      assert q == pos || |pos| > 1 || q[0] != pos[0];
    } else {
      ParentPosition(p, q);
      DetachNode(p, disk, root, pos, Parent(q));
      if Parent(q) != pos {
        var c := NodeAt(p, disk, root, Parent(q));
        if c != 0 && 1 < |pos| {
          ParentPosition(p, pos);
          if NodeAt(p, disk, root, Parent(pos)) == c {
            assert !Apart(Parent(q), Parent(pos));
            SlotsOfBlock(p, disk[c], pos, q, 0);
          }
        }
      }
    }
  }

  lemma DetachTree(p: nat, disk: seq<Block>, root: seq<nat>, pos: Position)
    requires Owned(p, disk, root) && IsPosition(p, pos) && Bare(p, disk, root, pos)
    requires 1 < |pos| ==> NodeAt(p, disk, root, Parent(pos)) != 0
    ensures Owned(p, SlotDisk(p, disk, root, pos, 0), SlotRoot(root, pos, 0))
    ensures forall q | IsPosition(p, q) ::
              NodeAt(p, SlotDisk(p, disk, root, pos, 0), SlotRoot(root, pos, 0), q)
              == if q == pos then 0 else NodeAt(p, disk, root, q)
  {
    forall q | IsPosition(p, q)
      ensures NodeAt(p, SlotDisk(p, disk, root, pos, 0), SlotRoot(root, pos, 0), q)
              == if q == pos then 0 else NodeAt(p, disk, root, q)
    {
      DetachNode(p, disk, root, pos, q);
    }
  }

  lemma FreedTree(v: Volume, root: seq<nat>, b: nat)
    requires BlocksOk(v) && Mapped(v, root) && InUse(v, b) && 0 < b < |v.disk| && !IsBitmap(v, b)
    ensures GroupOf(v.n, b) < |v.groups|
    ensures BlocksOk(Freed(v, b)) && SameLayout(v, Freed(v, b)) && Owned(v.p, Freed(v, b).disk, root)
    ensures forall q | IsPosition(v.p, q) :: NodeAt(v.p, Freed(v, b).disk, root, q) == Node(v, root, q)
    ensures forall c: nat | c < |v.disk| && !IsBitmap(v, c) :: Freed(v, b).disk[c] == v.disk[c]
  {
    FreedOk(v, b);
    var f := Freed(v, b);
    forall c: nat | c < |v.disk| && !IsBitmap(v, c) ensures f.disk[c] == v.disk[c] {
      FreedFrame(v, b, c);
    }
    forall c | 0 <= c < |v.disk| && IsIndexNode(v.p, v.disk, root, c) ensures f.disk[c] == v.disk[c] {
      assert !IsBitmap(v, c);
    }
    TreeFrame(v.p, v.disk, f.disk, root);
  }

  /** The block at pos freed, and its slot cleared. */
  ghost function Dropped(v: Volume, root: seq<nat>, pos: Position): Volume
    requires BlocksOk(v) && Mapped(v, root) && IsPosition(v.p, pos) && Node(v, root, pos) != 0
  {
    FreedTree(v, root, Node(v, root, pos));
    var a := Freed(v, Node(v, root, pos));
    a.(disk := SlotDisk(v.p, a.disk, root, pos, 0))
  }

  /** Exactly the block b was given back, and only the bitmaps and index blocks were written. */
  ghost predicate GivenBack(v: Volume, root: seq<nat>, b: nat, v': Volume)
    requires Mapped(v, root)
  {
    && BlocksOk(v') && SameLayout(v, v')
    && (forall c: nat :: InUse(v', c) == (c != b && InUse(v, c)))
    && (forall c: nat | c < |v.disk| && !IsBitmap(v, c) && !IsIndexNode(v.p, v.disk, root, c) ::
       v'.disk[c] == v.disk[c])
    && SumFree(v'.groups) == SumFree(v.groups) + 1
  }

  /** The trees differ exactly at pos, where nothing is left. */
  ghost predicate Cleared(v: Volume, root: seq<nat>, pos: Position, v': Volume, root': seq<nat>)
    requires Mapped(v, root) && Mapped(v', root') && v'.p == v.p
  {
    forall q | IsPosition(v.p, q) :: Node(v', root', q) == if q == pos then 0 else Node(v, root, q)
  }

  /** What dropping the block at pos changes: that position, and that its block is free again. */
  ghost predicate DropStep(v: Volume, root: seq<nat>, pos: Position, v': Volume, root': seq<nat>)
    requires Mapped(v, root) && IsPosition(v.p, pos)
  {
    && v'.p == v.p && Mapped(v', root')
    && Cleared(v, root, pos, v', root')
    && GivenBack(v, root, Node(v, root, pos), v')
  }

  lemma DropNodes(v: Volume, root: seq<nat>, pos: Position)
    requires BlocksOk(v) && Mapped(v, root) && IsPosition(v.p, pos) && Node(v, root, pos) != 0
    requires Bare(v.p, v.disk, root, pos)
    ensures var d, root' := Dropped(v, root, pos), SlotRoot(root, pos, 0);
            && d.p == v.p && Owned(v.p, d.disk, root')
            && (forall q | IsPosition(v.p, q) ::
                  NodeAt(v.p, d.disk, root', q) == if q == pos then 0 else Node(v, root, q))
  {
    FreedTree(v, root, Node(v, root, pos));
    hide BlocksOk, InUse, IsBitmap;
    if 1 < |pos| {
      ParentPosition(v.p, pos);
    }
    DetachTree(v.p, Freed(v, Node(v, root, pos)).disk, root, pos);
  }

  lemma DropUse(v: Volume, root: seq<nat>, pos: Position)
    requires BlocksOk(v) && Mapped(v, root) && IsPosition(v.p, pos) && Node(v, root, pos) != 0
    ensures GivenBack(v, root, Node(v, root, pos), Dropped(v, root, pos))
  {
    var b := Node(v, root, pos);
    FreedOk(v, b);
    FreedTree(v, root, b);
    var f, d := Freed(v, b), Dropped(v, root, pos);
    if 1 < |pos| {
      ParentPosition(v.p, pos);
      assert Node(v, root, Parent(pos)) != 0 ==> IsIndexNode(v.p, v.disk, root, Node(v, root, Parent(pos)));
    }
    assert forall c: nat | c < |v.disk| && d.disk[c] != f.disk[c] :: IsIndexNode(v.p, v.disk, root, c);
    IndexesWritten(v, root, f, d);
  }

  lemma IndexesWritten(v: Volume, root: seq<nat>, f: Volume, d: Volume)
    requires Mapped(v, root) && BlocksOk(f) && SameLayout(v, f) && SameLayout(v, d) && Formatted(v.p, d.disk)
    requires d.groups == f.groups
    requires forall c: nat | c < |v.disk| && d.disk[c] != f.disk[c] :: IsIndexNode(v.p, v.disk, root, c)
    ensures BlocksOk(d) && forall c: nat :: InUse(d, c) == InUse(f, c)
  {
    forall c: nat ensures IsBitmap(f, c) == IsBitmap(v, c) && IsBitmap(d, c) == IsBitmap(v, c) {
      SameBitmaps(v, f, c);
      SameBitmaps(v, d, c);
    }
    WriteKeepsUse(f, d);
  }

  lemma DropMapped(v: Volume, root: seq<nat>, pos: Position, d: Volume, root': seq<nat>)
    requires Mapped(v, root) && IsPosition(v.p, pos) && Layout(d) && SameLayout(v, d) && Owned(v.p, d.disk, root')
    requires forall q | IsPosition(v.p, q) :: NodeAt(v.p, d.disk, root', q) == if q == pos then 0 else Node(v, root, q)
    requires GivenBack(v, root, Node(v, root, pos), d)
    ensures Mapped(d, root') && Cleared(v, root, pos, d, root')
  {
    hide InUse, IsBitmap;
    forall q | IsPosition(v.p, q) && Node(d, root', q) != 0
      ensures InUse(d, Node(d, root', q)) && !IsBitmap(d, Node(d, root', q))
    {
      assert Apart(q, pos);
      SameBitmaps(v, d, Node(d, root', q));
    }
  }

  lemma DropWorks(v: Volume, root: seq<nat>, pos: Position)
    requires BlocksOk(v) && Mapped(v, root) && IsPosition(v.p, pos) && Node(v, root, pos) != 0
    requires Bare(v.p, v.disk, root, pos)
    ensures DropStep(v, root, pos, Dropped(v, root, pos), SlotRoot(root, pos, 0))
  {
    DropNodes(v, root, pos);
    DropUse(v, root, pos);
    GivenShape(v, root, Node(v, root, pos), Dropped(v, root, pos));
    hide BlocksOk, Mapped, Dropped, Owned, GivenBack, Cleared, NodeAt;
    DropMapped(v, root, pos, Dropped(v, root, pos), SlotRoot(root, pos, 0));
  }

  lemma GivenShape(v: Volume, root: seq<nat>, b: nat, v': Volume)
    requires Mapped(v, root) && GivenBack(v, root, b, v')
    ensures BlocksOk(v') && Layout(v') && SameLayout(v, v')
  {
  }

  /** Exactly the first t real blocks are there. */
  ghost predicate Trimmed(v: Volume, root: seq<nat>, t: nat)
    requires Mapped(v, root)
  {
    && t <= AllRanks(v.p)
    && forall q | IsPosition(v.p, q) :: Node(v, root, q) != 0 <==> Rank(v.p, q) < t
  }

  /** Being grown to n and being trimmed to its block count is the same. */
  lemma GrownIsTrimmed(v: Volume, root: seq<nat>, n: nat)
    requires Mapped(v, root) && n <= MaxBlocks(v.p)
    ensures Grown(v.p, v.disk, root, n) <==> Trimmed(v, root, TotalBlocks(v.p, n))
  {
    TotalMonotone(v.p, n, MaxBlocks(v.p));
    forall q | IsPosition(v.p, q) ensures FirstOffset(v.p, q) < n <==> Rank(v.p, q) < TotalBlocks(v.p, n) {
      RankInOrder(v.p, n, q);
    }
  }

  /** The last real block has nothing below it. */
  lemma LastIsBare(v: Volume, root: seq<nat>, t: nat)
    requires Mapped(v, root) && Trimmed(v, root, t) && 0 < t
    ensures IsPosition(v.p, RankPosition(v.p, t - 1)) && Node(v, root, RankPosition(v.p, t - 1)) != 0
    ensures Bare(v.p, v.disk, root, RankPosition(v.p, t - 1))
    ensures t <= AllRanks(v.p)
  {
    hide Rank, RankPosition, NodeAt, BlocksOk, InUse;
    RankedPosition(v.p, t - 1);
    forall q | IsPosition(v.p, q) && 1 < |q| && Parent(q) == RankPosition(v.p, t - 1) ensures Node(v, root, q) == 0 {
      ParentRank(v.p, q);
    }
  }

  /** From t to t' real blocks: every dropped block is free again, and nothing else changed. */
  ghost predicate Trims(v: Volume, root: seq<nat>, v': Volume, root': seq<nat>, t: nat, t': nat)
    requires Mapped(v, root)
  {
    && t' <= t
    && BlocksOk(v') && Mapped(v', root') && SameLayout(v, v')
    && SumFree(v'.groups) == SumFree(v.groups) + (t - t')
    && TreeTrimmed(v, root, v', root', t')
    && UseTrimmed(v, root, v', t')
    && (forall c: nat | c < |v.disk| && !IsBitmap(v, c) && !IsIndexNode(v.p, v.disk, root, c) ::
       v'.disk[c] == v.disk[c])
  }

  ghost predicate TreeTrimmed(v: Volume, root: seq<nat>, v': Volume, root': seq<nat>, t': nat)
    requires Mapped(v, root) && Mapped(v', root') && v'.p == v.p
  {
    forall q | IsPosition(v.p, q) :: Node(v', root', q) == if Rank(v.p, q) < t' then Node(v, root, q) else 0
  }

  ghost predicate UseTrimmed(v: Volume, root: seq<nat>, v': Volume, t': nat)
    requires Mapped(v, root) && Layout(v')
  {
    && (forall c: nat | InUse(v', c) :: InUse(v, c))
    && (forall c: nat | InUse(v, c) && !InUse(v', c) :: IsNode(v.p, v.disk, root, c))
    && (forall q | IsPosition(v.p, q) && t' <= Rank(v.p, q) && Node(v, root, q) != 0 :: !InUse(v', Node(v, root, q)))
  }

  lemma TrimsNothing(v: Volume, root: seq<nat>, t: nat)
    requires BlocksOk(v) && Mapped(v, root) && Trimmed(v, root, t)
    ensures Trims(v, root, v, root, t, t)
  {
  }

  lemma TreeTrimmedStep(v: Volume, root: seq<nat>, v1: Volume, root1: seq<nat>, t1: nat, v2: Volume, root2: seq<nat>)
    requires Mapped(v, root) && Mapped(v1, root1) && Mapped(v2, root2) && v1.p == v.p && v2.p == v.p
    requires 0 < t1 <= AllRanks(v.p) && TreeTrimmed(v, root, v1, root1, t1)
    requires Cleared(v1, root1, RankPosition(v.p, t1 - 1), v2, root2)
    ensures TreeTrimmed(v, root, v2, root2, t1 - 1)
  {
    hide Rank, RankPosition, NodeAt, BlocksOk, InUse;
    RankedPosition(v.p, t1 - 1);
    forall q | IsPosition(v.p, q)
      ensures Node(v2, root2, q) == if Rank(v.p, q) < t1 - 1 then Node(v, root, q) else 0
    {
      if Rank(v.p, q) == t1 - 1 {
        RankOnlyOf(v.p, t1 - 1, q);
      }
    }
  }

  lemma UseTrimmedStep(v: Volume, root: seq<nat>, v1: Volume, root1: seq<nat>, t1: nat, v2: Volume)
    requires Mapped(v, root) && Mapped(v1, root1) && v1.p == v.p
    requires 0 < t1 <= AllRanks(v.p) && TreeTrimmed(v, root, v1, root1, t1) && UseTrimmed(v, root, v1, t1)
    requires IsPosition(v.p, RankPosition(v.p, t1 - 1)) && Node(v1, root1, RankPosition(v.p, t1 - 1)) != 0
    requires GivenBack(v1, root1, Node(v1, root1, RankPosition(v.p, t1 - 1)), v2)
    ensures UseTrimmed(v, root, v2, t1 - 1)
  {
    RankedPosition(v.p, t1 - 1);
    var pos := RankPosition(v.p, t1 - 1);
    GivenShape(v1, root1, Node(v1, root1, pos), v2);
    hide InUse, BlocksOk;
    assert Node(v1, root1, pos) == Node(v, root, pos);
    assert IsNode(v.p, v.disk, root, Node(v, root, pos));
    forall q | IsPosition(v.p, q) && t1 - 1 <= Rank(v.p, q) && Node(v, root, q) != 0
      ensures !InUse(v2, Node(v, root, q))
    {
      if Rank(v.p, q) == t1 - 1 {
        RankOnlyOf(v.p, t1 - 1, q);
      }
    }
  }

  /** One more block dropped. */
  lemma TrimsOneMore(v: Volume, root: seq<nat>, t: nat, v1: Volume, root1: seq<nat>, t1: nat, v2: Volume,
                     root2: seq<nat>)
    requires Mapped(v, root) && 0 < t1 <= AllRanks(v.p) && Trims(v, root, v1, root1, t, t1)
    requires IsPosition(v.p, RankPosition(v.p, t1 - 1)) && Node(v1, root1, RankPosition(v.p, t1 - 1)) != 0
    requires DropStep(v1, root1, RankPosition(v.p, t1 - 1), v2, root2)
    ensures Trims(v, root, v2, root2, t, t1 - 1)
  {
    hide InUse, UseTrimmed, Cleared, TreeTrimmed, BlocksOk, Mapped, IsIndexNode, IsBitmap, NodeAt, SumFree, Layout,
         RankPosition;
    MappedShape(v, root);
    MappedShape(v1, root1);
    MappedShape(v2, root2);
    TreeTrimmedStep(v, root, v1, root1, t1, v2, root2);
    UseTrimmedStep(v, root, v1, root1, t1, v2);
    forall c: nat | c < |v.disk| && !IsBitmap(v, c) && !IsIndexNode(v.p, v.disk, root, c)
      ensures v2.disk[c] == v.disk[c]
    {
      SameBitmaps(v, v1, c);
      NoNewIndex(v, root, v1, root1, t1, c);
    }
  }

  lemma NoNewIndex(v: Volume, root: seq<nat>, v1: Volume, root1: seq<nat>, t1: nat, c: nat)
    requires Mapped(v, root) && Mapped(v1, root1) && v1.p == v.p && TreeTrimmed(v, root, v1, root1, t1)
    requires !IsIndexNode(v.p, v.disk, root, c)
    ensures !IsIndexNode(v1.p, v1.disk, root1, c)
  {
    if c != 0 {
      forall q | IsPosition(v.p, q) && !IsLeaf(v.p, q) ensures Node(v1, root1, q) != c {
        assert Node(v, root, q) != c;
      }
    }
  }

  /** A block held by a slot of i_block: freeing it is freeing the block and clearing the slot. */
  lemma DropSlot(v: Volume, root: seq<nat>, slot: nat)
    requires BlocksOk(v) && Mapped(v, root) && IsPosition(v.p, [slot]) && Node(v, root, [slot]) != 0
    ensures Layout(v) && |root| == NSLOTS && 0 < root[slot] && GroupOf(v.n, root[slot]) < |v.groups|
    ensures Dropped(v, root, [slot]) == Freed(v, root[slot])
    ensures SlotRoot(root, [slot], 0) == root[slot := 0]
  {
    FreedTree(v, root, Node(v, root, [slot]));
  }

  /** A block held by index block s: its pointer is read before the bitmap changes, and cleared after. */
  lemma DropPointer(v: Volume, root: seq<nat>, pos: Position, par: Position, s: nat)
    requires BlocksOk(v) && Mapped(v, root) && IsPosition(v.p, pos) && 1 < |pos| && Node(v, root, pos) != 0
    requires par == Parent(pos) && IsPosition(v.p, par) && s == Node(v, root, par)
    ensures Layout(v) && 0 < s < |v.disk| && |v.disk[s]| == 4 * v.p && Last(pos) < v.p
    ensures var b := Pointer(v.p, v.disk[s], Last(pos));
            && 0 < b && GroupOf(v.n, b) < |v.groups| && |Freed(v, b).disk| == |v.disk|
            && Dropped(v, root, pos)
               == Freed(v, b).(disk := Freed(v, b).disk[s := PutPointer(v.p, v.disk[s], Last(pos), 0)])
    ensures SlotRoot(root, pos, 0) == root
  {
    FreedTree(v, root, Node(v, root, pos));
    ParentPosition(v.p, pos);
    assert IsIndexNode(v.p, v.disk, root, s);
    hide Mapped, InUse;
  }

  lemma ParentIsThere(v: Volume, root: seq<nat>, pos: Position)
    requires Mapped(v, root) && IsPosition(v.p, pos) && 1 < |pos| && Node(v, root, pos) != 0
    ensures IsPosition(v.p, Parent(pos)) && Node(v, root, Parent(pos)) != 0
  {
  }

  /** Every block above one that is there is there. */
  lemma {:induction false} AboveIsThere(v: Volume, root: seq<nat>, pos: Position, above: Position)
    requires Mapped(v, root) && IsPosition(v.p, pos) && Node(v, root, pos) != 0
    requires 0 < |above| <= |pos| && pos[..|above|] == above
    ensures IsPosition(v.p, above) && Node(v, root, above) != 0
    decreases |pos|
  {
    if |above| < |pos| {
      ParentIsThere(v, root, pos);
      assert Parent(pos)[..|above|] == above;
      AboveIsThere(v, root, Parent(pos), above);
    } else {
      assert above == pos;
    }
  }

  /** What free_inode_block finds on the way to a block below the triple-indirect one. */
  lemma TripleParts(v: Volume, root: seq<nat>, off: nat, pos: Position)
    requires Mapped(v, root) && TripleRank(v.p) < off && pos == FreedPosition(v.p, off)
    requires IsPosition(v.p, pos) && Node(v, root, pos) != 0
    ensures var a := off - TripleRank(v.p) - 1;
            var b, rest := a / DoubleTrees(v.p), a % DoubleTrees(v.p);
            && 0 <= b && IsPosition(v.p, [TIND]) && IsPosition(v.p, [TIND, b]) && Parent([TIND, b]) == [TIND]
            && Node(v, root, [TIND]) != 0 && Node(v, root, [TIND, b]) != 0
            && (if rest == 0 then pos == [TIND, b] else pos == FreedBelow(v.p, [TIND, b], rest - 1))
  {
    var a := off - TripleRank(v.p) - 1;
    var b: nat, rest := a / DoubleTrees(v.p), a % DoubleTrees(v.p);
    if rest != 0 {
      FreedStarts(v.p, [TIND, b], rest - 1);
    }
    hide Mapped, NodeAt, FreedPosition, FreedBelow;
    assert [TIND, b][..1] == [TIND];
    AboveIsThere(v, root, pos, [TIND, b]);
    AboveIsThere(v, root, [TIND, b], [TIND]);
  }

  lemma SlotRootDeep(root: seq<nat>, pos: Position)
    requires |root| == NSLOTS && 1 < |pos| && pos[0] < NSLOTS
    ensures SlotRoot(root, pos, 0) == root
  {
  }

  /** What the caller of free_inode_blocks sees: the file has its first k content blocks left, the free
      count grew by the difference of the block counts, and no foreign block was touched. */
  ghost predicate Shrank(v: Volume, root: seq<nat>, n: nat, v': Volume, root': seq<nat>, k: nat)
    requires FileOk(v, root, n)
  {
    && FileOk(v', root', k) && k <= n && v'.p == v.p
    && SumFree(v'.groups) == SumFree(v.groups) + (TotalBlocks(v.p, n) - TotalBlocks(v.p, k))
    && (forall o: nat :: Content(v', root', o) == if o < k then Content(v, root, o) else Zeros(4 * v.p))
    && OthersUntouched(v, root, v', root')
  }

  lemma TrimmedContent(v: Volume, root: seq<nat>, n: nat, v': Volume, root': seq<nat>, k: nat, o: nat)
    requires FileOk(v, root, n) && k <= n <= MaxBlocks(v.p)
    requires Trims(v, root, v', root', TotalBlocks(v.p, n), TotalBlocks(v.p, k))
    ensures Content(v', root', o) == if o < k then Content(v, root, o) else Zeros(4 * v.p)
  {
    if o < MaxBlocks(v.p) {
      PathIsLeaf(v.p, o);
      var q := Path(v.p, o);
      RankInOrder(v.p, k, q);
      LeafIsNoIndex(v, root, q);
      MappedBelow(v, root, n, o);
    }
  }

  lemma TrimmedOthers(v: Volume, root: seq<nat>, v': Volume, root': seq<nat>, t: nat, t': nat)
    requires Mapped(v, root) && Trims(v, root, v', root', t, t')
    ensures OthersUntouched(v, root, v', root')
  {
    forall c: nat | Foreign(v, root, c) ensures c < |v.disk| && Foreign(v', root', c) && v'.disk[c] == v.disk[c] {
      SameBitmaps(v, v', c);
      if c != 0 {
        forall q | IsPosition(v.p, q) ensures Node(v', root', q) != c {
          assert Node(v, root, q) != c;
        }
      }
    }
  }

  lemma TrimsShrinks(v: Volume, root: seq<nat>, n: nat, v': Volume, root': seq<nat>, k: nat)
    requires FileOk(v, root, n) && k <= n <= MaxBlocks(v.p)
    requires Trims(v, root, v', root', TotalBlocks(v.p, n), TotalBlocks(v.p, k))
    ensures Shrank(v, root, n, v', root', k)
  {
    GrownIsTrimmed(v, root, n);
    GrownIsTrimmed(v', root', k);
    TotalMonotone(v.p, k, n);
    TrimmedOthers(v, root, v', root', TotalBlocks(v.p, n), TotalBlocks(v.p, k));
    forall o: nat ensures Content(v', root', o) == if o < k then Content(v, root, o) else Zeros(4 * v.p) {
      TrimmedContent(v, root, n, v', root', k, o);
    }
    hide InUse, IsBitmap, Content, UseTrimmed, OthersUntouched;
  }

  lemma ShrankIsFile(v: Volume, root: seq<nat>, n: nat, v': Volume, root': seq<nat>, k: nat)
    requires FileOk(v, root, n) && Shrank(v, root, n, v', root', k)
    ensures FileOk(v', root', k)
  {
  }

  lemma FileTrimmed(v: Volume, root: seq<nat>, n: nat)
    requires FileOk(v, root, n) && n <= MaxBlocks(v.p)
    ensures Mapped(v, root) && Trimmed(v, root, TotalBlocks(v.p, n))
  {
    GrownIsTrimmed(v, root, n);
  }

  lemma TrimsKeepTrimmed(v: Volume, root: seq<nat>, v': Volume, root': seq<nat>, t: nat, t': nat)
    requires Mapped(v, root) && Trimmed(v, root, t) && Trims(v, root, v', root', t, t')
    ensures BlocksOk(v') && Mapped(v', root') && v'.p == v.p && Trimmed(v', root', t')
  {
    hide BlocksOk, InUse, UseTrimmed;
  }

  /** Growing a short file and then cutting it back gives the allocator back what it had: the same blocks
      are in use and the file has the same blocks. */
  lemma GrowThenShrink(v: Volume, root: seq<nat>, k: nat, v1: Volume, root1: seq<nat>, n: nat, v2: Volume,
                       root2: seq<nat>)
    requires FileOk(v, root, k) && k <= n <= MaxBlocks(v.p)
    requires Evolved(v, root, k, v1, root1, n)
    requires Trims(v1, root1, v2, root2, TotalBlocks(v.p, n), TotalBlocks(v.p, k))
    ensures Mapped(v2, root2) && v2.p == v.p
    ensures forall q | IsPosition(v.p, q) :: Node(v2, root2, q) == Node(v, root, q)
    ensures forall b: nat :: InUse(v2, b) == InUse(v, b)
    ensures v2.groups == v.groups
    ensures forall g: nat, i: nat | g < |v.groups| && i < v.n :: Taken(v2, g, i) == Taken(v, g, i)
  {
    GrownIsTrimmed(v, root, k);
    forall q | IsPosition(v.p, q) ensures Node(v2, root2, q) == Node(v, root, q) {
      assert Node(v, root, q) != 0 ==> Node(v1, root1, q) == Node(v, root, q);
    }
    forall b: nat ensures InUse(v2, b) == InUse(v, b) {
      GrowShrinkUse(v, root, k, v1, root1, n, v2, root2, b);
    }
    SameUseSameCounts(v, v2);
  }

  /** A block of the tree that stays in the tree stays in use. */
  lemma NodeStaysInUse(v: Volume, root: seq<nat>, v2: Volume, root2: seq<nat>, b: nat)
    requires Mapped(v, root) && Mapped(v2, root2) && v2.p == v.p
    requires forall q | IsPosition(v.p, q) :: Node(v2, root2, q) == Node(v, root, q)
    requires IsNode(v.p, v.disk, root, b)
    ensures InUse(v2, b)
  {
    hide InUse, IsBitmap;
    var q :| IsPosition(v.p, q) && Node(v, root, q) == b;
    assert Node(v2, root2, q) == b;
  }

  /** A block of another file stays in use. */
  lemma ForeignStaysInUse(v: Volume, root: seq<nat>, v1: Volume, root1: seq<nat>, v2: Volume, t: nat, b: nat)
    requires Mapped(v, root) && Mapped(v1, root1) && Layout(v2)
    requires OthersUntouched(v, root, v1, root1) && UseTrimmed(v1, root1, v2, t)
    requires Foreign(v, root, b)
    ensures InUse(v2, b)
  {
    hide InUse, IsBitmap, IsNode, Mapped, Layout;
    assert Foreign(v1, root1, b);
  }

  /** What no operation gives away stays in use: bitmaps, and numbers behind the end of the disk. */
  lemma ReservedStaysInUse(v: Volume, v2: Volume, b: nat)
    requires BlocksOk(v) && BlocksOk(v2) && SameLayout(v, v2)
    requires |v.disk| <= b || IsBitmap(v, b)
    ensures InUse(v2, b)
  {
    hide InUse, Counted;
    SameBitmaps(v, v2, b);
  }

  lemma UntouchedLayout(v: Volume, root: seq<nat>, v': Volume, root': seq<nat>)
    requires Mapped(v, root) && Mapped(v', root') && OthersUntouched(v, root, v', root')
    ensures SameLayout(v, v')
  {
    hide Mapped, Foreign;
  }

  /** What is in use at the end was in use at the start. */
  lemma NothingGained(v: Volume, root: seq<nat>, v1: Volume, root1: seq<nat>, v2: Volume, root2: seq<nat>, t: nat,
                      b: nat)
    requires Mapped(v, root) && Mapped(v1, root1) && Mapped(v2, root2) && v1.p == v.p && v2.p == v.p
    requires NoLeak(v, v1, root1)
    requires UseTrimmed(v1, root1, v2, t) && TreeTrimmed(v1, root1, v2, root2, t)
    requires forall q | IsPosition(v.p, q) :: Node(v2, root2, q) == Node(v, root, q)
    requires InUse(v2, b)
    ensures InUse(v, b)
  {
    hide InUse, IsBitmap;
    if IsNode(v1.p, v1.disk, root1, b) {
      var q :| IsPosition(v1.p, q) && Node(v1, root1, q) == b;
      assert Rank(v.p, q) < t;
      assert Node(v2, root2, q) == b;
    }
  }

  lemma GrowShrinkUse(v: Volume, root: seq<nat>, k: nat, v1: Volume, root1: seq<nat>, n: nat, v2: Volume,
                      root2: seq<nat>, b: nat)
    requires FileOk(v, root, k) && k <= n <= MaxBlocks(v.p)
    requires Evolved(v, root, k, v1, root1, n)
    requires Trims(v1, root1, v2, root2, TotalBlocks(v.p, n), TotalBlocks(v.p, k))
    requires Mapped(v2, root2) && v2.p == v.p
    requires forall q | IsPosition(v.p, q) :: Node(v2, root2, q) == Node(v, root, q)
    ensures InUse(v2, b) == InUse(v, b)
  {
    hide FileOk, Mapped, BlocksOk, NoLeak, NodesKept, OthersUntouched, UseTrimmed, TreeTrimmed, InUse, IsBitmap,
         IsNode, TotalBlocks, SumFree, Layout, IsIndexNode, NodeAt;
    MappedOf(v, root, k);
    MappedOf(v1, root1, n);
    MappedShape(v, root);
    MappedShape(v2, root2);
    UntouchedLayout(v, root, v1, root1);
    if InUse(v2, b) {
      NothingGained(v, root, v1, root1, v2, root2, TotalBlocks(v.p, k), b);
    } else if IsNode(v.p, v.disk, root, b) {
      NodeStaysInUse(v, root, v2, root2, b);
    } else if |v.disk| <= b || IsBitmap(v, b) {
      ReservedStaysInUse(v, v2, b);
    } else if InUse(v, b) {
      ForeignStaysInUse(v, root, v1, root1, v2, TotalBlocks(v.p, k), b);
    }
  }
}
