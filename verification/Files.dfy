/** An inode's tree inside a volume: what allocating, attaching and writing blocks do to both. */
module Files {
  import opened Bytes
  import opened BlockCounts
  import opened BlockTree
  import opened TreeUpdates
  import opened Growth
  import opened Volumes
  import opened Allocation

  /** The tree of root lies in the volume: its blocks are different, in use, and no bitmaps. */
  ghost predicate Mapped(v: Volume, root: seq<nat>) {
    && Layout(v)
    && Owned(v.p, v.disk, root)
    && (forall pos {:trigger NodeAt(v.p, v.disk, root, pos)} | IsPosition(v.p, pos)
       && NodeAt(v.p, v.disk, root, pos) != 0 ::
          InUse(v, NodeAt(v.p, v.disk, root, pos)) && !IsBitmap(v, NodeAt(v.p, v.disk, root, pos)))
  }

  ghost function Node(v: Volume, root: seq<nat>, pos: Position): nat
    requires Formatted(v.p, v.disk) && |root| == NSLOTS && IsPosition(v.p, pos)
  {
    NodeAt(v.p, v.disk, root, pos)
  }

  /** Only free blocks, bitmaps and index blocks of this tree may have changed, and nothing was freed. */
  ghost predicate Keeps(v: Volume, root: seq<nat>, v': Volume)
    requires Mapped(v, root)
  {
    && Layout(v')
    && SameLayout(v, v')
    && (forall b: nat | InUse(v, b) :: InUse(v', b))
    && (forall b: nat | b < |v.disk| && InUse(v, b) && !IsBitmap(v, b) && !IsIndexNode(v.p, v.disk, root, b) ::
          v'.disk[b] == v.disk[b])
  }

  /** The tree differs at most at pos, where there is a block now: the old one, or one that was free. */
  ghost predicate Ensured(v: Volume, root: seq<nat>, v': Volume, root': seq<nat>, pos: Position)
    requires Mapped(v, root) && Mapped(v', root') && v'.p == v.p
  {
    && (forall q | IsPosition(v.p, q) && q != pos :: Node(v', root', q) == Node(v, root, q))
    && (IsPosition(v.p, pos) ==>
          && Node(v', root', pos) != 0
          && (Node(v, root, pos) != 0 ==> Node(v', root', pos) == Node(v, root, pos))
          && (Node(v, root, pos) == 0 ==> !InUse(v, Node(v', root', pos))))
  }

  /** Whatever came into use is a block of the tree. */
  ghost predicate NoLeak(v: Volume, v': Volume, root': seq<nat>)
    requires Layout(v) && Mapped(v', root')
  {
    forall b: nat | InUse(v', b) && !InUse(v, b) :: IsNode(v'.p, v'.disk, root', b)
  }

  /** Allocating a block leaves the tree alone. */
  lemma AllocKeepsTree(v: Volume, root: seq<nat>, b: nat)
    requires Mapped(v, root) && BlocksOk(v) && !InUse(v, b)
    ensures b < |v.disk| && GroupOf(v.n, b) < |v.groups|
    ensures Mapped(Allocated(v, b), root)
    ensures forall q | IsPosition(v.p, q) :: Node(Allocated(v, b), root, q) == Node(v, root, q)
    ensures !IsNode(v.p, Allocated(v, b).disk, root, b)
    ensures Keeps(v, root, Allocated(v, b))
  {
    AllocatedOk(v, b);
    var a := Allocated(v, b);
    forall c: nat | c < |v.disk| && InUse(v, c) && !IsBitmap(v, c) ensures a.disk[c] == v.disk[c] {
      AllocatedFrame(v, b, c);
    }
    forall c: nat | c < |v.disk| && IsIndexNode(v.p, v.disk, root, c) ensures a.disk[c] == v.disk[c] {
      AllocatedFrame(v, b, c);
    }
    TreeFrame(v.p, v.disk, a.disk, root);
    forall c: nat ensures IsBitmap(a, c) == IsBitmap(v, c) {
      SameBitmaps(v, a, c);
    }
  }

  /** The volume after storing pointer x at a position. */
  ghost function Stored(v: Volume, root: seq<nat>, pos: Position, x: nat): Volume
    requires Mapped(v, root) && IsPosition(v.p, pos)
  {
    v.(disk := SlotDisk(v.p, v.disk, root, pos, x))
  }

  /** Storing a block that is in use at a position keeps the tree mapped. */
  lemma StoreKeeps(v: Volume, root: seq<nat>, pos: Position, x: nat)
    requires Mapped(v, root) && CanAttach(v.p, v.disk, root, pos, x)
    requires InUse(v, x) && !IsBitmap(v, x)
    ensures Mapped(Stored(v, root, pos, x), SlotRoot(root, pos, x))
    ensures forall q | IsPosition(v.p, q) ::
              Node(Stored(v, root, pos, x), SlotRoot(root, pos, x), q) == if q == pos then x else Node(v, root, q)
    ensures Keeps(v, root, Stored(v, root, pos, x))
    ensures forall b: nat :: InUse(Stored(v, root, pos, x), b) == InUse(v, b)
    ensures BlocksOk(v) ==> BlocksOk(Stored(v, root, pos, x))
  {
    var s := Stored(v, root, pos, x);
    AttachTree(v.p, v.disk, root, pos, x);
    if 1 < |pos| {
      ParentPosition(v.p, pos);
      var b := Node(v, root, Parent(pos));
      assert IsIndexNode(v.p, v.disk, root, b);
      assert s.disk == v.disk[b := s.disk[b]];
    }
    WriteKeepsUse(v, s);
    forall c: nat ensures IsBitmap(s, c) == IsBitmap(v, c) {
      SameBitmaps(v, s, c);
    }
  }

  /** Index positions of the later tree hold what they held, or blocks that were free before. */
  ghost predicate FreshIndexes(v: Volume, root: seq<nat>, v': Volume, root': seq<nat>)
    requires Mapped(v, root) && Mapped(v', root') && v'.p == v.p
  {
    forall q | IsPosition(v.p, q) && !IsLeaf(v.p, q) ::
      Node(v', root', q) == Node(v, root, q) || Node(v', root', q) == 0 || !InUse(v, Node(v', root', q))
  }

  lemma KeepsTransitive(v: Volume, root: seq<nat>, v1: Volume, root1: seq<nat>, v2: Volume)
    requires Mapped(v, root) && Mapped(v1, root1)
    requires Keeps(v, root, v1) && Keeps(v1, root1, v2)
    requires FreshIndexes(v, root, v1, root1)
    ensures Keeps(v, root, v2)
  {
    forall b: nat | b < |v.disk| && InUse(v, b) && !IsBitmap(v, b) && !IsIndexNode(v.p, v.disk, root, b)
      ensures v2.disk[b] == v.disk[b]
    {
      SameBitmaps(v, v1, b);
      if b != 0 {
        forall q | IsPosition(v.p, q) && !IsLeaf(v.p, q) ensures Node(v1, root1, q) != b {
          assert Node(v, root, q) != b;
        }
      }
    }
  }

  /** One index block of a path ensured, at the cost of one free block when it was missing. */
  ghost predicate IndexStep(v: Volume, root: seq<nat>, v': Volume, root': seq<nat>, pos: Position)
    requires Mapped(v, root) && IsPosition(v.p, pos)
  {
    && Mapped(v', root') && v'.p == v.p
    && Ensured(v, root, v', root', pos)
    && NoLeak(v, v', root')
    && Keeps(v, root, v')
    && FreshIndexes(v, root, v', root')
    && SumFree(v'.groups) == SumFree(v.groups) - (if Node(v, root, pos) == 0 then 1 else 0)
  }

  /** The volume and the tree after a free block b became the index block at pos. */
  ghost function WithIndex(v: Volume, root: seq<nat>, pos: Position, b: nat): Volume
    requires Mapped(v, root) && BlocksOk(v) && !InUse(v, b) && IsPosition(v.p, pos)
  {
    AllocKeepsTree(v, root, b);
    Stored(Allocated(v, b), root, pos, b)
  }

  lemma AddIndex(v: Volume, root: seq<nat>, pos: Position, b: nat)
    requires Mapped(v, root) && BlocksOk(v) && !InUse(v, b)
    requires IsPosition(v.p, pos) && !IsLeaf(v.p, pos) && Node(v, root, pos) == 0
    requires 1 < |pos| ==> Node(v, root, Parent(pos)) != 0
    ensures BlocksOk(WithIndex(v, root, pos, b))
    ensures Node(WithIndex(v, root, pos, b), SlotRoot(root, pos, b), pos) == b
    ensures IndexStep(v, root, WithIndex(v, root, pos, b), SlotRoot(root, pos, b), pos)
  {
    AllocatedOk(v, b);
    AllocKeepsTree(v, root, b);
    AllocatedFrame(v, b, b);
    var a := Allocated(v, b);
    if 1 < |pos| {
      ParentPosition(v.p, pos);
    }
    assert CanAttach(a.p, a.disk, root, pos, b);
    StoreKeeps(a, root, pos, b);
    KeepsTransitive(v, root, a, root, Stored(a, root, pos, b));
    assert Node(Stored(a, root, pos, b), SlotRoot(root, pos, b), pos) == b;
  }

  lemma IndexThere(v: Volume, root: seq<nat>, pos: Position)
    requires Mapped(v, root) && IsPosition(v.p, pos) && Node(v, root, pos) != 0
    ensures IndexStep(v, root, v, root, pos)
  {
  }

  ghost predicate PathNodes(v: Volume, root: seq<nat>, v': Volume, root': seq<nat>, path: Position, k: nat)
    requires Mapped(v, root) && Mapped(v', root') && v'.p == v.p
  {
    && (forall q | IsPosition(v.p, q) && !(q <= path && |q| <= k) :: Node(v', root', q) == Node(v, root, q))
    && (forall q | IsPosition(v.p, q) && q <= path && |q| <= k ::
          && Node(v', root', q) != 0
          && (Node(v, root, q) != 0 ==> Node(v', root', q) == Node(v, root, q)))
  }

  /** The first k index blocks of a path ensured; everything else in the tree is as it was. */
  ghost predicate PathEnsured(v: Volume, root: seq<nat>, v': Volume, root': seq<nat>, path: Position, k: nat)
    requires Mapped(v, root) && IsPosition(v.p, path) && k <= |path|
  {
    && Mapped(v', root') && v'.p == v.p
    && NoLeak(v, v', root')
    && Keeps(v, root, v')
    && FreshIndexes(v, root, v', root')
    && SumFree(v'.groups) == SumFree(v.groups) - Missing(v.p, v.disk, root, path, k)
    && PathNodes(v, root, v', root', path, k)
  }

  lemma PrefixPosition(p: nat, path: Position, k: nat)
    requires IsPosition(p, path) && 1 <= k <= |path|
    ensures IsPosition(p, path[..k]) && path[..k] <= path
    ensures k < |path| ==> !IsLeaf(p, path[..k])
    ensures 1 < k ==> Parent(path[..k]) == path[..k - 1]
  {
  }

  lemma PathStart(v: Volume, root: seq<nat>, path: Position)
    requires Mapped(v, root) && IsPosition(v.p, path)
    ensures PathEnsured(v, root, v, root, path, 0)
  {
  }

  lemma PathStepNode(v: Volume, root: seq<nat>, v1: Volume, root1: seq<nat>, v2: Volume, root2: seq<nat>,
                     path: Position, k: nat, q: Position)
    requires Mapped(v, root) && IsPosition(v.p, path) && 0 < k < |path| && IsPosition(v.p, q)
    requires PathEnsured(v, root, v1, root1, path, k - 1)
    requires IsPosition(v.p, path[..k]) && Mapped(v2, root2) && v2.p == v.p
    requires Ensured(v1, root1, v2, root2, path[..k])
    ensures q <= path && |q| <= k ==> Node(v2, root2, q) != 0
    ensures q <= path && |q| <= k && Node(v, root, q) != 0 ==> Node(v2, root2, q) == Node(v, root, q)
    ensures !(q <= path && |q| <= k) ==> Node(v2, root2, q) == Node(v, root, q)
  {
    if q <= path && |q| == k {
      assert q == path[..k];
    } else {
      assert q != path[..k];
    }
  }

  lemma NoLeakStep(v: Volume, v1: Volume, root1: seq<nat>, v2: Volume, root2: seq<nat>, pos: Position)
    requires Layout(v) && Mapped(v1, root1) && Mapped(v2, root2) && v2.p == v1.p
    requires NoLeak(v, v1, root1) && NoLeak(v1, v2, root2) && Ensured(v1, root1, v2, root2, pos)
    ensures NoLeak(v, v2, root2)
  {
    hide InUse;
    forall b: nat | InUse(v2, b) && !InUse(v, b) ensures IsNode(v2.p, v2.disk, root2, b) {
      if InUse(v1, b) {
        var q :| IsPosition(v1.p, q) && Node(v1, root1, q) == b;
        assert Node(v2, root2, q) == b;
      }
    }
  }

  /** The content block stored last takes the place of none of the new blocks. */
  lemma NoLeakDone(v: Volume, root: seq<nat>, v1: Volume, root1: seq<nat>, v2: Volume, root2: seq<nat>,
                   path: Position, rb: nat)
    requires Mapped(v, root) && Mapped(v1, root1) && Mapped(v2, root2) && v1.p == v.p && v2.p == v.p
    requires NoLeak(v, v1, root1) && IsPosition(v.p, path)
    requires Node(v1, root1, path) == Node(v, root, path)
    requires forall q | IsPosition(v.p, q) :: Node(v2, root2, q) == if q == path then rb else Node(v1, root1, q)
    requires forall b: nat :: InUse(v2, b) == InUse(v1, b)
    ensures NoLeak(v, v2, root2)
  {
    forall b: nat | InUse(v2, b) && !InUse(v, b) ensures IsNode(v2.p, v2.disk, root2, b) {
      var q :| IsPosition(v1.p, q) && Node(v1, root1, q) == b;
      assert q != path;
      assert Node(v2, root2, q) == b;
    }
  }

  lemma PathStep(v: Volume, root: seq<nat>, v1: Volume, root1: seq<nat>, v2: Volume, root2: seq<nat>, path: Position,
                 k: nat)
    requires Mapped(v, root) && IsPosition(v.p, path) && 0 < k < |path|
    requires PathEnsured(v, root, v1, root1, path, k - 1)
    requires IsPosition(v.p, path[..k]) && IndexStep(v1, root1, v2, root2, path[..k])
    ensures PathEnsured(v, root, v2, root2, path, k)
  {
    NoLeakStep(v, v1, root1, v2, root2, path[..k]);
    KeepsTransitive(v, root, v1, root1, v2);
    PathStepNodes(v, root, v1, root1, v2, root2, path, k);
    assert Node(v1, root1, path[..k]) == Node(v, root, path[..k]);
    hide BlocksOk, IsBitmap, InUse, NoLeak, Keeps, FreshIndexes, PathNodes, Mapped;
  }

  lemma PathStepNodes(v: Volume, root: seq<nat>, v1: Volume, root1: seq<nat>, v2: Volume, root2: seq<nat>,
                      path: Position, k: nat)
    requires Mapped(v, root) && IsPosition(v.p, path) && 0 < k < |path|
    requires PathEnsured(v, root, v1, root1, path, k - 1)
    requires IsPosition(v.p, path[..k]) && Mapped(v2, root2) && v2.p == v.p
    requires Keeps(v, root, v1) && FreshIndexes(v1, root1, v2, root2) && Ensured(v1, root1, v2, root2, path[..k])
    ensures PathNodes(v, root, v2, root2, path, k) && FreshIndexes(v, root, v2, root2)
  {
    forall q | IsPosition(v.p, q)
      ensures q <= path && |q| <= k ==> Node(v2, root2, q) != 0
      ensures q <= path && |q| <= k && Node(v, root, q) != 0 ==> Node(v2, root2, q) == Node(v, root, q)
      ensures !(q <= path && |q| <= k) ==> Node(v2, root2, q) == Node(v, root, q)
    {
      hide BlocksOk, IsBitmap, InUse, NoLeak;
      PathStepNode(v, root, v1, root1, v2, root2, path, k, q);
    }
  }

  /** A block in use outside the tree stays outside while index blocks are added. */
  lemma StaysOutside(v: Volume, root: seq<nat>, v': Volume, root': seq<nat>, path: Position, k: nat, x: nat)
    requires Mapped(v, root) && IsPosition(v.p, path) && k < |path|
    requires PathEnsured(v, root, v', root', path, k)
    requires InUse(v, x) && !IsNode(v.p, v.disk, root, x) && !IsBitmap(v, x) && x != 0
    ensures InUse(v', x) && !IsNode(v.p, v'.disk, root', x) && !IsBitmap(v', x)
  {
    SameBitmaps(v, v', x);
    forall q | IsPosition(v.p, q) ensures Node(v', root', q) != x {
      assert Node(v, root, q) != x;
      if q <= path && |q| <= k {
        assert q == path[..|q|];
        PrefixPosition(v.p, path, |q|);
      }
    }
  }

  /** What set_real_block does: the path of off ends in rb, missing index blocks were created, the rest
      of the tree and every other block in use stayed. */
  ghost predicate RealBlockSet(v: Volume, root: seq<nat>, v': Volume, root': seq<nat>, off: nat, rb: nat)
    requires Mapped(v, root) && off < MaxBlocks(v.p)
  {
    && BlocksOk(v') && Mapped(v', root') && v'.p == v.p
    && NoLeak(v, v', root')
    && PathSet(v.p, v.disk, root, v'.disk, root', off, rb)
    && Keeps(v, root, v')
    && FreshIndexes(v, root, v', root')
    && IsPosition(v.p, Path(v.p, off))
    && SumFree(v'.groups) == SumFree(v.groups) - Missing(v.p, v.disk, root, Path(v.p, off), |Path(v.p, off)| - 1)
  }

  lemma PathSetDone(v: Volume, root: seq<nat>, v1: Volume, root1: seq<nat>, v2: Volume, root2: seq<nat>, off: nat,
                    rb: nat)
    requires Mapped(v, root) && off < MaxBlocks(v.p)
    requires IsPosition(v.p, Path(v.p, off))
    requires PathEnsured(v, root, v1, root1, Path(v.p, off), |Path(v.p, off)| - 1)
    requires Mapped(v2, root2) && v2.p == v.p
    requires forall q | IsPosition(v.p, q) ::
               Node(v2, root2, q) == if q == Path(v.p, off) then rb else Node(v1, root1, q)
    ensures PathSet(v.p, v.disk, root, v2.disk, root2, off, rb)
    ensures FreshIndexes(v, root, v2, root2)
  {
    PathIsLeaf(v.p, off);
  }

  /** With all index blocks of its path there, the content block can be stored. */
  lemma PathAttach(v: Volume, root: seq<nat>, v1: Volume, root1: seq<nat>, path: Position, rb: nat)
    requires Mapped(v, root) && IsLeaf(v.p, path)
    requires PathEnsured(v, root, v1, root1, path, |path| - 1)
    requires InUse(v, rb) && 0 < rb < |v.disk| && rb < WORD && !IsNode(v.p, v.disk, root, rb) && !IsBitmap(v, rb)
    ensures CanAttach(v.p, v1.disk, root1, path, rb) && InUse(v1, rb) && !IsBitmap(v1, rb)
  {
    StaysOutside(v, root, v1, root1, path, |path| - 1, rb);
    if 1 < |path| {
      PrefixPosition(v.p, path, |path| - 1);
      assert Node(v1, root1, Parent(path)) != 0;
    }
  }

  /** Storing the content block completes set_real_block. */
  lemma PathDone(v: Volume, root: seq<nat>, v1: Volume, root1: seq<nat>, v2: Volume, root2: seq<nat>, off: nat, rb: nat)
    requires Mapped(v, root) && off < MaxBlocks(v.p) && IsLeaf(v.p, Path(v.p, off))
    requires PathEnsured(v, root, v1, root1, Path(v.p, off), |Path(v.p, off)| - 1)
    requires BlocksOk(v2) && Mapped(v2, root2) && Keeps(v1, root1, v2) && v2.groups == v1.groups
    requires forall b: nat :: InUse(v2, b) == InUse(v1, b)
    requires forall q | IsPosition(v.p, q) ::
               Node(v2, root2, q) == if q == Path(v.p, off) then rb else Node(v1, root1, q)
    ensures RealBlockSet(v, root, v2, root2, off, rb)
  {
    PathSetDone(v, root, v1, root1, v2, root2, off, rb);
    KeepsTransitive(v, root, v1, root1, v2);
    NoLeakDone(v, root, v1, root1, v2, root2, Path(v.p, off), rb);
  }

  /** The index block read before the allocation is still the one to write back. */
  lemma IndexWritten(v: Volume, root: seq<nat>, pos: Position, blk: nat, b: nat)
    requires BlocksOk(v) && Mapped(v, root) && !InUse(v, b)
    requires IsPosition(v.p, pos) && !IsLeaf(v.p, pos) && 1 < |pos|
    requires 0 < blk < |v.disk| && IsPosition(v.p, Parent(pos)) && blk == Node(v, root, Parent(pos))
    ensures b < |v.disk| && b < WORD && GroupOf(v.n, b) < |v.groups| && Last(pos) < v.p
    ensures |v.disk[blk]| == 4 * v.p && |Allocated(v, b).disk| == |v.disk| && Allocated(v, b).p == v.p
    ensures WithIndex(v, root, pos, b)
            == Allocated(v, b).(disk := Allocated(v, b).disk[blk := PutPointer(v.p, v.disk[blk], Last(pos), b)])
  {
    AllocatedOk(v, b);
    AllocKeepsTree(v, root, b);
    ParentPosition(v.p, pos);
    assert IsIndexNode(v.p, v.disk, root, blk);
    AllocatedFrame(v, b, blk);
  }

  /** A block in use that is neither in the tree nor a bitmap. */
  ghost predicate Attachable(v: Volume, root: seq<nat>, x: nat)
    requires Mapped(v, root)
  {
    InUse(v, x) && 0 < x < |v.disk| && x < WORD && !IsNode(v.p, v.disk, root, x) && !IsBitmap(v, x)
  }

  /** Storing at a position below the inode is a write to its parent block. */
  lemma StoredIsWrite(v: Volume, root: seq<nat>, pos: Position, x: nat)
    requires Mapped(v, root) && IsPosition(v.p, pos) && 1 < |pos|
    requires IsPosition(v.p, Parent(pos)) && Node(v, root, Parent(pos)) != 0
    ensures var b := Node(v, root, Parent(pos));
            && b < |v.disk| && Last(pos) < v.p
            && Stored(v, root, pos, x) == v.(disk := v.disk[b := PutPointer(v.p, v.disk[b], Last(pos), x)])
  {
    ParentPosition(v.p, pos);
  }

  /** The volume, the slots of the inode, and whether there was space. */
  datatype Made = Made(v: Volume, root: seq<nat>, ok: bool)

  /** Making the index block at pos, if it is missing, of the lowest free block. */
  ghost function IndexSpec(v: Volume, root: seq<nat>, pos: Position): Made
    requires BlocksOk(v) && Mapped(v, root) && IsPosition(v.p, pos)
  {
    FirstFreeWorks(v);
    if Node(v, root, pos) != 0 then Made(v, root, true)
    else if FirstFree(v) == 0 then Made(v, root, false)
    else Made(WithIndex(v, root, pos, FirstFree(v)), SlotRoot(root, pos, FirstFree(v)), true)
  }

  /** Making the first k index blocks of a path. */
  ghost function PathSpec(v: Volume, root: seq<nat>, path: Position, k: nat): Made
    requires BlocksOk(v) && Mapped(v, root) && IsPosition(v.p, path) && k <= |path|
    decreases k
  {
    if k == 0 then Made(v, root, true)
    else
      var m := PathSpec(v, root, path, k - 1);
      if m.ok && m.v.p == v.p && BlocksOk(m.v) && Mapped(m.v, m.root) then IndexSpec(m.v, m.root, path[..k])
      else m.(ok := false)
  }

  /** set_real_block: the index blocks of the path of off, then rb at its end. */
  ghost function SetSpec(v: Volume, root: seq<nat>, off: nat, rb: nat): Made
    requires BlocksOk(v) && Mapped(v, root) && off < MaxBlocks(v.p)
  {
    PathIsLeaf(v.p, off);
    var path := Path(v.p, off);
    var m := PathSpec(v, root, path, |path| - 1);
    if m.ok && m.v.p == v.p && Mapped(m.v, m.root) then
      Made(Stored(m.v, m.root, path, rb), SlotRoot(m.root, path, rb), true)
    else m.(ok := false)
  }

  lemma IndexSpecStep(v: Volume, root: seq<nat>, pos: Position)
    requires BlocksOk(v) && Mapped(v, root)
    requires IsPosition(v.p, pos) && !IsLeaf(v.p, pos)
    requires 1 < |pos| ==> IsPosition(v.p, Parent(pos)) && Node(v, root, Parent(pos)) != 0
    ensures var m := IndexSpec(v, root, pos);
            if m.ok then BlocksOk(m.v) && IndexStep(v, root, m.v, m.root, pos)
            else m.v == v && m.root == root && SumFree(v.groups) == 0 && Node(v, root, pos) == 0
  {
    FirstFreeWorks(v);
    if Node(v, root, pos) != 0 {
      IndexThere(v, root, pos);
    } else if FirstFree(v) != 0 {
      AddIndex(v, root, pos, FirstFree(v));
    }
  }

  /** What k steps of a path amount to. */
  ghost predicate PathOutcome(v: Volume, root: seq<nat>, path: Position, k: nat, m: Made)
    requires Mapped(v, root) && IsPosition(v.p, path) && k <= |path|
  {
    && m.v.p == v.p && BlocksOk(m.v) && Mapped(m.v, m.root)
    && (if m.ok then PathEnsured(v, root, m.v, m.root, path, k)
        else SumFree(v.groups) < Missing(v.p, v.disk, root, path, k))
  }

  lemma {:induction false} PathSpecWorks(v: Volume, root: seq<nat>, path: Position, k: nat)
    requires BlocksOk(v) && Mapped(v, root) && IsLeaf(v.p, path) && k < |path|
    ensures PathOutcome(v, root, path, k, PathSpec(v, root, path, k))
    decreases k
  {
    hide BlocksOk, PathEnsured;
    if k == 0 {
      PathStart(v, root, path);
    } else {
      PathSpecWorks(v, root, path, k - 1);
      var m := PathSpec(v, root, path, k - 1);
      PrefixPosition(v.p, path, k);
      if m.ok {
        PathSpecStep(v, root, path, k, m);
      } else {
        PathStopped(v, root, path, k, m);
      }
    }
  }

  lemma PathStopped(v: Volume, root: seq<nat>, path: Position, k: nat, m: Made)
    requires Mapped(v, root) && IsPosition(v.p, path) && 0 < k <= |path|
    requires !m.ok && PathOutcome(v, root, path, k - 1, m)
    ensures PathOutcome(v, root, path, k, m.(ok := false))
  {
  }

  lemma PathSpecStep(v: Volume, root: seq<nat>, path: Position, k: nat, m: Made)
    requires BlocksOk(v) && Mapped(v, root) && IsLeaf(v.p, path) && 0 < k < |path|
    requires m.ok && BlocksOk(m.v) && PathEnsured(v, root, m.v, m.root, path, k - 1)
    requires IsPosition(v.p, path[..k])
    ensures PathOutcome(v, root, path, k, IndexSpec(m.v, m.root, path[..k]))
  {
    hide BlocksOk, Keeps, FreshIndexes, Ensured;
    PathParent(v, root, m.v, m.root, path, k);
    IndexSpecStep(m.v, m.root, path[..k]);
    if IndexSpec(m.v, m.root, path[..k]).ok {
      PathGoesOn(v, root, path, k, m, IndexSpec(m.v, m.root, path[..k]));
    }
  }

  lemma PathGoesOn(v: Volume, root: seq<nat>, path: Position, k: nat, m: Made, m': Made)
    requires Mapped(v, root) && IsLeaf(v.p, path) && 0 < k < |path|
    requires PathEnsured(v, root, m.v, m.root, path, k - 1)
    requires IsPosition(v.p, path[..k])
    requires m'.ok && BlocksOk(m'.v) && IndexStep(m.v, m.root, m'.v, m'.root, path[..k])
    ensures PathOutcome(v, root, path, k, m')
  {
    hide BlocksOk, IndexStep;
    PathStep(v, root, m.v, m.root, m'.v, m'.root, path, k);
  }

  /** The next position on the path is as it was, and its parent is there. */
  lemma PathParent(v: Volume, root: seq<nat>, v1: Volume, root1: seq<nat>, path: Position, k: nat)
    requires Mapped(v, root) && IsLeaf(v.p, path) && 0 < k < |path|
    requires PathEnsured(v, root, v1, root1, path, k - 1)
    requires IsPosition(v.p, path[..k])
    ensures !IsLeaf(v.p, path[..k])
    ensures 1 < k ==> IsPosition(v.p, Parent(path[..k])) && Node(v1, root1, Parent(path[..k])) != 0
    ensures Node(v1, root1, path[..k]) == Node(v, root, path[..k])
  {
    PrefixPosition(v.p, path, k);
    if 1 < k {
      PrefixPosition(v.p, path, k - 1);
    }
  }

  /** set_real_block sets the block, or runs out of space when there is too little for the missing index blocks. */
  lemma SetSpecWorks(v: Volume, root: seq<nat>, off: nat, rb: nat)
    requires BlocksOk(v) && Mapped(v, root) && off < MaxBlocks(v.p) && Attachable(v, root, rb)
    ensures var m := SetSpec(v, root, off, rb);
            && m.v.p == v.p && BlocksOk(m.v) && Mapped(m.v, m.root)
            && (m.ok ==> RealBlockSet(v, root, m.v, m.root, off, rb))
    ensures IsPosition(v.p, Path(v.p, off))
    ensures !SetSpec(v, root, off, rb).ok ==> SumFree(v.groups) < Missing(v.p, v.disk, root, Path(v.p, off),
              |Path(v.p, off)| - 1)
  {
    hide BlocksOk, PathEnsured, RealBlockSet, Attachable;
    PathIsLeaf(v.p, off);
    var path := Path(v.p, off);
    PathSpecWorks(v, root, path, |path| - 1);
    var m := PathSpec(v, root, path, |path| - 1);
    if m.ok {
      LeafStored(v, root, m.v, m.root, off, rb);
    }
  }

  /** The last write of set_real_block, after all index blocks of the path were ensured. */
  lemma LeafStored(v: Volume, root: seq<nat>, v1: Volume, root1: seq<nat>, off: nat, rb: nat)
    requires Mapped(v, root) && off < MaxBlocks(v.p) && IsLeaf(v.p, Path(v.p, off))
    requires Attachable(v, root, rb)
    requires BlocksOk(v1) && PathEnsured(v, root, v1, root1, Path(v.p, off), |Path(v.p, off)| - 1)
    ensures var v' := Stored(v1, root1, Path(v.p, off), rb);
            && v'.p == v.p && BlocksOk(v') && Mapped(v', SlotRoot(root1, Path(v.p, off), rb))
            && RealBlockSet(v, root, v', SlotRoot(root1, Path(v.p, off), rb), off, rb)
  {
    hide BlocksOk, Keeps;
    var path := Path(v.p, off);
    PathAttach(v, root, v1, root1, path, rb);
    StoreKeeps(v1, root1, path, rb);
    PathDone(v, root, v1, root1, Stored(v1, root1, path, rb), SlotRoot(root1, path, rb), off, rb);
  }

  /** tmp[idx] = x in block blk. */
  ghost function Pointed(v: Volume, blk: nat, idx: nat, x: nat): Volume
    requires Formatted(v.p, v.disk) && blk < |v.disk| && idx < v.p
  {
    v.(disk := v.disk[blk := PutPointer(v.p, v.disk[blk], idx, x)])
  }

  /** The block at pos after it was ensured. */
  lemma IndexSpecNode(v: Volume, root: seq<nat>, pos: Position)
    requires BlocksOk(v) && Mapped(v, root)
    requires IsPosition(v.p, pos) && !IsLeaf(v.p, pos)
    requires 1 < |pos| ==> IsPosition(v.p, Parent(pos)) && Node(v, root, Parent(pos)) != 0
    ensures var m := IndexSpec(v, root, pos);
            m.ok ==> && m.v.p == v.p && Mapped(m.v, m.root)
                     && Node(m.v, m.root, pos) == (if Node(v, root, pos) != 0 then Node(v, root, pos) else FirstFree(v))
  {
    hide BlocksOk, Keeps, FreshIndexes;
    FirstFreeWorks(v);
    if Node(v, root, pos) == 0 && FirstFree(v) != 0 {
      AddIndex(v, root, pos, FirstFree(v));
    }
  }

  lemma NodeOfSlot(v: Volume, root: seq<nat>, slot: nat)
    requires Formatted(v.p, v.disk) && |root| == NSLOTS && IsPosition(v.p, [slot])
    ensures Node(v, root, [slot]) == root[slot]
  {
  }

  lemma NodeOfChild(v: Volume, root: seq<nat>, pos: Position, par: Position)
    requires Formatted(v.p, v.disk) && |root| == NSLOTS
    requires IsPosition(v.p, pos) && 1 < |pos| && par == Parent(pos)
    ensures IsPosition(v.p, par) && Last(pos) < v.p
    ensures var b := Node(v, root, par);
            0 < b < |v.disk| ==> Node(v, root, pos) == Pointer(v.p, v.disk[b], Last(pos))
  {
    ParentPosition(v.p, pos);
  }

  lemma MappedShape(v: Volume, root: seq<nat>)
    requires Mapped(v, root)
    ensures Layout(v) && Formatted(v.p, v.disk) && |root| == NSLOTS
  {
  }

  lemma NodeInRange(v: Volume, root: seq<nat>, pos: Position)
    requires Mapped(v, root) && IsPosition(v.p, pos)
    ensures Node(v, root, pos) < |v.disk|
  {
  }

  /** Below an index block that is not there nothing is. */
  lemma NodeBelowNothing(v: Volume, root: seq<nat>, pos: Position, par: Position)
    requires Formatted(v.p, v.disk) && |root| == NSLOTS
    requires IsPosition(v.p, pos) && 1 < |pos| && par == Parent(pos) && IsPosition(v.p, par)
    requires Node(v, root, par) == 0
    ensures Node(v, root, pos) == 0
  {
  }

  lemma DirectSpec(v: Volume, root: seq<nat>, off: nat, rb: nat)
    requires BlocksOk(v) && Mapped(v, root) && off < NDIR && off < MaxBlocks(v.p)
    ensures |root| == NSLOTS
    ensures SetSpec(v, root, off, rb) == Made(v, root[off := rb], true)
  {
  }

  lemma PathSpecZero(v: Volume, root: seq<nat>, path: Position)
    requires BlocksOk(v) && Mapped(v, root) && IsPosition(v.p, path)
    ensures PathSpec(v, root, path, 0) == Made(v, root, true)
  {
  }

  lemma PathSpecUnfold(v: Volume, root: seq<nat>, path: Position, k: nat, m: Made)
    requires BlocksOk(v) && Mapped(v, root) && IsPosition(v.p, path) && 0 < k <= |path|
    requires m == PathSpec(v, root, path, k - 1)
    requires m.ok && m.v.p == v.p && BlocksOk(m.v) && Mapped(m.v, m.root) && IsPosition(v.p, path[..k])
    ensures PathSpec(v, root, path, k) == IndexSpec(m.v, m.root, path[..k])
  {
    hide BlocksOk, Mapped, IndexSpec;
  }

  /** The state in which step k of a path starts. */
  lemma PathSpecNext(v: Volume, root: seq<nat>, path: Position, k: nat)
    requires BlocksOk(v) && Mapped(v, root) && IsLeaf(v.p, path) && 0 < k < |path|
    requires PathSpec(v, root, path, k - 1).ok
    ensures var m := PathSpec(v, root, path, k - 1);
            && m.v.p == v.p && BlocksOk(m.v) && Mapped(m.v, m.root)
            && IsPosition(v.p, path[..k]) && !IsLeaf(v.p, path[..k])
            && PathSpec(v, root, path, k) == IndexSpec(m.v, m.root, path[..k])
  {
    hide BlocksOk, PathEnsured, Mapped, IndexSpec;
    PathSpecWorks(v, root, path, k - 1);
    PrefixPosition(v.p, path, k);
    PathSpecUnfold(v, root, path, k, PathSpec(v, root, path, k - 1));
  }

  /** From the second step on, the index block above is there. */
  lemma PathSpecParent(v: Volume, root: seq<nat>, path: Position, k: nat)
    requires BlocksOk(v) && Mapped(v, root) && IsLeaf(v.p, path) && 1 < k < |path|
    requires PathSpec(v, root, path, k - 1).ok
    ensures var m := PathSpec(v, root, path, k - 1);
            && m.v.p == v.p && BlocksOk(m.v) && Mapped(m.v, m.root)
            && IsPosition(v.p, Parent(path[..k])) && 0 < Node(m.v, m.root, Parent(path[..k])) < |m.v.disk|
  {
    hide BlocksOk, PathEnsured;
    PathSpecWorks(v, root, path, k - 1);
    PrefixPosition(v.p, path, k);
    PathParent(v, root, PathSpec(v, root, path, k - 1).v, PathSpec(v, root, path, k - 1).root, path, k);
  }

  /** The state in which the content block is stored, in the index block at the end of the path. */
  lemma SetSpecLast(v: Volume, root: seq<nat>, off: nat, rb: nat, path: Position, k: nat, par: Position)
    requires BlocksOk(v) && Mapped(v, root) && off < MaxBlocks(v.p)
    requires IsLeaf(v.p, path) && path == Path(v.p, off) && 0 < k == |path| - 1 && par == Parent(path)
    requires PathSpec(v, root, path, k).ok
    ensures var m := PathSpec(v, root, path, k);
            && m.v.p == v.p && BlocksOk(m.v) && Mapped(m.v, m.root)
            && IsPosition(v.p, par) && Last(path) < v.p
            && 0 < Node(m.v, m.root, par) < |m.v.disk|
            && SetSpec(v, root, off, rb) == Made(Pointed(m.v, Node(m.v, m.root, par), Last(path), rb), m.root, true)
  {
    PathSpecWorks(v, root, path, k);
    var m := PathSpec(v, root, path, k);
    PrefixPosition(v.p, path, k);
    assert Node(m.v, m.root, par) != 0;
    StoredIsWrite(m.v, m.root, path, rb);
  }

  /** Once a step found no space, so it stays. */
  lemma {:induction false} PathSpecStops(v: Volume, root: seq<nat>, path: Position, k: nat, k': nat)
    requires BlocksOk(v) && Mapped(v, root) && IsPosition(v.p, path) && k <= k' <= |path|
    requires !PathSpec(v, root, path, k).ok
    ensures PathSpec(v, root, path, k') == PathSpec(v, root, path, k)
    decreases k'
  {
    hide Mapped, BlocksOk, IsPosition;
    if k < k' {
      PathSpecStops(v, root, path, k, k' - 1);
    }
  }

  lemma SetSpecStops(v: Volume, root: seq<nat>, off: nat, rb: nat, path: Position, k: nat)
    requires BlocksOk(v) && Mapped(v, root) && off < MaxBlocks(v.p)
    requires IsPosition(v.p, path) && path == Path(v.p, off) && k < |path|
    requires !PathSpec(v, root, path, k).ok
    ensures SetSpec(v, root, off, rb) == PathSpec(v, root, path, k)
  {
    hide Mapped, BlocksOk, IsPosition;
    PathSpecStops(v, root, path, k, |path| - 1);
  }
}
