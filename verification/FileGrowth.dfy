/** Growing a file block by block: alloc_inode_block and the allocation loop of write_block_inode. */
module FileGrowth {
  import opened Bytes
  import opened BlockCounts
  import opened BlockTree
  import opened TreeUpdates
  import opened Growth
  import opened Volumes
  import opened Allocation
  import opened Files

  /** A file with n content blocks in a sound volume. */
  ghost predicate FileOk(v: Volume, root: seq<nat>, n: nat) {
    && BlocksOk(v)
    && Mapped(v, root)
    && n <= MaxBlocks(v.p)
    && Grown(v.p, v.disk, root, n)
  }

  /** The content block at an offset; what is not there reads as zeros. */
  ghost function Content(v: Volume, root: seq<nat>, off: nat): (r: Block)
    requires Mapped(v, root)
    ensures |r| == 4 * v.p
  {
    if off < MaxBlocks(v.p) then
      PathIsLeaf(v.p, off);
      var b := Node(v, root, Path(v.p, off));
      if b == 0 then Zeros(4 * v.p) else v.disk[b]
    else Zeros(4 * v.p)
  }

  /** Blocks of other files, and whatever else is in use: neither bitmaps nor nodes of this tree. */
  ghost predicate Foreign(v: Volume, root: seq<nat>, b: nat)
    requires Mapped(v, root)
  {
    b < |v.disk| && InUse(v, b) && !IsBitmap(v, b) && !IsNode(v.p, v.disk, root, b)
  }

  /** Every foreign block stays in use and unchanged, and outside the tree. */
  ghost predicate OthersUntouched(v: Volume, root: seq<nat>, v': Volume, root': seq<nat>)
    requires Mapped(v, root) && Mapped(v', root')
  {
    && SameLayout(v, v')
    && (forall b: nat | Foreign(v, root, b) :: b < |v.disk| && Foreign(v', root', b) && v'.disk[b] == v.disk[b])
  }

  /** Every block of the tree stays where it is. */
  ghost predicate NodesKept(v: Volume, root: seq<nat>, v': Volume, root': seq<nat>)
    requires Mapped(v, root) && Mapped(v', root') && v'.p == v.p
  {
    forall q | IsPosition(v.p, q) && Node(v, root, q) != 0 :: Node(v', root', q) == Node(v, root, q)
  }

  /** From n to n' content blocks: the free count falls by exactly the difference of the block counts,
      whatever came into use belongs to the file, and no other block in use is touched. */
  ghost predicate Evolved(v: Volume, root: seq<nat>, n: nat, v': Volume, root': seq<nat>, n': nat)
    requires FileOk(v, root, n)
  {
    && FileOk(v', root', n') && n <= n' && v'.p == v.p
    && SumFree(v'.groups) == SumFree(v.groups) - (TotalBlocks(v.p, n') - TotalBlocks(v.p, n))
    && OthersUntouched(v, root, v', root')
    && NodesKept(v, root, v', root')
    && NoLeak(v, v', root')
  }

  /** Moreover the content stays: new blocks are blank. */
  ghost predicate Grew(v: Volume, root: seq<nat>, n: nat, v': Volume, root': seq<nat>, n': nat)
    requires FileOk(v, root, n)
  {
    && Evolved(v, root, n, v', root', n')
    && (forall o: nat :: Content(v', root', o) == Content(v, root, o))
  }

  lemma EvolvedRefl(v: Volume, root: seq<nat>, n: nat)
    requires FileOk(v, root, n)
    ensures Evolved(v, root, n, v, root, n)
  {
    hide FileOk, Mapped, BlocksOk;
    MappedOf(v, root, n);
  }

  lemma GrewRefl(v: Volume, root: seq<nat>, n: nat)
    requires FileOk(v, root, n)
    ensures Grew(v, root, n, v, root, n)
  {
    hide FileOk, Mapped, BlocksOk, Content;
    MappedOf(v, root, n);
  }

  lemma MappedOf(v: Volume, root: seq<nat>, n: nat)
    requires FileOk(v, root, n)
    ensures BlocksOk(v) && Mapped(v, root) && n <= MaxBlocks(v.p) && 0 < v.p
  {
  }

  lemma EvolvedTransitive(v: Volume, root: seq<nat>, n: nat, v1: Volume, root1: seq<nat>, n1: nat, v2: Volume,
                          root2: seq<nat>, n2: nat)
    requires FileOk(v, root, n)
    requires Evolved(v, root, n, v1, root1, n1) && FileOk(v1, root1, n1) && Evolved(v1, root1, n1, v2, root2, n2)
    ensures Evolved(v, root, n, v2, root2, n2)
  {
    NoLeakTransitive(v, root, v1, root1, v2, root2);
    hide FileOk, Mapped, BlocksOk, Foreign, NoLeak;
  }

  lemma NoLeakTransitive(v: Volume, root: seq<nat>, v1: Volume, root1: seq<nat>, v2: Volume, root2: seq<nat>)
    requires Mapped(v, root) && Mapped(v1, root1) && Mapped(v2, root2) && v1.p == v.p && v2.p == v.p
    requires NoLeak(v, v1, root1) && NoLeak(v1, v2, root2) && NodesKept(v1, root1, v2, root2)
    ensures NoLeak(v, v2, root2)
  {
    hide InUse;
    forall b: nat | InUse(v2, b) && !InUse(v, b) ensures IsNode(v2.p, v2.disk, root2, b) {
      if InUse(v1, b) {
        var q :| IsPosition(v1.p, q) && Node(v1, root1, q) == b;
        assert Node(v2, root2, q) == b;
      }
    }
  }

  lemma GrewTransitive(v: Volume, root: seq<nat>, n: nat, v1: Volume, root1: seq<nat>, n1: nat, v2: Volume,
                       root2: seq<nat>, n2: nat)
    requires FileOk(v, root, n)
    requires Grew(v, root, n, v1, root1, n1) && FileOk(v1, root1, n1) && Grew(v1, root1, n1, v2, root2, n2)
    ensures Grew(v, root, n, v2, root2, n2)
  {
    hide FileOk, Mapped, BlocksOk, Content, Evolved;
    EvolvedTransitive(v, root, n, v1, root1, n1, v2, root2, n2);
  }

  /** alloc_inode_block at offset n: the lowest free block becomes the content block. */
  ghost function AllocInodeSpec(v: Volume, root: seq<nat>, n: nat): Made
    requires BlocksOk(v) && Mapped(v, root) && n < MaxBlocks(v.p)
  {
    FirstFreeWorks(v);
    var b := FirstFree(v);
    if b == 0 then Made(v, root, false)
    else
      AllocatedOk(v, b);
      AllocKeepsTree(v, root, b);
      SetSpec(Allocated(v, b), root, n, b)
  }

  lemma AllocatedMapped(v: Volume, root: seq<nat>, b: nat)
    requires BlocksOk(v) && Mapped(v, root) && !InUse(v, b)
    ensures b < |v.disk| && GroupOf(v.n, b) < |v.groups|
    ensures BlocksOk(Allocated(v, b)) && Mapped(Allocated(v, b), root) && Allocated(v, b).p == v.p
  {
    AllocatedOk(v, b);
    AllocKeepsTree(v, root, b);
  }

  /** In a grown tree, an offset is mapped exactly when it is below n. */
  lemma MappedBelow(v: Volume, root: seq<nat>, n: nat, o: nat)
    requires FileOk(v, root, n) && o < MaxBlocks(v.p)
    ensures IsLeaf(v.p, Path(v.p, o))
    ensures Node(v, root, Path(v.p, o)) != 0 <==> o < n
  {
    PathIsLeaf(v.p, o);
  }

  /** Setting real block rb for offset n leaves what the other offsets hold. */
  lemma ContentAfterSet(v: Volume, root: seq<nat>, v': Volume, root': seq<nat>, n: nat, rb: nat, o: nat)
    requires BlocksOk(v) && Mapped(v, root) && n < MaxBlocks(v.p)
    requires Attachable(v, root, rb) && RealBlockSet(v, root, v', root', n, rb)
    ensures Mapped(v', root') && v'.p == v.p
    ensures o != n ==> Content(v', root', o) == Content(v, root, o)
    ensures o == n ==> Content(v', root', o) == v.disk[rb]
  {
    PathIsLeaf(v.p, n);
    var q := Path(v.p, o);
    if o == n {
      assert Node(v', root', q) == rb;
      OutsideKept(v, root, v', rb);
    } else if o < MaxBlocks(v.p) {
      PathIsLeaf(v.p, o);
      LeafNotAbove(v.p, o, n);
      assert Node(v', root', q) == Node(v, root, q);
      var b := Node(v, root, q);
      if b != 0 {
        LeafIsNoIndex(v, root, q);
        assert v'.disk[b] == v.disk[b];
      }
    }
  }

  /** Reading after set_real_block: the offset set has the block given to it, every other offset, mapped or
      not, the block it had. */
  lemma SetThenGet(v: Volume, root: seq<nat>, off: nat, rb: nat)
    requires BlocksOk(v) && Mapped(v, root) && off < MaxBlocks(v.p) && Attachable(v, root, rb)
    requires SetSpec(v, root, off, rb).ok
    ensures var m := SetSpec(v, root, off, rb);
            && m.v.p == v.p && Mapped(m.v, m.root)
            && forall o: nat | o < MaxBlocks(v.p) ::
                 IsPosition(v.p, Path(v.p, o))
                 && Node(m.v, m.root, Path(v.p, o)) == if o == off then rb else Node(v, root, Path(v.p, o))
  {
    SetSpecWorks(v, root, off, rb);
    var m := SetSpec(v, root, off, rb);
    hide SetSpec, BlocksOk, Attachable, Path, MaxBlocks, Keeps, FreshIndexes, NoLeak;
    forall o: nat | o < MaxBlocks(v.p)
      ensures IsPosition(v.p, Path(v.p, o))
      ensures Node(m.v, m.root, Path(v.p, o)) == if o == off then rb else Node(v, root, Path(v.p, o))
    {
      PathIsLeaf(v.p, o);
      if o != off {
        LeafNotAbove(v.p, o, off);
      }
    }
  }

  lemma LeafPrefix(p: nat, a: Position, b: Position)
    requires IsLeaf(p, a) && IsLeaf(p, b) && a <= b
    ensures a == b
  {
    assert a[0] == b[0];
  }

  /** Paths of different offsets do not lie on each other. */
  lemma LeafNotAbove(p: nat, o: nat, n: nat)
    requires 0 < p && o < MaxBlocks(p) && n < MaxBlocks(p) && o != n
    ensures !(Path(p, o) <= Path(p, n))
  {
    PathIsLeaf(p, o);
    PathIsLeaf(p, n);
    if Path(p, o) <= Path(p, n) {
      LeafPrefix(p, Path(p, o), Path(p, n));
      assert false;
    }
  }

  /** A content block is no index block. */
  lemma LeafIsNoIndex(v: Volume, root: seq<nat>, q: Position)
    requires Mapped(v, root) && IsLeaf(v.p, q)
    ensures !IsIndexNode(v.p, v.disk, root, Node(v, root, q))
  {
    forall a | IsPosition(v.p, a) && !IsLeaf(v.p, a) && Node(v, root, a) != 0
      ensures Node(v, root, a) != Node(v, root, q)
    {
      assert Apart(a, q);
    }
  }

  lemma OutsideKept(v: Volume, root: seq<nat>, v': Volume, rb: nat)
    requires Mapped(v, root) && Keeps(v, root, v') && Attachable(v, root, rb)
    ensures v'.disk[rb] == v.disk[rb]
  {
    assert !IsIndexNode(v.p, v.disk, root, rb);
  }

  lemma OthersAfterAlloc(v: Volume, root: seq<nat>, b: nat, c: nat)
    requires BlocksOk(v) && Mapped(v, root) && !InUse(v, b) && b < |v.disk| && GroupOf(v.n, b) < |v.groups|
    requires Foreign(v, root, c)
    ensures c != b && Mapped(Allocated(v, b), root) && Foreign(Allocated(v, b), root, c)
    ensures Allocated(v, b).disk[c] == v.disk[c]
  {
    AllocatedOk(v, b);
    AllocKeepsTree(v, root, b);
    AllocatedFrame(v, b, c);
    SameBitmaps(v, Allocated(v, b), c);
    forall q | IsPosition(v.p, q) ensures c == 0 || Node(Allocated(v, b), root, q) != c {
      assert Node(Allocated(v, b), root, q) == Node(v, root, q);
    }
  }

  lemma OthersAfterSet(v: Volume, root: seq<nat>, v': Volume, root': seq<nat>, n: nat, rb: nat, c: nat)
    requires BlocksOk(v) && Mapped(v, root) && n < MaxBlocks(v.p)
    requires Attachable(v, root, rb) && RealBlockSet(v, root, v', root', n, rb)
    requires Foreign(v, root, c) && c != rb
    ensures Foreign(v', root', c) && v'.disk[c] == v.disk[c]
  {
    SameBitmaps(v, v', c);
    PathIsLeaf(v.p, n);
    assert !IsIndexNode(v.p, v.disk, root, c);
    if c != 0 {
      forall q | IsPosition(v.p, q) ensures Node(v', root', q) != c {
        assert Node(v, root, q) != c;
        if q <= Path(v.p, n) && q != Path(v.p, n) {
          AboveLeaf(v.p, q, Path(v.p, n));
        }
      }
    }
  }

  lemma AboveLeaf(p: nat, q: Position, path: Position)
    requires IsPosition(p, q) && IsLeaf(p, path) && q <= path && q != path
    ensures !IsLeaf(p, q)
  {
    assert q[0] == path[0];
  }

  /** Allocating leaves the content of the file alone. */
  lemma ContentAfterAlloc(v: Volume, root: seq<nat>, b: nat, o: nat)
    requires BlocksOk(v) && Mapped(v, root) && !InUse(v, b) && b < |v.disk| && GroupOf(v.n, b) < |v.groups|
    ensures Mapped(Allocated(v, b), root)
    ensures Content(Allocated(v, b), root, o) == Content(v, root, o)
  {
    AllocKeepsTree(v, root, b);
    if o < MaxBlocks(v.p) {
      PathIsLeaf(v.p, o);
      var c := Node(v, root, Path(v.p, o));
      if c != 0 {
        AllocatedFrame(v, b, c);
      }
    }
  }

  lemma GrownAfterAlloc(v: Volume, root: seq<nat>, n: nat, b: nat)
    requires FileOk(v, root, n) && !InUse(v, b)
    ensures b < |v.disk| && b < WORD && GroupOf(v.n, b) < |v.groups|
    ensures FileOk(Allocated(v, b), root, n) && Attachable(Allocated(v, b), root, b)
    ensures Allocated(v, b).disk[b] == Zeros(4 * v.p)
    ensures SumFree(Allocated(v, b).groups) == SumFree(v.groups) - 1
  {
    AllocatedOk(v, b);
    AllocKeepsTree(v, root, b);
    AllocatedFrame(v, b, b);
    SameBitmaps(v, Allocated(v, b), b);
  }

  lemma GrownAfterSet(v: Volume, root: seq<nat>, v': Volume, root': seq<nat>, n: nat, rb: nat)
    requires FileOk(v, root, n) && n < MaxBlocks(v.p)
    requires Attachable(v, root, rb) && RealBlockSet(v, root, v', root', n, rb)
    ensures FileOk(v', root', n + 1)
    ensures SumFree(v'.groups) == SumFree(v.groups) - NewIndexBlocks(v.p, n)
  {
    hide BlocksOk, Keeps, FreshIndexes, PathSet, Grown, MaxBlocks, Path, Missing, Owned;
    GrownStep(v.p, v.disk, root, v'.disk, root', n, rb);
    MissingCount(v.p, v.disk, root, n);
  }

  /** Taking block b: the file and all foreign blocks stay as they are, and b is foreign to neither. */
  ghost predicate AllocStep(v: Volume, root: seq<nat>, a: Volume, b: nat)
    requires Mapped(v, root)
  {
    && Mapped(a, root) && SameLayout(v, a)
    && (forall c: nat :: InUse(a, c) == (c == b || InUse(v, c)))
    && (forall q | IsPosition(v.p, q) :: Node(a, root, q) == Node(v, root, q))
    && (forall o: nat :: Content(a, root, o) == Content(v, root, o))
    && (forall c: nat | Foreign(v, root, c) :: c != b && c < |v.disk| && Foreign(a, root, c) && a.disk[c] == v.disk[c])
  }

  /** Making b the content block of offset n: other offsets keep their content, and foreign blocks theirs. */
  ghost predicate SetStep(a: Volume, root: seq<nat>, v': Volume, root': seq<nat>, n: nat, b: nat)
    requires Mapped(a, root) && b < |a.disk|
  {
    && Mapped(v', root') && SameLayout(a, v')
    && (forall o: nat :: Content(v', root', o) == if o == n then a.disk[b] else Content(a, root, o))
    && (forall c: nat | Foreign(a, root, c) && c != b ::
       c < |a.disk| && Foreign(v', root', c) && v'.disk[c] == a.disk[c])
  }

  lemma AllocSteps(v: Volume, root: seq<nat>, b: nat)
    requires BlocksOk(v) && Mapped(v, root) && !InUse(v, b)
    ensures b < |v.disk| && GroupOf(v.n, b) < |v.groups|
    ensures AllocStep(v, root, Allocated(v, b), b)
  {
    AllocatedOk(v, b);
    AllocKeepsTree(v, root, b);
    var a := Allocated(v, b);
    forall o: nat ensures Content(a, root, o) == Content(v, root, o) {
      ContentAfterAlloc(v, root, b, o);
    }
    forall c: nat | Foreign(v, root, c) ensures c != b && c < |v.disk| && Foreign(a, root, c)
      && a.disk[c] == v.disk[c] {
      OthersAfterAlloc(v, root, b, c);
    }
  }

  lemma SetSteps(a: Volume, root: seq<nat>, v': Volume, root': seq<nat>, n: nat, b: nat)
    requires BlocksOk(a) && Mapped(a, root) && n < MaxBlocks(a.p) && Attachable(a, root, b)
    requires RealBlockSet(a, root, v', root', n, b)
    ensures b < |a.disk| && SetStep(a, root, v', root', n, b)
  {
    forall o: nat
      ensures Mapped(v', root') && v'.p == a.p
      ensures Content(v', root', o) == if o == n then a.disk[b] else Content(a, root, o)
    {
      ContentAfterSet(a, root, v', root', n, b, o);
    }
    forall c: nat | Foreign(a, root, c) && c != b
      ensures c < |a.disk| && Foreign(v', root', c) && v'.disk[c] == a.disk[c]
    {
      OthersAfterSet(a, root, v', root', n, b, c);
    }
  }

  lemma OthersCompose(v: Volume, root: seq<nat>, n: nat, a: Volume, v': Volume, root': seq<nat>, b: nat)
    requires Mapped(v, root) && b < |v.disk| && |v.disk| == |a.disk|
    requires AllocStep(v, root, a, b) && SetStep(a, root, v', root', n, b)
    ensures OthersUntouched(v, root, v', root')
  {
    hide Mapped, Content, Foreign, MaxBlocks;
  }

  lemma TreeCompose(v: Volume, root: seq<nat>, n: nat, a: Volume, v': Volume, root': seq<nat>, b: nat)
    requires FileOk(v, root, n) && n < MaxBlocks(v.p) && b != 0
    requires AllocStep(v, root, a, b) && RealBlockSet(a, root, v', root', n, b)
    ensures NodesKept(v, root, v', root') && NoLeak(v, v', root')
  {
    MappedBelow(v, root, n, n);
    hide InUse, Content, Foreign, BlocksOk, MaxBlocks, Path;
    assert Node(v', root', Path(v.p, n)) == b;
  }

  lemma StepsCompose(v: Volume, root: seq<nat>, n: nat, a: Volume, v': Volume, root': seq<nat>, b: nat)
    requires FileOk(v, root, n) && n < MaxBlocks(v.p) && b < |v.disk|
    requires AllocStep(v, root, a, b) && SetStep(a, root, v', root', n, b)
    requires a.disk[b] == Zeros(4 * v.p)
    requires FileOk(v', root', n + 1) && v'.p == v.p && NodesKept(v, root, v', root') && NoLeak(v, v', root')
    requires SumFree(v'.groups) == SumFree(v.groups) - 1 - NewIndexBlocks(v.p, n)
    ensures Grew(v, root, n, v', root', n + 1)
  {
    BlankBehindEnd(v, root, n, n);
    OthersCompose(v, root, n, a, v', root', b);
    hide FileOk, Mapped, BlocksOk, Content, Foreign, MaxBlocks, OthersUntouched, NodesKept, NoLeak;
  }

  lemma GrewFacts(v: Volume, root: seq<nat>, n: nat, v': Volume, root': seq<nat>, n': nat)
    requires FileOk(v, root, n) && Grew(v, root, n, v', root', n')
    ensures FileOk(v', root', n') && Mapped(v', root') && v'.p == v.p && n <= n'
    ensures SumFree(v'.groups) == SumFree(v.groups) - (TotalBlocks(v.p, n') - TotalBlocks(v.p, n))
  {
  }

  /** Growing needs as many free blocks as the block counts differ by. */
  lemma GrewCost(v: Volume, root: seq<nat>, n: nat, v': Volume, root': seq<nat>, n': nat)
    requires FileOk(v, root, n) && Grew(v, root, n, v', root', n')
    ensures TotalBlocks(v.p, n') - TotalBlocks(v.p, n) <= SumFree(v.groups)
  {
    AllFull(v');
  }

  /** alloc_inode_block at the end of a file grows it by one block, as long as there is space for the
      block and the index blocks the closed formula counts. */
  lemma AllocInodeWorks(v: Volume, root: seq<nat>, n: nat)
    requires FileOk(v, root, n) && n < MaxBlocks(v.p)
    ensures BlocksOk(v) && Mapped(v, root)
    ensures var m := AllocInodeSpec(v, root, n);
            && m.v.p == v.p && BlocksOk(m.v) && Mapped(m.v, m.root)
            && (m.ok <==> 1 + NewIndexBlocks(v.p, n) <= SumFree(v.groups))
            && (m.ok ==> Grew(v, root, n, m.v, m.root, n + 1) && FileOk(m.v, m.root, n + 1))
  {
    hide Grew, RealBlockSet, SetSpec, AllocStep, SetStep, Attachable;
    FirstFreeWorks(v);
    var b := FirstFree(v);
    if b != 0 {
      GrownAfterAlloc(v, root, n, b);
      AllocSteps(v, root, b);
      AllocInodeSet(v, root, n, Allocated(v, b), b);
      if AllocInodeSpec(v, root, n).ok {
        GrewCost(v, root, n, AllocInodeSpec(v, root, n).v, AllocInodeSpec(v, root, n).root, n + 1);
      }
    }
  }

  lemma AllocInodeSet(v: Volume, root: seq<nat>, n: nat, a: Volume, b: nat)
    requires FileOk(v, root, n) && n < MaxBlocks(v.p) && b < |v.disk|
    requires AllocStep(v, root, a, b) && FileOk(a, root, n) && Attachable(a, root, b) && b != 0
    requires a.disk[b] == Zeros(4 * v.p) && a.p == v.p && SumFree(a.groups) == SumFree(v.groups) - 1
    ensures var m := SetSpec(a, root, n, b);
            && m.v.p == v.p && BlocksOk(m.v) && Mapped(m.v, m.root)
            && (if m.ok then Grew(v, root, n, m.v, m.root, n + 1) && FileOk(m.v, m.root, n + 1)
                else SumFree(v.groups) < 1 + NewIndexBlocks(v.p, n))
  {
    hide Grew, RealBlockSet, SetSpec, AllocStep, SetStep, Attachable, Grown, FileOk, Mapped, BlocksOk;
    MappedOf(a, root, n);
    SetInFile(a, root, n, b);
    var m := SetSpec(a, root, n, b);
    if m.ok {
      GrownAfterSet(a, root, m.v, m.root, n, b);
      SetSteps(a, root, m.v, m.root, n, b);
      TreeCompose(v, root, n, a, m.v, m.root, b);
      StepsCompose(v, root, n, a, m.v, m.root, b);
    }
  }

  lemma SetInFile(v: Volume, root: seq<nat>, n: nat, rb: nat)
    requires FileOk(v, root, n) && n < MaxBlocks(v.p) && Attachable(v, root, rb)
    ensures var m := SetSpec(v, root, n, rb);
            && m.v.p == v.p && BlocksOk(m.v) && Mapped(m.v, m.root)
            && (if m.ok then RealBlockSet(v, root, m.v, m.root, n, rb) else SumFree(v.groups) < NewIndexBlocks(v.p, n))
  {
    hide RealBlockSet, SetSpec, Attachable, Grown, BlocksOk, MaxBlocks, Path, Missing, Owned;
    SetSpecWorks(v, root, n, rb);
    MissingCount(v.p, v.disk, root, n);
  }

  lemma BlankBehindEnd(v: Volume, root: seq<nat>, n: nat, o: nat)
    requires FileOk(v, root, n) && n <= o
    ensures Mapped(v, root) && Content(v, root, o) == Zeros(4 * v.p)
  {
    if o < MaxBlocks(v.p) {
      MappedBelow(v, root, n, o);
    }
  }
}
