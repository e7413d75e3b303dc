/** What writes to the disk do to the tree of an inode. */
module TreeUpdates {
  import opened Bytes
  import opened BlockTree

  /** Names a pair of positions, so that the uniqueness of blocks is used for pairs that matter only. */
  ghost predicate Apart(a: Position, b: Position) {
    a != b
  }

  /** The blocks of an inode, index and content, lie on the disk and are all different. */
  ghost predicate Owned(p: nat, disk: seq<Block>, root: seq<nat>) {
    && 0 < p
    && Formatted(p, disk)
    && |root| == NSLOTS
    && (forall pos {:trigger NodeAt(p, disk, root, pos)} | IsPosition(p, pos) :: NodeAt(p, disk, root, pos) < |disk|)
    && (forall a, b {:trigger Apart(a, b)} | IsPosition(p, a) && IsPosition(p, b) && Apart(a, b) ::
          NodeAt(p, disk, root, a) == 0 || NodeAt(p, disk, root, a) != NodeAt(p, disk, root, b))
  }

  ghost predicate IsNode(p: nat, disk: seq<Block>, root: seq<nat>, b: nat)
    requires Formatted(p, disk) && |root| == NSLOTS
  {
    b != 0 && exists pos :: IsPosition(p, pos) && NodeAt(p, disk, root, pos) == b
  }

  ghost predicate IsIndexNode(p: nat, disk: seq<Block>, root: seq<nat>, b: nat)
    requires Formatted(p, disk) && |root| == NSLOTS
  {
    b != 0 && exists pos :: IsPosition(p, pos) && !IsLeaf(p, pos) && NodeAt(p, disk, root, pos) == b
  }

  lemma ParentPosition(p: nat, pos: Position)
    requires IsPosition(p, pos) && 1 < |pos|
    ensures IsPosition(p, Parent(pos)) && !IsLeaf(p, Parent(pos)) && Last(pos) < p
  {
  }

  /** Writes that leave the index blocks alone leave the tree alone. */
  lemma {:induction false} NodeFrame(p: nat, disk: seq<Block>, disk': seq<Block>, root: seq<nat>, pos: Position)
    requires Owned(p, disk, root) && Formatted(p, disk') && |disk'| == |disk|
    requires forall b | 0 <= b < |disk| && IsIndexNode(p, disk, root, b) :: disk'[b] == disk[b]
    requires IsPosition(p, pos)
    ensures NodeAt(p, disk', root, pos) == NodeAt(p, disk, root, pos)
    decreases |pos|
  {
    if 1 < |pos| {
      ParentPosition(p, pos);
      NodeFrame(p, disk, disk', root, Parent(pos));
      assert NodeAt(p, disk, root, Parent(pos)) != 0 ==> IsIndexNode(p, disk, root, NodeAt(p, disk, root, Parent(pos)));
    }
  }

  lemma TreeFrame(p: nat, disk: seq<Block>, disk': seq<Block>, root: seq<nat>)
    requires Owned(p, disk, root) && Formatted(p, disk') && |disk'| == |disk|
    requires forall b | 0 <= b < |disk| && IsIndexNode(p, disk, root, b) :: disk'[b] == disk[b]
    ensures Owned(p, disk', root)
    ensures forall pos | IsPosition(p, pos) :: NodeAt(p, disk', root, pos) == NodeAt(p, disk, root, pos)
  {
    forall pos | IsPosition(p, pos) ensures NodeAt(p, disk', root, pos) == NodeAt(p, disk, root, pos) {
      NodeFrame(p, disk, disk', root, pos);
    }
  }

  /** Storing x in a slot of i_block. */
  function SlotRoot(root: seq<nat>, pos: Position, x: nat): seq<nat>
    requires |root| == NSLOTS && 1 <= |pos| && pos[0] < NSLOTS
  {
    if |pos| == 1 then root[pos[0] := x] else root
  }

  /** Storing x in a slot of an index block. */
  ghost function SlotDisk(p: nat, disk: seq<Block>, root: seq<nat>, pos: Position, x: nat): (r: seq<Block>)
    requires Formatted(p, disk) && |root| == NSLOTS && IsPosition(p, pos)
    ensures |r| == |disk| && Formatted(p, r)
  {
    if |pos| == 1 then disk
    else
      var b := NodeAt(p, disk, root, Parent(pos));
      if b == 0 || |disk| <= b then disk else disk[b := PutPointer(p, disk[b], Last(pos), x)]
  }

  /** When block x may be stored at pos: its parent exists and x is not in the tree yet; for an index
      block, nothing was there and x is blank. */
  ghost predicate CanAttach(p: nat, disk: seq<Block>, root: seq<nat>, pos: Position, x: nat) {
    && Owned(p, disk, root) && IsPosition(p, pos)
    && (1 < |pos| ==> NodeAt(p, disk, root, Parent(pos)) != 0)
    && 0 < x < |disk| && x < WORD
    && !IsNode(p, disk, root, x)
    && (IsLeaf(p, pos) || (NodeAt(p, disk, root, pos) == 0 && disk[x] == Zeros(4 * p)))
  }

  /** The tree after storing x at pos: that position has x, all others are as before. */
  lemma {:induction false} AttachNode(p: nat, disk: seq<Block>, root: seq<nat>, pos: Position, x: nat, q: Position)
    requires CanAttach(p, disk, root, pos, x) && IsPosition(p, q)
    ensures NodeAt(p, SlotDisk(p, disk, root, pos, x), SlotRoot(root, pos, x), q)
            == if q == pos then x else NodeAt(p, disk, root, q)
    decreases |q|
  {
    var disk', root' := SlotDisk(p, disk, root, pos, x), SlotRoot(root, pos, x);
    if |q| == 1 {
      assert q == pos || |pos| > 1 || q[0] != pos[0];
    } else {
      ParentPosition(p, q);
      AttachNode(p, disk, root, pos, x, Parent(q));
      if Parent(q) == pos {
        AttachedIsBlank(p, disk, root, pos, x, q);
      } else {
        AttachBelow(p, disk, root, pos, x, q);
      }
    }
  }

  /** Below a freshly attached index block there is nothing. */
  lemma AttachedIsBlank(p: nat, disk: seq<Block>, root: seq<nat>, pos: Position, x: nat, q: Position)
    requires CanAttach(p, disk, root, pos, x) && IsPosition(p, q) && 1 < |q| && Parent(q) == pos
    ensures Pointer(p, SlotDisk(p, disk, root, pos, x)[x], Last(q)) == 0
    ensures NodeAt(p, disk, root, q) == 0
  {
    ParentPosition(p, q);
    if 1 < |pos| {
      assert IsNode(p, disk, root, NodeAt(p, disk, root, Parent(pos))) by { ParentPosition(p, pos); }
    }
    assert SlotDisk(p, disk, root, pos, x)[x] == disk[x];
  }

  /** Reading any other slot whose parent did not move. */
  lemma AttachBelow(p: nat, disk: seq<Block>, root: seq<nat>, pos: Position, x: nat, q: Position)
    requires CanAttach(p, disk, root, pos, x) && IsPosition(p, q) && 1 < |q| && Parent(q) != pos
    ensures var c := NodeAt(p, disk, root, Parent(q));
            c != 0 ==> c < |disk| && Pointer(p, SlotDisk(p, disk, root, pos, x)[c], Last(q))
                                    == if q == pos then x else NodeAt(p, disk, root, q)
    ensures NodeAt(p, disk, root, Parent(q)) == 0 ==> q != pos && NodeAt(p, disk, root, q) == 0
  {
    ParentPosition(p, q);
    var c := NodeAt(p, disk, root, Parent(q));
    if c != 0 && 1 < |pos| {
      ParentPosition(p, pos);
      if NodeAt(p, disk, root, Parent(pos)) == c {
        assert !Apart(Parent(q), Parent(pos));
        assert Parent(q) == Parent(pos);
        SlotsOfBlock(p, disk[c], pos, q, x);
      }
    }
  }

  lemma SlotsOfBlock(p: nat, b: Block, pos: Position, q: Position, x: nat)
    requires |b| == 4 * p && x < WORD
    requires IsPosition(p, pos) && IsPosition(p, q) && 1 < |pos| && 1 < |q| && Parent(q) == Parent(pos)
    ensures Last(q) < p && Last(pos) < p
    ensures Pointer(p, PutPointer(p, b, Last(pos), x), Last(q)) == if q == pos then x else Pointer(p, b, Last(q))
  {
    assert q == Parent(q) + [Last(q)] && pos == Parent(pos) + [Last(pos)];
    PutGetPointer(p, b, Last(pos), x, Last(q));
  }

  lemma AttachTree(p: nat, disk: seq<Block>, root: seq<nat>, pos: Position, x: nat)
    requires CanAttach(p, disk, root, pos, x)
    ensures Owned(p, SlotDisk(p, disk, root, pos, x), SlotRoot(root, pos, x))
    ensures forall q | IsPosition(p, q) ::
              NodeAt(p, SlotDisk(p, disk, root, pos, x), SlotRoot(root, pos, x), q)
              == if q == pos then x else NodeAt(p, disk, root, q)
  {
    var disk', root' := SlotDisk(p, disk, root, pos, x), SlotRoot(root, pos, x);
    forall q | IsPosition(p, q)
      ensures NodeAt(p, disk', root', q) == if q == pos then x else NodeAt(p, disk, root, q)
    {
      AttachNode(p, disk, root, pos, x, q);
    }
  }
}
