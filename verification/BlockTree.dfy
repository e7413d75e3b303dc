/** The tree of direct, single, double and triple indirect blocks behind an ext2 inode. A position
    is the list of slots from the inode down: the slot of i_block, then a slot in each index block. */
module BlockTree {
  import opened Bytes
  import opened BlockCounts

  type Block = seq<Byte>
  type Position = seq<nat>

  const SIND := 12
  const DIND := 13
  const TIND := 14
  const NSLOTS := 15

  /** How many index blocks stand between a slot of i_block and the content. */
  function Levels(slot: nat): nat {
    if slot < SIND then 0 else if slot == SIND then 1 else if slot == DIND then 2 else 3
  }

  ghost predicate IsPosition(p: nat, pos: Position) {
    && 1 <= |pos|
    && pos[0] < NSLOTS
    && |pos| <= 1 + Levels(pos[0])
    && forall i | 1 <= i < |pos| :: pos[i] < p
  }

  ghost predicate IsLeaf(p: nat, pos: Position) {
    IsPosition(p, pos) && |pos| == 1 + Levels(pos[0])
  }

  function Parent(pos: Position): Position
    requires 1 < |pos|
  {
    pos[..|pos| - 1]
  }

  function Last(pos: Position): nat
    requires 1 <= |pos|
  {
    pos[|pos| - 1]
  }

  ghost predicate Formatted(p: nat, disk: seq<Block>) {
    forall b | 0 <= b < |disk| :: |disk[b]| == 4 * p
  }

  /** tmp[i] of a block read as pointers. */
  function Pointer(p: nat, b: Block, i: nat): nat
    requires |b| == 4 * p && i < p
  {
    WordAt(b, 4 * i)
  }

  function PutPointer(p: nat, b: Block, i: nat, v: nat): (r: Block)
    requires |b| == 4 * p && i < p
    ensures |r| == 4 * p
  {
    PutWordAt(b, 4 * i, v)
  }

  lemma PutGetPointer(p: nat, b: Block, i: nat, v: nat, j: nat)
    requires |b| == 4 * p && i < p && j < p && v < WORD
    ensures Pointer(p, PutPointer(p, b, i, v), j) == if i == j then v else Pointer(p, b, j)
  {
    PutGetWord(b, 4 * i, v, 4 * j);
  }

  /** The block at a position, 0 when there is none. */
  ghost function NodeAt(p: nat, disk: seq<Block>, root: seq<nat>, pos: Position): nat
    requires Formatted(p, disk) && |root| == NSLOTS && IsPosition(p, pos)
    decreases |pos|
  {
    if |pos| == 1 then root[pos[0]]
    else
      var b := NodeAt(p, disk, root, Parent(pos));
      if b == 0 || |disk| <= b then 0 else Pointer(p, disk[b], Last(pos))
  }

  /** The slots get_real_block and set_real_block follow for a content offset (ext2fs.c:785-1010). */
  function Path(p: nat, off: nat): Position
    requires 0 < p
  {
    if off < NDIR then [off]
    else if off < NDIR + p then [SIND, off - NDIR]
    else if off < NDIR + p + p * p then
      var a := off - NDIR - p;
      [DIND, a / p, a % p]
    else
      ProductAtLeast(p, p);
      TriplyIndirect(p, p * p, off - NDIR - p - p * p)
  }

  function TriplyIndirect(p: nat, pp: nat, a: nat): Position
    requires 0 < p && 0 < pp
  {
    [TIND, a / pp, a % pp / p, a % pp % p]
  }

  /** The smallest content offset that lies below a position. */
  ghost function FirstOffset(p: nat, pos: Position): nat
    requires IsPosition(p, pos)
  {
    LeafOffset(p, pos[0], At(pos, 1), At(pos, 2), At(pos, 3))
  }

  ghost function LeafOffset(p: nat, slot: nat, i: nat, j: nat, k: nat): nat {
    if slot < SIND then slot
    else if slot == SIND then NDIR + i
    else if slot == DIND then NDIR + p + (i * p + j)
    else NDIR + p + p * p + (i * (p * p) + (j * p + k))
  }

  /** Slots that are not given yet count as 0. */
  ghost function At(pos: Position, i: nat): nat {
    if i < |pos| then pos[i] else 0
  }

  /** A position filled up with zero slots: the first leaf below it. */
  ghost function FirstLeaf(pos: Position): Position
    requires 1 <= |pos| <= 1 + Levels(pos[0])
  {
    pos + seq(1 + Levels(pos[0]) - |pos|, _ => 0)
  }

  lemma PathIsLeaf(p: nat, off: nat)
    requires 0 < p && off < MaxBlocks(p)
    ensures IsLeaf(p, Path(p, off)) && FirstOffset(p, Path(p, off)) == off
  {
    var pp := p * p;
    if off < NDIR + p {
    } else if off < NDIR + p + pp {
      DivBelow(off - NDIR - p, p, p);
    } else {
      var a := off - NDIR - p - pp;
      DivBelow(a, pp, p);
      DivBelow(a % pp, p, p);
    }
  }

  lemma DivBelow(a: nat, d: nat, n: nat)
    requires 0 < d && a < n * d
    ensures a / d < n && a == a / d * d + a % d && a % d < d
  {
    DivModBounds(a, d);
    ProductAtLeast(d, n - a / d);
    assert d * (n - a / d) == n * d - a / d * d;
  }

  lemma DoubleLeafPath(p: nat, i: nat, j: nat, k: nat)
    requires i < p && j < p
    ensures LeafOffset(p, DIND, i, j, k) < MaxBlocks(p)
    ensures Path(p, LeafOffset(p, DIND, i, j, k)) == [DIND, i, j]
  {
    ScaledBelow(i, j, p, p);
    DivUnique(i * p + j, p, i, j);
  }

  lemma TripleLeafPath(p: nat, i: nat, j: nat, k: nat)
    requires i < p && j < p && k < p
    ensures LeafOffset(p, TIND, i, j, k) < MaxBlocks(p)
    ensures Path(p, LeafOffset(p, TIND, i, j, k)) == [TIND, i, j, k]
  {
    var pp := p * p;
    var c := j * p + k;
    ScaledBelow(j, k, p, p);
    DivUnique(c, p, j, k);
    ScaledBelow(i, c, p, pp);
    DivUnique(i * pp + c, pp, i, c);
  }

  /** pos is the path of its own first offset. */
  ghost predicate FoundBack(p: nat, pos: Position)
    requires 0 < p && IsPosition(p, pos)
  {
    FirstOffset(p, pos) < MaxBlocks(p) && Path(p, FirstOffset(p, pos)) == pos
  }

  lemma DoubleLeafIsPath(p: nat, pos: Position)
    requires 0 < p && IsLeaf(p, pos) && pos[0] == DIND
    ensures FoundBack(p, pos)
  {
    DoubleLeafPath(p, pos[1], pos[2], 0);
    assert pos == [DIND, pos[1], pos[2]];
  }

  lemma TripleLeafIsPath(p: nat, pos: Position)
    requires 0 < p && IsLeaf(p, pos) && pos[0] == TIND
    ensures FoundBack(p, pos)
  {
    TripleLeafPath(p, pos[1], pos[2], pos[3]);
    assert pos == [TIND, pos[1], pos[2], pos[3]];
  }

  lemma ShallowLeafIsPath(p: nat, pos: Position)
    requires 0 < p && IsLeaf(p, pos) && pos[0] <= SIND
    ensures FoundBack(p, pos)
  {
    if pos[0] == SIND {
      assert pos == [SIND, pos[1]];
    }
  }

  /** A leaf is found back from its offset: different offsets have different leaves. */
  lemma LeafIsPath(p: nat, pos: Position)
    requires 0 < p && IsLeaf(p, pos)
    ensures FoundBack(p, pos)
  {
    if pos[0] == DIND {
      DoubleLeafIsPath(p, pos);
    } else if pos[0] == TIND {
      TripleLeafIsPath(p, pos);
    } else {
      ShallowLeafIsPath(p, pos);
    }
  }

  lemma ScaledBelow(q: nat, r: nat, n: nat, d: nat)
    requires q < n && r < d
    ensures 0 <= q * d && q * d + r < n * d
  {
    assert (n - q - 1) * d == n * d - q * d - d;
    ProductMonotone(0, n - q - 1, d);
  }

  /** Whatever position first comes into use with offset n lies on the path of n. */
  lemma FirstUseOnPath(p: nat, pos: Position, n: nat)
    requires 0 < p && IsPosition(p, pos) && FirstOffset(p, pos) == n
    ensures n < MaxBlocks(p) && pos <= Path(p, n)
  {
    var leaf := FirstLeaf(pos);
    assert IsLeaf(p, leaf);
    assert pos == leaf[..|pos|];
    assert forall i: nat | i < 4 :: At(leaf, i) == At(pos, i);
    LeafIsPath(p, leaf);
  }

  /** A position above another one comes into use no later. */
  lemma FirstOffsetMonotone(p: nat, pos: Position, k: nat)
    requires IsPosition(p, pos) && 1 <= k <= |pos|
    ensures IsPosition(p, pos[..k]) && FirstOffset(p, pos[..k]) <= FirstOffset(p, pos)
  {
    var q := pos[..k];
    ProductMonotone(At(q, 1), At(pos, 1), p);
    ProductMonotone(At(q, 1), At(pos, 1), p * p);
    ProductMonotone(At(q, 2), At(pos, 2), p);
  }

  lemma DoublePath(p: nat, off: nat)
    requires 0 < p && NDIR + p <= off < NDIR + p + p * p
    ensures off < MaxBlocks(p)
    ensures var path, a := Path(p, off), off - NDIR - p;
            && IsLeaf(p, path) && path == [DIND, a / p, a % p]
            && path[..1] == [DIND] && path[..2] == [DIND, a / p]
            && Parent(path[..2]) == [DIND] && Parent(path) == path[..2]
            && Last(path[..2]) == a / p && Last(path) == a % p
  {
    PathIsLeaf(p, off);
  }

  lemma TriplePath(p: nat, off: nat)
    requires 0 < p && NDIR + p + p * p <= off < MaxBlocks(p)
    ensures 0 < p * p
    ensures var path, a := Path(p, off), off - NDIR - p - p * p;
            && IsLeaf(p, path) && path == [TIND, a / (p * p), a % (p * p) / p, a % (p * p) % p]
            && path[..1] == [TIND] && path[..2] == [TIND, a / (p * p)]
            && path[..3] == [TIND, a / (p * p), a % (p * p) / p]
            && Parent(path[..2]) == [TIND] && Parent(path[..3]) == path[..2] && Parent(path) == path[..3]
            && Last(path[..2]) == a / (p * p) && Last(path[..3]) == a % (p * p) / p && Last(path) == a % (p * p) % p
  {
    ProductAtLeast(p, p);
    PathIsLeaf(p, off);
  }

  lemma SinglePath(p: nat, off: nat)
    requires 0 < p && NDIR <= off < NDIR + p
    ensures off < MaxBlocks(p)
    ensures var path := Path(p, off);
            && IsLeaf(p, path) && path == [SIND, off - NDIR]
            && path[..1] == [SIND] && Parent(path) == [SIND] && Last(path) == off - NDIR
  {
    PathIsLeaf(p, off);
  }
}
