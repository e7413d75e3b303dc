/** The real blocks of a file in the order in which growing makes them: which position has which rank, and which
    position free_inode_block addresses for a rank (src/kernel/fs/ext2fs.c:539-687). */
module Ranks {
  import opened BlockCounts
  import opened BlockTree
  import opened Growth

  /** How much of the path of offset n was there before: the rest is first used by n. */
  function OldPart(p: nat, n: nat): int
    requires 0 < p
  {
    |Path(p, n)| - 1 - NewIndexBlocks(p, n)
  }

  /** The positions first used by offset n are the parts of its path that are longer than the old one. */
  lemma FirstUse(p: nat, n: nat, k: nat)
    requires 0 < p && n < MaxBlocks(p) && 1 <= k <= |Path(p, n)|
    ensures IsPosition(p, Path(p, n)) && IsPosition(p, Path(p, n)[..k])
    ensures FirstOffset(p, Path(p, n)[..k]) == n <==> OldPart(p, n) < k
  {
    PathIsLeaf(p, n);
    FirstOffsetMonotone(p, Path(p, n), k);
    assert Path(p, n)[..|Path(p, n)|] == Path(p, n);
    if NDIR + p + p * p <= n {
      FirstUseTriple(p, n);
      TripleNew(p, n);
    } else if NDIR + p <= n {
      FirstUseDouble(p, n);
      DoubleNew(p, n);
    }
  }

  lemma DoubleNew(p: nat, n: nat)
    requires 0 < p && NDIR + p <= n < NDIR + p + p * p
    ensures var a := n - NDIR - p;
            NewIndexBlocks(p, n) == if a == 0 then 2 else if a % p == 0 then 1 else 0
    ensures n == NDIR + p ==> (n - NDIR - p) % p == 0
  {
  }

  lemma TripleNew(p: nat, n: nat)
    requires 0 < p && NDIR + p + p * p <= n
    ensures var a, pp := n - NDIR - p - p * p, p * p;
            && 0 < pp
            && NewIndexBlocks(p, n)
               == (if a == 0 then 3 else if a % pp == 0 then 2 else if a % pp % p == 0 then 1 else 0)
            && (a == 0 ==> a % pp == 0) && (a % pp == 0 ==> a % pp % p == 0)
  {
    ProductAtLeast(p, p);
    DivUnique(0, p * p, 0, 0);
  }

  lemma OldPartBounds(p: nat, n: nat)
    requires 0 < p && n < MaxBlocks(p)
    ensures 0 <= OldPart(p, n) < |Path(p, n)|
  {
    PathIsLeaf(p, n);
  }

  /** All positions are used by the last offset at the latest. */
  function AllRanks(p: nat): nat
    requires 0 < p
  {
    TotalBlocks(p, MaxBlocks(p))
  }

  /** The rank of a position: what stands before its first offset, and what is above it on the path of that. */
  ghost function Rank(p: nat, pos: Position): int
    requires 0 < p && IsPosition(p, pos)
  {
    var n := FirstOffset(p, pos);
    TotalBlocks(p, n) + |pos| - 1 - OldPart(p, n)
  }

  /** The position of rank r. */
  function RankPosition(p: nat, r: nat): Position
    requires 0 < p
  {
    var n := Covered(p, r);
    var k := OldPart(p, n) + 1 + (r - TotalBlocks(p, n));
    if 0 <= k <= |Path(p, n)| then Path(p, n)[..k] else []
  }

  /** A position lies on the path of its first offset, and was not there before. */
  lemma RankBounds(p: nat, pos: Position)
    requires 0 < p && IsPosition(p, pos)
    ensures var n := FirstOffset(p, pos);
            && n < MaxBlocks(p) && |pos| <= |Path(p, n)| && pos == Path(p, n)[..|pos|]
            && OldPart(p, n) < |pos|
            && TotalBlocks(p, n) <= Rank(p, pos) < TotalBlocks(p, n + 1)
  {
    hide TotalBlocks, NewIndexBlocks, Path, FirstOffset;
    var n := FirstOffset(p, pos);
    FirstUseOnPath(p, pos, n);
    assert pos == Path(p, n)[..|pos|];
    FirstUse(p, n, |pos|);
    TotalNext(p, n);
  }

  lemma TotalNext(p: nat, n: nat)
    requires 0 < p
    ensures TotalBlocks(p, n + 1) == TotalBlocks(p, n) + 1 + NewIndexBlocks(p, n)
  {
  }

  /** Ranks and positions belong to each other. */
  lemma RankedPosition(p: nat, r: nat)
    requires 0 < p && r < AllRanks(p)
    ensures IsPosition(p, RankPosition(p, r)) && Rank(p, RankPosition(p, r)) == r
  {
    var n := Covered(p, r);
    if MaxBlocks(p) <= n {
      TotalMonotone(p, MaxBlocks(p), n);
    }
    OldPartBounds(p, n);
    FirstUse(p, n, OldPart(p, n) + 1 + (r - TotalBlocks(p, n)));
  }

  lemma RankOnlyOf(p: nat, r: nat, pos: Position)
    requires 0 < p && IsPosition(p, pos) && Rank(p, pos) == r
    ensures pos == RankPosition(p, r)
  {
    RankBounds(p, pos);
    CoveredIs(p, FirstOffset(p, pos), r);
  }

  /** The positions in use for the first n offsets are those of the first ranks. */
  lemma RankInOrder(p: nat, n: nat, pos: Position)
    requires 0 < p && IsPosition(p, pos)
    ensures FirstOffset(p, pos) < n <==> Rank(p, pos) < TotalBlocks(p, n)
  {
    RankBounds(p, pos);
    var m := FirstOffset(p, pos);
    if m < n {
      TotalMonotone(p, m + 1, n);
    } else {
      TotalMonotone(p, n, m);
    }
  }

  /** A block comes after the index block that leads to it. */
  lemma ParentRank(p: nat, pos: Position)
    requires 0 < p && IsPosition(p, pos) && 1 < |pos|
    ensures IsPosition(p, Parent(pos)) && 0 <= Rank(p, Parent(pos)) < Rank(p, pos)
  {
    FirstOffsetMonotone(p, pos, |pos| - 1);
    RankBounds(p, pos);
    RankBounds(p, Parent(pos));
    var m, n := FirstOffset(p, Parent(pos)), FirstOffset(p, pos);
    if m < n {
      TotalMonotone(p, m + 1, n);
    }
  }

  /** The rank of the triple-indirect block. */
  function TripleRank(p: nat): nat {
    NDIR + p + p * p + 1 + 1 + p
  }

  /** What the code divides by: all single-indirect trees below a double-indirect block, and all double-indirect
      ones below the triple-indirect block, where the size of one would be right (ext2fs.c:597-598, 643-644,
      664-665). */
  function SingleTrees(p: nat): (size: nat)
    requires 0 < p
    ensures 0 < size
  {
    p * p + p
  }

  function DoubleTrees(p: nat): (size: nat)
    requires 0 < p
    ensures 0 < size
  {
    p * (p * p) + p * p + p
  }

  /** The position that free_inode_block addresses for rank off. */
  function FreedPosition(p: nat, off: nat): Position
    requires 0 < p
  {
    if off < NDIR then [off]
    else if off < NDIR + p + 1 then
      var a := off - NDIR;
      if a == 0 then [SIND] else [SIND, a - 1]
    else if off < TripleRank(p) then
      var a := off - NDIR - p - 1;
      if a == 0 then [DIND] else FreedBelow(p, [DIND], a - 1)
    else
      var a := off - TripleRank(p);
      if a == 0 then [TIND]
      else
        var b, rest := (a - 1) / DoubleTrees(p), (a - 1) % DoubleTrees(p);
        if rest == 0 then [TIND, b] else FreedBelow(p, [TIND, b], rest - 1)
  }

  /** The same below a double-indirect block. */
  function FreedBelow(p: nat, above: Position, a: nat): Position
    requires 0 < p
  {
    var b, rest := a / SingleTrees(p), a % SingleTrees(p);
    if rest == 0 then above + [b] else above + [b, rest - 1]
  }

  /** The ranks for which free_inode_block finds its way: up to the end of the first single-indirect tree below the
      double-indirect block, and the same below the triple-indirect one. */
  predicate FoundRank(p: nat, off: nat) {
    off < NDIR + 2 * p + 3 || TripleRank(p) <= off < TripleRank(p) + 3 + p
  }

  /** Where rank off is: k blocks before the last of those that come with offset n. */
  lemma RankFromEnd(p: nat, n: nat, k: nat)
    requires 0 < p && n < MaxBlocks(p) && k <= NewIndexBlocks(p, n)
    ensures k < |Path(p, n)| && 0 <= TotalBlocks(p, n + 1) - 1 - k
    ensures RankPosition(p, TotalBlocks(p, n + 1) - 1 - k) == Path(p, n)[..|Path(p, n)| - k]
  {
    hide TotalBlocks, NewIndexBlocks, Path, Covered;
    OldPartBounds(p, n);
    TotalNext(p, n);
    CoveredIs(p, n, TotalBlocks(p, n + 1) - 1 - k);
  }

  /** Below a double-indirect block with r blocks of its tree before it, fewer than all of them. */
  lemma FreedBelowAt(p: nat, above: Position, r: nat)
    requires 0 < p && r < SingleTrees(p)
    ensures FreedBelow(p, above, r) == above + (if r == 0 then [0] else [0, r - 1])
  {
    DivUnique(r, SingleTrees(p), 0, r);
  }

  /** Content offset o of the double-indirect range, in single-indirect tree q at r. */
  lemma DoubleOffset(p: nat, o: nat) returns (q: nat, r: nat)
    requires 0 < p && NDIR + p <= o < NDIR + p + p * p
    ensures q < p && r < p && o == NDIR + p + q * p + r && o < MaxBlocks(p) && Path(p, o) == [DIND, q, r]
    ensures NewIndexBlocks(p, o) == if r != 0 then 0 else if q != 0 then 1 else 2
  {
    var a := o - NDIR - p;
    DivBelow(a, p, p);
    q, r := a / p, a % p;
  }

  /** Its rank; x is the size of the trees before its own. */
  lemma DoubleTotal(p: nat, o: nat, q: nat, r: nat) returns (x: nat)
    requires 0 < p && NDIR + p <= o < NDIR + p + p * p && q < p && r < p && o == NDIR + p + q * p + r
    ensures x == q * (p + 1) && x + r + 1 < SingleTrees(p) && (0 < q ==> p < x)
    ensures TotalBlocks(p, o + 1) - 1 == NDIR + p + 3 + x + r
  {
    hide TotalBlocks;
    ClosedFormCounts(p, o + 1);
    DivUnique(o - NDIR - p, p, q, r);
    CeilStep(o - NDIR - p, p);
    ScaledBelow(q, r, p, p);
    Expanded(q, p);
    if 0 < q {
      ProductMonotone(1, q, p + 1);
    }
    x := q * (p + 1);
  }

  lemma Expanded(q: nat, p: nat)
    ensures q * (p + 1) == q * p + q
  {
  }

  lemma FreedInDouble(p: nat, y: nat)
    requires 0 < p && y < SingleTrees(p)
    ensures FreedPosition(p, NDIR + p + 2 + y) == if y == 0 then [DIND, 0] else [DIND, 0, y - 1]
  {
    FreedBelowAt(p, [DIND], y);
  }

  /** Of the blocks that come with a content block of the double-indirect range, k from the end is found in the first
      single-indirect tree only. */
  lemma DoubleFreed(p: nat, q: nat, r: nat, k: nat, x: nat)
    requires 0 < p && q < p && r < p && x == q * (p + 1) && x + r + 1 < SingleTrees(p) && (0 < q ==> p < x)
    requires k <= if r != 0 then 0 else if q != 0 then 1 else 2
    ensures var off := NDIR + p + 3 + x + r - k;
            FreedPosition(p, off) == [DIND, q, r][..3 - k] <==> FoundRank(p, off)
  {
    if k == 2 {
      assert [DIND, q, r][..1] == [DIND];
    } else {
      FreedInDouble(p, x + r + 1 - k);
      hide FreedPosition;
      assert [DIND, q, r][..2] == [DIND, q] && [DIND, q, r][..3] == [DIND, q, r];
    }
  }

  lemma FoundDouble(p: nat, o: nat, k: nat)
    requires 0 < p && NDIR + p <= o < NDIR + p + p * p && k <= NewIndexBlocks(p, o)
    ensures var off := TotalBlocks(p, o + 1) - 1 - k;
            && 0 <= off && o < MaxBlocks(p) && k < |Path(p, o)|
            && (FreedPosition(p, off) == Path(p, o)[..|Path(p, o)| - k] <==> FoundRank(p, off))
  {
    var q, r := DoubleOffset(p, o);
    var x := DoubleTotal(p, o, q, r);
    hide FreedPosition, FoundRank, TotalBlocks, NewIndexBlocks, Path, SingleTrees, MaxBlocks;
    DoubleFreed(p, q, r, k, x);
  }

  /** Content offset o of the triple-indirect range. */
  lemma TripleOffset(p: nat, o: nat) returns (q: nat, s: nat, d: nat)
    requires 0 < p && NDIR + p + p * p <= o < MaxBlocks(p)
    ensures q < p && s < p && d < p && o == NDIR + p + p * p + (q * (p * p) + (s * p + d))
    ensures Path(p, o) == [TIND, q, s, d]
    ensures NewIndexBlocks(p, o) == if d != 0 then 0 else if s != 0 then 1 else if q != 0 then 2 else 3
  {
    var a, pp := o - NDIR - p - p * p, p * p;
    TriplePath(p, o);
    DivBelow(a, pp, p);
    DivBelow(a % pp, p, p);
    q, s, d := a / pp, a % pp / p, a % pp % p;
    TripleNew(p, o);
  }

  /** Its rank; x and y are the sizes of the double- and single-indirect trees before its own. */
  lemma TripleTotal(p: nat, o: nat, q: nat, s: nat, d: nat) returns (x: nat, y: nat)
    requires 0 < p && q < p && s < p && d < p && o == NDIR + p + p * p + (q * (p * p) + (s * p + d))
    ensures x == q * (p * p + p + 1) && y == s * (p + 1)
    ensures TotalBlocks(p, o + 1) - 1 == TripleRank(p) + 3 + x + y + d
  {
    hide TotalBlocks, TripleIndexBlocks;
    ProductMonotone(0, q, p * p);
    ProductMonotone(0, s, p);
    ClosedFormCounts(p, o + 1);
    TripleIndex(p, q, s, d);
    TreeSize(p, q);
    Expanded(s, p);
    x, y := q * (p * p + p + 1), s * (p + 1);
  }

  lemma TripleIndex(p: nat, q: nat, s: nat, d: nat)
    requires 0 < p && s < p && d < p
    ensures TripleIndexBlocks(p, q * (p * p) + (s * p + d) + 1) == 5 + p + q + q * p + s
  {
    ScaledBelow(s, d, p, p);
    DivUnique(s * p + d, p, s, d);
    CeilStep(s * p + d, p);
    hide TripleIndexBlocks, CeilDiv;
    TripleAt(p, q * (p * p) + (s * p + d) + 1, q, s * p + d + 1);
  }

  /** These sizes are in range. */
  lemma TripleSizes(p: nat, q: nat, s: nat, d: nat)
    requires 0 < p && q < p && s < p && d < p
    ensures var x, y := q * (p * p + p + 1), s * (p + 1);
            && 0 <= x && 0 <= y
            && y + d + 1 < SingleTrees(p) && x + y + d + 2 < DoubleTrees(p)
            && (0 < q ==> p + 2 <= x) && (0 < s ==> p < y)
  {
    var m := p * p + p + 1;
    ProductMonotone(s, p - 1, p + 1);
    ProductMonotone(q, p - 1, m);
    assert (p - 1) * (p + 1) == p * p - 1;
    assert (p - 1) * m == p * (p * p) + p * p + p - m;
    ProductMonotone(1, p, p);
    if 0 < q {
      ProductMonotone(1, q, m);
    }
    if 0 < s {
      ProductMonotone(1, s, p + 1);
    }
    ProductMonotone(0, q, m);
    ProductMonotone(0, s, p + 1);
  }

  lemma FreedInTriple(p: nat, z: nat)
    requires 0 < p && z < DoubleTrees(p)
    ensures FreedPosition(p, TripleRank(p) + 1 + z) == if z == 0 then [TIND, 0] else FreedBelow(p, [TIND, 0], z - 1)
  {
    DivUnique(z, DoubleTrees(p), 0, z);
  }

  lemma FreedStarts(p: nat, above: Position, a: nat)
    requires 0 < p
    ensures |above| < |FreedBelow(p, above, a)| && FreedBelow(p, above, a)[..|above|] == above
  {
  }

  /** Below the first double-indirect block, k from the end is found in the first single-indirect tree only. */
  lemma TripleFreedFirst(p: nat, s: nat, d: nat, k: nat, y: nat)
    requires 0 < p && s < p && d < p && (s == 0 ==> y == 0) && (0 < s ==> p < y)
    requires y + d + 1 < SingleTrees(p) && y + d + 2 < DoubleTrees(p)
    requires k <= if d != 0 then 0 else if s != 0 then 1 else 3
    ensures var off := TripleRank(p) + 3 + y + d - k;
            FreedPosition(p, off) == [TIND, 0, s, d][..4 - k] <==> FoundRank(p, off)
  {
    var path := [TIND, 0, s, d];
    assert path[..1] == [TIND] && path[..2] == [TIND, 0] && path[..3] == [TIND, 0, s] && path[..4] == path;
    if k < 3 {
      FreedInTriple(p, 2 + y + d - k);
      hide FreedPosition;
      if k < 2 {
        FreedBelowAt(p, [TIND, 0], 1 + y + d - k);
      }
    }
  }

  /** Below a later one nothing is found: the first pointer is always taken. */
  lemma TripleFreedLater(p: nat, q: nat, s: nat, d: nat, k: nat, z: nat)
    requires 0 < p && 0 < q && k <= 2 && p + 3 < z + k + 1 && z + k < DoubleTrees(p) && k < z
    ensures FreedPosition(p, TripleRank(p) + 1 + z) != [TIND, q, s, d][..4 - k]
  {
    FreedInTriple(p, z);
    FreedStarts(p, [TIND, 0], z - 1);
    hide FreedPosition, FreedBelow;
    var f := FreedBelow(p, [TIND, 0], z - 1);
    assert f[1] == f[..2][1] == 0 && [TIND, q, s, d][..4 - k][1] == q;
  }

  lemma TripleFreed(p: nat, q: nat, s: nat, d: nat, k: nat, x: nat, y: nat)
    requires 0 < p && q < p && s < p && d < p && (q == 0 ==> x == 0) && (s == 0 ==> y == 0)
    requires y + d + 1 < SingleTrees(p) && x + y + d + 2 < DoubleTrees(p) && (0 < q ==> p + 2 <= x) && (0 < s ==> p < y)
    requires k <= if d != 0 then 0 else if s != 0 then 1 else if q != 0 then 2 else 3
    ensures var off := TripleRank(p) + 3 + x + y + d - k;
            FreedPosition(p, off) == [TIND, q, s, d][..4 - k] <==> FoundRank(p, off)
  {
    if q == 0 {
      TripleFreedFirst(p, s, d, k, y);
    } else {
      TripleFreedLater(p, q, s, d, k, 2 + x + y + d - k);
    }
  }

  lemma FoundTriple(p: nat, o: nat, k: nat)
    requires 0 < p && NDIR + p + p * p <= o < MaxBlocks(p) && k <= NewIndexBlocks(p, o)
    ensures var off := TotalBlocks(p, o + 1) - 1 - k;
            && 0 <= off && k < |Path(p, o)|
            && (FreedPosition(p, off) == Path(p, o)[..|Path(p, o)| - k] <==> FoundRank(p, off))
  {
    var q, s, d := TripleOffset(p, o);
    var x, y := TripleTotal(p, o, q, s, d);
    TripleSizes(p, q, s, d);
    hide FreedPosition, FoundRank, TotalBlocks, NewIndexBlocks, Path, SingleTrees, DoubleTrees, MaxBlocks, TripleRank;
    TripleFreed(p, q, s, d, k, x, y);
  }

  lemma FoundShallow(p: nat, o: nat, k: nat)
    requires 0 < p && o < NDIR + p && k <= NewIndexBlocks(p, o)
    ensures var off := TotalBlocks(p, o + 1) - 1 - k;
            && 0 <= off && o < MaxBlocks(p) && k < |Path(p, o)|
            && FreedPosition(p, off) == Path(p, o)[..|Path(p, o)| - k] && FoundRank(p, off)
  {
    hide TotalBlocks;
    ClosedFormCounts(p, o + 1);
    assert k == 1 ==> o == NDIR && [SIND, 0][..1] == [SIND];
    assert k == 0 ==> Path(p, o)[..|Path(p, o)|] == Path(p, o);
  }

  /** free_inode_block addresses the block of a rank exactly in these two ranges: for every rank of every file. */
  lemma FreedExactly(p: nat, off: nat)
    requires 0 < p && off < AllRanks(p)
    ensures FreedPosition(p, off) == RankPosition(p, off) <==> FoundRank(p, off)
  {
    var n := Covered(p, off);
    if MaxBlocks(p) <= n {
      TotalMonotone(p, MaxBlocks(p), n);
    }
    hide TotalBlocks, NewIndexBlocks, FreedPosition, RankPosition, FoundRank, Path, MaxBlocks;
    TotalNext(p, n);
    FoundAt(p, n, TotalBlocks(p, n + 1) - 1 - off);
  }

  lemma FoundAt(p: nat, n: nat, k: nat)
    requires 0 < p && n < MaxBlocks(p) && k <= NewIndexBlocks(p, n)
    ensures var off := TotalBlocks(p, n + 1) - 1 - k;
            && 0 <= off
            && (FreedPosition(p, off) == RankPosition(p, off) <==> FoundRank(p, off))
  {
    hide TotalBlocks, NewIndexBlocks, FreedPosition, RankPosition, FoundRank, Path, MaxBlocks;
    RankFromEnd(p, n, k);
    if n < NDIR + p {
      FoundShallow(p, n, k);
    } else if n < NDIR + p + p * p {
      FoundDouble(p, n, k);
    } else {
      FoundTriple(p, n, k);
    }
  }

  /** The files whose last block is found. */
  predicate FoundOffset(p: nat, o: nat) {
    o < NDIR + 2 * p || NDIR + p + p * p <= o < NDIR + 2 * p + p * p
  }

  /** The last real block of a file that ends with offset o: free_inode_block finds it if and only if o is among the
      first p offsets of the double- or of the triple-indirect range, or before them. */
  lemma LastBlockFreed(p: nat, o: nat)
    requires 0 < p && o < MaxBlocks(p)
    ensures var off := TotalBlocks(p, o + 1) - 1;
            && 0 <= off < AllRanks(p) && RankPosition(p, off) == Path(p, o)
            && (FreedPosition(p, off) == Path(p, o) <==> FoundOffset(p, o))
            && (FoundRank(p, off) <==> FoundOffset(p, o))
  {
    hide TotalBlocks, NewIndexBlocks, FreedPosition, RankPosition, Path, MaxBlocks;
    RankFromEnd(p, o, 0);
    TotalMonotone(p, o + 1, MaxBlocks(p));
    assert Path(p, o)[..|Path(p, o)|] == Path(p, o);
    FoundAt(p, o, 0);
    LastRankFound(p, o);
  }

  lemma LastRankFound(p: nat, o: nat)
    requires 0 < p && o < MaxBlocks(p)
    ensures 0 <= TotalBlocks(p, o + 1) - 1
    ensures FoundRank(p, TotalBlocks(p, o + 1) - 1) <==> FoundOffset(p, o)
  {
    hide TotalBlocks, NewIndexBlocks, Path, MaxBlocks;
    if o < NDIR + p {
      FoundShallow(p, o, 0);
    } else if o < NDIR + p + p * p {
      var q, r := DoubleOffset(p, o);
      var x := DoubleTotal(p, o, q, r);
      DoubleFirst(p, q, r);
    } else {
      var q, s, d := TripleOffset(p, o);
      var x, y := TripleTotal(p, o, q, s, d);
      TripleSizes(p, q, s, d);
      TripleFirst(p, q, s, d);
    }
  }

  lemma DoubleFirst(p: nat, q: nat, r: nat)
    requires r < p
    ensures q * p + r < p <==> q == 0
  {
    if 0 < q {
      ProductMonotone(1, q, p);
    }
  }

  lemma TripleFirst(p: nat, q: nat, s: nat, d: nat)
    requires d < p
    ensures 0 <= q * (p * p) + (s * p + d) && (q * (p * p) + (s * p + d) < p <==> q == 0 && s == 0)
  {
    ProductMonotone(1, p, p);
    ProductMonotone(0, q, p * p);
    ProductMonotone(0, s, p);
    if 0 < q {
      ProductMonotone(1, q, p * p);
    }
    if 0 < s {
      ProductMonotone(1, s, p);
    }
  }

  /** Beyond the first single-indirect tree the pointer addressed lies outside its index block. */
  lemma AddressedOutside(p: nat, o: nat)
    requires 0 < p && (NDIR + 2 * p <= o < NDIR + p + p * p || NDIR + 2 * p + p * p <= o < NDIR + p + 2 * (p * p))
    requires o < MaxBlocks(p)
    ensures var off := TotalBlocks(p, o + 1) - 1;
            && 0 <= off && 0 < |FreedPosition(p, off)| && p <= Last(FreedPosition(p, off))
            && !IsPosition(p, FreedPosition(p, off))
  {
    hide TotalBlocks, NewIndexBlocks, Path, MaxBlocks;
    if o < NDIR + p + p * p {
      var q, r := DoubleOffset(p, o);
      var x := DoubleTotal(p, o, q, r);
      DoubleFirst(p, q, r);
      FreedInDouble(p, x + r + 1);
    } else {
      var q, s, d := TripleOffset(p, o);
      var x, y := TripleTotal(p, o, q, s, d);
      TripleSizes(p, q, s, d);
      TripleFirst(p, q, s, d);
      if 0 < q {
        ProductMonotone(1, q, p * p);
      }
      FreedInTriple(p, 2 + x + y + d);
      FreedBelowAt(p, [TIND, 0], 1 + y + d);
    }
  }

  /** The cuts for which every block is found. */
  predicate FoundRange(p: nat, k: nat, n: nat) {
    n <= NDIR + 2 * p || (NDIR + p + p * p <= k && n <= NDIR + 2 * p + p * p)
  }

  lemma Thresholds(p: nat)
    requires 1 < p
    ensures TotalBlocks(p, NDIR + 2 * p) == NDIR + 2 * p + 3 < TripleRank(p) - 1
    ensures TotalBlocks(p, NDIR + p + p * p) == TripleRank(p)
    ensures TotalBlocks(p, NDIR + 2 * p + p * p) == TripleRank(p) + 3 + p
    ensures NDIR + 2 * p + p * p <= MaxBlocks(p)
  {
    hide TotalBlocks;
    ProductMonotone(2, p, p);
    ProductMonotone(1, p, p * p);
    var x := DoubleTotal(p, NDIR + 2 * p - 1, 0, p - 1);
    TotalBeforeTree(p, 0);
    var y, z := TripleTotal(p, NDIR + 2 * p + p * p - 1, 0, 0, p - 1);
  }

  /** Cutting a file from n to k content blocks, free_inode_block is called for these ranks. It finds all of them if
      and only if the cut is in that range. */
  lemma FoundRanks(p: nat, k: nat, n: nat)
    requires 1 < p && k < n <= MaxBlocks(p)
    ensures FoundRange(p, k, n)
            <==> forall off: nat | TotalBlocks(p, k) <= off < TotalBlocks(p, n) :: FoundRank(p, off)
  {
    hide TotalBlocks, MaxBlocks;
    Thresholds(p);
    TotalMonotone(p, k, n);
    if FoundRange(p, k, n) {
      if n <= NDIR + 2 * p {
        TotalMonotone(p, n, NDIR + 2 * p);
      } else {
        TotalMonotone(p, n, NDIR + 2 * p + p * p);
        TotalMonotone(p, NDIR + p + p * p, k);
      }
    } else {
      SomeMissed(p, k, n);
    }
  }

  lemma SomeMissed(p: nat, k: nat, n: nat)
    requires 1 < p && k < n <= MaxBlocks(p) && !FoundRange(p, k, n)
    ensures exists off: nat | TotalBlocks(p, k) <= off < TotalBlocks(p, n) :: !FoundRank(p, off)
  {
    hide TotalBlocks, MaxBlocks;
    Thresholds(p);
    TotalMonotone(p, k, n);
    LastRankFound(p, n - 1);
    if FoundOffset(p, n - 1) {
      TotalMonotone(p, k, NDIR + p + p * p);
      TotalMonotone(p, NDIR + p + p * p, n);
      assert !FoundRank(p, TripleRank(p) - 1);
    } else {
      assert !FoundRank(p, TotalBlocks(p, n) - 1);
    }
  }
}
