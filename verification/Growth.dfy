/** Trees that grow offset by offset: which positions are in use, and how many index blocks a new
    offset needs. */
module Growth {
  import opened BlockCounts
  import opened BlockTree
  import opened TreeUpdates

  /** Exactly the positions that the first n offsets need are in use. */
  ghost predicate Grown(p: nat, disk: seq<Block>, root: seq<nat>, n: nat)
    requires Owned(p, disk, root)
  {
    forall pos | IsPosition(p, pos) :: NodeAt(p, disk, root, pos) != 0 <==> FirstOffset(p, pos) < n
  }

  /** How many of the first k index blocks on a path do not exist. */
  ghost function Missing(p: nat, disk: seq<Block>, root: seq<nat>, path: Position, k: nat): nat
    requires Formatted(p, disk) && |root| == NSLOTS && IsPosition(p, path) && k <= |path|
    decreases k
  {
    if k == 0 then 0
    else Missing(p, disk, root, path, k - 1) + (if NodeAt(p, disk, root, path[..k]) == 0 then 1 else 0)
  }

  /** The tree of disk', root' is that of disk, root with rb stored at the path of off and whatever
      was missing above it created. */
  ghost predicate PathSet(p: nat, disk: seq<Block>, root: seq<nat>, disk': seq<Block>, root': seq<nat>, off: nat,
                          rb: nat)
    requires Owned(p, disk, root) && Owned(p, disk', root')
  {
    && (forall q | IsPosition(p, q) && q == Path(p, off) :: NodeAt(p, disk', root', q) == rb)
    && (forall q | IsPosition(p, q) && q < Path(p, off) ::
          && NodeAt(p, disk', root', q) != 0
          && (NodeAt(p, disk, root, q) != 0 ==> NodeAt(p, disk', root', q) == NodeAt(p, disk, root, q)))
    && (forall q | IsPosition(p, q) && !(q <= Path(p, off)) :: NodeAt(p, disk', root', q) == NodeAt(p, disk, root, q))
  }

  /** Mapping offset n of a tree grown to n grows it to n + 1. */
  lemma GrownStep(p: nat, disk: seq<Block>, root: seq<nat>, disk': seq<Block>, root': seq<nat>, n: nat, rb: nat)
    requires Owned(p, disk, root) && Owned(p, disk', root') && n < MaxBlocks(p)
    requires Grown(p, disk, root, n) && rb != 0
    requires PathSet(p, disk, root, disk', root', n, rb)
    ensures Grown(p, disk', root', n + 1)
  {
    PathIsLeaf(p, n);
    var path := Path(p, n);
    forall q | IsPosition(p, q) ensures NodeAt(p, disk', root', q) != 0 <==> FirstOffset(p, q) < n + 1 {
      if q <= path {
        FirstOffsetMonotone(p, path, |q|);
        assert path[..|q|] == q;
      } else if FirstOffset(p, q) == n {
        FirstUseOnPath(p, q, n);
      }
    }
  }

  /** In a tree grown to n, an index block on the path of n is missing exactly when n is its first use. */
  lemma MissingOnPath(p: nat, disk: seq<Block>, root: seq<nat>, n: nat, k: nat)
    requires Owned(p, disk, root) && Grown(p, disk, root, n) && n < MaxBlocks(p)
    requires 1 <= k <= |Path(p, n)|
    ensures IsPosition(p, Path(p, n)) && IsPosition(p, Path(p, n)[..k])
    ensures NodeAt(p, disk, root, Path(p, n)[..k]) == 0 <==> FirstOffset(p, Path(p, n)[..k]) == n
  {
    PathIsLeaf(p, n);
    FirstOffsetMonotone(p, Path(p, n), k);
  }

  /** The index blocks missing for the next offset are as many as the closed block count adds. */
  lemma MissingCount(p: nat, disk: seq<Block>, root: seq<nat>, n: nat)
    requires Owned(p, disk, root) && Grown(p, disk, root, n) && n < MaxBlocks(p)
    ensures IsPosition(p, Path(p, n))
    ensures Missing(p, disk, root, Path(p, n), |Path(p, n)| - 1) == NewIndexBlocks(p, n)
  {
    PathIsLeaf(p, n);
    var path := Path(p, n);
    if NDIR <= n {
      MissingOnPath(p, disk, root, n, 1);
      if NDIR + p <= n {
        MissingOnPath(p, disk, root, n, 2);
        if NDIR + p + p * p <= n {
          MissingOnPath(p, disk, root, n, 3);
          FirstUseTriple(p, n);
        } else {
          FirstUseDouble(p, n);
        }
      }
    }
    assert Missing(p, disk, root, path, 0) == 0;
    assert 1 < |path| ==> Missing(p, disk, root, path, 1) == if NodeAt(p, disk, root, path[..1]) == 0 then 1 else 0;
  }

  lemma FirstUseDouble(p: nat, n: nat)
    requires 0 < p && NDIR + p <= n < NDIR + p + p * p
    ensures var path, a := Path(p, n), n - NDIR - p;
            && IsLeaf(p, path) && |path| == 3
            && (FirstOffset(p, path[..1]) == n <==> a == 0)
            && (FirstOffset(p, path[..2]) == n <==> a % p == 0)
  {
    var a := n - NDIR - p;
    DivBelow(a, p, p);
  }

  lemma FirstUseTriple(p: nat, n: nat)
    requires 0 < p && NDIR + p + p * p <= n < MaxBlocks(p)
    ensures var path, a := Path(p, n), n - NDIR - p - p * p;
            && IsLeaf(p, path) && |path| == 4
            && (FirstOffset(p, path[..1]) == n <==> a == 0)
            && (FirstOffset(p, path[..2]) == n <==> a % (p * p) == 0)
            && (FirstOffset(p, path[..3]) == n <==> a % (p * p) % p == 0)
  {
    var pp := p * p;
    var a := n - NDIR - p - pp;
    PathIsLeaf(p, n);
    DivBelow(a, pp, p);
    DivBelow(a % pp, p, p);
  }
}
