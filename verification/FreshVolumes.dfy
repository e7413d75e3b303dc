/** Sound volumes and files exist: a freshly formatted volume of one group. */
module FreshVolumes {
  import opened Bytes
  import opened Bitmaps
  import opened BlockCounts
  import opened BlockTree
  import opened TreeUpdates
  import opened Volumes
  import opened Allocation
  import opened FileGrowth

  /** One group of n blocks: block 1 is its bitmap, in which blocks 0 and 1 are marked. */
  function Fresh(p: nat, n: nat): Volume
    requires 2 <= n <= 32 * p
  {
    Volume(p, n, seq(n, _ => Zeros(4 * p))[1 := Mark(Mark(Zeros(4 * p), 0), 1)], [Group(1, n - 2)])
  }

  lemma {:induction false} ZeroHasNoBits(k: nat)
    ensures !Bit(0, k)
    decreases k
  {
    if 0 < k {
      ZeroHasNoBits(k - 1);
    }
  }

  lemma BlankDecodes(p: nat, i: nat)
    requires i < 32 * p
    ensures !Decode(Zeros(4 * p))[i]
  {
    DecodeAt(Zeros(4 * p), i);
    ZeroHasNoBits(i % 8);
  }

  lemma {:induction false} AllClear(s: seq<bool>)
    requires forall i | 0 <= i < |s| :: !s[i]
    ensures CountFalse(s) == |s|
    decreases |s|
  {
    if s != [] {
      AllClear(s[..|s| - 1]);
    }
  }

  lemma FreshBits(p: nat, n: nat, i: nat)
    requires 2 <= n <= 32 * p && i < n
    ensures Decode(Mark(Mark(Zeros(4 * p), 0), 1))[i] == (i < 2)
  {
    var z := Zeros(4 * p);
    DecodeMark(z, 0);
    DecodeMark(Mark(z, 0), 1);
    BlankDecodes(p, i);
  }

  lemma FreshCount(p: nat, n: nat)
    requires 2 <= n <= 32 * p
    ensures CountClear(Mark(Mark(Zeros(4 * p), 0), 1), n) == n - 2
  {
    var z := Zeros(4 * p);
    forall i | 0 <= i < n ensures !Decode(z)[..n][i] {
      BlankDecodes(p, i);
    }
    AllClear(Decode(z)[..n]);
    BlankDecodes(p, 0);
    BlankDecodes(p, 1);
    DecodeMark(z, 0);
    CountMark(z, 0, n);
    CountMark(Mark(z, 0), 1, n);
  }

  lemma FreshOk(p: nat, n: nat)
    requires PointersPerBlock(p) && 2 <= n <= 32 * p && n % 32 == 0
    ensures BlocksOk(Fresh(p, n)) && SumFree(Fresh(p, n).groups) == n - 2
  {
    var v := Fresh(p, n);
    FreshCount(p, n);
    assert v.groups[..0] == [];
    assert Layout(v) && Counted(v);
    forall b: nat ensures InUse(v, b) == (b < 2 || n <= b) {
      if b < n {
        FreshBits(p, n, b);
      } else {
        assert GroupOf(n, b) == GroupOf(n, b - n) + 1;
      }
    }
    assert forall b: nat | IsBitmap(v, b) :: b == 1;
  }

  /** An inode without blocks is a file of length 0 in any sound volume. */
  lemma EmptyFile(v: Volume)
    requires BlocksOk(v) && 0 < |v.disk|
    ensures FileOk(v, seq(NSLOTS, _ => 0), 0)
  {
    var root := seq(NSLOTS, _ => 0);
    forall pos | IsPosition(v.p, pos) ensures NodeAt(v.p, v.disk, root, pos) == 0 {
      EmptyNode(v, root, pos);
    }
    hide InUse, IsBitmap;
    assert Owned(v.p, v.disk, root);
  }

  lemma {:induction false} EmptyNode(v: Volume, root: seq<nat>, pos: Position)
    requires Layout(v) && root == seq(NSLOTS, _ => 0) && IsPosition(v.p, pos)
    ensures NodeAt(v.p, v.disk, root, pos) == 0
    decreases |pos|
  {
    if 1 < |pos| {
      EmptyNode(v, root, Parent(pos));
    }
  }
}
