/** The tree of an inode and the bytes of a file, told by the bytes on the device alone: which four bytes of which block
    hold the number of a content block (ext2fs.c:785-1010). */
module OnDevice {
  import opened Bytes
  import opened Bitmaps
  import opened BlockCounts
  import opened BlockTree
  import opened Volumes
  import opened Allocation
  import opened Files
  import opened FileGrowth
  import opened FileBytes

  /** Four bytes of block b, from byte 4 * i on, as a number; block 0 stands for none. */
  function EntryOf(disk: seq<Block>, b: nat, i: int): (r: nat)
    ensures 0 < b < |disk| && 0 <= i && 4 * i + 4 <= |disk[b]| ==>
              r == disk[b][4 * i] as int + 0x100 * disk[b][4 * i + 1] as int + 0x1_0000 * disk[b][4 * i + 2] as int
                   + 0x100_0000 * disk[b][4 * i + 3] as int
  {
    if b == 0 || |disk| <= b || i < 0 || |disk[b]| < 4 * i + 4 then 0
    else
      var e := disk[b][4 * i..4 * i + 4];
      FourBytes(e);
      LittleEndian(e)
  }

  lemma FourBytes(e: seq<Byte>)
    requires |e| == 4
    ensures LittleEndian(e)
            == e[0] as int + 0x100 * e[1] as int + 0x1_0000 * e[2] as int + 0x100_0000 * e[3] as int
  {
    WordIsLittleEndian(e, 0);
    assert e[0..0 + 4] == e;
  }

  /** The block number of content offset off. */
  function RealBlock(p: nat, disk: seq<Block>, root: seq<nat>, off: nat): nat
    requires 0 < p && |root| == 15
  {
    if off < 12 then root[off]
    else if off < 12 + p then EntryOf(disk, root[12], off - 12)
    else if off < 12 + p + p * p then
      var a := off - 12 - p;
      EntryOf(disk, EntryOf(disk, root[13], a / p), a % p)
    else
      ProductAtLeast(p, p);
      ThirdEntry(p, p * p, disk, root[14], off - 12 - p - p * p)
  }

  function ThirdEntry(p: nat, pp: nat, disk: seq<Block>, b: nat, a: nat): nat
    requires 0 < p && 0 < pp
  {
    EntryOf(disk, EntryOf(disk, EntryOf(disk, b, a / pp), a % pp / p), a % pp % p)
  }

  lemma PointerIsEntry(p: nat, disk: seq<Block>, b: nat, i: nat)
    requires 0 < b < |disk| && |disk[b]| == 4 * p && i < p
    ensures Pointer(p, disk[b], i) == EntryOf(disk, b, i)
  {
  }

  /** The node below par is the entry of the block there. */
  lemma ChildIsEntry(v: Volume, root: seq<nat>, pos: Position, par: Position)
    requires Mapped(v, root) && IsPosition(v.p, pos) && 1 < |pos| && par == Parent(pos) && IsPosition(v.p, par)
    ensures Node(v, root, pos) == EntryOf(v.disk, Node(v, root, par), Last(pos))
  {
    hide Mapped, NodeAt, EntryOf, Pointer;
    MappedShape(v, root);
    NodeInRange(v, root, par);
    NodeOfChild(v, root, pos, par);
    if Node(v, root, par) == 0 {
      NodeBelowNothing(v, root, pos, par);
      NoEntry(v.disk, Last(pos));
    } else {
      PointerIsEntry(v.p, v.disk, Node(v, root, par), Last(pos));
    }
  }

  lemma NoEntry(disk: seq<Block>, i: nat)
    ensures EntryOf(disk, 0, i) == 0
  {
  }

  /** The node at the end of the path of an offset is what the bytes on the device lead to. */
  lemma NodeIsReal(v: Volume, root: seq<nat>, off: nat)
    requires Mapped(v, root) && 0 < v.p && off < MaxBlocks(v.p)
    ensures |root| == 15 && IsPosition(v.p, Path(v.p, off))
    ensures Node(v, root, Path(v.p, off)) == RealBlock(v.p, v.disk, root, off)
  {
    hide Mapped, NodeAt, EntryOf;
    var p, path := v.p, Path(v.p, off);
    MappedShape(v, root);
    PathIsLeaf(p, off);
    if off < NDIR {
      NodeOfSlot(v, root, off);
    } else if off < NDIR + p {
      SinglePath(p, off);
      NodeOfSlot(v, root, SIND);
      ChildIsEntry(v, root, path, [SIND]);
    } else if off < NDIR + p + p * p {
      DoublePath(p, off);
      NodeOfSlot(v, root, DIND);
      ChildIsEntry(v, root, path[..2], [DIND]);
      ChildIsEntry(v, root, path, path[..2]);
    } else {
      TriplePath(p, off);
      NodeOfSlot(v, root, TIND);
      ChildIsEntry(v, root, path[..2], [TIND]);
      ChildIsEntry(v, root, path[..3], path[..2]);
      ChildIsEntry(v, root, path, path[..3]);
    }
  }

  /** After set_real_block the bytes on the device lead to the number stored, and for every other offset where they led
      before. */
  lemma SetOnDevice(v: Volume, root: seq<nat>, off: nat, rb: nat)
    requires BlocksOk(v) && Mapped(v, root) && 0 < v.p && off < MaxBlocks(v.p) && Attachable(v, root, rb)
    ensures |root| == 15 && |SetSpec(v, root, off, rb).root| == 15
    ensures SetSpec(v, root, off, rb).ok ==>
              var m := SetSpec(v, root, off, rb);
              forall o: nat | o < MaxBlocks(v.p) ::
                RealBlock(v.p, m.v.disk, m.root, o) == if o == off then rb else RealBlock(v.p, v.disk, root, o)
  {
    hide BlocksOk, Mapped, Attachable, SetSpec, MaxBlocks, RealBlock, Path, NodeAt, RealBlockSet;
    SetSpecWorks(v, root, off, rb);
    var m := SetSpec(v, root, off, rb);
    MappedShape(v, root);
    MappedShape(m.v, m.root);
    if m.ok {
      SetThenGet(v, root, off, rb);
      forall o: nat | o < MaxBlocks(v.p)
        ensures RealBlock(v.p, m.v.disk, m.root, o) == if o == off then rb else RealBlock(v.p, v.disk, root, o)
      {
        NodeIsReal(v, root, o);
        NodeIsReal(m.v, m.root, o);
      }
    }
  }

  /** Byte k of a file is byte k % block_sz of the block that offset k / block_sz leads to; a zero without one. */
  lemma BytesOnDevice(v: Volume, root: seq<nat>, size: nat, k: nat, B: nat, o: nat, i: nat)
    requires Mapped(v, root) && 0 < v.p && k < size && B == 4 * v.p && o == k / B && i == k % B && o < MaxBlocks(v.p)
    ensures |root| == 15
    ensures var b := RealBlock(v.p, v.disk, root, o);
            && (b == 0 ==> BytesOf(v, root, size)[k] == 0)
            && (b != 0 ==> b < |v.disk| && i < |v.disk[b]| && BytesOf(v, root, size)[k] == v.disk[b][i])
  {
    hide Mapped, RealBlock, MaxBlocks, Path, NodeAt, Content, BlockOf, IndexOf;
    MappedShape(v, root);
    BlockBytes(B, k);
    assert BytesOf(v, root, size)[k] == Content(v, root, o)[i];
    hide BytesOf;
    ContentOnDevice(v, root, o);
  }

  lemma ContentOnDevice(v: Volume, root: seq<nat>, o: nat)
    requires Mapped(v, root) && 0 < v.p && o < MaxBlocks(v.p)
    ensures |root| == 15
    ensures var b := RealBlock(v.p, v.disk, root, o);
            && (b == 0 ==> Content(v, root, o) == Zeros(4 * v.p))
            && (b != 0 ==> b < |v.disk| && Content(v, root, o) == v.disk[b])
  {
    hide Mapped, RealBlock, MaxBlocks, Path, NodeAt;
    MappedShape(v, root);
    NodeIsReal(v, root, o);
    NodeInRange(v, root, Path(v.p, o));
  }

  /** The same for the specification of set_real_block, whether or not the block can be attached. */
  lemma SetReal(v: Volume, root: seq<nat>, off: nat, rb: nat)
    requires BlocksOk(v) && Mapped(v, root) && 0 < v.p && off < MaxBlocks(v.p)
    ensures |root| == 15
    ensures Attachable(v, root, rb) ==>
              var m := SetSpec(v, root, off, rb);
              && |m.root| == 15 && m.v.p == v.p
              && (m.ok ==> forall o: nat | o < MaxBlocks(v.p) ::
                    RealBlock(v.p, m.v.disk, m.root, o) == if o == off then rb else RealBlock(v.p, v.disk, root, o))
  {
    hide BlocksOk, Mapped, Attachable, SetSpec, MaxBlocks, RealBlock, RealBlockSet;
    MappedShape(v, root);
    if Attachable(v, root, rb) {
      SetSpecWorks(v, root, off, rb);
      SetOnDevice(v, root, off, rb);
    }
  }

  /** In the single-indirect range the number is in four bytes of the block in slot 12. */
  lemma SingleIsReal(v: Volume, root: seq<nat>, off: nat)
    requires Mapped(v, root) && 0 < v.p && 12 <= off < 12 + v.p && off < MaxBlocks(v.p)
    ensures |root| == 15 && Formatted(v.p, v.disk) && root[12] < |v.disk|
    ensures var r := RealBlock(v.p, v.disk, root, off);
            if root[12] == 0 then r == 0
            else r == LittleEndian(v.disk[root[12]][4 * (off - 12)..4 * (off - 12) + 4])
  {
    hide Mapped, NodeAt, LittleEndian, MaxBlocks;
    MappedShape(v, root);
    NodeInRange(v, root, [SIND]);
    NodeOfSlot(v, root, SIND);
  }

  /** In the ranges behind it there are two and three such numbers in a row. */
  lemma FartherIsReal(p: nat, disk: seq<Block>, root: seq<nat>, off: nat)
    requires 0 < p && |root| == 15
    ensures 12 + p <= off < 12 + p + p * p ==>
              var a := off - 12 - p;
              RealBlock(p, disk, root, off) == EntryOf(disk, EntryOf(disk, root[13], a / p), a % p)
    ensures 12 + p + p * p <= off ==>
              var pp, a := p * p, off - 12 - p - p * p;
              && 0 < pp
              && RealBlock(p, disk, root, off)
                 == EntryOf(disk, EntryOf(disk, EntryOf(disk, root[14], a / pp), a % pp / p), a % pp % p)
  {
    hide EntryOf;
    ProductAtLeast(p, p);
  }

  /** All that together, for the node at the end of the path. */
  lemma RealRanges(v: Volume, root: seq<nat>, off: nat)
    requires Mapped(v, root) && 0 < v.p && off < MaxBlocks(v.p)
    ensures |root| == 15 && Formatted(v.p, v.disk) && IsPosition(v.p, Path(v.p, off))
    ensures Node(v, root, Path(v.p, off)) == RealBlock(v.p, v.disk, root, off)
    ensures 12 <= off < 12 + v.p ==>
              var r := RealBlock(v.p, v.disk, root, off);
              root[12] < |v.disk|
              && if root[12] == 0 then r == 0
                 else r == LittleEndian(v.disk[root[12]][4 * (off - 12)..4 * (off - 12) + 4])
    ensures off < 12 ==> RealBlock(v.p, v.disk, root, off) == root[off]
  {
    hide Mapped, NodeAt, EntryOf, LittleEndian, MaxBlocks, Path;
    MappedShape(v, root);
    NodeIsReal(v, root, off);
    if 12 <= off < 12 + v.p {
      SingleIsReal(v, root, off);
    }
  }

  /** Bit k counts for 2^k. */
  lemma {:induction false} BitOfPower(w: nat, k: nat)
    ensures Bit(w, k) <==> w / Pow2(k) % 2 == 1
    decreases k
  {
    if k > 0 {
      BitOfPower(w / 2, k - 1);
      HalfFirst(w, Pow2(k - 1));
    }
  }

  lemma HalfFirst(w: nat, d: nat)
    requires 0 < d
    ensures w / 2 / d == w / (2 * d)
  {
    var q, r := w / 2 / d, w / 2 % d;
    DivModBounds(w / 2, d);
    assert q * (2 * d) == 2 * (q * d);
    DivUnique(w, 2 * d, q, 2 * r + w % 2);
  }

  /** Block b is in use when bit b % n of the bitmap of group b / n is set, counted from the low bit of the first
      byte. */
  lemma UseOnDevice(v: Volume, b: nat, g: nat, i: nat)
    requires Layout(v) && g == b / v.n && i == b % v.n && g < |v.groups|
    ensures i < v.n && v.groups[g].bitmap < |v.disk| && i / 8 < |v.disk[v.groups[g].bitmap]|
    ensures InUse(v, b) <==> v.disk[v.groups[g].bitmap][i / 8] / Pow2(i % 8) % 2 == 1
  {
    hide Decode, Pow2, Bit;
    DivMod(v.n, b);
    DecodeAt(BitmapBlock(v, g), i);
    BitOfPower(v.disk[v.groups[g].bitmap][i / 8], i % 8);
  }
}
