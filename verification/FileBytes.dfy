/** A file as a flat sequence of bytes over its content blocks, and what writing does to it. */
module FileBytes {
  import opened Bytes
  import opened BlockCounts
  import opened BlockTree
  import opened TreeUpdates
  import opened Volumes
  import opened Files
  import opened FileGrowth

  /** The volume with content block off of the file replaced. */
  ghost function Rewritten(v: Volume, root: seq<nat>, off: nat, buf: Block): Volume
    requires Mapped(v, root) && off < MaxBlocks(v.p)
  {
    PathIsLeaf(v.p, off);
    v.(disk := v.disk[Node(v, root, Path(v.p, off)) := buf])
  }

  lemma RewriteKeepsTree(v: Volume, root: seq<nat>, n: nat, off: nat, buf: Block)
    requires FileOk(v, root, n) && off < n && |buf| == 4 * v.p
    ensures FileOk(Rewritten(v, root, off, buf), root, n)
    ensures SameLayout(v, Rewritten(v, root, off, buf)) && Rewritten(v, root, off, buf).groups == v.groups
    ensures forall q | IsPosition(v.p, q) :: Node(Rewritten(v, root, off, buf), root, q) == Node(v, root, q)
    ensures forall b: nat :: InUse(Rewritten(v, root, off, buf), b) == InUse(v, b)
  {
    var v' := Rewritten(v, root, off, buf);
    MappedBelow(v, root, n, off);
    LeafIsNoIndex(v, root, Path(v.p, off));
    TreeFrame(v.p, v.disk, v'.disk, root);
    WriteKeepsUse(v, v');
    forall c: nat ensures IsBitmap(v', c) == IsBitmap(v, c) {
      SameBitmaps(v, v', c);
    }
  }

  lemma RewriteContent(v: Volume, root: seq<nat>, n: nat, off: nat, buf: Block, o: nat)
    requires FileOk(v, root, n) && off < n && |buf| == 4 * v.p
    ensures FileOk(Rewritten(v, root, off, buf), root, n)
    ensures Content(Rewritten(v, root, off, buf), root, o) == if o == off then buf else Content(v, root, o)
  {
    RewriteKeepsTree(v, root, n, off, buf);
    MappedBelow(v, root, n, off);
    if o < MaxBlocks(v.p) {
      MappedBelow(v, root, n, o);
      if o != off {
        LeafNotAbove(v.p, o, off);
        assert Apart(Path(v.p, o), Path(v.p, off));
      }
    }
  }

  lemma RewriteForeign(v: Volume, root: seq<nat>, n: nat, off: nat, buf: Block, c: nat)
    requires FileOk(v, root, n) && off < n && |buf| == 4 * v.p && Foreign(v, root, c)
    ensures FileOk(Rewritten(v, root, off, buf), root, n)
    ensures c < |v.disk| && Foreign(Rewritten(v, root, off, buf), root, c)
            && Rewritten(v, root, off, buf).disk[c] == v.disk[c]
  {
    var v' := Rewritten(v, root, off, buf);
    RewriteKeepsTree(v, root, n, off, buf);
    SameBitmaps(v, v', c);
    MappedBelow(v, root, n, off);
    assert c != Node(v, root, Path(v.p, off));
    if c != 0 {
      forall q | IsPosition(v.p, q) ensures Node(v', root, q) != c {
        assert Node(v', root, q) == Node(v, root, q);
      }
    }
  }

  /** Rewriting a content block changes that content only. */
  lemma RewriteWorks(v: Volume, root: seq<nat>, n: nat, off: nat, buf: Block)
    requires FileOk(v, root, n) && off < n && |buf| == 4 * v.p
    ensures Evolved(v, root, n, Rewritten(v, root, off, buf), root, n)
    ensures forall o: nat ::
              Content(Rewritten(v, root, off, buf), root, o) == if o == off then buf else Content(v, root, o)
  {
    RewriteKeepsTree(v, root, n, off, buf);
    var v' := Rewritten(v, root, off, buf);
    forall o: nat ensures Content(v', root, o) == if o == off then buf else Content(v, root, o) {
      RewriteContent(v, root, n, off, buf, o);
    }
    forall c: nat | Foreign(v, root, c) ensures c < |v.disk| && Foreign(v', root, c) && v'.disk[c] == v.disk[c] {
      RewriteForeign(v, root, n, off, buf, c);
    }
  }

  /** Content block off became buf, the file growing if it had to; nothing else changed. */
  ghost predicate BlockWritten(v: Volume, root: seq<nat>, n: nat, v': Volume, root': seq<nat>, off: nat, buf: Block)
    requires FileOk(v, root, n)
  {
    && Evolved(v, root, n, v', root', if n <= off then off + 1 else n)
    && (forall o: nat :: Content(v', root', o) == if o == off then buf else Content(v, root, o))
  }

  lemma WrittenAfterGrowth(v: Volume, root: seq<nat>, n: nat, v1: Volume, root1: seq<nat>, n1: nat, off: nat,
                           buf: Block)
    requires FileOk(v, root, n) && Grew(v, root, n, v1, root1, n1) && FileOk(v1, root1, n1)
    requires n1 == (if n <= off then off + 1 else n) && |buf| == 4 * v.p
    ensures off < MaxBlocks(v1.p)
    ensures FileOk(Rewritten(v1, root1, off, buf), root1, n1)
    ensures BlockWritten(v, root, n, Rewritten(v1, root1, off, buf), root1, off, buf)
  {
    MappedOf(v1, root1, n1);
    RewriteWorks(v1, root1, n1, off, buf);
    hide FileOk, Mapped, Content, OthersUntouched, MaxBlocks, Rewritten;
    EvolvedTransitive(v, root, n, v1, root1, n1, Rewritten(v1, root1, off, buf), root1, n1);
  }

  function Max(a: nat, b: nat): nat {
    if a < b then b else a
  }

  /** The block of byte k and its place in the block: k / B and k % B. */
  function BlockOf(B: nat, k: nat): nat
    requires 0 < B
  {
    GroupOf(B, k)
  }

  function IndexOf(B: nat, k: nat): (i: nat)
    requires 0 < B
    ensures i < B
  {
    BitOf(B, k)
  }

  /** Where block o starts. */
  function FirstByte(B: nat, o: nat): nat {
    ProductMonotone(0, o, B);
    o * B
  }

  lemma BlockBytes(B: nat, k: nat)
    requires 0 < B
    ensures BlockOf(B, k) == k / B && IndexOf(B, k) == k % B
    ensures k == FirstByte(B, BlockOf(B, k)) + IndexOf(B, k)
  {
    DivMod(B, k);
  }

  lemma NextBlock(B: nat, o: nat, q: nat)
    requires o < q
    ensures FirstByte(B, o) + B <= FirstByte(B, q)
    ensures q == o + 1 ==> FirstByte(B, o) + B == FirstByte(B, q)
  {
    ProductMonotone(o + 1, q, B);
  }

  /** Byte k of a file. */
  ghost function ByteAt(v: Volume, root: seq<nat>, k: nat): Byte
    requires Mapped(v, root)
  {
    Content(v, root, BlockOf(4 * v.p, k))[IndexOf(4 * v.p, k)]
  }

  /** A file of the given size as one sequence of bytes. */
  ghost function BytesOf(v: Volume, root: seq<nat>, size: nat): (r: seq<Byte>)
    requires Mapped(v, root)
    ensures |r| == size
  {
    seq(size, k requires 0 <= k => ByteAt(v, root, k))
  }

  /** Behind the end of the file its blocks hold zeros. */
  ghost predicate ZeroTail(v: Volume, root: seq<nat>, size: nat)
    requires Mapped(v, root)
  {
    forall k: nat | size <= k :: ByteAt(v, root, k) == 0
  }

  /** The bytes between the end of the file and off are zeros. */
  ghost predicate ZeroGap(v: Volume, root: seq<nat>, size: nat, off: nat)
    requires Mapped(v, root)
  {
    forall k: nat | size <= k < off :: ByteAt(v, root, k) == 0
  }

  /** Writing to a flat file: the buffer at its offset, zeros in a gap before it. */
  function FlatWrite(f: seq<Byte>, off: nat, buf: seq<Byte>): (r: seq<Byte>)
    ensures |r| == Max(|f|, off + |buf|)
    ensures r[off..off + |buf|] == buf
    ensures forall k | 0 <= k < |f| && !(off <= k < off + |buf|) :: r[k] == f[k]
    ensures forall k | |f| <= k < off :: r[k] == 0
  {
    if off <= |f| then f[..off] + buf + f[if off + |buf| <= |f| then off + |buf| else |f|..]
    else f + Zeros(off - |f|) + buf
  }

  /** A write of buf at byte off of the file of n blocks that root has in v. */
  datatype Job = Job(v: Volume, root: seq<nat>, n: nat, off: nat, buf: seq<Byte>)

  ghost predicate JobOk(j: Job) {
    && PointersPerBlock(j.v.p)
    && FileOk(j.v, j.root, j.n)
    && 0 < j.off + |j.buf| < WORD
  }

  /** end_block (ext2fs.c:150-151, 210-211): the sum is a size_t. */
  function EndBlock(B: nat, off: nat, sz: nat): int
    requires 0 < B
  {
    U32(off + sz - 1) / B
  }

  /** Only a transfer of nothing at the very start is out of range: its last block would be the last one
      that 32 bits can address. */
  lemma EmptyTransferWraps(B: nat, off: nat, sz: nat)
    requires 0 < B < WORD && off + sz < WORD
    ensures EndBlock(B, off, sz) * B <= off + sz <==> 0 < off + sz
    ensures EndBlock(1024, 0, 0) == 0x3f_ffff
  {
    if off + sz == 0 {
      ProductMonotone(1, (WORD - 1) / B, B);
      DivUnique(WORD - 1, B, (WORD - 1) / B, (WORD - 1) % B);
    } else {
      DivModBounds(off + sz - 1, B);
    }
  }

  /** How many bytes a transfer moves between the blocks and the buffer: a part of the block it starts in,
      a part of the block it ends in, and the blocks in between (ext2fs.c:152-192, 212-251). */
  function Moved(B: nat, off: nat, sz: nat): int
    requires 0 < B
  {
    var start, end := off / B, EndBlock(B, off, sz);
    var head := off % B != 0 || sz < B;
    var prefix := if !head then 0 else if B - off % B > sz then sz else B - off % B;
    var start' := if head then start + 1 else start;
    var tail := (off + sz) % B != 0 && start' <= end;
    var postfix := if tail then (off + sz) % B else 0;
    var end' := if tail then end - 1 else end;
    prefix + postfix + (if start' <= end' then (end' - start' + 1) * B else 0)
  }

  /** A transfer moves exactly what was asked for, unless that is nothing at the very start: then it goes on
      to the last block that 32 bits can address, past the end of the buffer. */
  lemma MovesExactly(B: nat, off: nat, sz: nat)
    requires 0 < B < WORD && off + sz < WORD
    ensures Moved(B, off, sz) == sz <==> 0 < off + sz
    ensures Moved(1024, 0, 0) == 0x3f_ffff * 1024
  {
    if off + sz == 0 {
      DivUnique(0, B, 0, 0);
      ProductMonotone(1, (WORD - 1) / B, B);
      DivUnique(WORD - 1, B, (WORD - 1) / B, (WORD - 1) % B);
    } else {
      BlockBytes(B, off);
      BlockBytes(B, off + sz - 1);
      MovesRange(B, off, sz, BlockOf(B, off), BlockOf(B, off + sz - 1));
    }
  }

  lemma MovesRange(B: nat, off: nat, sz: nat, start: nat, end: nat)
    requires 0 < B < WORD && 0 < off + sz < WORD
    requires start == BlockOf(B, off) && end == BlockOf(B, off + sz - 1)
    requires start == off / B && end == EndBlock(B, off, sz)
    ensures Moved(B, off, sz) == sz
  {
    hide BlockOf, FirstByte, EndBlock;
    RangeOf(B, off, sz, start, end);
    BlockBytes(B, off);
    NextBlock(B, start, start + 1);
    var start' := if off % B != 0 || sz < B then start + 1 else start;
    if start' <= end {
      if (off + sz) % B != 0 {
        LastBlockBytes(B, off + sz);
        BytesBetween(B, start', end);
      } else {
        LastBlockFull(B, off + sz);
        BytesBetween(B, start', end + 1);
      }
    } else {
      BlockBytes(B, off + sz - 1);
      NextBlock(B, end, end + 1);
      if end < start {
        NextBlock(B, end, start);
      }
    }
  }

  lemma BytesBetween(B: nat, start: nat, end: nat)
    requires start <= end
    ensures FirstByte(B, end) - FirstByte(B, start) == (end - start) * B
  {
  }

  /** ext2fs.c:146-148: how much of a read of sz bytes the file can serve. */
  function Clamped(off: nat, sz: nat, size: nat): nat {
    if off > size then 0 else if U32(off + sz) > size then size - off else sz
  }

  /** The clamping keeps a read inside the file exactly when off + sz does not wrap around. */
  lemma ClampedInside(off: nat, sz: nat, size: nat)
    requires off <= size < WORD && sz < WORD
    ensures off + Clamped(off, sz, size) <= size <==> off + sz < WORD
  {
  }

  /** The highest block that the write touches. An empty write still touches the block of its offset. */
  function LastBlock(p: nat, off: nat, sz: nat): nat
    requires 0 < p
  {
    if sz == 0 then BlockOf(4 * p, off) else BlockOf(4 * p, off + sz - 1)
  }

  /** A block that starts at byte base, with the part of buf that falls into it laid over it. */
  function Overlay(block: Block, base: int, off: int, buf: seq<Byte>): (r: Block)
    ensures |r| == |block|
  {
    seq(|block|, i requires 0 <= i < |block| => if off <= base + i < off + |buf| then buf[base + i - off] else block[i])
  }

  /** What block o is to hold after the write. */
  ghost function Target(j: Job, o: nat): (r: Block)
    requires Mapped(j.v, j.root)
    ensures |r| == 4 * j.v.p
  {
    Overlay(Content(j.v, j.root, o), FirstByte(4 * j.v.p, o), j.off, j.buf)
  }

  /** The write is under way: the file has m blocks, and those from start to end are still to be written. */
  ghost predicate Writing(j: Job, v: Volume, root: seq<nat>, m: nat, start: nat, end: int)
    requires JobOk(j)
  {
    && Evolved(j.v, j.root, j.n, v, root, m)
    && m <= Max(j.n, LastBlock(j.v.p, j.off, |j.buf|) + 1)
    && TotalBlocks(j.v.p, Max(j.n, LastBlock(j.v.p, j.off, |j.buf|) + 1)) - TotalBlocks(j.v.p, m) <= SumFree(v.groups)
    && (forall o: nat :: Content(v, root, o) == if start <= o <= end then Content(j.v, j.root, o) else Target(j, o))
  }

  /** Blocks outside the range of the write keep what they have. */
  lemma TargetOutside(j: Job, o: nat)
    requires JobOk(j)
    requires o < BlockOf(4 * j.v.p, j.off) || BlockOf(4 * j.v.p, j.off + |j.buf| - 1) < o
    ensures Mapped(j.v, j.root) && Target(j, o) == Content(j.v, j.root, o)
  {
    hide FileOk, Content, BlockOf, FirstByte;
    MappedOf(j.v, j.root, j.n);
    OutsideRange(4 * j.v.p, j.off, |j.buf|, o);
  }

  lemma OutsideRange(B: nat, off: nat, sz: nat, o: nat)
    requires 0 < B && 0 < off + sz
    requires o < BlockOf(B, off) || BlockOf(B, off + sz - 1) < o
    ensures FirstByte(B, o) + B <= off || off + sz <= FirstByte(B, o)
  {
    hide BlockOf, FirstByte;
    if o < BlockOf(B, off) {
      NextBlock(B, o, BlockOf(B, off));
      BlockBytes(B, off);
    } else {
      BlockBytes(B, off + sz - 1);
      NextBlock(B, BlockOf(B, off + sz - 1), o);
    }
  }

  lemma TargetsOutside(j: Job, start: nat, end: int)
    requires JobOk(j) && Mapped(j.v, j.root)
    requires start == BlockOf(4 * j.v.p, j.off) && end == BlockOf(4 * j.v.p, j.off + |j.buf| - 1)
    ensures forall o: nat :: start <= o <= end || Content(j.v, j.root, o) == Target(j, o)
  {
    hide FileOk, Content, Target, BlockOf, Mapped;
    forall o: nat ensures start <= o <= end || Content(j.v, j.root, o) == Target(j, o) {
      if !(start <= o <= end) {
        TargetOutside(j, o);
      }
    }
  }

  lemma WritingStarts(j: Job, start: nat, end: int)
    requires JobOk(j)
    requires TotalBlocks(j.v.p, Max(j.n, LastBlock(j.v.p, j.off, |j.buf|) + 1)) - TotalBlocks(j.v.p, j.n)
             <= SumFree(j.v.groups)
    requires start == BlockOf(4 * j.v.p, j.off) && end == BlockOf(4 * j.v.p, j.off + |j.buf| - 1)
    ensures Writing(j, j.v, j.root, j.n, start, end)
  {
    hide FileOk, Content, Target, BlockOf, Evolved, TotalBlocks, LastBlock, Mapped, SumFree, PointersPerBlock;
    EvolvedRefl(j.v, j.root, j.n);
    MappedOf(j.v, j.root, j.n);
    TargetsOutside(j, start, end);
  }

  /** Writing the target of the first or last open block makes progress. */
  lemma WritingGoesOn(j: Job, v: Volume, root: seq<nat>, m: nat, start: nat, end: int, o: nat, v': Volume,
                      root': seq<nat>, start': nat, end': int)
    requires JobOk(j) && Writing(j, v, root, m, start, end) && FileOk(v, root, m)
    requires BlockWritten(v, root, m, v', root', o, Target(j, o))
    requires o <= LastBlock(j.v.p, j.off, |j.buf|)
    requires (o == start && start' == start + 1 && end' == end) || (o == end && start' == start && end' == end - 1)
    ensures Writing(j, v', root', Max(m, o + 1), start', end')
  {
    hide FileOk, Content, Target, OthersUntouched;
    EvolvedTransitive(j.v, j.root, j.n, v, root, m, v', root', Max(m, o + 1));
  }

  /** The blocks that a write touches start at byte positions of 32 bits. */
  lemma TouchedInRange(p: nat, off: nat, sz: nat, o: nat)
    requires 0 < p && 0 < off + sz < WORD && o <= LastBlock(p, off, sz)
    ensures FirstByte(4 * p, o) < WORD
  {
    hide BlockOf;
    var k := if sz == 0 then off else off + sz - 1;
    BlockBytes(4 * p, k);
    ProductMonotone(o, BlockOf(4 * p, k), 4 * p);
  }

  lemma WritingFacts(j: Job, v: Volume, root: seq<nat>, m: nat, start: nat, end: int)
    requires JobOk(j) && Writing(j, v, root, m, start, end)
    ensures FileOk(v, root, m) && Mapped(v, root) && v.p == j.v.p && j.n <= m
    ensures Evolved(j.v, j.root, j.n, v, root, m)
  {
  }

  /** What the first block holds before it is written. */
  lemma HeadContent(j: Job, v: Volume, root: seq<nat>, m: nat, start: nat, end: int)
    requires JobOk(j) && Writing(j, v, root, m, start, end)
    requires start == BlockOf(4 * j.v.p, j.off) && end == BlockOf(4 * j.v.p, j.off + |j.buf| - 1)
    ensures Mapped(v, root) && Mapped(j.v, j.root)
    ensures Content(v, root, start) == Content(j.v, j.root, start)
  {
    hide FileOk, Content, BlockOf, Target, Evolved, Mapped;
    WritingFacts(j, v, root, m, start, end);
    MappedOf(j.v, j.root, j.n);
    if end < start {
      TargetOutside(j, start);
    }
  }

  /** Blocks still open hold what they held. */
  lemma OpenContent(j: Job, v: Volume, root: seq<nat>, m: nat, start: nat, end: int, o: nat)
    requires JobOk(j) && Writing(j, v, root, m, start, end) && start <= o <= end
    ensures Mapped(v, root) && Mapped(j.v, j.root)
    ensures Content(v, root, o) == Content(j.v, j.root, o)
  {
    hide FileOk, Content, Target, Evolved, Mapped;
    WritingFacts(j, v, root, m, start, end);
    MappedOf(j.v, j.root, j.n);
  }

  /** Where the bytes up to e end, when that is inside a block. */
  lemma LastBlockBytes(B: nat, e: nat)
    requires 0 < B && 0 < e && e % B != 0
    ensures FirstByte(B, BlockOf(B, e - 1)) + e % B == e && 0 < e % B < B
  {
    hide BlockOf;
    BlockBytes(B, e - 1);
    var q, r := BlockOf(B, e - 1), IndexOf(B, e - 1);
    if r + 1 < B {
      DivUnique(e, B, q, r + 1);
    } else {
      DivUnique(e, B, q + 1, 0);
    }
  }

  /** Where the bytes up to e end, when that is at the end of a block. */
  lemma LastBlockFull(B: nat, e: nat)
    requires 0 < B && 0 < e && e % B == 0
    ensures FirstByte(B, BlockOf(B, e - 1) + 1) == e
  {
    hide BlockOf, FirstByte;
    BlockBytes(B, e - 1);
    var q, r := BlockOf(B, e - 1), IndexOf(B, e - 1);
    NextBlock(B, q, q + 1);
    if r + 1 < B {
      RemainderOf(B, q, r + 1);
    }
  }

  lemma RemainderOf(B: nat, q: nat, r: nat)
    requires r < B
    ensures (FirstByte(B, q) + r) % B == r
  {
    DivUnique(FirstByte(B, q) + r, B, q, r);
  }

  /** The blocks from the first to the last byte of a transfer. */
  lemma RangeOf(B: nat, off: nat, sz: nat, start: nat, end: nat)
    requires 0 < B && 0 < off + sz
    requires start == BlockOf(B, off) && end == BlockOf(B, off + sz - 1)
    ensures start <= end + 1 && (0 < sz ==> start <= end)
    ensures off % B == 0 ==> off == FirstByte(B, start)
    ensures off + sz <= FirstByte(B, start + 1) ==> end <= start
  {
    hide BlockOf, FirstByte;
    BlockBytes(B, off);
    BlockBytes(B, off + sz - 1);
    NextBlock(B, start, start + 1);
    if start < end {
      NextBlock(B, start, end);
    } else if end < start {
      NextBlock(B, end, start);
      if end + 1 < start {
        NextBlock(B, end + 1, start);
        NextBlock(B, end, end + 1);
      }
    }
  }

  /** A transfer that starts with a block and ends inside one ends in another one. */
  lemma TailIsLater(B: nat, off: nat, sz: nat, end: nat)
    requires 0 < B <= sz && off % B == 0 && (off + sz) % B != 0
    requires end == BlockOf(B, off + sz - 1)
    ensures 0 < end
  {
    hide BlockOf, FirstByte;
    BlockBytes(B, off + sz - 1);
    LastBlockBytes(B, off + sz);
    ZeroByte(B);
  }

  lemma ZeroByte(B: nat)
    ensures FirstByte(B, 0) == 0
  {
  }

  /** The sz bytes from off on are in the buffer, except those of the blocks from start to end. */
  ghost predicate Copied(buf: seq<Byte>, v: Volume, root: seq<nat>, off: nat, sz: nat, start: nat, end: int)
    requires Mapped(v, root)
  {
    && sz <= |buf|
    && (forall k: nat | k < sz && !(start <= BlockOf(4 * v.p, off + k) <= end) :: buf[k] == ByteAt(v, root, off + k))
  }

  lemma InRange(B: nat, off: nat, sz: nat, k: nat)
    requires 0 < B && k < sz
    ensures BlockOf(B, off) <= BlockOf(B, off + k) <= BlockOf(B, off + sz - 1)
  {
    hide BlockOf, FirstByte;
    BlockBytes(B, off);
    BlockBytes(B, off + k);
    BlockBytes(B, off + sz - 1);
    if BlockOf(B, off + k) < BlockOf(B, off) {
      NextBlock(B, BlockOf(B, off + k), BlockOf(B, off));
    }
    if BlockOf(B, off + sz - 1) < BlockOf(B, off + k) {
      NextBlock(B, BlockOf(B, off + sz - 1), BlockOf(B, off + k));
    }
  }

  lemma NothingCopied(buf: seq<Byte>, v: Volume, root: seq<nat>, off: nat, sz: nat)
    requires Mapped(v, root) && 0 < v.p && sz <= |buf| && 0 < off + sz
    ensures Copied(buf, v, root, off, sz, BlockOf(4 * v.p, off), BlockOf(4 * v.p, off + sz - 1))
  {
    hide BlockOf, Mapped, ByteAt;
    forall k: nat | k < sz
      ensures BlockOf(4 * v.p, off) <= BlockOf(4 * v.p, off + k) <= BlockOf(4 * v.p, off + sz - 1)
              || buf[k] == ByteAt(v, root, off + k)
    {
      InRange(4 * v.p, off, sz, k);
    }
  }

  lemma BlockOfIs(B: nat, q: nat, r: nat)
    requires r < B
    ensures BlockOf(B, FirstByte(B, q) + r) == q && IndexOf(B, FirstByte(B, q) + r) == r
  {
    NumberSplits(B, q, r);
  }

  /** Copying the part of the range that lies in block o: len bytes from place i of the block to place at
      of the buffer. */
  lemma BlockCopied(buf: seq<Byte>, v: Volume, root: seq<nat>, off: nat, sz: nat, start: nat, end: int,
                    o: nat, at: nat, i: nat, len: nat, start': nat, end': int)
    requires Mapped(v, root) && Copied(buf, v, root, off, sz, start, end)
    requires at + len <= sz && FirstByte(4 * v.p, o) + i == off + at && i + len <= 4 * v.p
    requires (at == 0 || i == 0) && (at + len == sz || i + len == 4 * v.p)
    requires (o == start && start' == start + 1 && end' == end) || (o == end && start' == start && end' == end - 1)
    ensures Copied(buf[..at] + Content(v, root, o)[i..i + len] + buf[at + len..], v, root, off, sz, start', end')
  {
    hide Mapped, Content, BlockOf, FirstByte, IndexOf;
    MappedShape(v, root);
    var buf' := buf[..at] + Content(v, root, o)[i..i + len] + buf[at + len..];
    forall k: nat | k < sz && !(start' <= BlockOf(4 * v.p, off + k) <= end')
      ensures buf'[k] == ByteAt(v, root, off + k)
    {
      BlockBytes(4 * v.p, off + k);
      if at <= k < at + len {
        BlockOfIs(4 * v.p, o, i + k - at);
      }
    }
  }

  /** With all blocks copied the buffer has the file's bytes. */
  lemma AllCopied(buf: seq<Byte>, v: Volume, root: seq<nat>, off: nat, sz: nat, start: nat, end: int, size: nat)
    requires Mapped(v, root) && Copied(buf, v, root, off, sz, start, end) && end < start && off + sz <= size
    ensures buf[..sz] == BytesOf(v, root, size)[off..off + sz]
  {
    hide Mapped, ByteAt, BlockOf;
  }

  /** There is space for what is left to be written. */
  lemma WritingHasSpace(j: Job, v: Volume, root: seq<nat>, m: nat, start: nat, end: int, o: nat)
    requires JobOk(j) && Writing(j, v, root, m, start, end)
    requires o <= LastBlock(j.v.p, j.off, |j.buf|)
    ensures o < m || TotalBlocks(v.p, o + 1) - TotalBlocks(v.p, m) <= SumFree(v.groups)
  {
    hide FileOk, LastBlock;
    TotalMonotone(v.p, o + 1, Max(j.n, LastBlock(j.v.p, j.off, |j.buf|) + 1));
  }

  /** The head of the buffer laid over the end of its first block. */
  lemma PrefixTarget(block: Block, base: nat, off: nat, buf: seq<Byte>, a: nat, len: nat)
    requires off == base + a && a < |block|
    requires len == if |block| - a <= |buf| then |block| - a else |buf|
    ensures block[..a] + buf[..len] + block[a + len..] == Overlay(block, base, off, buf)
  {
  }

  /** The tail of the buffer laid over the start of its last block. */
  lemma PostfixTarget(block: Block, base: nat, off: nat, buf: seq<Byte>, len: nat)
    requires off <= base && base + len == off + |buf| && len <= |block|
    ensures buf[|buf| - len..] + block[len..] == Overlay(block, base, off, buf)
  {
  }

  /** A block in the middle takes its part of the buffer whole. */
  lemma MiddleTarget(block: Block, base: nat, off: nat, buf: seq<Byte>)
    requires off <= base && base + |block| <= off + |buf|
    ensures buf[base - off..base - off + |block|] == Overlay(block, base, off, buf)
  {
  }

  lemma TargetByte(j: Job, k: nat)
    requires JobOk(j)
    ensures Mapped(j.v, j.root)
    ensures Target(j, BlockOf(4 * j.v.p, k))[IndexOf(4 * j.v.p, k)]
            == if j.off <= k < j.off + |j.buf| then j.buf[k - j.off] else ByteAt(j.v, j.root, k)
  {
    hide FileOk, Content, BlockOf, IndexOf, FirstByte;
    MappedOf(j.v, j.root, j.n);
    BlockBytes(4 * j.v.p, k);
  }

  /** When every block is written, the file as a flat sequence of bytes is the old one with the buffer
      written into it, exactly when the gap in front of the buffer was blank. */
  lemma WrittenBytes(j: Job, v: Volume, root: seq<nat>, m: nat, start: nat, end: int, size: nat)
    requires JobOk(j) && Writing(j, v, root, m, start, end) && end < start
    requires Mapped(j.v, j.root) && Mapped(v, root)
    ensures BytesOf(v, root, Max(size, j.off + |j.buf|)) == FlatWrite(BytesOf(j.v, j.root, size), j.off, j.buf)
            <==> ZeroGap(j.v, j.root, size, j.off)
    ensures ZeroTail(j.v, j.root, size) ==>
              ZeroTail(v, root, Max(size, j.off + |j.buf|)) && ZeroGap(j.v, j.root, size, j.off)
  {
    hide FileOk, ByteAt, Mapped, Writing, FlatWrite;
    forall k: nat
      ensures ByteAt(v, root, k) == if j.off <= k < j.off + |j.buf| then j.buf[k - j.off] else ByteAt(j.v, j.root, k)
    {
      WrittenByte(j, v, root, m, start, end, k);
    }
    var f := BytesOf(j.v, j.root, size);
    if ZeroGap(j.v, j.root, size, j.off) {
      BytesWritten(v, root, Max(size, j.off + |j.buf|), f, j.off, j.buf);
    }
    if BytesOf(v, root, Max(size, j.off + |j.buf|)) == FlatWrite(f, j.off, j.buf) {
      forall k: nat | size <= k < j.off ensures ByteAt(j.v, j.root, k) == 0 {
        assert BytesOf(v, root, Max(size, j.off + |j.buf|))[k] == FlatWrite(f, j.off, j.buf)[k];
      }
    }
  }

  lemma WrittenByte(j: Job, v: Volume, root: seq<nat>, m: nat, start: nat, end: int, k: nat)
    requires JobOk(j) && Writing(j, v, root, m, start, end) && end < start
    ensures Mapped(j.v, j.root) && Mapped(v, root)
    ensures ByteAt(v, root, k) == if j.off <= k < j.off + |j.buf| then j.buf[k - j.off] else ByteAt(j.v, j.root, k)
  {
    hide FileOk, Content, BlockOf, IndexOf, Target, Evolved, Mapped;
    WritingFacts(j, v, root, m, start, end);
    TargetByte(j, k);
  }

  lemma BytesWritten(v: Volume, root: seq<nat>, size: nat, f: seq<Byte>, off: nat, buf: seq<Byte>)
    requires Mapped(v, root) && size == Max(|f|, off + |buf|)
    requires forall k: nat | k < size ::
               ByteAt(v, root, k) == if off <= k < off + |buf| then buf[k - off] else if k < |f| then f[k] else 0
    ensures BytesOf(v, root, size) == FlatWrite(f, off, buf)
  {
    hide Mapped, ByteAt;
    var r := FlatWrite(f, off, buf);
    forall k: nat | k < size ensures BytesOf(v, root, size)[k] == r[k] {
      if off <= k < off + |buf| {
        assert r[k] == r[off..off + |buf|][k - off];
      }
    }
  }

  /** Another file of the volume: none of its blocks belongs to the tree of root. */
  ghost predicate Disjoint(v: Volume, root: seq<nat>, other: seq<nat>)
    requires Mapped(v, root) && Mapped(v, other)
  {
    forall pos {:trigger NodeAt(v.p, v.disk, other, pos)} | IsPosition(v.p, pos)
      && NodeAt(v.p, v.disk, other, pos) != 0 ::
      Foreign(v, root, NodeAt(v.p, v.disk, other, pos))
  }

  lemma OtherTree(v: Volume, root: seq<nat>, v': Volume, root': seq<nat>, other: seq<nat>)
    requires Mapped(v, root) && Mapped(v', root') && Mapped(v, other)
    requires Disjoint(v, root, other) && OthersUntouched(v, root, v', root')
    ensures Owned(v.p, v'.disk, other)
    ensures forall pos | IsPosition(v.p, pos) :: NodeAt(v.p, v'.disk, other, pos) == Node(v, other, pos)
  {
    forall b | 0 <= b < |v.disk| && IsIndexNode(v.p, v.disk, other, b) ensures v'.disk[b] == v.disk[b] {
      assert Foreign(v, root, b);
    }
    TreeFrame(v.p, v.disk, v'.disk, other);
  }

  /** Whatever is done to one file, every disjoint file stays intact, with the same content, and disjoint. */
  lemma OtherFileIntact(v: Volume, root: seq<nat>, n: nat, v': Volume, root': seq<nat>, n': nat, other: seq<nat>,
                        m: nat)
    requires FileOk(v, root, n) && FileOk(v, other, m) && Disjoint(v, root, other)
    requires Evolved(v, root, n, v', root', n')
    ensures FileOk(v', other, m) && Disjoint(v', root', other)
    ensures forall o: nat :: Content(v', other, o) == Content(v, other, o)
  {
    OtherTree(v, root, v', root', other);
    forall pos | IsPosition(v.p, pos) && Node(v, other, pos) != 0
      ensures Foreign(v', root', NodeAt(v.p, v'.disk, other, pos))
    {
      assert Foreign(v, root, Node(v, other, pos));
    }
    assert Mapped(v', other);
    forall o: nat ensures Content(v', other, o) == Content(v, other, o) {
      if o < MaxBlocks(v.p) {
        PathIsLeaf(v.p, o);
      }
    }
  }
}
