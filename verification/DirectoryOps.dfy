/** Directory operations on a mounted volume: create_dirent2, find_dirent and the record removal of
    ext2fs_unlink. */
module DirectoryOps {
  import opened Bytes
  import opened BlockCounts
  import opened BlockTree
  import opened Volumes
  import opened Allocation
  import opened Files
  import opened FileGrowth
  import opened FileBytes
  import opened Directories
  import opened NameTables
  import opened Ext2

  /** The first nb content blocks of a file. */
  ghost function Blocks(v: Volume, root: seq<nat>, nb: nat): (r: seq<Block>)
    requires Mapped(v, root)
    ensures |r| == nb && forall o | 0 <= o < nb :: r[o] == Content(v, root, o)
  {
    seq(nb, o requires 0 <= o => Content(v, root, o))
  }

  /** A file that is a directory of nb blocks: its size says so, and all of them are tiled by records. */
  ghost predicate Directory(v: Volume, root: seq<nat>, size: nat, nb: nat)
    requires Mapped(v, root)
  {
    size == FirstByte(4 * v.p, nb) && AllTiled(Blocks(v, root, nb))
  }

  lemma WrittenFacts(v: Volume, root: seq<nat>, n: nat, v': Volume, root': seq<nat>, i: nat, buf: Block)
    requires FileOk(v, root, n) && BlockWritten(v, root, n, v', root', i, buf)
    ensures Mapped(v, root) && Mapped(v', root') && v'.p == v.p
    ensures forall o: nat :: Content(v', root', o) == if o == i then buf else Content(v, root, o)
    ensures Evolved(v, root, n, v', root', if n <= i then i + 1 else n)
  {
    MappedOf(v, root, n);
    hide Mapped, Content;
  }

  /** Writing block i of the directory. */
  lemma BlocksWritten(v: Volume, root: seq<nat>, n: nat, v': Volume, root': seq<nat>, i: nat, buf: Block, nb: nat)
    requires FileOk(v, root, n) && BlockWritten(v, root, n, v', root', i, buf)
    ensures Mapped(v, root) && Mapped(v', root')
    ensures i < nb ==> Blocks(v', root', nb) == Blocks(v, root, nb)[i := buf]
    ensures i == nb ==> Blocks(v', root', nb + 1) == Blocks(v, root, nb) + [buf]
  {
    WrittenFacts(v, root, n, v', root', i, buf);
    hide FileOk, Mapped, Content, BlockWritten;
    if i < nb {
      assert forall o | 0 <= o < nb :: Blocks(v', root', nb)[o] == Blocks(v, root, nb)[i := buf][o];
    }
  }

  /** Where the walk over the records stands: at the record at at of block blockno, or behind the last block. */
  ghost predicate Walking(blocks: seq<Block>, blockno: nat, at: nat, buf: Block) {
    && blockno <= |blocks|
    && (blockno < |blocks| ==> buf == blocks[blockno] && at < |buf| && Leads(buf, 0, at) && Tiled(buf, at))
    && (blockno == |blocks| ==> at == 0)
  }

  lemma WalkStarts(blocks: seq<Block>, buf: Block)
    requires AllTiled(blocks) && (0 < |blocks| ==> buf == blocks[0] && 0 < |buf|)
    ensures Walking(blocks, 0, 0, buf)
  {
  }

  /** offset tells whether the walk is behind the end. */
  lemma WalkOffset(B: nat, blockno: nat, at: nat, nb: nat)
    requires blockno <= nb && at < B && (blockno == nb ==> at == 0)
    ensures FirstByte(B, blockno) + at < FirstByte(B, nb) <==> blockno < nb
  {
    hide FirstByte;
    if blockno < nb {
      NextBlock(B, blockno, nb);
    }
  }

  /** The next record of the same block. */
  lemma WalkInBlock(blocks: seq<Block>, blockno: nat, at: nat, buf: Block)
    requires AllTiled(blocks) && Walking(blocks, blockno, at, buf) && blockno < |blocks|
    ensures RecordAt(buf, at) && HEADER <= RecLen(buf, at) && at + RecLen(buf, at) <= |buf|
    ensures Leads(buf, 0, at + RecLen(buf, at)) && Tiled(buf, at + RecLen(buf, at))
    ensures at + RecLen(buf, at) < |buf| ==> Walking(blocks, blockno, at + RecLen(buf, at), buf)
    ensures SeenEntries(blocks, blockno, at + RecLen(buf, at)) == SeenEntries(blocks, blockno, at) + LiveAt(buf, at)
  {
    TiledBehind(buf, at);
    LeadsOn(buf, 0, at);
    hide Tiled, Leads, Between, LiveAt, RecLen, DirEntries;
    assert DirEntries(blocks[..blockno]) + (Between(buf, 0, at) + LiveAt(buf, at))
           == (DirEntries(blocks[..blockno]) + Between(buf, 0, at)) + LiveAt(buf, at);
  }

  /** Behind the last record of a block the next block comes. */
  lemma WalkToNext(blocks: seq<Block>, blockno: nat, at: nat, buf: Block, buf': Block)
    requires AllTiled(blocks) && blockno < |blocks| && buf == blocks[blockno]
    requires at == |buf| && Leads(buf, 0, at)
    requires blockno + 1 < |blocks| ==> buf' == blocks[blockno + 1] && 0 < |buf'|
    ensures Walking(blocks, blockno + 1, 0, buf')
    ensures SeenEntries(blocks, blockno, at) == DirEntries(blocks[..blockno + 1])
    ensures blockno + 1 < |blocks| ==> SeenEntries(blocks, blockno + 1, 0) == DirEntries(blocks[..blockno + 1])
  {
    SeenBlock(blocks, blockno);
    if blockno + 1 < |blocks| {
      assert DirEntries(blocks[..blockno + 1]) + [] == DirEntries(blocks[..blockno + 1]);
    }
  }

  ghost predicate NoneNamed(s: seq<Entry>, name: seq<Byte>) {
    forall i | 0 <= i < |s| :: s[i].name != name
  }

  /** What the walk has passed. */
  ghost function Passed(blocks: seq<Block>, blockno: nat, at: nat, buf: Block): seq<Entry>
    requires AllTiled(blocks) && Walking(blocks, blockno, at, buf)
  {
    if blockno < |blocks| then SeenEntries(blocks, blockno, at) else DirEntries(blocks)
  }

  /** prev is the record that leads to at, -1 at the start of a block. */
  ghost predicate PrevOf(buf: Block, prev: int, at: nat) {
    if prev < 0 then at == 0 else Leads(buf, 0, prev) && RecordAt(buf, prev) && prev + RecLen(buf, prev) == at
  }

  /** A live record of the directory, as find_dirent hands it out. */
  ghost predicate RecordFound(blocks: seq<Block>, blockno: nat, at: nat, prev: int, buf: Block) {
    && blockno < |blocks| && buf == blocks[blockno]
    && at < |buf| && Leads(buf, 0, at) && Tiled(buf, at) && RecordAt(buf, at) && RecInode(buf, at) != 0
    && PrevOf(buf, prev, at)
  }

  /** A record with the name, behind records without it, is the first one of the directory. */
  lemma FoundFirst(blocks: seq<Block>, blockno: nat, at: nat, prev: int, buf: Block, name: seq<Byte>)
    requires AllTiled(blocks) && RecordFound(blocks, blockno, at, prev, buf)
    requires NoneNamed(SeenEntries(blocks, blockno, at), name) && EntryAt(buf, at).name == name
    ensures var k := |SeenEntries(blocks, blockno, at)|;
            FirstNamed(DirEntries(blocks), name) == k < |DirEntries(blocks)|
              && DirEntries(blocks)[k] == EntryAt(buf, at)
  {
    SeenThenEntry(blocks, blockno, at);
    hide Tiled, Leads, RecordAt, EntryAt, DirEntries, SeenEntries, PrevOf;
    var s, k := DirEntries(blocks), |SeenEntries(blocks, blockno, at)|;
    forall j | 0 <= j < k ensures s[j].name != name {
      assert s[j] == s[..k][j];
    }
    FirstNamedIs(s, name, k);
  }

  lemma NoneNamedWith(s: seq<Entry>, e: Entry, name: seq<Byte>)
    requires NoneNamed(s, name) && e.name != name
    ensures NoneNamed(s + [e], name)
  {
  }

  /** The record is unused, or has another name: none of the entries up to it has the name. */
  lemma PassedRecord(s: seq<Entry>, buf: Block, at: nat, name: seq<Byte>)
    requires NoneNamed(s, name) && RecordAt(buf, at)
    requires RecInode(buf, at) == 0 || EntryAt(buf, at).name != name
    ensures NoneNamed(s + LiveAt(buf, at), name)
  {
    if RecInode(buf, at) == 0 {
      assert s + LiveAt(buf, at) == s;
    } else {
      NoneNamedWith(s, EntryAt(buf, at), name);
    }
  }

  /** One step of the walks in ext2fs.c:749-757 and 1172-1180: dirent moves on by rec_len, at the end of
      the block to the start of the next one. */
  method NextRecord(fs: Ext2Fs, ino: Inode, blockno: nat, at: nat, buf: Block, ghost n: nat, ghost nb: nat)
    returns (blockno': nat, at': nat, buf': Block)
    requires fs.HasFile(ino, n) && Mapped(fs.vol, ino.block) && Directory(fs.vol, ino.block, ino.size, nb)
    requires blockno < nb && |buf| == 4 * fs.vol.p && Walking(Blocks(fs.vol, ino.block, nb), blockno, at, buf)
    ensures RecordAt(buf, at)
    ensures var blocks := Blocks(fs.vol, ino.block, nb);
            && |buf'| == 4 * fs.vol.p && Walking(blocks, blockno', at', buf')
            && Passed(blocks, blockno', at', buf') == Passed(blocks, blockno, at, buf) + LiveAt(buf, at)
    ensures FirstByte(|buf|, blockno') + at' == FirstByte(|buf|, blockno) + at + RecLen(buf, at)
    ensures if blockno' == blockno then at < at' < |buf| && buf' == buf && PrevOf(buf', at, at')
            else blockno' == blockno + 1 && at' == 0 && at + RecLen(buf, at) == |buf|
  {
    hide BlocksOk, Mapped, FileOk, FirstByte, Content, Tiled, Leads, DirEntries, SeenEntries, LiveAt, HalfAt;
    ghost var blocks := Blocks(fs.vol, ino.block, nb);
    WalkInBlock(blocks, blockno, at, buf);
    blockno', at', buf' := blockno, at + RecLen(buf, at), buf;
    if at' >= |buf| {
      NextBlock(|buf|, blockno, blockno + 1);
      var err;
      at', blockno' := at' - |buf|, blockno + 1;
      buf', err := fs.ReadBlockInode(ino, blockno', n);
      WalkToNext(blocks, blockno, |buf|, buf, buf');
      AllPassed(blocks, blockno');
    } else {
      WalkingLeads(blocks, blockno, at, buf);
    }
  }

  lemma WalkingLeads(blocks: seq<Block>, blockno: nat, at: nat, buf: Block)
    requires Walking(blocks, blockno, at, buf) && blockno < |blocks|
    ensures Leads(buf, 0, at) && Tiled(buf, at) && buf == blocks[blockno] && at < |buf|
  {
  }

  /** ext2fs.c:1149-1188: the first live record with the name, the record before it in its block, and the
      block; or nothing, exactly when no entry has the name. A C string is its bytes up to the NUL. */
  method FindDirent(fs: Ext2Fs, ino: Inode, name: seq<Byte>, ghost n: nat, ghost nb: nat)
    returns (found: bool, blockno: nat, at: nat, prev: int, buf: Block)
    requires fs.HasFile(ino, n) && Mapped(fs.vol, ino.block) && Directory(fs.vol, ino.block, ino.size, nb)
    ensures var blocks := Blocks(fs.vol, ino.block, nb);
            var s := DirEntries(blocks);
            && (found <==> FirstNamed(s, name) < |s|)
            && (found ==>
                  && RecordFound(blocks, blockno, at, prev, buf)
                  && |SeenEntries(blocks, blockno, at)| == FirstNamed(s, name)
                  && EntryAt(buf, at) == s[FirstNamed(s, name)] && at % 4 == 0)
            && Lookup(s, name) == if found then Some(EntryAt(buf, at)) else None
  {
    hide BlocksOk, Mapped, FileOk, FirstByte, Content, Tiled, Leads, DirEntries, SeenEntries, LiveAt, HalfAt,
         FirstNamed, NoneNamed, Walking, PrevOf;
    ghost var blocks := Blocks(fs.vol, ino.block, nb);
    var err;
    blockno, at, prev := 0, 0, -1;
    buf, err := fs.ReadBlockInode(ino, 0, n);
    NothingPassed(blocks, buf, name);
    ZeroByte(|buf|);
    var offset: nat := 0;
    while offset < ino.size
      invariant blockno <= nb && at < |buf| == 4 * fs.vol.p && Walking(blocks, blockno, at, buf)
      invariant offset == FirstByte(|buf|, blockno) + at && (blockno == nb ==> at == 0)
      invariant NoneNamed(Passed(blocks, blockno, at, buf), name)
      invariant blockno < nb ==> PrevOf(buf, prev, at)
      decreases nb - blockno, |buf| - at
    {
      WalkOffset(|buf|, blockno, at, nb);
      WalkingLeads(blocks, blockno, at, buf);
      TiledBehind(buf, at);
      if RecInode(buf, at) != 0 && NameLen(buf, at) == |name| {
        if buf[at + HEADER..at + HEADER + NameLen(buf, at)] == name {
          FoundFirst(blocks, blockno, at, prev, buf, name);
          LeadsAligned(buf, 0, at);
          return true, blockno, at, prev, buf;
        }
      }
      PassedRecord(SeenEntries(blocks, blockno, at), buf, at, name);
      var blockno', at', buf' := NextRecord(fs, ino, blockno, at, buf, n, nb);
      WalkingInside(blocks, blockno', at', buf');
      offset := offset + RecLen(buf, at);
      prev := if blockno' == blockno then at else -1;
      StartsBlock(buf');
      blockno, at, buf := blockno', at', buf';
    }
    WalkOffset(|buf|, blockno, at, nb);
    NotNamedAny(DirEntries(blocks), name);
    found := false;
  }

  lemma WalkingInside(blocks: seq<Block>, blockno: nat, at: nat, buf: Block)
    requires Walking(blocks, blockno, at, buf)
    ensures blockno <= |blocks| && (blockno < |blocks| ==> at < |buf|) && (blockno == |blocks| ==> at == 0)
  {
  }

  lemma StartsBlock(buf: Block)
    ensures PrevOf(buf, -1, 0)
  {
  }

  lemma NothingPassed(blocks: seq<Block>, buf: Block, name: seq<Byte>)
    requires AllTiled(blocks) && (0 < |blocks| ==> buf == blocks[0] && 0 < |buf|)
    ensures Walking(blocks, 0, 0, buf) && NoneNamed(Passed(blocks, 0, 0, buf), name)
    ensures 0 < |blocks| ==> PrevOf(buf, -1, 0)
  {
    assert blocks[..0] == [];
  }

  lemma AllPassed(blocks: seq<Block>, i: nat)
    requires i <= |blocks|
    ensures i == |blocks| ==> blocks[..i] == blocks
  {
  }

  lemma NotNamedAny(s: seq<Entry>, name: seq<Byte>)
    requires NoneNamed(s, name)
    ensures FirstNamed(s, name) == |s|
  {
    NotNamed(s, name);
  }

  /** A record of block blockno, at place at of buf, that e can be put into; what it would be put in between. */
  ghost predicate SpaceFor(blocks: seq<Block>, blockno: nat, at: nat, buf: Block, e: Entry, k: nat) {
    && blockno < |blocks| && Tiled(blocks[blockno], 0)
    && at + HEADER + |e.name| <= |buf| && |e.name| < 0x100
    && Tiled(Filled(buf, at, e), 0)
    && Inserted(Entries(blocks[blockno], 0), Entries(Filled(buf, at, e), 0), e, k)
  }

  lemma UnusedIsSpace(blocks: seq<Block>, blockno: nat, at: nat, buf: Block, e: Entry)
    requires AllTiled(blocks) && Walking(blocks, blockno, at, buf) && blockno < |blocks|
    requires at + HEADER <= |buf| && RecInode(buf, at) == 0 && RealLen(|e.name|) <= RecLen(buf, at)
    requires |e.name| < 0x100 && 0 < e.inode < WORD
    ensures Leads(buf, 0, at) && SpaceFor(blocks, blockno, at, buf, e, |Between(buf, 0, at)|)
  {
    hide Filled, Inserted, HalfAt;
    ReuseRecord(buf, at, e);
  }

  lemma SlackIsSpace(blocks: seq<Block>, blockno: nat, at: nat, buf: Block, e: Entry)
    requires AllTiled(blocks) && Walking(blocks, blockno, at, buf) && blockno < |blocks|
    requires RecordAt(buf, at) && RealLen(NameLen(buf, at)) + RealLen(|e.name|) <= RecLen(buf, at)
    requires |e.name| < 0x100 && 0 < e.inode < WORD
    ensures Leads(buf, 0, at)
    ensures SpaceFor(blocks, blockno, at + RealLen(NameLen(buf, at)), Shortened(buf, at), e,
              |Between(buf, 0, at)| + |LiveAt(buf, at)|)
  {
    hide Filled, Inserted, HalfAt, Shortened;
    SplitRecord(buf, at, e);
  }

  /** A record can take another one of recLen bytes: it is unused and long enough, or has that much slack. */
  predicate HasRoom(b: Block, at: nat, recLen: nat)
    requires RecordAt(b, at)
  {
    (RecInode(b, at) == 0 && recLen <= RecLen(b, at)) || RealLen(NameLen(b, at)) + recLen <= RecLen(b, at)
  }

  /** No record of a block before to has room. */
  ghost predicate FullUpTo(b: Block, to: nat, recLen: nat) {
    forall i: nat | i < to && Leads(b, 0, i) && RecordAt(b, i) :: !HasRoom(b, i, recLen)
  }

  /** No record of any block has room. */
  ghost predicate AllFull(blocks: seq<Block>, recLen: nat) {
    forall o | 0 <= o < |blocks| :: FullUpTo(blocks[o], |blocks[o]|, recLen)
  }

  /** The walk has passed no record with room. */
  ghost predicate FullSoFar(blocks: seq<Block>, blockno: nat, at: nat, recLen: nat) {
    && blockno <= |blocks| && AllFull(blocks[..blockno], recLen)
    && (blockno < |blocks| ==> FullUpTo(blocks[blockno], at, recLen))
  }

  /** The record at rec of block blockno is the first one of the directory with room. */
  ghost predicate FirstRoom(blocks: seq<Block>, blockno: nat, rec: nat, recLen: nat) {
    && blockno < |blocks| && FullSoFar(blocks, blockno, rec, recLen)
    && rec < |blocks[blockno]| && Leads(blocks[blockno], 0, rec) && RecordAt(blocks[blockno], rec)
    && HasRoom(blocks[blockno], rec, recLen)
  }

  /** There is no record start inside a record. */
  lemma {:induction false} NextStart(b: Block, from: nat, at: nat, i: nat)
    requires Leads(b, from, at) && Leads(b, from, i) && at < i
    ensures RecordAt(b, at) && at + RecLen(b, at) <= i
    decreases at - from
  {
    if from < at {
      NextStart(b, from + RecLen(b, from), at, i);
    }
  }

  lemma FullOneMore(b: Block, at: nat, recLen: nat)
    requires FullUpTo(b, at, recLen) && Leads(b, 0, at) && RecordAt(b, at) && !HasRoom(b, at, recLen)
    ensures FullUpTo(b, at + RecLen(b, at), recLen)
  {
    hide RecLen, HasRoom;
    forall i: nat | i < at + RecLen(b, at) && Leads(b, 0, i) && RecordAt(b, i) ensures !HasRoom(b, i, recLen) {
      if at < i {
        NextStart(b, 0, at, i);
      }
    }
  }

  lemma FullAtStart(blocks: seq<Block>, recLen: nat)
    ensures FullSoFar(blocks, 0, 0, recLen)
  {
  }

  /** The walk goes on behind a record without room. */
  lemma FullGoesOn(blocks: seq<Block>, blockno: nat, at: nat, recLen: nat, blockno': nat, at': nat)
    requires blockno < |blocks| && FullSoFar(blocks, blockno, at, recLen)
    requires Leads(blocks[blockno], 0, at) && RecordAt(blocks[blockno], at) && !HasRoom(blocks[blockno], at, recLen)
    requires if blockno' == blockno then at' == at + RecLen(blocks[blockno], at)
             else blockno' == blockno + 1 && at' == 0 && |blocks[blockno]| <= at + RecLen(blocks[blockno], at)
    ensures FullSoFar(blocks, blockno', at', recLen)
  {
    hide Leads, RecordAt, HasRoom, RecLen;
    FullOneMore(blocks[blockno], at, recLen);
    if blockno' != blockno {
      assert blocks[..blockno'] == blocks[..blockno] + [blocks[blockno]];
    }
  }

  lemma FullAtEnd(blocks: seq<Block>, at: nat, recLen: nat)
    requires FullSoFar(blocks, |blocks|, at, recLen)
    ensures AllFull(blocks, recLen)
  {
    assert blocks[..|blocks|] == blocks;
  }

  lemma RoomIsNotFull(blocks: seq<Block>, blockno: nat, rec: nat, recLen: nat)
    requires FirstRoom(blocks, blockno, rec, recLen)
    ensures !AllFull(blocks, recLen)
  {
  }

  /** ext2fs.c:721-758: the first record that is unused and long enough, or that has enough slack, which is
      then split off; blockno is behind the last block when there is none. */
  method FindSpace(fs: Ext2Fs, pino: Inode, recLen: nat, ghost e: Entry, ghost n: nat, ghost nb: nat)
    returns (found: bool, blockno: nat, at: nat, buf: Block, ghost k: nat, ghost rec: nat)
    requires fs.HasFile(pino, n) && Mapped(fs.vol, pino.block) && Directory(fs.vol, pino.block, pino.size, nb)
    requires recLen == RealLen(|e.name|) && |e.name| < 0x100 && 0 < e.inode < WORD
    ensures |buf| == 4 * fs.vol.p
    ensures found <==> !AllFull(Blocks(fs.vol, pino.block, nb), recLen)
    ensures found ==> var blocks := Blocks(fs.vol, pino.block, nb);
              && blockno < nb && SpaceFor(blocks, blockno, at, buf, e, k) && FirstRoom(blocks, blockno, rec, recLen)
              && (if RecInode(blocks[blockno], rec) == 0 && recLen <= RecLen(blocks[blockno], rec)
                  then at == rec && buf == blocks[blockno]
                  else at == rec + RealLen(NameLen(blocks[blockno], rec)) && buf == Shortened(blocks[blockno], rec))
    ensures !found ==> blockno == nb && at == 0
  {
    hide BlocksOk, Mapped, FileOk, FirstByte, Content, Tiled, Leads, DirEntries, SeenEntries, LiveAt, HalfAt, Walking,
         PrevOf, SpaceFor, RealLen, Shortened, FullSoFar, AllFull;
    ghost var blocks := Blocks(fs.vol, pino.block, nb);
    var err;
    blockno, at, k, rec := 0, 0, 0, 0;
    buf, err := fs.ReadBlockInode(pino, 0, n);
    WalkStarts(blocks, buf);
    FullAtStart(blocks, recLen);
    ZeroByte(|buf|);
    var offset: nat := 0;
    while offset < pino.size
      invariant blockno <= nb && at < |buf| == 4 * fs.vol.p && Walking(blocks, blockno, at, buf)
      invariant offset == FirstByte(|buf|, blockno) + at && (blockno == nb ==> at == 0)
      invariant FullSoFar(blocks, blockno, at, recLen)
      decreases nb - blockno, |buf| - at
    {
      WalkOffset(|buf|, blockno, at, nb);
      WalkingLeads(blocks, blockno, at, buf);
      TiledBehind(buf, at);
      rec := at;
      if RecInode(buf, at) == 0 && RecLen(buf, at) >= recLen {
        UnusedIsSpace(blocks, blockno, at, buf, e);
        RoomIsNotFull(blocks, blockno, rec, recLen);
        return true, blockno, at, buf, |Between(buf, 0, at)|, rec;
      }
      var realRecLen := RealLen(NameLen(buf, at));
      if RecLen(buf, at) - realRecLen >= recLen {
        SlackIsSpace(blocks, blockno, at, buf, e);
        ShortensTo(buf, at, recLen);
        RoomIsNotFull(blocks, blockno, rec, recLen);
        k := |Between(buf, 0, at)| + |LiveAt(buf, at)|;
        var space := RecLen(buf, at) - realRecLen;
        buf := PutHalfAt(buf, at + 4, realRecLen);
        at := at + realRecLen;
        buf := PutHalfAt(buf, at + 4, space);
        return true, blockno, at, buf, k, rec;
      }
      var blockno', at', buf' := NextRecord(fs, pino, blockno, at, buf, n, nb);
      WalkingInside(blocks, blockno', at', buf');
      FullGoesOn(blocks, blockno, at, recLen, blockno', at');
      offset := offset + RecLen(buf, at);
      blockno, at, buf := blockno', at', buf';
    }
    WalkOffset(|buf|, blockno, at, nb);
    FullAtEnd(blocks, at, recLen);
    found := false;
  }

  lemma ShortensTo(buf: Block, at: nat, recLen: nat)
    requires RecordAt(buf, at) && HEADER <= recLen && RealLen(NameLen(buf, at)) + recLen <= RecLen(buf, at)
    ensures var need := RealLen(NameLen(buf, at));
            && at + 6 <= |buf| && at + need + 6 <= |buf| && 0 <= RecLen(buf, at) - need
            && Shortened(buf, at) == PutHalfAt(PutHalfAt(buf, at + 4, need), at + need + 4, RecLen(buf, at) - need)
  {
  }

  /** The blocks of a directory are allocated: unallocated ones would read as zeros, which are no records. */
  lemma DirectoryIsMapped(v: Volume, root: seq<nat>, n: nat, size: nat, nb: nat)
    requires FileOk(v, root, n) && Mapped(v, root) && Directory(v, root, size, nb)
    ensures nb <= n
  {
    if n < nb {
      BlankBehindEnd(v, root, n, n);
      assert Tiled(Blocks(v, root, nb)[n], 0);
      NotTiled(v.p);
    }
  }

  lemma NotTiled(p: nat)
    requires 0 < p
    ensures !Tiled(Zeros(4 * p), 0)
  {
  }

  /** The block written back: e stored in a record that was found, or in a new block. */
  ghost predicate Stores(blocks: seq<Block>, found: bool, blockno: nat, buf: Block, e: Entry, k: nat) {
    && AllTiled(blocks) && Tiled(buf, 0)
    && if found then blockno < |blocks| && Inserted(Entries(blocks[blockno], 0), Entries(buf, 0), e, k)
       else blockno == |blocks| && Entries(buf, 0) == [e]
  }

  /** Writing a block of the directory back with e in a record of it puts e into the directory. */
  lemma StoredInRecord(v: Volume, root: seq<nat>, n: nat, size: nat, nb: nat, v': Volume, root': seq<nat>,
                       blockno: nat, buf: Block, e: Entry, k: nat)
    requires FileOk(v, root, n) && Mapped(v, root) && Directory(v, root, size, nb)
    requires Stores(Blocks(v, root, nb), true, blockno, buf, e, k)
    requires BlockWritten(v, root, n, v', root', blockno, buf)
    ensures Mapped(v', root') && Directory(v', root', size, nb)
    ensures blockno < nb && AllTiled(Blocks(v, root, nb)[..blockno])
    ensures Inserted(DirEntries(Blocks(v, root, nb)), DirEntries(Blocks(v', root', nb)), e,
                     |DirEntries(Blocks(v, root, nb)[..blockno])| + k)
    ensures Evolved(v, root, n, v', root', Max(n, nb))
  {
    hide FileOk, Mapped, BlockWritten, Evolved, Content, Tiled, Entries, DirEntries, Inserted, FirstByte, Blocks;
    WrittenFacts(v, root, n, v', root', blockno, buf);
    BlocksWritten(v, root, n, v', root', blockno, buf, nb);
    DirectoryIsMapped(v, root, n, size, nb);
    DirInserted(Blocks(v, root, nb), blockno, buf, e, k);
  }

  /** Writing a new block with e behind the last one puts e at the end of the directory. */
  lemma StoredInNewBlock(v: Volume, root: seq<nat>, n: nat, size: nat, nb: nat, v': Volume, root': seq<nat>,
                         buf: Block, e: Entry)
    requires FileOk(v, root, n) && Mapped(v, root) && Directory(v, root, size, nb)
    requires Stores(Blocks(v, root, nb), false, nb, buf, e, 0)
    requires BlockWritten(v, root, n, v', root', nb, buf)
    ensures Mapped(v', root') && Directory(v', root', size + 4 * v.p, nb + 1)
    ensures Inserted(DirEntries(Blocks(v, root, nb)), DirEntries(Blocks(v', root', nb + 1)), e,
              |DirEntries(Blocks(v, root, nb))|)
    ensures Evolved(v, root, n, v', root', Max(n, nb + 1))
  {
    hide FileOk, Mapped, BlockWritten, Evolved, Content, Tiled, Entries, DirEntries, Inserted, FirstByte, Blocks;
    WrittenFacts(v, root, n, v', root', nb, buf);
    BlocksWritten(v, root, n, v', root', nb, buf, nb);
    DirectoryIsMapped(v, root, n, size, nb);
    NextBlock(4 * v.p, nb, nb + 1);
    DirAppended(Blocks(v, root, nb), buf, e);
  }

  lemma SpaceStores(blocks: seq<Block>, blockno: nat, at: nat, buf: Block, e: Entry, k: nat)
    requires AllTiled(blocks) && SpaceFor(blocks, blockno, at, buf, e, k)
    ensures at + HEADER + |e.name| <= |buf| && Stores(blocks, true, blockno, Filled(buf, at, e), e, k)
  {
    hide Tiled, Filled, Entries, Inserted;
  }

  lemma NewBlockStores(blocks: seq<Block>, buf: Block, e: Entry)
    requires AllTiled(blocks) && 0x200 <= |buf| < 0x1_0000 && |buf| % 4 == 0 && |e.name| < 0x100 && 0 < e.inode < WORD
    ensures Stores(blocks, false, |blocks|, Filled(PutHalfAt(buf, 4, |buf|), 0, e), e, 0)
  {
    NewBlock(buf, e);
  }

  lemma DirectoryShape(v: Volume, root: seq<nat>, size: nat, nb: nat)
    requires Mapped(v, root) && Directory(v, root, size, nb)
    ensures size == FirstByte(4 * v.p, nb) && AllTiled(Blocks(v, root, nb))
  {
  }

  /** ext2fs.c:767-770: the fields of the record but its length. */
  method FillRecord(buf0: Block, at: nat, inoNo: nat, name: seq<Byte>, kind: Byte) returns (buf: Block)
    requires at + HEADER + |name| <= |buf0| && |name| < 0x100
    ensures buf == Filled(buf0, at, Entry(name, inoNo, kind))
  {
    buf := PutWordAt(buf0, at, inoNo);
    buf := buf[at + 6 := |name|];
    buf := buf[at + 7 := kind];
    buf := buf[..at + HEADER] + name + buf[at + HEADER + |name|..];
  }

  lemma BlockInRange(B: nat, blockno: nat, nb: nat)
    requires 0 < B && blockno <= nb && FirstByte(B, nb) < WORD
    ensures FirstByte(B, blockno) < WORD
  {
    if blockno < nb {
      NextBlock(B, blockno, nb);
    }
  }

  /** ext2fs.c:716-779: afterwards the directory has exactly one more entry, put in at place k of its list;
      its blocks, maybe one more, are tiled, and no other file is touched. */
  method CreateDirent2(fs: Ext2Fs, pino: Inode, pinoNo: nat, inoNo: nat, name: seq<Byte>, kind: Byte,
                       ghost n: nat, ghost nb: nat)
    returns (ret: int, ghost k: nat, ghost nb': nat)
    requires fs.HasFile(pino, n) && Mapped(fs.vol, pino.block) && Directory(fs.vol, pino.block, pino.size, nb)
    requires pinoNo != 0 && 0 < inoNo < WORD && |name| < 0x100
    requires 4 * fs.vol.p < 0x1_0000 && pino.size + 4 * fs.vol.p < WORD
    requires TotalBlocks(fs.vol.p, Max(n, nb + 1)) - TotalBlocks(fs.vol.p, n) <= fs.freeBlocks
    modifies fs, pino
    ensures ret == 0
    ensures fs.vol.p == old(fs.vol).p && Mapped(fs.vol, pino.block) && fs.HasFile(pino, Max(n, nb'))
    ensures nb' == (if old(AllFull(Blocks(fs.vol, pino.block, nb), RealLen(|name|))) then nb + 1 else nb)
    ensures Directory(fs.vol, pino.block, pino.size, nb')
    ensures Inserted(old(DirEntries(Blocks(fs.vol, pino.block, nb))), DirEntries(Blocks(fs.vol, pino.block, nb')),
                     Entry(name, inoNo, kind), k)
    ensures Evolved(old(fs.vol), old(pino.block), n, fs.vol, pino.block, Max(n, nb'))
    ensures OthersKept(old(fs.inodeTable), fs.inodeTable, pinoNo)
  {
    hide BlocksOk, Mapped, FileOk, FirstByte, Content, Tiled, DirEntries, Inserted, Filled, SpaceFor, Stores,
         OthersKept, BlockWritten, TotalBlocks, Blocks, Evolved, Directory, AllTiled, Fits, GetBlockCount, AllFull;
    ghost var v, root, size, table := fs.vol, pino.block, pino.size, fs.inodeTable;
    ghost var e, blocks := Entry(name, inoNo, kind), Blocks(v, root, nb);
    OthersKeptRefl(table, pinoNo);
    DirectoryIsMapped(v, root, n, size, nb);
    DirectoryShape(v, root, size, nb);
    var found, blockno, at, buf, k0, rec := FindSpace(fs, pino, RealLen(|name|), e, n, nb);
    if found {
      SpaceStores(blocks, blockno, at, buf, e, k0);
    } else {
      NewBlockStores(blocks, buf, e);
      buf := PutHalfAt(buf, 4, |buf|);
      fs.SetSize(pino, pinoNo, pino.size + |buf|);
      k0 := 0;
    }
    buf := FillRecord(buf, at, inoNo, name, kind);
    ghost var table1 := fs.inodeTable;
    BlockInRange(|buf|, blockno, nb);
    var err := fs.WriteBlockInode(pino, pinoNo, blockno, buf, n);
    OthersKeptTransitive(table, table1, fs.inodeTable, pinoNo);
    ret := if err != E_SUCCESS then -28 else 0;
    WrittenFacts(v, root, n, fs.vol, pino.block, blockno, buf);
    if found {
      StoredInRecord(v, root, n, size, nb, fs.vol, pino.block, blockno, buf, e, k0);
      nb', k := nb, |DirEntries(blocks[..blockno])| + k0;
    } else {
      StoredInNewBlock(v, root, n, size, nb, fs.vol, pino.block, buf, e);
      nb', k := nb + 1, |DirEntries(blocks)|;
    }
  }

  /** The block after the record at at was given up. */
  function Unlinked(buf: Block, at: nat, prev: int): Block
    requires RecordAt(buf, at)
    requires 0 <= prev ==> RecordAt(buf, prev) && at == prev + RecLen(buf, prev)
  {
    if 0 <= prev then Merged(buf, prev, at) else Blanked(buf, at)
  }

  lemma UnlinkedRecord(blocks: seq<Block>, blockno: nat, at: nat, prev: int, buf: Block)
    requires AllTiled(blocks) && RecordFound(blocks, blockno, at, prev, buf) && |buf| < 0x1_0000
    ensures Tiled(buf, 0) && Tiled(Unlinked(buf, at, prev), 0)
    ensures Removed(Entries(buf, 0), Entries(Unlinked(buf, at, prev), 0), |Between(buf, 0, at)|)
  {
    hide Removed, Merged, Blanked, Entries;
    if 0 <= prev {
      MergeRecord(buf, prev, at);
    } else {
      BlankRecord(buf);
    }
  }

  /** An unused record that spans its whole block leaves no entry in it. */
  lemma SpanningRecord(b: Block)
    requires 0 < |b| && Tiled(b, 0) && RecInode(b, 0) == 0 && RecLen(b, 0) == |b|
    ensures Entries(b, 0) == []
  {
    assert Entries(b, |b|) == [];
  }

  /** One unused record spans the block. */
  predicate Unused(b: Block) {
    HEADER <= |b| && RecInode(b, 0) == 0 && RecLen(b, 0) == |b|
  }

  lemma LeadsForward(b: Block, from: nat, at: nat)
    requires Leads(b, from, at)
    ensures from <= at
  {
  }

  /** The record given up, or the one before it that takes over its space, spans the block exactly when one unused
      record does. */
  lemma SpansFromStart(blocks: seq<Block>, blockno: nat, at: nat, prev: int, buf: Block, dirent: nat)
    requires RecordFound(blocks, blockno, at, prev, buf) && |buf| < 0x1_0000
    requires dirent == if prev < 0 then at else prev
    ensures 0 <= prev ==> RecordAt(buf, prev) && at == prev + RecLen(buf, prev)
    ensures var f := Unlinked(buf, at, prev);
            RecordAt(f, dirent) && (RecInode(f, dirent) == 0 && RecLen(f, dirent) == |f| <==> Unused(f))
  {
    BlankedRecord(buf, at);
    if 0 <= prev {
      MergedRecord(buf, prev, at);
      if 0 < prev {
        LeadsForward(buf, RecLen(buf, 0), prev);
        var f := Unlinked(buf, at, prev);
        assert f[4] == buf[4] && f[5] == buf[5];
        assert RecLen(f, 0) == RecLen(buf, 0) < |buf|;
      }
    }
  }

  lemma UnlinkedDirectory(v: Volume, root: seq<nat>, n: nat, size: nat, nb: nat, v': Volume, root': seq<nat>,
                          blockno: nat, at: nat, prev: int, buf: Block)
    requires FileOk(v, root, n) && Mapped(v, root) && Directory(v, root, size, nb) && 4 * v.p < 0x1_0000
    requires RecordFound(Blocks(v, root, nb), blockno, at, prev, buf)
    requires BlockWritten(v, root, n, v', root', blockno, Unlinked(buf, at, prev))
    ensures v'.p == v.p && Mapped(v', root') && Directory(v', root', size, nb) && Evolved(v, root, n, v', root', n)
    ensures Removed(DirEntries(Blocks(v, root, nb)), DirEntries(Blocks(v', root', nb)),
                    |SeenEntries(Blocks(v, root, nb), blockno, at)|)
  {
    hide FileOk, Mapped, BlockWritten, Evolved, Content, Tiled, Entries, DirEntries, Removed, FirstByte, Blocks,
         Unlinked, Leads, Between;
    var blocks, buf' := Blocks(v, root, nb), Unlinked(buf, at, prev);
    WrittenFacts(v, root, n, v', root', blockno, buf');
    BlocksWritten(v, root, n, v', root', blockno, buf', nb);
    DirectoryIsMapped(v, root, n, size, nb);
    UnlinkedRecord(blocks, blockno, at, prev, buf);
    DirRemoved(blocks, blockno, buf', |Between(buf, 0, at)|);
  }

  /** Clearing the inode number of a record leaves its length, and that of the record before it. */
  lemma BlankedLengths(buf: Block, at: nat, prev: nat)
    requires RecordAt(buf, at) && (prev == at || (RecordAt(buf, prev) && at == prev + RecLen(buf, prev)))
    ensures RecLen(Blanked(buf, at), prev) == RecLen(buf, prev)
  {
    BlankedRecord(buf, at);
  }

  /** ext2fs.c:1501-1508: the inode number is cleared, and the record before takes over the space. */
  method UnlinkBlock(buf0: Block, at: nat, prev: int) returns (buf: Block, dirent: nat)
    requires RecordAt(buf0, at) && |buf0| < 0x1_0000
    requires 0 <= prev ==> RecordAt(buf0, prev) && at == prev + RecLen(buf0, prev)
    ensures |buf| == |buf0| && buf == Unlinked(buf0, at, prev) && RecordAt(buf, dirent)
    ensures dirent == if prev < 0 then at else prev
  {
    hide HalfAt, Blanked, Merged, PutHalfAt, PutWordAt;
    BlankedRecord(buf0, at);
    BlankedLengths(buf0, at, at);
    BlankIsZero(buf0, at);
    buf := PutWordAt(buf0, at, 0);
    dirent := at;
    if prev >= 0 {
      BlankedLengths(buf0, at, prev);
      MergedRecord(buf0, prev, at);
      MergedIs(buf0, prev, at);
      buf := PutHalfAt(buf, prev + 4, RecLen(buf, prev) + RecLen(buf, at));
      dirent := prev;
    }
  }

  lemma MergedIs(buf: Block, prev: nat, at: nat)
    requires RecordAt(buf, prev) && RecordAt(buf, at) && at == prev + RecLen(buf, prev)
    ensures Merged(buf, prev, at) == PutHalfAt(Blanked(buf, at), prev + 4, RecLen(buf, prev) + RecLen(buf, at))
  {
  }

  lemma BlankIsZero(buf: Block, at: nat)
    requires RecordAt(buf, at)
    ensures Blanked(buf, at) == PutWordAt(buf, at, 0)
  {
  }

  /** The record removal of ext2fs_unlink (ext2fs.c:1498-1524): exactly the entry found goes, and the block
      stays tiled. When nothing but one unused record is left of the last block, the block is to be freed
      and is not written; the result says so. */
  method RemoveRecord(fs: Ext2Fs, pino: Inode, pinoNo: nat, blockno: nat, at: nat, prev: int, buf0: Block,
                      ghost n: nat, ghost nb: nat)
    returns (freeBlock: bool)
    requires fs.HasFile(pino, n) && Mapped(fs.vol, pino.block) && Directory(fs.vol, pino.block, pino.size, nb)
    requires pinoNo != 0 && 4 * fs.vol.p < 0x1_0000 && pino.size < WORD
    requires RecordFound(Blocks(fs.vol, pino.block, nb), blockno, at, prev, buf0)
    modifies fs, pino`block, pino`blocks
    ensures fs.vol.p == old(fs.vol).p && Mapped(fs.vol, pino.block) && fs.HasFile(pino, n)
    ensures 0 <= prev ==> RecordAt(buf0, prev) && at == prev + RecLen(buf0, prev)
    ensures freeBlock <==> blockno + 1 == nb && Unused(Unlinked(buf0, at, prev))
    ensures freeBlock ==> fs.vol == old(fs.vol) && pino.block == old(pino.block)
    ensures freeBlock ==> Tiled(Unlinked(buf0, at, prev), 0) && Entries(Unlinked(buf0, at, prev), 0) == []
    ensures !freeBlock ==>
              && Directory(fs.vol, pino.block, pino.size, nb)
              && Evolved(old(fs.vol), old(pino.block), n, fs.vol, pino.block, n)
              && Removed(old(DirEntries(Blocks(fs.vol, pino.block, nb))), DirEntries(Blocks(fs.vol, pino.block, nb)),
                         |old(SeenEntries(Blocks(fs.vol, pino.block, nb), blockno, at))|)
    ensures OthersKept(old(fs.inodeTable), fs.inodeTable, pinoNo)
  {
    hide BlocksOk, Mapped, FileOk, FirstByte, Content, Tiled, DirEntries, Removed, OthersKept, BlockWritten,
         TotalBlocks, Blocks, Evolved, Directory, AllTiled, Fits, GetBlockCount, RecordFound, SeenEntries, Entries,
         Unlinked;
    ghost var v, root := fs.vol, pino.block;
    OthersKeptRefl(fs.inodeTable, pinoNo);
    DirectoryIsMapped(v, root, n, pino.size, nb);
    DirectoryShape(v, root, pino.size, nb);
    RecordParts(Blocks(v, root, nb), blockno, at, prev, buf0);
    UnlinkedRecord(Blocks(v, root, nb), blockno, at, prev, buf0);
    var buf, dirent := UnlinkBlock(buf0, at, prev);
    BlockInRange(|buf|, blockno, nb);
    freeBlock := RecInode(buf, dirent) == 0 && RecLen(buf, dirent) == |buf| && pino.size == (blockno + 1) * |buf|;
    SpansFromStart(Blocks(v, root, nb), blockno, at, prev, buf0, dirent);
    LastOfSize(|buf|, blockno, nb);
    if freeBlock {
      SpanningRecord(buf);
    } else {
      var err := fs.WriteBlockInode(pino, pinoNo, blockno, buf, n);
      UnlinkedDirectory(v, root, n, pino.size, nb, fs.vol, pino.block, blockno, at, prev, buf0);
    }
  }

  lemma RecordParts(blocks: seq<Block>, blockno: nat, at: nat, prev: int, buf: Block)
    requires RecordFound(blocks, blockno, at, prev, buf)
    ensures blockno < |blocks| && buf == blocks[blockno] && RecordAt(buf, at) && Leads(buf, 0, at)
    ensures 0 <= prev ==> RecordAt(buf, prev) && at == prev + RecLen(buf, prev)
  {
  }

  lemma LastOfSize(B: nat, blockno: nat, nb: nat)
    requires 0 < B && blockno < nb
    ensures FirstByte(B, nb) == (blockno + 1) * B <==> blockno + 1 == nb
  {
    if blockno + 1 < nb {
      NextBlock(B, blockno + 1, nb);
    }
  }
}
