/** Directory blocks: records packed one behind the other, each with an inode number (0 for an unused one),
    its length, the length of the name, a type and the name ("The Second Extended File System: Internal
    Layout", directory structure). */
module Directories {
  import opened Bytes
  import opened BlockTree

  const HEADER := 8

  datatype Entry = Entry(name: seq<Byte>, inode: nat, kind: Byte)

  function HalfAt(b: seq<Byte>, a: nat): (h: nat)
    requires a + 2 <= |b|
    ensures h < 0x1_0000
  {
    Le32(b[a], b[a + 1], 0, 0)
  }

  function PutHalfAt(b: seq<Byte>, a: nat, h: nat): (r: seq<Byte>)
    requires a + 2 <= |b|
    ensures |r| == |b|
    ensures forall k | 0 <= k < |b| && (k < a || a + 2 <= k) :: r[k] == b[k]
    ensures h < 0x1_0000 ==> HalfAt(r, a) == h
  {
    b[a := ByteOf(h, 1)][a + 1 := ByteOf(h, 0x100)]
  }

  function RecInode(b: Block, at: nat): nat
    requires at + HEADER <= |b|
  {
    WordAt(b, at)
  }

  function RecLen(b: Block, at: nat): nat
    requires at + HEADER <= |b|
  {
    HalfAt(b, at + 4)
  }

  function NameLen(b: Block, at: nat): nat
    requires at + HEADER <= |b|
  {
    b[at + 6]
  }

  /** (sizeof(ext2_dir_entry_t) + name_len + 3) & ~3: what a record needs, a multiple of 4. */
  function RealLen(nameLen: nat): (r: nat)
    ensures HEADER + nameLen <= r < HEADER + nameLen + 4 && r % 4 == 0
  {
    (HEADER + nameLen + 3) / 4 * 4
  }

  /** A record of a length divisible by 4 that holds its name and lies in the block. */
  predicate RecordAt(b: Block, at: nat) {
    && at + HEADER <= |b|
    && RecLen(b, at) % 4 == 0
    && HEADER + NameLen(b, at) <= RecLen(b, at)
    && at + RecLen(b, at) <= |b|
  }

  /** From at on, records fill the block exactly. */
  predicate Tiled(b: Block, at: nat)
    decreases |b| - at
  {
    at == |b| || (at < |b| && RecordAt(b, at) && Tiled(b, at + RecLen(b, at)))
  }

  /** Following the records from one leads to the other. */
  predicate Leads(b: Block, from: nat, at: nat)
    decreases at - from
  {
    from == at || (from < at && RecordAt(b, from) && Leads(b, from + RecLen(b, from), at))
  }

  function EntryAt(b: Block, at: nat): Entry
    requires RecordAt(b, at)
  {
    Entry(b[at + HEADER..at + HEADER + NameLen(b, at)], RecInode(b, at), b[at + 7])
  }

  /** The bytes of a record: inode number, record length, name length, type and name. */
  lemma RecordOnDisk(b: Block, at: nat)
    requires RecordAt(b, at)
    ensures LittleEndian(b[at..at + 4]) == EntryAt(b, at).inode == RecInode(b, at)
    ensures LittleEndian(b[at + 4..at + 6]) == RecLen(b, at)
    ensures b[at + 6] == |EntryAt(b, at).name| == NameLen(b, at) && b[at + 7] == EntryAt(b, at).kind
    ensures b[at + 8..at + 8 + b[at + 6]] == EntryAt(b, at).name
  {
    WordIsLittleEndian(b, at);
    var h := b[at + 4..at + 6];
    assert h[1..] == [h[1]] && h[1..][1..] == [];
    assert LittleEndian(h[1..]) == h[1];
  }

  /** The record as a list of entries: none when it is unused. */
  function LiveAt(b: Block, at: nat): seq<Entry>
    requires RecordAt(b, at)
  {
    if RecInode(b, at) == 0 then [] else [EntryAt(b, at)]
  }

  /** The entries of the records from one to another. */
  function Between(b: Block, from: nat, at: nat): seq<Entry>
    requires Leads(b, from, at)
    decreases at - from
  {
    if from == at then [] else LiveAt(b, from) + Between(b, from + RecLen(b, from), at)
  }

  /** The entries from at on. */
  function Entries(b: Block, at: nat): seq<Entry>
    requires Tiled(b, at)
    decreases |b| - at
  {
    if at == |b| then [] else LiveAt(b, at) + Entries(b, at + RecLen(b, at))
  }

  lemma {:induction false} EntriesSplit(b: Block, from: nat, at: nat)
    requires Leads(b, from, at) && Tiled(b, at)
    ensures Tiled(b, from) && Entries(b, from) == Between(b, from, at) + Entries(b, at)
    decreases at - from
  {
    hide LiveAt, RecLen;
    if from < at {
      var next := from + RecLen(b, from);
      EntriesSplit(b, next, at);
      assert Between(b, from, at) == LiveAt(b, from) + Between(b, next, at);
      assert Entries(b, from) == LiveAt(b, from) + Entries(b, next);
    }
  }

  lemma {:induction false} LeadsOn(b: Block, from: nat, at: nat)
    requires Leads(b, from, at) && RecordAt(b, at)
    ensures Leads(b, from, at + RecLen(b, at))
    ensures Between(b, from, at + RecLen(b, at)) == Between(b, from, at) + LiveAt(b, at)
    decreases at - from
  {
    if from < at {
      LeadsOn(b, from + RecLen(b, from), at);
    }
  }

  /** Records start at multiples of 4. */
  lemma {:induction false} LeadsAligned(b: Block, from: nat, at: nat)
    requires Leads(b, from, at) && from % 4 == 0
    ensures at % 4 == 0
    decreases at - from
  {
    if from < at {
      LeadsAligned(b, from + RecLen(b, from), at);
    }
  }

  lemma SameRecord(b: Block, b': Block, at: nat)
    requires |b'| == |b| && RecordAt(b, at)
    requires forall k | at <= k < at + RecLen(b, at) :: b'[k] == b[k]
    ensures RecordAt(b', at) && RecLen(b', at) == RecLen(b, at) && LiveAt(b', at) == LiveAt(b, at)
  {
    assert EntryAt(b', at).name == EntryAt(b, at).name;
  }

  /** Records before at do not see what happens from at on. */
  lemma {:induction false} LeadsFrame(b: Block, b': Block, from: nat, at: nat)
    requires Leads(b, from, at) && |b'| == |b| && at <= |b|
    requires forall k | from <= k < at :: b'[k] == b[k]
    ensures Leads(b', from, at) && Between(b', from, at) == Between(b, from, at)
    decreases at - from
  {
    if from < at {
      LeadsInside(b, from + RecLen(b, from), at);
      SameRecord(b, b', from);
      LeadsFrame(b, b', from + RecLen(b, from), at);
    }
  }

  lemma LeadsInside(b: Block, from: nat, at: nat)
    requires Leads(b, from, at)
    ensures from <= at
  {
  }

  /** Nor do records behind see what happens before. */
  lemma {:induction false} TiledFrame(b: Block, b': Block, at: nat)
    requires Tiled(b, at) && |b'| == |b|
    requires forall k | at <= k < |b| :: b'[k] == b[k]
    ensures Tiled(b', at) && Entries(b', at) == Entries(b, at)
    decreases |b| - at
  {
    if at < |b| {
      SameRecord(b, b', at);
      TiledFrame(b, b', at + RecLen(b, at));
    }
  }

  /** Storing inode, name and type in a record keeps its length. */
  function Filled(b: Block, at: nat, e: Entry): (r: Block)
    requires at + HEADER + |e.name| <= |b| && |e.name| < 0x100
    ensures |r| == |b|
  {
    var c := PutWordAt(b, at, e.inode)[at + 6 := |e.name|][at + 7 := e.kind];
    c[..at + HEADER] + e.name + c[at + HEADER + |e.name|..]
  }

  lemma FilledRecord(b: Block, at: nat, e: Entry)
    requires at + HEADER + |e.name| <= |b| && |e.name| < 0x100 && 0 < e.inode < WORD
    requires HEADER + |e.name| <= RecLen(b, at) && RecLen(b, at) % 4 == 0 && at + RecLen(b, at) <= |b|
    ensures RecordAt(Filled(b, at, e), at) && RecLen(Filled(b, at, e), at) == RecLen(b, at)
    ensures LiveAt(Filled(b, at, e), at) == [e]
    ensures forall k | 0 <= k < |b| && (k < at || at + RecLen(b, at) <= k) :: Filled(b, at, e)[k] == b[k]
  {
    PutGetWord(b, at, e.inode, at);
    var f := Filled(b, at, e);
    assert WordAt(f, at) == WordAt(PutWordAt(b, at, e.inode), at);
    assert f[at + HEADER..at + HEADER + |e.name|] == e.name;
  }

  /** A list with e put in at place k. */
  predicate Inserted(s: seq<Entry>, s': seq<Entry>, e: Entry, k: nat) {
    k <= |s| && s' == s[..k] + [e] + s[k..]
  }

  lemma InsertedBehind(front: seq<Entry>, head: seq<Entry>, tail: seq<Entry>, e: Entry)
    ensures Inserted(front + (head + tail), front + (head + [e] + tail), e, |front| + |head|)
  {
    var s, s' := front + (head + tail), front + (head + [e] + tail);
    var k := |front| + |head|;
    assert s[..k] == front + head;
    assert s[k..] == tail;
    assert s' == (front + head) + [e] + tail;
  }

  /** An entry put in behind the head of the records from at on is put into the block. */
  lemma InsertedFrom(b: Block, f: Block, at: nat, head: seq<Entry>, tail: seq<Entry>, e: Entry)
    requires Leads(b, 0, at) && |f| == |b| && at <= |b| && forall k | 0 <= k < at :: f[k] == b[k]
    requires Tiled(b, at) && Entries(b, at) == head + tail
    requires Tiled(f, at) && Entries(f, at) == head + [e] + tail
    ensures Tiled(b, 0) && Tiled(f, 0)
    ensures Inserted(Entries(b, 0), Entries(f, 0), e, |Between(b, 0, at)| + |head|)
  {
    hide Inserted, Leads, Tiled, Between, Entries;
    LeadsFrame(b, f, 0, at);
    EntriesSplit(b, 0, at);
    EntriesSplit(f, 0, at);
    InsertedBehind(Between(b, 0, at), head, tail, e);
  }

  /** An unused record that is long enough takes the entry. */
  lemma ReuseRecord(b: Block, at: nat, e: Entry)
    requires Leads(b, 0, at) && Tiled(b, at) && at < |b|
    requires RecInode(b, at) == 0 && RealLen(|e.name|) <= RecLen(b, at) && |e.name| < 0x100 && 0 < e.inode < WORD
    ensures at + HEADER + |e.name| <= |b|
    ensures Tiled(b, 0) && Tiled(Filled(b, at, e), 0)
    ensures Inserted(Entries(b, 0), Entries(Filled(b, at, e), 0), e, |Between(b, 0, at)|)
  {
    hide Filled, LiveAt, HalfAt, WordAt, Leads, Between, Inserted, Entries;
    var f, next := Filled(b, at, e), at + RecLen(b, at);
    FilledRecord(b, at, e);
    TiledFrame(b, f, next);
    UnfoldEntries(b, at);
    UnfoldEntries(f, at);
    UnusedRecord(b, at);
    hide RecLen, RecordAt, Tiled, RealLen;
    assert [] + Entries(b, next) == Entries(b, next);
    assert [] + [e] + Entries(b, next) == [e] + Entries(b, next);
    InsertedFrom(b, f, at, [], Entries(b, next), e);
  }

  lemma UnusedRecord(b: Block, at: nat)
    requires RecordAt(b, at) && RecInode(b, at) == 0
    ensures LiveAt(b, at) == []
  {
  }

  lemma UnfoldEntries(b: Block, at: nat)
    requires at < |b| && RecordAt(b, at) && Tiled(b, at + RecLen(b, at))
    ensures Tiled(b, at) && Entries(b, at) == LiveAt(b, at) + Entries(b, at + RecLen(b, at))
  {
  }

  /** The record at at shortened to what it needs, and the rest made a record of its own. */
  function Shortened(b: Block, at: nat): (r: Block)
    requires RecordAt(b, at) && RealLen(NameLen(b, at)) + HEADER <= RecLen(b, at)
    ensures |r| == |b|
  {
    var need := RealLen(NameLen(b, at));
    PutHalfAt(PutHalfAt(b, at + 4, need), at + need + 4, RecLen(b, at) - need)
  }

  lemma ShortenedRecord(b: Block, at: nat)
    requires RecordAt(b, at) && RealLen(NameLen(b, at)) + HEADER <= RecLen(b, at)
    ensures var need, s := RealLen(NameLen(b, at)), Shortened(b, at);
            && RecordAt(s, at) && RecLen(s, at) == need && LiveAt(s, at) == LiveAt(b, at)
            && RecLen(s, at + need) == RecLen(b, at) - need
            && (forall k | 0 <= k < |b| && (k < at || at + RecLen(b, at) <= k) :: s[k] == b[k])
  {
    var need, s := RealLen(NameLen(b, at)), Shortened(b, at);
    assert HalfAt(s, at + 4) == HalfAt(PutHalfAt(b, at + 4, need), at + 4);
    assert EntryAt(s, at).name == EntryAt(b, at).name;
  }

  /** The slack of a record takes the entry. */
  lemma SplitRecord(b: Block, at: nat, e: Entry)
    requires Leads(b, 0, at) && Tiled(b, at) && at < |b| && |e.name| < 0x100 && 0 < e.inode < WORD
    requires RealLen(NameLen(b, at)) + RealLen(|e.name|) <= RecLen(b, at)
    ensures var spot := at + RealLen(NameLen(b, at));
            && spot + HEADER + |e.name| <= |b|
            && Tiled(b, 0) && Tiled(Filled(Shortened(b, at), spot, e), 0)
            && Inserted(Entries(b, 0), Entries(Filled(Shortened(b, at), spot, e), 0), e,
                 |Between(b, 0, at)| + |LiveAt(b, at)|)
  {
    hide Filled, Shortened, LiveAt, HalfAt, WordAt, Leads, Between, Inserted, Entries;
    var need, s := RealLen(NameLen(b, at)), Shortened(b, at);
    ShortenedRecord(b, at);
    FilledRecord(s, at + need, e);
    var f, next := Filled(s, at + need, e), at + RecLen(b, at);
    SameRecord(s, f, at);
    TiledFrame(b, f, next);
    UnfoldEntries(b, at);
    UnfoldEntries(f, at + need);
    UnfoldEntries(f, at);
    hide RecordAt, Tiled, RecLen, RealLen;
    InsertedFrom(b, f, at, LiveAt(b, at), Entries(b, next), e);
  }

  /** A new block is one record. */
  lemma NewBlock(b: Block, e: Entry)
    requires HEADER + |e.name| <= |b| < 0x1_0000 && |b| % 4 == 0 && |e.name| < 0x100 && 0 < e.inode < WORD
    ensures Tiled(Filled(PutHalfAt(b, 4, |b|), 0, e), 0)
    ensures Entries(Filled(PutHalfAt(b, 4, |b|), 0, e), 0) == [e]
  {
    var c := PutHalfAt(b, 4, |b|);
    FilledRecord(c, 0, e);
    assert Entries(Filled(c, 0, e), |b|) == [];
  }

  /** A list with its entry at place k taken out. */
  predicate Removed(s: seq<Entry>, s': seq<Entry>, k: nat) {
    k < |s| && s' == s[..k] + s[k + 1..]
  }

  lemma RemovedBehind(front: seq<Entry>, e: Entry, tail: seq<Entry>)
    ensures Removed(front + ([e] + tail), front + tail, |front|)
  {
    var s := front + ([e] + tail);
    assert s[..|front|] == front && s[|front| + 1..] == tail;
  }

  /** Records before at stay, and the entry at at goes. */
  lemma RemovedFrom(b: Block, f: Block, at: nat, at': nat, head: seq<Entry>, e: Entry, tail: seq<Entry>)
    requires Leads(b, 0, at) && Tiled(b, at) && Entries(b, at) == [e] + tail
    requires at' <= at && Leads(b, 0, at') && |f| == |b| && at' <= |b| && forall k | 0 <= k < at' :: f[k] == b[k]
    requires Between(b, 0, at) == Between(b, 0, at') + head
    requires Tiled(f, at') && Entries(f, at') == head + tail
    ensures Tiled(b, 0) && Tiled(f, 0)
    ensures Removed(Entries(b, 0), Entries(f, 0), |Between(b, 0, at)|)
  {
    hide Removed, Leads, Tiled, Between, Entries;
    LeadsFrame(b, f, 0, at');
    EntriesSplit(b, 0, at);
    EntriesSplit(f, 0, at');
    RemovedBehind(Between(b, 0, at), e, tail);
    assert Between(b, 0, at') + (head + tail) == (Between(b, 0, at') + head) + tail;
  }

  /** The record with its inode number set to 0. */
  function Blanked(b: Block, at: nat): (r: Block)
    requires at + HEADER <= |b|
    ensures |r| == |b|
  {
    PutWordAt(b, at, 0)
  }

  lemma BlankedRecord(b: Block, at: nat)
    requires RecordAt(b, at)
    ensures var f := Blanked(b, at);
            && RecordAt(f, at) && RecLen(f, at) == RecLen(b, at) && LiveAt(f, at) == []
            && (forall k | 0 <= k < |b| && (k < at || at + RecLen(b, at) <= k) :: f[k] == b[k])
  {
    PutGetWord(b, at, 0, at);
  }

  /** Without a record before it, the first record of a block is left as an unused one. */
  lemma BlankRecord(b: Block)
    requires Tiled(b, 0) && 0 < |b| && RecInode(b, 0) != 0
    ensures Tiled(Blanked(b, 0), 0) && Removed(Entries(b, 0), Entries(Blanked(b, 0), 0), 0)
  {
    hide Blanked, LiveAt, HalfAt, Removed;
    var f, next := Blanked(b, 0), RecLen(b, 0);
    BlankedRecord(b, 0);
    TiledFrame(b, f, next);
    UnfoldEntries(b, 0);
    UnfoldEntries(f, 0);
    LiveRecord(b, 0);
    hide RecordAt, Tiled, Entries, RecLen;
    RemovedBehind([], EntryAt(b, 0), Entries(b, next));
    assert [] + ([EntryAt(b, 0)] + Entries(b, next)) == [EntryAt(b, 0)] + Entries(b, next);
    assert [] + Entries(b, next) == Entries(b, next);
  }

  lemma LiveRecord(b: Block, at: nat)
    requires RecordAt(b, at) && RecInode(b, at) != 0
    ensures LiveAt(b, at) == [EntryAt(b, at)]
  {
  }

  /** The record at at given up, and the one before it, at prev, extended over it. */
  function Merged(b: Block, prev: nat, at: nat): (r: Block)
    requires RecordAt(b, prev) && RecordAt(b, at) && at == prev + RecLen(b, prev)
    ensures |r| == |b|
  {
    PutHalfAt(Blanked(b, at), prev + 4, RecLen(b, prev) + RecLen(b, at))
  }

  lemma MergedRecord(b: Block, prev: nat, at: nat)
    requires RecordAt(b, prev) && RecordAt(b, at) && at == prev + RecLen(b, prev) && |b| < 0x1_0000
    ensures var f := Merged(b, prev, at);
            && RecordAt(f, prev) && prev + RecLen(f, prev) == at + RecLen(b, at) && LiveAt(f, prev) == LiveAt(b, prev)
            && (forall k | 0 <= k < |b| && (k < prev || at + RecLen(b, at) <= k) :: f[k] == b[k])
  {
    var f := Merged(b, prev, at);
    assert EntryAt(f, prev).name == EntryAt(b, prev).name;
  }

  /** Merging a record into the one before it takes exactly its entry out of the block. */
  lemma MergeRecord(b: Block, prev: nat, at: nat)
    requires Leads(b, 0, prev) && RecordAt(b, prev) && at == prev + RecLen(b, prev) && |b| < 0x1_0000
    requires Tiled(b, at) && at < |b| && RecInode(b, at) != 0
    ensures Leads(b, 0, at) && Tiled(b, 0) && Tiled(Merged(b, prev, at), 0)
    ensures Removed(Entries(b, 0), Entries(Merged(b, prev, at), 0), |Between(b, 0, at)|)
  {
    hide Merged, LiveAt, HalfAt, WordAt, Leads, Between, Removed, Entries;
    var f, next := Merged(b, prev, at), at + RecLen(b, at);
    MergedRecord(b, prev, at);
    LeadsOn(b, 0, prev);
    LiveRecord(b, at);
    TiledFrame(b, f, next);
    UnfoldEntries(b, at);
    UnfoldEntries(f, prev);
    hide RecordAt, Tiled, RecLen;
    RemovedFrom(b, f, at, prev, LiveAt(b, prev), EntryAt(b, at), Entries(b, next));
  }
}
