/** Directories of several blocks as one list of entries, and as a table from names to entries. */
module NameTables {
  import opened Bytes
  import opened BlockTree
  import opened Directories

  ghost predicate AllTiled(blocks: seq<Block>) {
    forall o | 0 <= o < |blocks| :: Tiled(blocks[o], 0)
  }

  /** The entries of all blocks, in order. */
  ghost function DirEntries(blocks: seq<Block>): seq<Entry>
    requires AllTiled(blocks)
  {
    if blocks == [] then [] else DirEntries(blocks[..|blocks| - 1]) + Entries(blocks[|blocks| - 1], 0)
  }

  /** The place of the first entry with a name; the length of the list when there is none. */
  function FirstNamed(s: seq<Entry>, name: seq<Byte>): (r: nat)
    ensures r <= |s| && (r < |s| ==> s[r].name == name)
    ensures forall i | 0 <= i < r :: s[i].name != name
  {
    if s == [] then 0 else if s[0].name == name then 0 else FirstNamed(s[1..], name) + 1
  }

  datatype Found = None | Some(entry: Entry)

  /** The table that the list stands for: a name means its first entry. */
  function Lookup(s: seq<Entry>, name: seq<Byte>): Found {
    var i := FirstNamed(s, name);
    if i < |s| then Some(s[i]) else None
  }

  lemma FirstNamedIs(s: seq<Entry>, name: seq<Byte>, i: nat)
    requires i < |s| && s[i].name == name && forall j | 0 <= j < i :: s[j].name != name
    ensures FirstNamed(s, name) == i
  {
  }

  lemma NotNamed(s: seq<Entry>, name: seq<Byte>)
    requires forall j | 0 <= j < |s| :: s[j].name != name
    ensures FirstNamed(s, name) == |s|
  {
  }

  /** Putting in an entry of another name, or taking one out, leaves a name's first entry alone. */
  lemma LookupAround(front: seq<Entry>, e: Entry, tail: seq<Entry>, name: seq<Byte>)
    requires e.name != name
    ensures Lookup(front + [e] + tail, name) == Lookup(front + tail, name)
  {
    var s, s' := front + tail, front + [e] + tail;
    var i := FirstNamed(s, name);
    if i < |s| {
      var i' := if i < |front| then i else i + 1;
      forall j | 0 <= j < i' ensures s'[j].name != name {
        assert j < |front| ==> s'[j] == s[j];
        assert |front| < j ==> s'[j] == s[j - 1];
      }
      assert s'[i'] == s[i];
      FirstNamedIs(s', name, i');
    } else {
      forall j | 0 <= j < |s'| ensures s'[j].name != name {
        assert j < |front| ==> s'[j] == s[j];
        assert |front| < j ==> s'[j] == s[j - 1];
      }
      NotNamed(s', name);
    }
  }

  /** Creating an entry of a new name adds exactly that binding to the table. */
  lemma LookupInserted(s: seq<Entry>, s': seq<Entry>, e: Entry, k: nat, name: seq<Byte>)
    requires Inserted(s, s', e, k) && Lookup(s, e.name) == None
    ensures Lookup(s', name) == if name == e.name then Some(e) else Lookup(s, name)
  {
    if name == e.name {
      forall j | 0 <= j < k ensures s'[j].name != name {
        assert s'[j] == s[j];
      }
      FirstNamedIs(s', name, k);
    } else {
      LookupAround(s[..k], e, s[k..], name);
      assert s[..k] + s[k..] == s;
    }
  }

  /** Taking out an entry leaves all other names alone; when no name occurs twice, its own name is gone. */
  lemma LookupRemoved(s: seq<Entry>, s': seq<Entry>, k: nat, name: seq<Byte>)
    requires Removed(s, s', k)
    ensures name != s[k].name ==> Lookup(s', name) == Lookup(s, name)
    ensures (forall i, j | 0 <= i < j < |s| :: s[i].name != s[j].name) ==> Lookup(s', s[k].name) == None
  {
    if name != s[k].name {
      assert s[..k] + [s[k]] + s[k + 1..] == s;
      LookupAround(s[..k], s[k], s[k + 1..], name);
    }
    if forall i, j | 0 <= i < j < |s| :: s[i].name != s[j].name {
      forall j | 0 <= j < |s'| ensures s'[j].name != s[k].name {
        assert s'[j] == if j < k then s[j] else s[j + 1];
      }
      NotNamed(s', s[k].name);
    }
  }

  lemma {:induction false} DirSplit(blocks: seq<Block>, i: nat)
    requires AllTiled(blocks) && i < |blocks|
    ensures DirEntries(blocks) == DirEntries(blocks[..i]) + Entries(blocks[i], 0) + DirEntries(blocks[i + 1..])
    decreases |blocks|
  {
    hide Entries, Tiled;
    var n := |blocks| - 1;
    var last := Entries(blocks[n], 0);
    if i == n {
      assert blocks[i + 1..] == [];
      assert DirEntries(blocks[i + 1..]) == [];
    } else {
      DirSplit(blocks[..n], i);
      assert blocks[..n][..i] == blocks[..i];
      assert blocks[..n][i + 1..] == blocks[i + 1..][..n - i - 1];
      assert DirEntries(blocks[i + 1..]) == DirEntries(blocks[..n][i + 1..]) + last;
    }
  }

  lemma UpdatedAround(blocks: seq<Block>, i: nat, b: Block)
    requires i < |blocks|
    ensures blocks[i := b][..i] == blocks[..i] && blocks[i := b][i + 1..] == blocks[i + 1..]
  {
  }

  /** An entry put into one block is put into the directory. */
  lemma DirInserted(blocks: seq<Block>, i: nat, b: Block, e: Entry, k: nat)
    requires AllTiled(blocks) && i < |blocks| && Tiled(b, 0)
    requires Inserted(Entries(blocks[i], 0), Entries(b, 0), e, k)
    ensures AllTiled(blocks[i := b])
    ensures Inserted(DirEntries(blocks), DirEntries(blocks[i := b]), e, |DirEntries(blocks[..i])| + k)
  {
    var blocks' := blocks[i := b];
    hide Entries, Tiled, DirEntries, Inserted, Removed;
    DirSplit(blocks, i);
    DirSplit(blocks', i);
    UpdatedAround(blocks, i, b);
    InsertedInside(DirEntries(blocks[..i]), Entries(blocks[i], 0), Entries(b, 0), DirEntries(blocks[i + 1..]), e, k);
  }

  lemma InsertedInside(front: seq<Entry>, s: seq<Entry>, s': seq<Entry>, tail: seq<Entry>, e: Entry, k: nat)
    requires Inserted(s, s', e, k)
    ensures Inserted(front + s + tail, front + s' + tail, e, |front| + k)
  {
    var t, t' := front + s + tail, front + s' + tail;
    assert t[..|front| + k] == front + s[..k];
    assert t[|front| + k..] == s[k..] + tail;
    assert t' == (front + s[..k]) + [e] + (s[k..] + tail);
  }

  /** A new block at the end with one entry adds it at the end. */
  lemma DirAppended(blocks: seq<Block>, b: Block, e: Entry)
    requires AllTiled(blocks) && Tiled(b, 0) && Entries(b, 0) == [e]
    ensures AllTiled(blocks + [b])
    ensures Inserted(DirEntries(blocks), DirEntries(blocks + [b]), e, |DirEntries(blocks)|)
  {
    assert (blocks + [b])[..|blocks|] == blocks;
  }

  /** An entry taken out of one block is taken out of the directory. */
  lemma DirRemoved(blocks: seq<Block>, i: nat, b: Block, k: nat)
    requires AllTiled(blocks) && i < |blocks| && Tiled(b, 0)
    requires Removed(Entries(blocks[i], 0), Entries(b, 0), k)
    ensures AllTiled(blocks[i := b])
    ensures Removed(DirEntries(blocks), DirEntries(blocks[i := b]), |DirEntries(blocks[..i])| + k)
  {
    var blocks' := blocks[i := b];
    hide Entries, Tiled, DirEntries, Inserted, Removed;
    DirSplit(blocks, i);
    DirSplit(blocks', i);
    UpdatedAround(blocks, i, b);
    RemovedInside(DirEntries(blocks[..i]), Entries(blocks[i], 0), Entries(b, 0), DirEntries(blocks[i + 1..]), k);
  }

  lemma RemovedInside(front: seq<Entry>, s: seq<Entry>, s': seq<Entry>, tail: seq<Entry>, k: nat)
    requires Removed(s, s', k)
    ensures Removed(front + s + tail, front + s' + tail, |front| + k)
  {
    var t, t' := front + s + tail, front + s' + tail;
    assert t[..|front| + k] == front + s[..k];
    assert t[|front| + k + 1..] == s[k + 1..] + tail;
    assert t' == (front + s[..k]) + (s[k + 1..] + tail);
  }

  /** The entries seen when the records before place at of block i have been passed. */
  ghost function SeenEntries(blocks: seq<Block>, i: nat, at: nat): seq<Entry>
    requires AllTiled(blocks) && i < |blocks| && Leads(blocks[i], 0, at)
  {
    DirEntries(blocks[..i]) + Between(blocks[i], 0, at)
  }

  /** The live record at at is entry number |SeenEntries| of the directory. */
  lemma SeenThenEntry(blocks: seq<Block>, i: nat, at: nat)
    requires AllTiled(blocks) && i < |blocks| && Leads(blocks[i], 0, at)
    requires at < |blocks[i]| && RecordAt(blocks[i], at) && RecInode(blocks[i], at) != 0 && Tiled(blocks[i], at)
    ensures var k := |SeenEntries(blocks, i, at)|;
            && k < |DirEntries(blocks)| && DirEntries(blocks)[..k] == SeenEntries(blocks, i, at)
            && DirEntries(blocks)[k] == EntryAt(blocks[i], at)
  {
    hide Tiled, Entries, Between, Leads, LiveAt, EntryAt, DirEntries, RecLen, RecInode;
    DirSplit(blocks, i);
    LiveSplit(blocks[i], at);
    SeenIs(DirEntries(blocks), DirEntries(blocks[..i]), Between(blocks[i], 0, at), EntryAt(blocks[i], at),
           Entries(blocks[i], at + RecLen(blocks[i], at)), DirEntries(blocks[i + 1..]));
  }

  lemma LiveSplit(b: Block, at: nat)
    requires Leads(b, 0, at) && at < |b| && RecordAt(b, at) && RecInode(b, at) != 0 && Tiled(b, at)
    ensures Tiled(b, 0) && Tiled(b, at + RecLen(b, at))
    ensures Entries(b, 0) == Between(b, 0, at) + ([EntryAt(b, at)] + Entries(b, at + RecLen(b, at)))
  {
    TiledBehind(b, at);
    UnfoldEntries(b, at);
    LiveRecord(b, at);
    EntriesSplit(b, 0, at);
    hide RecordAt, Tiled, Entries, Between, Leads, LiveAt, EntryAt, RecLen;
  }

  lemma SeenIs(all: seq<Entry>, front: seq<Entry>, before: seq<Entry>, e: Entry, behind: seq<Entry>, tail: seq<Entry>)
    requires all == front + (before + ([e] + behind)) + tail
    ensures var k := |front + before|; k < |all| && all[..k] == front + before && all[k] == e
  {
    Regroup(front, before, e, behind, tail);
    ListAt(all, front + before, e, behind + tail);
  }

  lemma Regroup(front: seq<Entry>, before: seq<Entry>, e: Entry, behind: seq<Entry>, tail: seq<Entry>)
    ensures front + (before + ([e] + behind)) + tail == (front + before) + [e] + (behind + tail)
  {
  }

  lemma ListAt(s: seq<Entry>, front: seq<Entry>, e: Entry, tail: seq<Entry>)
    requires s == front + [e] + tail
    ensures |front| < |s| && s[..|front|] == front && s[|front|] == e
  {
  }

  lemma TiledBehind(b: Block, at: nat)
    requires at < |b| && Tiled(b, at)
    ensures RecordAt(b, at) && Tiled(b, at + RecLen(b, at))
  {
  }

  /** All records of block i passed. */
  lemma SeenBlock(blocks: seq<Block>, i: nat)
    requires AllTiled(blocks) && i < |blocks| && Leads(blocks[i], 0, |blocks[i]|)
    ensures SeenEntries(blocks, i, |blocks[i]|) == DirEntries(blocks[..i + 1])
  {
    EntriesSplit(blocks[i], 0, |blocks[i]|);
    assert blocks[..i + 1][..i] == blocks[..i];
    assert Between(blocks[i], 0, |blocks[i]|) + [] == Between(blocks[i], 0, |blocks[i]|);
  }
}
