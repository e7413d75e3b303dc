/** Two-level page tables and the frame bitset (src/kernel/arch/i386/vmem.c). Tables are reached through their frame
    number: the mapping of physical memory into the kernel's addresses is taken to be the identity. */
module PageTables {
  import opened Bytes
  import opened Options

  datatype Flags = Flags(write: bool, kernel: bool, writethrough: bool, nocache: bool, pat: bool, global: bool)

  /** An entry of a page directory or of a page table. */
  datatype Page = Page(present: bool, write: bool, user: bool, writethrough: bool, nocache: bool, pat: bool,
                       global: bool, frame: nat)

  const PAGE_SIZE := 0x1000
  const ENTRIES := 1024
  const MAX_FRAMES := 0x10_0000
  const MAP_PAGES_MEMORY := 0xf000_0000
  const FIRST_WORD := 8
  const BLANK := Page(false, false, false, false, false, false, false, 0)

  type Table = t: seq<Page> | |t| == ENTRIES witness seq(ENTRIES, i => BLANK)

  /** The upper ten bits of an address. */
  function DirIndex(vaddr: nat): (i: nat)
    ensures i < ENTRIES && (vaddr < WORD ==> i == vaddr / 0x40_0000)
  {
    vaddr / PAGE_SIZE / ENTRIES % ENTRIES
  }

  /** The ten bits below them. */
  function TableIndex(vaddr: nat): (i: nat)
    ensures i < ENTRIES && i == vaddr % 0x40_0000 / 0x1000
  {
    vaddr / PAGE_SIZE % ENTRIES
  }

  /** The two indexes tell the pages apart. */
  lemma SamePage(v: nat, w: nat)
    requires v < WORD && w < WORD
    ensures DirIndex(v) == DirIndex(w) && TableIndex(v) == TableIndex(w) <==> v / PAGE_SIZE == w / PAGE_SIZE
  {
  }

  /** Frame f is marked in the bitset. */
  predicate Used(frames: seq<nat>, f: nat) {
    f / 32 < |frames| && Bit(frames[f / 32], f % 32)
  }

  /** vmem_frame_set_internal */
  function Marked(frames: seq<nat>, f: nat): seq<nat>
    requires f / 32 < |frames|
  {
    frames[f / 32 := WithBit(frames[f / 32], f % 32)]
  }

  lemma MarkedUsed(frames: seq<nat>, f: nat, g: nat)
    requires f / 32 < |frames|
    ensures Used(Marked(frames, f), g) <==> g == f || Used(frames, g)
  {
    BitsWith(frames[f / 32], f % 32, g % 32);
  }

  /** vmem_get_paddr: the physical address of a virtual one. */
  function Translate(pd: Table, memory: seq<Table>, vaddr: nat): Option<nat> {
    var entry := pd[DirIndex(vaddr)];
    if !entry.present || |memory| <= entry.frame then None
    else
      var page := memory[entry.frame][TableIndex(vaddr)];
      if !page.present then None else Some(page.frame * PAGE_SIZE + vaddr % PAGE_SIZE)
  }

  /** The tables are distinct frames in memory, and marked as used. */
  ghost predicate Sound(frames: seq<nat>, memory: seq<Table>, pd: Table) {
    && |memory| == MAX_FRAMES && |frames| * 32 <= MAX_FRAMES
    && (forall k | 0 <= k < |frames| :: frames[k] < WORD)
    && (forall i | 0 <= i < ENTRIES && pd[i].present :: pd[i].frame < MAX_FRAMES && Used(frames, pd[i].frame))
    && (forall i, j | 0 <= i < ENTRIES && 0 <= j < ENTRIES && pd[i].present && pd[j].present
                      && pd[i].frame == pd[j].frame :: i == j)
  }

  lemma MarkedBound(frames: seq<nat>, f: nat)
    requires f / 32 < |frames| && forall k | 0 <= k < |frames| :: frames[k] < WORD
    ensures forall k | 0 <= k < |frames| :: Marked(frames, f)[k] < WORD
  {
    Pow2Of32();
    BitsBound(frames[f / 32], f % 32, 32);
  }

  /** The bits of a word of the bitset, through ffsl of its complement. */
  lemma ClearInWord(frames: seq<nat>, i: nat, j: nat)
    requires i < |frames| && frames[i] < WORD && j < 32
    ensures Bit(WORD - 1 - frames[i], j) <==> !Used(frames, i * 32 + j)
  {
    Pow2Of32();
    BitsOfComplement(frames[i], 32, j);
    assert (i * 32 + j) / 32 == i && (i * 32 + j) % 32 == j;
  }

  /** vmem_frame_find_first: the first free frame behind the first megabyte; none exactly when all whole words of the
      bitset are full. */
  method FindFirst(frames: seq<nat>, frameCount: nat) returns (frame: Option<nat>)
    requires frameCount / 32 <= |frames| && forall k | 0 <= k < |frames| :: frames[k] < WORD
    ensures frame.Some?
            ==> 0x100 <= frame.value < frameCount && frame.value / 32 < |frames| && !Used(frames, frame.value)
    ensures forall f | 0x100 <= f < (if frame.Some? then frame.value else frameCount / 32 * 32) :: Used(frames, f)
  {
    var i := FIRST_WORD;
    while i < frameCount / 32
      invariant FIRST_WORD <= i && forall f | 0x100 <= f < i * 32 :: Used(frames, f)
    {
      var x := Ffs(WORD - 1 - frames[i], 32);
      forall f | i * 32 <= f < i * 32 + (if x == 0 then 32 else x - 1) ensures Used(frames, f) {
        ClearInWord(frames, i, f - i * 32);
      }
      if x != 0 {
        ClearInWord(frames, i, x - 1);
        return Some(i * 32 + x - 1);
      }
      i := i + 1;
    }
    return None;
  }

  /** Every other page than the one of an address is translated as before. */
  ghost predicate SameElsewhere(pd: Table, memory: seq<Table>, memory': seq<Table>, vaddr: nat) {
    forall v | 0 <= v < WORD && v / PAGE_SIZE != vaddr / PAGE_SIZE
      :: Translate(pd, memory', v) == Translate(pd, memory, v)
  }

  /** The page of an address leads to frame f, and every other one where it led before; the directory may have got a
      table. */
  ghost predicate MappedTo(pd: Table, memory: seq<Table>, pd': Table, memory': seq<Table>, vaddr: nat, f: nat) {
    forall v | 0 <= v < WORD
      :: Translate(pd', memory', v)
         == if v / PAGE_SIZE == vaddr / PAGE_SIZE then Some(f * PAGE_SIZE + v % PAGE_SIZE) else Translate(pd, memory, v)
  }

  /** The frames in use: those before, and f. */
  ghost predicate UsedToo(frames: seq<nat>, frames': seq<nat>, f: nat) {
    |frames'| == |frames| && forall g: nat :: Used(frames', g) <==> g == f || Used(frames, g)
  }

  /** f was the first free frame behind the first megabyte, and is the one that came into use. */
  ghost predicate Handed(frames: seq<nat>, frames': seq<nat>, f: nat) {
    && 0x100 <= f && !Used(frames, f) && (forall g | 0x100 <= g < f :: Used(frames, g))
    && UsedToo(frames, frames', f)
  }

  /** No frame is free in the whole words of the bitset behind the first megabyte. */
  ghost predicate Full(frames: seq<nat>, frameCount: nat) {
    forall f | 0x100 <= f < frameCount / 32 * 32 :: Used(frames, f)
  }

  /** What vmem_frame_alloc makes of an entry (vmem.c:252-258). */
  function Entry(flags: Flags, frame: nat): Page {
    Page(true, flags.write, !flags.kernel, flags.writethrough, flags.nocache, flags.pat, flags.global, frame)
  }

  /** The directory entry for a new table (vmem.c:374-376): present and writable, for users unless it is the
      kernel's. */
  function TableEntry(kernel: bool, frame: nat): Page {
    Page(true, true, !kernel, false, false, false, false, frame)
  }

  lemma UpdatedTwice(memory: seq<Table>, t: nat, i: nat, page: Page, page': Page)
    requires t < |memory| && i < ENTRIES
    ensures var m := memory[t := memory[t][i := page]];
            m[t := m[t][i := page']] == memory[t := memory[t][i := page']]
  {
    assert memory[t][i := page][i := page'] == memory[t][i := page'];
  }

  class Paging {
    var frames: seq<nat>
    var memory: seq<Table>
    var pd: Table
    const frameCount: nat

    ghost predicate Valid()
      reads this
    {
      Sound(frames, memory, pd) && frameCount / 32 <= |frames|
    }

    /** No tables, and no frame in use. */
    constructor (frameCount: nat)
      requires frameCount <= MAX_FRAMES
      ensures Valid() && this.frameCount == frameCount
      ensures forall v: nat :: Translate(pd, memory, v) == None
    {
      this.frameCount := frameCount;
      frames := seq((frameCount + 31) / 32, _ => 0);
      memory := seq(MAX_FRAMES, _ => seq(ENTRIES, _ => BLANK));
      pd := seq(ENTRIES, _ => BLANK);
    }

    /** vmem_frame_set: frame f becomes marked. */
    method Mark(f: nat)
      requires Valid() && f / 32 < |frames|
      modifies this`frames
      ensures Valid() && |frames| == old(|frames|)
      ensures forall g: nat :: Used(frames, g) <==> g == f || old(Used(frames, g))
    {
      MarkedBound(frames, f);
      forall g: nat ensures Used(Marked(frames, f), g) <==> g == f || Used(frames, g) {
        MarkedUsed(frames, f, g);
      }
      frames := Marked(frames, f);
    }

    /** An empty table in a free frame. */
    method NewTable(i: nat, frame: nat, kernel: bool)
      requires Valid() && i < ENTRIES && !pd[i].present && frame / 32 < |frames| && !Used(frames, frame)
      modifies this
      ensures Valid() && UsedToo(old(frames), frames, frame)
      ensures pd == old(pd)[i := TableEntry(kernel, frame)]
      ensures frame < |memory| && memory == old(memory)[frame := memory[frame]]
      ensures forall k | 0 <= k < ENTRIES :: memory[frame][k] == BLANK
      ensures forall v: nat :: Translate(pd, memory, v) == old(Translate(pd, memory, v))
    {
      Mark(frame);
      memory := memory[frame := seq(ENTRIES, _ => BLANK)];
      pd := pd[i := TableEntry(kernel, frame)];
    }

    /** vmem_get_page_other below the mapping region (vmem.c:352-385): the frame of the page table, made if it is
        missing and asked for. No translation changes, and the tables stay distinct. halted stands for arch_fatal. */
    method GetPage(vaddr: nat, create: bool, kernel: bool) returns (table: Option<nat>, halted: bool)
      requires Valid() && vaddr < MAP_PAGES_MEMORY
      modifies this
      ensures Valid()
      ensures forall v: nat :: Translate(pd, memory, v) == old(Translate(pd, memory, v))
      ensures |frames| == old(|frames|)
      ensures table.None? <==> halted || (!create && !old(pd[DirIndex(vaddr)].present))
      ensures table.Some? ==> pd[DirIndex(vaddr)].present && table.value == pd[DirIndex(vaddr)].frame
      ensures table.None? || old(pd[DirIndex(vaddr)].present) ==>
                frames == old(frames) && pd == old(pd) && memory == old(memory)
      ensures table.Some? && !old(pd[DirIndex(vaddr)].present) ==>
                && Handed(old(frames), frames, table.value) && table.value < frameCount
                && pd == old(pd)[DirIndex(vaddr) := TableEntry(kernel, table.value)]
                && table.value < |memory| && memory == old(memory)[table.value := memory[table.value]]
                && forall k | 0 <= k < ENTRIES :: memory[table.value][k] == BLANK
      ensures halted ==> create && !old(pd[DirIndex(vaddr)].present) && Full(frames, frameCount)
    {
      halted := false;
      var i := DirIndex(vaddr);
      if !pd[i].present {
        if !create {
          return None, false;
        }
        var frame := FindFirst(frames, frameCount);
        if frame.None? {
          return None, true;
        }
        NewTable(i, frame.value, kernel);
      }
      table := Some(pd[i].frame);
    }

    /** Writing an entry of the table of a directory entry: the addresses of that page are translated by it, all
        others as before. */
    method SetPage(vaddr: nat, page: Page)
      requires Valid() && vaddr < WORD && pd[DirIndex(vaddr)].present
      modifies this`memory
      ensures Valid()
      ensures var t := pd[DirIndex(vaddr)].frame;
              memory == old(memory)[t := old(memory)[t][TableIndex(vaddr) := page]]
      ensures SameElsewhere(pd, old(memory), memory, vaddr)
      ensures page.present ==> MappedTo(pd, old(memory), pd, memory, vaddr, page.frame)
    {
      var table := pd[DirIndex(vaddr)].frame;
      memory := memory[table := memory[table][TableIndex(vaddr) := page]];
      forall v | 0 <= v < WORD ensures DirIndex(v) == DirIndex(vaddr) && TableIndex(v) == TableIndex(vaddr)
                                       <==> v / PAGE_SIZE == vaddr / PAGE_SIZE {
        SamePage(v, vaddr);
      }
    }

    /** Lines 246-250: a page without a frame gets the first free one. */
    method FrameFor(was: nat) returns (frame: Option<nat>)
      requires Valid()
      modifies this`frames
      ensures Valid()
      ensures was != 0 ==> frame == Some(was)
      ensures was != 0 || frame.None? ==> frames == old(frames)
      ensures was == 0 && frame.Some? ==> Handed(old(frames), frames, frame.value)
      ensures frame.None? ==> Full(frames, frameCount)
    {
      if was != 0 {
        return Some(was);
      }
      frame := FindFirst(frames, frameCount);
      if frame.Some? {
        Mark(frame.value);
      }
    }

    /** vmem_frame_alloc (vmem.c:245-262) for the page of an address. */
    method FrameAlloc(vaddr: nat, flags: Flags) returns (halted: bool, frame: nat)
      requires Valid() && vaddr < WORD && pd[DirIndex(vaddr)].present
      modifies this`frames, this`memory
      ensures Valid()
      ensures var was := old(memory[pd[DirIndex(vaddr)].frame][TableIndex(vaddr)].frame);
              if was != 0 then !halted && frame == was && frames == old(frames)
              else if halted then frames == old(frames) else Handed(old(frames), frames, frame)
      ensures halted ==> Full(frames, frameCount)
      ensures !halted ==> MappedTo(pd, old(memory), pd, memory, vaddr, frame)
      ensures var t := pd[DirIndex(vaddr)].frame;
              if halted then memory == old(memory)
              else memory == old(memory)[t := old(memory)[t][TableIndex(vaddr) := Entry(flags, frame)]]
    {
      var first := FrameFor(memory[pd[DirIndex(vaddr)].frame][TableIndex(vaddr)].frame);
      if first.None? {
        return true, 0;
      }
      frame := first.value;
      SetPage(vaddr, Entry(flags, frame));
      halted := false;
    }

    /** vmem_frame_map_addr (vmem.c:266-270). */
    method FrameMapAddr(vaddr: nat, flags: Flags, paddr: nat) returns (halted: bool, frame: nat)
      requires Valid() && vaddr < WORD && pd[DirIndex(vaddr)].present && paddr / PAGE_SIZE / 32 < |frames|
      modifies this`frames, this`memory
      ensures Valid()
      ensures if PAGE_SIZE <= paddr then !halted && frame == paddr / PAGE_SIZE
              else if halted then Full(frames, frameCount) else 0x100 <= frame && !old(Used(frames, frame))
      ensures Used(frames, paddr / PAGE_SIZE) && (!halted ==> Used(frames, frame))
      ensures |frames| == |old(frames)|
      ensures forall g: nat ::
                Used(frames, g) <==> old(Used(frames, g)) || g == paddr / PAGE_SIZE || (!halted && g == frame)
      ensures !halted ==> MappedTo(pd, old(memory), pd, memory, vaddr, frame)
      ensures var t := pd[DirIndex(vaddr)].frame;
              !halted ==> memory == old(memory)[t := old(memory)[t][TableIndex(vaddr) := Entry(flags, frame)]]
    {
      Mark(paddr / PAGE_SIZE);
      var page := memory[pd[DirIndex(vaddr)].frame][TableIndex(vaddr)];
      SetPage(vaddr, page.(frame := paddr / PAGE_SIZE));
      halted, frame := FrameAlloc(vaddr, flags);
      UpdatedTwice(old(memory), pd[DirIndex(vaddr)].frame, TableIndex(vaddr), page.(frame := paddr / PAGE_SIZE),
                   Entry(flags, frame));
    }

    /** Getting the page of an address and mapping it: the address is translated to the physical one and its offset,
        and no other page's translation changes. That is so exactly for physical addresses behind the first page: frame
        0 counts as no frame, and a free one is taken instead. The frames in use are those before, the one mapped and
        that of a new table, which was free; so no frame in use is handed out. */
    method MapPage(vaddr: nat, kernel: bool, flags: Flags, paddr: nat) returns (halted: bool, ghost frame: nat)
      requires Valid() && vaddr < MAP_PAGES_MEMORY && paddr / PAGE_SIZE / 32 < |frames|
      modifies this
      ensures Valid()
      ensures halted ==> Full(frames, frameCount) && (old(pd[vaddr / 0x40_0000].present) ==> paddr < PAGE_SIZE)
      ensures !halted ==> MappedTo(old(pd), old(memory), pd, memory, vaddr, frame)
      ensures !halted ==> (frame == paddr / PAGE_SIZE <==> PAGE_SIZE <= paddr)
      ensures !halted ==> (Translate(pd, memory, vaddr) == Some(paddr / PAGE_SIZE * PAGE_SIZE + vaddr % PAGE_SIZE)
                           <==> PAGE_SIZE <= paddr)
      ensures |frames| == |old(frames)| && forall g: nat :: old(Used(frames, g)) ==> Used(frames, g)
      ensures !halted && paddr < PAGE_SIZE ==> !old(Used(frames, frame))
      ensures !halted ==>
                var i := vaddr / 0x40_0000;
                && (if old(pd[i].present) then pd == old(pd)
                    else pd == old(pd)[i := Page(true, true, !kernel, false, false, false, false, pd[i].frame)]
                         && !Used(old(frames), pd[i].frame) && (paddr < PAGE_SIZE ==> frame != pd[i].frame))
                && (forall g: nat ::
                      Used(frames, g) <==> old(Used(frames, g)) || g == paddr / PAGE_SIZE || g == frame
                                           || (!old(pd[i].present) && g == pd[i].frame))
      ensures !halted ==>
                var t := pd[vaddr / 0x40_0000].frame;
                t < |memory| && memory[t][vaddr % 0x40_0000 / 0x1000]
                                == Page(true, flags.write, !flags.kernel, flags.writethrough, flags.nocache,
                                        flags.pat, flags.global, frame)
    {
      hide Translate, Used, SameElsewhere;
      var table;
      table, halted := GetPage(vaddr, true, kernel);
      if halted {
        return true, 0;
      }
      halted, frame := FrameMapAddr(vaddr, flags, paddr);
    }
  }
}
