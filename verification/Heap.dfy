/** The boundary-tag heap (src/kernel/mem/heap.c) in byte-addressed memory, with its index of holes
    (src/kernel/misc/ordered_array.c). */
module Heap {
  import opened Bytes
  import opened HoleIndex
  import opened Segments

  const MAGIC := 0x0ded_beef
  const PAGE_SIZE := 4096

  /** The header fields: the magic number, align and hole as bytes, the size. */
  predicate HasHeader(mem: seq<Byte>, s: Segment)
    requires s.addr + HEADER <= |mem|
  {
    && WordAt(mem, s.addr) == MAGIC
    && (mem[s.addr + 5] != 0 <==> s.hole)
    && WordAt(mem, s.addr + 8) == s.size
  }

  /** The footer fields: the magic number and the address of the header. */
  predicate HasFooter(mem: seq<Byte>, a: nat, size: nat, hdr: nat)
    requires FOOTER <= size && a + size <= |mem|
  {
    && WordAt(mem, a + size - 8) == MAGIC
    && WordAt(mem, a + size - 4) == hdr
  }

  predicate Stored(mem: seq<Byte>, s: Segment) {
    && OVERHEAD <= s.size && s.addr + s.size <= |mem|
    && HasHeader(mem, s)
    && HasFooter(mem, s.addr, s.size, s.addr)
  }

  predicate AllStored(mem: seq<Byte>, segs: seq<Segment>) {
    forall i | 0 <= i < |segs| :: Stored(mem, segs[i])
  }

  /** The two memories agree outside [lo, hi). */
  ghost predicate SameOutside(mem: seq<Byte>, mem': seq<Byte>, lo: nat, hi: nat) {
    && |mem'| == |mem|
    && forall k | 0 <= k < |mem| && (k < lo || hi <= k) :: mem'[k] == mem[k]
  }

  lemma StoredFrame(mem: seq<Byte>, mem': seq<Byte>, lo: nat, hi: nat, s: Segment)
    requires Stored(mem, s) && SameOutside(mem, mem', lo, hi)
    requires s.addr + s.size <= lo || hi <= s.addr
    ensures Stored(mem', s)
  {
  }

  /** Part of the list replaced, and memory written nowhere but there. */
  lemma ReplacedStored(mem: seq<Byte>, mem': seq<Byte>, segs: seq<Segment>, from: nat, i: nat, j: nat,
                       mid: seq<Segment>)
    requires Chained(segs, from) && AllStored(mem, segs) && i < j <= |segs|
    requires SameOutside(mem, mem', segs[i].addr, segs[j - 1].addr + segs[j - 1].size)
    requires AllStored(mem', mid)
    ensures AllStored(mem', Replaced(segs, i, j, mid))
  {
    hide Stored, SameOutside;
    var s := Replaced(segs, i, j, mid);
    forall k | 0 <= k < |s| ensures Stored(mem', s[k]) {
      if k < i {
        assert s[k] == segs[k];
        Disjoint(segs, from, k, i);
        StoredFrame(mem, mem', segs[i].addr, segs[j - 1].addr + segs[j - 1].size, segs[k]);
      } else if k < i + |mid| {
        assert s[k] == mid[k - i];
      } else {
        var k' := k - i - |mid| + j;
        assert s[k] == segs[k'];
        Disjoint(segs, from, j - 1, k');
        StoredFrame(mem, mem', segs[i].addr, segs[j - 1].addr + segs[j - 1].size, segs[k']);
      }
    }
  }

  /** hdr->size, hdr->magic, hdr->hole and hdr->align stored at a. */
  function WithHeader(mem: seq<Byte>, s: Segment): (r: seq<Byte>)
    requires s.addr + HEADER <= |mem|
    ensures |r| == |mem|
  {
    PutWordAt(PutWordAt(mem, s.addr + 8, s.size), s.addr, MAGIC)[s.addr + 5 := if s.hole then 1 else 0][s.addr + 4 := 0]
  }

  /** ftr->magic and ftr->hdr stored at the end of the segment at a. */
  function WithFooter(mem: seq<Byte>, a: nat, size: nat, hdr: nat): (r: seq<Byte>)
    requires FOOTER <= size && a + size <= |mem|
    ensures |r| == |mem|
  {
    PutWordAt(PutWordAt(mem, a + size - 8, MAGIC), a + size - 4, hdr)
  }

  lemma HeaderWritten(mem: seq<Byte>, s: Segment)
    requires s.addr + HEADER <= |mem| && s.size < WORD
    ensures HasHeader(WithHeader(mem, s), s) && SameOutside(mem, WithHeader(mem, s), s.addr, s.addr + HEADER)
  {
    var m1 := PutWordAt(mem, s.addr + 8, s.size);
    PutGetWord(mem, s.addr + 8, s.size, s.addr + 8);
    PutGetWord(m1, s.addr, MAGIC, s.addr);
    PutGetWord(m1, s.addr, MAGIC, s.addr + 8);
  }

  lemma FooterWritten(mem: seq<Byte>, a: nat, size: nat, hdr: nat)
    requires FOOTER <= size && a + size <= |mem| && hdr < WORD
    ensures HasFooter(WithFooter(mem, a, size, hdr), a, size, hdr)
    ensures SameOutside(mem, WithFooter(mem, a, size, hdr), a + size - FOOTER, a + size)
  {
    var m1 := PutWordAt(mem, a + size - 8, MAGIC);
    PutGetWord(mem, a + size - 8, MAGIC, a + size - 8);
    PutGetWord(m1, a + size - 4, hdr, a + size - 4);
    PutGetWord(m1, a + size - 4, hdr, a + size - 8);
  }

  /** Header and footer of one segment written. */
  function WithSegment(mem: seq<Byte>, s: Segment): (r: seq<Byte>)
    requires OVERHEAD <= s.size && s.addr + s.size <= |mem|
    ensures |r| == |mem|
  {
    WithFooter(WithHeader(mem, s), s.addr, s.size, s.addr)
  }

  lemma SegmentWritten(mem: seq<Byte>, s: Segment)
    requires OVERHEAD <= s.size && 0 < s.addr && s.addr + s.size <= |mem| <= WORD
    ensures Stored(WithSegment(mem, s), s) && SameOutside(mem, WithSegment(mem, s), s.addr, s.addr + s.size)
  {
    hide WithHeader, WithFooter;
    HeaderWritten(mem, s);
    FooterWritten(WithHeader(mem, s), s.addr, s.size, s.addr);
  }

  /** What the heap keeps: segments from start to end with headers and footers in place, no two holes side
      by side, the index listing the holes, each once, and nothing before the start or behind the end that
      looks like a footer or header. */
  ghost predicate Sound(mem: seq<Byte>, start: nat, end: nat, max: nat, segs: seq<Segment>, index: seq<nat>) {
    && FOOTER <= start <= end <= max && max + HEADER <= |mem| <= WORD
    && Chained(segs, start) && EndOf(segs, start) == end
    && NoAdjacentHoles(segs)
    && AllStored(mem, segs)
    && IndexOk(index, segs)
    && Guarded(mem, start, end, max)
  }

  ghost predicate IndexOk(index: seq<nat>, segs: seq<Segment>) {
    && (forall a: nat :: a in index <==> IsHole(segs, a))
    && (forall i, j | 0 <= i < j < |index| :: index[i] != index[j])
  }

  ghost predicate Guarded(mem: seq<Byte>, start: nat, end: nat, max: nat)
    requires FOOTER <= start <= end <= max && max + HEADER <= |mem|
  {
    && WordAt(mem, start - FOOTER) != MAGIC
    && (forall a | end <= a <= max :: WordAt(mem, a) != MAGIC)
  }

  lemma OutsideTransitive(m: seq<Byte>, m1: seq<Byte>, m2: seq<Byte>, lo: nat, hi: nat, lo': nat, hi': nat)
    requires SameOutside(m, m1, lo, hi) && SameOutside(m1, m2, lo', hi') && lo <= lo' && hi' <= hi
    ensures SameOutside(m, m2, lo, hi)
  {
  }

  lemma GuardKept(mem: seq<Byte>, mem': seq<Byte>, start: nat, end: nat, max: nat, lo: nat, hi: nat)
    requires FOOTER <= start <= end <= max && max + HEADER <= |mem| && Guarded(mem, start, end, max)
    requires SameOutside(mem, mem', lo, hi) && start <= lo && hi <= end
    ensures Guarded(mem', start, end, max)
  {
    forall a | end <= a <= max ensures WordAt(mem', a) != MAGIC {
      assert WordAt(mem', a) == WordAt(mem, a);
    }
  }

  /** A hole of the index is a segment in memory. */
  lemma IndexedHole(mem: seq<Byte>, start: nat, end: nat, max: nat, segs: seq<Segment>, index: seq<nat>, i: nat)
    returns (k: nat)
    requires Sound(mem, start, end, max, segs, index) && i < |index|
    ensures k < |segs| && segs[k].hole && segs[k].addr == index[i]
    ensures start <= index[i] && index[i] + segs[k].size <= end && OVERHEAD <= segs[k].size
    ensures index[i] + HEADER <= |mem| && WordAt(mem, index[i] + 8) == segs[k].size
  {
    assert IsHole(segs, index[i]);
    k :| 0 <= k < |segs| && segs[k].hole && segs[k].addr == index[i];
    ChainRange(segs, start, k);
    assert Stored(mem, segs[k]);
  }

  /** The memory after hole s was taken for need bytes (heap.c:191-210). */
  function PlacedMemory(mem: seq<Byte>, s: Segment, need: nat): (r: seq<Byte>)
    requires OVERHEAD <= need <= s.size && s.addr + s.size <= |mem|
    ensures |r| == |mem|
  {
    var taken := TakenSize(s.size, need);
    var m := WithSegment(mem, Segment(s.addr, taken, false));
    if taken < s.size then WithSegment(m, Segment(s.addr + taken, s.size - taken, true)) else m
  }

  lemma PlacedInMemory(mem: seq<Byte>, s: Segment, need: nat)
    requires OVERHEAD <= need <= s.size && 0 < s.addr && s.addr + s.size <= |mem| <= WORD
    ensures SameOutside(mem, PlacedMemory(mem, s, need), s.addr, s.addr + s.size)
    ensures AllStored(PlacedMemory(mem, s, need), Halves(s, need))
  {
    hide WithSegment, Stored;
    var taken := TakenSize(s.size, need);
    var s1 := Segment(s.addr, taken, false);
    SegmentWritten(mem, s1);
    var m := WithSegment(mem, s1);
    if taken < s.size {
      var s2 := Segment(s.addr + taken, s.size - taken, true);
      SegmentWritten(m, s2);
      StoredFrame(m, WithSegment(m, s2), s2.addr, s2.addr + s2.size, s1);
    }
  }

  /** The index after hole k was taken. */
  ghost predicate PlacedIndex(index: seq<nat>, index': seq<nat>, s: Segment, need: nat)
    requires need <= s.size
  {
    && (forall a: nat ::
          a in index' <==> (a in index && a != s.addr)
                           || (|Halves(s, need)| == 2 && a == s.addr + TakenSize(s.size, need)))
    && (forall i, j | 0 <= i < j < |index'| :: index'[i] != index'[j])
  }

  lemma PlacedSound(mem: seq<Byte>, start: nat, end: nat, max: nat, segs: seq<Segment>, index: seq<nat>,
                    index': seq<nat>, k: nat, need: nat)
    requires Sound(mem, start, end, max, segs, index)
    requires k < |segs| && segs[k].hole && OVERHEAD <= need <= segs[k].size
    requires PlacedIndex(index, index', segs[k], need)
    ensures segs[k].addr + segs[k].size <= end <= |mem|
    ensures Sound(PlacedMemory(mem, segs[k], need), start, end, max, Placed(segs, k, need), index')
    ensures SameOutside(mem, PlacedMemory(mem, segs[k], need), segs[k].addr, segs[k].addr + segs[k].size)
  {
    hide Stored, Placed, Halves, PlacedMemory, SameOutside, NoAdjacentHoles, IsHole;
    ChainRange(segs, start, k);
    PlacedInMemory(mem, segs[k], need);
    PlacedOk(segs, start, k, need);
    GuardKept(mem, PlacedMemory(mem, segs[k], need), start, end, max, segs[k].addr, segs[k].addr + segs[k].size);
    ReplacedStored(mem, PlacedMemory(mem, segs[k], need), segs, start, k, k + 1, Halves(segs[k], need));
    PlacedIs(segs, k, need);
    forall a: nat ensures a in index' <==> IsHole(Placed(segs, k, need), a) {
      PlacedHoles(segs, start, k, need, a);
    }
  }

  lemma PlacedIs(segs: seq<Segment>, k: nat, need: nat)
    requires k < |segs| && need <= segs[k].size
    ensures Placed(segs, k, need) == Replaced(segs, k, k + 1, Halves(segs[k], need))
  {
  }

  /** The steps to that index: element iter out, and what is split off in at place i. */
  ghost predicate TakenIndex(mem: seq<Byte>, index: seq<nat>, index': seq<nat>, s: Segment, need: nat, iter: nat,
                             i: nat)
    requires need <= s.size && iter < |index|
  {
    var rest, el := IndexWithout(index, iter), s.addr + TakenSize(s.size, need);
    if TakenSize(s.size, need) < s.size then IsPlace(mem, rest, i, el) && index' == IndexWith(rest, i, el)
    else index' == rest
  }

  lemma TakenPlaced(mem: seq<Byte>, mem': seq<Byte>, start: nat, end: nat, max: nat, segs: seq<Segment>,
                    index: seq<nat>, index': seq<nat>, k: nat, need: nat, iter: nat, i: nat)
    requires Sound(mem, start, end, max, segs, index) && k < |segs| && OVERHEAD <= need <= segs[k].size
    requires iter < |index| && index[iter] == segs[k].addr
    requires TakenIndex(mem', index, index', segs[k], need, iter, i)
    ensures PlacedIndex(index, index', segs[k], need)
  {
    hide Sound, IsHole, SizeAt;
    SoundShape(mem, start, end, max, segs, index);
    IndexRemoved(index, iter);
    var el := segs[k].addr + TakenSize(segs[k].size, need);
    if TakenSize(segs[k].size, need) < segs[k].size {
      NotIndexed(segs, start, index, k, el);
      IndexInserted(IndexWithout(index, iter), i, el);
    }
  }

  /** The headers of holes outside a range that was written keep their sizes. */
  lemma SizesKept(mem: seq<Byte>, mem': seq<Byte>, start: nat, end: nat, max: nat, segs: seq<Segment>,
                  index: seq<nat>, lo: nat, hi: nat)
    requires Sound(mem, start, end, max, segs, index) && lo <= hi < |segs|
    requires SameOutside(mem, mem', segs[lo].addr, segs[hi].addr + segs[hi].size)
    ensures forall a: nat | a in index && forall i | lo <= i <= hi :: segs[i].addr != a ::
              SizeAt(mem', a) == SizeAt(mem, a)
  {
    hide WordAt, NoAdjacentHoles, Guarded, SameOutside;
    forall a: nat | a in index && forall i | lo <= i <= hi :: segs[i].addr != a
      ensures SizeAt(mem', a) == SizeAt(mem, a)
    {
      assert IsHole(segs, a);
      var j :| 0 <= j < |segs| && segs[j].hole && segs[j].addr == a;
      if j < lo {
        Disjoint(segs, start, j, lo);
      } else {
        Disjoint(segs, start, hi, j);
      }
      assert Stored(mem, segs[j]);
      StoredFrame(mem, mem', segs[lo].addr, segs[hi].addr + segs[hi].size, segs[j]);
    }
  }

  /** Allocating keeps the index in order, even when only the hole it takes was out of order. */
  lemma TakenOrdered(mem: seq<Byte>, mem': seq<Byte>, start: nat, end: nat, max: nat, segs: seq<Segment>,
                     index: seq<nat>, index': seq<nat>, k: nat, need: nat, iter: nat, i: nat)
    requires Sound(mem, start, end, max, segs, index) && k < |segs| && OVERHEAD <= need <= segs[k].size
    requires iter < |index| && index[iter] == segs[k].addr
    requires SameOutside(mem, mem', segs[k].addr, segs[k].addr + segs[k].size)
    requires TakenIndex(mem', index, index', segs[k], need, iter, i)
    ensures Ordered(mem', index') <==> OrderedBut(mem, index, segs[k].addr)
  {
    hide Sound, IsPlace, SameOutside, SizeAt, TakenSize, IsHole;
    SizesKept(mem, mem', start, end, max, segs, index, k, k);
    OrderedFrame(mem, mem', index, segs[k].addr);
    SoundShape(mem, start, end, max, segs, index);
    RemovedOrdered(mem', index, iter);
    if TakenSize(segs[k].size, need) < segs[k].size {
      InsertedOrdered(mem', IndexWithout(index, iter), i, segs[k].addr + TakenSize(segs[k].size, need));
    }
  }

  /** hdr->hole = 1 and hdr->align = 0. */
  function Marked(mem: seq<Byte>, s: Segment): (r: seq<Byte>)
    requires s.addr + HEADER <= |mem|
    ensures |r| == |mem|
  {
    mem[s.addr + 5 := 1][s.addr + 4 := 0]
  }

  lemma MarkedStored(mem: seq<Byte>, s: Segment)
    requires Stored(mem, s)
    ensures Stored(Marked(mem, s), s.(hole := true)) && SameOutside(mem, Marked(mem, s), s.addr, s.addr + s.size)
  {
  }

  /** l made longer by r behind it: the size in the header of l, the address in the footer of r (heap.c:372-374 and
      381-383). */
  function Joined(mem: seq<Byte>, l: Segment, r: Segment): (m: seq<Byte>)
    requires l.addr + HEADER <= |mem| && FOOTER <= r.size && r.addr + r.size <= |mem|
    ensures |m| == |mem|
  {
    PutWordAt(PutWordAt(mem, l.addr + 8, l.size + r.size), r.addr + r.size - 4, l.addr)
  }

  function Union(l: Segment, r: Segment): Segment {
    Segment(l.addr, l.size + r.size, true)
  }

  lemma HeaderResized(mem: seq<Byte>, s: Segment, size: nat)
    requires s.addr + HEADER <= |mem| && HasHeader(mem, s) && size < WORD
    ensures HasHeader(PutWordAt(mem, s.addr + 8, size), s.(size := size))
    ensures SameOutside(mem, PutWordAt(mem, s.addr + 8, size), s.addr + 8, s.addr + HEADER)
  {
    hide WordAt, PutWordAt;
    PutGetWord(mem, s.addr + 8, size, s.addr + 8);
    PutGetWord(mem, s.addr + 8, size, s.addr);
  }

  lemma FooterRetargeted(mem: seq<Byte>, a: nat, size: nat, hdr: nat, hdr': nat)
    requires FOOTER <= size && a + size <= |mem| && HasFooter(mem, a, size, hdr) && hdr' < WORD
    ensures HasFooter(PutWordAt(mem, a + size - 4, hdr'), a, size, hdr')
    ensures SameOutside(mem, PutWordAt(mem, a + size - 4, hdr'), a + size - 4, a + size)
  {
    hide WordAt, PutWordAt;
    PutGetWord(mem, a + size - 4, hdr', a + size - 4);
    PutGetWord(mem, a + size - 4, hdr', a + size - 8);
  }

  lemma HeaderFrame(mem: seq<Byte>, mem': seq<Byte>, lo: nat, hi: nat, s: Segment)
    requires s.addr + HEADER <= |mem| && HasHeader(mem, s) && SameOutside(mem, mem', lo, hi)
    requires s.addr + HEADER <= lo || hi <= s.addr
    ensures HasHeader(mem', s)
  {
  }

  lemma FooterFrame(mem: seq<Byte>, mem': seq<Byte>, lo: nat, hi: nat, a: nat, size: nat, hdr: nat)
    requires FOOTER <= size && a + size <= |mem| && HasFooter(mem, a, size, hdr) && SameOutside(mem, mem', lo, hi)
    requires a + size <= lo || hi <= a + size - FOOTER
    ensures HasFooter(mem', a, size, hdr)
  {
  }

  lemma JoinedStored(mem: seq<Byte>, l: Segment, r: Segment)
    requires Stored(mem, l) && Stored(mem, r) && l.hole && r.addr == l.addr + l.size && 0 < l.addr && |mem| <= WORD
    ensures Stored(Joined(mem, l, r), Union(l, r))
    ensures SameOutside(mem, Joined(mem, l, r), l.addr, r.addr + r.size)
  {
    hide HasHeader, SameOutside, PutWordAt, WordAt;
    var u, end := Union(l, r), r.addr + r.size;
    var m1 := PutWordAt(mem, l.addr + 8, u.size);
    var m2 := PutWordAt(m1, end - 4, l.addr);
    HeaderResized(mem, l, u.size);
    FooterFrame(mem, m1, l.addr + 8, l.addr + HEADER, r.addr, r.size, r.addr);
    FooterRetargeted(m1, r.addr, r.size, r.addr, l.addr);
    HeaderFrame(m1, m2, end - 4, end, u);
    OutsideWider(mem, m1, l.addr + 8, l.addr + HEADER, l.addr, end);
    OutsideTransitive(mem, m1, m2, l.addr, end, end - 4, end);
  }

  /** Marking a segment and joining it to a hole on its left. */
  function LeftMemory(mem: seq<Byte>, segs: seq<Segment>, k: nat): (m: seq<Byte>)
    requires k < |segs| && AllStored(mem, segs)
    ensures |m| == |mem|
  {
    var s := segs[k].(hole := true);
    var m := Marked(mem, s);
    if LeftEnd(segs, k) < k then Joined(m, segs[k - 1], s) else m
  }

  /** What freeing does to memory: then a hole on the right is joined to that. */
  function FreedMemory(mem: seq<Byte>, segs: seq<Segment>, k: nat): (m: seq<Byte>)
    requires k < |segs| && AllStored(mem, segs)
    ensures |m| == |mem|
  {
    var m := LeftMemory(mem, segs, k);
    var u := if LeftEnd(segs, k) < k then Union(segs[k - 1], segs[k]) else segs[k].(hole := true);
    if k < RightEnd(segs, k) then Joined(m, u, segs[k + 1]) else m
  }

  /** The memory after the segment was united with what is on its left. */
  lemma LeftInMemory(mem: seq<Byte>, segs: seq<Segment>, from: nat, k: nat)
    requires Chained(segs, from) && AllStored(mem, segs) && k < |segs| && 0 < from && |mem| <= WORD
    ensures var u := if LeftEnd(segs, k) < k then Union(segs[k - 1], segs[k]) else segs[k].(hole := true);
            && u.addr == segs[LeftEnd(segs, k)].addr && u.addr + u.size == segs[k].addr + segs[k].size
            && from <= u.addr
            && SameOutside(mem, LeftMemory(mem, segs, k), u.addr, u.addr + u.size)
            && Stored(LeftMemory(mem, segs, k), u)
  {
    hide Stored, SameOutside, Joined, Marked;
    var lo := LeftEnd(segs, k);
    var s := segs[k].(hole := true);
    MarkedHere(mem, segs[k]);
    var m := Marked(mem, s);
    ChainRange(segs, from, k);
    if lo < k {
      Neighbours(segs, from, lo);
      ChainRange(segs, from, lo);
      StoredFrame(mem, m, s.addr, s.addr + s.size, segs[lo]);
      JoinedStored(m, segs[lo], s);
      OutsideWider(mem, m, s.addr, s.addr + s.size, segs[lo].addr, s.addr + s.size);
      OutsideTransitive(mem, m, Joined(m, segs[lo], s), segs[lo].addr, s.addr + s.size, segs[lo].addr, s.addr + s.size);
    }
  }

  lemma FreedInMemory(mem: seq<Byte>, segs: seq<Segment>, from: nat, k: nat)
    requires Chained(segs, from) && AllStored(mem, segs) && k < |segs| && 0 < from && |mem| <= WORD
    ensures var lo, hi := segs[LeftEnd(segs, k)], segs[RightEnd(segs, k)];
            && SameOutside(mem, FreedMemory(mem, segs, k), lo.addr, hi.addr + hi.size)
            && Stored(FreedMemory(mem, segs, k), United(segs, k))
  {
    hide Stored, SameOutside, Joined, LeftMemory;
    var lo, hi := LeftEnd(segs, k), RightEnd(segs, k);
    LeftInMemory(mem, segs, from, k);
    UnitedRange(segs, from, k);
    if k < hi {
      var m := LeftMemory(mem, segs, k);
      var u := if lo < k then Union(segs[k - 1], segs[k]) else segs[k].(hole := true);
      var end := segs[hi].addr + segs[hi].size;
      StoredFrame(mem, m, u.addr, u.addr + u.size, segs[hi]);
      JoinedStored(m, u, segs[hi]);
      OutsideWider(mem, m, u.addr, u.addr + u.size, u.addr, end);
      OutsideTransitive(mem, m, Joined(m, u, segs[hi]), u.addr, end, u.addr, end);
    }
  }

  lemma MarkedHere(mem: seq<Byte>, s: Segment)
    requires Stored(mem, s)
    ensures s.addr + HEADER <= |mem| && Stored(Marked(mem, s.(hole := true)), s.(hole := true))
    ensures SameOutside(mem, Marked(mem, s.(hole := true)), s.addr, s.addr + s.size)
  {
    MarkedStored(mem, s);
  }

  lemma OutsideWider(m: seq<Byte>, m': seq<Byte>, lo: nat, hi: nat, lo': nat, hi': nat)
    requires SameOutside(m, m', lo, hi) && lo' <= lo && hi <= hi'
    ensures SameOutside(m, m', lo', hi')
  {
  }

  /** The index after segment k was freed. */
  ghost predicate FreedIndex(index: seq<nat>, index': seq<nat>, segs: seq<Segment>, k: nat)
    requires k < |segs|
  {
    && (forall a: nat ::
          a in index' <==> (a in index && !(k < RightEnd(segs, k) && a == segs[RightEnd(segs, k)].addr))
                           || (LeftEnd(segs, k) == k && a == segs[k].addr))
    && (forall i, j | 0 <= i < j < |index'| :: index'[i] != index'[j])
  }

  lemma FreedSound(mem: seq<Byte>, start: nat, end: nat, max: nat, segs: seq<Segment>, index: seq<nat>,
                   index': seq<nat>, k: nat)
    requires Sound(mem, start, end, max, segs, index)
    requires k < |segs| && !segs[k].hole && FreedIndex(index, index', segs, k)
    ensures Sound(FreedMemory(mem, segs, k), start, end, max, Coalesced(segs, k), index')
    ensures SameOutside(mem, FreedMemory(mem, segs, k), United(segs, k).addr,
              United(segs, k).addr + United(segs, k).size)
  {
    hide Stored, Coalesced, FreedMemory, SameOutside, NoAdjacentHoles, IsHole;
    UnitedRange(segs, start, k);
    var lo, hi := LeftEnd(segs, k), RightEnd(segs, k);
    FreedInMemory(mem, segs, start, k);
    CoalescedOk(segs, start, k);
    ChainRange(segs, start, lo);
    ChainRange(segs, start, hi);
    GuardKept(mem, FreedMemory(mem, segs, k), start, end, max, segs[lo].addr, segs[hi].addr + segs[hi].size);
    ReplacedStored(mem, FreedMemory(mem, segs, k), segs, start, lo, hi + 1, [United(segs, k)]);
    CoalescedIs(segs, k);
    forall a: nat ensures a in index' <==> IsHole(Coalesced(segs, k), a) {
      CoalescedHoles(segs, start, k, a);
    }
  }

  lemma CoalescedIs(segs: seq<Segment>, k: nat)
    requires k < |segs|
    ensures Coalesced(segs, k) == Replaced(segs, LeftEnd(segs, k), RightEnd(segs, k) + 1, [United(segs, k)])
  {
  }

  /** Where an expansion starts to write: at the last hole, or at the old end. */
  function HoleStart(segs: seq<Segment>, end: nat): nat {
    if segs != [] && segs[|segs| - 1].hole then segs[|segs| - 1].addr else end
  }

  /** The memory after the heap was expanded to a new end (heap.c:119-156): the last hole made longer, or a
      new hole behind the old end. */
  function ExpandedMemory(mem: seq<Byte>, segs: seq<Segment>, end: nat, grow: nat): (m: seq<Byte>)
    requires OVERHEAD <= grow && end + grow <= |mem| && AllStored(mem, segs)
    requires segs != [] && segs[|segs| - 1].hole ==> segs[|segs| - 1].addr + segs[|segs| - 1].size == end
    ensures |m| == |mem|
  {
    if segs != [] && segs[|segs| - 1].hole then
      var s := segs[|segs| - 1];
      WithFooter(PutWordAt(PutWordAt(mem, s.addr, MAGIC), s.addr + 8, s.size + grow), s.addr, s.size + grow, s.addr)
    else WithSegment(mem, Segment(end, grow, true))
  }

  lemma LongerStored(mem: seq<Byte>, s: Segment, grow: nat)
    requires Stored(mem, s) && 0 < s.addr && s.addr + s.size + grow <= |mem| <= WORD
    ensures var m := WithFooter(PutWordAt(PutWordAt(mem, s.addr, MAGIC), s.addr + 8, s.size + grow),
                                s.addr, s.size + grow, s.addr);
            && Stored(m, s.(size := s.size + grow))
            && SameOutside(mem, m, s.addr, s.addr + s.size + grow)
  {
    hide WordAt, PutWordAt, WithFooter;
    var m1 := PutWordAt(mem, s.addr, MAGIC);
    PutGetWord(mem, s.addr, MAGIC, s.addr);
    PutGetWord(mem, s.addr, MAGIC, s.addr + 8);
    var m2 := PutWordAt(m1, s.addr + 8, s.size + grow);
    HeaderResized(m1, s, s.size + grow);
    FooterWritten(m2, s.addr, s.size + grow, s.addr);
    HeaderFrame(m2, WithFooter(m2, s.addr, s.size + grow, s.addr), s.addr + s.size + grow - FOOTER,
                s.addr + s.size + grow, s.(size := s.size + grow));
  }

  /** All segments before the old end keep their place in memory. */
  lemma BehindStored(mem: seq<Byte>, mem': seq<Byte>, segs: seq<Segment>, from: nat, n: nat, lo: nat, hi: nat)
    requires Chained(segs, from) && AllStored(mem, segs) && n <= |segs|
    requires SameOutside(mem, mem', lo, hi) && forall i | 0 <= i < n :: segs[i].addr + segs[i].size <= lo
    ensures forall i | 0 <= i < n :: Stored(mem', segs[i])
  {
    hide Stored, SameOutside;
    forall i | 0 <= i < n ensures Stored(mem', segs[i]) {
      StoredFrame(mem, mem', lo, hi, segs[i]);
    }
  }

  lemma ExpandedStored(mem: seq<Byte>, start: nat, end: nat, max: nat, segs: seq<Segment>, index: seq<nat>, grow: nat)
    requires Sound(mem, start, end, max, segs, index) && OVERHEAD <= grow && end + grow <= max
    ensures segs != [] && segs[|segs| - 1].hole ==> segs[|segs| - 1].addr + segs[|segs| - 1].size == end
    ensures AllStored(ExpandedMemory(mem, segs, end, grow), Expanded(segs, end, grow))
    ensures start <= HoleStart(segs, end)
    ensures SameOutside(mem, ExpandedMemory(mem, segs, end, grow), HoleStart(segs, end), end + grow)
  {
    hide Stored, WithSegment, WithFooter, WordAt, PutWordAt, SameOutside;
    var n := |segs| - 1;
    if segs != [] && segs[n].hole {
      ChainSplit(segs, start, n);
      assert segs[n + 1..] == [];
      ChainRange(segs, start, n);
      LongerStored(mem, segs[n], grow);
      forall i | 0 <= i < n ensures segs[i].addr + segs[i].size <= segs[n].addr {
        Disjoint(segs, start, i, n);
      }
      BehindStored(mem, ExpandedMemory(mem, segs, end, grow), segs, start, n, segs[n].addr, end + grow);
    } else {
      SegmentWritten(mem, Segment(end, grow, true));
      forall i | 0 <= i < |segs| ensures segs[i].addr + segs[i].size <= end {
        ChainRange(segs, start, i);
      }
      BehindStored(mem, ExpandedMemory(mem, segs, end, grow), segs, start, |segs|, end, end + grow);
    }
  }

  lemma ExpandedSound(mem: seq<Byte>, start: nat, end: nat, max: nat, segs: seq<Segment>, index: seq<nat>,
                      index': seq<nat>, grow: nat)
    requires Sound(mem, start, end, max, segs, index) && OVERHEAD <= grow && end + grow <= max
    requires IndexOk(index', Expanded(segs, end, grow))
    ensures segs != [] && segs[|segs| - 1].hole ==> segs[|segs| - 1].addr + segs[|segs| - 1].size == end
    ensures Sound(ExpandedMemory(mem, segs, end, grow), start, end + grow, max, Expanded(segs, end, grow), index')
    ensures start <= HoleStart(segs, end)
    ensures SameOutside(mem, ExpandedMemory(mem, segs, end, grow), HoleStart(segs, end), end + grow)
  {
    hide Stored, ExpandedMemory, Expanded, SameOutside, Guarded, IndexOk;
    ExpandedOk(segs, start, grow);
    ExpandedStored(mem, start, end, max, segs, index, grow);
    GuardMoved(mem, start, end, max, end + grow);
    GuardKept(mem, ExpandedMemory(mem, segs, end, grow), start, end + grow, max, HoleStart(segs, end), end + grow);
  }

  lemma GuardMoved(mem: seq<Byte>, start: nat, end: nat, max: nat, end': nat)
    requires FOOTER <= start <= end <= end' <= max && max + HEADER <= |mem| && Guarded(mem, start, end, max)
    ensures Guarded(mem, start, end', max)
  {
  }

  /** new_sz rounded up to whole pages. */
  function RoundUp(x: nat): (r: nat)
    ensures x <= r < x + PAGE_SIZE && r % PAGE_SIZE == 0
  {
    (x + PAGE_SIZE - 1) / PAGE_SIZE * PAGE_SIZE
  }

  /** Some hole has room for size bytes, header and footer included. */
  ghost predicate Fits(segs: seq<Segment>, size: nat) {
    exists k | 0 <= k < |segs| :: segs[k].hole && size <= segs[k].size
  }

  /** The hole with the highest address, if there is a hole, is the last segment. */
  ghost predicate HoleAtEnd(segs: seq<Segment>) {
    (segs != [] && segs[|segs| - 1].hole) || forall k | 0 <= k < |segs| :: !segs[k].hole
  }

  lemma SoundShape(mem: seq<Byte>, start: nat, end: nat, max: nat, segs: seq<Segment>, index: seq<nat>)
    requires Sound(mem, start, end, max, segs, index)
    ensures FOOTER <= start <= end <= max && max + HEADER <= |mem| <= WORD
    ensures Chained(segs, start) && EndOf(segs, start) == end && AllStored(mem, segs) && IndexOk(index, segs)
  {
  }

  lemma ExpandedFits(segs: seq<Segment>, end: nat, grow: nat, size: nat)
    requires size <= grow
    ensures Fits(Expanded(segs, end, grow), size)
  {
    var s := Expanded(segs, end, grow);
    assert s[|s| - 1].hole && size <= s[|s| - 1].size;
  }

  lemma CreatedSound(mem: seq<Byte>, start: nat, end: nat, max: nat)
    requires FOOTER <= start && start + OVERHEAD <= end <= max && max + HEADER <= |mem| <= WORD
    requires Guarded(mem, start, end, max)
    ensures var s := Segment(start, end - start, true);
            Sound(WithSegment(mem, s), start, end, max, [s], [start])
  {
    hide Stored, WithSegment, Guarded, SameOutside;
    var s := Segment(start, end - start, true);
    SegmentWritten(mem, s);
    GuardKept(mem, WithSegment(mem, s), start, end, max, start, end);
    assert [s][1..] == [];
    assert EndOf([s][1..], start + s.size) == end && Chained([s][1..], start + s.size);
    assert Chained([s], start) && EndOf([s], start) == end;
    assert AllStored(WithSegment(mem, s), [s]);
    forall a: nat ensures a in [start] <==> IsHole([s], a) {
      assert [s][0].hole && [s][0].addr == start;
    }
  }

  class VmemHeap {
    var mem: seq<Byte>
    var start: nat
    var end: nat
    var max: nat
    /** The addresses of the holes, in the order of the ordered array. */
    var index: seq<nat>
    ghost var segs: seq<Segment>

    ghost predicate Valid()
      reads this
    {
      Sound(mem, start, end, max, segs, index)
    }

    /** heap.c:21-51: one large hole. */
    constructor (mem: seq<Byte>, start: nat, end: nat, max: nat)
      requires FOOTER <= start && start + OVERHEAD <= end <= max && max + HEADER <= |mem| <= WORD
      requires Guarded(mem, start, end, max)
      ensures Valid() && segs == [Segment(start, end - start, true)]
      ensures this.start == start && this.end == end && this.max == max
    {
      hide Sound, WithSegment, Guarded;
      this.start, this.end, this.max := start, end, max;
      this.mem := WithSegment(mem, Segment(start, end - start, true));
      this.index := [start];
      this.segs := [Segment(start, end - start, true)];
      CreatedSound(mem, start, end, max);
    }

    /** ordered_array.c:32-45: before the first element whose header is not of a smaller size. */
    method IndexInsert(el: nat) returns (ghost i: nat)
      requires el + HEADER <= |mem| && forall j | 0 <= j < |index| :: index[j] + HEADER <= |mem|
      modifies this`index
      ensures IsPlace(mem, old(index), i, el) && index == IndexWith(old(index), i, el)
      ensures Ordered(mem, index) <==> Ordered(mem, old(index))
    {
      var at: nat := 0;
      while at < |index| && WordAt(mem, index[at] + 8) < WordAt(mem, el + 8)
        invariant at <= |index|
        invariant forall j | 0 <= j < at :: SizeAt(mem, index[j]) < SizeAt(mem, el)
      {
        at := at + 1;
      }
      i := at;
      InsertedOrdered(mem, index, i, el);
      index := index[..at] + [el] + index[at..];
    }

    /** ordered_array.c:58-62. */
    method IndexRemove(i: nat)
      requires i < |index|
      modifies this`index
      ensures index == IndexWithout(old(index), i)
    {
      index := index[..i] + index[i + 1..];
    }

    /** heap.c:84-110 without alignment: the first hole of the index that is long enough. */
    method HoleFind(size: nat) returns (found: bool, iter: nat)
      requires Valid()
      ensures found <==> Fits(segs, size)
      ensures found ==> iter < |index| && index[iter] + HEADER <= |mem| && size <= WordAt(mem, index[iter] + 8)
      ensures found ==> forall j | 0 <= j < iter :: SizeAt(mem, index[j]) < size
    {
      hide AllStored, NoAdjacentHoles, Guarded;
      iter := 0;
      while iter < |index|
        invariant iter <= |index|
        invariant forall j | 0 <= j < iter :: SizeAt(mem, index[j]) < size
        invariant forall k | 0 <= k < |segs| && segs[k].hole && segs[k].addr in index[..iter] :: segs[k].size < size
      {
        ghost var k := IndexedHole(mem, start, end, max, segs, index, iter);
        var holeSize := WordAt(mem, index[iter] + 8);
        if holeSize >= size {
          return true, iter;
        }
        forall j | 0 <= j < |segs| && segs[j].hole && segs[j].addr in index[..iter + 1] ensures segs[j].size < size {
          if segs[j].addr == index[iter] {
            SameAddress(segs, start, j, k);
          }
        }
        iter := iter + 1;
      }
      forall k | 0 <= k < |segs| && segs[k].hole ensures segs[k].size < size {
        assert IsHole(segs, segs[k].addr);
        assert index[..iter] == index;
      }
      found := false;
    }

    /** heap.c:161-165 and 187-215 without alignment: takes need bytes from the hole in place iter of the
        index; what is left over becomes a hole, unless it could not hold a header and a footer. */
    method Place(iter: nat, need: nat, ghost k: nat) returns (p: nat)
      requires Valid() && iter < |index| && k < |segs| && segs[k].hole && segs[k].addr == index[iter]
      requires OVERHEAD <= need <= segs[k].size
      modifies this`mem, this`index, this`segs
      ensures Valid() && segs == Placed(old(segs), k, need)
      ensures p == old(segs)[k].addr + HEADER
      ensures SameOutside(old(mem), mem, old(segs)[k].addr, old(segs)[k].addr + old(segs)[k].size)
      ensures Ordered(mem, index) <==> OrderedBut(old(mem), old(index), old(segs)[k].addr)
    {
      hide Sound, Placed, PlacedMemory, PlacedIndex, SameOutside, TakenIndex, Ordered, OrderedBut;
      ghost var mem0, segs0, index0 := mem, segs, index;
      ghost var i;
      p, i := TakeHole(iter, need, k);
      TakenPlaced(mem0, mem, start, end, max, segs0, index0, index, k, need, iter, i);
      PlacedSound(mem0, start, end, max, segs0, index0, index, k, need);
      TakenOrdered(mem0, mem, start, end, max, segs0, index0, index, k, need, iter, i);
      segs := Placed(segs, k, need);
    }

    method TakeHole(iter: nat, need: nat, ghost k: nat) returns (p: nat, ghost i: nat)
      requires Valid() && iter < |index| && k < |segs| && segs[k].hole && segs[k].addr == index[iter]
      requires OVERHEAD <= need <= segs[k].size
      modifies this`mem, this`index
      ensures segs[k].addr + segs[k].size <= |old(mem)| && mem == PlacedMemory(old(mem), segs[k], need)
      ensures TakenIndex(mem, old(index), index, segs[k], need, iter, i)
      ensures p == segs[k].addr + HEADER
    {
      hide Sound, PlacedMemory, IsHole, WithSegment, TakenSize, WordAt, IsPlace, Ordered;
      FreedHeader(mem, start, end, max, segs, index, k);
      HolesReadable(mem, start, end, max, segs, index);
      hide AllStored;
      TakenSizeIs(segs[k], need);
      PlacedMemoryIs(mem, segs[k], need);
      var hdr := index[iter];
      var holeSize := WordAt(mem, hdr + 8);
      var realSize := if holeSize - need < HEADER + FOOTER then holeSize else need;
      IndexRemove(iter);
      mem := WithSegment(mem, Segment(hdr, realSize, false));
      i := 0;
      if holeSize - realSize > 0 {
        mem := WithSegment(mem, Segment(hdr + realSize, holeSize - realSize, true));
        i := IndexInsert(hdr + realSize);
      }
      p := hdr + HEADER;
    }

    /** heap.c:119-156: the heap ends later by whole pages; the hole with the highest address takes them, or,
        when there is no hole, they become one. The page frames behind them are not modelled. */
    method Expand(need: nat)
      requires Valid() && OVERHEAD <= need && HoleAtEnd(segs)
      requires start + RoundUp(end - start + need) <= max
      modifies this`mem, this`end, this`index, this`segs
      ensures Valid() && end == start + RoundUp(old(end) - start + need)
      ensures segs == Expanded(old(segs), old(end), end - old(end)) && Fits(segs, need)
      ensures SameOutside(old(mem), mem, HoleStart(old(segs), old(end)), end)
      ensures var last := HoleStart(old(segs), old(end));
              OrderedBut(mem, index, last) <==> OrderedBut(old(mem), old(index), last)
    {
      hide Sound, Expanded, SameOutside, IsHole, WithSegment, WithFooter, ExpandedMemory, HoleAtEnd, Fits, HoleStart,
           WordAt, PutWordAt, RoundUp, IndexOk, OrderedBut, IsPlace;
      SoundShape(mem, start, end, max, segs, index);
      ghost var mem0, segs0, index0, end0 := mem, segs, index, end;
      var oldEnd := end;
      end := start + RoundUp(end - start + need);
      var grow := end - oldEnd;
      ExpandedMemoryIs(mem0, start, end0, max, segs0, index0, grow);
      var found, hdr := HighestHole(end0);
      if !found {
        HolesReadable(mem0, start, end0, max, segs0, index0);
        ghost var i := AddHole(oldEnd, grow);
        assert index == IndexWith(index0, i, end0);
        NewHoleIndexed(segs0, start, index0, end0, grow, i);
      } else {
        LengthenHole(hdr, grow);
        OldHoleIndexed(segs0, index0, end0, grow);
      }
      ExpandedSound(mem0, start, end0, max, segs0, index0, index, grow);
      ExpandedFits(segs0, end0, grow, need);
      ExpandedOrder(mem0, mem, start, end0, max, segs0, index0, index, end);
      segs := Expanded(segs, end0, grow);
    }

    /** heap.c:136-147: a hole of its own behind the old end. */
    method AddHole(oldEnd: nat, grow: nat) returns (ghost i: nat)
      requires OVERHEAD <= grow && oldEnd + grow <= |mem|
      requires forall j | 0 <= j < |index| :: index[j] + HEADER <= |mem|
      modifies this`mem, this`index
      ensures mem == WithSegment(old(mem), Segment(oldEnd, grow, true))
      ensures i <= |old(index)| && index == IndexWith(old(index), i, oldEnd)
    {
      hide WithSegment;
      mem := WithSegment(mem, Segment(oldEnd, grow, true));
      i := IndexInsert(oldEnd);
    }

    /** heap.c:149-155: the hole made longer, and its footer moved to the new end. */
    method LengthenHole(hdr: nat, grow: nat)
      requires hdr + HEADER <= |mem| && FOOTER <= grow && hdr + WordAt(mem, hdr + 8) + grow <= |mem|
      modifies this`mem
      ensures var size := WordAt(old(mem), hdr + 8) + grow;
              mem == WithFooter(PutWordAt(PutWordAt(old(mem), hdr, MAGIC), hdr + 8, size), hdr, size, hdr)
    {
      hide WithFooter, WordAt, PutWordAt;
      var size := WordAt(mem, hdr + 8) + grow;
      mem := PutWordAt(mem, hdr, MAGIC);
      mem := PutWordAt(mem, hdr + 8, size);
      mem := WithFooter(mem, hdr, size, hdr);
    }

    /** heap.c:126-134: the highest address in the index. */
    method HighestHole(ghost end0: nat) returns (found: bool, hdr: nat)
      requires Sound(mem, start, end0, max, segs, index) && HoleAtEnd(segs)
      ensures found <==> segs != [] && segs[|segs| - 1].hole
      ensures found ==> hdr == segs[|segs| - 1].addr
    {
      hide AllStored, NoAdjacentHoles, Guarded, HoleAtEnd;
      var curMax: nat, i: nat := 0, 0;
      found := false;
      while i < |index|
        invariant i <= |index|
        invariant forall j | 0 <= j < i :: index[j] <= curMax
        invariant found ==> curMax in index
        invariant !found ==> i == 0 && curMax == 0
      {
        ghost var k := IndexedHole(mem, start, end0, max, segs, index, i);
        if index[i] > curMax {
          curMax := index[i];
          found := true;
        }
        i := i + 1;
      }
      hdr := curMax;
      HighestIsLast(mem, start, end0, max, segs, index, found, hdr);
    }

    /** vmem_heap_alloc with align 0 (heap.c:112-216): a hole with room is split or taken whole; when there is
        none, the heap is expanded first. Nothing outside the hole changes. */
    method Alloc(size: nat) returns (p: nat, ghost base: seq<Segment>, ghost k: nat)
      requires Valid()
      requires !Fits(segs, size + OVERHEAD) ==> HoleAtEnd(segs) && start + RoundUp(end - start + size + OVERHEAD) <= max
      modifies this`mem, this`end, this`index, this`segs
      ensures Valid()
      ensures old(Fits(segs, size + OVERHEAD)) ==> base == old(segs) && end == old(end)
      ensures !old(Fits(segs, size + OVERHEAD)) ==>
                end == start + RoundUp(old(end) - start + size + OVERHEAD)
                && base == Expanded(old(segs), old(end), end - old(end))
      ensures k < |base| && base[k].hole && size + OVERHEAD <= base[k].size
      ensures segs == Placed(base, k, size + OVERHEAD) && p == base[k].addr + 12
      ensures k < |segs| && segs[..k] == base[..k]
      ensures if base[k].size < size + 40 then
                segs[k] == Segment(base[k].addr, base[k].size, false) && segs[k + 1..] == base[k + 1..]
              else
                && segs[k] == Segment(base[k].addr, size + 20, false) && k + 1 < |segs|
                && segs[k + 1] == Segment(base[k].addr + size + 20, base[k].size - size - 20, true)
                && segs[k + 2..] == base[k + 1..]
      ensures LiveKept(old(mem), mem, old(segs))
      ensures old(Fits(segs, size + OVERHEAD) ==> Ordered(mem, index)) ==> BestFit(base, k, size + OVERHEAD)
      ensures Ordered(mem, index) <==> OrderedBut(old(mem), old(index), base[k].addr)
      decreases if Fits(segs, size + OVERHEAD) then 0 else 1
    {
      hide Placed, Expanded, SameOutside, Stored, NoAdjacentHoles, Guarded, HoleAtEnd, Ordered, OrderedBut, BestFit,
           HoleStart, SizeAt;
      var realSize := size + HEADER + FOOTER;
      var found, iter := HoleFind(realSize);
      if !found {
        ghost var mem0, segs0, end0 := mem, segs, end;
        Expand(realSize);
        ghost var mem1, segs1 := mem, segs;
        p, base, k := Alloc(size);
        ExpandedLive(mem0, mem1, mem, segs0, start, end0, end - end0);
        OnlyTheLast(segs0, start, end0, end - end0, realSize, k);
        return;
      }
      base := segs;
      k := IndexedHole(mem, start, end, max, segs, index, iter);
      ghost var mem0, index0 := mem, index;
      p := Place(iter, realSize, k);
      PlacedParts(base, k, size);
      HoleOnly(mem0, mem, base, start, k);
      FirstIsBest(mem0, start, end, max, base, index0, iter, k, realSize);
    }

    /** heap.c:369-376: the footer before the segment tells of the one on its left, and whether that is a hole. */
    method UnifyLeft(hdr: nat, ftr: nat, ghost mem0: seq<Byte>, ghost k: nat) returns (hdr': nat, addHole: bool)
      requires Sound(mem0, start, end, max, segs, index) && k < |segs|
      requires hdr == segs[k].addr && ftr == hdr + segs[k].size - FOOTER
      requires |mem| == |mem0| && mem == Marked(mem0, segs[k].(hole := true))
      modifies this`mem
      ensures |mem| == |mem0| && mem == LeftMemory(mem0, segs, k)
      ensures hdr' == segs[LeftEnd(segs, k)].addr && (addHole <==> LeftEnd(segs, k) == k)
    {
      hide Sound, Stored, SameOutside, WordAt, PutWordAt, Joined, Marked;
      LeftNeighbour(mem0, start, end, max, segs, index, k);
      hdr', addHole := hdr, true;
      var lftr := hdr - FOOTER;
      if WordAt(mem, lftr) == MAGIC && mem[WordAt(mem, lftr + 4) + 5] != 0 {
        hdr' := WordAt(mem, lftr + 4);
        JoinedIs(mem, segs[k - 1], segs[k].(hole := true));
        mem := PutWordAt(mem, hdr' + 8, WordAt(mem, hdr' + 8) + WordAt(mem, hdr + 8));
        mem := PutWordAt(mem, ftr + 4, hdr');
        addHole := false;
      }
    }

    /** heap.c:378-392: the header behind the segment tells of the one on its right; a hole there is taken in
        and leaves the index. */
    method UnifyRight(hdr: nat, ftr: nat, ghost mem0: seq<Byte>, ghost k: nat)
      requires Sound(mem0, start, end, max, segs, index) && k < |segs|
      requires hdr == segs[LeftEnd(segs, k)].addr && ftr == segs[k].addr + segs[k].size - FOOTER
      requires |mem| == |mem0| && mem == LeftMemory(mem0, segs, k)
      modifies this`mem, this`index
      ensures |mem| == |mem0| && mem == FreedMemory(mem0, segs, k)
      ensures RightOut(old(index), index, segs, k)
    {
      hide Sound, Stored, SameOutside, WordAt, PutWordAt, Joined, Marked;
      RightNeighbour(mem0, start, end, max, segs, index, k);
      var rhdr := ftr + FOOTER;
      if WordAt(mem, rhdr) == MAGIC && mem[rhdr + 5] != 0 {
        ghost var u := if LeftEnd(segs, k) < k then Union(segs[k - 1], segs[k]) else segs[k].(hole := true);
        JoinedIs(mem, u, segs[k + 1]);
        var size := WordAt(mem, rhdr + 8);
        mem := PutWordAt(mem, hdr + 8, WordAt(mem, hdr + 8) + size);
        mem := PutWordAt(mem, rhdr + size - FOOTER + 4, hdr);
        var idx := IndexFind(rhdr);
        IndexRemove(idx);
      }
    }

    /** heap.c:385-390: the place of an address that is in the index. */
    method IndexFind(el: nat) returns (idx: nat)
      requires el in index
      ensures idx < |index| && index[idx] == el
    {
      idx := 0;
      while idx < |index| && index[idx] != el
        invariant idx <= |index| && el in index[idx..]
      {
        idx := idx + 1;
      }
    }

    /** vmem_heap_free (heap.c:355-397): the segment becomes a hole and is united with the holes beside it.
        The magic numbers that the code asserts are there. */
    method Free(p: nat, ghost k: nat)
      requires Valid()
      requires p != 0 ==> k < |segs| && !segs[k].hole && p == segs[k].addr + HEADER
      modifies this`mem, this`index, this`segs
      ensures p == 0 ==> mem == old(mem) && index == old(index) && segs == old(segs)
      ensures p != 0 ==> Valid() && segs == Coalesced(old(segs), k)
      ensures p != 0 ==>
                var u := United(old(segs), k);
                SameOutside(old(mem), mem, u.addr, u.addr + u.size)
      ensures p != 0 ==> LiveKept(old(mem), mem, old(segs)[k := old(segs)[k].(hole := true)])
      ensures p != 0 && old(Ordered(mem, index)) ==>
                (Ordered(mem, index) <==> KeepsItsPlace(old(mem), old(index), old(segs), k))
    {
      if p == 0 {
        return;
      }
      hide Sound, Coalesced, United, SameOutside, FreedMemory, IndexOk, LiveKept, FreedIndex, UnitedIndex, Ordered,
           KeepsItsPlace;
      ghost var mem0, segs0, index0 := mem, segs, index;
      FreedHeader(mem, start, end, max, segs, index, k);
      ghost var index1, i := Unite(p - HEADER, k);
      FreedIndexed(mem0, mem, start, end, max, segs0, index0, index1, index, k, i);
      FreedOrdered(mem0, start, end, max, segs0, index0, index1, index, k, i);
      FreedSound(mem0, start, end, max, segs0, index0, index, k);
      SoundShape(mem0, start, end, max, segs0, index0);
      UnitedOnly(mem0, mem, segs0, start, k);
      segs := Coalesced(segs, k);
    }

    /** heap.c:358-396. */
    method Unite(hdr: nat, ghost k: nat) returns (ghost index1: seq<nat>, ghost i: nat)
      requires Valid() && k < |segs| && !segs[k].hole && hdr == segs[k].addr
      modifies this`mem, this`index
      ensures AllStored(old(mem), segs) && mem == FreedMemory(old(mem), segs, k)
      ensures UnitedIndex(mem, old(index), index1, index, segs, k, i)
    {
      hide Sound, Stored, SameOutside, IsHole, FreedMemory, LeftMemory, Joined, IndexOk, WordAt, PutWordAt, IsPlace;
      ghost var mem0, index0 := mem, index;
      FreedHeader(mem, start, end, max, segs, index, k);
      StoredParts(mem, segs[k]);
      assert WordAt(mem, hdr) == MAGIC && WordAt(mem, hdr + WordAt(mem, hdr + 8) - FOOTER) == MAGIC
        && mem[hdr + 5] == 0;
      var ftr := hdr + WordAt(mem, hdr + 8) - FOOTER;
      mem := mem[hdr + 5 := 1];
      mem := mem[hdr + 4 := 0];
      var hdr', addHole := UnifyLeft(hdr, ftr, mem0, k);
      UnifyRight(hdr', ftr, mem0, k);
      index1 := index;
      RightIndexed(mem0, start, end, max, segs, index0, index1, k);
      i := 0;
      if addHole {
        i := IndexInsert(hdr');
      }
    }
  }

  lemma UnitedOnly(mem: seq<Byte>, mem': seq<Byte>, segs: seq<Segment>, from: nat, k: nat)
    requires Chained(segs, from) && k < |segs|
    requires SameOutside(mem, mem', United(segs, k).addr, United(segs, k).addr + United(segs, k).size)
    ensures LiveKept(mem, mem', segs[k := segs[k].(hole := true)])
  {
    var lo, hi := LeftEnd(segs, k), RightEnd(segs, k);
    UnitedRange(segs, from, k);
    forall i: nat, a: nat | i < |segs| && i != k && !segs[i].hole && segs[i].addr <= a < segs[i].addr + segs[i].size
      && a < |mem|
      ensures mem'[a] == mem[a]
    {
      if i < k {
        assert i < lo;
        Disjoint(segs, from, i, lo);
      } else {
        assert hi < i;
        Disjoint(segs, from, hi, i);
      }
    }
  }

  lemma JoinedIs(mem: seq<Byte>, l: Segment, r: Segment)
    requires l.addr + HEADER <= |mem| && FOOTER <= r.size && r.addr + r.size <= |mem|
    ensures Joined(mem, l, r) == PutWordAt(PutWordAt(mem, l.addr + 8, l.size + r.size), r.addr + r.size - 4, l.addr)
  {
  }

  lemma FreedHeader(mem: seq<Byte>, start: nat, end: nat, max: nat, segs: seq<Segment>, index: seq<nat>, k: nat)
    requires Sound(mem, start, end, max, segs, index) && k < |segs|
    ensures FOOTER <= start <= segs[k].addr && OVERHEAD <= segs[k].size && segs[k].addr + segs[k].size <= end < |mem|
    ensures AllStored(mem, segs) && WordAt(mem, segs[k].addr + 8) == segs[k].size
  {
    ChainRange(segs, start, k);
    assert Stored(mem, segs[k]);
  }

  /** What the code reads at the left of segment k after marking it: the footer of the segment before, or, at
      the start of the heap, no footer. */
  lemma LeftNeighbour(mem: seq<Byte>, start: nat, end: nat, max: nat, segs: seq<Segment>, index: seq<nat>, k: nat)
    requires Sound(mem, start, end, max, segs, index) && k < |segs|
    ensures FOOTER <= segs[k].addr && OVERHEAD <= segs[k].size && segs[k].addr + segs[k].size <= |mem|
    ensures AllStored(mem, segs)
    ensures var s := segs[k].(hole := true);
            var m := Marked(mem, s);
            && WordAt(m, s.addr + 8) == s.size
            && (k == 0 ==> WordAt(m, s.addr - FOOTER) != MAGIC)
            && (0 < k ==>
                  var l := segs[k - 1];
                  && WordAt(m, s.addr - FOOTER) == MAGIC && WordAt(m, s.addr - FOOTER + 4) == l.addr
                  && l.addr + HEADER <= |mem| && l.addr + l.size == s.addr
                  && (m[l.addr + 5] != 0 <==> l.hole) && WordAt(m, l.addr + 8) == l.size)
  {
    hide Guarded, Stored, Marked, SameOutside, WordAt, IndexOk, NoAdjacentHoles;
    ChainRange(segs, start, k);
    MarkedHere(mem, segs[k]);
    var s := segs[k].(hole := true);
    StoredParts(Marked(mem, s), s);
    if 0 < k {
      Neighbours(segs, start, k - 1);
      StoredFrame(mem, Marked(mem, s), s.addr, s.addr + s.size, segs[k - 1]);
      StoredParts(Marked(mem, s), segs[k - 1]);
    } else {
      StartGuarded(mem, Marked(mem, s), start, end, max, s.addr, s.addr + s.size);
    }
  }

  lemma StoredParts(mem: seq<Byte>, s: Segment)
    requires Stored(mem, s)
    ensures OVERHEAD <= s.size && s.addr + s.size <= |mem|
    ensures WordAt(mem, s.addr) == MAGIC && (mem[s.addr + 5] != 0 <==> s.hole) && WordAt(mem, s.addr + 8) == s.size
    ensures WordAt(mem, s.addr + s.size - FOOTER) == MAGIC && WordAt(mem, s.addr + s.size - 4) == s.addr
  {
  }

  /** What the code reads at the right: the header of the segment behind, or, at the end of the heap, no header. */
  lemma RightNeighbour(mem: seq<Byte>, start: nat, end: nat, max: nat, segs: seq<Segment>, index: seq<nat>, k: nat)
    requires Sound(mem, start, end, max, segs, index) && k < |segs|
    ensures AllStored(mem, segs)
    ensures var lo, rhdr, m := segs[LeftEnd(segs, k)].addr, segs[k].addr + segs[k].size, LeftMemory(mem, segs, k);
            && lo + HEADER <= rhdr && rhdr + HEADER <= |mem|
            && WordAt(m, lo + 8) == rhdr - lo
               == (if LeftEnd(segs, k) < k then Union(segs[k - 1], segs[k]) else segs[k]).size
            && (k + 1 == |segs| ==> WordAt(m, rhdr) != MAGIC)
            && (k + 1 < |segs| ==>
                  var r := segs[k + 1];
                  && r.addr == rhdr && WordAt(m, rhdr) == MAGIC && (m[rhdr + 5] != 0 <==> r.hole)
                  && OVERHEAD <= r.size && WordAt(m, rhdr + 8) == r.size && rhdr + r.size <= |mem|
                  && (r.hole ==> r.addr in index))
  {
    hide Guarded, LeftMemory, SameOutside, Stored, WordAt, NoAdjacentHoles;
    LeftInMemory(mem, segs, start, k);
    ChainRange(segs, start, k);
    var u := if LeftEnd(segs, k) < k then Union(segs[k - 1], segs[k]) else segs[k].(hole := true);
    StoredParts(LeftMemory(mem, segs, k), u);
    if k + 1 < |segs| {
      Neighbours(segs, start, k);
      StoredFrame(mem, LeftMemory(mem, segs, k), u.addr, u.addr + u.size, segs[k + 1]);
      StoredParts(LeftMemory(mem, segs, k), segs[k + 1]);
      assert segs[k + 1].hole ==> IsHole(segs, segs[k + 1].addr);
    } else {
      ChainSplit(segs, start, k);
      assert segs[k + 1..] == [];
      GuardKept(mem, LeftMemory(mem, segs, k), start, end, max, u.addr, u.addr + u.size);
      EndGuarded(LeftMemory(mem, segs, k), start, end, max);
    }
  }

  lemma EndGuarded(mem: seq<Byte>, start: nat, end: nat, max: nat)
    requires FOOTER <= start <= end <= max && max + HEADER <= |mem| && Guarded(mem, start, end, max)
    ensures WordAt(mem, end) != MAGIC
  {
  }

  /** No shorter hole would do. */
  ghost predicate BestFit(segs: seq<Segment>, k: nat, size: nat)
    requires k < |segs|
  {
    forall j | 0 <= j < |segs| && segs[j].hole && size <= segs[j].size :: segs[k].size <= segs[j].size
  }

  /** The first hole of an ordered index that is long enough is the best fit. */
  lemma FirstIsBest(mem: seq<Byte>, start: nat, end: nat, max: nat, segs: seq<Segment>, index: seq<nat>, iter: nat,
                    k: nat, size: nat)
    requires Sound(mem, start, end, max, segs, index) && iter < |index| && k < |segs|
    requires segs[k].addr == index[iter] && segs[k].size == WordAt(mem, index[iter] + 8)
    requires forall j | 0 <= j < iter :: SizeAt(mem, index[j]) < size
    ensures Ordered(mem, index) ==> BestFit(segs, k, size)
  {
    hide Guarded, NoAdjacentHoles, WordAt;
    forall j | 0 <= j < |segs| && segs[j].hole && size <= segs[j].size && Ordered(mem, index)
      ensures segs[k].size <= segs[j].size
    {
      assert IsHole(segs, segs[j].addr);
      var i :| 0 <= i < |index| && index[i] == segs[j].addr;
      assert Stored(mem, segs[j]);
      assert iter < i ==> SizeAt(mem, index[iter]) <= SizeAt(mem, index[i]);
      if i == iter {
        SameAddress(segs, start, j, k);
      }
    }
  }

  /** When no hole was long enough before an expansion, only the hole at the new end is afterwards. */
  lemma OnlyTheLast(segs: seq<Segment>, from: nat, end: nat, grow: nat, size: nat, k: nat)
    requires Chained(segs, from) && EndOf(segs, from) == end && !Fits(segs, size)
    requires var s := Expanded(segs, end, grow); k < |s| && s[k].hole && size <= s[k].size
    ensures BestFit(Expanded(segs, end, grow), k, size)
    ensures Expanded(segs, end, grow)[k].addr == HoleStart(segs, end)
  {
    var s := Expanded(segs, end, grow);
    assert forall j | 0 <= j < |s| - 1 :: s[j] == segs[j];
    assert k == |s| - 1;
  }

  /** An expansion changes nothing about the order of the other holes. */
  lemma ExpandedOrder(mem: seq<Byte>, mem': seq<Byte>, start: nat, end: nat, max: nat, segs: seq<Segment>,
                      index: seq<nat>, index': seq<nat>, end': nat)
    requires Sound(mem, start, end, max, segs, index) && SameOutside(mem, mem', HoleStart(segs, end), end')
    requires index' == index
             || (!(segs != [] && segs[|segs| - 1].hole)
                 && exists i: nat :: i <= |index| && index' == IndexWith(index, i, end))
    ensures OrderedBut(mem', index', HoleStart(segs, end)) <==> OrderedBut(mem, index, HoleStart(segs, end))
  {
    hide OrderedBut, SizeAt;
    EarlierSizesKept(mem, mem', start, end, max, segs, index, end');
    OrderedFrame(mem, mem', index, HoleStart(segs, end));
    if index' != index {
      var i: nat :| i <= |index| && index' == IndexWith(index, i, end);
      EndNotIndexed(segs, start, index, end);
      InsertedOrderedBut(mem', index, i, end);
    }
  }

  lemma EarlierSizesKept(mem: seq<Byte>, mem': seq<Byte>, start: nat, end: nat, max: nat, segs: seq<Segment>,
                         index: seq<nat>, end': nat)
    requires Sound(mem, start, end, max, segs, index) && SameOutside(mem, mem', HoleStart(segs, end), end')
    ensures forall a: nat | a in index && a != HoleStart(segs, end) :: SizeAt(mem', a) == SizeAt(mem, a)
  {
    hide WordAt, NoAdjacentHoles, Guarded, SameOutside;
    forall a: nat | a in index && a != HoleStart(segs, end) ensures SizeAt(mem', a) == SizeAt(mem, a) {
      assert IsHole(segs, a);
      var j :| 0 <= j < |segs| && segs[j].hole && segs[j].addr == a;
      ChainRange(segs, start, j);
      if j < |segs| - 1 {
        Disjoint(segs, start, j, |segs| - 1);
      }
      assert Stored(mem, segs[j]);
      StoredFrame(mem, mem', HoleStart(segs, end), end', segs[j]);
    }
  }

  /** The index without the hole on the right. */
  lemma RightIndexed(mem: seq<Byte>, start: nat, end: nat, max: nat, segs: seq<Segment>, index: seq<nat>,
                     index1: seq<nat>,
                     k: nat)
    requires Sound(mem, start, end, max, segs, index) && k < |segs|
    requires RightOut(index, index1, segs, k)
    ensures forall a: nat ::
              a in index1 <==> a in index && !(k < RightEnd(segs, k) && a == segs[RightEnd(segs, k)].addr)
    ensures forall i, j | 0 <= i < j < |index1| :: index1[i] != index1[j]
    ensures forall j | 0 <= j < |index1| :: index1[j] + HEADER <= |mem|
  {
    HolesReadable(mem, start, end, max, segs, index);
    if k < RightEnd(segs, k) {
      var i :| 0 <= i < |index| && index[i] == segs[k + 1].addr && index1 == IndexWithout(index, i);
      IndexRemoved(index, i);
      forall j | 0 <= j < |index1| ensures index1[j] + HEADER <= |mem| {
        assert index1[j] in index1;
      }
    }
  }

  /** The hole on the right, if there is one, taken out. */
  ghost predicate RightOut(index: seq<nat>, index1: seq<nat>, segs: seq<Segment>, k: nat)
    requires k < |segs|
  {
    if k < RightEnd(segs, k) then
      exists r :: 0 <= r < |index| && index[r] == segs[k + 1].addr && index1 == IndexWithout(index, r)
    else index1 == index
  }

  /** How freeing changes the index: the hole on the right is taken out, then the segment is put in when there was
      no hole on the left. */
  ghost predicate UnitedIndex(mem: seq<Byte>, index: seq<nat>, index1: seq<nat>, index': seq<nat>, segs: seq<Segment>,
                              k: nat, i: nat)
    requires k < |segs|
  {
    && RightOut(index, index1, segs, k)
    && (if LeftEnd(segs, k) == k then
          IsPlace(mem, index1, i, segs[k].addr) && index' == IndexWith(index1, i, segs[k].addr)
        else index' == index1)
  }

  lemma FreedIndexed(mem: seq<Byte>, mem': seq<Byte>, start: nat, end: nat, max: nat, segs: seq<Segment>,
                     index: seq<nat>, index1: seq<nat>, index2: seq<nat>, k: nat, i: nat)
    requires Sound(mem, start, end, max, segs, index) && k < |segs| && !segs[k].hole
    requires UnitedIndex(mem', index, index1, index2, segs, k, i)
    ensures FreedIndex(index, index2, segs, k)
  {
    hide Sound, SizeAt, IndexOk, IsHole;
    RightIndexed(mem, start, end, max, segs, index, index1, k);
    if LeftEnd(segs, k) == k {
      SoundShape(mem, start, end, max, segs, index);
      LiveNotIndexed(segs, start, index, k);
      IndexInserted(index1, i, segs[k].addr);
    }
  }

  /** The address of the hole on the right; without one that of the segment itself, which is not in the index. */
  function RightHole(segs: seq<Segment>, k: nat): nat
    requires k < |segs|
  {
    segs[RightEnd(segs, k)].addr
  }

  /** Nothing behind the left hole in the index, other than the right hole, is smaller than what freeing makes of it. */
  ghost predicate KeepsItsPlace(mem: seq<Byte>, index: seq<nat>, segs: seq<Segment>, k: nat)
    requires k < |segs|
  {
    NoneSmaller(mem, index, segs[LeftEnd(segs, k)].addr, United(segs, k).size, RightHole(segs, k))
  }

  /** What freeing does to the sizes in the headers of the holes. */
  lemma FreedSizes(mem: seq<Byte>, start: nat, end: nat, max: nat, segs: seq<Segment>, index: seq<nat>, k: nat)
    requires Sound(mem, start, end, max, segs, index) && k < |segs| && !segs[k].hole
    ensures AllStored(mem, segs)
    ensures forall a: nat | a in index && a != segs[LeftEnd(segs, k)].addr
                            && !(k < RightEnd(segs, k) && a == segs[k + 1].addr) ::
              SizeAt(FreedMemory(mem, segs, k), a) == SizeAt(mem, a)
    ensures LeftEnd(segs, k) < k ==> SizeAt(mem, segs[k - 1].addr) <= United(segs, k).size
    ensures SizeAt(FreedMemory(mem, segs, k), segs[LeftEnd(segs, k)].addr) == United(segs, k).size
  {
    hide Sound, FreedMemory, WordAt, SameOutside, IsHole;
    SoundShape(mem, start, end, max, segs, index);
    FreedInMemory(mem, segs, start, k);
    SizesKept(mem, FreedMemory(mem, segs, k), start, end, max, segs, index, LeftEnd(segs, k), RightEnd(segs, k));
    LiveNotIndexed(segs, start, index, k);
    assert Stored(FreedMemory(mem, segs, k), United(segs, k));
    assert Stored(mem, segs[LeftEnd(segs, k)]);
  }

  lemma RightOutOrdered(mem: seq<Byte>, index: seq<nat>, index1: seq<nat>, segs: seq<Segment>, k: nat)
    requires k < |segs| && Ordered(mem, index) && forall i, j | 0 <= i < j < |index| :: index[i] != index[j]
    requires RightOut(index, index1, segs, k)
    ensures Ordered(mem, index1)
  {
    hide SizeAt;
    if k < RightEnd(segs, k) {
      var r :| 0 <= r < |index| && index[r] == segs[k + 1].addr && index1 == IndexWithout(index, r);
      RemovedOrdered(mem, index, r);
    }
  }

  lemma NothingBehind(mem: seq<Byte>, index: seq<nat>, segs: seq<Segment>, k: nat)
    requires k < |segs| && LeftEnd(segs, k) == k && segs[k].addr !in index
    ensures KeepsItsPlace(mem, index, segs, k)
  {
  }

  /** The hole on the left stays in the index and grows there. */
  lemma LeftOrdered(mem: seq<Byte>, mem': seq<Byte>, segs: seq<Segment>, from: nat, index: seq<nat>, index1: seq<nat>,
                    k: nat)
    requires Chained(segs, from) && IndexOk(index, segs) && k < |segs| && !segs[k].hole && LeftEnd(segs, k) < k
    requires RightOut(index, index1, segs, k) && Ordered(mem, index1)
    requires forall a: nat | a in index && a != segs[k - 1].addr && !(k < RightEnd(segs, k) && a == segs[k + 1].addr) ::
               SizeAt(mem', a) == SizeAt(mem, a)
    requires SizeAt(mem, segs[k - 1].addr) <= United(segs, k).size == SizeAt(mem', segs[k - 1].addr)
    ensures Ordered(mem', index1) <==> KeepsItsPlace(mem, index, segs, k)
  {
    hide SizeAt, Ordered, NoneSmaller, United;
    var left, right := segs[k - 1].addr, RightHole(segs, k);
    assert left in index && left != right by {
      assert IsHole(segs, left);
      Disjoint(segs, from, k - 1, RightEnd(segs, k));
      ChainRange(segs, from, k - 1);
    }
    if k < RightEnd(segs, k) {
      var r :| 0 <= r < |index| && index[r] == right && index1 == IndexWithout(index, r);
      IndexRemoved(index, r);
      BehindRest(mem, index, r, left, United(segs, k).size);
    } else {
      LiveNotIndexed(segs, from, index, k);
    }
    GrownOrdered(mem, mem', index1, left, right);
  }

  /** Freeing keeps an index in order if and only if no hole was on the left, or that one did not outgrow its
      place: what grew is not moved. */
  lemma FreedOrdered(mem: seq<Byte>, start: nat, end: nat, max: nat, segs: seq<Segment>, index: seq<nat>,
                     index1: seq<nat>, index': seq<nat>, k: nat, i: nat)
    requires Sound(mem, start, end, max, segs, index) && k < |segs| && !segs[k].hole
    requires UnitedIndex(FreedMemory(mem, segs, k), index, index1, index', segs, k, i)
    ensures Ordered(mem, index) ==>
              (Ordered(FreedMemory(mem, segs, k), index') <==> KeepsItsPlace(mem, index, segs, k))
  {
    if Ordered(mem, index) {
      hide Sound, FreedMemory, SizeAt, IsPlace, Ordered, KeepsItsPlace, IsHole, RightOut;
      var mem' := FreedMemory(mem, segs, k);
      SoundShape(mem, start, end, max, segs, index);
      FreedSizes(mem, start, end, max, segs, index, k);
      RightIndexed(mem, start, end, max, segs, index, index1, k);
      RightOutOrdered(mem, index, index1, segs, k);
      if LeftEnd(segs, k) == k {
        LiveNotIndexed(segs, start, index, k);
        OrderedFrame(mem, mem', index1, segs[k].addr);
        InsertedOrdered(mem', index1, i, segs[k].addr);
        NothingBehind(mem, index, segs, k);
      } else {
        LeftOrdered(mem, mem', segs, start, index, index1, k);
      }
    }
  }

  lemma LiveNotIndexed(segs: seq<Segment>, from: nat, index: seq<nat>, k: nat)
    requires Chained(segs, from) && IndexOk(index, segs) && k < |segs| && !segs[k].hole
    ensures segs[k].addr !in index
  {
    forall i | 0 <= i < |segs| && segs[i].addr == segs[k].addr ensures i == k {
      SameAddress(segs, from, i, k);
    }
  }

  lemma StartGuarded(mem: seq<Byte>, mem': seq<Byte>, start: nat, end: nat, max: nat, lo: nat, hi: nat)
    requires FOOTER <= start <= end <= max && max + HEADER <= |mem| && Guarded(mem, start, end, max)
    requires SameOutside(mem, mem', lo, hi) && start <= lo
    ensures WordAt(mem', start - FOOTER) != MAGIC
  {
  }

  /** The payloads of the live segments, and their headers and footers, are as they were. */
  ghost predicate LiveKept(mem: seq<Byte>, mem': seq<Byte>, segs: seq<Segment>) {
    && |mem'| == |mem|
    && forall i: nat, k: nat | i < |segs| && !segs[i].hole && segs[i].addr <= k < segs[i].addr + segs[i].size
       && k < |mem| ::
         mem'[k] == mem[k]
  }

  lemma HoleOnly(mem: seq<Byte>, mem': seq<Byte>, segs: seq<Segment>, from: nat, k: nat)
    requires Chained(segs, from) && k < |segs| && segs[k].hole
    requires SameOutside(mem, mem', segs[k].addr, segs[k].addr + segs[k].size)
    ensures LiveKept(mem, mem', segs)
  {
    forall i: nat, a: nat | i < |segs| && !segs[i].hole && segs[i].addr <= a < segs[i].addr + segs[i].size && a < |mem|
      ensures mem'[a] == mem[a]
    {
      if i < k {
        Disjoint(segs, from, i, k);
      } else if k < i {
        Disjoint(segs, from, k, i);
      }
    }
  }

  lemma ExpandedLive(mem0: seq<Byte>, mem1: seq<Byte>, mem2: seq<Byte>, segs: seq<Segment>, from: nat, end: nat,
                     grow: nat)
    requires Chained(segs, from) && EndOf(segs, from) == end
    requires SameOutside(mem0, mem1, HoleStart(segs, end), end + grow)
    requires LiveKept(mem1, mem2, Expanded(segs, end, grow))
    ensures LiveKept(mem0, mem2, segs)
  {
    forall i: nat, a: nat | i < |segs| && !segs[i].hole && segs[i].addr <= a < segs[i].addr + segs[i].size && a < |mem0|
      ensures mem2[a] == mem0[a]
    {
      ChainRange(segs, from, i);
      if i < |segs| - 1 {
        Disjoint(segs, from, i, |segs| - 1);
      }
      assert Expanded(segs, end, grow)[i] == segs[i];
    }
  }

  /** The two branches of the expansion, by whether the last segment is a hole. */
  lemma ExpandedMemoryIs(mem: seq<Byte>, start: nat, end: nat, max: nat, segs: seq<Segment>, index: seq<nat>, grow: nat)
    requires Sound(mem, start, end, max, segs, index) && OVERHEAD <= grow && end + grow <= max
    ensures segs != [] && segs[|segs| - 1].hole ==>
              var s := segs[|segs| - 1];
              && s.addr + s.size == end && s.addr + HEADER <= |mem| && WordAt(mem, s.addr + 8) == s.size
              && ExpandedMemory(mem, segs, end, grow)
                 == WithFooter(PutWordAt(PutWordAt(mem, s.addr, MAGIC), s.addr + 8, s.size + grow), s.addr,
                     s.size + grow, s.addr)
    ensures !(segs != [] && segs[|segs| - 1].hole) ==>
              ExpandedMemory(mem, segs, end, grow) == WithSegment(mem, Segment(end, grow, true))
  {
    if segs != [] && segs[|segs| - 1].hole {
      ExpandedStored(mem, start, end, max, segs, index, grow);
      assert Stored(mem, segs[|segs| - 1]);
    }
  }

  lemma EndNotIndexed(segs: seq<Segment>, from: nat, index: seq<nat>, end: nat)
    requires Chained(segs, from) && EndOf(segs, from) == end && IndexOk(index, segs)
    ensures end !in index
  {
    forall i | 0 <= i < |segs| ensures segs[i].addr != end {
      ChainRange(segs, from, i);
    }
  }

  lemma NewHoleIndexed(segs: seq<Segment>, from: nat, index: seq<nat>, end: nat, grow: nat, i: nat)
    requires Chained(segs, from) && EndOf(segs, from) == end && IndexOk(index, segs) && i <= |index|
    requires !(segs != [] && segs[|segs| - 1].hole)
    ensures IndexOk(IndexWith(index, i, end), Expanded(segs, end, grow))
  {
    hide Expanded, IsHole;
    EndNotIndexed(segs, from, index, end);
    IndexInserted(index, i, end);
    forall a: nat ensures a in IndexWith(index, i, end) <==> IsHole(Expanded(segs, end, grow), a) {
      ExpandedHoles(segs, end, grow, a);
    }
  }

  lemma OldHoleIndexed(segs: seq<Segment>, index: seq<nat>, end: nat, grow: nat)
    requires IndexOk(index, segs) && segs != [] && segs[|segs| - 1].hole
    ensures IndexOk(index, Expanded(segs, end, grow))
  {
    hide Expanded, IsHole;
    forall a: nat ensures a in index <==> IsHole(Expanded(segs, end, grow), a) {
      ExpandedHoles(segs, end, grow, a);
    }
  }

  /** When the hole with the highest address is the last segment, the highest address of the index is its own. */
  lemma HighestIsLast(mem: seq<Byte>, start: nat, end: nat, max: nat, segs: seq<Segment>, index: seq<nat>,
                      found: bool, hdr: nat)
    requires Sound(mem, start, end, max, segs, index) && HoleAtEnd(segs)
    requires forall j | 0 <= j < |index| :: index[j] <= hdr
    requires found ==> hdr in index
    requires !found ==> |index| == 0
    ensures found <==> segs != [] && segs[|segs| - 1].hole
    ensures found ==> hdr == segs[|segs| - 1].addr
  {
    var n := |segs| - 1;
    assert segs != [] && segs[n].hole ==> IsHole(segs, segs[n].addr);
    if found {
      var i :| 0 <= i < |segs| && segs[i].hole && segs[i].addr == hdr;
      if i < n {
        ChainRange(segs, start, i);
        Disjoint(segs, start, i, n);
      }
    }
  }

  /** The index lists headers inside the memory. */
  lemma HolesReadable(mem: seq<Byte>, start: nat, end: nat, max: nat, segs: seq<Segment>, index: seq<nat>)
    requires Sound(mem, start, end, max, segs, index)
    ensures forall j | 0 <= j < |index| :: index[j] + HEADER <= |mem|
  {
    forall j | 0 <= j < |index| ensures index[j] + HEADER <= |mem| {
      var k := IndexedHole(mem, start, end, max, segs, index, j);
    }
  }

  lemma TakenSizeIs(s: Segment, need: nat)
    requires OVERHEAD <= need <= s.size
    ensures TakenSize(s.size, need) == if s.size - need < HEADER + FOOTER then s.size else need
    ensures |Halves(s, need)| == if TakenSize(s.size, need) < s.size then 2 else 1
  {
  }

  lemma PlacedMemoryIs(mem: seq<Byte>, s: Segment, need: nat)
    requires OVERHEAD <= need <= s.size && s.addr + s.size <= |mem|
    ensures var taken := TakenSize(s.size, need);
            && OVERHEAD <= taken <= s.size && (taken < s.size ==> OVERHEAD <= s.size - taken)
            && PlacedMemory(mem, s, need)
               == (var m := WithSegment(mem, Segment(s.addr, taken, false));
                   if taken < s.size then WithSegment(m, Segment(s.addr + taken, s.size - taken, true)) else m)
  {
  }

  /** No hole starts inside another one. */
  lemma NotIndexed(segs: seq<Segment>, from: nat, index: seq<nat>, k: nat, a: nat)
    requires Chained(segs, from) && IndexOk(index, segs) && k < |segs| && segs[k].addr < a < segs[k].addr + segs[k].size
    ensures a !in index
  {
    forall i | 0 <= i < |segs| ensures segs[i].addr != a {
      if i < k {
        ChainRange(segs, from, i);
        Disjoint(segs, from, i, k);
      } else if k < i {
        Disjoint(segs, from, k, i);
      }
    }
  }
}
