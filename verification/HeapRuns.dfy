/** What happens to a heap between calls, and heaps that runs of calls lead to (src/kernel/mem/heap.c). */
module HeapRuns {
  import opened Bytes
  import opened Heap
  import opened HoleIndex
  import opened Segments

  /** Memory written nowhere but in [lo, hi), part of the payload of live segment k. */
  ghost predicate PayloadWrite(mem: seq<Byte>, mem': seq<Byte>, segs: seq<Segment>, k: nat, lo: nat, hi: nat) {
    && k < |segs| && !segs[k].hole
    && segs[k].addr + HEADER <= lo && hi + FOOTER <= segs[k].addr + segs[k].size
    && SameOutside(mem, mem', lo, hi)
  }

  /** A client that writes to what it allocated, and nowhere else, keeps the heap and the order of its index. */
  lemma ClientKeepsSound(mem: seq<Byte>, mem': seq<Byte>, start: nat, end: nat, max: nat, segs: seq<Segment>,
                         index: seq<nat>, k: nat, lo: nat, hi: nat)
    requires Sound(mem, start, end, max, segs, index) && PayloadWrite(mem, mem', segs, k, lo, hi)
    ensures Sound(mem', start, end, max, segs, index)
    ensures Ordered(mem', index) <==> Ordered(mem, index)
  {
    hide Stored, SameOutside, Guarded, IsHole, Ordered, OrderedBut, SizeAt, NoAdjacentHoles;
    ChainRange(segs, start, k);
    SameLength(mem, mem', lo, hi);
    GuardKept(mem, mem', start, end, max, lo, hi);
    forall i | 0 <= i < |segs| ensures Stored(mem', segs[i]) {
      PayloadStored(mem, mem', start, segs, k, lo, hi, i);
    }
    assert AllStored(mem', segs);
    SizesSame(mem, mem', start, end, max, segs, index);
    OrderedFrame(mem, mem', index, segs[k].addr);
    LiveNotIndexed(segs, start, index, k);
  }

  lemma PayloadStored(mem: seq<Byte>, mem': seq<Byte>, from: nat, segs: seq<Segment>, k: nat, lo: nat, hi: nat, i: nat)
    requires Chained(segs, from) && AllStored(mem, segs) && PayloadWrite(mem, mem', segs, k, lo, hi) && i < |segs|
    ensures Stored(mem', segs[i])
  {
    hide SameOutside;
    var s := segs[i];
    assert Stored(mem, s);
    hide HasHeader, HasFooter;
    if i < k {
      Disjoint(segs, from, i, k);
    } else if k < i {
      Disjoint(segs, from, k, i);
    }
    assert |mem'| == |mem| by {
      SameLength(mem, mem', lo, hi);
    }
    HeaderFrame(mem, mem', lo, hi, s);
    FooterFrame(mem, mem', lo, hi, s.addr, s.size, s.addr);
  }

  lemma SameLength(mem: seq<Byte>, mem': seq<Byte>, lo: nat, hi: nat)
    requires SameOutside(mem, mem', lo, hi)
    ensures |mem'| == |mem|
  {
  }

  lemma SizesSame(mem: seq<Byte>, mem': seq<Byte>, start: nat, end: nat, max: nat, segs: seq<Segment>, index: seq<nat>)
    requires Sound(mem, start, end, max, segs, index) && AllStored(mem', segs)
    ensures forall a: nat | a in index :: SizeAt(mem', a) == SizeAt(mem, a)
  {
    hide WordAt, Guarded;
    forall a: nat | a in index ensures SizeAt(mem', a) == SizeAt(mem, a) {
      assert IsHole(segs, a);
      var j :| 0 <= j < |segs| && segs[j].hole && segs[j].addr == a;
      assert Stored(mem, segs[j]) && Stored(mem', segs[j]);
    }
  }

  function Live(a: nat, size: nat): Segment {
    Segment(a, size, false)
  }

  function Free(a: nat, size: nat): Segment {
    Segment(a, size, true)
  }

  /** A heap of 4 KiB, all of it allocated in two calls and the first of the two freed, ends in a live segment. An
      expansion would lengthen the hole before it. */
  lemma HoleBeforeTheEnd(start: nat)
    ensures var s0 := [Free(start, 4096)];
            var s1 := Placed(s0, 0, 2048);
            var s2 := Placed(s1, 1, 2048);
            s2 == [Live(start, 2048), Live(start + 2048, 2048)]
            && Coalesced(s2, 0) == [Free(start, 2048), Live(start + 2048, 2048)]
            && !HoleAtEnd(Coalesced(s2, 0))
  {
    var s0 := [Free(start, 4096)];
    var s1 := Placed(s0, 0, 2048);
    assert s1 == [Live(start, 2048), Free(start + 2048, 2048)];
    var s2 := Placed(s1, 1, 2048);
    assert s2 == [Live(start, 2048), Live(start + 2048, 2048)];
    assert s2[1..] == [Live(start + 2048, 2048)];
    var s3 := Coalesced(s2, 0);
    assert s3 == [Free(start, 2048), Live(start + 2048, 2048)];
    assert s3[0].hole;
  }

  /** The headers and footers of all segments written, one after another. */
  function WithAll(mem: seq<Byte>, segs: seq<Segment>, from: nat): (r: seq<Byte>)
    requires Chained(segs, from) && EndOf(segs, from) <= |mem|
    ensures |r| == |mem|
    decreases |segs|
  {
    if segs == [] then mem
    else WithAll(WithSegment(mem, segs[0]), segs[1..], from + segs[0].size)
  }

  lemma {:induction false} AllWritten(mem: seq<Byte>, segs: seq<Segment>, from: nat)
    requires Chained(segs, from) && 0 < from && EndOf(segs, from) <= |mem| <= WORD
    ensures AllStored(WithAll(mem, segs, from), segs)
    ensures SameOutside(mem, WithAll(mem, segs, from), from, EndOf(segs, from))
    decreases |segs|
  {
    hide AllStored, Stored, SameOutside, WithSegment, WithAll;
    if segs == [] {
      NoneWritten(mem, from);
    } else {
      var s, m1 := segs[0], WithSegment(mem, segs[0]);
      SegmentWritten(mem, s);
      AllWritten(m1, segs[1..], from + s.size);
      BehindFirst(mem, m1, WithAll(m1, segs[1..], from + s.size), segs, EndOf(segs, from));
      WithFirst(mem, segs, from);
    }
  }

  lemma NoneWritten(mem: seq<Byte>, from: nat)
    requires from <= |mem|
    ensures AllStored(WithAll(mem, [], from), []) && SameOutside(mem, WithAll(mem, [], from), from, from)
  {
  }

  lemma WithFirst(mem: seq<Byte>, segs: seq<Segment>, from: nat)
    requires segs != [] && Chained(segs, from) && EndOf(segs, from) <= |mem|
    ensures WithAll(mem, segs, from) == WithAll(WithSegment(mem, segs[0]), segs[1..], from + segs[0].size)
  {
  }

  lemma BehindFirst(mem: seq<Byte>, m1: seq<Byte>, m: seq<Byte>, segs: seq<Segment>, end: nat)
    requires segs != [] && Stored(m1, segs[0]) && AllStored(m, segs[1..]) && segs[0].addr + segs[0].size <= end
    requires SameOutside(mem, m1, segs[0].addr, segs[0].addr + segs[0].size)
    requires SameOutside(m1, m, segs[0].addr + segs[0].size, end)
    ensures AllStored(m, segs) && SameOutside(mem, m, segs[0].addr, end)
  {
    hide Stored, SameOutside;
    var s := segs[0];
    StoredFrame(m1, m, s.addr + s.size, end, s);
    forall i | 0 <= i < |segs| ensures Stored(m, segs[i]) {
      assert 0 < i ==> segs[i] == segs[1..][i - 1];
    }
    OutsideWider(mem, m1, s.addr, s.addr + s.size, s.addr, end);
    OutsideTransitive(mem, m1, m, s.addr, end, s.addr + s.size, end);
  }

  /** Every list of segments is the layout of some heap, with any order of its holes for an index. */
  lemma HeapExists(mem: seq<Byte>, start: nat, end: nat, max: nat, segs: seq<Segment>, index: seq<nat>)
    requires FOOTER <= start <= end <= max && max + HEADER <= |mem| <= WORD && Guarded(mem, start, end, max)
    requires Chained(segs, start) && EndOf(segs, start) == end && NoAdjacentHoles(segs) && IndexOk(index, segs)
    ensures Sound(WithAll(mem, segs, start), start, end, max, segs, index)
  {
    hide SameOutside, AllStored, Guarded, IndexOk, NoAdjacentHoles, WithAll;
    AllWritten(mem, segs, start);
    GuardKept(mem, WithAll(mem, segs, start), start, end, max, start, end);
  }

  /** A heap with two holes; TornReached says how it comes about. */
  function Torn(start: nat): seq<Segment> {
    [Free(start, 40), Live(start + 40, 100), Live(start + 140, 40), Free(start + 180, 80), Live(start + 260, 40)]
  }

  /** The order can be lost: freeing the second segment makes 140 bytes of the first hole of the index, in front of
      one of 80. */
  lemma OrderLost(mem: seq<Byte>, start: nat, max: nat)
    requires FOOTER <= start && start + 300 <= max && max + HEADER <= |mem| <= WORD
    requires Guarded(mem, start, start + 300, max)
    ensures Chained(Torn(start), start) && EndOf(Torn(start), start) == start + 300
    ensures var m, index := WithAll(mem, Torn(start), start), [start, start + 180];
            && Sound(m, start, start + 300, max, Torn(start), index) && Ordered(m, index)
            && UnitedIndex(FreedMemory(m, Torn(start), 1), index, index, index, Torn(start), 1, 0)
            && !Ordered(FreedMemory(m, Torn(start), 1), index)
  {
    hide WithAll, Guarded, Stored, Ordered, KeepsItsPlace, Torn, FreedMemory, UnitedIndex;
    TornChained(start);
    var index := [start, start + 180];
    HeapExists(mem, start, start + 300, max, Torn(start), index);
    var m := WithAll(mem, Torn(start), start);
    TornOrder(m, start);
    FreedOrdered(m, start, start + 300, max, Torn(start), index, index, index, 1, 0);
  }

  lemma TornOrder(m: seq<Byte>, start: nat)
    requires AllStored(m, Torn(start))
    ensures 1 < |Torn(start)| && !Torn(start)[1].hole
    ensures var index := [start, start + 180];
            && Ordered(m, index) && !KeepsItsPlace(m, index, Torn(start), 1)
            && UnitedIndex(FreedMemory(m, Torn(start), 1), index, index, index, Torn(start), 1, 0)
  {
    hide WordAt, FreedMemory;
    var segs, index := Torn(start), [start, start + 180];
    assert Stored(m, segs[0]) && Stored(m, segs[3]);
    hide Stored;
    assert SizeAt(m, index[0]) == 40 && SizeAt(m, index[1]) == 80;
    assert index[0] == segs[LeftEnd(segs, 1)].addr && index[1] != RightHole(segs, 1);
  }

  /** Five allocations out of one hole of 300 bytes, then the first and the fourth freed. */
  lemma TornReached(a: nat)
    ensures Placed([Free(a, 300)], 0, 40) == [Live(a, 40), Free(a + 40, 260)]
    ensures Placed([Live(a, 40), Free(a + 40, 260)], 1, 100) == [Live(a, 40), Live(a + 40, 100), Free(a + 140, 160)]
    ensures Placed([Live(a, 40), Live(a + 40, 100), Free(a + 140, 160)], 2, 40)
            == [Live(a, 40), Live(a + 40, 100), Live(a + 140, 40), Free(a + 180, 120)]
    ensures Placed([Live(a, 40), Live(a + 40, 100), Live(a + 140, 40), Free(a + 180, 120)], 3, 80)
            == [Live(a, 40), Live(a + 40, 100), Live(a + 140, 40), Live(a + 180, 80), Free(a + 260, 40)]
    ensures var s := [Live(a, 40), Live(a + 40, 100), Live(a + 140, 40), Live(a + 180, 80), Free(a + 260, 40)];
            var full := s[4 := Live(a + 260, 40)];
            Placed(s, 4, 40) == full && Coalesced(full, 0) == full[0 := Free(a, 40)]
            && Coalesced(full[0 := Free(a, 40)], 3) == Torn(a)
  {
  }

  lemma TornChained(start: nat)
    ensures Chained(Torn(start), start) && EndOf(Torn(start), start) == start + 300
    ensures NoAdjacentHoles(Torn(start)) && IndexOk([start, start + 180], Torn(start))
  {
    var s := Torn(start);
    assert s[0].hole && s[3].hole;
    assert s[1..][1..][1..][1..][1..] == [];
    assert Chained(s[1..][1..][1..][1..], start + 260) && EndOf(s[1..][1..][1..][1..], start + 260) == start + 300;
    assert Chained(s[1..][1..][1..], start + 180) && EndOf(s[1..][1..][1..], start + 180) == start + 300;
    assert Chained(s[1..][1..], start + 140) && EndOf(s[1..][1..], start + 140) == start + 300;
    assert Chained(s[1..], start + 40) && EndOf(s[1..], start + 40) == start + 300;
  }
}
