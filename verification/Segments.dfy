/** The segments of a boundary-tag heap as a list, and what allocating, freeing and expanding do to it
    (src/kernel/mem/heap.c). */
module Segments {

  /** A segment with its header and footer: where it starts, its length, and whether it is free. */
  datatype Segment = Segment(addr: nat, size: nat, hole: bool)

  const HEADER := 12
  const FOOTER := 8
  const OVERHEAD := HEADER + FOOTER

  /** The segments follow one another from an address on, each long enough for its header and footer. */
  predicate Chained(segs: seq<Segment>, from: nat) {
    segs == [] || (segs[0].addr == from && OVERHEAD <= segs[0].size && Chained(segs[1..], from + segs[0].size))
  }

  function EndOf(segs: seq<Segment>, from: nat): (r: nat)
    ensures from <= r
  {
    if segs == [] then from else EndOf(segs[1..], from + segs[0].size)
  }

  /** No two holes touch. */
  predicate NoAdjacentHoles(segs: seq<Segment>) {
    forall i, j | 0 <= i < |segs| && 0 <= j < |segs| && j == i + 1 :: !(segs[i].hole && segs[j].hole)
  }

  /** A hole starts at a. */
  predicate IsHole(segs: seq<Segment>, a: nat) {
    exists i | 0 <= i < |segs| :: segs[i].hole && segs[i].addr == a
  }

  lemma {:induction false} ChainConcat(a: seq<Segment>, b: seq<Segment>, from: nat)
    ensures Chained(a + b, from) <==> Chained(a, from) && Chained(b, EndOf(a, from))
    ensures EndOf(a + b, from) == EndOf(b, EndOf(a, from))
    decreases |a|
  {
    if a == [] {
      assert a + b == b;
    } else {
      ChainConcat(a[1..], b, from + a[0].size);
      assert (a + b)[1..] == a[1..] + b;
    }
  }

  /** Every segment lies between the two ends. */
  lemma {:induction false} ChainRange(segs: seq<Segment>, from: nat, i: nat)
    requires Chained(segs, from) && i < |segs|
    ensures from <= segs[i].addr && segs[i].addr + segs[i].size <= EndOf(segs, from) && OVERHEAD <= segs[i].size
    decreases |segs|
  {
    if 0 < i {
      ChainRange(segs[1..], from + segs[0].size, i - 1);
    }
  }

  /** The segments before number i end where it starts. */
  lemma ChainSplit(segs: seq<Segment>, from: nat, i: nat)
    requires Chained(segs, from) && i < |segs|
    ensures Chained(segs[..i], from) && EndOf(segs[..i], from) == segs[i].addr
    ensures Chained(segs[i..], segs[i].addr) && EndOf(segs[i..], segs[i].addr) == EndOf(segs, from)
    ensures Chained(segs[i + 1..], segs[i].addr + segs[i].size)
    ensures EndOf(segs[i + 1..], segs[i].addr + segs[i].size) == EndOf(segs, from)
  {
    ChainConcat(segs[..i], segs[i..], from);
    assert segs[..i] + segs[i..] == segs;
    assert segs[i..][1..] == segs[i + 1..];
  }

  /** Segments do not overlap. */
  lemma Disjoint(segs: seq<Segment>, from: nat, i: nat, j: nat)
    requires Chained(segs, from) && i < j < |segs|
    ensures segs[i].addr + segs[i].size <= segs[j].addr
  {
    ChainSplit(segs, from, i);
    ChainRange(segs[i + 1..], segs[i].addr + segs[i].size, j - i - 1);
  }

  /** Addresses tell segments apart. */
  lemma SameAddress(segs: seq<Segment>, from: nat, i: nat, j: nat)
    requires Chained(segs, from) && i < |segs| && j < |segs| && segs[i].addr == segs[j].addr
    ensures i == j
  {
    if i < j {
      Disjoint(segs, from, i, j);
      ChainRange(segs, from, i);
    } else if j < i {
      Disjoint(segs, from, j, i);
      ChainRange(segs, from, j);
    }
  }

  /** A part of the list replaced by segments over the same range. */
  function Replaced(segs: seq<Segment>, lo: nat, hi: nat, mid: seq<Segment>): seq<Segment>
    requires lo <= hi <= |segs|
  {
    segs[..lo] + mid + segs[hi..]
  }

  lemma ReplacedChain(segs: seq<Segment>, from: nat, lo: nat, hi: nat, mid: seq<Segment>)
    requires Chained(segs, from) && lo < hi <= |segs|
    requires Chained(mid, segs[lo].addr)
    requires EndOf(mid, segs[lo].addr) == segs[hi - 1].addr + segs[hi - 1].size
    ensures Chained(Replaced(segs, lo, hi, mid), from)
    ensures EndOf(Replaced(segs, lo, hi, mid), from) == EndOf(segs, from)
  {
    hide Chained, EndOf;
    ChainSplit(segs, from, lo);
    ChainSplit(segs, from, hi - 1);
    ChainConcat(segs[..lo], mid, from);
    ChainConcat(segs[..lo] + mid, segs[hi..], from);
  }

  lemma ReplacedHoles(segs: seq<Segment>, lo: nat, hi: nat, mid: seq<Segment>, a: nat)
    requires lo <= hi <= |segs|
    ensures IsHole(Replaced(segs, lo, hi, mid), a) <==> IsHole(segs[..lo], a) || IsHole(mid, a) || IsHole(segs[hi..], a)
  {
    var s := Replaced(segs, lo, hi, mid);
    if i :| 0 <= i < lo && segs[i].hole && segs[i].addr == a {
      assert s[i] == segs[i];
    }
    if i :| 0 <= i < |mid| && mid[i].hole && mid[i].addr == a {
      assert s[lo + i] == mid[i];
    }
    if i :| hi <= i < |segs| && segs[i].hole && segs[i].addr == a {
      assert s[i - hi + lo + |mid|] == segs[i];
      assert segs[hi..][i - hi] == segs[i];
    }
  }

  /** The holes outside a part of the list are the holes without those of the part. */
  lemma HolesAround(segs: seq<Segment>, from: nat, lo: nat, hi: nat, a: nat)
    requires Chained(segs, from) && lo <= hi <= |segs|
    ensures IsHole(segs[..lo], a) || IsHole(segs[hi..], a)
            <==> IsHole(segs, a) && forall i | lo <= i < hi :: segs[i].addr != a
  {
    if i :| 0 <= i < |segs| && segs[i].hole && segs[i].addr == a {
      forall j | lo <= j < hi && segs[j].addr == a ensures i == j {
        SameAddress(segs, from, i, j);
      }
      assert i < lo ==> segs[..lo][i] == segs[i];
      assert hi <= i ==> segs[hi..][i - hi] == segs[i];
    }
    if i :| 0 <= i < lo && segs[i].hole && segs[i].addr == a {
      forall j | lo <= j < hi ensures segs[j].addr != a {
        if segs[j].addr == a {
          SameAddress(segs, from, i, j);
        }
      }
    }
    if i :| 0 <= i < |segs| - hi && segs[hi..][i].hole && segs[hi..][i].addr == a {
      forall j | lo <= j < hi ensures segs[j].addr != a {
        if segs[j].addr == a {
          SameAddress(segs, from, hi + i, j);
        }
      }
    }
  }

  /** A hole of the given size taken for an allocation of need bytes: what is too small to be a hole of its
      own is not split off (heap.c:163-165). */
  function TakenSize(size: nat, need: nat): nat
    requires need <= size
  {
    if size - need < OVERHEAD then size else need
  }

  function Halves(s: Segment, need: nat): seq<Segment>
    requires need <= s.size
  {
    var taken := TakenSize(s.size, need);
    [Segment(s.addr, taken, false)] + (if taken < s.size then [Segment(s.addr + taken, s.size - taken, true)] else [])
  }

  /** Allocating need bytes from hole k. */
  function Placed(segs: seq<Segment>, k: nat, need: nat): seq<Segment>
    requires k < |segs| && need <= segs[k].size
  {
    Replaced(segs, k, k + 1, Halves(segs[k], need))
  }

  /** The hole is taken whole when less than a header and a footer would be left; otherwise what is left follows as a
      hole. Nothing else changes. */
  lemma PlacedParts(segs: seq<Segment>, k: nat, size: nat)
    requires k < |segs| && size + 20 <= segs[k].size
    ensures var s, need := Placed(segs, k, size + 20), size + 20;
            && k < |s| && s[..k] == segs[..k]
            && (if segs[k].size < need + 20 then
                  s[k] == Segment(segs[k].addr, segs[k].size, false) && s[k + 1..] == segs[k + 1..]
                else
                  && s[k] == Segment(segs[k].addr, need, false) && k + 1 < |s|
                  && s[k + 1] == Segment(segs[k].addr + need, segs[k].size - need, true) && s[k + 2..] == segs[k + 1..])
  {
  }

  lemma PlacedOk(segs: seq<Segment>, from: nat, k: nat, need: nat)
    requires Chained(segs, from) && NoAdjacentHoles(segs)
    requires k < |segs| && segs[k].hole && OVERHEAD <= need <= segs[k].size
    ensures var s := Placed(segs, k, need);
            Chained(s, from) && EndOf(s, from) == EndOf(segs, from) && NoAdjacentHoles(s)
  {
    var mid := Halves(segs[k], need);
    HalvesChain(segs[k], need);
    ReplacedChain(segs, from, k, k + 1, mid);
    var s := Placed(segs, k, need);
    forall i, j | 0 <= i < |s| && 0 <= j < |s| && j == i + 1 ensures !(s[i].hole && s[j].hole) {
      assert i < k ==> s[i] == segs[i];
      assert k <= i < k + |mid| ==> s[i] == mid[i - k];
      assert k + |mid| <= i ==> s[i] == segs[i - |mid| + 1];
      assert k + |mid| <= j ==> s[j] == segs[j - |mid| + 1];
      assert j == k ==> s[j] == mid[0];
    }
  }

  lemma HalvesChain(s: Segment, need: nat)
    requires OVERHEAD <= need <= s.size
    ensures Chained(Halves(s, need), s.addr) && EndOf(Halves(s, need), s.addr) == s.addr + s.size
  {
    var mid := Halves(s, need);
    if TakenSize(s.size, need) < s.size {
      assert mid[1..] == [mid[1]] && mid[1..][1..] == [];
      assert Chained(mid[1..], s.addr + need) && EndOf(mid[1..], s.addr + need) == s.addr + s.size;
    } else {
      assert mid[1..] == [];
    }
  }

  /** Allocating uses up hole k; what is split off is a new one. */
  lemma PlacedHoles(segs: seq<Segment>, from: nat, k: nat, need: nat, a: nat)
    requires Chained(segs, from) && k < |segs| && segs[k].hole && OVERHEAD <= need <= segs[k].size
    ensures IsHole(Placed(segs, k, need), a)
            <==> (IsHole(segs, a) && a != segs[k].addr)
                 || (|Halves(segs[k], need)| == 2 && a == segs[k].addr + TakenSize(segs[k].size, need))
  {
    var mid := Halves(segs[k], need);
    ReplacedHoles(segs, k, k + 1, mid, a);
    HolesAround(segs, from, k, k + 1, a);
    assert |mid| == 2 ==> mid[1].hole && mid[1].addr == segs[k].addr + TakenSize(segs[k].size, need);
  }

  /** Which segments freeing number k unites: it, and the holes beside it. */
  function LeftEnd(segs: seq<Segment>, k: nat): nat
    requires k < |segs|
  {
    if 0 < k && segs[k - 1].hole then k - 1 else k
  }

  function RightEnd(segs: seq<Segment>, k: nat): nat
    requires k < |segs|
  {
    if k + 1 < |segs| && segs[k + 1].hole then k + 1 else k
  }

  function United(segs: seq<Segment>, k: nat): Segment
    requires k < |segs|
  {
    var lo, hi := LeftEnd(segs, k), RightEnd(segs, k);
    Segment(segs[lo].addr,
            (if lo < k then segs[lo].size else 0) + segs[k].size + (if k < hi then segs[hi].size else 0), true)
  }

  /** Freeing segment k. */
  function Coalesced(segs: seq<Segment>, k: nat): seq<Segment>
    requires k < |segs|
  {
    Replaced(segs, LeftEnd(segs, k), RightEnd(segs, k) + 1, [United(segs, k)])
  }

  lemma UnitedRange(segs: seq<Segment>, from: nat, k: nat)
    requires Chained(segs, from) && k < |segs|
    ensures var lo, hi := LeftEnd(segs, k), RightEnd(segs, k);
            && United(segs, k).addr + United(segs, k).size == segs[hi].addr + segs[hi].size
            && (lo < k ==> segs[lo].addr + segs[lo].size == segs[k].addr)
            && (k < hi ==> segs[k].addr + segs[k].size == segs[hi].addr)
            && OVERHEAD <= United(segs, k).size
  {
    var lo, hi := LeftEnd(segs, k), RightEnd(segs, k);
    ChainRange(segs, from, k);
    if lo < k {
      Neighbours(segs, from, lo);
    }
    if k < hi {
      Neighbours(segs, from, k);
    }
  }

  lemma Neighbours(segs: seq<Segment>, from: nat, i: nat)
    requires Chained(segs, from) && i + 1 < |segs|
    ensures segs[i + 1].addr == segs[i].addr + segs[i].size
  {
    ChainSplit(segs, from, i);
  }

  lemma CoalescedOk(segs: seq<Segment>, from: nat, k: nat)
    requires Chained(segs, from) && NoAdjacentHoles(segs) && k < |segs| && !segs[k].hole
    ensures var s := Coalesced(segs, k);
            Chained(s, from) && EndOf(s, from) == EndOf(segs, from) && NoAdjacentHoles(s)
  {
    var lo, hi, mid := LeftEnd(segs, k), RightEnd(segs, k), [United(segs, k)];
    UnitedRange(segs, from, k);
    assert mid[1..] == [];
    ReplacedChain(segs, from, lo, hi + 1, mid);
    CoalescedApart(segs, k);
  }

  lemma CoalescedApart(segs: seq<Segment>, k: nat)
    requires NoAdjacentHoles(segs) && k < |segs| && !segs[k].hole
    ensures NoAdjacentHoles(Coalesced(segs, k))
  {
    var s, lo, hi := Coalesced(segs, k), LeftEnd(segs, k), RightEnd(segs, k);
    forall i, j | 0 <= i < |s| && 0 <= j < |s| && j == i + 1 ensures !(s[i].hole && s[j].hole) {
      assert i < lo ==> s[i] == segs[i];
      assert lo < j ==> s[j] == segs[j + (hi - lo)];
      assert lo < i ==> s[i] == segs[i + (hi - lo)];
    }
  }

  /** Freeing makes one hole of the segment and the holes beside it. */
  lemma CoalescedHoles(segs: seq<Segment>, from: nat, k: nat, a: nat)
    requires Chained(segs, from) && k < |segs| && !segs[k].hole
    ensures var lo, hi := LeftEnd(segs, k), RightEnd(segs, k);
            IsHole(Coalesced(segs, k), a)
            <==> (IsHole(segs, a) && !(k < hi && a == segs[hi].addr)) || (lo == k && a == segs[k].addr)
  {
    var lo, hi := LeftEnd(segs, k), RightEnd(segs, k);
    ReplacedHoles(segs, lo, hi + 1, [United(segs, k)], a);
    HolesAround(segs, from, lo, hi + 1, a);
    assert IsHole([United(segs, k)], a) <==> a == segs[lo].addr by {
      assert [United(segs, k)][0].hole;
    }
    if lo < hi {
      ChainRange(segs, from, lo);
      Disjoint(segs, from, lo, hi);
    }
    if segs[k].addr == a && IsHole(segs, a) {
      var i :| 0 <= i < |segs| && segs[i].hole && segs[i].addr == a;
      SameAddress(segs, from, i, k);
    }
    assert lo < k ==> IsHole(segs, segs[lo].addr);
  }

  /** Freeing what was just allocated gives back the very same segments. */
  lemma FreeUndoesAlloc(segs: seq<Segment>, from: nat, k: nat, need: nat)
    requires Chained(segs, from) && NoAdjacentHoles(segs)
    requires k < |segs| && segs[k].hole && OVERHEAD <= need <= segs[k].size
    ensures k < |Placed(segs, k, need)| && !Placed(segs, k, need)[k].hole
    ensures Coalesced(Placed(segs, k, need), k) == segs
  {
    var s, mid := Placed(segs, k, need), Halves(segs[k], need);
    assert s[k] == mid[0];
    assert 0 < k ==> s[k - 1] == segs[k - 1];
    assert LeftEnd(s, k) == k;
    if |mid| == 2 {
      assert s[k + 1] == mid[1];
      assert s[k + 2..] == segs[k + 1..];
    } else {
      assert k + 1 < |s| ==> s[k + 1] == segs[k + 1];
      assert s[k + 1..] == segs[k + 1..];
    }
    assert s[..k] == segs[..k];
    assert United(s, k) == segs[k];
    assert segs[..k] + [segs[k]] + segs[k + 1..] == segs;
  }

  /** Expanding a heap that ends at end by grow bytes: a hole at the end becomes longer; a heap without
      holes gets a new one. */
  function Expanded(segs: seq<Segment>, end: nat, grow: nat): seq<Segment> {
    if segs != [] && segs[|segs| - 1].hole then
      var last := segs[|segs| - 1];
      segs[..|segs| - 1] + [last.(size := last.size + grow)]
    else segs + [Segment(end, grow, true)]
  }

  lemma ExpandedOk(segs: seq<Segment>, from: nat, grow: nat)
    requires Chained(segs, from) && NoAdjacentHoles(segs) && OVERHEAD <= grow
    ensures var s := Expanded(segs, EndOf(segs, from), grow);
            Chained(s, from) && EndOf(s, from) == EndOf(segs, from) + grow && NoAdjacentHoles(s)
  {
    var end := EndOf(segs, from);
    if segs != [] && segs[|segs| - 1].hole {
      var n := |segs| - 1;
      var longer := segs[n].(size := segs[n].size + grow);
      ChainSplit(segs, from, n);
      assert [longer][1..] == [] && segs[n..][1..] == [];
      ChainConcat(segs[..n], [longer], from);
    } else {
      assert [Segment(end, grow, true)][1..] == [];
      ChainConcat(segs, [Segment(end, grow, true)], from);
    }
  }

  /** Expanding makes a hole only of a heap that does not end with one. */
  lemma ExpandedHoles(segs: seq<Segment>, end: nat, grow: nat, a: nat)
    ensures IsHole(Expanded(segs, end, grow), a)
            <==> IsHole(segs, a) || (a == end && !(segs != [] && segs[|segs| - 1].hole))
  {
    var s, n := Expanded(segs, end, grow), |segs| - 1;
    if segs != [] && segs[n].hole {
      assert forall i | 0 <= i < |segs| :: s[i].hole == segs[i].hole && s[i].addr == segs[i].addr;
    } else {
      assert forall i | 0 <= i < |segs| :: s[i] == segs[i];
      assert s[|segs|] == Segment(end, grow, true);
    }
  }

  /** heap.c:126-155 makes the hole with the highest address longer, wherever it is. That leaves the heap
      tiled exactly when it is the last segment. */
  lemma ExpandsRightHole(segs: seq<Segment>, from: nat, j: nat, grow: nat)
    requires Chained(segs, from) && j < |segs| && 0 < grow
    ensures var s := segs[j := segs[j].(size := segs[j].size + grow)];
            Chained(s, from) && EndOf(s, from) == EndOf(segs, from) + grow <==> j == |segs| - 1
  {
    var longer := segs[j].(size := segs[j].size + grow);
    var s := segs[j := longer];
    ChainSplit(segs, from, j);
    ChainRange(segs, from, j);
    ChainConcat(segs[..j], [longer] + segs[j + 1..], from);
    assert segs[..j] + ([longer] + segs[j + 1..]) == s;
    ChainConcat([longer], segs[j + 1..], segs[j].addr);
    assert [longer][1..] == [];
    if j < |segs| - 1 {
      assert segs[j + 1..][0] == segs[j + 1];
      Neighbours(segs, from, j);
    }
  }
}
