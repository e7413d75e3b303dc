/** The index of the holes of a heap as a sequence of addresses, kept in the order of the sizes in the headers there
    (src/kernel/misc/ordered_array.c with the comparison of src/kernel/mem/heap.c). */
module HoleIndex {
  import opened Bytes
  import opened Segments

  /** el put in at place i of the index. */
  function IndexWith(index: seq<nat>, i: nat, el: nat): seq<nat>
    requires i <= |index|
  {
    index[..i] + [el] + index[i..]
  }

  function IndexWithout(index: seq<nat>, i: nat): seq<nat>
    requires i < |index|
  {
    index[..i] + index[i + 1..]
  }

  lemma IndexInserted(index: seq<nat>, i: nat, el: nat)
    requires i <= |index|
    ensures forall a: nat :: a in IndexWith(index, i, el) <==> a == el || a in index
    ensures el !in index && (forall j, k | 0 <= j < k < |index| :: index[j] != index[k]) ==>
              var r := IndexWith(index, i, el); forall j, k | 0 <= j < k < |r| :: r[j] != r[k]
  {
    assert index[..i] + index[i..] == index;
    var r := IndexWith(index, i, el);
    assert forall j | 0 <= j < |r| :: r[j] == if j < i then index[j] else if j == i then el else index[j - 1];
  }

  lemma IndexRemoved(index: seq<nat>, i: nat)
    requires i < |index| && forall j, k | 0 <= j < k < |index| :: index[j] != index[k]
    ensures forall a: nat :: a in IndexWithout(index, i) <==> a != index[i] && a in index
    ensures var r := IndexWithout(index, i); forall j, k | 0 <= j < k < |r| :: r[j] != r[k]
  {
    var r := IndexWithout(index, i);
    assert forall j | 0 <= j < |r| :: r[j] == if j < i then index[j] else index[j + 1];
    forall a: nat | a in index && a != index[i] ensures a in r {
      var j :| 0 <= j < |index| && index[j] == a;
      assert r[if j < i then j else j - 1] == a;
    }
  }

  /** The size in the header at a. */
  function SizeAt(mem: seq<Byte>, a: nat): nat {
    if a + HEADER <= |mem| then WordAt(mem, a + 8) else 0
  }

  /** What an ordered array keeps: sizes do not fall from one place to a later one. */
  ghost predicate Ordered(mem: seq<Byte>, index: seq<nat>) {
    forall i, j | 0 <= i < j < |index| :: SizeAt(mem, index[i]) <= SizeAt(mem, index[j])
  }

  /** The same without the place of x. */
  ghost predicate OrderedBut(mem: seq<Byte>, index: seq<nat>, x: nat) {
    forall i, j | 0 <= i < j < |index| && index[i] != x && index[j] != x ::
      SizeAt(mem, index[i]) <= SizeAt(mem, index[j])
  }

  /** Where an ordered array puts el: behind everything smaller that comes first. */
  ghost predicate IsPlace(mem: seq<Byte>, index: seq<nat>, i: nat, el: nat) {
    && i <= |index|
    && (forall j | 0 <= j < i :: SizeAt(mem, index[j]) < SizeAt(mem, el))
    && (i < |index| ==> SizeAt(mem, el) <= SizeAt(mem, index[i]))
  }

  lemma InsertedOrdered(mem: seq<Byte>, index: seq<nat>, i: nat, el: nat)
    requires IsPlace(mem, index, i, el)
    ensures Ordered(mem, IndexWith(index, i, el)) <==> Ordered(mem, index)
  {
    hide SizeAt;
    var r := IndexWith(index, i, el);
    assert forall j | 0 <= j < |r| :: r[j] == if j < i then index[j] else if j == i then el else index[j - 1];
    if Ordered(mem, r) {
      forall j, k | 0 <= j < k < |index| ensures SizeAt(mem, index[j]) <= SizeAt(mem, index[k]) {
        assert r[if j < i then j else j + 1] == index[j] && r[if k < i then k else k + 1] == index[k];
      }
    }
  }

  /** Where the elements of the rest were. */
  lemma RestAt(index: seq<nat>, i: nat, j: nat)
    requires i < |index| && j < |IndexWithout(index, i)|
    ensures IndexWithout(index, i)[j] == index[if j < i then j else j + 1]
  {
  }

  /** Taking out the one element that may be out of order leaves an ordered array. */
  lemma RemovedOrdered(mem: seq<Byte>, index: seq<nat>, i: nat)
    requires i < |index| && forall j, k | 0 <= j < k < |index| :: index[j] != index[k]
    ensures Ordered(mem, IndexWithout(index, i)) <==> OrderedBut(mem, index, index[i])
  {
    hide SizeAt;
    assert forall j | 0 <= j < |index| && j != i :: index[j] != index[i];
    if OrderedBut(mem, index, index[i]) {
      RestOrdered(mem, index, i);
    }
    if Ordered(mem, IndexWithout(index, i)) {
      forall j, k | 0 <= j < k < |index| && index[j] != index[i] && index[k] != index[i]
        ensures SizeAt(mem, index[j]) <= SizeAt(mem, index[k])
      {
        RestAt(index, i, if j < i then j else j - 1);
        RestAt(index, i, if k < i then k else k - 1);
      }
    }
  }

  lemma RestOrdered(mem: seq<Byte>, index: seq<nat>, i: nat)
    requires i < |index| && OrderedBut(mem, index, index[i])
    requires forall j | 0 <= j < |index| && j != i :: index[j] != index[i]
    ensures Ordered(mem, IndexWithout(index, i))
  {
    hide SizeAt, IndexWithout;
    var r := IndexWithout(index, i);
    assert |r| == |index| - 1 by {
      RestLength(index, i);
    }
    forall j, k | 0 <= j < k < |r| ensures SizeAt(mem, r[j]) <= SizeAt(mem, r[k]) {
      RestAt(index, i, j);
      RestAt(index, i, k);
    }
  }

  lemma RestLength(index: seq<nat>, i: nat)
    requires i < |index|
    ensures |IndexWithout(index, i)| == |index| - 1
  {
  }

  /** Nothing behind a, other than x, is of a smaller size than u. */
  ghost predicate NoneSmaller(mem: seq<Byte>, index: seq<nat>, a: nat, u: nat, x: nat) {
    forall i, j | 0 <= i < j < |index| && index[i] == a && index[j] != x :: u <= SizeAt(mem, index[j])
  }

  /** What is behind a when x is out is what was behind it before. */
  lemma BehindRest(mem: seq<Byte>, index: seq<nat>, r: nat, a: nat, u: nat)
    requires r < |index| && index[r] != a && forall i, j | 0 <= i < j < |index| :: index[i] != index[j]
    ensures NoneSmaller(mem, IndexWithout(index, r), a, u, index[r]) <==> NoneSmaller(mem, index, a, u, index[r])
    ensures index[r] !in IndexWithout(index, r)
  {
    hide SizeAt;
    IndexRemoved(index, r);
    var s := IndexWithout(index, r);
    assert forall j | 0 <= j < |s| :: s[j] == if j < r then index[j] else index[j + 1];
    if NoneSmaller(mem, index, a, u, index[r]) {
      forall i, j | 0 <= i < j < |s| && s[i] == a && s[j] != index[r] ensures u <= SizeAt(mem, s[j]) {
        assert index[if i < r then i else i + 1] == a && index[if j < r then j else j + 1] == s[j];
      }
    }
    if NoneSmaller(mem, s, a, u, index[r]) {
      forall i, j | 0 <= i < j < |index| && index[i] == a && index[j] != index[r] ensures u <= SizeAt(mem, index[j]) {
        assert s[if i < r then i else i - 1] == a && s[if j < r then j else j - 1] == index[j];
      }
    }
  }

  /** A header grown in place: the order holds afterwards exactly when nothing behind it in the index is smaller. */
  lemma GrownOrdered(mem: seq<Byte>, mem': seq<Byte>, index: seq<nat>, a: nat, x: nat)
    requires Ordered(mem, index) && a in index && x !in index && SizeAt(mem, a) <= SizeAt(mem', a)
    requires forall i, j | 0 <= i < j < |index| :: index[i] != index[j]
    requires forall b: nat | b in index && b != a :: SizeAt(mem', b) == SizeAt(mem, b)
    ensures Ordered(mem', index) <==> NoneSmaller(mem, index, a, SizeAt(mem', a), x)
  {
    hide SizeAt;
    var i :| 0 <= i < |index| && index[i] == a;
    assert forall j | 0 <= j < |index| && j != i :: index[j] in index && index[j] != a;
    if NoneSmaller(mem, index, a, SizeAt(mem', a), x) {
      forall j, k | 0 <= j < k < |index| ensures SizeAt(mem', index[j]) <= SizeAt(mem', index[k]) {
        assert SizeAt(mem, index[j]) <= SizeAt(mem, index[k]);
      }
    }
  }

  lemma InsertedOrderedBut(mem: seq<Byte>, index: seq<nat>, i: nat, el: nat)
    requires i <= |index| && el !in index
    ensures OrderedBut(mem, IndexWith(index, i, el), el) <==> OrderedBut(mem, index, el)
  {
    hide SizeAt;
    var r := IndexWith(index, i, el);
    assert forall j | 0 <= j < |r| :: r[j] == if j < i then index[j] else if j == i then el else index[j - 1];
    forall j, k | 0 <= j < k < |index| && OrderedBut(mem, r, el)
      ensures SizeAt(mem, index[j]) <= SizeAt(mem, index[k])
    {
      assert r[if j < i then j else j + 1] == index[j] && r[if k < i then k else k + 1] == index[k];
    }
    assert forall j | 0 <= j < |index| :: index[j] in index;
  }

  lemma OrderedFrame(mem: seq<Byte>, mem': seq<Byte>, index: seq<nat>, x: nat)
    requires forall a: nat | a in index && a != x :: SizeAt(mem', a) == SizeAt(mem, a)
    ensures OrderedBut(mem, index, x) <==> OrderedBut(mem', index, x)
    ensures x !in index ==> (Ordered(mem, index) <==> Ordered(mem', index))
  {
    hide SizeAt;
    assert forall j | 0 <= j < |index| :: index[j] in index;
  }
}
