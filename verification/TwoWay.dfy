/** What both two-way searches share: the factorization of the needle and the proof that no
    shift of the search loop skips an occurrence. */
module TwoWay {
  import opened Bytes
  import opened Suffixes
  import opened MaximalSuffixes

  /** The needle stands in the haystack at position i. */
  ghost predicate Occurs(hay: seq<Byte>, n: seq<Byte>, i: int) {
    0 <= i && i + |n| <= |hay| && hay[i..i + |n|] == n
  }

  /** No occurrence starts before position h. */
  ghost predicate NoneBefore(hay: seq<Byte>, n: seq<Byte>, h: int) {
    forall i | i < h :: !Occurs(hay, n, i)
  }

  /** r is the position of the first occurrence, or -1 (the C null pointer) when there is none. */
  ghost predicate FirstOccurrence(hay: seq<Byte>, n: seq<Byte>, r: int) {
    if r == -1 then forall i :: !Occurs(hay, n, i)
    else Occurs(hay, n, r) && NoneBefore(hay, n, r)
  }

  /** The needle is cut at ell, the start of the shorter of its two maximal suffixes. */
  ghost predicate CutAt(n: seq<Byte>, ell: nat) {
    exists rev: bool, ell2: nat :: CriticalCut(n, rev, ell, ell2)
  }

  ghost predicate CriticalCut(n: seq<Byte>, rev: bool, ell: nat, ell2: nat) {
    MaxSuffix(n, rev, ell) && MaxSuffix(n, !rev, ell2) && ell2 <= ell
  }

  /** How far the search may move after the right part matched: a period of the needle
      (remembering mem0 letters), or a distance no smaller shift can bridge. */
  ghost predicate SafePeriod(n: seq<Byte>, ell: nat, p: int, mem0: int) {
    && 0 < p <= |n|
    && (mem0 == 0 || (mem0 == |n| - p && Period(n, 0, p) && ell <= p))
    && (forall s | 0 < s < p && s <= |n| - ell :: !Period(n, 0, s))
    && p <= (if ell <= |n| - ell then |n| - ell else ell - 1) + 1
  }

  /** memmem.c:42-86: both maximal suffixes, the choice of the shorter one, and the
      periodicity test. */
  method Factorize(n: seq<Byte>) returns (ms: int, p: int, mem0: int)
    requires 0 < |n|
    ensures -1 <= ms < |n| - 1
    ensures CutAt(n, ms + 1)
    ensures SafePeriod(n, ms + 1, p, mem0)
  {
    var l := |n|;
    var ip, p0;
    ms, p0 := MaximalSuffix(n, false);
    ip, p := MaximalSuffix(n, true);
    ghost var rev, ell2: nat := false, ip + 1;
    if ip + 1 > ms + 1 {
      rev, ell2 := true, ms + 1;
      ms := ip;
    } else {
      p := p0;
    }
    ghost var ell: nat := ms + 1;
    assert CriticalCut(n, rev, ell, ell2);
    assert MinPeriod(n, ell, p);
    if n[..ms + 1] != n[p..p + (ms + 1)] {
      mem0 := 0;
      NotPeriodic(n, rev, ell, ell2, p);
      p := (if ms > l - ms - 1 then ms else l - ms - 1) + 1;
    } else {
      mem0 := l - p;
      assert Period(n, 0, p) by {
        forall j | 0 <= j < |n| - p ensures n[j] == n[j + p] {
          if j < ell {
            assert n[j] == n[..ell][j] == n[p..p + ell][j];
          }
        }
      }
      PeriodCoversPrefix(n, rev, ell, p);
      forall s: nat | 0 < s < p && s <= |n| - ell ensures !Period(n, 0, s) {
        if Period(n, 0, s) {
          assert Period(n, ell, s);
        }
      }
    }
  }

  /** When the periodicity test fails, no distance up to the length of the right part is a period. */
  lemma NotPeriodic(n: seq<Byte>, rev: bool, ell: nat, ell2: nat, p: nat)
    requires CriticalCut(n, rev, ell, ell2) && MinPeriod(n, ell, p)
    requires n[..ell] != n[p..p + ell]
    ensures 0 < ell
    ensures forall s: nat | 0 < s <= |n| - ell :: !Period(n, 0, s)
  {
    assert exists j :: 0 <= j < ell && n[..ell][j] != n[p..p + ell][j];
    var j :| 0 <= j < ell && n[j] != n[p + j];
    forall s: nat | 0 < s <= |n| - ell ensures !Period(n, 0, s) {
      if Period(n, 0, s) {
        CriticalShift(n, rev, ell, ell2, s);
        PeriodReachesBack(n, rev, ell, ell2, p, s);
        assert false;
      }
    }
  }

  lemma LetterOf(hay: seq<Byte>, n: seq<Byte>, i: int, j: int)
    requires Occurs(hay, n, i) && 0 <= j < |n|
    ensures hay[i + j] == n[j]
  {
    assert hay[i + j] == hay[i..i + |n|][j];
  }

  /** A mismatch at k in the right part: every move up to k - ell runs into it. */
  lemma RightMismatch(hay: seq<Byte>, n: seq<Byte>, ell: nat, h: nat, k: nat, s: nat)
    requires CutAt(n, ell) && h + |n| <= |hay|
    requires ell <= k < |n| && s <= k - ell
    requires forall j | ell <= j < k :: n[j] == hay[h + j]
    requires n[k] != hay[h + k]
    ensures !Occurs(hay, n, h + s)
  {
    if Occurs(hay, n, h + s) {
      LetterOf(hay, n, h + s, k - s);
      if s > 0 {
        var rev: bool, ell2: nat :| CriticalCut(n, rev, ell, ell2);
        forall j | 0 <= j < ell && ell <= j + s ensures n[j] == n[j + s] {
          LetterOf(hay, n, h + s, j);
        }
        CriticalShift(n, rev, ell, ell2, s);
      }
      assert false;
    }
  }

  /** The whole right part matched, the left part did not: every move below p fails. */
  lemma LeftMismatch(hay: seq<Byte>, n: seq<Byte>, ell: nat, p: nat, mem0: int, h: nat, s: nat)
    requires CutAt(n, ell) && SafePeriod(n, ell, p, mem0) && h + |n| <= |hay|
    requires forall j | ell <= j < |n| :: n[j] == hay[h + j]
    requires 0 < s < p
    ensures !Occurs(hay, n, h + s)
  {
    var rev: bool, ell2: nat :| CriticalCut(n, rev, ell, ell2);
    if Occurs(hay, n, h + s) {
      forall j | 0 <= j < ell && ell <= j + s < |n| ensures n[j] == n[j + s] {
        LetterOf(hay, n, h + s, j);
      }
      if s <= |n| - ell {
        CriticalShift(n, rev, ell, ell2, s);
      } else {
        NoSquareAtCut(n, rev, ell, s);
      }
      assert false;
    }
  }

  /** With mem letters remembered, a mismatch in the last letter rules out every move below mem. */
  lemma RememberedMismatch(hay: seq<Byte>, n: seq<Byte>, p: nat, h: nat, s: nat)
    requires Period(n, 0, p) && h + |n| <= |hay|
    requires forall j | 0 <= j < |n| - p :: n[j] == hay[h + j]
    requires hay[h + |n| - 1] != n[|n| - 1]
    requires s < |n| - p
    ensures !Occurs(hay, n, h + s)
  {
    var e := |n| - 1 - s;
    assert n[e - p] == n[e];
    assert n[|n| - 1 - p] == n[|n| - 1];
    if Occurs(hay, n, h + s) {
      LetterOf(hay, n, h + s, e);
      LetterOf(hay, n, h + s, e - p);
    }
  }

  /** The bad-character move: k letters back from the end of the needle, letter hay[h + l - 1] does not stand. */
  lemma BadCharacter(hay: seq<Byte>, n: seq<Byte>, h: nat, k: nat, s: nat)
    requires 0 < |n| && h + |n| <= |hay| && k <= |n|
    requires forall j | |n| - k <= j < |n| :: n[j] != hay[h + |n| - 1]
    requires s < k
    ensures !Occurs(hay, n, h + s)
  {
    if Occurs(hay, n, h + s) {
      LetterOf(hay, n, h + s, |n| - 1 - s);
    }
  }

  /** The state of the search loop: nothing occurs before h, and the remembered prefix really matches. */
  ghost predicate Searching(hay: seq<Byte>, n: seq<Byte>, p: int, h: int, mem: int, mem0: int) {
    && 0 <= h && 0 < p
    && NoneBefore(hay, n, h)
    && (mem == 0 || (mem == mem0 == |n| - p && 0 < mem && Period(n, 0, p) && h + mem <= |hay|
                     && forall j | 0 <= j < mem :: n[j] == hay[h + j]))
  }

  /** What the shift tables say about each byte value. */
  ghost predicate LastPositions(n: seq<Byte>, byteset: seq<bool>, shift: seq<int>) {
    && |byteset| == 256 && |shift| == 256
    && (forall c: Byte | !byteset[c] :: c !in n)
    && (forall c: Byte | byteset[c] ::
          && 1 <= shift[c] <= |n|
          && n[shift[c] - 1] == c
          && (forall j | shift[c] <= j < |n| :: n[j] != c))
  }

  /** memmem.c:94-107: how far the letter under the needle's end moves the window; 0 when it matches. */
  method LastByteShift(c: Byte, byteset: array<bool>, shift: array<int>, l: int, mem: int) returns (k: int)
    requires byteset.Length == 256 && shift.Length == 256
    ensures k == LastByteDistance(c, byteset[..], shift[..], l, mem)
  {
    if byteset[c] {
      k := l - shift[c];
      if k != 0 && k < mem {
        k := mem;
      }
    } else {
      k := l;
    }
  }

  ghost function LastByteDistance(c: Byte, byteset: seq<bool>, shift: seq<int>, l: int, mem: int): int
    requires |byteset| == 256 && |shift| == 256
  {
    if !byteset[c] then l
    else if l - shift[c] != 0 && l - shift[c] < mem then mem
    else l - shift[c]
  }

  /** The move decided by the letter under the needle's end skips no occurrence. */
  lemma LastByteMove(hay: seq<Byte>, n: seq<Byte>, byteset: seq<bool>, shift: seq<int>, p: int, h: int, mem: int,
                     mem0: int, k: int)
    requires 0 < |n| && LastPositions(n, byteset, shift)
    requires Searching(hay, n, p, h, mem, mem0) && h + |n| <= |hay|
    requires k == LastByteDistance(hay[h + |n| - 1], byteset, shift, |n|, mem) && k != 0
    ensures 0 < k <= |n| && Searching(hay, n, p, h + k, 0, mem0)
  {
    var c := hay[h + |n| - 1];
    forall i | i < h + k ensures !Occurs(hay, n, i) {
      if h <= i {
        var b := if byteset[c] then |n| - shift[c] else |n|;
        if i - h < b {
          BadCharacter(hay, n, h, b, i - h);
        } else {
          RememberedMismatch(hay, n, p, h, i - h);
        }
      }
    }
  }

  lemma RightMove(hay: seq<Byte>, n: seq<Byte>, ell: nat, p: int, h: int, mem: int, mem0: int, k: int)
    requires CutAt(n, ell)
    requires Searching(hay, n, p, h, mem, mem0) && h + |n| <= |hay|
    requires ell <= k < |n|
    requires forall j | ell <= j < k :: n[j] == hay[h + j]
    requires n[k] != hay[h + k]
    ensures Searching(hay, n, p, h + (k - ell + 1), 0, mem0)
  {
    forall i | i < h + (k - ell + 1) ensures !Occurs(hay, n, i) {
      if h <= i {
        RightMismatch(hay, n, ell, h, k, i - h);
      }
    }
  }

  lemma PeriodMove(hay: seq<Byte>, n: seq<Byte>, ell: nat, p: int, h: int, mem: int, mem0: int, k: int)
    requires CutAt(n, ell) && SafePeriod(n, ell, p, mem0)
    requires Searching(hay, n, p, h, mem, mem0) && h + |n| <= |hay|
    requires forall j | ell <= j < |n| :: n[j] == hay[h + j]
    requires 0 <= k < |n| && n[k] != hay[h + k]
    ensures Searching(hay, n, p, h + p, mem0, mem0)
  {
    forall i | i < h + p ensures !Occurs(hay, n, i) {
      if i == h {
        if Occurs(hay, n, h) {
          LetterOf(hay, n, h, k);
        }
      } else if h < i {
        LeftMismatch(hay, n, ell, p, mem0, h, i - h);
      }
    }
    if mem0 != 0 {
      forall j | 0 <= j < mem0 ensures n[j] == hay[h + p + j] {
        assert n[j] == n[j + p];
        assert n[j + p] == hay[h + (j + p)];
      }
    }
  }

  /** Both halves compared equal (the left one only down to the remembered prefix): an occurrence. */
  lemma FoundHere(hay: seq<Byte>, n: seq<Byte>, h: int)
    requires 0 <= h && h + |n| <= |hay|
    requires NoneBefore(hay, n, h)
    requires forall j | 0 <= j < |n| :: n[j] == hay[h + j]
    ensures FirstOccurrence(hay, n, h)
  {
    assert hay[h..h + |n|] == n;
  }
}
