/** Orders on the suffixes of a word, and the facts about maximal suffixes that the
    two-way search rests on (Crochemore and Perrin's critical factorization). */
module Suffixes {
  import opened Bytes

  /** The order on bytes used by one of the two maximal-suffix computations;
      `rev` selects the opposite order. */
  predicate Lt(rev: bool, a: Byte, b: Byte) {
    if rev then b < a else a < b
  }

  /** The words read from positions s and t of n agree on m letters. */
  ghost predicate Agree(n: seq<Byte>, s: nat, t: nat, m: nat) {
    && s + m <= |n|
    && t + m <= |n|
    && forall x, y | s <= x < s + m && y == x - s + t :: n[x] == n[y]
  }

  /** The suffix of n at s is smaller than the suffix at t, the decision falling after m letters. */
  ghost predicate LessAt(n: seq<Byte>, rev: bool, s: nat, t: nat, m: nat) {
    && Agree(n, s, t, m)
    && t + m < |n|
    && (s + m == |n| || Lt(rev, n[s + m], n[t + m]))
  }

  /** Lexicographic order on suffixes; a proper prefix is smaller. */
  ghost predicate Less(n: seq<Byte>, rev: bool, s: nat, t: nat) {
    exists m: nat :: LessAt(n, rev, s, t, m)
  }

  /** The suffix of n at i is the greatest of all suffixes. */
  ghost predicate MaxSuffix(n: seq<Byte>, rev: bool, i: nat) {
    && i < |n|
    && forall s: nat | s <= |n| && s != i :: Less(n, rev, s, i)
  }

  /** p is a period of the suffix of n at i. */
  ghost predicate Period(n: seq<Byte>, i: nat, p: nat) {
    && 0 < p
    && i + p <= |n|
    && forall j | i <= j < |n| - p :: n[j] == n[j + p]
  }

  ghost predicate MinPeriod(n: seq<Byte>, i: nat, p: nat) {
    && Period(n, i, p)
    && forall q: nat | Period(n, i, q) :: p <= q
  }

  lemma LessTransitive(n: seq<Byte>, rev: bool, a: nat, b: nat, c: nat)
    requires Less(n, rev, a, b) && Less(n, rev, b, c)
    ensures Less(n, rev, a, c)
  {
    var m1: nat :| LessAt(n, rev, a, b, m1);
    var m2: nat :| LessAt(n, rev, b, c, m2);
    var m := if m1 <= m2 then m1 else m2;
    assert Agree(n, a, c, m) by {
      forall x, y | a <= x < a + m && y == x - a + c ensures n[x] == n[y] {
        assert n[x] == n[x - a + b];
      }
    }
    assert LessAt(n, rev, a, c, m);
  }

  lemma LessAsymmetric(n: seq<Byte>, rev: bool, a: nat, b: nat)
    requires Less(n, rev, a, b)
    ensures !Less(n, rev, b, a)
  {
    var m1: nat :| LessAt(n, rev, a, b, m1);
    forall m2: nat ensures !LessAt(n, rev, b, a, m2) {
    }
  }

  /** Smaller in both orders leaves only one possibility: a proper prefix. */
  lemma LessBothWays(n: seq<Byte>, rev: bool, a: nat, b: nat)
    requires Less(n, rev, a, b) && Less(n, !rev, a, b)
    ensures b < a <= |n| && Agree(n, a, b, |n| - a)
  {
    var m: nat :| LessAt(n, rev, a, b, m);
    var m2: nat :| LessAt(n, !rev, a, b, m2);
  }

  /** A comparison whose first letters agree is decided behind them. */
  lemma LessBehind(n: seq<Byte>, rev: bool, a: nat, b: nat, y: nat)
    requires Less(n, rev, a, b) && Agree(n, a, b, y)
    requires a + y < |n|
    ensures Less(n, rev, a + y, b + y)
  {
    var m: nat :| LessAt(n, rev, a, b, m);
    assert y <= m;
    assert LessAt(n, rev, a + y, b + y, m - y);
  }

  /** No nonempty word ends just before the maximal suffix and also starts it: any shift s
      that fits into the part before ell meets a mismatch around the cut. */
  lemma NoSquareAtCut(n: seq<Byte>, rev: bool, ell: nat, s: nat)
    requires MaxSuffix(n, rev, ell)
    requires 0 < s <= ell
    ensures exists j :: ell - s <= j < ell && j + s < |n| && n[j] != n[j + s]
  {
    var t: nat := ell - s;
    assert Less(n, rev, t, ell);
    var m: nat :| LessAt(n, rev, t, ell, m);
    if m < s {
      var j := t + m;
      assert n[j] != n[j + s];
    } else {
      LessAsymmetric(n, rev, ell + s, ell);
      LessBehind(n, rev, t, ell, s);
      assert false;
    }
  }

  /** Where the part between the two cuts repeats at distance d, the suffix itself has period d. */
  lemma RepeatAtBothCuts(n: seq<Byte>, rev: bool, ell: nat, ell2: nat, d: nat)
    requires MaxSuffix(n, rev, ell) && MaxSuffix(n, !rev, ell2) && ell2 <= ell
    requires 0 < d <= |n| - ell
    requires forall j | ell2 <= j < ell :: n[j] == n[j + d]
    ensures Period(n, ell, d)
  {
    if ell + d < |n| {
      RepeatLess(n, !rev, ell, ell2, d);
      LessBothWays(n, rev, ell + d, ell);
    }
  }

  lemma RepeatLess(n: seq<Byte>, rev: bool, ell: nat, ell2: nat, d: nat)
    requires MaxSuffix(n, rev, ell2) && ell2 <= ell
    requires 0 < d < |n| - ell
    requires forall j | ell2 <= j < ell :: n[j] == n[j + d]
    ensures Less(n, rev, ell + d, ell)
  {
    assert Agree(n, ell2 + d, ell2, ell - ell2);
    assert Less(n, rev, ell2 + d, ell2);
    LessBehind(n, rev, ell2 + d, ell2, ell - ell2);
  }

  /** Critical factorization. Let ell start the maximal suffix for one order and ell2, not to
      the right of it, the one for the opposite order. A shift s that fits into the suffix
      and under which the letters just before ell repeat is a period of the whole word. */
  lemma CriticalShift(n: seq<Byte>, rev: bool, ell: nat, ell2: nat, s: nat)
    requires MaxSuffix(n, rev, ell) && MaxSuffix(n, !rev, ell2) && ell2 <= ell
    requires 0 < s <= |n| - ell
    requires forall j | 0 <= j < ell && ell <= j + s :: n[j] == n[j + s]
    ensures ell < s && Period(n, 0, s)
  {
    if s <= ell {
      NoSquareAtCut(n, rev, ell, s);
      assert false;
    } else {
      RepeatAtBothCuts(n, rev, ell, ell2, s);
    }
  }

  lemma PeriodMultiple(n: seq<Byte>, i: nat, p: nat, c: nat, j: nat)
    requires Period(n, i, p)
    requires i <= j && j + c * p < |n|
    ensures n[j] == n[j + c * p]
    decreases c
  {
    if c == 0 {
    } else {
      assert c * p == (c - 1) * p + p;
      assert (c - 1) * p >= 0;
      PeriodMultiple(n, i, p, c - 1, j);
      assert n[j + (c - 1) * p] == n[j + (c - 1) * p + p];
    }
  }

  /** Both orders put their maximal suffix at the same place only at the very start. */
  lemma EqualCuts(n: seq<Byte>, rev: bool, ell: nat)
    requires MaxSuffix(n, rev, ell) && MaxSuffix(n, !rev, ell)
    ensures ell == 0
  {
    if ell > 0 {
      LessBothWays(n, rev, 0, ell);
      assert false;
    }
  }

  /** A period q of the suffix under which the word between the cuts repeats is a multiple of
      the smallest period p of the suffix. */
  lemma {:induction false} PeriodDivides(n: seq<Byte>, rev: bool, ell: nat, ell2: nat, p: nat, q: nat) returns (c: nat)
    requires MaxSuffix(n, rev, ell) && MaxSuffix(n, !rev, ell2) && ell2 < ell
    requires MinPeriod(n, ell, p) && Period(n, ell, q)
    requires ell <= ell2 + q
    requires forall j | ell2 <= j < ell :: n[j] == n[j + q]
    ensures q == c * p
    decreases q
  {
    if p + (ell - ell2) <= q {
      forall j | ell2 <= j < ell ensures n[j] == n[j + (q - p)] {
        assert n[j + (q - p)] == n[j + (q - p) + p];
      }
      RepeatAtBothCuts(n, rev, ell, ell2, q - p);
      c := PeriodDivides(n, rev, ell, ell2, p, q - p);
      c := c + 1;
    } else if q == p {
      c := 1;
    } else {
      assert p <= q;
      var d := q - p;
      forall j | ell - d <= j < ell && j + d < |n| ensures n[j] == n[j + d] {
        assert n[j] == n[j + q];
        assert n[j + d] == n[j + d + p];
      }
      NoSquareAtCut(n, rev, ell, d);
      assert false;
    }
  }

  /** If the whole word has any period q > ell that fits into the maximal suffix, then it
      already has the suffix's own smallest period p: what the periodicity test of the search checks. */
  lemma PeriodReachesBack(n: seq<Byte>, rev: bool, ell: nat, ell2: nat, p: nat, q: nat)
    requires MaxSuffix(n, rev, ell) && MaxSuffix(n, !rev, ell2) && ell2 <= ell
    requires MinPeriod(n, ell, p) && Period(n, 0, q) && ell < q <= |n| - ell
    ensures p + ell <= |n|
    ensures forall j | 0 <= j < ell :: n[j] == n[j + p]
  {
    assert Period(n, ell, q);
    if ell2 == ell {
      EqualCuts(n, rev, ell);
    } else {
      var c := PeriodDivides(n, rev, ell, ell2, p, q);
      assert c > 0 by { if c == 0 { assert false; } }
      assert q == (c - 1) * p + p;
      assert (c - 1) * p >= 0;
      hide MaxSuffix, MinPeriod, Period;
      forall j | 0 <= j < ell ensures n[j] == n[j + p] {
        LetterBack(n, ell, p, q, c - 1, j);
      }
    }
  }

  /** q is c + 1 times p. */
  lemma LetterBack(n: seq<Byte>, ell: nat, p: nat, q: nat, c: nat, j: nat)
    requires Period(n, 0, q) && Period(n, ell, p) && q == c * p + p && ell < q <= |n| - ell && j < ell
    ensures j + p < |n| && n[j] == n[j + p]
  {
    assert c * p >= 0;
    assert n[j] == n[j + q];
    if ell <= j + p {
      PeriodMultiple(n, ell, p, c, j + p);
    } else {
      assert n[j + p] == n[j + p + q];
      assert n[j + q] == n[j + q + p];
    }
  }

  /** A period of the whole word that is also the smallest one of its maximal suffix
      is at least as long as the part before that suffix. */
  lemma PeriodCoversPrefix(n: seq<Byte>, rev: bool, ell: nat, p: nat)
    requires MaxSuffix(n, rev, ell) && Period(n, 0, p)
    ensures ell <= p
  {
    if p < ell {
      NoSquareAtCut(n, rev, ell, p);
      assert false;
    }
  }
}
