/** The maximal-suffix computation at the head of the two-way searches (memmem.c, strstr.c). */
module MaximalSuffixes {
  import opened Bytes
  import opened Suffixes

  /** Within n[..e] the word at t drops below the word at i at some letter. */
  ghost predicate Below(n: seq<Byte>, rev: bool, t: nat, i: nat, e: nat) {
    e <= |n| && i <= t && exists m: nat :: BelowAt(n, rev, t, i, e, m)
  }

  ghost predicate BelowAt(n: seq<Byte>, rev: bool, t: nat, i: nat, e: nat, m: nat)
    requires e <= |n| && i <= t
  {
    t + m < e && Agree(n, t, i, m) && Lt(rev, n[t + m], n[i + m])
  }

  /** The state of the scan: the letters [i, e) have been read, i starts the greatest suffix of
      n[..e], that suffix repeats a word of length p, and the word is greater than its own suffixes. */
  ghost predicate Scanned(n: seq<Byte>, rev: bool, i: nat, e: nat, p: nat) {
    && i + p <= e <= |n|
    && 0 < p
    && (forall t: nat | t < i :: Less(n, rev, t, i))
    && Repeats(n, i, e, p)
    && Unbordered(n, rev, i, i + p)
    && (forall t: nat | i < t < e :: Agree(n, t, i, e - t) || Below(n, rev, t, i, e))
  }

  ghost predicate Repeats(n: seq<Byte>, i: nat, e: nat, p: nat)
    requires e <= |n|
  {
    forall x, y | i <= x && y == x + p && y < e :: n[x] == n[y]
  }

  /** Each proper suffix of n[i..q] drops below n[i..q] inside it. */
  ghost predicate Unbordered(n: seq<Byte>, rev: bool, i: nat, q: nat) {
    forall t: nat | i < t < q :: Below(n, rev, t, i, q)
  }

  /** g is a multiple of p. */
  ghost predicate Multiple(g: nat, p: nat)
    requires 0 < p
  {
    g == 0 || (p <= g && Multiple(g - p, p))
  }

  /** Two grid distances differ by a grid distance, at least p when they differ. */
  lemma MultipleDifference(a: nat, g: nat, p: nat)
    requires 0 < p && Multiple(a, p) && Multiple(g, p) && a <= g
    ensures Multiple(g - a, p)
    ensures a < g ==> a + p <= g
    decreases a
  {
    if a > 0 {
      MultipleDifference(a - p, g - p, p);
    }
  }

  lemma {:induction false} RepeatIn(n: seq<Byte>, i: nat, e: nat, p: nat, g: nat, j: nat)
    requires 0 < p && e <= |n| && Multiple(g, p)
    requires Repeats(n, i, e, p)
    requires i <= j && j + g < e
    ensures n[j] == n[j + g]
    decreases g
  {
    if g > 0 {
      RepeatIn(n, i, e, p, g - p, j);
      assert n[j + (g - p)] == n[j + (g - p) + p];
    }
  }

  /** Splits a position of the scanned suffix into whole repetitions and a rest. */
  lemma {:induction false} SplitPosition(i: nat, p: nat, t: nat) returns (a: nat, b: nat)
    requires 0 < p && i <= t
    ensures t == i + a + b && b < p && Multiple(a, p)
    decreases t
  {
    if t < i + p {
      a, b := 0, t - i;
    } else {
      a, b := SplitPosition(i, p, t - p);
      a := a + p;
    }
  }

  /** A word inside the scanned suffix that starts off the grid of repetitions drops below the
      suffix before the next grid point. */
  lemma OffGridBelow(n: seq<Byte>, rev: bool, i: nat, e: nat, p: nat, a: nat, b: nat)
    requires Scanned(n, rev, i, e, p)
    requires Multiple(a, p) && 0 < b < p
    requires i + a + p <= e
    ensures !Agree(n, i + a + b, i, e - (i + a + b))
    ensures Below(n, rev, i + a + b, i, e)
  {
    hide Agree, Lt, Less, Repeats, BelowAt, Multiple;
    var t, s := i + a + b, i + b;
    assert Below(n, rev, s, i, i + p);
    var m: nat :| BelowAt(n, rev, s, i, i + p, m);
    BelowOnGrid(n, rev, i, e, p, a, b, m);
    BelowDiffers(n, rev, t, i, e, m);
  }

  lemma BelowOnGrid(n: seq<Byte>, rev: bool, i: nat, e: nat, p: nat, a: nat, b: nat, m: nat)
    requires 0 < p && i + a + p <= e <= |n| && Repeats(n, i, e, p) && Multiple(a, p)
    requires BelowAt(n, rev, i + b, i, i + p, m)
    ensures BelowAt(n, rev, i + a + b, i, e, m)
  {
    hide Agree, Repeats, Multiple;
    AgreeOnGrid(n, i, e, p, a, b, m);
  }

  lemma BelowDiffers(n: seq<Byte>, rev: bool, t: nat, i: nat, e: nat, m: nat)
    requires i <= t && e <= |n| && BelowAt(n, rev, t, i, e, m)
    ensures t <= e && !Agree(n, t, i, e - t)
  {
    assert n[t + m] != n[i + m];
  }

  lemma AgreeOnGrid(n: seq<Byte>, i: nat, e: nat, p: nat, a: nat, b: nat, m: nat)
    requires 0 < p && e <= |n| && Repeats(n, i, e, p) && Multiple(a, p)
    requires i + a + b + m < e && Agree(n, i + b, i, m)
    ensures Agree(n, i + a + b, i, m) && n[i + a + b + m] == n[i + b + m]
  {
    forall j | i + b <= j <= i + b + m ensures n[j] == n[j + a] {
      RepeatIn(n, i, e, p, a, j);
    }
    forall x, y | i + a + b <= x < i + a + b + m && y == x - (i + a + b) + i ensures n[x] == n[y] {
      assert n[x - a] == n[x - a + a];
      assert n[x - a] == n[y];
    }
  }

  /** The letter the scan expects next is at most the letter that follows any border. */
  lemma BorderLetter(n: seq<Byte>, rev: bool, i: nat, e: nat, p: nat, g: nat, k: nat, t: nat)
    requires Scanned(n, rev, i, e, p)
    requires Multiple(g, p) && p <= g && 1 <= k <= p && e == i + g + (k - 1)
    requires i < t <= e && Agree(n, t, i, e - t)
    ensures !Lt(rev, n[i + (e - t)], n[i + k - 1])
  {
    if t < i + g {
      var a, b := SplitPosition(i, p, t);
      MultipleDifference(a, g, p);
      if b == 0 {
        MultipleDifference(0, a, p);
        RepeatIn(n, i, e, p, g - a, i + k - 1);
      } else {
        OffGridBelow(n, rev, i, e, p, a, b);
        assert false;
      }
    } else if i + g < t {
      BorderPastGrid(n, rev, i, e, p, g, k, t);
    }
  }

  lemma BorderPastGrid(n: seq<Byte>, rev: bool, i: nat, e: nat, p: nat, g: nat, k: nat, t: nat)
    requires Scanned(n, rev, i, e, p)
    requires Multiple(g, p) && p <= g && 1 <= k <= p && e == i + g + (k - 1)
    requires i + g < t <= e && Agree(n, t, i, e - t)
    ensures !Lt(rev, n[i + (e - t)], n[i + k - 1])
  {
    var s: nat := t - g;
    var r := e - t;
    assert Agree(n, s, i, r) by {
      forall x, y | s <= x < s + r && y == x - s + i ensures n[x] == n[y] {
        RepeatIn(n, i, e, p, g, x);
        assert n[x + g] == n[y];
      }
    }
    if Below(n, rev, s, i, e) {
      var x: nat :| BelowAt(n, rev, s, i, e, x);
      assert r <= x;
    } else {
      assert Agree(n, s, i, e - s);
      assert n[s + r] == n[i + r];
    }
  }

  /** One more letter, not above the expected one: i still starts the greatest suffix; when the
      letter is strictly below, every later word drops strictly below. */
  lemma ExtendScan(n: seq<Byte>, rev: bool, i: nat, e: nat, p: nat, g: nat, k: nat, t: nat)
    requires Scanned(n, rev, i, e, p) && e < |n|
    requires Multiple(g, p) && p <= g && 1 <= k <= p && e == i + g + (k - 1)
    requires i < t <= e
    requires !Lt(rev, n[i + k - 1], n[e])
    ensures Agree(n, t, i, e + 1 - t) || Below(n, rev, t, i, e + 1)
    ensures n[e] != n[i + k - 1] ==> Below(n, rev, t, i, e + 1)
  {
    if Agree(n, t, i, e - t) {
      BorderLetter(n, rev, i, e, p, g, k, t);
      if n[e] != n[i + (e - t)] {
        assert BelowAt(n, rev, t, i, e + 1, e - t);
      }
    } else {
      assert Below(n, rev, t, i, e);
      var x: nat :| BelowAt(n, rev, t, i, e, x);
      assert BelowAt(n, rev, t, i, e + 1, x);
    }
  }

  lemma EqualLetter(n: seq<Byte>, rev: bool, i: nat, e: nat, p: nat, g: nat, k: nat)
    requires Scanned(n, rev, i, e, p) && e < |n|
    requires Multiple(g, p) && p <= g && 1 <= k <= p && e == i + g + (k - 1)
    requires n[i + k - 1] == n[e]
    ensures Scanned(n, rev, i, e + 1, p)
  {
    var e' := e + 1;
    forall t: nat | i < t < e' ensures Agree(n, t, i, e' - t) || Below(n, rev, t, i, e') {
      ExtendScan(n, rev, i, e, p, g, k, t);
    }
    RepeatIn(n, i, e, p, g - p, i + k - 1);
  }

  lemma SmallerLetter(n: seq<Byte>, rev: bool, i: nat, e: nat, p: nat, g: nat, k: nat)
    requires Scanned(n, rev, i, e, p) && e < |n|
    requires Multiple(g, p) && p <= g && 1 <= k <= p && e == i + g + (k - 1)
    requires Lt(rev, n[e], n[i + k - 1])
    ensures Scanned(n, rev, i, e + 1, e + 1 - i)
  {
    var e' := e + 1;
    forall t: nat | i < t < e' ensures Below(n, rev, t, i, e') {
      ExtendScan(n, rev, i, e, p, g, k, t);
    }
  }

  lemma GridAgree(n: seq<Byte>, i: nat, e: nat, p: nat, g: nat, k: nat, a: nat)
    requires 0 < p && e < |n| && Repeats(n, i, e, p)
    requires Multiple(g, p) && 1 <= k <= p && e == i + g + (k - 1)
    requires Multiple(a, p) && a < g
    ensures Agree(n, i + a, i + g, k - 1)
    ensures i + a + k <= e && n[i + a + (k - 1)] == n[i + k - 1]
  {
    MultipleDifference(a, g, p);
    var s, t := i + a, i + g;
    forall x, y | s <= x < s + (k - 1) && y == x - s + t ensures n[x] == n[y] {
      RepeatIn(n, i, e, p, g - a, x);
    }
    RepeatIn(n, i, e, p, a, i + k - 1);
  }

  /** A greater letter makes the last repetition beat each earlier one. */
  lemma GridLess(n: seq<Byte>, rev: bool, i: nat, e: nat, p: nat, g: nat, k: nat, a: nat)
    requires Scanned(n, rev, i, e, p) && e < |n|
    requires Multiple(g, p) && p <= g && 1 <= k <= p && e == i + g + (k - 1)
    requires Lt(rev, n[i + k - 1], n[e])
    requires Multiple(a, p) && a < g
    ensures Less(n, rev, i + a, i + g)
  {
    GridAgree(n, i, e, p, g, k, a);
    assert LessAt(n, rev, i + a, i + g, k - 1);
  }

  lemma OffGridLess(n: seq<Byte>, rev: bool, i: nat, e: nat, p: nat, a: nat, b: nat)
    requires Scanned(n, rev, i, e, p)
    requires Multiple(a, p) && 0 < b < p && i + a + p <= e
    ensures Less(n, rev, i + a + b, i)
  {
    OffGridBelow(n, rev, i, e, p, a, b);
    BelowIsLess(n, rev, i + a + b, i, e);
  }

  lemma InnerLess(n: seq<Byte>, rev: bool, i: nat, e: nat, p: nat, g: nat, k: nat, t: nat)
    requires Scanned(n, rev, i, e, p) && e < |n|
    requires Multiple(g, p) && p <= g && 1 <= k <= p && e == i + g + (k - 1)
    requires Lt(rev, n[i + k - 1], n[e])
    requires i <= t < i + g
    ensures Less(n, rev, t, i) || Less(n, rev, t, i + g)
  {
    var a, b := SplitPosition(i, p, t);
    MultipleDifference(a, g, p);
    if b > 0 {
      OffGridLess(n, rev, i, e, p, a, b);
    } else {
      GridLess(n, rev, i, e, p, g, k, a);
    }
  }

  lemma EarlierLess(n: seq<Byte>, rev: bool, i: nat, e: nat, p: nat, g: nat, k: nat, t: nat)
    requires Scanned(n, rev, i, e, p) && e < |n|
    requires Multiple(g, p) && p <= g && 1 <= k <= p && e == i + g + (k - 1)
    requires Lt(rev, n[i + k - 1], n[e])
    requires t < i + g
    ensures Less(n, rev, t, i + g)
  {
    hide Multiple, Agree, Repeats, Unbordered, LessAt, Less, Below, Lt;
    if i <= t {
      InnerLess(n, rev, i, e, p, g, k, t);
    }
    if Less(n, rev, t, i) {
      GridLess(n, rev, i, e, p, g, k, 0);
      LessTransitive(n, rev, t, i, i + g);
    }
  }

  /** A greater letter: the greatest suffix starts at the last repetition or later. */
  lemma GreaterLetter(n: seq<Byte>, rev: bool, i: nat, e: nat, p: nat, g: nat, k: nat)
    requires Scanned(n, rev, i, e, p) && e < |n|
    requires Multiple(g, p) && p <= g && 1 <= k <= p && e == i + g + (k - 1)
    requires Lt(rev, n[i + k - 1], n[e])
    ensures Scanned(n, rev, i + g, i + g + 1, 1)
  {
    var i' := i + g;
    forall t: nat | t < i' ensures Less(n, rev, t, i') {
      EarlierLess(n, rev, i, e, p, g, k, t);
    }
  }

  lemma BelowIsLess(n: seq<Byte>, rev: bool, t: nat, i: nat, e: nat)
    requires Below(n, rev, t, i, e)
    ensures Less(n, rev, t, i)
  {
    var x: nat :| BelowAt(n, rev, t, i, e, x);
    assert LessAt(n, rev, t, i, x);
  }

  lemma NoShorterPeriod(n: seq<Byte>, rev: bool, i: nat, p: nat, q: nat)
    requires Scanned(n, rev, i, |n|, p)
    requires 0 < q < p
    ensures !Period(n, i, q)
  {
    var t := i + q;
    assert Below(n, rev, t, i, i + p);
    var x: nat :| BelowAt(n, rev, t, i, i + p, x);
    assert n[i + x] != n[i + x + q];
  }

  lemma ScanComplete(n: seq<Byte>, rev: bool, i: nat, p: nat)
    requires Scanned(n, rev, i, |n|, p)
    ensures MaxSuffix(n, rev, i) && MinPeriod(n, i, p)
  {
    forall s: nat | s <= |n| && s != i ensures Less(n, rev, s, i) {
      if i < s {
        if Agree(n, s, i, |n| - s) {
          assert LessAt(n, rev, s, i, |n| - s);
        } else {
          BelowIsLess(n, rev, s, i, |n|);
        }
      }
    }
    forall q: nat | Period(n, i, q) ensures p <= q {
      if q < p {
        NoShorterPeriod(n, rev, i, p, q);
      }
    }
  }

  /** memmem.c:42-80 and strstr.c:41-79, once for each order: ip + 1 starts the lexicographically
      greatest suffix of n, and p is the smallest period of that suffix. */
  method MaximalSuffix(n: seq<Byte>, rev: bool) returns (ip: int, p: nat)
    requires 0 < |n|
    ensures -1 <= ip < |n| - 1
    ensures MaxSuffix(n, rev, ip + 1)
    ensures MinPeriod(n, ip + 1, p)
  {
    var l := |n|;
    var jp, k := 0, 1;
    ip, p := -1, 1;
    while jp + k < l
      invariant -1 <= ip < jp && 1 <= k <= p <= jp - ip
      invariant Multiple(jp - ip, p)
      invariant jp + k <= l
      invariant Scanned(n, rev, ip + 1, jp + k, p)
      decreases l - ip, l - (jp + k)
    {
      ghost var i: nat, e: nat := ip + 1, jp + k;
      if n[ip + k] == n[jp + k] {
        EqualLetter(n, rev, i, e, p, jp - ip, k);
        if k == p {
          jp := jp + p;
          k := 1;
        } else {
          k := k + 1;
        }
      } else if Lt(rev, n[jp + k], n[ip + k]) {
        SmallerLetter(n, rev, i, e, p, jp - ip, k);
        jp := jp + k;
        k := 1;
        p := jp - ip;
      } else {
        GreaterLetter(n, rev, i, e, p, jp - ip, k);
        ip := jp;
        jp := jp + 1;
        k, p := 1, 1;
      }
    }
    ScanComplete(n, rev, ip + 1, p);
  }
}
