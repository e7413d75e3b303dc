/** memmem (src/libc/string/memmem.c). Pointers into the haystack are positions; the null
    pointer is -1. */
module Memmem {
  import opened Bytes
  import opened TwoWay

  /** Four bytes as one word, the first in the highest place. */
  function Pack(a: int, b: int, c: int, d: int): int {
    ((a * 0x100 + b) * 0x100 + c) * 0x100 + d
  }

  lemma PackInjective(a: Byte, b: Byte, c: Byte, d: Byte, a': Byte, b': Byte, c': Byte, d': Byte)
    ensures Pack(a, b, c, d) == Pack(a', b', c', d') <==> a == a' && b == b' && c == c' && d == d'
  {
    LowByte((a * 0x100 + b) * 0x100 + c, d, (a' * 0x100 + b') * 0x100 + c', d');
    LowByte(a * 0x100 + b, c, a' * 0x100 + b', c');
    LowByte(a, b, a', b');
  }

  lemma LowByte(x: int, d: Byte, x': int, d': Byte)
    ensures x * 0x100 + d == x' * 0x100 + d' <==> x == x' && d == d'
  {
  }

  /** Shifting a byte into a 32-bit window drops the first one. */
  lemma ShiftIn(a: Byte, b: Byte, c: Byte, d: Byte, e: Byte)
    ensures Pack(a, b, c, d) * 0x100 % 0x1_0000_0000 + e == Pack(b, c, d, e)
    ensures (Pack(a, b, c, 0) + e) * 0x100 % 0x1_0000_0000 == Pack(b, c, e, 0)
  {
  }

  lemma ShiftInShort(a: Byte, b: Byte, e: Byte)
    ensures Pack(0, 0, a, b) * 0x100 % 0x1_0000 + e == Pack(0, 0, b, e)
  {
  }

  /** memmem.c:4-9; the 16-bit window wraps on the shift. */
  method TwoByte(h: seq<Byte>, n: seq<Byte>) returns (r: int)
    requires |n| == 2 && 2 <= |h|
    ensures FirstOccurrence(h, n, r)
  {
    var nw, hw := Pack(0, 0, n[0], n[1]), Pack(0, 0, h[0], h[1]);
    var i, k := 2, |h| - 2;
    while k != 0
      invariant 2 <= i && 0 <= k && i + k == |h|
      invariant hw == Pack(0, 0, h[i - 2], h[i - 1])
      invariant NoneBefore(h, n, i - 2)
    {
      WindowMatches(h, n, i);
      if hw == nw {
        return i - 2;
      }
      assert hw * 0x100 % 0x1_0000 + h[i] == Pack(0, 0, h[i - 1], h[i]) by {
        ShiftInShort(h[i - 2], h[i - 1], h[i]);
      }
      hw := hw * 0x100 % 0x1_0000 + h[i];
      i := i + 1;
      k := k - 1;
    }
    WindowMatches(h, n, i);
    r := if hw == nw then i - 2 else -1;
  }

  /** memmem.c:11-17; the 32-bit window keeps its three letters in the upper bytes. */
  method ThreeByte(h: seq<Byte>, n: seq<Byte>) returns (r: int)
    requires |n| == 3 && 3 <= |h|
    ensures FirstOccurrence(h, n, r)
  {
    var nw := Pack(n[0], n[1], n[2], 0);
    var hw := Pack(h[0], h[1], h[2], 0);
    var i, k := 3, |h| - 3;
    while k != 0
      invariant 3 <= i && 0 <= k && i + k == |h|
      invariant hw == Pack(h[i - 3], h[i - 2], h[i - 1], 0)
      invariant NoneBefore(h, n, i - 3)
    {
      WindowMatches(h, n, i);
      if hw == nw {
        return i - 3;
      }
      ShiftIn(h[i - 3], h[i - 2], h[i - 1], 0, h[i]);
      hw := (hw + h[i]) * 0x100 % 0x1_0000_0000;
      i := i + 1;
      k := k - 1;
    }
    WindowMatches(h, n, i);
    r := if hw == nw then i - 3 else -1;
  }

  /** memmem.c:19-25. */
  method FourByte(h: seq<Byte>, n: seq<Byte>) returns (r: int)
    requires |n| == 4 && 4 <= |h|
    ensures FirstOccurrence(h, n, r)
  {
    var nw := Pack(n[0], n[1], n[2], n[3]);
    var hw := Pack(h[0], h[1], h[2], h[3]);
    var i, k := 4, |h| - 4;
    while k != 0
      invariant 4 <= i && 0 <= k && i + k == |h|
      invariant hw == Pack(h[i - 4], h[i - 3], h[i - 2], h[i - 1])
      invariant NoneBefore(h, n, i - 4)
    {
      WindowMatches(h, n, i);
      if hw == nw {
        return i - 4;
      }
      ShiftIn(h[i - 4], h[i - 3], h[i - 2], h[i - 1], h[i]);
      hw := hw * 0x100 % 0x1_0000_0000 + h[i];
      i := i + 1;
      k := k - 1;
    }
    WindowMatches(h, n, i);
    r := if hw == nw then i - 4 else -1;
  }

  /** Comparing windows compares letters. */
  lemma WindowMatches(h: seq<Byte>, n: seq<Byte>, i: int)
    requires 2 <= |n| <= 4 && |n| <= i <= |h|
    ensures |n| == 2 ==> (Occurs(h, n, i - 2) <==> Pack(0, 0, h[i - 2], h[i - 1]) == Pack(0, 0, n[0], n[1]))
    ensures |n| == 3 ==> (Occurs(h, n, i - 3) <==> Pack(h[i - 3], h[i - 2], h[i - 1], 0) == Pack(n[0], n[1], n[2], 0))
    ensures |n| == 4 ==>
              (Occurs(h, n, i - 4)
               <==> Pack(h[i - 4], h[i - 3], h[i - 2], h[i - 1]) == Pack(n[0], n[1], n[2], n[3]))
  {
    var w := h[i - |n|..i];
    if |n| == 2 {
      PackInjective(0, 0, h[i - 2], h[i - 1], 0, 0, n[0], n[1]);
      assert w == [h[i - 2], h[i - 1]] && n == [n[0], n[1]];
    } else if |n| == 3 {
      PackInjective(h[i - 3], h[i - 2], h[i - 1], 0, n[0], n[1], n[2], 0);
      assert w == [h[i - 3], h[i - 2], h[i - 1]] && n == [n[0], n[1], n[2]];
    } else {
      PackInjective(h[i - 4], h[i - 3], h[i - 2], h[i - 1], n[0], n[1], n[2], n[3]);
      assert w == [h[i - 4], h[i - 3], h[i - 2], h[i - 1]] && n == [n[0], n[1], n[2], n[3]];
    }
  }

  /** memmem.c:38-40: which byte values the needle has, and one past the last place of each. */
  method FillTables(n: seq<Byte>) returns (byteset: array<bool>, shift: array<int>)
    ensures LastPositions(n, byteset[..], shift[..])
  {
    byteset := new bool[256](_ => false);
    shift := new int[256];
    for i := 0 to |n|
      invariant LastPositions(n[..i], byteset[..], shift[..])
    {
      byteset[n[i]] := true;
      shift[n[i]] := i + 1;
      assert n[..i + 1] == n[..i] + [n[i]];
    }
    assert n[..|n|] == n;
  }

  /** memmem.c:33-122. */
  method TwoWayMemmem(hay: seq<Byte>, n: seq<Byte>) returns (r: int)
    requires 0 < |n|
    ensures FirstOccurrence(hay, n, r)
  {
    var byteset, shift := FillTables(n);
    var ms, p, mem0 := Factorize(n);
    r := SearchLoop(hay, n, byteset, shift, ms, p, mem0);
  }

  /** memmem.c:87-121. */
  method SearchLoop(hay: seq<Byte>, n: seq<Byte>, byteset: array<bool>, shift: array<int>, ms: int, p: int, mem0: int)
    returns (r: int)
    requires -1 <= ms < |n| - 1 && CutAt(n, ms + 1) && SafePeriod(n, ms + 1, p, mem0)
    requires LastPositions(n, byteset[..], shift[..])
    ensures FirstOccurrence(hay, n, r)
  {
    var l, mem, h, z := |n|, 0, 0, |hay|;
    while true
      invariant Searching(hay, n, p, h, mem, mem0) && h <= z
      decreases z - h
    {
      if z - h < l {
        return -1;
      }
      var k := LastByteShift(hay[h + l - 1], byteset, shift, l, mem);
      if k != 0 {
        LastByteMove(hay, n, byteset[..], shift[..], p, h, mem, mem0, k);
        h := h + k;
        mem := 0;
        continue;
      }
      k := if ms + 1 > mem then ms + 1 else mem;
      while k < l && n[k] == hay[h + k]
        invariant ms + 1 <= k <= l && mem <= k
        invariant forall j | ms + 1 <= j < k :: n[j] == hay[h + j]
      {
        k := k + 1;
      }
      if k < l {
        RightMove(hay, n, ms + 1, p, h, mem, mem0, k);
        h := h + (k - ms);
        mem := 0;
        continue;
      }
      k := ms + 1;
      while k > mem && n[k - 1] == hay[h + k - 1]
        invariant 0 <= k <= ms + 1
        invariant forall j | k <= j < l :: n[j] == hay[h + j]
      {
        k := k - 1;
      }
      if k <= mem {
        FoundHere(hay, n, h);
        return h;
      }
      PeriodMove(hay, n, ms + 1, p, h, mem, mem0, k - 1);
      h := h + p;
      mem := mem0;
    }
  }

  /** memchr: the position of the first byte c, or -1. */
  method Memchr(s: seq<Byte>, c: Byte) returns (r: int)
    ensures -1 <= r < |s|
    ensures r == -1 ==> c !in s
    ensures r != -1 ==> s[r] == c && c !in s[..r]
  {
    var i := 0;
    while i < |s| && s[i] != c
      invariant 0 <= i <= |s| && c !in s[..i]
    {
      i := i + 1;
    }
    r := if i < |s| then i else -1;
  }

  /** Dropping a prefix in which the needle's first letter does not stand keeps the search result. */
  lemma SkipPrefix(h0: seq<Byte>, n: seq<Byte>, d: nat, r: int)
    requires 0 < |n| && d <= |h0| && n[0] !in h0[..d]
    requires FirstOccurrence(h0[d..], n, r)
    ensures FirstOccurrence(h0, n, if r == -1 then -1 else d + r)
  {
    forall i ensures Occurs(h0, n, i) <==> Occurs(h0[d..], n, i - d) {
      if Occurs(h0, n, i) {
        LetterOf(h0, n, i, 0);
        assert forall j | 0 <= j < d :: h0[..d][j] == h0[j];
        assert h0[d..][i - d..i - d + |n|] == h0[i..i + |n|];
      }
      if Occurs(h0[d..], n, i - d) {
        assert h0[d..][i - d..i - d + |n|] == h0[i..i + |n|];
      }
    }
  }

  /** memmem.c:124-143: for every haystack and needle, the first occurrence, or null when there is none. */
  method Memmem(h0: seq<Byte>, n: seq<Byte>) returns (r: int)
    ensures FirstOccurrence(h0, n, r)
  {
    var l := |n|;
    if l == 0 {
      assert Occurs(h0, n, 0);
      return 0;
    }
    if |h0| < l {
      return -1;
    }
    var d := Memchr(h0, n[0]);
    if d == -1 {
      forall i ensures !Occurs(h0, n, i) {
        if Occurs(h0, n, i) {
          LetterOf(h0, n, i, 0);
        }
      }
      return -1;
    }
    var h := h0[d..];
    if l == 1 {
      assert FirstOccurrence(h, n, 0) by { assert h[0..1] == n; }
      r := 0;
    } else if |h| < l {
      r := -1;
    } else if l == 2 {
      r := TwoByte(h, n);
    } else if l == 3 {
      r := ThreeByte(h, n);
    } else if l == 4 {
      r := FourByte(h, n);
    } else {
      r := TwoWayMemmem(h, n);
    }
    SkipPrefix(h0, n, d, r);
    r := if r == -1 then -1 else d + r;
  }
}
