/** strstr (src/libc/string/strstr.c): the two-way search over strings that end in a 0 byte, which
    learns the length of the haystack only as it goes. Pointers are positions; null is -1. */
module Strstr {
  import opened Bytes
  import opened TwoWay
  import Memmem

  /** A C string with its terminator: the last byte is the only 0. */
  type CString = s: seq<Byte> | |s| > 0 && s[|s| - 1] == 0 && (forall j | 0 <= j < |s| - 1 :: s[j] != 0)
    witness [0]

  /** The bytes of the string, without the terminator. */
  function Body(s: CString): seq<Byte> {
    s[..|s| - 1]
  }

  /** memchr(s + from, 0, limit): the terminator if it is among the next limit bytes, else -1. */
  method FindEnd(s: CString, from: nat, limit: nat) returns (r: int)
    requires from < |s|
    ensures r == (if |s| - 1 < from + limit then |s| - 1 else -1)
  {
    var i, left := from, limit;
    while left != 0 && s[i] != 0
      invariant from <= i < |s| && 0 <= left && i + left == from + limit
    {
      i := i + 1;
      left := left - 1;
    }
    r := if left != 0 then i else -1;
  }

  /** strstr.c:4-8. */
  method TwoByte(s: CString, n: CString) returns (r: int)
    requires |n| == 3 && 2 <= |s| - 1
    ensures FirstOccurrence(Body(s), Body(n), r)
  {
    var nw, hw := Memmem.Pack(0, 0, n[0], n[1]), Memmem.Pack(0, 0, s[0], s[1]);
    var h := 1;
    while s[h] != 0 && hw != nw
      invariant 1 <= h < |s|
      invariant hw == Memmem.Pack(0, 0, s[h - 1], s[h])
      invariant NoneBefore(Body(s), Body(n), h - 1)
      decreases |s| - h
    {
      Memmem.WindowMatches(Body(s), Body(n), h + 1);
      Memmem.ShiftInShort(s[h - 1], s[h], s[h + 1]);
      h := h + 1;
      hw := hw * 0x100 % 0x1_0000 + s[h];
    }
    if s[h] != 0 {
      Memmem.WindowMatches(Body(s), Body(n), h + 1);
      assert Occurs(Body(s), Body(n), h - 1);
    }
    r := if s[h] != 0 then h - 1 else -1;
  }

  /** strstr.c:10-15. */
  method ThreeByte(s: CString, n: CString) returns (r: int)
    requires |n| == 4 && 3 <= |s| - 1
    ensures FirstOccurrence(Body(s), Body(n), r)
  {
    var nw := Memmem.Pack(n[0], n[1], n[2], 0);
    var hw := Memmem.Pack(s[0], s[1], s[2], 0);
    var h := 2;
    while s[h] != 0 && hw != nw
      invariant 2 <= h < |s|
      invariant hw == Memmem.Pack(s[h - 2], s[h - 1], s[h], 0)
      invariant NoneBefore(Body(s), Body(n), h - 2)
      decreases |s| - h
    {
      Memmem.WindowMatches(Body(s), Body(n), h + 1);
      Memmem.ShiftIn(s[h - 2], s[h - 1], s[h], 0, s[h + 1]);
      h := h + 1;
      hw := (hw + s[h]) * 0x100 % 0x1_0000_0000;
    }
    if s[h] != 0 {
      Memmem.WindowMatches(Body(s), Body(n), h + 1);
      assert Occurs(Body(s), Body(n), h - 2);
    }
    r := if s[h] != 0 then h - 2 else -1;
  }

  /** strstr.c:17-22. */
  method FourByte(s: CString, n: CString) returns (r: int)
    requires |n| == 5 && 4 <= |s| - 1
    ensures FirstOccurrence(Body(s), Body(n), r)
  {
    var nw := Memmem.Pack(n[0], n[1], n[2], n[3]);
    var hw := Memmem.Pack(s[0], s[1], s[2], s[3]);
    var h := 3;
    while s[h] != 0 && hw != nw
      invariant 3 <= h < |s|
      invariant hw == Memmem.Pack(s[h - 3], s[h - 2], s[h - 1], s[h])
      invariant NoneBefore(Body(s), Body(n), h - 3)
      decreases |s| - h
    {
      Memmem.WindowMatches(Body(s), Body(n), h + 1);
      Memmem.ShiftIn(s[h - 3], s[h - 2], s[h - 1], s[h], s[h + 1]);
      h := h + 1;
      hw := hw * 0x100 % 0x1_0000_0000 + s[h];
    }
    if s[h] != 0 {
      Memmem.WindowMatches(Body(s), Body(n), h + 1);
      assert Occurs(Body(s), Body(n), h - 3);
    }
    r := if s[h] != 0 then h - 3 else -1;
  }

  /** strstr.c:36-39: the tables, filled while both strings last; l is the needle's length unless
      the haystack ended first. */
  method FillTables(s: CString, n: CString) returns (l: nat, byteset: array<bool>, shift: array<int>)
    ensures l == (if |n| <= |s| then |n| - 1 else |s| - 1)
    ensures |n| <= |s| ==> LastPositions(Body(n), byteset[..], shift[..])
  {
    byteset := new bool[256](_ => false);
    shift := new int[256];
    l := 0;
    while n[l] != 0 && s[l] != 0
      invariant l < |n| && l < |s|
      invariant LastPositions(n[..l], byteset[..], shift[..])
      decreases |n| - l
    {
      byteset[n[l]] := true;
      shift[n[l]] := l + 1;
      assert n[..l + 1] == n[..l] + [n[l]];
      l := l + 1;
    }
  }

  /** strstr.c:30-132. */
  method TwoWayStrstr(s: CString, n: CString) returns (r: int)
    requires 1 < |n|
    ensures FirstOccurrence(Body(s), Body(n), r)
  {
    var l, byteset, shift := FillTables(s, n);
    if n[l] != 0 {
      return -1;
    }
    var ms, p, mem0 := Factorize(Body(n));
    r := SearchLoop(s, n, byteset, shift, ms, p, mem0);
  }

  /** l | 63 for a nonnegative l: the low six bits set. */
  function Or63(l: nat): (r: nat)
    ensures l <= r && 63 <= r
  {
    l / 64 * 64 + 63
  }

  /** strstr.c:120: the right half from k on; the needle's terminator stops the loop. */
  method CompareRight(s: CString, n: CString, h: nat, from: nat) returns (k: nat)
    requires from <= |n| - 1 && h + |n| <= |s|
    ensures from <= k <= |n| - 1
    ensures forall j | from <= j < k :: n[j] == s[h + j]
    ensures k < |n| - 1 ==> n[k] != s[h + k]
  {
    k := from;
    while n[k] != 0 && n[k] == s[h + k]
      invariant from <= k <= |n| - 1
      invariant forall j | from <= j < k :: n[j] == s[h + j]
      decreases |n| - k
    {
      k := k + 1;
    }
  }

  /** strstr.c:127: the left half downwards, as far as the remembered prefix. */
  method CompareLeft(s: CString, n: CString, h: nat, from: nat, mem: int) returns (k: nat)
    requires from <= |n| - 1 && h + |n| <= |s| && 0 <= mem
    ensures k <= from
    ensures forall j | k <= j < from :: n[j] == s[h + j]
    ensures mem < k ==> n[k - 1] != s[h + k - 1]
  {
    k := from;
    while k > mem && n[k - 1] == s[h + k - 1]
      invariant k <= from
      invariant forall j | k <= j < from :: n[j] == s[h + j]
    {
      k := k - 1;
    }
  }

  /** strstr.c:93-102: reads on until l more bytes are known, or the terminator is found. */
  method ExtendEnd(s: CString, h: nat, z0: nat, l: nat) returns (z: nat, short: bool)
    requires h <= z0 < |s|
    ensures z0 <= z < |s|
    ensures short <==> |s| - 1 - h < l
    ensures !short ==> h + l <= z
  {
    z, short := z0, false;
    if z - h < l {
      var grow := Or63(l);
      var z2 := FindEnd(s, z, grow);
      if z2 != -1 {
        z := z2;
        short := z - h < l;
      } else {
        z := z + grow;
      }
    }
  }

  /** strstr.c:86-131. The haystack is read up to its terminator only: z never passes it. */
  method SearchLoop(s: CString, n: CString, byteset: array<bool>, shift: array<int>, ms: int, p: int, mem0: int)
    returns (r: int)
    requires 1 < |n| && -1 <= ms < |n| - 2
    requires CutAt(Body(n), ms + 1) && SafePeriod(Body(n), ms + 1, p, mem0)
    requires LastPositions(Body(n), byteset[..], shift[..])
    ensures FirstOccurrence(Body(s), Body(n), r)
  {
    ghost var hay, needle := Body(s), Body(n);
    var l, mem, h, z, short := |n| - 1, 0, 0, 0, false;
    while true
      invariant Searching(hay, needle, p, h, mem, mem0) && h <= z <= |hay|
      decreases |hay| - h
    {
      z, short := ExtendEnd(s, h, z, l);
      if short {
        return -1;
      }
      var k := LastByteShift(s[h + l - 1], byteset, shift, l, mem);
      if k != 0 {
        LastByteMove(hay, needle, byteset[..], shift[..], p, h, mem, mem0, k);
        h := h + k;
        mem := 0;
        continue;
      }
      k := CompareRight(s, n, h, if ms + 1 > mem then ms + 1 else mem);
      if n[k] != 0 {
        RightMove(hay, needle, ms + 1, p, h, mem, mem0, k);
        h := h + (k - ms);
        mem := 0;
        continue;
      }
      k := CompareLeft(s, n, h, ms + 1, mem);
      if k <= mem {
        FoundHere(hay, needle, h);
        return h;
      }
      PeriodMove(hay, needle, ms + 1, p, h, mem, mem0, k - 1);
      h := h + p;
      mem := mem0;
    }
  }

  /** strchr for a nonzero byte: its first position, or -1. */
  method Strchr(s: CString, c: Byte) returns (r: int)
    requires c != 0
    ensures -1 <= r < |s| - 1
    ensures r == -1 ==> c !in Body(s)
    ensures r != -1 ==> s[r] == c && c !in s[..r]
  {
    var i := 0;
    while s[i] != 0 && s[i] != c
      invariant 0 <= i < |s| && c !in s[..i]
      decreases |s| - i
    {
      i := i + 1;
    }
    r := if s[i] != 0 then i else -1;
  }

  /** strstr.c:134-149: for all strings, the first occurrence, or null when there is none. */
  method StrStr(s0: CString, n: CString) returns (r: int)
    ensures FirstOccurrence(Body(s0), Body(n), r)
  {
    if n[0] == 0 {
      assert Occurs(Body(s0), Body(n), 0);
      return 0;
    }
    var d := Strchr(s0, n[0]);
    if d == -1 {
      forall i ensures !Occurs(Body(s0), Body(n), i) {
        if Occurs(Body(s0), Body(n), i) {
          LetterOf(Body(s0), Body(n), i, 0);
        }
      }
      return -1;
    }
    var s: CString := s0[d..];
    assert Body(s) == Body(s0)[d..];
    assert Body(s0)[..d] == s0[..d];
    if n[1] == 0 {
      assert FirstOccurrence(Body(s), Body(n), 0) by { assert Body(s)[0..1] == Body(n); }
      r := 0;
    } else if s[1] == 0 {
      r := -1;
    } else if n[2] == 0 {
      r := TwoByte(s, n);
    } else if s[2] == 0 {
      r := -1;
    } else if n[3] == 0 {
      r := ThreeByte(s, n);
    } else if s[3] == 0 {
      r := -1;
    } else if n[4] == 0 {
      r := FourByte(s, n);
    } else {
      r := TwoWayStrstr(s, n);
    }
    Memmem.SkipPrefix(Body(s0), Body(n), d, r);
    r := if r == -1 then -1 else d + r;
  }
}
