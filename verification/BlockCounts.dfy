/** Block arithmetic of an ext2 inode (ext2fs.c:1017-1113): how many disk sectors n content blocks
    take with their index blocks, and back. p is the number of pointers in a block. */
module BlockCounts {

  const NDIR := 12

  /** 32-bit unsigned arithmetic: out-of-range results wrap. */
  function U32(x: int): int {
    if 0 <= x < 0x1_0000_0000 then x else x % 0x1_0000_0000
  }

  /** Block sizes from 1 KiB to 64 KiB; a block of p pointers has p / 128 sectors of 512 bytes. */
  predicate PointersPerBlock(p: int) {
    256 <= p <= 0x4000 && p % 128 == 0
  }

  function SectorsPerBlock(p: int): int
    requires PointersPerBlock(p)
  {
    p * 4 / 512
  }

  function MaxBlocks(p: int): int {
    NDIR + p + p * p + p * (p * p)
  }

  lemma ProductMonotone(a: nat, b: nat, c: nat)
    requires a <= b
    ensures a * c <= b * c
  {
  }

  lemma SquareBounds(p: int)
    requires PointersPerBlock(p)
    ensures 0x1_0000 <= p * p <= 0x1000_0000
    ensures U32(p * p) == p * p
  {
    ProductMonotone(256, p, p);
    ProductMonotone(p, 0x4000, p);
  }

  /** ext2fs.c:1041-1049. */
  function TripleCount(p: int, pp: int, a: int): int
    requires 0 < p && 0 < pp
  {
    var b := U32(a + pp - 1) / pp;
    var c := U32(1 + U32(a - 1) % pp);
    U32(1 + 1 + p + 1 + b + U32(U32(b - 1) * p) + U32(c + p - 1) / p)
  }

  /** ext2fs.c:1097-1108; m is the size of one full double-indirect tree. */
  function TripleUncount(p: int, m: int, a: int): int
    requires 0 < p && 0 < m
  {
    var full := U32((p + 1) * (a / m));
    var rest := U32(a % m - 1);
    U32(1 + 1 + p + 1 + 1 + 1 + full + rest / (p + 1))
  }

  /** ext2fs.c:1017-1054, with the machine's wrap-around. */
  function GetBlockCount(p: int, blocks: int): int
    requires PointersPerBlock(p)
  {
    U32(U32(blocks + IndexCount(p, blocks)) * SectorsPerBlock(p))
  }

  /** ext2fs.c:1022-1050. */
  function IndexCount(p: int, blocks: int): int
    requires PointersPerBlock(p)
  {
    SquareBounds(p);
    var pp := U32(p * p);
    if blocks <= NDIR then 0
    else if blocks <= U32(NDIR + p) then 1
    else if blocks <= U32(NDIR + p + pp) then
      var a := U32(blocks - NDIR - p);
      U32(1 + 1 + U32(a + p - 1) / p)
    else
      TripleCount(p, pp, U32(blocks - NDIR - p - pp))
  }

  /** ext2fs.c:1061-1113, with the machine's wrap-around. */
  function GetContentBlocks(p: int, sectors: int): int
    requires PointersPerBlock(p)
  {
    WithoutIndexBlocks(p, sectors / SectorsPerBlock(p))
  }

  /** ext2fs.c:1063-1112, after the conversion from sectors. */
  function WithoutIndexBlocks(p: int, blocks: int): int
    requires PointersPerBlock(p)
  {
    SquareBounds(p);
    var pp := U32(p * p);
    var ind :=
      if blocks <= NDIR then 0
      else if blocks <= U32(NDIR + p + 1) then 1
      else if blocks <= U32(NDIR + p + pp + 1 + 1 + p) then
        var a := U32(blocks - NDIR - p - 1 - 1 - 1);
        U32(1 + 1 + 1 + a / (p + 1))
      else
        TripleUncount(p, U32(pp + p + 1), U32(blocks - NDIR - p - pp - 1 - 1 - p - 1 - 1));
    U32(blocks - ind)
  }

  /** The index blocks that offset o is the first to need. */
  function NewIndexBlocks(p: int, o: int): nat
    requires 0 < p
  {
    if o < NDIR then 0
    else if o < NDIR + p then (if o == NDIR then 1 else 0)
    else if o < NDIR + p + p * p then
      var a := o - NDIR - p;
      if a == 0 then 2 else if a % p == 0 then 1 else 0
    else
      var a := o - NDIR - p - p * p;
      if a == 0 then 3 else if a % (p * p) == 0 then 2 else if a % (p * p) % p == 0 then 1 else 0
  }

  /** All blocks of an inode that has its first n offsets mapped: the content and the index blocks. */
  function TotalBlocks(p: int, n: int): nat
    requires 0 < p && 0 <= n
    decreases n
  {
    if n == 0 then 0 else TotalBlocks(p, n - 1) + 1 + NewIndexBlocks(p, n - 1)
  }

  /** The sector count fits the 32-bit i_blocks field. */
  ghost predicate Fits(p: int, n: int)
    requires PointersPerBlock(p)
  {
    0 <= n && TotalBlocks(p, n) * SectorsPerBlock(p) < 0x1_0000_0000
  }

  function CeilDiv(x: int, d: int): int
    requires 0 < d
  {
    (x + d - 1) / d
  }

  /** The author's closed form for the number of index blocks, over unbounded integers. */
  function ClosedIndexBlocks(p: int, n: int): int
    requires 0 < p
  {
    if n <= NDIR then 0
    else if n <= NDIR + p then 1
    else if n <= NDIR + p + p * p then 2 + CeilDiv(n - NDIR - p, p)
    else
      TripleIndexBlocks(p, n - NDIR - p - p * p)
  }

  lemma ProductAtLeast(m: int, d: int)
    requires 0 < m
    ensures 1 <= d ==> m <= m * d
    ensures d <= -1 ==> m * d <= -m
  {
  }

  lemma DivUnique(x: int, m: int, q: int, r: int)
    requires 0 <= r < m && x == q * m + r
    ensures x / m == q && x % m == r
  {
    var d := x / m - q;
    assert x == m * (x / m) + x % m;
    assert m * d == m * (x / m) - m * q == r - x % m;
    ProductAtLeast(m, d);
  }

  lemma DivModBounds(x: int, m: int)
    requires 0 < m
    ensures x == x / m * m + x % m && 0 <= x % m < m
  {
  }

  /** A ceiling counts the step at each multiple. */
  lemma CeilStep(a: int, p: int)
    requires 0 < p && 0 <= a
    ensures CeilDiv(a + 1, p) == CeilDiv(a, p) + (if a % p == 0 then 1 else 0)
    ensures CeilDiv(a + 1, p) == a / p + 1
  {
    DivModBounds(a, p);
    var q, r := a / p, a % p;
    assert (q + 1) * p == q * p + p;
    DivUnique(a + p, p, q + 1, r);
    if r == 0 {
      DivUnique(a + p - 1, p, q, p - 1);
    } else {
      DivUnique(a + p - 1, p, q + 1, r - 1);
    }
  }

  lemma ClosedStepDouble(p: int, n: int)
    requires 0 < p && NDIR + p <= n < NDIR + p + p * p
    ensures ClosedIndexBlocks(p, n + 1) == ClosedIndexBlocks(p, n) + NewIndexBlocks(p, n)
  {
    CeilStep(n - NDIR - p, p);
    if n == NDIR + p {
      assert CeilDiv(1, p) == 1;
    }
  }

  /** The triple regime of the closed form, with the position split into whole double-indirect
      trees q and a rest. */
  function TripleIndexBlocks(p: int, a: int): int
    requires 0 < p
  {
    var b := CeilDiv(a, p * p);
    3 + p + b + (b - 1) * p + CeilDiv(1 + (a - 1) % (p * p), p)
  }

  /** Inside double-indirect tree q, with c of its blocks in use. */
  lemma TripleAt(p: int, a: int, q: int, c: int)
    requires 0 < p && 0 <= q && a == q * (p * p) + c && 0 < c <= p * p
    ensures TripleIndexBlocks(p, a) == 4 + p + q + q * p + CeilDiv(c, p)
  {
    var pp := p * p;
    DivUnique(a - 1, pp, q, c - 1);
    assert 0 <= q * pp;
    CeilStep(a - 1, pp);
  }

  lemma FullTree(p: int)
    requires 0 < p
    ensures CeilDiv(p * p, p) == p && CeilDiv(1, p) == 1
  {
    DivUnique(p * p + p - 1, p, p, p - 1);
    DivUnique(p, p, 1, 0);
  }

  lemma TripleStep(p: int, pp: int, a: int)
    requires 0 < p && pp == p * p && 0 < a
    ensures TripleIndexBlocks(p, a + 1) == TripleIndexBlocks(p, a)
            + (if a % pp == 0 then 2 else if a % pp % p == 0 then 1 else 0)
  {
    var q, r := a / pp, a % pp;
    DivModBounds(a, pp);
    FullTree(p);
    TripleAt(p, a + 1, q, r + 1);
    CeilStep(r, p);
    if r == 0 {
      assert a == (q - 1) * pp + pp;
      ProductAtLeast(pp, q);
      TripleAt(p, a, q - 1, pp);
      assert (q - 1) * p + p == q * p;
    } else {
      TripleAt(p, a, q, r);
    }
  }

  lemma ClosedStepTriple(p: int, n: int)
    requires 0 < p && NDIR + p + p * p <= n
    ensures ClosedIndexBlocks(p, n + 1) == ClosedIndexBlocks(p, n) + NewIndexBlocks(p, n)
  {
    var a := n - NDIR - p - p * p;
    if a == 0 {
      FullTree(p);
      TripleAt(p, 1, 0, 1);
    } else {
      TripleStep(p, p * p, a);
    }
  }

  /** The closed form counts exactly the index blocks that growing offset by offset creates. */
  lemma {:induction false} ClosedFormCounts(p: int, n: int)
    requires 0 < p && 0 <= n
    ensures TotalBlocks(p, n) == n + ClosedIndexBlocks(p, n)
    decreases n
  {
    if n > 0 {
      ClosedFormCounts(p, n - 1);
      if NDIR + p + p * p <= n - 1 {
        ClosedStepTriple(p, n - 1);
      } else if NDIR + p <= n - 1 {
        ClosedStepDouble(p, n - 1);
      }
    }
  }

  lemma TripleCountExact(p: int, pp: int, a: int)
    requires PointersPerBlock(p) && pp == p * p
    requires 0 < a < 0x8000_0000 && TripleIndexBlocks(p, a) < 0x8000_0000
    ensures TripleCount(p, pp, a) == TripleIndexBlocks(p, a)
  {
    SquareBounds(p);
    var q, c, s, d := TripleSplit(p, a);
    assert U32(a + pp - 1) / pp == q + 1;
    assert 1 + U32(a - 1) % pp == c;
    assert U32(c + p - 1) / p == s;
    assert U32(q * p) == q * p;
  }

  lemma IndexCountExact(p: int, n: int)
    requires PointersPerBlock(p) && 0 <= n <= n + ClosedIndexBlocks(p, n) < 0x8000_0000
    ensures IndexCount(p, n) == ClosedIndexBlocks(p, n)
  {
    SquareBounds(p);
    var pp := p * p;
    if NDIR + p + pp < n {
      TripleCountExact(p, pp, n - NDIR - p - pp);
    } else if NDIR + p < n {
      var s, d := DoubleSplit(p, n - NDIR - p);
    }
  }

  /** A sector has 512 bytes. */
  lemma SectorBytes(p: int)
    requires PointersPerBlock(p)
    ensures SectorsPerBlock(p) * 512 == 4 * p
  {
  }

  /** Within the 32-bit limit the machine computes the true sector count. */
  lemma BlockCountExact(p: int, n: int)
    requires PointersPerBlock(p) && Fits(p, n)
    ensures GetBlockCount(p, n) == TotalBlocks(p, n) * SectorsPerBlock(p)
  {
    ClosedFormCounts(p, n);
    FitsBound(p, n);
    IndexCountExact(p, n);
  }

  lemma FitsBound(p: int, n: int)
    requires PointersPerBlock(p) && Fits(p, n)
    ensures n <= TotalBlocks(p, n) < 0x8000_0000
  {
    TotalAtLeast(p, n);
    TwiceAtMost(TotalBlocks(p, n), SectorsPerBlock(p));
  }

  lemma TwiceAtMost(t: nat, k: int)
    requires 2 <= k
    ensures 2 * t <= t * k
  {
  }

  lemma {:induction false} TotalAtLeast(p: int, n: int)
    requires 0 < p && 0 <= n
    ensures n <= TotalBlocks(p, n)
    decreases n
  {
    if n > 0 {
      TotalAtLeast(p, n - 1);
    }
  }

  /** One more block means more sectors. */
  lemma CountGrows(p: int, n: int)
    requires PointersPerBlock(p) && 0 <= n && Fits(p, n + 1)
    ensures Fits(p, n) && GetBlockCount(p, n) < GetBlockCount(p, n + 1)
  {
    var k := SectorsPerBlock(p);
    assert TotalBlocks(p, n) + 1 <= TotalBlocks(p, n + 1);
    ProductMonotone(TotalBlocks(p, n) + 1, TotalBlocks(p, n + 1), k);
    assert (TotalBlocks(p, n) + 1) * k == TotalBlocks(p, n) * k + k;
    BlockCountExact(p, n);
    BlockCountExact(p, n + 1);
  }

  lemma Scaled(x: nat, y: nat, s: nat)
    requires 0 < s
    ensures x * s < y * s <==> x < y
    ensures y * s / s == y
  {
    if x < y {
      ProductMonotone(x + 1, y, s);
    } else {
      ProductMonotone(y, x, s);
    }
    DivUnique(y * s, s, y, 0);
  }

  lemma ScaledDifference(x: nat, y: nat, s: nat)
    requires 0 < s && x <= y
    ensures (y * s - x * s) / s == y - x
  {
    DivUnique(y * s - x * s, s, y - x, 0);
  }

  /** Sector counts are ordered like the content blocks. */
  lemma CountsInOrder(p: int, k: int, n: int)
    requires PointersPerBlock(p) && Fits(p, k) && Fits(p, n)
    ensures GetBlockCount(p, k) < GetBlockCount(p, n) <==> k < n
  {
    BlockCountExact(p, k);
    BlockCountExact(p, n);
    hide GetBlockCount;
    if k < n {
      TotalMonotone(p, k, n);
    } else {
      TotalMonotone(p, n, k);
    }
    Scaled(TotalBlocks(p, k), TotalBlocks(p, n), SectorsPerBlock(p));
  }

  /** In whole blocks, the difference of two sector counts is that of the block counts. */
  lemma CountDifference(p: int, k: int, n: int)
    requires PointersPerBlock(p) && Fits(p, k) && Fits(p, n) && k <= n
    ensures TotalBlocks(p, k) <= TotalBlocks(p, n)
    ensures GetBlockCount(p, n) / SectorsPerBlock(p) == TotalBlocks(p, n)
    ensures (GetBlockCount(p, n) - GetBlockCount(p, k)) / SectorsPerBlock(p) == TotalBlocks(p, n) - TotalBlocks(p, k)
  {
    BlockCountExact(p, k);
    BlockCountExact(p, n);
    assert 0 < SectorsPerBlock(p);
    TotalMonotone(p, k, n);
    hide GetBlockCount, SectorsPerBlock, Fits, TotalBlocks;
    WholeDifference(TotalBlocks(p, k), TotalBlocks(p, n), SectorsPerBlock(p), GetBlockCount(p, k), GetBlockCount(p, n));
  }

  lemma WholeDifference(x: nat, y: nat, s: nat, xs: nat, ys: nat)
    requires 0 < s && x <= y && xs == x * s && ys == y * s
    ensures ys / s == y && (ys - xs) / s == y - x
  {
    Scaled(x, y, s);
    ScaledDifference(x, y, s);
  }

  lemma {:induction false} TotalAtMost(p: int, n: int)
    requires 0 < p && 0 <= n
    ensures TotalBlocks(p, n) <= 4 * n
    decreases n
  {
    if n > 0 {
      TotalAtMost(p, n - 1);
    }
  }

  lemma {:induction false} TotalMonotone(p: int, m: int, n: int)
    requires 0 < p && 0 <= m <= n
    ensures TotalBlocks(p, m) + (n - m) <= TotalBlocks(p, n)
    decreases n
  {
    if m < n {
      TotalMonotone(p, m, n - 1);
    }
  }

  lemma FitsBelow(p: int, m: int, n: int)
    requires PointersPerBlock(p) && 0 <= m <= n && Fits(p, n)
    ensures Fits(p, m)
  {
    TotalMonotone(p, m, n);
    ProductMonotone(TotalBlocks(p, m), TotalBlocks(p, n), SectorsPerBlock(p));
  }

  /** Offsets of a file whose bytes have 32-bit positions stay within all limits. */
  lemma SmallFits(p: int, o: int)
    requires PointersPerBlock(p) && 0 <= o && o * (4 * p) < 0x1_0000_0000
    ensures o < MaxBlocks(p) && Fits(p, o + 1)
  {
    var k := SectorsPerBlock(p);
    TotalAtMost(p, o + 1);
    ProductMonotone(TotalBlocks(p, o + 1), 4 * (o + 1), k);
    SectorsOfBytes(p, k, o);
    SmallOffset(p, o);
  }

  lemma SectorsOfBytes(p: int, k: int, o: int)
    requires p == 128 * k
    ensures 128 * (4 * (o + 1) * k) == o * (4 * p) + 4 * p
  {
    assert o * (4 * (128 * k)) == 512 * (o * k);
    assert 4 * (o + 1) * k == 4 * (o * k) + 4 * k;
  }

  lemma SmallOffset(p: int, o: int)
    requires PointersPerBlock(p) && 0 <= o && o * (4 * p) < 0x1_0000_0000
    ensures o < MaxBlocks(p)
  {
    ProductMonotone(1024, 4 * p, o);
    assert o * 1024 <= o * (4 * p);
    SquareBounds(p);
    ProductMonotone(0x1_0000, p * p, p);
    assert p * 0x1_0000 <= p * (p * p);
  }

  /** Reading a block count back in the double-indirect regime. */
  lemma TripleSplit(p: int, a: int) returns (q: int, c: int, s: int, d: int)
    requires 0 < p && 0 < a
    ensures a == q * (p * p) + c && 0 <= q && 0 < c <= p * p
    ensures c == (s - 1) * p + d && 1 <= s <= p && 0 < d <= p
    ensures TripleIndexBlocks(p, a) == 4 + p + q + q * p + s && CeilDiv(c, p) == s
    ensures CeilDiv(a, p * p) == q + 1 && (a - 1) % (p * p) == c - 1
    ensures 0 <= q * p && 0 <= q * (p * p)
  {
    var pp := p * p;
    q, c := (a - 1) / pp, (a - 1) % pp + 1;
    DivModBounds(a - 1, pp);
    TripleAt(p, a, q, c);
    CeilStep(a - 1, pp);
    s, d := DoubleSplit(p, c);
  }

  lemma DoubleSplit(p: int, c: int) returns (s: int, d: int)
    requires 0 < p && 0 < c <= p * p
    ensures c == (s - 1) * p + d && 1 <= s <= p && 0 < d <= p && CeilDiv(c, p) == s
  {
    s, d := (c - 1) / p + 1, (c - 1) % p + 1;
    DivModBounds(c - 1, p);
    CeilStep(c - 1, p);
    assert s <= p by { assert (s - 1) * p < p * p; ProductAtLeast(p, s - 1 - p); }
  }

  /** The two count functions invert each other wherever the sector count fits 32 bits. */
  lemma CountsInvert(p: int, n: int)
    requires PointersPerBlock(p) && Fits(p, n)
    ensures GetContentBlocks(p, GetBlockCount(p, n)) == n
  {
    BlockCountExact(p, n);
    FitsBound(p, n);
    DivUnique(GetBlockCount(p, n), SectorsPerBlock(p), TotalBlocks(p, n), 0);
    ClosedFormCounts(p, n);
    InvertBlocks(p, n);
  }

  /** With all index blocks of offset n there and its content block not, the inverse still gives n. */
  lemma IndexedDouble(p: int, n: int)
    requires PointersPerBlock(p) && NDIR + p <= n < NDIR + p + p * p
    ensures WithoutIndexBlocks(p, n + ClosedIndexBlocks(p, n + 1)) == n
  {
    SquareBounds(p);
    var pp := p * p;
    var s, d := DoubleSplit(p, n + 1 - NDIR - p);
    var blocks := n + ClosedIndexBlocks(p, n + 1);
    assert blocks == n + 2 + s;
    assert NDIR + p + 1 < blocks <= NDIR + p + pp + 2 + p;
    assert blocks - NDIR - p - 3 == (s - 1) * p + (s - 1) + (d - 1);
    DivNext(s - 1, p, d - 1);
  }

  lemma IndexedTriple(p: int, n: int)
    requires PointersPerBlock(p) && NDIR + p + p * p <= n
    requires n + ClosedIndexBlocks(p, n + 1) < 0x8000_0000
    ensures WithoutIndexBlocks(p, n + ClosedIndexBlocks(p, n + 1)) == n
  {
    SquareBounds(p);
    var q, c, s, d := TripleSplit(p, n + 1 - NDIR - p - p * p);
    var blocks := n + ClosedIndexBlocks(p, n + 1);
    TripleUncountAt(p, q, s, d - 1, blocks - NDIR - p - p * p - 4 - p);
  }

  /** In double-indirect tree q of the triple-indirect block, and in tree s - 1 of it. */
  lemma TripleUncountAt(p: int, q: int, s: int, e: int, a: int)
    requires PointersPerBlock(p) && 0 <= q && 1 <= s <= p && 0 <= e <= p
    requires a == q * (p * p) + q * p + q + (s - 1) * p + (s - 1) + e + 1 && a < 0x8000_0000
    ensures TripleUncount(p, p * p + p + 1, a) == 5 + p + q * p + q + s - 1
  {
    SquareBounds(p);
    ProductMonotone(s - 1, p - 1, p);
    ProductMonotone(0, s - 1, p);
    ProductMonotone(0, q, p);
    ProductMonotone(0, q, p * p);
    TreeSize(p, q);
    TreeAt(p, p * p, q, q * (p * p), q * p, (s - 1) * p, s, e, a);
  }

  /** The same with the products named. */
  lemma TreeAt(p: int, pp: int, q: int, qpp: int, qp: int, sp: int, s: int, e: int, a: int)
    requires PointersPerBlock(p) && 0 <= q && 1 <= s && 0 <= e <= p && 0 <= sp <= pp - p && 0 <= qp && 0 <= qpp
    requires s <= p && a == qpp + qp + q + sp + (s - 1) + e + 1 < 0x8000_0000
    requires q * (pp + p + 1) == qpp + qp + q && (p + 1) * q == qp + q && sp == (s - 1) * p
    ensures TripleUncount(p, pp + p + 1, a) == 5 + p + qp + q + s - 1
  {
    var rest := sp + (s - 1) + e;
    DivUnique(a, pp + p + 1, q, rest + 1);
    DivNext(s - 1, p, e);
    UncountParts(p, pp + p + 1, a, q, rest, s - 1);
  }

  lemma TreeSize(p: int, q: int)
    ensures q * (p * p + p + 1) == q * (p * p) + q * p + q && (p + 1) * q == q * p + q
  {
  }

  lemma UncountParts(p: int, m: int, a: int, q: int, rest: int, s: int)
    requires 0 < p && 0 < m && a / m == q && a % m == rest + 1 && rest / (p + 1) == s && 0 <= rest < 0x8000_0000
    requires 0 <= (p + 1) * q && 0 <= s && 5 + p + (p + 1) * q + s < 0x1_0000_0000
    ensures TripleUncount(p, m, a) == 5 + p + (p + 1) * q + s
  {
  }

  lemma SmallQuotient(p: int, x: int)
    requires 256 <= p && 0 <= x < 0x1_0000_0000
    ensures 0 <= x / (p + 1) < 0x100_0000
  {
    DivModBounds(x, p + 1);
    if 0x100_0000 <= x / (p + 1) {
      ProductMonotone(0x100_0000, x / (p + 1), p + 1);
    }
  }

  /** Whatever is subtracted, it is more than the index blocks of n, by less than wraps around to n again. */
  lemma Missed(blocks: int, ind: int, n: int)
    requires 0 <= n < 0x8000_0000 && blocks - n < ind < blocks - n + 0x4000_0000
    ensures U32(blocks - ind) != n
  {
  }

  /** For a file whose double-indirect block is there and has nothing below it, ext2fs.c:1079 goes below 0. */
  lemma CountUnderflow(p: int)
    requires PointersPerBlock(p)
    ensures WithoutIndexBlocks(p, NDIR + p + 2) > 0x8000_0000
  {
    SquareBounds(p);
    SmallQuotient(p, 0xffff_ffff);
    DivModBounds(0xffff_ffff, p + 1);
    if 0xffff_ffff / (p + 1) < 0x1_0000 {
      ProductMonotone(0xffff_ffff / (p + 1), 0x1_0000 - 1, p + 1);
    }
  }

  /** The offset that starts double-indirect tree q of the triple-indirect block; -1 is the one of the inode. */
  function TreeOffset(p: int, q: int): int {
    NDIR + p + (q + 1) * (p * p)
  }

  /** The index blocks that are needed before that. */
  function BeforeTree(p: int, q: int): int {
    if q == -1 then 1 else if q == 0 then 2 + p else 3 + p + q + q * p
  }

  /** With the triple-indirect block alone or with one empty double-indirect block below it, ext2fs.c:1097 or 1108
      goes below 0. */
  lemma FirstTripleMissed(p: int, j: int)
    requires PointersPerBlock(p) && 1 <= j <= 2
    ensures WithoutIndexBlocks(p, TreeOffset(p, 0) + BeforeTree(p, 0) + j) != TreeOffset(p, 0)
  {
    SquareBounds(p);
    var pp, n := p * p, NDIR + p + p * p;
    var m, a := pp + p + 1, U32(j - 2);
    WholeTrees(p, pp, a);
    var full, rest := U32((p + 1) * (a / m)), U32(a % m - 1);
    DivModBounds(a, m);
    SmallQuotient(p, rest);
    Missed(n + 2 + p + j, TripleUncount(p, m, a), n);
  }

  lemma DoubleMissed(p: int)
    requires PointersPerBlock(p)
    ensures WithoutIndexBlocks(p, TreeOffset(p, -1) + BeforeTree(p, -1) + 1) != TreeOffset(p, -1)
  {
    CountUnderflow(p);
  }

  /** What the whole trees below a triple-indirect block take is a small part of all. */
  lemma WholeTrees(p: int, pp: int, a: int)
    requires PointersPerBlock(p) && pp == p * p && 0 <= a < 0x1_0000_0000
    ensures 0 <= (p + 1) * (a / (pp + p + 1)) < 0x200_0000
  {
    var m := pp + p + 1;
    var t := a / m;
    DivModBounds(a, m);
    ProductMonotone(256, p, p + 1);
    assert p * (p + 1) == pp + p;
    ProductMonotone(256 * (p + 1), m, t);
    assert 256 * ((p + 1) * t) == 256 * (p + 1) * t;
  }

  /** With a further double-indirect block that has nothing below it, ext2fs.c:1108 goes below 0. */
  lemma TripleMissed(p: int, q: int)
    requires PointersPerBlock(p) && 0 < q && TreeOffset(p, q) + BeforeTree(p, q) + 1 < 0x8000_0000
    ensures WithoutIndexBlocks(p, TreeOffset(p, q) + BeforeTree(p, q) + 1) != TreeOffset(p, q)
  {
    SquareBounds(p);
    ProductMonotone(0, q, p);
    ProductMonotone(0, q, p * p);
    TreeSize(p, q);
    TimesNext(q, p * p);
    MissedAt(p, p * p, q, q * (p * p), q * p);
  }

  lemma MissedAt(p: int, pp: int, q: int, qpp: int, qp: int)
    requires PointersPerBlock(p) && pp == U32(p * p) == p * p && 0 < q && 0 <= qp && 0 <= qpp
    requires q * (pp + p + 1) == qpp + qp + q && (p + 1) * q == qp + q
    requires NDIR + p + pp + qpp + 4 + p + q + qp < 0x8000_0000
    ensures WithoutIndexBlocks(p, NDIR + p + pp + qpp + 4 + p + q + qp) != NDIR + p + pp + qpp
  {
    var n, a, m := NDIR + p + pp + qpp, qpp + q + qp, pp + p + 1;
    DivUnique(a, m, q, 0);
    SmallQuotient(p, 0xffff_ffff);
    Missed(n + 4 + p + q + qp, TripleUncount(p, m, a), n);
  }

  /** How many content blocks a block count is that of: the last n whose own count it reaches. */
  function Covered(p: int, blocks: nat): (n: nat)
    requires 0 < p
    ensures TotalBlocks(p, n) <= blocks < TotalBlocks(p, n + 1)
  {
    if blocks == 0 then 0
    else
      var n := Covered(p, blocks - 1);
      if TotalBlocks(p, n + 1) <= blocks then n + 1 else n
  }

  /** Some of the index blocks that the next offset needs are counted, and not all of them. */
  predicate PartlyIndexed(p: int, blocks: nat)
    requires 0 < p
  {
    TotalBlocks(p, Covered(p, blocks)) < blocks < TotalBlocks(p, Covered(p, blocks) + 1) - 1
  }

  /** The inverse is right for a count that no index block of the next offset is part of, or every one. */
  lemma RightWhenWhole(p: int, n: nat, blocks: int)
    requires PointersPerBlock(p) && blocks < 0x8000_0000
    requires blocks == TotalBlocks(p, n) || blocks == TotalBlocks(p, n + 1) - 1
    ensures WithoutIndexBlocks(p, blocks) == n
  {
    SquareBounds(p);
    ClosedFormCounts(p, n);
    ClosedFormCounts(p, n + 1);
    TotalAtLeast(p, n);
    if blocks == TotalBlocks(p, n) {
      InvertBlocks(p, n);
    } else if NDIR + p + p * p <= n {
      IndexedTriple(p, n);
    } else if NDIR + p <= n {
      IndexedDouble(p, n);
    }
  }

  /** The offsets that need two new index blocks or more start a double-indirect tree. */
  lemma TreeStarts(p: int, n: nat) returns (q: int)
    requires 0 < p && 2 <= NewIndexBlocks(p, n)
    ensures -1 <= q && n == TreeOffset(p, q) && NewIndexBlocks(p, n) == if q == 0 then 3 else 2
  {
    if n == NDIR + p {
      q := -1;
    } else {
      var a := n - NDIR - p - p * p;
      q := a / (p * p);
      DivModBounds(a, p * p);
      TimesNext(q, p * p);
    }
  }

  lemma TimesNext(q: int, x: int)
    ensures (q + 1) * x == q * x + x
  {
  }

  lemma TotalBeforeTree(p: int, q: int)
    requires 0 < p && -1 <= q
    ensures 0 <= TreeOffset(p, q) && TotalBlocks(p, TreeOffset(p, q)) == TreeOffset(p, q) + BeforeTree(p, q)
  {
    ProductMonotone(0, q + 1, p * p);
    ClosedFormCounts(p, TreeOffset(p, q));
    if q == 0 {
      FullTree(p);
    } else if 0 < q {
      IndexBeforeTree(p, q);
    }
  }

  lemma IndexBeforeTree(p: int, q: int)
    requires 0 < p && 0 < q
    ensures ClosedIndexBlocks(p, TreeOffset(p, q)) == BeforeTree(p, q)
  {
    var pp := p * p;
    FullTree(p);
    TimesNext(q, pp);
    TimesNext(q - 1, pp);
    TimesNext(q - 1, p);
    ProductMonotone(1, q, pp);
    TripleAt(p, q * pp, q - 1, pp);
  }

  /** And wrong for every other one. */
  lemma WrongWhenPartly(p: int, n: nat, blocks: int)
    requires PointersPerBlock(p) && blocks < 0x8000_0000
    requires TotalBlocks(p, n) < blocks < TotalBlocks(p, n + 1) - 1
    ensures WithoutIndexBlocks(p, blocks) != n
  {
    assert blocks - TotalBlocks(p, n) < NewIndexBlocks(p, n);
    var q := TreeStarts(p, n);
    TotalBeforeTree(p, q);
    MissedAtTree(p, q, blocks - TotalBlocks(p, n));
  }

  lemma MissedAtTree(p: int, q: int, j: int)
    requires PointersPerBlock(p) && -1 <= q && 1 <= j < (if q == 0 then 3 else 2)
    requires TreeOffset(p, q) + BeforeTree(p, q) + j < 0x8000_0000
    ensures WithoutIndexBlocks(p, TreeOffset(p, q) + BeforeTree(p, q) + j) != TreeOffset(p, q)
  {
    hide WithoutIndexBlocks, TreeOffset, BeforeTree;
    if q == -1 {
      DoubleMissed(p);
    } else if q == 0 {
      FirstTripleMissed(p, j);
    } else {
      TripleMissed(p, q);
    }
  }

  /** get_content_blocks undoes get_block_count on every 32-bit sector count but those that hold some and not all
      of the index blocks of the next offset. */
  lemma ContentBlocksExactly(p: int, sectors: int)
    requires PointersPerBlock(p) && 0 <= sectors < 0x1_0000_0000
    ensures var blocks := sectors / SectorsPerBlock(p);
            && (GetContentBlocks(p, sectors) == Covered(p, blocks) <==> !PartlyIndexed(p, blocks))
            && (PartlyIndexed(p, blocks) <==> GoesBelowZero(p, blocks))
  {
    var blocks := BlocksOf(p, sectors);
    PartlyWhere(p, blocks);
    hide WithoutIndexBlocks, TotalBlocks, SectorsPerBlock;
    var n := Covered(p, blocks);
    if PartlyIndexed(p, blocks) {
      WrongWhenPartly(p, n, blocks);
    } else {
      RightWhenWhole(p, n, blocks);
    }
  }

  /** The counts at which a of line 1079, or a of lines 1097 and 1105, goes below 0. */
  predicate GoesBelowZero(p: int, blocks: int)
    requires 0 < p
  {
    var a := blocks - NDIR - p - p * p - 1 - 1 - p - 1 - 1;
    blocks == NDIR + p + 2 || a == -1 || (0 <= a && a % (p * p + p + 1) == 0)
  }

  lemma {:induction false} CoveredIs(p: int, n: nat, blocks: nat)
    requires 0 < p && TotalBlocks(p, n) <= blocks < TotalBlocks(p, n + 1)
    ensures Covered(p, blocks) == n
  {
    var k := Covered(p, blocks);
    if k < n {
      TotalMonotone(p, k + 1, n);
    } else if n < k {
      TotalMonotone(p, n + 1, k);
    }
  }

  lemma NewAtTree(p: int, q: int)
    requires 0 < p && -1 <= q
    ensures 0 <= TreeOffset(p, q) && NewIndexBlocks(p, TreeOffset(p, q)) == if q == 0 then 3 else 2
  {
    ProductMonotone(0, q + 1, p * p);
    ProductMonotone(1, p, p);
    if 0 < q {
      TimesNext(q, p * p);
      ProductMonotone(1, q, p * p);
      DivUnique(q * (p * p), p * p, q, 0);
    }
  }

  lemma PartlyAtTree(p: int, q: int, j: int)
    requires 0 < p && -1 <= q && 1 <= j < (if q == 0 then 3 else 2)
    ensures var blocks := TreeOffset(p, q) + BeforeTree(p, q) + j;
            0 <= blocks && PartlyIndexed(p, blocks)
  {
    TotalBeforeTree(p, q);
    NewAtTree(p, q);
    CoveredIs(p, TreeOffset(p, q), TreeOffset(p, q) + BeforeTree(p, q) + j);
  }

  lemma BelowZeroAtTree(p: int, q: int, j: int)
    requires 0 < p && -1 <= q && 1 <= j < (if q == 0 then 3 else 2)
    ensures GoesBelowZero(p, TreeOffset(p, q) + BeforeTree(p, q) + j)
  {
    if 0 < q {
      TreeSize(p, q);
      TimesNext(q, p * p);
      ProductMonotone(0, q, p * p + p + 1);
      DivUnique(q * (p * p + p + 1), p * p + p + 1, q, 0);
    }
  }

  lemma TreeOfBelowZero(p: int, blocks: nat) returns (q: int, j: int)
    requires 0 < p && GoesBelowZero(p, blocks)
    ensures -1 <= q && 1 <= j < (if q == 0 then 3 else 2) && blocks == TreeOffset(p, q) + BeforeTree(p, q) + j
  {
    var m, a := p * p + p + 1, blocks - NDIR - p - p * p - 1 - 1 - p - 1 - 1;
    j := 1;
    if blocks == NDIR + p + 2 {
      q := -1;
    } else if a <= 0 {
      q, j := 0, a + 2;
    } else {
      q := a / m;
      DivModBounds(a, m);
      TreeSize(p, q);
      TimesNext(q, p * p);
    }
  }

  /** Which counts hold some and not all of the index blocks of the next offset. */
  lemma PartlyWhere(p: int, blocks: nat)
    requires 0 < p
    ensures PartlyIndexed(p, blocks) <==> GoesBelowZero(p, blocks)
  {
    hide GoesBelowZero, TreeOffset, BeforeTree;
    if PartlyIndexed(p, blocks) {
      var n := Covered(p, blocks);
      var q := TreeStarts(p, n);
      TotalBeforeTree(p, q);
      BelowZeroAtTree(p, q, blocks - TotalBlocks(p, n));
    }
    if GoesBelowZero(p, blocks) {
      var q, j := TreeOfBelowZero(p, blocks);
      PartlyAtTree(p, q, j);
    }
  }

  lemma BlocksOf(p: int, sectors: int) returns (blocks: int)
    requires PointersPerBlock(p) && 0 <= sectors < 0x1_0000_0000
    ensures blocks == sectors / SectorsPerBlock(p) && 0 <= blocks < 0x8000_0000
  {
    blocks := sectors / SectorsPerBlock(p);
    DivModBounds(sectors, SectorsPerBlock(p));
    TwiceAtMost(blocks, SectorsPerBlock(p));
  }

  lemma InvertBlocks(p: int, n: int)
    requires PointersPerBlock(p) && 0 <= n <= n + ClosedIndexBlocks(p, n) < 0x8000_0000
    ensures WithoutIndexBlocks(p, n + ClosedIndexBlocks(p, n)) == n
  {
    SquareBounds(p);
    var pp := p * p;
    if n <= NDIR + p {
      assert ClosedIndexBlocks(p, n) == if n <= NDIR then 0 else 1;
    } else if n <= NDIR + p + pp {
      InvertDouble(p, n);
    } else {
      InvertTriple(p, n);
    }
  }

  lemma InvertDouble(p: int, n: int)
    requires PointersPerBlock(p) && NDIR + p < n <= NDIR + p + p * p
    ensures WithoutIndexBlocks(p, n + ClosedIndexBlocks(p, n)) == n
  {
    SquareBounds(p);
    var pp := p * p;
    var s, d := DoubleSplit(p, n - NDIR - p);
    var blocks := n + ClosedIndexBlocks(p, n);
    assert blocks == n + 2 + s;
    assert NDIR + p + 1 < blocks <= NDIR + p + pp + 2 + p;
    assert blocks - NDIR - p - 3 == (s - 1) * p + (s - 1) + d;
    DivNext(s - 1, p, d);
  }

  lemma DivNext(q: int, p: int, d: int)
    requires 0 < p && 0 <= d <= p
    ensures (q * p + q + d) / (p + 1) == q && (q * p + q + d) % (p + 1) == d
  {
    assert q * (p + 1) == q * p + q;
    DivUnique(q * p + q + d, p + 1, q, d);
  }

  lemma InvertTriple(p: int, n: int)
    requires PointersPerBlock(p) && NDIR + p + p * p < n <= n + ClosedIndexBlocks(p, n) < 0x8000_0000
    ensures var blocks := n + ClosedIndexBlocks(p, n);
            var a := blocks - NDIR - p - p * p - 4 - p;
            && NDIR + p + p * p + 2 + p < blocks
            && 0 < a
            && TripleUncount(p, p * p + p + 1, a) == blocks - n
  {
    SquareBounds(p);
    var q, c, s, d := TripleSplit(p, n - NDIR - p - p * p);
    var blocks := n + ClosedIndexBlocks(p, n);
    TripleUncountAt(p, q, s, d, blocks - NDIR - p - p * p - 4 - p);
  }
}
