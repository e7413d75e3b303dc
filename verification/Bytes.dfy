/** Bytes, and the little-endian 32-bit words and single bits kept in them. */
module Bytes {

  type Byte = b: int | 0 <= b < 256

  const WORD := 0x1_0000_0000

  function Le32(b0: int, b1: int, b2: int, b3: int): int {
    b0 + 0x100 * (b1 + 0x100 * (b2 + 0x100 * b3))
  }

  /** The word at byte offset a. */
  function WordAt(b: seq<Byte>, a: nat): (w: nat)
    requires a + 4 <= |b|
    ensures w < WORD
  {
    Le32(b[a], b[a + 1], b[a + 2], b[a + 3])
  }

  function ByteOf(v: int, shift: int): Byte
    requires 0 < shift
  {
    v / shift % 0x100
  }

  function PutWordAt(b: seq<Byte>, a: nat, v: nat): (r: seq<Byte>)
    requires a + 4 <= |b|
    ensures |r| == |b|
    ensures forall k | 0 <= k < |b| && (k < a || a + 4 <= k) :: r[k] == b[k]
  {
    b[a := ByteOf(v, 1)][a + 1 := ByteOf(v, 0x100)][a + 2 := ByteOf(v, 0x1_0000)][a + 3 := ByteOf(v, 0x100_0000)]
  }

  lemma SplitWord(v: nat)
    requires v < WORD
    ensures Le32(ByteOf(v, 1), ByteOf(v, 0x100), ByteOf(v, 0x1_0000), ByteOf(v, 0x100_0000)) == v
  {
    var v1 := v / 0x100;
    var v2 := v1 / 0x100;
    assert v2 == v / 0x1_0000 && v2 / 0x100 == v / 0x100_0000;
  }

  /** A stored word reads back, and words elsewhere do not change. */
  lemma PutGetWord(b: seq<Byte>, a: nat, v: nat, a': nat)
    requires a + 4 <= |b| && a' + 4 <= |b| && v < WORD
    requires a == a' || a + 4 <= a' || a' + 4 <= a
    ensures WordAt(PutWordAt(b, a, v), a') == if a == a' then v else WordAt(b, a')
  {
    SplitWord(v);
  }

  function Zeros(n: nat): (z: seq<Byte>)
    ensures |z| == n
    ensures forall k | 0 <= k < n :: z[k] == 0
  {
    seq(n, _ => 0)
  }

  /** Bit k of a word. */
  predicate Bit(w: nat, k: nat) {
    if k == 0 then w % 2 == 1 else Bit(w / 2, k - 1)
  }

  /** w | 1 << k. */
  function WithBit(w: nat, k: nat): nat {
    if k == 0 then w / 2 * 2 + 1 else w % 2 + 2 * WithBit(w / 2, k - 1)
  }

  /** w & ~(1 << k). */
  function WithoutBit(w: nat, k: nat): nat {
    if k == 0 then w / 2 * 2 else w % 2 + 2 * WithoutBit(w / 2, k - 1)
  }

  function Pow2(n: nat): (r: nat)
    ensures 1 <= r
  {
    if n == 0 then 1 else 2 * Pow2(n - 1)
  }

  lemma {:induction false} BitsWith(w: nat, k: nat, j: nat)
    ensures Bit(WithBit(w, k), j) == (j == k || Bit(w, j))
    ensures Bit(WithoutBit(w, k), j) == (j != k && Bit(w, j))
    decreases k
  {
    if k > 0 {
      assert WithBit(w, k) / 2 == WithBit(w / 2, k - 1);
      assert WithoutBit(w, k) / 2 == WithoutBit(w / 2, k - 1);
      if j > 0 {
        BitsWith(w / 2, k - 1, j - 1);
      }
    }
  }

  lemma {:induction false} BitsBound(w: nat, k: nat, n: nat)
    requires k < n && w < Pow2(n)
    ensures WithBit(w, k) < Pow2(n) && WithoutBit(w, k) < Pow2(n)
    decreases k
  {
    if k > 0 {
      BitsBound(w / 2, k - 1, n - 1);
    }
  }

  lemma {:induction false} BitsRestore(w: nat, k: nat)
    requires !Bit(w, k)
    ensures WithoutBit(WithBit(w, k), k) == w
    decreases k
  {
    if k > 0 {
      BitsRestore(w / 2, k - 1);
    }
  }

  lemma Pow2Of32()
    ensures Pow2(32) == WORD
  {
    assert Pow2(8) == 0x100;
    assert Pow2(16) == 0x1_0000;
    assert Pow2(24) == 0x100_0000;
  }

  /** ffsl(w): one plus the number of the lowest set bit, 0 for no bit. */
  function Ffs(w: nat, bits: nat): (r: nat)
    ensures r <= bits
    ensures r == 0 ==> forall j: nat | j < bits :: !Bit(w, j)
    ensures r != 0 ==> Bit(w, r - 1) && forall j: nat | j < r - 1 :: !Bit(w, j)
  {
    if bits == 0 then 0
    else if w % 2 == 1 then 1
    else
      var r := Ffs(w / 2, bits - 1);
      if r == 0 then 0 else r + 1
  }

  /** ~w in a word of n bits. */
  lemma {:induction false} BitsOfComplement(w: nat, n: nat, j: nat)
    requires w < Pow2(n) && j < n
    ensures Bit(Pow2(n) - 1 - w, j) == !Bit(w, j)
    decreases j
  {
    assert (Pow2(n) - 1 - w) / 2 == Pow2(n - 1) - 1 - w / 2;
    if j > 0 {
      BitsOfComplement(w / 2, n - 1, j - 1);
    }
  }

  /** A number whose low n bits are those of x and whose remaining bits are r. */
  function Join(n: nat, x: nat, r: nat): nat {
    if n == 0 then r else x % 2 + 2 * Join(n - 1, x / 2, r)
  }

  lemma JoinByte(x: Byte, r: nat)
    ensures Join(8, x, r) == x + 0x100 * r
  {
    var x1, x2, x3 := x / 2, x / 4, x / 8;
    var x4, x5, x6 := x / 16, x / 32, x / 64;
    assert Join(1, x / 128, r) == x / 128 + 2 * r;
    assert Join(2, x6, r) == x6 + 4 * r;
    assert Join(4, x4, r) == x4 + 16 * r;
    assert Join(6, x2, r) == x2 + 64 * r;
  }

  lemma {:induction false} JoinBit(n: nat, x: nat, r: nat, k: nat)
    ensures Bit(Join(n, x, r), k) == if k < n then Bit(x, k) else Bit(r, k - n)
    decreases n
  {
    if n > 0 && k > 0 {
      JoinBit(n - 1, x / 2, r, k - 1);
    }
  }

  lemma JoinHalves(n: nat, x: nat, r: nat)
    requires 0 < n
    ensures Join(n, x, r) / 2 == Join(n - 1, x / 2, r) && Join(n, x, r) % 2 == x % 2
  {
  }

  lemma {:induction false} JoinWith(n: nat, x: nat, r: nat, k: nat)
    ensures WithBit(Join(n, x, r), k) == if k < n then Join(n, WithBit(x, k), r) else Join(n, x, WithBit(r, k - n))
    decreases n
  {
    if n > 0 {
      JoinHalves(n, x, r);
      if k > 0 {
        JoinWith(n - 1, x / 2, r, k - 1);
        if k < n {
          assert WithBit(x, k) / 2 == WithBit(x / 2, k - 1) && WithBit(x, k) % 2 == x % 2;
        }
      } else {
        assert WithBit(x, 0) / 2 == x / 2;
      }
    }
  }

  lemma {:induction false} JoinWithout(n: nat, x: nat, r: nat, k: nat)
    ensures WithoutBit(Join(n, x, r), k)
            == if k < n then Join(n, WithoutBit(x, k), r) else Join(n, x, WithoutBit(r, k - n))
    decreases n
  {
    if n > 0 {
      JoinHalves(n, x, r);
      if k > 0 {
        JoinWithout(n - 1, x / 2, r, k - 1);
        if k < n {
          assert WithoutBit(x, k) / 2 == WithoutBit(x / 2, k - 1) && WithoutBit(x, k) % 2 == x % 2;
        }
      } else {
        assert WithoutBit(x, 0) / 2 == x / 2;
      }
    }
  }

  lemma ByteBound(x: Byte, k: nat)
    requires k < 8
    ensures WithBit(x, k) < 0x100 && WithoutBit(x, k) < 0x100
  {
    BitsBound(x, k, 8);
    assert Pow2(8) == 0x100;
  }

  /** Setting and clearing a bit of a byte. */
  function ByteWith(x: Byte, k: nat): (r: Byte)
    requires k < 8
    ensures r == WithBit(x, k)
  {
    ByteBound(x, k);
    WithBit(x, k)
  }

  function ByteWithout(x: Byte, k: nat): (r: Byte)
    requires k < 8
    ensures r == WithoutBit(x, k)
  {
    ByteBound(x, k);
    WithoutBit(x, k)
  }

  /** Bytes as one number, the lowest first. */
  function LittleEndian(b: seq<Byte>): nat {
    if b == [] then 0 else b[0] + 0x100 * LittleEndian(b[1..])
  }

  lemma WordIsLittleEndian(b: seq<Byte>, a: nat)
    requires a + 4 <= |b|
    ensures WordAt(b, a) == LittleEndian(b[a..a + 4])
  {
    var c := b[a..a + 4];
    assert c[3..][1..] == [] && c[2..][1..] == c[3..] && c[1..][1..] == c[2..];
    assert LittleEndian(c[3..]) == c[3];
    assert LittleEndian(c[2..]) == c[2] + 0x100 * LittleEndian(c[3..]);
    assert LittleEndian(c[1..]) == c[1] + 0x100 * LittleEndian(c[2..]);
  }

  lemma {:induction false} LittleEndianBit(b: seq<Byte>, k: nat)
    requires k < 8 * |b|
    ensures Bit(LittleEndian(b), k) == Bit(b[k / 8], k % 8)
    decreases |b|
  {
    JoinByte(b[0], LittleEndian(b[1..]));
    JoinBit(8, b[0], LittleEndian(b[1..]), k);
    if 8 <= k {
      LittleEndianBit(b[1..], k - 8);
    }
  }

  lemma LittleEndianHead(b: seq<Byte>, x: Byte)
    requires 0 < |b|
    ensures LittleEndian(b[0 := x]) == x + 0x100 * LittleEndian(b[1..])
  {
    assert b[0 := x][1..] == b[1..];
  }

  lemma LittleEndianTail(b: seq<Byte>, j: nat, x: Byte)
    requires 0 < j < |b|
    ensures LittleEndian(b[j := x]) == b[0] + 0x100 * LittleEndian(b[1..][j - 1 := x])
  {
    assert b[j := x][1..] == b[1..][j - 1 := x];
  }

  lemma ByteWithRest(x: Byte, r: nat, k: nat)
    ensures WithBit(x + 0x100 * r, k) == if k < 8 then ByteWith(x, k) + 0x100 * r else x + 0x100 * WithBit(r, k - 8)
  {
    JoinByte(x, r);
    JoinWith(8, x, r, k);
    if k < 8 {
      JoinByte(ByteWith(x, k), r);
    } else {
      JoinByte(x, WithBit(r, k - 8));
    }
  }

  lemma {:induction false} LittleEndianWith(b: seq<Byte>, j: nat, i: nat)
    requires j < |b| && i < 8
    ensures WithBit(LittleEndian(b), 8 * j + i) == LittleEndian(b[j := ByteWith(b[j], i)])
    decreases j
  {
    ByteWithRest(b[0], LittleEndian(b[1..]), 8 * j + i);
    if j == 0 {
      LittleEndianHead(b, ByteWith(b[0], i));
    } else {
      LittleEndianWith(b[1..], j - 1, i);
      LittleEndianTail(b, j, ByteWith(b[j], i));
    }
  }

  lemma ByteWithoutRest(x: Byte, r: nat, k: nat)
    ensures WithoutBit(x + 0x100 * r, k)
            == if k < 8 then ByteWithout(x, k) + 0x100 * r else x + 0x100 * WithoutBit(r, k - 8)
  {
    JoinByte(x, r);
    JoinWithout(8, x, r, k);
    if k < 8 {
      JoinByte(ByteWithout(x, k), r);
    } else {
      JoinByte(x, WithoutBit(r, k - 8));
    }
  }

  lemma {:induction false} LittleEndianWithout(b: seq<Byte>, j: nat, i: nat)
    requires j < |b| && i < 8
    ensures WithoutBit(LittleEndian(b), 8 * j + i) == LittleEndian(b[j := ByteWithout(b[j], i)])
    decreases j
  {
    ByteWithoutRest(b[0], LittleEndian(b[1..]), 8 * j + i);
    if j == 0 {
      LittleEndianHead(b, ByteWithout(b[0], i));
    } else {
      LittleEndianWithout(b[1..], j - 1, i);
      LittleEndianTail(b, j, ByteWithout(b[j], i));
    }
  }

  /** In little-endian order, bit k of a word is bit k % 8 of its byte k / 8. */
  lemma WordBits(b: seq<Byte>, a: nat, k: nat)
    requires a + 4 <= |b| && k < 32
    ensures Bit(WordAt(b, a), k) == Bit(b[a + k / 8], k % 8)
  {
    WordIsLittleEndian(b, a);
    LittleEndianBit(b[a..a + 4], k);
  }

  /** w |= 1 << k in memory changes one byte. */
  lemma WordWith(b: seq<Byte>, a: nat, k: nat)
    requires a + 4 <= |b| && k < 32
    ensures PutWordAt(b, a, WithBit(WordAt(b, a), k)) == b[a + k / 8 := ByteWith(b[a + k / 8], k % 8)]
  {
    var c := b[a + k / 8 := ByteWith(b[a + k / 8], k % 8)];
    WordIsLittleEndian(b, a);
    WordIsLittleEndian(c, a);
    LittleEndianWith(b[a..a + 4], k / 8, k % 8);
    assert c[a..a + 4] == b[a..a + 4][k / 8 := ByteWith(b[a + k / 8], k % 8)];
    SplitBytes(b, a, c);
  }

  /** w &= ~(1 << k) in memory changes one byte. */
  lemma WordWithout(b: seq<Byte>, a: nat, k: nat)
    requires a + 4 <= |b| && k < 32
    ensures PutWordAt(b, a, WithoutBit(WordAt(b, a), k)) == b[a + k / 8 := ByteWithout(b[a + k / 8], k % 8)]
  {
    var c := b[a + k / 8 := ByteWithout(b[a + k / 8], k % 8)];
    WordIsLittleEndian(b, a);
    WordIsLittleEndian(c, a);
    LittleEndianWithout(b[a..a + 4], k / 8, k % 8);
    assert c[a..a + 4] == b[a..a + 4][k / 8 := ByteWithout(b[a + k / 8], k % 8)];
    SplitBytes(b, a, c);
  }

  /** Writing the word of another buffer copies its four bytes. */
  lemma SplitBytes(b: seq<Byte>, a: nat, c: seq<Byte>)
    requires a + 4 <= |b| && |c| == |b|
    requires forall k | 0 <= k < |b| && (k < a || a + 4 <= k) :: c[k] == b[k]
    ensures PutWordAt(b, a, WordAt(c, a)) == c
  {
    var w := WordAt(c, a);
    var w1 := Le32(c[a + 1], c[a + 2], c[a + 3], 0);
    var w2 := Le32(c[a + 2], c[a + 3], 0, 0);
    assert w / 0x100 == w1 && w1 / 0x100 == w2;
    assert w / 0x1_0000 == w2 && w / 0x100_0000 == c[a + 3];
  }
}
