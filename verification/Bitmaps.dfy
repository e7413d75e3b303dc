/** Allocation bitmaps: one block whose bits mark what is in use. */
module Bitmaps {
  import opened Bytes

  /** The first n bits of a block, those of the first byte first. */
  function DecodeFirst(b: seq<Byte>, n: nat): (r: seq<bool>)
    requires n <= 8 * |b|
    ensures |r| == n
  {
    if n == 0 then [] else DecodeFirst(b, n - 1) + [Bit(b[(n - 1) / 8], (n - 1) % 8)]
  }

  function Decode(b: seq<Byte>): (r: seq<bool>)
    ensures |r| == 8 * |b|
  {
    DecodeFirst(b, 8 * |b|)
  }

  lemma {:induction false} DecodeFirstAt(b: seq<Byte>, n: nat, i: nat)
    requires i < n <= 8 * |b|
    ensures DecodeFirst(b, n)[i] == Bit(b[i / 8], i % 8)
    decreases n
  {
    if i < n - 1 {
      DecodeFirstAt(b, n - 1, i);
    }
  }

  lemma DecodeAt(b: seq<Byte>, i: nat)
    requires i < 8 * |b|
    ensures Decode(b)[i] == Bit(b[i / 8], i % 8)
  {
    DecodeFirstAt(b, 8 * |b|, i);
  }

  /** The block with bit i set. */
  function Mark(b: seq<Byte>, i: nat): (r: seq<Byte>)
    requires i < 8 * |b|
    ensures |r| == |b|
  {
    b[i / 8 := ByteWith(b[i / 8], i % 8)]
  }

  /** The block with bit i cleared. */
  function Unmark(b: seq<Byte>, i: nat): (r: seq<Byte>)
    requires i < 8 * |b|
    ensures |r| == |b|
  {
    b[i / 8 := ByteWithout(b[i / 8], i % 8)]
  }

  lemma SameBit(i: nat, j: nat)
    ensures i / 8 == j / 8 && i % 8 == j % 8 <==> i == j
  {
  }

  lemma DecodeMarkAt(b: seq<Byte>, i: nat, j: nat)
    requires i < 8 * |b| && j < 8 * |b|
    ensures Decode(Mark(b, i))[j] == (j == i || Decode(b)[j])
    ensures Decode(Unmark(b, i))[j] == (j != i && Decode(b)[j])
  {
    DecodeAt(b, j);
    DecodeAt(Mark(b, i), j);
    DecodeAt(Unmark(b, i), j);
    BitsWith(b[i / 8], i % 8, j % 8);
    SameBit(i, j);
  }

  lemma DecodeMark(b: seq<Byte>, i: nat)
    requires i < 8 * |b|
    ensures Decode(Mark(b, i)) == Decode(b)[i := true]
    ensures Decode(Unmark(b, i)) == Decode(b)[i := false]
  {
    var m, u := Mark(b, i), Unmark(b, i);
    forall j | 0 <= j < 8 * |b|
      ensures Decode(m)[j] == Decode(b)[i := true][j]
      ensures Decode(u)[j] == Decode(b)[i := false][j]
    {
      DecodeMarkAt(b, i, j);
    }
    assert Decode(m) == Decode(b)[i := true];
    assert Decode(u) == Decode(b)[i := false];
  }

  /** Freeing what was just allocated restores the bitmap bit for bit. */
  lemma MarkThenUnmark(b: seq<Byte>, i: nat)
    requires i < 8 * |b| && !Decode(b)[i]
    ensures Unmark(Mark(b, i), i) == b
  {
    DecodeAt(b, i);
    ByteRestore(b[i / 8], i % 8);
  }

  lemma ByteRestore(x: Byte, k: nat)
    requires k < 8 && !Bit(x, k)
    ensures ByteWithout(ByteWith(x, k), k) == x
  {
    BitsRestore(x, k);
  }

  function CountFalse(s: seq<bool>): nat {
    if s == [] then 0 else CountFalse(s[..|s| - 1]) + (if s[|s| - 1] then 0 else 1)
  }

  /** How many of the first n bits are clear. */
  function CountClear(b: seq<Byte>, n: nat): nat
    requires n <= 8 * |b|
  {
    CountFalse(Decode(b)[..n])
  }

  lemma {:induction false} CountUpdate(s: seq<bool>, i: nat, x: bool)
    requires i < |s|
    ensures CountFalse(s[i := x]) == CountFalse(s) + (if s[i] then 0 else -1) + (if x then 0 else 1)
    decreases |s|
  {
    var n := |s| - 1;
    if i < n {
      CountUpdate(s[..n], i, x);
      assert s[i := x][..n] == s[..n][i := x];
    } else {
      assert s[i := x][..n] == s[..n];
    }
  }

  lemma {:induction false} CountZero(s: seq<bool>)
    ensures CountFalse(s) <= |s|
    ensures CountFalse(s) == 0 <==> forall i | 0 <= i < |s| :: s[i]
    decreases |s|
  {
    if s != [] {
      CountZero(s[..|s| - 1]);
    }
  }

  lemma CountMark(b: seq<Byte>, i: nat, n: nat)
    requires i < n <= 8 * |b|
    ensures CountClear(Mark(b, i), n) == CountClear(b, n) - (if Decode(b)[i] then 0 else 1)
    ensures CountClear(Unmark(b, i), n) == CountClear(b, n) + (if Decode(b)[i] then 1 else 0)
  {
    DecodeMark(b, i);
    var s := Decode(b);
    CountUpdate(s[..n], i, true);
    CountUpdate(s[..n], i, false);
    assert s[i := true][..n] == s[..n][i := true];
    assert s[i := false][..n] == s[..n][i := false];
  }

  /** Bit j of word w of the bitmap. */
  lemma WordBit(buf: seq<Byte>, blocki: nat, j: nat)
    requires blocki * 4 + 4 <= |buf| && j < 32
    ensures Bit(WORD - 1 - WordAt(buf, blocki * 4), j) == !Decode(buf)[blocki * 32 + j]
  {
    Pow2Of32();
    BitsOfComplement(WordAt(buf, blocki * 4), 32, j);
    WordBits(buf, blocki * 4, j);
    DecodeAt(buf, blocki * 32 + j);
  }

  /** What ffsl of the complemented word says about the bitmap. */
  lemma FirstClearInWord(buf: seq<Byte>, blocki: nat, off: nat)
    requires blocki * 4 + 4 <= |buf|
    requires off == Ffs(WORD - 1 - WordAt(buf, blocki * 4), 32)
    ensures off == 0 ==> forall i | blocki * 32 <= i < blocki * 32 + 32 :: Decode(buf)[i]
    ensures off != 0 ==> off <= 32 && !Decode(buf)[blocki * 32 + (off - 1)]
    ensures off != 0 ==> forall i | blocki * 32 <= i < blocki * 32 + (off - 1) :: Decode(buf)[i]
  {
    forall i | blocki * 32 <= i < blocki * 32 + (if off == 0 then 32 else off - 1) ensures Decode(buf)[i] {
      WordBit(buf, blocki, i - blocki * 32);
    }
    if off != 0 {
      WordBit(buf, blocki, off - 1);
    }
  }

  /** ext2fs.c:344-351 and 426-433: the first clear bit, word by word through ffsl(~buf[blocki]);
      off is 0 when all bits are set. */
  method FindClear(buf: seq<Byte>, words: nat) returns (blocki: nat, off: nat)
    requires words * 4 <= |buf|
    ensures off == 0 ==> forall i | 0 <= i < words * 32 :: Decode(buf)[i]
    ensures off != 0 ==> blocki < words && off <= 32 && !Decode(buf)[blocki * 32 + (off - 1)]
    ensures off != 0 ==> forall i | 0 <= i < blocki * 32 + (off - 1) :: Decode(buf)[i]
  {
    blocki, off := 0, 0;
    while blocki < words
      invariant blocki <= words && off == 0
      invariant forall i | 0 <= i < blocki * 32 :: Decode(buf)[i]
    {
      off := Ffs(WORD - 1 - WordAt(buf, blocki * 4), 32);
      FirstClearInWord(buf, blocki, off);
      if off != 0 {
        return;
      }
      blocki := blocki + 1;
    }
  }

  /** buf[w] |= 1 << k sets bit 32 * w + k of the bitmap; buf[w] &= ~(1 << k) clears it. */
  lemma WordMarks(buf: seq<Byte>, w: nat, k: nat)
    requires w * 4 + 4 <= |buf| && k < 32
    ensures PutWordAt(buf, w * 4, WithBit(WordAt(buf, w * 4), k)) == Mark(buf, w * 32 + k)
    ensures PutWordAt(buf, w * 4, WithoutBit(WordAt(buf, w * 4), k)) == Unmark(buf, w * 32 + k)
  {
    WordWith(buf, w * 4, k);
    WordWithout(buf, w * 4, k);
    assert (w * 32 + k) / 8 == w * 4 + k / 8 && (w * 32 + k) % 8 == k % 8;
  }
}
