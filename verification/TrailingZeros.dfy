/** The lowest set bit by multiplication and table look-up (src/libc/internal/atomic.h). */
module TrailingZeros {
  import opened Bytes

  const DEBRUIJN := 0x076b_e629

  /** The table of a_ctz_32. */
  const TABLE: seq<nat> := [
    0, 1, 23, 2, 29, 24, 19, 3, 30, 27, 25, 11, 20, 8, 4, 13,
    31, 22, 28, 18, 26, 10, 7, 12, 21, 17, 9, 6, 16, 5, 15, 14
  ]

  /** i & -i: the value of the lowest set bit alone. */
  function LowestBit(i: nat, bits: nat): nat {
    if bits == 0 then 0 else if i % 2 == 1 then 1 else 2 * LowestBit(i / 2, bits - 1)
  }

  /** debruijn32[x * 0x076be629 >> 27] with a 32-bit product. */
  function Shifted(x: nat): (r: nat)
    ensures r < 32
  {
    x * DEBRUIJN % WORD / 0x800_0000
  }

  function Entry(i: nat): nat
    requires i < 32
  {
    TABLE[i]
  }

  /** a_ctz_32. */
  function Ctz32(i: nat): nat {
    Entry(Shifted(LowestBit(i, 32)))
  }

  /** The lowest set bit of a word has the value 2 to its number. */
  lemma {:induction false} LowestBitValue(i: nat, bits: nat)
    ensures Ffs(i, bits) != 0 ==> LowestBit(i, bits) == Pow2(Ffs(i, bits) - 1)
    decreases bits
  {
    if bits != 0 && i % 2 == 0 {
      LowestBitValue(i / 2, bits - 1);
    }
  }

  /** Where the four bytes of a word start. */
  lemma Powers()
    ensures Pow2(0) == 1 && Pow2(8) == 0x100 && Pow2(16) == 0x1_0000 && Pow2(24) == 0x100_0000
  {
    assert Pow2(8) == 0x100;
    assert Pow2(16) == 0x1_0000;
    assert Pow2(24) == 0x100_0000;
  }

  /** The eight bits of a byte, by doubling. */
  lemma EightPowers(k: nat, x: nat)
    requires Pow2(k) == x
    ensures Pow2(k + 1) == 2 * x && Pow2(k + 2) == 4 * x && Pow2(k + 3) == 8 * x && Pow2(k + 4) == 16 * x
    ensures Pow2(k + 5) == 32 * x && Pow2(k + 6) == 64 * x && Pow2(k + 7) == 128 * x
  {
    assert Pow2(k + 2) == 2 * Pow2(k + 1);
    assert Pow2(k + 4) == 2 * Pow2(k + 3);
    assert Pow2(k + 6) == 2 * Pow2(k + 5);
  }

  lemma Windows0()
    ensures Entry(Shifted(0x1)) == 0
    ensures Entry(Shifted(0x2)) == 1
    ensures Entry(Shifted(0x4)) == 2
    ensures Entry(Shifted(0x8)) == 3
  {
    assert Shifted(0x1) == 0;
    assert Shifted(0x2) == 1;
    assert Shifted(0x4) == 3;
    assert Shifted(0x8) == 7;
  }

  lemma Windows4()
    ensures Entry(Shifted(0x10)) == 4
    ensures Entry(Shifted(0x20)) == 5
    ensures Entry(Shifted(0x40)) == 6
    ensures Entry(Shifted(0x80)) == 7
  {
    assert Shifted(0x10) == 14;
    assert Shifted(0x20) == 29;
    assert Shifted(0x40) == 27;
    assert Shifted(0x80) == 22;
  }

  lemma Windows8()
    ensures Entry(Shifted(0x100)) == 8
    ensures Entry(Shifted(0x200)) == 9
    ensures Entry(Shifted(0x400)) == 10
    ensures Entry(Shifted(0x800)) == 11
  {
    assert Shifted(0x100) == 13;
    assert Shifted(0x200) == 26;
    assert Shifted(0x400) == 21;
    assert Shifted(0x800) == 11;
  }

  lemma Windows12()
    ensures Entry(Shifted(0x1000)) == 12
    ensures Entry(Shifted(0x2000)) == 13
    ensures Entry(Shifted(0x4000)) == 14
    ensures Entry(Shifted(0x8000)) == 15
  {
    assert Shifted(0x1000) == 23;
    assert Shifted(0x2000) == 15;
    assert Shifted(0x4000) == 31;
    assert Shifted(0x8000) == 30;
  }

  lemma Windows16()
    ensures Entry(Shifted(0x10000)) == 16
    ensures Entry(Shifted(0x20000)) == 17
    ensures Entry(Shifted(0x40000)) == 18
    ensures Entry(Shifted(0x80000)) == 19
  {
    assert Shifted(0x10000) == 28;
    assert Shifted(0x20000) == 25;
    assert Shifted(0x40000) == 19;
    assert Shifted(0x80000) == 6;
  }

  lemma Windows20()
    ensures Entry(Shifted(0x100000)) == 20
    ensures Entry(Shifted(0x200000)) == 21
    ensures Entry(Shifted(0x400000)) == 22
    ensures Entry(Shifted(0x800000)) == 23
  {
    assert Shifted(0x100000) == 12;
    assert Shifted(0x200000) == 24;
    assert Shifted(0x400000) == 17;
    assert Shifted(0x800000) == 2;
  }

  lemma Windows24()
    ensures Entry(Shifted(0x1000000)) == 24
    ensures Entry(Shifted(0x2000000)) == 25
    ensures Entry(Shifted(0x4000000)) == 26
    ensures Entry(Shifted(0x8000000)) == 27
  {
    assert Shifted(0x1000000) == 5;
    assert Shifted(0x2000000) == 10;
    assert Shifted(0x4000000) == 20;
    assert Shifted(0x8000000) == 9;
  }

  lemma Windows28()
    ensures Entry(Shifted(0x10000000)) == 28
    ensures Entry(Shifted(0x20000000)) == 29
    ensures Entry(Shifted(0x40000000)) == 30
    ensures Entry(Shifted(0x80000000)) == 31
  {
    assert Shifted(0x10000000) == 18;
    assert Shifted(0x20000000) == 4;
    assert Shifted(0x40000000) == 8;
    assert Shifted(0x80000000) == 16;
  }

  /** The table answers k for every power of two: its 32 entries hit the 32 five-bit windows of the constant. */
  lemma TableInverts(k: nat)
    requires k < 32
    ensures Entry(Shifted(Pow2(k))) == k
  {
    hide Shifted, Pow2, Entry;
    Powers();
    if k < 8 {
      EightPowers(0, 1);
      Windows0();
      Windows4();
    } else if k < 16 {
      EightPowers(8, 0x100);
      Windows8();
      Windows12();
    } else if k < 24 {
      EightPowers(16, 0x1_0000);
      Windows16();
      Windows20();
    } else {
      EightPowers(24, 0x100_0000);
      Windows24();
      Windows28();
    }
  }

  /** a_ctz_32 of a word that is not 0 is the number of its lowest set bit. */
  lemma Ctz32Works(i: nat)
    requires Ffs(i, 32) != 0
    ensures Ctz32(i) == Ffs(i, 32) - 1
  {
    LowestBitValue(i, 32);
    TableInverts(Ffs(i, 32) - 1);
  }
}
