/** The scaling loops of fmt_fp (src/libc/stdio/vfprintf.c:258-294): from a binary floating-point number to
    digits in base 10^9, in a buffer with a first digit a, a units digit r and an end z. */
module Decimals {
  import opened Bytes

  const BASE := 1000000000
  const MANT_DIG := 64
  const MAX_EXP := 16384
  const SIZE: nat := (MANT_DIG + 28) / 29 + 1 + (MAX_EXP + MANT_DIG + 28 + 8) / 9

  function Pow(k: nat): (r: nat)
    ensures 1 <= r
  {
    if k == 0 then 1 else BASE * Pow(k - 1)
  }

  /** The number a sequence of digits stands for. */
  function Num(s: seq<nat>): nat {
    if s == [] then 0 else Num(s[..|s| - 1]) * BASE + s[|s| - 1]
  }

  predicate Digits(s: seq<nat>) {
    forall i | 0 <= i < |s| :: s[i] < BASE
  }

  /** What the digits from a to z are worth, in units of the last place of the buffer. */
  function Value(big: seq<nat>, a: nat, z: nat): nat
    requires z <= |big|
  {
    if a <= z then Num(big[a..z]) * Pow(|big| - z) else 0
  }

  lemma {:induction false} TwoSum(j: nat, k: nat)
    ensures Pow2(j + k) == Pow2(j) * Pow2(k)
  {
    if j != 0 {
      TwoSum(j - 1, k);
      assert Pow2(j + k) == 2 * (Pow2(j - 1) * Pow2(k));
    }
  }

  lemma {:induction false} PowSum(j: nat, k: nat)
    ensures Pow(j + k) == Pow(j) * Pow(k)
  {
    if j != 0 {
      PowSum(j - 1, k);
      assert Pow(j + k) == BASE * (Pow(j - 1) * Pow(k));
    }
  }

  lemma {:induction false} NumConcat(s: seq<nat>, t: seq<nat>)
    ensures Num(s + t) == Num(s) * Pow(|t|) + Num(t)
    decreases |t|
  {
    if t == [] {
      assert s + t == s;
    } else {
      var n := |t| - 1;
      NumConcat(s, t[..n]);
      assert (s + t)[..|s + t| - 1] == s + t[..n];
      calc {
        Num(s + t);
        (Num(s) * Pow(n) + Num(t[..n])) * BASE + t[n];
        { Distribute(Num(s), Pow(n), Num(t[..n])); }
        Num(s) * Pow(n + 1) + Num(t[..n]) * BASE + t[n];
      }
    }
  }

  lemma Distribute(x: int, p: int, y: int)
    ensures (x * p + y) * BASE == x * (BASE * p) + y * BASE
  {
  }

  /** Digits below BASE make a number below the next power. */
  lemma {:induction false} NumBelow(s: seq<nat>)
    requires Digits(s)
    ensures Num(s) < Pow(|s|)
    decreases |s|
  {
    if s != [] {
      NumBelow(s[..|s| - 1]);
    }
  }

  lemma NumCons(s: seq<nat>, d: nat, z: nat)
    requires d < z <= |s|
    ensures Num(s[d..z]) == s[d] * Pow(z - d - 1) + Num(s[d + 1..z])
  {
    NumConcat([s[d]], s[d + 1..z]);
    assert [s[d]] + s[d + 1..z] == s[d..z];
    assert Num([s[d]]) == s[d];
  }

  lemma NumSnoc(s: seq<nat>, a: nat, d: nat)
    requires a <= d < |s|
    ensures Num(s[a..d + 1]) == Num(s[a..d]) * BASE + s[d]
  {
    assert s[a..d + 1][..d - a] == s[a..d];
  }

  lemma PowNext(k: nat)
    ensures Pow(k + 1) == BASE * Pow(k)
  {
  }

  lemma CarryOut(x: nat, p: nat)
    ensures x / BASE * (BASE * p) + x % BASE * p == x * p
  {
    var q, r := x / BASE, x % BASE;
    assert q * (BASE * p) + r * p == (q * BASE + r) * p;
  }

  lemma CarryStep(t: nat, digit: nat, carry: nat, p: nat, tail: nat, oldTail: nat)
    requires carry * p + tail == t * oldTail
    ensures (digit * t + carry) * p + tail == t * (digit * p + oldTail)
  {
    assert (digit * t + carry) * p == t * (digit * p) + carry * p;
  }

  lemma AtMostTimes(x: nat, y: nat, t: nat)
    requires x <= y
    ensures x * t <= y * t
  {
  }

  /** A digit with the carry from behind it. */
  function Widened(digit: nat, t: nat, carry: nat): nat {
    digit * t + carry
  }

  lemma CarryBound(digit: nat, t: nat, carry: nat)
    requires digit < BASE && carry < t <= 0x2000_0000
    ensures Widened(digit, t, carry) < 0x1_0000_0000_0000_0000 && Widened(digit, t, carry) / BASE < t
  {
    AtMostTimes(digit + 1, BASE, t);
    assert (digit + 1) * t == digit * t + t;
  }

  /** The digits from d to z are t times what they were, with carry still to be added before them. */
  ghost predicate Carried(was: seq<nat>, cur: seq<nat>, d: nat, z: nat, t: nat, carry: nat)
    requires d <= z <= |was| && z <= |cur|
  {
    carry * Pow(z - d) + Num(cur[d..z]) == t * Num(was[d..z])
  }

  lemma LeftStep(was: seq<nat>, cur: seq<nat>, d: nat, z: nat, t: nat, carry: nat, x: nat)
    requires d < z <= |was| == |cur| && x == Widened(was[d], t, carry)
    requires Carried(was, cur, d + 1, z, t, carry)
    ensures Carried(was, cur[d := x % BASE], d, z, t, x / BASE)
  {
    var p, next := Pow(z - d - 1), cur[d := x % BASE];
    PowNext(z - d - 1);
    NumCons(was, d, z);
    NumCons(next, d, z);
    assert next[d + 1..z] == cur[d + 1..z];
    hide Num, Pow;
    CarryOut(x, p);
    CarryStep(t, was[d], carry, p, Num(cur[d + 1..z]), Num(was[d + 1..z]));
  }

  /** One pass of the loop at lines 271-275: all digits times 2^sh, with what does not fit carried out. The 64-bit
      intermediate value does not overflow. */
  method ShiftLeft(big: array<nat>, a: nat, z: nat, sh: nat) returns (carry: nat)
    requires a <= z <= big.Length && 1 <= sh <= 29 && Digits(big[a..z])
    modifies big
    ensures Digits(big[a..z]) && carry < Pow2(sh) <= 0x2000_0000
    ensures Carried(old(big[..]), big[..], a, z, Pow2(sh), carry)
    ensures forall i | 0 <= i < big.Length && !(a <= i < z) :: big[i] == old(big[i])
  {
    ghost var was := big[..];
    assert forall i | a <= i < z :: was[i] == was[a..z][i - a];
    var t := Pow2(sh);
    TwoAtMost(sh);
    carry := 0;
    var d := z;
    hide Carried, Pow2, Widened;
    while a < d
      invariant a <= d <= z && carry < t
      invariant forall i | d <= i < z :: big[i] < BASE
      invariant forall i | 0 <= i < big.Length && !(d <= i < z) :: big[i] == was[i]
      invariant Carried(was, big[..], d, z, t, carry)
    {
      d := d - 1;
      ghost var cur := big[..];
      CarryBound(big[d], t, carry);
      var x := Widened(big[d], t, carry);
      assert x < 0x1_0000_0000_0000_0000;
      var low, high: nat := x % BASE, x / BASE;
      LeftStep(was, cur, d, z, t, carry, x);
      big[d] := low;
      assert big[..] == cur[d := low];
      carry := high;
    }
  }

  lemma TwoAtMost(sh: nat)
    requires sh <= 29
    ensures Pow2(sh) <= 0x2000_0000
  {
    assert Pow2(5) == 32 && Pow2(9) == 512;
    TwoSum(5, 5);
    TwoSum(10, 10);
    TwoSum(20, 9);
    TwoGrows(sh, 29);
  }

  lemma {:induction false} TwoGrows(j: nat, k: nat)
    requires j <= k
    ensures Pow2(j) <= Pow2(k)
    decreases k
  {
    if j < k {
      TwoGrows(j, k - 1);
    }
  }

  /** A pass and its carry digit multiply the value. */
  lemma LeftValue(was: seq<nat>, cur: seq<nat>, a: nat, z: nat, t: nat, carry: nat)
    requires a <= z <= |was| == |cur| && Carried(was, cur, a, z, t, carry)
    ensures carry == 0 ==> Value(cur, a, z) == t * Value(was, a, z)
    ensures 0 < a ==> Value(cur[a - 1 := carry], a - 1, z) == t * Value(was, a, z)
  {
    if 0 < a {
      NumCons(cur[a - 1 := carry], a - 1, z);
      assert cur[a - 1 := carry][a..z] == cur[a..z];
    }
    Regroup(t, Num(was[a..z]), Pow(|was| - z));
  }

  lemma Regroup(x: int, y: int, z: int)
    ensures x * y * z == x * (y * z)
  {
  }

  lemma TrimValue(s: seq<nat>, a: nat, z: nat)
    requires a < z <= |s| && s[z - 1] == 0
    ensures Value(s, a, z - 1) == Value(s, a, z)
  {
    NumSnoc(s, a, z - 1);
    PowNext(|s| - z);
    Regroup(Num(s[a..z - 1]), BASE, Pow(|s| - z));
  }

  lemma ScaledTwice(i: nat, j: nat, v0: nat, v1: nat, v2: nat)
    requires v1 == Pow2(i) * v0 && v2 == Pow2(j) * v1
    ensures v2 == Pow2(i + j) * v0
  {
    TwoSum(j, i);
    Regroup(Pow2(j), Pow2(i), v0);
  }

  /** Line 277: zeros at the end are dropped. */
  method Trim(big: array<nat>, a: nat, end: nat) returns (z: nat)
    requires a <= end <= big.Length
    ensures a <= z <= end && Value(big[..], a, z) == Value(big[..], a, end)
  {
    hide Value;
    z := end;
    while a < z && big[z - 1] == 0
      invariant a <= z <= end && Value(big[..], a, z) == Value(big[..], a, end)
    {
      TrimValue(big[..], a, z);
      z := z - 1;
    }
  }

  /** One round of the loop at lines 268-279. */
  method ScaleUpBy(big: array<nat>, first: nat, end: nat, sh: nat) returns (a: nat, z: nat)
    requires 1 <= first <= end <= big.Length && 1 <= sh <= 29 && Digits(big[first..end])
    modifies big
    ensures first - 1 <= a <= z <= end && Digits(big[a..z])
    ensures Value(big[..], a, z) == Pow2(sh) * Value(old(big[..]), first, end)
  {
    hide Value, Carried, Pow2;
    ghost var was := big[..];
    a := first;
    var carry := ShiftLeft(big, a, end, sh);
    ghost var cur, tail := big[..], big[a..end];
    LeftValue(was, cur, a, end, Pow2(sh), carry);
    if carry != 0 {
      a := a - 1;
      big[a] := carry;
      assert big[..] == cur[a := carry] && big[a..end] == [carry] + tail;
    }
    z := Trim(big, a, end);
    assert big[a..z] == big[a..end][..z - a];
  }

  /** The loop at lines 268-279: the value is multiplied by 2^e2, exactly, and a stays in the buffer. */
  method ScaleUp(big: array<nat>, first: nat, end: nat, e2: nat) returns (a: nat, z: nat)
    requires (e2 + 28) / 29 <= first <= end <= big.Length && Digits(big[first..end])
    modifies big
    ensures a <= z <= end && Digits(big[a..z])
    ensures Value(big[..], a, z) == Pow2(e2) * Value(old(big[..]), first, end)
  {
    var e := e2;
    a, z := first, end;
    ghost var v := Value(big[..], first, end);
    assert Pow2(0) == 1;
    hide Value, Pow2;
    while 0 < e
      invariant 0 <= e <= e2 && (e + 28) / 29 <= a <= z <= end
      invariant Digits(big[a..z])
      invariant Value(big[..], a, z) == Pow2(e2 - e) * v
    {
      var sh := if e < 29 then e else 29;
      ghost var w := Value(big[..], a, z);
      a, z := ScaleUpBy(big, a, z, sh);
      ScaledTwice(e2 - e, sh, v, w, Value(big[..], a, z));
      e := e - sh;
    }
  }

  lemma TwoDivides(sh: nat) returns (q: nat)
    requires sh <= 9
    ensures q == BASE / Pow2(sh) == 1953125 * Pow2(9 - sh) && q * Pow2(sh) == BASE && 1 <= q
  {
    TwoSum(9 - sh, sh);
    assert Pow2(9) == 512;
    q := 1953125 * Pow2(9 - sh);
    Regroup(1953125, Pow2(9 - sh), Pow2(sh));
    ExactQuotient(BASE, q, Pow2(sh));
  }

  lemma ExactQuotient(x: nat, q: nat, t: nat)
    requires 0 < t && x == q * t
    ensures x / t == q
  {
    if x / t < q {
      AtMostTimes(x / t + 1, q, t);
    } else if q < x / t {
      AtMostTimes(q + 1, x / t, t);
    }
  }

  lemma QuotientBelow(w: nat, q: nat, t: nat)
    requires 0 < t && w < q * t
    ensures w / t < q
  {
    if q <= w / t {
      AtMostTimes(q, w / t, t);
    }
  }

  /** What a digit becomes, and what it passes on to the next one. */
  function Halved(digit: nat, t: nat, carry: nat): nat
    requires 0 < t
  {
    digit / t + carry
  }

  function PassedOn(digit: nat, t: nat): nat
    requires 0 < t
  {
    BASE / t * (digit % t)
  }

  lemma HalvedBounds(digit: nat, t: nat, q: nat, carry: nat)
    requires digit < BASE && 0 < t && q == BASE / t && q * t == BASE && carry <= BASE - q
    ensures carry <= Halved(digit, t, carry) < BASE
    ensures PassedOn(digit, t) <= BASE - q
    ensures digit != 0 ==> 0 < Halved(digit, t, carry) || 0 < PassedOn(digit, t)
  {
    QuotientBelow(digit, q, t);
    RestBounds(digit % t, t, q);
    if digit != 0 && digit / t == 0 {
      SmallDigit(digit, t);
    }
  }

  lemma RestBounds(rest: nat, t: nat, q: nat)
    requires rest < t && q * t == BASE
    ensures q * rest <= BASE - q && (0 < rest ==> 0 < q * rest)
  {
    AtMostTimes(rest + 1, t, q);
    assert (rest + 1) * q == q * rest + q;
  }

  lemma SmallDigit(digit: nat, t: nat)
    requires 0 < t && digit / t == 0
    ensures digit % t == digit
  {
  }

  /** The digits from a to d, with carry as one more digit, are what they were divided by t. */
  ghost predicate Divided(was: seq<nat>, cur: seq<nat>, a: nat, d: nat, t: nat, carry: nat)
    requires a <= d <= |was| && d <= |cur|
  {
    Num(was[a..d]) * BASE == t * (Num(cur[a..d]) * BASE + carry)
  }

  lemma DivideStep(w: nat, t: nat, q: nat, was: nat, cur: nat, carry: nat)
    requires 0 < t && q == BASE / t && q * t == BASE && was * BASE == t * (cur * BASE + carry)
    ensures (was * BASE + w) * BASE == t * ((cur * BASE + Halved(w, t, carry)) * BASE + PassedOn(w, t))
  {
    var n := cur * BASE + carry;
    assert w == t * (w / t) + w % t;
    assert t * n + t * (w / t) == t * (n + w / t);
    assert t * (n + w / t) * BASE == t * ((n + w / t) * BASE);
    assert w % t * BASE == t * (q * (w % t)) by {
      Regroup(w % t, q, t);
    }
    assert t * ((n + w / t) * BASE) + t * (q * (w % t)) == t * ((n + w / t) * BASE + q * (w % t));
  }

  lemma RightStep(was: seq<nat>, cur: seq<nat>, a: nat, d: nat, t: nat, q: nat, carry: nat)
    requires a <= d < |was| == |cur| && 0 < t && q == BASE / t && q * t == BASE
    requires Divided(was, cur, a, d, t, carry)
    ensures Divided(was, cur[d := Halved(was[d], t, carry)], a, d + 1, t, PassedOn(was[d], t))
  {
    var next := cur[d := Halved(was[d], t, carry)];
    NumSnoc(was, a, d);
    NumSnoc(next, a, d);
    assert next[a..d] == cur[a..d];
    hide Num;
    DivideStep(was[d], t, q, Num(was[a..d]), Num(cur[a..d]), carry);
  }

  /** One pass of the loop at lines 283-287: all digits divided by 2^sh; the rest is one more digit. Only the first
      digit can become zero while a later one is not. */
  method ShiftRight(big: array<nat>, a: nat, z: nat, sh: nat) returns (carry: nat)
    requires a <= z <= big.Length && 1 <= sh <= 9 && Digits(big[a..z])
    modifies big
    ensures Digits(big[a..z]) && carry < BASE
    ensures Divided(old(big[..]), big[..], a, z, Pow2(sh), carry)
    ensures forall i | 0 <= i < big.Length && !(a <= i < z) :: big[i] == old(big[i])
    ensures a < z && old(big[a]) != 0 ==> big[a] != 0 || (if a + 1 < z then big[a + 1] != 0 else carry != 0)
  {
    ghost var was := big[..];
    assert forall i | a <= i < z :: was[i] == was[a..z][i - a];
    var t := Pow2(sh);
    ghost var q := TwoDivides(sh);
    carry := 0;
    var d := a;
    hide Divided, Pow2, Halved, PassedOn;
    while d < z
      invariant a <= d <= z && carry <= BASE - q
      invariant forall i | a <= i < d :: big[i] < BASE
      invariant forall i | 0 <= i < big.Length && !(a <= i < d) :: big[i] == was[i]
      invariant Divided(was, big[..], a, d, t, carry)
      invariant a < d && was[a] != 0 ==> big[a] != 0 || (if a + 1 < d then big[a + 1] != 0 else carry != 0)
    {
      ghost var cur := big[..];
      HalvedBounds(big[d], t, q, carry);
      RightStep(was, cur, a, d, t, q, carry);
      var digit := Halved(big[d], t, carry);
      carry := PassedOn(big[d], t);
      big[d] := digit;
      assert big[..] == cur[d := digit];
      d := d + 1;
    }
  }

  /** A pass and its extra digit divide the value. */
  lemma RightValue(was: seq<nat>, cur: seq<nat>, a: nat, z: nat, t: nat, carry: nat)
    requires a <= z <= |was| == |cur| && Divided(was, cur, a, z, t, carry)
    ensures carry == 0 ==> Value(was, a, z) == t * Value(cur, a, z)
    ensures z < |was| ==> Value(was, a, z) == t * Value(cur[z := carry], a, z + 1)
  {
    var n, m, p := Num(was[a..z]), Num(cur[a..z]), Pow(|was| - z);
    if carry == 0 {
      assert n == t * m;
      Regroup(t, m, p);
    }
    if z < |was| {
      var next := cur[z := carry];
      NumSnoc(next, a, z);
      assert next[a..z] == cur[a..z];
      PowNext(|was| - z - 1);
      Regroup(n, BASE, Pow(|was| - z - 1));
      Regroup(t, m * BASE + carry, Pow(|was| - z - 1));
    }
  }

  lemma LeadValue(s: seq<nat>, a: nat, z: nat)
    requires a < z <= |s| && s[a] == 0
    ensures Value(s, a + 1, z) == Value(s, a, z)
  {
    NumCons(s, a, z);
  }

  /** A first digit that is not zero bounds the value from below. */
  lemma LeadBound(s: seq<nat>, a: nat, z: nat)
    requires a < z <= |s| && s[a] != 0
    ensures Pow(|s| - a - 1) <= Value(s, a, z)
  {
    NumCons(s, a, z);
    AtMostTimes(1, s[a], Pow(z - a - 1));
    AtMostTimes(Pow(z - a - 1), Num(s[a..z]), Pow(|s| - z));
    PowSum(z - a - 1, |s| - z);
  }

  /** The weight of the last digit before position i; what is cut off there is worth less. */
  function Unit(size: nat, i: nat): nat {
    if i < size then Pow(size - i) else 0
  }

  lemma ValueBelow(s: seq<nat>, a: nat, z: nat)
    requires a <= z <= |s| && Digits(s[a..z])
    ensures Value(s, a, z) <= Pow(|s| - a)
  {
    NumBelow(s[a..z]);
    AtMostTimes(Num(s[a..z]), Pow(z - a), Pow(|s| - z));
    PowSum(z - a, |s| - z);
  }

  lemma ValueSplit(s: seq<nat>, a: nat, i: nat, z: nat)
    requires a <= i <= z <= |s|
    ensures Value(s, a, z) == Value(s, a, i) + Value(s, i, z)
  {
    NumConcat(s[a..i], s[i..z]);
    assert s[a..i] + s[i..z] == s[a..z];
    PowSum(z - i, |s| - z);
    hide Num, Pow;
    TimesSum(Num(s[a..i]) * Pow(z - i), Num(s[i..z]), Pow(|s| - z));
    Regroup(Num(s[a..i]), Pow(z - i), Pow(|s| - z));
  }

  lemma TimesSum(x: int, y: int, z: int)
    ensures (x + y) * z == x * z + y * z
  {
  }

  /** Line 292: cutting the digits behind end. */
  lemma CutValue(s: seq<nat>, a: nat, z: nat, end: nat) returns (cut: nat)
    requires end <= z <= |s| && (a <= z ==> Digits(s[a..z]))
    ensures Value(s, a, z) == Value(s, a, end) + cut && cut <= Unit(|s|, end)
    ensures end == z ==> cut == 0
  {
    if end == z || z < a {
      cut := 0;
    } else if end < a {
      cut := Value(s, a, z);
      ValueBelow(s, a, z);
      PowGrows(|s| - a, |s| - end);
    } else {
      cut := Value(s, end, z);
      ValueSplit(s, a, end, z);
      assert s[end..z] == s[a..z][end - a..];
      ValueBelow(s, end, z);
    }
  }

  lemma {:induction false} PowGrows(j: nat, k: nat)
    requires j <= k
    ensures Pow(j) <= Pow(k)
    decreases k
  {
    if j < k {
      PowGrows(j, k - 1);
    }
  }

  /** The digits after a pass: without a leading zero, with the extra digit. */
  lemma PassDigits(cur: seq<nat>, first: nat, end: nat, carry: nat, a: nat)
    requires first <= end < |cur| && Digits(cur[first..end]) && carry < BASE && first <= a
    ensures a <= end ==> Digits(cur[a..end])
    ensures a <= end + 1 ==> Digits(cur[end := carry][a..end + 1])
  {
    assert forall i | first <= i < end :: cur[i] == cur[first..end][i - first];
  }

  lemma PassValue(was: seq<nat>, cur: seq<nat>, first: nat, end: nat, t: nat, carry: nat, next: seq<nat>, a: nat,
                  z: nat)
    requires first <= end < |was| == |cur| && Divided(was, cur, first, end, t, carry)
    requires next == (if carry != 0 then cur[end := carry] else cur)
    requires first < z ==> a == (if next[first] == 0 then first + 1 else first)
    requires first <= a && z == (if carry != 0 then end + 1 else end)
    ensures Value(was, first, end) == t * Value(next, a, z)
  {
    RightValue(was, cur, first, end, t, carry);
    if first < z && a != first {
      LeadValue(next, first, z);
    }
    if z <= first {
      assert Value(next, first, z) == Value(next, a, z) == 0;
    }
  }

  /** Lines 283-289: the value divided by 2^sh, exactly. A leading zero goes, a new digit may come. */
  method DivideDigits(big: array<nat>, first: nat, end: nat, sh: nat) returns (a: nat, z: nat)
    requires first < big.Length && end < big.Length && 1 <= sh <= 9 && (first <= end ==> Digits(big[first..end]))
    modifies big
    ensures first <= a <= first + 1 && end <= z <= end + 1 && (a <= z ==> Digits(big[a..z]))
    ensures Value(old(big[..]), first, end) == Pow2(sh) * Value(big[..], a, z)
    ensures first < end && old(big[first]) != 0 ==> a < z && big[a] != 0
  {
    a, z := first, end;
    var carry := 0;
    ghost var was := big[..];
    if first <= end {
      carry := ShiftRight(big, first, end, sh);
    }
    ghost var cur := big[..];
    assert end < first ==> Value(was, first, end) == 0;
    hide Value, Pow2, Divided, Digits;
    if big[a] == 0 {
      a := a + 1;
    }
    if carry != 0 {
      big[z] := carry;
      z := z + 1;
    }
    if first <= end {
      assert big[..] == (if carry != 0 then cur[end := carry] else cur);
      PassDigits(cur, first, end, carry, a);
      PassValue(was, cur, first, end, Pow2(sh), carry, big[..], a, z);
    }
  }

  /** With its first digit in place, a value loses at most one part in BASE^(need - 1) when need digits are kept. */
  lemma CutShare(s: seq<nat>, a: nat, z: nat, need: nat, cut: nat)
    requires a < z <= |s| && s[a] != 0 && 1 <= need && cut <= Unit(|s|, a + need)
    ensures cut * Pow(need - 1) <= Value(s, a, z)
  {
    if a + need < |s| {
      AtMostTimes(cut, Pow(|s| - a - need), Pow(need - 1));
      PowSum(|s| - a - need, need - 1);
      LeadBound(s, a, z);
    }
  }

  /** Line 292 keeps need digits from b on. */
  lemma CutAt(s: seq<nat>, a: nat, z: nat, b: nat, need: nat, end: nat) returns (cut: nat)
    requires z <= |s| && (a <= z ==> Digits(s[a..z])) && 1 <= need
    requires end == (if need < z - b then b + need else z)
    ensures end <= z && (a <= end ==> Digits(s[a..end]))
    ensures Value(s, a, z) == Value(s, a, end) + cut && cut <= Unit(|s|, b + need)
    ensures b == a && a < z && s[a] != 0 ==> a < end && cut * Pow(need - 1) <= Value(s, a, z)
  {
    cut := CutValue(s, a, z, end);
    if a <= end {
      assert s[a..end] == s[a..z][..end - a];
    }
    if b == a && a < z && s[a] != 0 {
      CutShare(s, a, z, need, cut);
    }
  }

  /** One round of the loop at lines 280-294. cut is what the digits behind the precision were worth. */
  method ScaleDownBy(big: array<nat>, first: nat, end: nat, sh: nat, r: nat, need: nat, fixed: bool)
    returns (a: nat, z: nat, ghost cut: nat)
    requires first < big.Length && end < big.Length && 1 <= sh <= 9 && (first <= end ==> Digits(big[first..end]))
    requires 1 <= need
    modifies big
    ensures first <= a <= first + 1 && z <= end + 1 && (a <= z ==> Digits(big[a..z]))
    ensures Value(old(big[..]), first, end) == Pow2(sh) * (Value(big[..], a, z) + cut)
    ensures cut <= Unit(big.Length, (if fixed then r else a) + need)
    ensures !fixed && first < end && old(big[first]) != 0
            ==> a < z && big[a] != 0 && cut * Pow(need - 1) <= Value(big[..], a, z) + cut
  {
    hide Value, Pow, Pow2, Digits, Unit;
    a, z := DivideDigits(big, first, end, sh);
    var b := if fixed then r else a;
    var kept := if need < z - b then b + need else z;
    cut := CutAt(big[..], a, z, b, need, kept);
    z := kept;
  }

  /** A value v of which 2^done times w and d more is left: one more round. */
  lemma LossStep(v: nat, done: nat, w: nat, d: nat, sh: nat, w2: nat, cut: nat)
    requires v == Pow2(done) * w + d && w == Pow2(sh) * (w2 + cut)
    ensures v == Pow2(done + sh) * w2 + (d + Pow2(done + sh) * cut)
    ensures Pow2(done + sh) * (w2 + cut) <= v
  {
    TwoSum(done, sh);
    Regroup(Pow2(done), Pow2(sh), w2 + cut);
  }

  lemma FixedLoss(done: nat, sh: nat, d: nat, cut: nat, u: nat)
    requires 1 <= sh && d <= (2 * Pow2(done) - 1) * u && cut <= u
    ensures d + Pow2(done + sh) * cut <= (2 * Pow2(done + sh) - 1) * u
  {
    var t, t2 := Pow2(done), Pow2(done + sh);
    assert 2 * t <= t2 by {
      TwoGrows(done + 1, done + sh);
    }
    AtMostTimes(cut, u, t2);
    AtMostTimes(2 * t - 1, t2 - 1, u);
    assert (t2 - 1) * u + t2 * u == (2 * t2 - 1) * u;
  }

  lemma FloatLoss(v: nat, rounds: nat, d: nat, t: nat, cut: nat, w: nat, p: nat)
    requires d * p <= rounds * v && cut * p <= w && t * w <= v
    ensures (d + t * cut) * p <= (rounds + 1) * v
  {
    AtMostTimes(cut * p, w, t);
    Regroup(t, cut, p);
    TimesSum(d, t * cut, p);
    TimesSum(rounds, 1, v);
  }

  /** What is left of the value v after dividing by 2^done in some rounds, and what was lost. */
  ghost predicate Left(v: nat, done: nat, w: nat, lost: nat, fixed: bool, u: nat, rounds: nat, p: nat) {
    && v == Pow2(done) * w + lost
    && (fixed ==> lost <= (2 * Pow2(done) - 1) * u)
    && (!fixed ==> lost * p <= rounds * v)
  }

  lemma LeftStepDown(v: nat, done: nat, w: nat, lost: nat, fixed: bool, u: nat, rounds: nat, p: nat, sh: nat,
                     w2: nat, cut: nat) returns (lost2: nat)
    requires Left(v, done, w, lost, fixed, u, rounds, p) && 1 <= sh && w == Pow2(sh) * (w2 + cut)
    requires fixed ==> cut <= u
    requires !fixed ==> cut * p <= w2 + cut
    ensures Left(v, done + sh, w2, lost2, fixed, u, rounds + 1, p)
    ensures lost == 0 && cut == 0 ==> lost2 == 0
  {
    lost2 := lost + Pow2(done + sh) * cut;
    LossStep(v, done, w, lost, sh, w2, cut);
    if fixed {
      FixedLoss(done, sh, lost, cut, u);
    } else {
      FloatLoss(v, rounds, lost, Pow2(done + sh), cut, w2 + cut, p);
    }
  }

  /** One round of the loop at lines 280-294, with what was lost so far. */
  method ScaleDownStep(big: array<nat>, first: nat, end: nat, sh: nat, r: nat, need: nat, fixed: bool, ghost v: nat,
                       ghost done: nat, ghost k: nat, ghost was: nat)
    returns (a: nat, z: nat, ghost lost: nat)
    requires first < big.Length && end < big.Length && 1 <= sh <= 9 && (first <= end ==> Digits(big[first..end]))
    requires 1 <= need && (!fixed ==> first < end && big[first] != 0)
    requires Left(v, done, Value(big[..], first, end), was, fixed, Unit(big.Length, r + need), k, Pow(need - 1))
    requires big.Length <= need ==> was == 0
    modifies big
    ensures a <= first + 1 && z <= end + 1 && (a <= z ==> Digits(big[a..z]))
    ensures Left(v, done + sh, Value(big[..], a, z), lost, fixed, Unit(big.Length, r + need), k + 1, Pow(need - 1))
    ensures big.Length <= need ==> lost == 0
    ensures !fixed ==> a < z && big[a] != 0
  {
    ghost var w, cut := Value(big[..], first, end), 0;
    a, z, cut := ScaleDownBy(big, first, end, sh, r, need, fixed);
    assert big.Length <= need ==> cut == 0;
    lost := LeftStepDown(v, done, w, was, fixed, Unit(big.Length, r + need), k, Pow(need - 1), sh,
                         Value(big[..], a, z), cut);
  }

  /** The loop at lines 280-294: the value is divided by 2^e2, up to lost. For the format f that is less than twice
      the weight of the last digit kept; for e and g it is a share of the value. With precision enough, nothing is
      lost. Both ends stay in the buffer. */
  method ScaleDown(big: array<nat>, first: nat, end: nat, e2: nat, r: nat, need: nat, fixed: bool)
    returns (a: nat, z: nat, ghost lost: nat)
    requires first <= end && first + (e2 + 8) / 9 <= big.Length && end + (e2 + 8) / 9 <= big.Length
    requires Digits(big[first..end]) && 1 <= need
    requires !fixed && 0 < e2 ==> first < end && big[first] != 0
    modifies big
    ensures z <= big.Length && (a <= z ==> Digits(big[a..z]))
    ensures Left(Value(old(big[..]), first, end), e2, Value(big[..], a, z), lost, fixed, Unit(big.Length, r + need),
                 (e2 + 8) / 9, Pow(need - 1))
    ensures big.Length <= need ==> lost == 0
  {
    var e := e2;
    a, z := first, end;
    lost := 0;
    ghost var v, u, p, k := Value(big[..], first, end), Unit(big.Length, r + need), Pow(need - 1), 0;
    assert Left(v, 0, v, 0, fixed, u, 0, p);
    while 0 < e
      invariant 0 <= e <= e2 && k + (e + 8) / 9 == (e2 + 8) / 9
      invariant a <= big.Length - (e + 8) / 9 && z <= big.Length - (e + 8) / 9
      invariant a <= z ==> Digits(big[a..z])
      invariant Left(v, e2 - e, Value(big[..], a, z), lost, fixed, u, k, p)
      invariant big.Length <= need ==> lost == 0
      invariant !fixed && 0 < e ==> a < z && big[a] != 0
    {
      var sh := if e < 9 then e else 9;
      a, z, lost := ScaleDownStep(big, a, z, sh, r, need, fixed, v, e2 - e, k, lost);
      e, k := e - sh, k + 1;
    }
  }

  /** A fraction rest / 2^f, times ten to the ninth, over a power of two that is smaller by up to nine. */
  function NextRest(rest: nat, f: nat): nat {
    rest * (if f < 9 then 1953125 * Pow2(9 - f) else 1953125)
  }

  lemma NextStep(rest: nat, f: nat)
    requires rest < Pow2(f) && f <= 35
    ensures rest * BASE == NextRest(rest, f) * Pow2(if f < 9 then f else 9)
    ensures NextRest(rest, f) < 0x1_0000_0000_0000_0000
    ensures WholePart(NextRest(rest, f), Pow2(if f < 9 then 0 else f - 9)) < BASE
  {
    if 9 <= f {
      LargeRest(rest, f);
    } else {
      var q := TwoDivides(f);
      assert Pow2(0) == 1;
      hide Pow2;
      RestBounds(rest, Pow2(f), q);
      Regroup(rest, q, Pow2(f));
    }
  }

  lemma LargeRest(rest: nat, f: nat)
    requires rest < Pow2(f) && 9 <= f <= 35
    ensures rest * 1953125 * Pow2(9) == rest * BASE
    ensures rest * 1953125 < 0x1_0000_0000_0000_0000 && rest * 1953125 / Pow2(f - 9) < BASE
  {
    TwoAround(f);
    hide Pow2;
    QuotientBelow(rest * 1953125, BASE, Pow2(f - 9));
  }

  lemma TwoAround(f: nat)
    requires 9 <= f <= 35
    ensures Pow2(9) == 512 && Pow2(f) == 512 * Pow2(f - 9) && Pow2(f) <= 0x8_0000_0000
  {
    assert Pow2(9) == 512;
    TwoSum(9, f - 9);
    FractionBound(f);
  }

  lemma FractionBound(f: nat)
    requires f <= 35
    ensures Pow2(f) <= 0x8_0000_0000
  {
    assert Pow2(6) == 64;
    TwoSum(29, 6);
    TwoAtMost(29);
    TwoGrows(f, 35);
  }

  function Moved(m: nat, n: nat): nat {
    m * Pow(n)
  }

  lemma MovedNext(m: nat, n: nat)
    ensures Moved(m, n + 1) == Moved(m, n) * BASE
  {
    Regroup(m, Pow(n), BASE);
  }

  lemma MovedBy(m: nat, n: nat, k: nat)
    ensures Moved(m, n + k) == Moved(m, n) * Pow(k)
  {
    PowSum(n, k);
    Regroup(m, Pow(n), Pow(k));
  }

  /** Of m / 2^f the digits num are written, n of them, and x / 2^g is still to come. */
  ghost predicate Written(m: nat, f: nat, n: nat, num: nat, x: nat, g: nat) {
    g <= f && Moved(m, n) == Pow2(f) * (num * BASE) + Pow2(f - g) * x
  }

  lemma WriteStep(m: nat, f: nat, n: nat, num: nat, x: nat, g: nat, digit: nat, rest: nat)
    requires Written(m, f, n, num, x, g) && x == digit * Pow2(g) + rest && rest < Pow2(g) && g <= 35
    ensures Written(m, f, n + 1, num * BASE + digit, NextRest(rest, g), if g < 9 then 0 else g - 9)
  {
    var k := if g < 9 then g else 9;
    NextStep(rest, g);
    TwoSum(f - g, g);
    TwoSum(f - g, k);
    MovedNext(m, n);
    hide Pow2, Moved, NextRest;
    WriteArith(Moved(m, n), Pow2(f), num, Pow2(f - g), x, Pow2(g), digit, rest, Pow2(k), NextRest(rest, g));
  }

  lemma DigitOut(t: nat, digit: nat, u: nat, rest: nat)
    ensures t * (digit * u + rest) == t * u * digit + t * rest
  {
    Regroup(t, u, digit);
  }

  lemma RestOut(t: nat, rest: nat, y: nat, k: nat)
    requires rest * BASE == y * k
    ensures t * rest * BASE == t * k * y
  {
    Regroup(t, rest, BASE);
    Regroup(t, k, y);
  }

  lemma WriteArith(v: nat, t: nat, num: nat, s: nat, x: nat, u: nat, digit: nat, rest: nat, k: nat, y: nat)
    requires v == t * (num * BASE) + s * x && t == s * u && x == digit * u + rest && rest * BASE == y * k
    ensures v * BASE == t * ((num * BASE + digit) * BASE) + s * k * y
  {
    DigitOut(s, digit, u, rest);
    RestOut(s, rest, y, k);
    var r := s * rest;
    assert v == t * (num * BASE + digit) + r;
    Regroup(t, num * BASE + digit, BASE);
  }

  lemma WrittenAll(s: seq<nat>, r: nat, z: nat, m: nat, f: nat)
    requires r < z <= |s| && Written(m, f, z - r, Num(s[r..z]), 0, 0)
    ensures Moved(m, |s| - 1 - r) == Pow2(f) * Value(s, r, z)
  {
    var n, num := z - r, Num(s[r..z]);
    MovedNext(m, n - 1);
    MovedBy(m, n - 1, |s| - z);
    Regroup(Pow2(f), num, BASE);
    Regroup(Pow2(f), num, Pow(|s| - z));
    hide Pow, Pow2, Num, Moved;
    assert Moved(m, n - 1) == Pow2(f) * num;
  }

  /** The whole part of x / t is the next digit. */
  function WholePart(x: nat, t: nat): nat
    requires 0 < t
  {
    x / t
  }

  function Rest(x: nat, t: nat): nat
    requires 0 < t
  {
    x % t
  }

  lemma PartsAgain(x: nat, t: nat)
    requires 0 < t
    ensures x == WholePart(x, t) * t + Rest(x, t) && Rest(x, t) < t
  {
  }

  /** One more digit is in the buffer. */
  lemma DigitWritten(cur: seq<nat>, r: nat, z: nat, m: nat, f: nat, x: nat, g: nat)
    requires r <= z < |cur| && Written(m, f, z - r, Num(cur[r..z]), x, g) && g <= 35
    ensures Written(m, f, z + 1 - r, Num(cur[z := WholePart(x, Pow2(g))][r..z + 1]), NextRest(Rest(x, Pow2(g)), g),
                    if g < 9 then 0 else g - 9)
  {
    var next := cur[z := WholePart(x, Pow2(g))];
    NumSnoc(next, r, z);
    assert next[r..z] == cur[r..z];
    PartsAgain(x, Pow2(g));
    hide Num, Pow2, Written, NextRest, WholePart, Rest;
    WriteStep(m, f, z - r, Num(cur[r..z]), x, g, WholePart(x, Pow2(g)), Rest(x, Pow2(g)));
  }

  /** The digits from r to z are written, and x / 2^g comes next; the numbers on the way fit a long double. */
  ghost predicate Coming(s: seq<nat>, r: nat, z: nat, m: nat, f: nat, x: nat, g: nat) {
    && r <= z <= |s| && g <= f <= 35
    && Written(m, f, z - r, Num(s[r..z]), x, g)
    && x < 0x1_0000_0000_0000_0000 && WholePart(x, Pow2(g)) < BASE
  }

  lemma ComingNext(s: seq<nat>, r: nat, z: nat, m: nat, f: nat, x: nat, g: nat)
    requires z < |s| && Coming(s, r, z, m, f, x, g)
    ensures WholePart(x, Pow2(g)) < BASE
    ensures Coming(s[z := WholePart(x, Pow2(g))], r, z + 1, m, f, NextRest(Rest(x, Pow2(g)), g),
                   if g < 9 then 0 else g - 9)
  {
    PartsAgain(x, Pow2(g));
    DigitWritten(s, r, z, m, f, x, g);
    NextStep(Rest(x, Pow2(g)), g);
  }

  lemma NothingComing(s: seq<nat>, r: nat, z: nat, m: nat, f: nat, g: nat)
    requires r < z && Coming(s, r, z, m, f, 0, g)
    ensures Moved(m, |s| - 1 - r) == Pow2(f) * Value(s, r, z)
  {
    assert Written(m, f, z - r, Num(s[r..z]), 0, 0);
    WrittenAll(s, r, z, m, f);
  }

  /** Lines 264-265: one digit, and what is left of the fraction. */
  method ExtractDigit(big: array<nat>, ghost r: nat, at: nat, ghost m: nat, ghost f: nat, x: nat, g: nat)
    returns (next: nat, h: nat, z: nat)
    requires at < big.Length && Coming(big[..], r, at, m, f, x, g) && Digits(big[r..at])
    modifies big
    ensures z == at + 1 && h == (if g < 9 then 0 else g - 9) && (next != 0 ==> 0 < g)
    ensures Coming(big[..], r, z, m, f, next, h) && Digits(big[r..z])
    ensures big[..at] == old(big[..at]) && big[at] == WholePart(x, Pow2(g))
  {
    ghost var cur, digits := big[..], big[r..at];
    var t := Pow2(g);
    ComingNext(cur, r, at, m, f, x, g);
    next := NextRest(Rest(x, t), g);
    assert g == 0 ==> next == 0;
    hide Coming, Pow2, WholePart, Rest, NextRest;
    var digit := WholePart(x, t);
    big[at] := digit;
    assert big[..] == cur[at := digit] && big[r..at + 1] == digits + [digit];
    z, h := at + 1, if g < 9 then 0 else g - 9;
  }

  /** The loop at lines 263-266: the digits of m / 2^f, at most one for every nine bits of the fraction. */
  method Extract(big: array<nat>, r: nat, m: nat, f: nat) returns (z: nat)
    requires m < 0x1_0000_0000_0000_0000 && f <= 35 && WholePart(m, Pow2(f)) < BASE && r + (f + 8) / 9 < big.Length
    modifies big
    ensures r < z <= r + 1 + (f + 8) / 9 && Digits(big[r..z]) && big[r] == WholePart(m, Pow2(f))
    ensures Moved(m, big.Length - 1 - r) == Pow2(f) * Value(big[..], r, z)
  {
    var x: nat, g: nat := m, f;
    z := r;
    assert Coming(big[..], r, z, m, f, x, g);
    hide Pow2, WholePart, Moved, Value, Coming, Digits, Num;
    x, g, z := ExtractDigit(big, r, z, m, f, x, g);
    while x != 0
      invariant g <= f && r < z <= r + 1 + (f + 8) / 9 && (x != 0 ==> z <= r + (f + 8) / 9 - (g + 8) / 9)
      invariant Digits(big[r..z]) && big[r] == WholePart(m, Pow2(f))
      invariant Coming(big[..], r, z, m, f, x, g)
      decreases if x != 0 then g + 1 else 0
    {
      x, g, z := ExtractDigit(big, r, z, m, f, x, g);
    }
    NothingComing(big[..], r, z, m, f, g);
  }

  function Ten(k: nat): (r: nat)
    ensures 1 <= r
  {
    if k == 0 then 1 else 10 * Ten(k - 1)
  }

  lemma {:induction false} TenGrows(j: nat, k: nat)
    requires j <= k
    ensures Ten(j) <= Ten(k)
    decreases k
  {
    if j < k {
      TenGrows(j, k - 1);
    }
  }

  lemma {:induction false} TenPow(k: nat)
    ensures Ten(9 * k) == Pow(k)
  {
    if k != 0 {
      TenPow(k - 1);
      TenNine(9 * (k - 1));
    }
  }

  lemma TenNine(k: nat)
    ensures Ten(k + 9) == BASE * Ten(k)
  {
    TenThree(k);
    TenThree(k + 3);
    TenThree(k + 6);
  }

  lemma TenThree(k: nat)
    ensures Ten(k + 3) == 1000 * Ten(k)
  {
    assert Ten(k + 1) == 10 * Ten(k);
    assert Ten(k + 2) == 10 * Ten(k + 1);
  }

  /** m / 2^f * 2^e2 as frexpl and line 258 leave it: zero, or 2^28 <= m / 2^f < 2^29 with no needless factor of two;
      every long double is a multiple of 2^-16445. */
  predicate LongDouble(m: nat, f: nat, e2: int) {
    if m == 0 then f == 0 && e2 == 0
    else
      && f <= 35 && Pow2(28 + f) <= m < Pow2(29 + f)
      && -16473 <= e2 <= MAX_EXP - 29 && (f == 0 || -16445 <= e2 - f)
  }

  lemma FirstDigit(m: nat, f: nat, e2: int)
    requires LongDouble(m, f, e2)
    ensures f <= 35 && m < 0x1_0000_0000_0000_0000
    ensures WholePart(m, Pow2(f)) < BASE && (m != 0 ==> 0 < WholePart(m, Pow2(f)))
  {
    if m != 0 {
      TwoSum(29, f);
      TwoSum(28, f);
      TwoAtMost(29);
      FractionBound(f);
      hide Pow2;
      FirstDigitArith(m, Pow2(f), Pow2(28), Pow2(29));
    }
  }

  lemma FirstDigitArith(m: nat, t: nat, low: nat, high: nat)
    requires 0 < t <= 0x8_0000_0000 && 1 <= low && low * t <= m < high * t && high <= 0x2000_0000
    ensures m < 0x1_0000_0000_0000_0000 && 0 < WholePart(m, t) < BASE
  {
    AtMostTimes(high, 0x2000_0000, t);
    QuotientBelow(m, high, t);
    AtMostTimes(1, low, t);
    if m / t == 0 {
      SmallDigit(m, t);
    }
  }

  /** Line 282: how many digits are kept, and that this is at least 21 decimal places more than asked for. */
  function Need(p: nat): nat {
    1 + (p + MANT_DIG / 3 + 8) / 9
  }

  lemma NeedIsEnough(p: nat)
    ensures Ten(p + 21) <= Pow(Need(p) - 1)
  {
    TenPow(Need(p) - 1);
    TenGrows(p + 21, 9 * (Need(p) - 1));
  }

  /** In the format f, less than two units of the 21st decimal place behind the precision are lost. */
  lemma FixedAccuracy(p: nat, t: nat, lost: nat)
    requires 1 <= t && lost <= (2 * t - 1) * Unit(SIZE, Need(p))
    ensures lost * Ten(p + 21) < 2 * t * Pow(SIZE - 1)
  {
    var need := Need(p);
    NeedIsEnough(p);
    if need < SIZE {
      AtMostTimes(Ten(p + 21), Pow(need - 1), lost);
      AtMostTimes(lost, (2 * t - 1) * Pow(SIZE - need), Pow(need - 1));
      Regroup(2 * t - 1, Pow(SIZE - need), Pow(need - 1));
      PowSum(SIZE - need, need - 1);
      AtMostTimes(1, Pow(SIZE - 1), 1);
      TimesSum(2 * t - 1, 1, Pow(SIZE - 1));
    }
  }

  /** In the formats e and g, less than one part in 10^(p + 17) is lost. */
  lemma FloatAccuracy(p: nat, v: nat, rounds: nat, lost: nat)
    requires rounds <= 10000 && lost * Pow(Need(p) - 1) <= rounds * v
    ensures lost * Ten(p + 17) <= v
  {
    NeedIsEnough(p);
    TenThree(p + 17);
    assert Ten(p + 21) == 10 * Ten(p + 20);
    AtMostTimes(Ten(p + 21), Pow(Need(p) - 1), lost);
    AtMostTimes(rounds, 10000, v);
    Regroup(lost, Ten(p + 17), 10000);
  }

  /** The digits stand for m / 2^f * 2^e2: v is their value in units of the last place of the buffer, of which
      Pow(SIZE - 1 - r) make one. For negative exponents they are the number but for lost, which is nothing when the
      precision is large, and too little to reach the digits asked for. */
  ghost predicate Represented(m: nat, f: nat, e2: int, p: nat, fixed: bool, r: nat, v: nat, lost: nat)
    requires r < SIZE
  {
    && (0 <= e2 ==> lost == 0 && Pow2(f) * v == Pow2(e2) * Moved(m, SIZE - 1 - r))
    && (e2 < 0 ==> Moved(m, SIZE - 1 - r) == Pow2(f) * (Pow2(-e2) * v + lost))
    && (e2 < 0 && fixed ==> lost * Ten(p + 21) < 2 * Pow2(-e2) * Pow(SIZE - 1 - r))
    && (e2 < 0 && !fixed ==> lost * Ten(p + 17) <= Pow2(-e2) * v + lost)
    && (SIZE <= Need(p) ==> lost == 0)
  }

  lemma ScaledUp(m: nat, f: nat, e2: nat, p: nat, fixed: bool, r: nat, v: nat)
    requires r < SIZE && Moved(m, SIZE - 1 - r) == Pow2(f) * v
    ensures Represented(m, f, e2, p, fixed, r, Pow2(e2) * v, 0)
  {
    Regroup(Pow2(f), Pow2(e2), v);
    Regroup(Pow2(e2), Pow2(f), v);
  }

  lemma ScaledDown(m: nat, f: nat, e: nat, p: nat, fixed: bool, v: nat, w: nat, lost: nat)
    requires 0 < e && (e + 8) / 9 <= 10000 && Moved(m, SIZE - 1) == Pow2(f) * v
    requires Left(v, e, w, lost, fixed, Unit(SIZE, Need(p)), (e + 8) / 9, Pow(Need(p) - 1))
    requires SIZE <= Need(p) ==> lost == 0
    ensures Represented(m, f, 0 - e, p, fixed, 0, w, lost)
  {
    hide Ten, Pow, Moved, Unit, Need;
    if fixed {
      FixedAccuracy(p, Pow2(e), lost);
    } else {
      FloatAccuracy(p, v, (e + 8) / 9, lost);
    }
  }

  /** The buffer is large enough: a stays behind its start and z before its end. */
  lemma Room(f: nat, e2: int)
    requires f <= 35 && -16473 <= e2 <= MAX_EXP - 29 && (f == 0 || -16445 <= e2 - f)
    ensures (e2 + 28) / 29 <= SIZE - MANT_DIG - 1 && SIZE - MANT_DIG - 1 + (f + 8) / 9 < SIZE
    ensures e2 < 0 ==> 1 + (f + 8) / 9 + (8 - e2) / 9 <= SIZE
  {
  }

  /** fmt_fp from line 258 to line 294. */
  method ToDigits(m: nat, f: nat, e2: int, p: nat, fixed: bool)
    returns (big: array<nat>, a: nat, r: nat, z: nat, ghost lost: nat)
    requires LongDouble(m, f, e2)
    ensures big.Length == SIZE && r < SIZE && z <= SIZE && (a <= z ==> Digits(big[a..z]))
    ensures Represented(m, f, e2, p, fixed, r, Value(big[..], a, z), lost)
  {
    FirstDigit(m, f, e2);
    Room(f, e2);
    big := new nat[SIZE];
    r := if e2 < 0 then 0 else SIZE - MANT_DIG - 1;
    a := r;
    hide Pow2, Pow, Ten, Moved, Value, WholePart, Digits, Need, Represented, LongDouble;
    z := Extract(big, r, m, f);
    ghost var v := Value(big[..], r, z);
    lost := 0;
    if e2 < 0 {
      a, z, lost := ScaleDown(big, r, z, -e2, r, Need(p), fixed);
      ScaledDown(m, f, -e2, p, fixed, v, Value(big[..], a, z), lost);
    } else {
      a, z := ScaleUp(big, r, z, e2);
      ScaledUp(m, f, e2, p, fixed, r, v);
    }
  }
}
