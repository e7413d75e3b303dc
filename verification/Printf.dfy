/** The integer, character and string conversions of printf_core (src/libc/stdio/vfprintf.c), one item of a format at
    a time, and the parser that undoes them (src/libc/stdlib/atoll.c). */
module Printf {
  import opened Options

  const INT_MAX := 0x7fff_ffff
  const ULONG_MAX := 0xffff_ffff
  const INTMAX_MAX := 0x7fff_ffff_ffff_ffff
  const WORD64 := 0x1_0000_0000_0000_0000

  function DigitChar(d: nat, lower: bool): char
    requires d < 16
  {
    if d < 10 then '0' + d as char else (if lower then 'a' else 'A') + (d - 10) as char
  }

  function DigitValue(c: char): nat {
    if '0' <= c <= '9' then (c - '0') as nat
    else if 'a' <= c <= 'f' then (c - 'a') as nat + 10
    else if 'A' <= c <= 'F' then (c - 'A') as nat + 10
    else 0
  }

  /** The digits of a number; none for 0. */
  function Digits(x: nat, base: nat, lower: bool): string
    requires 2 <= base <= 16
  {
    if x == 0 then "" else Digits(x / base, base, lower) + [DigitChar(x % base, lower)]
  }

  /** What a string of digits is worth. */
  function Value(s: string, base: nat): nat {
    if s == "" then 0 else Value(s[..|s| - 1], base) * base + DigitValue(s[|s| - 1])
  }

  /** The digits are worth what they say. */
  lemma DigitsWorth(i: nat)
    requires i < 16
    ensures DigitValue("0123456789abcdef"[i]) == i && DigitValue("0123456789ABCDEF"[i]) == i
  {
  }

  /** The digits in front count for as many powers of the base as there are digits behind them. */
  lemma {:induction false} ValueConcat(s: string, t: string, base: nat)
    ensures Value(s + t, base) == Value(s, base) * Power(base, |t|) + Value(t, base)
    decreases |t|
  {
    hide Value;
    if t == "" {
      assert s + t == s;
      NothingBehind(s, base);
    } else {
      var u, c := t[..|t| - 1], t[|t| - 1];
      ValueConcat(s, u, base);
      assert s + t == s + u + [c] && t == u + [c];
      ValueSnoc(s + u, c, base);
      ValueSnoc(u, c, base);
      PowerTimes(Value(s, base), Power(base, |u|), base, Value(u, base), DigitValue(c));
      assert Power(base, |t|) == base * Power(base, |u|);
    }
  }

  lemma NothingBehind(s: string, base: nat)
    ensures Value(s, base) == Value(s, base) * Power(base, |""|) + Value("", base)
  {
  }

  lemma PowerTimes(v: nat, power: nat, base: nat, w: nat, d: nat)
    ensures (v * power + w) * base + d == v * (base * power) + (w * base + d)
  {
    assert v * power * base == v * (base * power);
  }

  lemma DigitBack(d: nat, lower: bool)
    requires d < 16
    ensures DigitValue(DigitChar(d, lower)) == d
  {
  }

  lemma ValueSnoc(s: string, c: char, base: nat)
    ensures Value(s + [c], base) == Value(s, base) * base + DigitValue(c)
  {
    assert (s + [c])[..|s|] == s;
  }

  lemma {:induction false} DigitsValue(x: nat, base: nat, lower: bool)
    requires 2 <= base <= 16
    ensures Value(Digits(x, base, lower), base) == x
    decreases x
  {
    if x != 0 {
      var q, c := x / base, DigitChar(x % base, lower);
      DigitsValue(q, base, lower);
      DigitBack(x % base, lower);
      ValueSnoc(Digits(q, base, lower), c, base);
      assert Digits(x, base, lower) == Digits(q, base, lower) + [c];
      hide Value, Digits, DigitChar, DigitValue;
      Rebuilt(x, base);
    }
  }

  lemma Rebuilt(x: nat, b: nat)
    requires 0 < b
    ensures x / b * b + x % b == x
  {
  }

  function Power(b: nat, n: nat): nat {
    if n == 0 then 1 else b * Power(b, n - 1)
  }

  /** A number below base^n has at most n digits. */
  lemma {:induction false} DigitsFit(x: nat, base: nat, lower: bool, n: nat)
    requires 2 <= base <= 16 && x < Power(base, n)
    ensures |Digits(x, base, lower)| <= n
    decreases n
  {
    if x != 0 {
      assert n != 0;
      QuotientFits(x, base, Power(base, n - 1));
      DigitsFit(x / base, base, lower, n - 1);
    }
  }

  lemma QuotientFits(x: nat, b: nat, p: nat)
    requires 0 < b && x < b * p
    ensures x / b < p
  {
    Rebuilt(x, b);
  }

  function Fill(c: char, n: nat): (s: string)
    ensures |s| == n && forall i | 0 <= i < n :: s[i] == c
  {
    seq(n, _ => c)
  }

  function Max(a: int, b: int): int {
    if a < b then b else a
  }

  datatype Flags = Flags(alt: bool, zero: bool, left: bool, blank: bool, plus: bool)

  datatype Conversion = Signed | Unsigned | Hex(lower: bool) | Octal

  /** An integer argument is its 64-bit word. */
  datatype Item =
    | Literal(text: string)
    | Integer(conv: Conversion, flags: Flags, width: nat, prec: int, given: bool, arg: nat)
    | Character(flags: Flags, width: nat, c: char)
    | Text(flags: Flags, width: nat, prec: int, str: Option<string>)

  /** A prefix and a body of at least prec characters, in a field of the given width. */
  function Field(left: bool, zero: bool, width: nat, prec: nat, prefix: string, body: string): (t: string)
    ensures |t| == Max(width, |prefix| + Max(prec, |body|))
  {
    var zeros := Fill('0', Max(prec, |body|) - |body|);
    var fill := Max(width, |prefix| + |zeros| + |body|) - (|prefix| + |zeros| + |body|);
    if left then prefix + zeros + body + Fill(' ', fill)
    else if zero then prefix + (Fill('0', fill) + zeros + body)
    else Fill(' ', fill) + prefix + zeros + body
  }

  function Base(conv: Conversion): (b: nat)
    ensures 2 <= b <= 16
  {
    match conv
    case Hex(_) => 16
    case Octal => 8
    case _ => 10
  }

  function Magnitude(conv: Conversion, arg: nat): nat
    requires arg < WORD64
  {
    if conv.Signed? && INTMAX_MAX < arg then WORD64 - arg else arg
  }

  function IntDigits(conv: Conversion, arg: nat): string
    requires arg < WORD64
  {
    Digits(Magnitude(conv, arg), Base(conv), conv.Hex? && conv.lower)
  }

  function Prefix(conv: Conversion, flags: Flags, arg: nat): string {
    match conv
    case Signed => if INTMAX_MAX < arg then "-" else if flags.plus then "+" else if flags.blank then " " else ""
    case Hex(lower) => if arg != 0 && flags.alt then if lower then "0x" else "0X" else ""
    case _ => ""
  }

  /** The precision after line 540: an octal number in the alternate form starts with a zero. */
  function Precision(conv: Conversion, flags: Flags, prec: int, arg: nat): int
    requires arg < WORD64
  {
    if conv.Octal? && flags.alt then Max(prec, |IntDigits(conv, arg)| + 1) else prec
  }

  /** How many digits are printed at least (lines 556-560). */
  function MinDigits(conv: Conversion, flags: Flags, prec: int, arg: nat): nat
    requires arg < WORD64
  {
    var n, p := |IntDigits(conv, arg)|, Precision(conv, flags, prec, arg);
    if arg == 0 && p == 0 then 0 else Max(p, n + (if arg == 0 then 1 else 0))
  }

  /** A precision that does not fit an int is refused. */
  predicate ItemOk(item: Item) {
    item.Integer?
    ==> item.arg < WORD64 && (item.given ==> 0 <= Precision(item.conv, item.flags, item.prec, item.arg))
  }

  /** What an item prints. */
  function ItemText(item: Item): string
    requires ItemOk(item)
  {
    match item
    case Literal(text) => text
    case Integer(conv, flags, width, prec, given, arg) =>
      Field(flags.left, flags.zero && !given, width, MinDigits(conv, flags, prec, arg), Prefix(conv, flags, arg),
            IntDigits(conv, arg))
    case Character(flags, width, c) => Field(flags.left, false, width, 1, "", [c])
    case Text(flags, width, prec, str) =>
      var s := if str.None? then "(null)" else str.value;
      var shown := if 0 <= prec < |s| then s[..prec] else s;
      Field(flags.left, false, width, |shown|, "", shown)
  }

  function Padding(c: char, w: nat, l: nat, left: bool, zero: bool): string {
    if left || zero || w <= l then "" else Fill(c, w - l)
  }

  /** A field is what the three width pads, of which one at most is not empty, the prefix and the body put out. */
  lemma FieldParts(left: bool, zero: bool, w: nat, p: nat, prefix: string, body: string)
    requires !(left && zero) && |body| <= p && |prefix| + p <= w
    ensures var l := |prefix| + p;
            Field(left, zero, w, p, prefix, body)
            == Padding(' ', w, l, left, zero) + prefix + Padding('0', w, l, left, !zero)
               + Padding('0', p, |body|, false, false) + body + Padding(' ', w, l, !left, zero)
  {
  }

  lemma SameField(left: bool, zero: bool, w: nat, p: nat, prefix: string, body: string, w': nat, p': nat)
    requires p' == Max(p, |body|) && w' == Max(w, |prefix| + p')
    ensures Field(left, zero, w, p, prefix, body) == Field(left, zero, w', p', prefix, body)
  {
  }

  lemma Appended(o: string, a: string, b: string, c: string, d: string, e: string, f: string)
    ensures o + a + b + c + d + e + f == o + (a + b + c + d + e + f)
  {
  }

  lemma DigitsOn(x: nat, base: nat, lower: bool, s: string)
    requires 2 <= base <= 16 && 0 < x
    ensures Digits(x, base, lower) + s == Digits(x / base, base, lower) + ([DigitChar(x % base, lower)] + s)
  {
  }

  /** fmt_u: digit by digit from the last one, in 64 bits until the rest fits 32. At most 20 digits. */
  method FmtU(x: nat) returns (s: string)
    requires x < WORD64
    ensures s == Digits(x, 10, false) && |s| <= 20
  {
    var y := x;
    s := "";
    while ULONG_MAX < y
      invariant Digits(y, 10, false) + s == Digits(x, 10, false)
    {
      DigitsOn(y, 10, false, s);
      s := [DigitChar(y % 10, false)] + s;
      y := y / 10;
    }
    while y != 0
      invariant Digits(y, 10, false) + s == Digits(x, 10, false)
    {
      DigitsOn(y, 10, false, s);
      s := [DigitChar(y % 10, false)] + s;
      y := y / 10;
    }
    PowersOf(10);
    DigitsFit(x, 10, false, 20);
  }

  /** fmt_x: the low four bits are the last digit. */
  method FmtX(x: nat, lower: bool) returns (s: string)
    requires x < WORD64
    ensures s == Digits(x, 16, lower) && |s| <= 22
  {
    var y := x;
    s := "";
    while y != 0
      invariant Digits(y, 16, lower) + s == Digits(x, 16, lower)
    {
      DigitsOn(y, 16, lower, s);
      s := [DigitChar(y % 16, lower)] + s;
      y := y / 16;
    }
    PowersOf(16);
    DigitsFit(x, 16, lower, 22);
  }

  /** fmt_o: the low three bits are. */
  method FmtO(x: nat) returns (s: string)
    requires x < WORD64
    ensures s == Digits(x, 8, false) && |s| <= 22
  {
    var y := x;
    s := "";
    while y != 0
      invariant Digits(y, 8, false) + s == Digits(x, 8, false)
    {
      DigitsOn(y, 8, false, s);
      s := [DigitChar(y % 8, false)] + s;
      y := y / 8;
    }
    PowersOf(8);
    DigitsFit(x, 8, false, 22);
  }

  lemma PowersOf(base: nat)
    requires base == 8 || base == 10 || base == 16
    ensures WORD64 <= Power(base, 22) && (base == 10 ==> WORD64 <= Power(base, 20))
  {
    PowerSum(base, 10, 10);
    PowerSum(base, 5, 5);
    PowerSum(base, 20, 2);
    if base == 8 {
      assert Power(8, 5) == 0x8000 && Power(8, 2) == 64;
    } else if base == 10 {
      assert Power(10, 5) == 100000 && Power(10, 2) == 100;
    } else {
      assert Power(16, 5) == 0x10_0000 && Power(16, 2) == 0x100;
    }
  }

  lemma {:induction false} PowerSum(b: nat, j: nat, k: nat)
    ensures Power(b, j + k) == Power(b, j) * Power(b, k)
  {
    if j != 0 {
      PowerSum(b, j - 1, k);
      assert Power(b, j + k) == b * (Power(b, j - 1) * Power(b, k));
    }
  }

  /** Lines 534-553: the sign or base prefix, the digits of the magnitude, and the precision. */
  method IntParts(conv: Conversion, flags: Flags, prec: int, arg: nat) returns (prefix: string, a: string, p: int)
    requires arg < WORD64
    ensures prefix == Prefix(conv, flags, arg) && a == IntDigits(conv, arg) && p == Precision(conv, flags, prec, arg)
  {
    prefix, p := "", prec;
    match conv {
      case Hex(lower) =>
        a := FmtX(arg, lower);
        if arg != 0 && flags.alt {
          prefix := if lower then "0x" else "0X";
        }
      case Octal =>
        a := FmtO(arg);
        if flags.alt && p < |a| + 1 {
          p := |a| + 1;
        }
      case Signed =>
        var v := arg;
        if INTMAX_MAX < arg {
          v, prefix := WORD64 - arg, "-";
        } else if flags.plus {
          prefix := "+";
        } else if flags.blank {
          prefix := " ";
        }
        a := FmtU(v);
      case Unsigned =>
        a := FmtU(arg);
    }
  }

  lemma IntegerText(conv: Conversion, flags: Flags, width: nat, prec: int, given: bool, arg: nat, p: nat)
    requires ItemOk(Integer(conv, flags, width, prec, given, arg)) && p == MinDigits(conv, flags, prec, arg)
    ensures ItemText(Integer(conv, flags, width, prec, given, arg))
            == Field(flags.left, flags.zero && !flags.left && !given, width, p, Prefix(conv, flags, arg),
                     IntDigits(conv, arg))
  {
  }

  /** An item is put out whole and its length given, or refused: when its precision or the count does not fit. */
  ghost predicate Printed(item: Item, cnt: nat, before: string, after: string, l: Option<nat>) {
    if ItemOk(item) && |ItemText(item)| <= INT_MAX - cnt
    then l == Some(|ItemText(item)|) && after == before + ItemText(item)
    else l == None && after == before
  }

  class Stream {
    var written: string

    constructor ()
      ensures written == ""
    {
      written := "";
    }

    /** pad (lines 139-148): in pieces of at most 256 characters, unless a flag forbids it. */
    method Pad(c: char, w: nat, l: nat, left: bool, zero: bool)
      modifies this
      ensures written == old(written) + Padding(c, w, l, left, zero)
    {
      if left || zero || w <= l {
        return;
      }
      var n: nat := w - l;
      var piece := Fill(c, if 256 < n then 256 else n);
      while 256 <= n
        invariant n <= w - l && (256 <= n ==> |piece| == 256)
        invariant |piece| <= 256 && (n < 256 ==> n <= |piece|) && forall i | 0 <= i < |piece| :: piece[i] == c
        invariant written == old(written) + Fill(c, w - l - n)
      {
        written := written + piece;
        n := n - 256;
      }
      written := written + piece[..n];
    }

    /** Lines 590-595: the three width pads, of which one at most puts anything out, the prefix and the body. */
    method PutParts(w: nat, p: nat, prefix: string, body: string, left: bool, zero: bool)
      requires !(left && zero) && |body| <= p && |prefix| + p <= w
      modifies this
      ensures written == old(written) + Field(left, zero, w, p, prefix, body)
    {
      hide Field, Padding;
      var l := |prefix| + p;
      FieldParts(left, zero, w, p, prefix, body);
      Appended(written, Padding(' ', w, l, left, zero), prefix, Padding('0', w, l, left, !zero),
               Padding('0', p, |body|, false, false), body, Padding(' ', w, l, !left, zero));
      Pad(' ', w, l, left, zero);
      written := written + prefix;
      Pad('0', w, l, left, !zero);
      Pad('0', p, |body|, false, false);
      written := written + body;
      Pad(' ', w, l, !left, zero);
    }

    /** Lines 585-597: the sizes, which must fit an int, and the field. */
    method PutField(w: nat, p: nat, prefix: string, body: string, left: bool, zero: bool, cnt: nat)
      returns (l: Option<nat>)
      requires cnt <= INT_MAX && !(left && zero)
      modifies this
      ensures var t := Field(left, zero, w, p, prefix, body);
              if |t| <= INT_MAX - cnt then l == Some(|t|) && written == old(written) + t
              else l == None && written == old(written)
    {
      var p', pl := if p < |body| then |body| else p, |prefix|;
      if p' > INT_MAX - pl {
        return None;
      }
      var w' := if w < pl + p' then pl + p' else w;
      if w' > INT_MAX - cnt {
        return None;
      }
      SameField(left, zero, w, p, prefix, body, w', p');
      PutParts(w', p', prefix, body, left, zero);
      l := Some(w');
    }

    /** Lines 534-561 and 585-597: an integer conversion. */
    method PutInteger(conv: Conversion, flags: Flags, width: nat, prec: int, given: bool, arg: nat, cnt: nat)
      returns (l: Option<nat>)
      requires arg < WORD64 && cnt <= INT_MAX
      modifies this
      ensures Printed(Integer(conv, flags, width, prec, given, arg), cnt, old(written), written, l)
    {
      var prefix, a, p := IntParts(conv, flags, prec, arg);
      if given && p < 0 {
        return None;
      }
      p := if arg == 0 && p == 0 then 0 else Max(p, |a| + (if arg == 0 then 1 else 0));
      IntegerText(conv, flags, width, prec, given, arg, p);
      l := PutField(width, p, prefix, a, flags.left, flags.zero && !flags.left && !given, cnt);
    }

    /** Lines 569-575: a string, or what stands for none, up to the precision. */
    method PutText(flags: Flags, width: nat, prec: int, str: Option<string>, cnt: nat) returns (l: Option<nat>)
      requires cnt <= INT_MAX
      modifies this
      ensures Printed(Text(flags, width, prec, str), cnt, old(written), written, l)
    {
      var a := if str.None? then "(null)" else str.value;
      var n := if prec < 0 then INT_MAX else prec;
      if prec < 0 && n < |a| {
        return None;
      }
      var shown := if n < |a| then a[..n] else a;
      l := PutField(width, |shown|, "", shown, flags.left, false, cnt);
    }

    /** One round of the loop of printf_core. */
    method PutItem(item: Item, cnt: nat) returns (l: Option<nat>)
      requires cnt <= INT_MAX && (item.Integer? ==> item.arg < WORD64)
      modifies this
      ensures Printed(item, cnt, old(written), written, l)
    {
      match item
      case Literal(text) =>
        if |text| > INT_MAX - cnt {
          return None;
        }
        written := written + text;
        l := Some(|text|);
      case Integer(conv, flags, width, prec, given, arg) =>
        l := PutInteger(conv, flags, width, prec, given, arg, cnt);
      case Character(flags, width, c) =>
        l := PutField(width, 1, "", [c], flags.left, false, cnt);
      case Text(flags, width, prec, str) =>
        l := PutText(flags, width, prec, str, cnt);
    }
  }

  lemma Associated(a: string, b: string, c: string)
    ensures a + b + c == a + (b + c)
  {
  }

  predicate IsSpace(c: char) {
    c == ' ' || 9 <= c as int < 14
  }

  predicate IsDigit(c: char) {
    '0' <= c <= '9'
  }

  predicate AllSpaces(s: string) {
    forall i | 0 <= i < |s| :: IsSpace(s[i])
  }

  predicate AllDigits(s: string) {
    forall i | 0 <= i < |s| :: IsDigit(s[i])
  }

  /** How many characters of a kind a string starts with. */
  function Spaces(s: string): (n: nat)
    ensures n <= |s| && (forall i | 0 <= i < n :: IsSpace(s[i])) && (n < |s| ==> !IsSpace(s[n]))
  {
    if s == "" || !IsSpace(s[0]) then 0 else 1 + Spaces(s[1..])
  }

  function DigitRun(s: string): (n: nat)
    ensures n <= |s| && (forall i | 0 <= i < n :: IsDigit(s[i])) && (n < |s| ==> !IsDigit(s[n]))
  {
    if s == "" || !IsDigit(s[0]) then 0 else 1 + DigitRun(s[1..])
  }

  predicate Signs(s: string) {
    s != "" && (s[0] == '-' || s[0] == '+')
  }

  function Unsign(s: string): string {
    if Signs(s) then s[1..] else s
  }

  /** The number a string starts with, behind a sign. */
  function Numeral(t: string): int {
    var u := Unsign(t);
    var v := Value(u[..DigitRun(u)], 10);
    if t != "" && t[0] == '-' then 0 - v else v
  }

  /** And behind spaces. */
  function Parsed(s: string): int {
    Numeral(s[Spaces(s)..])
  }

  lemma {:induction false} ValueGrows(s: string, i: nat)
    requires i <= |s|
    ensures Value(s[..i], 10) <= Value(s, 10)
    decreases |s|
  {
    if i < |s| {
      ValueGrows(s[..|s| - 1], i);
      assert s[..|s| - 1][..i] == s[..i];
    } else {
      assert s[..i] == s;
    }
  }

  /** atoll: the number is built up as a negative one, and no value on the way leaves 64 bits. */
  method Atoll(s: string) returns (n: int)
    requires -INTMAX_MAX - 1 <= Parsed(s) <= INTMAX_MAX
    ensures n == Parsed(s)
  {
    var i := 0;
    while i < |s| && IsSpace(s[i])
      invariant 0 <= i <= |s| && i + Spaces(s[i..]) == Spaces(s)
    {
      assert s[i..][1..] == s[i + 1..];
      i := i + 1;
    }
    assert i == Spaces(s);
    ghost var t := s[i..];
    var neg := i < |s| && s[i] == '-';
    if i < |s| && (s[i] == '-' || s[i] == '+') {
      i := i + 1;
    }
    ghost var u := Unsign(t);
    assert u == s[i..];
    n := AccumulateDigits(s, i, neg);
    n := if neg then n else -n;
  }

  lemma RunOf(s: string, from: nat) returns (end: nat)
    requires from <= |s|
    ensures from <= end <= |s| && end == from + DigitRun(s[from..])
    ensures s[from..][..DigitRun(s[from..])] == s[from..end]
    ensures forall j | from <= j < end :: IsDigit(s[j])
    ensures end < |s| ==> !IsDigit(s[end])
  {
    var u := s[from..];
    end := from + DigitRun(u);
    assert forall j | from <= j < |s| :: s[j] == u[j - from];
  }

  /** One more digit; the longer number is still at most the whole. */
  lemma NextDigit(s: string, from: nat, i: nat, end: nat)
    requires from <= i < end <= |s|
    ensures Value(s[from..i + 1], 10) == Value(s[from..i], 10) * 10 + DigitValue(s[i])
    ensures Value(s[from..i + 1], 10) <= Value(s[from..end], 10)
  {
    assert s[from..i + 1] == s[from..i] + [s[i]];
    ValueSnoc(s[from..i], s[i], 10);
    ValueGrows(s[from..end], i + 1 - from);
    assert s[from..end][..i + 1 - from] == s[from..i + 1];
  }

  /** The loop of atoll over the digits. */
  method AccumulateDigits(s: string, from: nat, neg: bool) returns (n: int)
    requires from <= |s|
    requires Value(s[from..][..DigitRun(s[from..])], 10) <= (if neg then INTMAX_MAX + 1 else INTMAX_MAX)
    ensures n == 0 - Value(s[from..][..DigitRun(s[from..])], 10)
  {
    ghost var end := RunOf(s, from);
    var i := from;
    n := 0;
    while i < |s| && IsDigit(s[i])
      invariant from <= i <= end && n == 0 - Value(s[from..i], 10)
    {
      NextDigit(s, from, i, end);
      var d := DigitValue(s[i]);
      assert -INTMAX_MAX - 1 <= 10 * n && -INTMAX_MAX - 1 <= 10 * n - d;
      n := 10 * n - d;
      i := i + 1;
    }
  }

  lemma {:induction false} SpacesOf(sp: string, rest: string)
    requires AllSpaces(sp) && (rest == "" || !IsSpace(rest[0]))
    ensures Spaces(sp + rest) == |sp|
    decreases |sp|
  {
    if sp == "" {
      assert sp + rest == rest;
    } else {
      SpacesOf(sp[1..], rest);
      assert (sp + rest)[1..] == sp[1..] + rest;
    }
  }

  lemma {:induction false} RunIs(ds: string, rest: string)
    requires AllDigits(ds) && (rest == "" || !IsDigit(rest[0]))
    ensures DigitRun(ds + rest) == |ds|
    decreases |ds|
  {
    if ds == "" {
      assert ds + rest == rest;
    } else {
      RunIs(ds[1..], rest);
      assert (ds + rest)[1..] == ds[1..] + rest;
    }
  }

  lemma {:induction false} LeadingZeros(n: nat, ds: string, base: nat)
    ensures Value(Fill('0', n) + ds, base) == Value(ds, base)
    decreases |ds|, n
  {
    var s := Fill('0', n) + ds;
    if ds != "" {
      LeadingZeros(n, ds[..|ds| - 1], base);
      assert s[..|s| - 1] == Fill('0', n) + ds[..|ds| - 1];
    } else if n != 0 {
      LeadingZeros(n - 1, "", base);
      assert s[..|s| - 1] == Fill('0', n - 1) + "";
    }
  }

  lemma {:induction false} DecimalDigits(x: nat)
    ensures AllDigits(Digits(x, 10, false))
  {
    if x != 0 {
      DecimalDigits(x / 10);
    }
  }

  lemma UnsignIs(sign: string, t: string)
    requires sign == "" || sign == "-" || sign == "+"
    requires t == "" || (t[0] != '-' && t[0] != '+')
    ensures Unsign(sign + t) == t && (sign + t != "" && (sign + t)[0] == '-' <==> sign == "-")
  {
    if sign == "" {
      assert sign + t == t;
    } else {
      assert (sign + t)[1..] == t && (sign + t)[0] == sign[0];
    }
  }

  lemma NumeralIs(sign: string, ds: string, rest: string)
    requires (sign == "" || sign == "-" || sign == "+") && AllDigits(ds) && (rest == "" || !IsDigit(rest[0]))
    requires ds == "" ==> rest == "" || rest[0] == ' '
    ensures Numeral(sign + (ds + rest)) == (if sign == "-" then 0 - Value(ds, 10) else Value(ds, 10))
  {
    var t := ds + rest;
    RunIs(ds, rest);
    assert t[..|ds|] == ds;
    assert t != "" ==> t[0] == if ds != "" then ds[0] else rest[0];
    UnsignIs(sign, t);
    hide DigitRun, Value, Unsign, AllDigits;
  }

  lemma ParsedBehind(sp: string, t: string)
    requires AllSpaces(sp) && (t == "" || !IsSpace(t[0]))
    ensures Parsed(sp + t) == Numeral(t)
  {
    SpacesOf(sp, t);
    assert (sp + t)[|sp|..] == t;
  }

  /** Spaces, a sign, digits and spaces again are read as the number of the digits. */
  lemma ParsedIs(sp: string, sign: string, ds: string, m: nat)
    requires AllSpaces(sp) && (sign == "" || sign == "-" || sign == "+") && AllDigits(ds)
    ensures Parsed(sp + (sign + (ds + Fill(' ', m)))) == (if sign == "-" then 0 - Value(ds, 10) else Value(ds, 10))
  {
    var rest := Fill(' ', m);
    if sign == "" && ds == "" {
      ParsedBlank(sp + rest);
      assert sp + (sign + (ds + rest)) == sp + rest;
    } else {
      var t := sign + (ds + rest);
      assert t[0] == if sign != "" then sign[0] else ds[0];
      ParsedBehind(sp, t);
      NumeralIs(sign, ds, rest);
    }
  }

  /** A number is read behind any of the six white-space characters: space, tab, line feed, vertical tab, form feed and
      carriage return; and whatever is no digit ends it. */
  lemma ParsedNumber(sp: string, sign: string, ds: string, rest: string)
    requires forall i | 0 <= i < |sp| :: sp[i] as int in {0x20, 0x09, 0x0a, 0x0b, 0x0c, 0x0d}
    requires (sign == "" || sign == "-" || sign == "+") && ds != "" && (forall i | 0 <= i < |ds| :: '0' <= ds[i] <= '9')
    requires rest == "" || !('0' <= rest[0] <= '9')
    ensures Parsed(sp + (sign + (ds + rest))) == (if sign == "-" then 0 - Value(ds, 10) else Value(ds, 10))
  {
    var t := sign + (ds + rest);
    assert t[0] == if sign != "" then sign[0] else ds[0];
    ParsedBehind(sp, t);
    NumeralIs(sign, ds, rest);
  }

  lemma ParsedBlank(sp: string)
    requires AllSpaces(sp)
    ensures Parsed(sp) == 0
  {
    ParsedBehind(sp, "");
    assert sp + "" == sp;
  }

  lemma Nested(a: string, b: string, c: string, d: string, e: string)
    ensures a + b + c + d + e == a + (b + (c + d + e))
  {
  }

  lemma ZerosTogether(j: nat, k: nat)
    ensures Fill('0', j) + Fill('0', k) == Fill('0', j + k)
  {
  }

  /** How many zeros the precision adds, and how many characters the width. */
  function Zeros(p: nat, body: string): nat {
    Max(p, |body|) - |body|
  }

  function Filling(w: nat, p: nat, prefix: string, body: string): nat {
    Max(w, |prefix| + Zeros(p, body) + |body|) - (|prefix| + Zeros(p, body) + |body|)
  }

  lemma LeftShape(zero: bool, w: nat, p: nat, blank: string, sign: string, body: string)
    ensures var n, m := Zeros(p, body), Filling(w, p, blank + sign, body);
            Field(true, zero, w, p, blank + sign, body) == blank + (sign + (Fill('0', n) + body + Fill(' ', m)))
  {
    Nested(blank, sign, Fill('0', Zeros(p, body)), body, Fill(' ', Filling(w, p, blank + sign, body)));
  }

  lemma ZeroShape(w: nat, p: nat, blank: string, sign: string, body: string)
    ensures var n := Filling(w, p, blank + sign, body) + Zeros(p, body);
            Field(false, true, w, p, blank + sign, body) == blank + (sign + (Fill('0', n) + body + ""))
  {
    var m, k := Filling(w, p, blank + sign, body), Zeros(p, body);
    ZerosTogether(m, k);
    NoTail(Fill('0', m + k) + body);
    Associated(blank, sign, Fill('0', m + k) + body);
  }

  lemma RightShape(w: nat, p: nat, blank: string, sign: string, body: string)
    ensures var n, m := Zeros(p, body), Filling(w, p, blank + sign, body);
            Field(false, false, w, p, blank + sign, body)
            == Fill(' ', m) + blank + (sign + (Fill('0', n) + body + ""))
  {
    var f, z := Fill(' ', Filling(w, p, blank + sign, body)), Fill('0', Zeros(p, body));
    Associated(f, blank, sign);
    Nested(f + blank, sign, z, body, "");
    NoTail(f + blank + sign + z + body);
  }

  lemma NoTail(s: string)
    ensures s + "" == s
  {
  }

  /** A field with the sign of an integer: spaces, the sign, zeros and the body, and spaces again. */
  lemma FieldShape(left: bool, zero: bool, w: nat, p: nat, prefix: string, body: string)
    returns (sp: string, sign: string, n: nat, m: nat)
    requires prefix == "" || prefix == "-" || prefix == "+" || prefix == " "
    ensures AllSpaces(sp) && sign == (if prefix == " " then "" else prefix)
    ensures Field(left, zero, w, p, prefix, body) == sp + (sign + (Fill('0', n) + body + Fill(' ', m)))
  {
    var blank := if prefix == " " then " " else "";
    sign := if prefix == " " then "" else prefix;
    assert prefix == blank + sign && Fill(' ', 0) == "";
    sp, n, m := blank, Zeros(p, body), 0;
    hide Field, Zeros, Filling;
    if left {
      m := Filling(w, p, prefix, body);
      LeftShape(zero, w, p, blank, sign, body);
    } else if zero {
      n := Filling(w, p, prefix, body) + Zeros(p, body);
      ZeroShape(w, p, blank, sign, body);
    } else {
      sp := Fill(' ', Filling(w, p, prefix, body)) + blank;
      RightShape(w, p, blank, sign, body);
    }
  }

  /** The word of a signed number. */
  function Word(x: int): nat
    requires -INTMAX_MAX - 1 <= x <= INTMAX_MAX
  {
    if x < 0 then WORD64 + x else x
  }

  /** atoll reads back what %lld prints, whatever the flags, the width and the precision, for every 64-bit number. */
  lemma ReadBack(flags: Flags, width: nat, prec: int, given: bool, x: int)
    requires -INTMAX_MAX - 1 <= x <= INTMAX_MAX
    requires ItemOk(Integer(Signed, flags, width, prec, given, Word(x)))
    ensures Parsed(ItemText(Integer(Signed, flags, width, prec, given, Word(x)))) == x
  {
    var arg := Word(x);
    var body, prefix := IntDigits(Signed, arg), Prefix(Signed, flags, arg);
    var p := MinDigits(Signed, flags, prec, arg);
    IntegerText(Signed, flags, width, prec, given, arg, p);
    var sp, sign, n, m := FieldShape(flags.left, flags.zero && !flags.left && !given, width, p, prefix, body);
    DecimalDigits(Magnitude(Signed, arg));
    DigitsValue(Magnitude(Signed, arg), 10, false);
    LeadingZeros(n, body, 10);
    hide Field, ItemText, MinDigits, Value, Digits, Parsed;
    ParsedIs(sp, sign, Fill('0', n) + body, m);
    assert sign == "-" <==> x < 0;
  }
}
