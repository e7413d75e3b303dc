/** How printf_core reads its format (src/libc/stdio/vfprintf.c): literal text, flags, width, precision, length and
    conversion, character by character. */
module Formats {
  import opened Options
  import opened Printf

  const INT_WORDS := 0x1_0000_0000
  const FLAGS := "#0- +'"

  type Word64 = x: nat | x < WORD64

  /** An argument: the word that va_arg takes for a number, and the string at it for a pointer. */
  datatype Arg = Arg(word: Word64, str: Option<string>)

  datatype Length = Bare | L | LL | H | HH | BigL | Z | J

  datatype Kind = WholeKind | LetterKind | TextKind | AddressKind | OtherKind

  /** The states of the table at lines 41-92. */
  datatype State = Prefixed(len: Length) | Final(kind: Kind) | Invalid

  function Next(len: Length, c: char): State {
    if c in "diuoxX" then if len.BigL? then Invalid else Final(WholeKind)
    else if c == 'n' then Final(OtherKind)
    else if c in "efgaEFGA" then if len in {Bare, L, BigL} then Final(OtherKind) else Invalid
    else match len
      case Bare =>
        if c == 'c' then Final(LetterKind)
        else if c == 's' then Final(TextKind)
        else if c == 'p' then Final(AddressKind)
        else if c == 'l' then Prefixed(L)
        else if c == 'h' then Prefixed(H)
        else if c == 'L' then Prefixed(BigL)
        else if c == 'z' || c == 't' then Prefixed(Z)
        else if c == 'j' then Prefixed(J)
        else Invalid
      case L => if c == 'l' then Prefixed(LL) else Invalid
      case H => if c == 'h' then Prefixed(HH) else Invalid
      case _ => Invalid
  }

  /** How many values an integer of this length has; int, long and size_t have 32 bits. */
  function Modulus(len: Length): (m: nat)
    ensures 0 < m <= WORD64
  {
    match len
    case LL => WORD64
    case J => WORD64
    case H => 0x1_0000
    case HH => 0x100
    case _ => INT_WORDS
  }

  /** pop_arg (lines 102-123): the argument cut to its length, with its sign spread over 64 bits. */
  function Loaded(x: Word64, len: Length, signed: bool): Word64 {
    var m := Modulus(len);
    var y := x % m;
    if signed && m <= 2 * y then WORD64 - (m - y) else y
  }

  function AsInt(x: Word64): int {
    var y := x % INT_WORDS;
    if INT_MAX < y then y - INT_WORDS else y
  }

  function ConversionOf(c: char): Conversion {
    if c == 'd' || c == 'i' then Signed
    else if c == 'u' then Unsigned
    else if c == 'o' then Octal
    else Hex(c == 'x' || c == 'p')
  }

  /** What a directive asks to print. A pointer is a hexadecimal number of at least eight digits, if a precision is
      given at all: none is -1, which as an unsigned number is greater than eight. */
  function ItemOf(kind: Kind, len: Length, c: char, flags: Flags, width: nat, prec: int, given: bool, arg: Arg)
    : (r: Item)
    ensures r.Integer? ==> r.arg < WORD64
  {
    match kind
    case LetterKind => Character(flags, width, (arg.word % 256) as char)
    case TextKind => Text(flags, width, prec, arg.str)
    case AddressKind =>
      Integer(Hex(true), flags.(alt := true), width, if prec < 0 then prec else Max(prec, 8), given,
              Loaded(arg.word, Bare, false))
    case _ => Integer(ConversionOf(c), flags, width, prec, given, Loaded(arg.word, len, ConversionOf(c).Signed?))
  }

  function FlagRun(t: string): (n: nat)
    ensures n <= |t|
  {
    if t != "" && t[0] in FLAGS then 1 + FlagRun(t[1..]) else 0
  }

  function FlagsOf(run: string): Flags {
    Flags('#' in run, '0' in run, '-' in run, ' ' in run, '+' in run)
  }

  /** An argument by its position, which this model leaves out. */
  predicate Positional(t: string) {
    |t| > 1 && IsDigit(t[0]) && t[1] == '$'
  }

  /** A part of a directive: its value, what comes with it, what is behind it and the next argument. */
  datatype Part<T> = Part(value: T, flag: bool, rest: string, used: nat) | Refused | LeftOut

  /** A number as getint gives it. */
  function Capped(v: nat): int {
    if v <= INT_MAX then v else -1
  }

  /** The width; a negative argument stands for the flag '-'. The least int has no opposite. */
  function ReadWidth(u: string, va: nat -> Arg, n: nat): (r: Part<nat>)
    ensures r.Part? ==> |r.rest| <= |u|
  {
    if u != "" && u[0] == '*' then
      var w := AsInt(va(n).word);
      if Positional(u[1..]) || w == -INT_MAX - 1 then LeftOut
      else Part(if w < 0 then -w else w, w < 0, u[1..], n + 1)
    else
      var k := DigitRun(u);
      if Value(u[..k], 10) <= INT_MAX then Part(Value(u[..k], 10), false, u[k..], n) else Refused
  }

  /** The precision, and whether it counts as given: one that is too large is given as -1. */
  function ReadPrecision(u: string, va: nat -> Arg, n: nat): (r: Part<int>)
    ensures r.Part? ==> |r.rest| <= |u|
  {
    if |u| > 1 && u[0] == '.' && u[1] == '*' then
      var p := AsInt(va(n).word);
      if Positional(u[2..]) then LeftOut else Part(p, 0 <= p, u[2..], n + 1)
    else if u != "" && u[0] == '.' then
      var t := u[1..];
      var k := DigitRun(t);
      Part(Capped(Value(t[..k], 10)), true, t[k..], n)
    else Part(-1, false, u, n)
  }

  datatype End = End(kind: Kind, len: Length, c: char, rest: string) | NoEnd

  /** Length and conversion. */
  function ReadEnd(len: Length, v: string): (r: End)
    ensures r.End? ==> |r.rest| < |v|
    decreases |v|
  {
    if v == "" then NoEnd
    else
      match Next(len, v[0])
      case Prefixed(l) => ReadEnd(l, v[1..])
      case Final(kind) => End(kind, len, v[0], v[1..])
      case Invalid => NoEnd
  }

  datatype Reading = Reads(item: Item, rest: string, used: nat) | Fails | Uncovered

  /** The directive whose text behind the percent sign t starts with. */
  function ReadDirective(t: string, va: nat -> Arg, n: nat): (r: Reading)
    ensures r.Reads? ==> |r.rest| < |t| && (r.item.Integer? ==> r.item.arg < WORD64)
  {
    if Positional(t) then Uncovered
    else
      var k := FlagRun(t);
      match ReadWidth(t[k..], va, n)
      case Refused => Fails
      case LeftOut => Uncovered
      case Part(width, left, rest, n1) =>
        ReadBehindWidth(FlagsOf(t[..k]), width, left, rest, va, n1)
  }

  function ReadBehindWidth(flags: Flags, width: nat, left: bool, u: string, va: nat -> Arg, n: nat): (r: Reading)
    ensures r.Reads? ==> |r.rest| < |u| && (r.item.Integer? ==> r.item.arg < WORD64)
  {
    match ReadPrecision(u, va, n)
    case Refused => Fails
    case LeftOut => Uncovered
    case Part(prec, given, rest, n1) =>
      match ReadEnd(Bare, rest)
      case NoEnd => Fails
      case End(kind, len, c, rest1) =>
        if kind.OtherKind? then Uncovered
        else Reads(ItemOf(kind, len, c, flags.(left := flags.left || left), width, prec, given, va(n1)), rest1, n1 + 1)
  }

  datatype Outcome = Prints(text: string) | Wrong | Unknown

  function Then(t: string, o: Outcome): Outcome {
    if o.Prints? then Prints(t + o.text) else o
  }

  /** What a format prints. */
  function Meaning(s: string, va: nat -> Arg, n: nat): Outcome
    decreases |s|
  {
    if s == "" then Prints("")
    else if s[0] != '%' then Then([s[0]], Meaning(s[1..], va, n))
    else if |s| > 1 && s[1] == '%' then Then("%", Meaning(s[2..], va, n))
    else
      match ReadDirective(s[1..], va, n)
      case Fails => Wrong
      case Uncovered => Unknown
      case Reads(item, rest, used) =>
        if ItemOk(item) then Then(ItemText(item), Meaning(rest, va, used)) else Wrong
  }

  lemma ThenThen(a: string, b: string, o: Outcome)
    ensures Then(a, Then(b, o)) == Then(a + b, o)
  {
    if o.Prints? {
      Associated(a, b, o.text);
    }
  }

  lemma Behind(s: string, i: nat, j: nat)
    requires i + j <= |s|
    ensures s[i..][j..] == s[i + j..] && s[i..][..j] == s[i..i + j]
  {
  }

  lemma NextFlag(s: string, i: nat)
    requires i < |s|
    ensures FlagRun(s[i..]) == if s[i] in FLAGS then 1 + FlagRun(s[i + 1..]) else 0
  {
    assert s[i..][1..] == s[i + 1..];
  }

  /** Lines 450-451. */
  method ReadFlags(s: string, from: nat) returns (flags: Flags, e: nat)
    requires from <= |s|
    ensures e == from + FlagRun(s[from..]) && flags == FlagsOf(s[from..e])
  {
    e, flags := from, Flags(false, false, false, false, false);
    while e < |s| && s[e] in FLAGS
      invariant from <= e <= |s| && e + FlagRun(s[e..]) == from + FlagRun(s[from..])
      invariant flags == FlagsOf(s[from..e])
    {
      NextFlag(s, e);
      assert s[from..e + 1] == s[from..e] + [s[e]];
      match s[e] {
        case '#' => flags := flags.(alt := true);
        case '0' => flags := flags.(zero := true);
        case '-' => flags := flags.(left := true);
        case ' ' => flags := flags.(blank := true);
        case '+' => flags := flags.(plus := true);
        case _ =>
      }
      e := e + 1;
    }
    if e < |s| {
      NextFlag(s, e);
    }
  }

  lemma NextValue(s: string, from: nat, e: nat)
    requires from <= e < |s|
    ensures Value(s[from..e + 1], 10) == Value(s[from..e], 10) * 10 + DigitValue(s[e])
  {
    assert s[from..e + 1] == s[from..e] + [s[e]];
    ValueSnoc(s[from..e], s[e], 10);
  }

  /** The test for overflow with one more digit; -1 as an unsigned number fails it again. */
  lemma NextInt(v: nat, d: nat)
    requires d < 16
    ensures var i := Capped(v);
            var asUnsigned := if i < 0 then i + INT_WORDS else i;
            Capped(v * 10 + d) == if asUnsigned > INT_MAX / 10 || d > INT_MAX - 10 * i then -1 else 10 * i + d
  {
  }

  /** getint (lines 125-132): the number, or -1 when it does not fit an int, however many digits follow. */
  method GetInt(s: string, from: nat) returns (i: int, e: nat)
    requires from <= |s|
    ensures e == from + DigitRun(s[from..])
    ensures i == Capped(Value(s[from..e], 10))
  {
    ghost var end := RunOf(s, from);
    i, e := 0, from;
    while e < |s| && IsDigit(s[e])
      invariant from <= e <= end && i == Capped(Value(s[from..e], 10))
    {
      NextValue(s, from, e);
      var d := DigitValue(s[e]);
      NextInt(Value(s[from..e], 10), d);
      var asUnsigned := if i < 0 then i + INT_WORDS else i;
      if asUnsigned > INT_MAX / 10 || d > INT_MAX - 10 * i {
        i := -1;
      } else {
        i := 10 * i + d;
      }
      e := e + 1;
    }
  }

  /** Lines 454-465. */
  method GetWidth(s: string, from: nat, va: nat -> Arg, n: nat) returns (r: Part<nat>, e: nat)
    requires from <= |s|
    ensures r == ReadWidth(s[from..], va, n) && (r.Part? ==> from <= e <= |s| && r.rest == s[e..])
  {
    hide Value, DigitRun, Positional, AsInt;
    e := from;
    if from < |s| && s[from] == '*' {
      e := from + 1;
      Behind(s, from, 1);
      var w := AsInt(va(n).word);
      if Positional(s[e..]) || w == -INT_MAX - 1 {
        return LeftOut, e;
      }
      r := Part(if w < 0 then -w else w, w < 0, s[e..], n + 1);
    } else {
      var w;
      w, e := GetInt(s, from);
      Behind(s, from, e - from);
      r := if w < 0 then Refused else Part(w, false, s[e..], n);
    }
  }

  /** The three forms of a precision, at a place of the format. */
  lemma PrecisionAt(s: string, i: nat, va: nat -> Arg, n: nat)
    requires i <= |s|
    ensures !(i < |s| && s[i] == '.') ==> ReadPrecision(s[i..], va, n) == Part(-1, false, s[i..], n)
    ensures i < |s| && s[i] == '.' && !(i + 1 < |s| && s[i + 1] == '*') ==>
              var k := DigitRun(s[i + 1..]);
              ReadPrecision(s[i..], va, n) == Part(Capped(Value(s[i + 1..i + 1 + k], 10)), true, s[i + 1 + k..], n)
    ensures i + 1 < |s| && s[i] == '.' && s[i + 1] == '*' ==>
              var p := AsInt(va(n).word);
              ReadPrecision(s[i..], va, n)
              == if Positional(s[i + 2..]) then LeftOut else Part(p, p >= 0, s[i + 2..], n + 1)
  {
    hide Value, DigitRun, Positional, AsInt, Capped;
    if i < |s| && s[i] == '.' {
      Behind(s, i, 1);
      if i + 1 < |s| && s[i + 1] == '*' {
        Behind(s, i, 2);
      } else {
        Behind(s, i + 1, DigitRun(s[i + 1..]));
      }
    }
  }

  /** Lines 468-485. */
  method GetPrecision(s: string, from: nat, va: nat -> Arg, n: nat) returns (r: Part<int>, e: nat)
    requires from <= |s|
    ensures r == ReadPrecision(s[from..], va, n) && (r.Part? ==> from <= e <= |s| && r.rest == s[e..])
  {
    hide Value, DigitRun, Positional, AsInt, Capped, ReadPrecision;
    PrecisionAt(s, from, va, n);
    e := from;
    if from + 1 < |s| && s[from] == '.' && s[from + 1] == '*' {
      e := from + 2;
      var p := AsInt(va(n).word);
      r := if Positional(s[e..]) then LeftOut else Part(p, p >= 0, s[e..], n + 1);
    } else if from < |s| && s[from] == '.' {
      var p;
      p, e := GetInt(s, from + 1);
      r := Part(p, true, s[e..], n);
    } else {
      r := Part(-1, false, s[e..], n);
    }
  }

  lemma NextEnd(s: string, i: nat, len: Length)
    requires i < |s|
    ensures ReadEnd(len, s[i..])
            == match Next(len, s[i])
               case Prefixed(l) => ReadEnd(l, s[i + 1..])
               case Final(kind) => End(kind, len, s[i], s[i + 1..])
               case Invalid => NoEnd
  {
    assert s[i..][1..] == s[i + 1..];
  }

  /** Lines 488-494. */
  method GetEnd(s: string, from: nat) returns (r: End, e: nat)
    requires from <= |s|
    ensures r == ReadEnd(Bare, s[from..]) && (r.End? ==> from <= e <= |s| && r.rest == s[e..])
  {
    e := from;
    var st, ps := Prefixed(Bare), Bare;
    while st.Prefixed?
      invariant from <= e <= |s|
      invariant st.Prefixed? ==> ReadEnd(st.len, s[e..]) == ReadEnd(Bare, s[from..])
      invariant st.Final? ==> from < e && ReadEnd(Bare, s[from..]) == End(st.kind, ps, s[e - 1], s[e..])
      invariant st.Invalid? ==> ReadEnd(Bare, s[from..]) == NoEnd
      decreases st.Prefixed?, |s| - e
    {
      if e == |s| {
        return NoEnd, e;
      }
      ps := st.len;
      NextEnd(s, e, ps);
      st := Next(ps, s[e]);
      e := e + 1;
    }
    r := if st.Final? then End(st.kind, ps, s[e - 1], s[e..]) else NoEnd;
  }

  /** Lines 440-503: a directive behind its percent sign. */
  method GetDirective(s: string, from: nat, va: nat -> Arg, n: nat) returns (r: Reading, e: nat)
    requires from <= |s|
    ensures r == ReadDirective(s[from..], va, n) && (r.Reads? ==> from <= e <= |s| && r.rest == s[e..])
  {
    hide ReadWidth, ReadBehindWidth, FlagsOf, Positional, FlagRun;
    e := from;
    if Positional(s[from..]) {
      return Uncovered, e;
    }
    var flags, w;
    flags, e := ReadFlags(s, from);
    Behind(s, from, e - from);
    w, e := GetWidth(s, e, va, n);
    match w {
      case Refused => r := Fails;
      case LeftOut => r := Uncovered;
      case Part(width, left, rest, n1) => r, e := GetBehindWidth(flags, width, left, s, e, va, n1);
    }
  }

  /** Lines 468-503. */
  method GetBehindWidth(flags: Flags, width: nat, left: bool, s: string, from: nat, va: nat -> Arg, n: nat)
    returns (r: Reading, e: nat)
    requires from <= |s|
    ensures r == ReadBehindWidth(flags, width, left, s[from..], va, n)
    ensures r.Reads? ==> from <= e <= |s| && r.rest == s[e..]
  {
    hide ReadPrecision, ReadEnd, ItemOf;
    var p, end;
    p, e := GetPrecision(s, from, va, n);
    if !p.Part? {
      return (if p.Refused? then Fails else Uncovered), e;
    }
    end, e := GetEnd(s, e);
    if end.NoEnd? {
      return Fails, e;
    }
    if end.kind.OtherKind? {
      return Uncovered, e;
    }
    var item := ItemOf(end.kind, end.len, end.c, flags.(left := flags.left || left), width, p.value, p.flag,
                       va(p.used));
    r := Reads(item, s[e..], p.used + 1);
  }

  /** Lines 433-437: a run of other characters, then pairs of percent signs. What is put out for all of that is the
      text from its start, cut to one sign for each pair. */
  method ReadLiteral(s: string, a: nat) returns (z: nat, e: nat, ghost run: nat)
    requires a < |s|
    ensures IsLiteral(s, a, run, z, e)
    ensures z == a ==> s[a] == '%' && !(a + 1 < |s| && s[a + 1] == '%')
  {
    e := a;
    while e < |s| && s[e] != '%'
      invariant a <= e <= |s| && forall i | a <= i < e :: s[i] != '%'
    {
      e := e + 1;
    }
    z, run := e, e;
    while e + 1 < |s| && s[e] == '%' && s[e + 1] == '%'
      invariant run <= z <= e <= |s| && e - run == 2 * (z - run)
      invariant forall i | run <= i < e :: s[i] == '%'
    {
      z, e := z + 1, e + 2;
    }
  }

  ghost predicate IsLiteral(s: string, a: nat, run: nat, z: nat, e: nat) {
    && a <= run <= z <= e <= |s| && e - run == 2 * (z - run)
    && (forall i | a <= i < run :: s[i] != '%')
    && (forall i | run <= i < e :: s[i] == '%')
  }

  lemma NextPlain(s: string, i: nat, va: nat -> Arg, n: nat)
    requires i < |s| && s[i] != '%'
    ensures Meaning(s[i..], va, n) == Then([s[i]], Meaning(s[i + 1..], va, n))
  {
    Behind(s, i, 1);
  }

  lemma NextPercent(s: string, i: nat, va: nat -> Arg, n: nat)
    requires i + 1 < |s| && s[i] == '%' && s[i + 1] == '%'
    ensures Meaning(s[i..], va, n) == Then("%", Meaning(s[i + 2..], va, n))
  {
    Behind(s, i, 2);
  }

  lemma {:induction false} PairsMeaning(s: string, from: nat, z: nat, e: nat, va: nat -> Arg, n: nat)
    requires from <= z <= e <= |s| && e - from == 2 * (z - from) && forall i | from <= i < e :: s[i] == '%'
    ensures Meaning(s[from..], va, n) == Then(s[from..z], Meaning(s[e..], va, n))
    decreases e - from
  {
    hide Meaning;
    if from == z {
      ThenNothing(Meaning(s[e..], va, n));
      assert s[from..z] == "";
    } else {
      NextPercent(s, from, va, n);
      PairsMeaning(s, from + 2, z + 1, e, va, n);
      ThenThen("%", s[from + 2..z + 1], Meaning(s[e..], va, n));
      assert s[from..z] == "%" + s[from + 2..z + 1];
    }
  }

  lemma {:induction false} LiteralMeaning(s: string, a: nat, run: nat, z: nat, e: nat, va: nat -> Arg, n: nat)
    requires IsLiteral(s, a, run, z, e)
    ensures Meaning(s[a..], va, n) == Then(s[a..z], Meaning(s[e..], va, n))
    decreases run - a
  {
    hide Meaning;
    if a == run {
      PairsMeaning(s, a, z, e, va, n);
    } else {
      NextPlain(s, a, va, n);
      LiteralMeaning(s, a + 1, run, z, e, va, n);
      ThenThen([s[a]], s[a + 1..z], Meaning(s[e..], va, n));
      assert s[a..z] == [s[a]] + s[a + 1..z];
    }
  }

  lemma ThenNothing(o: Outcome)
    ensures Then("", o) == o
  {
  }

  lemma NextDirective(s: string, i: nat, va: nat -> Arg, n: nat)
    requires i < |s| && s[i] == '%' && !(i + 1 < |s| && s[i + 1] == '%')
    ensures Meaning(s[i..], va, n)
            == match ReadDirective(s[i + 1..], va, n)
               case Fails => Wrong
               case Uncovered => Unknown
               case Reads(item, rest, used) =>
                 if ItemOk(item) then Then(ItemText(item), Meaning(rest, va, used)) else Wrong
  {
    hide ReadDirective, ItemText, ItemOk;
    Behind(s, i, 1);
  }

  /** The text before position i is put out and counted, and what is left to print decides the rest. */
  ghost predicate Halfway(s: string, va: nat -> Arg, i: nat, n: nat, done: string, cnt: int, before: string,
                          now: string)
  {
    && i <= |s| && cnt == |done| <= INT_MAX && now == before + done
    && Meaning(s, va, 0) == Then(done, Meaning(s[i..], va, n))
  }

  /** What printf_core promises when it fails. */
  ghost predicate TooMuch(m: Outcome) {
    m.Prints? ==> |m.text| > INT_MAX
  }

  lemma Step(s: string, va: nat -> Arg, i: nat, n: nat, i': nat, n': nat, done: string, item: Item, cnt: int,
             l: Option<nat>, before: string, now: string, now': string)
    requires Halfway(s, va, i, n, done, cnt, before, now) && i' <= |s|
    requires Printed(item, cnt, now, now', l)
    requires if ItemOk(item) then Meaning(s[i..], va, n) == Then(ItemText(item), Meaning(s[i'..], va, n'))
             else Meaning(s[i..], va, n) == Wrong
    ensures l.None? ==> TooMuch(Meaning(s, va, 0))
    ensures l.Some? ==>
              ItemOk(item) && Halfway(s, va, i', n', done + ItemText(item), cnt + l.value, before, now')
  {
    hide Meaning, ItemText, ItemOk;
    if ItemOk(item) {
      ThenThen(done, ItemText(item), Meaning(s[i'..], va, n'));
      Associated(before, done, ItemText(item));
    }
  }

  lemma Started(s: string, va: nat -> Arg, before: string)
    ensures Halfway(s, va, 0, 0, "", 0, before, before)
  {
    assert s[0..] == s;
    ThenNothing(Meaning(s, va, 0));
    assert before + "" == before;
  }

  lemma Finished(s: string, va: nat -> Arg, n: nat, done: string, cnt: int, before: string, now: string)
    requires Halfway(s, va, |s|, n, done, cnt, before, now)
    ensures Meaning(s, va, 0) == Prints(done) && cnt == |done| <= INT_MAX && now == before + done
  {
    assert s[|s|..] == "" && done + "" == done;
  }

  lemma Failed(s: string, va: nat -> Arg, i: nat, n: nat, done: string, cnt: int, before: string, now: string)
    requires Halfway(s, va, i, n, done, cnt, before, now) && !Meaning(s[i..], va, n).Prints?
    ensures TooMuch(Meaning(s, va, 0)) && Meaning(s, va, 0) == Meaning(s[i..], va, n)
  {
  }

  /** One round of the loop: literal text, or a directive. */
  method PutNext(out: Stream, s: string, va: nat -> Arg, i: nat, n: nat, cnt: nat, ghost done: string,
                 ghost before: string)
    returns (l: Option<nat>, i': nat, n': nat, ghost done': string)
    requires i < |s| && Halfway(s, va, i, n, done, cnt, before, out.written) && !Meaning(s, va, 0).Unknown?
    modifies out
    ensures l.None? ==> TooMuch(Meaning(s, va, 0))
    ensures l.Some? ==> i < i' && Halfway(s, va, i', n', done', cnt + l.value, before, out.written)
  {
    hide Meaning, ReadDirective, ItemText, ItemOk, Halfway, TooMuch, Printed;
    var z, e, run := ReadLiteral(s, i);
    ghost var was := out.written;
    i', n', done' := e, n, done;
    assert cnt <= INT_MAX by {
      Bounds(s, va, i, n, done, cnt, before, was);
    }
    if z > i {
      var item := Literal(s[i..z]);
      l := out.PutItem(item, cnt);
      LiteralMeaning(s, i, run, z, e, va, n);
      LiteralText(s[i..z]);
      Step(s, va, i, n, e, n, done, item, cnt, l, before, was, out.written);
      done' := done + s[i..z];
      return;
    }
    NextDirective(s, i, va, n);
    var r;
    r, e := GetDirective(s, i + 1, va, n);
    if !r.Reads? {
      Failed(s, va, i, n, done, cnt, before, was);
      return None, e, n, done;
    }
    l := out.PutItem(r.item, cnt);
    Step(s, va, i, n, e, r.used, done, r.item, cnt, l, before, was, out.written);
    i', n' := e, r.used;
    if l.Some? {
      done' := done + ItemText(r.item);
    }
  }

  lemma LiteralText(t: string)
    ensures ItemOk(Literal(t)) && ItemText(Literal(t)) == t
  {
  }

  lemma Bounds(s: string, va: nat -> Arg, i: nat, n: nat, done: string, cnt: int, before: string, now: string)
    requires Halfway(s, va, i, n, done, cnt, before, now)
    ensures 0 <= cnt <= INT_MAX && i <= |s|
  {
  }

  /** printf_core: the count is the number of characters put out. It fails exactly when the format is wrong or the
      count does not fit an int. */
  method PrintfCore(out: Stream, s: string, va: nat -> Arg) returns (cnt: int)
    requires !Meaning(s, va, 0).Unknown?
    modifies out
    ensures var m := Meaning(s, va, 0);
            if m.Prints? && |m.text| <= INT_MAX
            then cnt == |m.text| && out.written == old(out.written) + m.text
            else cnt == -1
  {
    cnt := 0;
    var i, n := 0, 0;
    ghost var before, done := out.written, "";
    Started(s, va, before);
    while i < |s|
      invariant i <= |s| && 0 <= cnt <= INT_MAX
      invariant Halfway(s, va, i, n, done, cnt, before, out.written)
    {
      var l;
      l, i, n, done := PutNext(out, s, va, i, n, cnt, done, before);
      if l.None? {
        return -1;
      }
      cnt := cnt + l.value;
      Bounds(s, va, i, n, done, cnt, before, out.written);
    }
    Finished(s, va, n, done, cnt, before, out.written);
  }
}
