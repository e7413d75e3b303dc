/** Formats put together from text and directives: printf_core reads them as what they were put together from
    (src/libc/stdio/vfprintf.c). */
module FormatTexts {
  import opened Printf
  import opened Formats

  /** A width or precision as it is written: not at all, as a number, or as an argument. */
  datatype Size = Absent | Fixed(n: nat) | Star

  datatype Directive = Directive(flags: string, width: Size, prec: Size, length: string, c: char)

  predicate AllFlags(t: string) {
    forall i | 0 <= i < |t| :: t[i] in FLAGS
  }

  /** A width does not start with the flag '0', and the conversion goes with the length. */
  predicate Proper(d: Directive) {
    AllFlags(d.flags) && (d.width.Fixed? ==> 0 < d.width.n) && Together(d.length, d.c)
  }

  /** The lengths and conversions that go together, of those that are modelled. */
  predicate Together(length: string, c: char) {
    (c in "diuoxX" && length in {"", "h", "hh", "l", "ll", "j", "z", "t"}) || (c in "csp" && length == "")
  }

  function SizeText(z: Size): string {
    match z
    case Absent => ""
    case Fixed(n) => Digits(n, 10, false)
    case Star => "*"
  }

  function PrecisionText(z: Size): string {
    if z.Absent? then "" else "." + SizeText(z)
  }

  function LengthOf(length: string): Length {
    if length == "h" then H
    else if length == "hh" then HH
    else if length == "l" then L
    else if length == "ll" then LL
    else if length == "L" then BigL
    else if length == "z" || length == "t" then Z
    else if length == "j" then J
    else Bare
  }

  /** Flags and sizes of a directive, before the rest of it. */
  function Sized(d: Directive, e: string): string {
    d.flags + (SizeText(d.width) + (PrecisionText(d.prec) + e))
  }

  /** A directive written out, behind its percent sign and before what follows. */
  function Shown(d: Directive, rest: string): string {
    Sized(d, d.length + ([d.c] + rest))
  }

  function WidthOf(z: Size, va: nat -> Arg, n: nat, rest: string): Part<nat> {
    match z
    case Absent => Part(0, false, rest, n)
    case Fixed(w) => if w <= INT_MAX then Part(w, false, rest, n) else Refused
    case Star =>
      var w := AsInt(va(n).word);
      if w == -INT_MAX - 1 then LeftOut else Part(if w < 0 then -w else w, w < 0, rest, n + 1)
  }

  function PrecisionOf(z: Size, va: nat -> Arg, n: nat, rest: string): Part<int> {
    match z
    case Absent => Part(-1, false, rest, n)
    case Fixed(p) => Part(Capped(p), true, rest, n)
    case Star => Part(AsInt(va(n).word), 0 <= AsInt(va(n).word), rest, n + 1)
  }

  /** The table accepts what goes together. */
  lemma KindsOf(length: string, c: char)
    requires Together(length, c)
    ensures Next(LengthOf(length), c) == Final(if c == 'c' then LetterKind else if c == 's' then TextKind
                                               else if c == 'p' then AddressKind else WholeKind)
  {
  }

  /** What flags and sizes stand for, with the length and conversion that end them. */
  function WithEnd(d: Directive, end: End, va: nat -> Arg, n: nat): Reading {
    match WidthOf(d.width, va, n, "")
    case Refused => Fails
    case LeftOut => Uncovered
    case Part(width, left, _, n1) =>
      var p := PrecisionOf(d.prec, va, n1, "");
      if end.NoEnd? then Fails
      else if end.kind.OtherKind? then Uncovered
      else
        var flags := FlagsOf(d.flags);
        var item := ItemOf(end.kind, end.len, end.c, flags.(left := flags.left || left), width, p.value, p.flag,
                           va(p.used));
        Reads(item, end.rest, p.used + 1)
  }

  /** What a directive stands for. */
  function Directed(d: Directive, va: nat -> Arg, n: nat, rest: string): Reading
    requires Proper(d)
  {
    KindsOf(d.length, d.c);
    WithEnd(d, End(Next(LengthOf(d.length), d.c).kind, LengthOf(d.length), d.c, rest), va, n)
  }

  /** Not taken for part of a flag, a size or a position. */
  predicate Ends(u: string) {
    u != "" && !IsDigit(u[0]) && u[0] != '*' && u[0] !in FLAGS
  }

  /** What can end a directive: nothing of it is taken for part of its flags and sizes. */
  predicate Tail(e: string) {
    Ends(e) && e[0] != '.' && e[0] != '$' && e[0] != '%'
  }

  lemma LetterEnds(length: string, c: char, rest: string)
    requires Together(length, c)
    ensures Tail(length + ([c] + rest))
  {
    var u := length + ([c] + rest);
    assert u[0] == if length == "" then c else length[0];
  }

  lemma {:induction false} FlagsShown(t: string, u: string)
    requires AllFlags(t) && (u == "" || u[0] !in FLAGS)
    ensures FlagRun(t + u) == |t|
    decreases |t|
  {
    if t == "" {
      assert t + u == u;
    } else {
      FlagsShown(t[1..], u);
      assert (t + u)[1..] == t[1..] + u;
    }
  }

  lemma NumberShown(n: nat, u: string)
    requires u == "" || !IsDigit(u[0])
    ensures var t := Digits(n, 10, false) + u;
            var k := DigitRun(t);
            Value(t[..k], 10) == n && t[k..] == u && (0 < n ==> t != "" && IsDigit(t[0]))
  {
    var ds := Digits(n, 10, false);
    DecimalDigits(n);
    DigitsValue(n, 10, false);
    RunIs(ds, u);
    hide DigitRun, Value;
    assert (ds + u)[..|ds|] == ds && (ds + u)[|ds|..] == u;
    assert 0 < n ==> (ds + u)[0] == ds[0];
  }

  lemma WidthShown(z: Size, u: string, va: nat -> Arg, n: nat)
    requires Ends(u)
    ensures ReadWidth(SizeText(z) + u, va, n) == WidthOf(z, va, n, u)
  {
    hide AsInt, Value, DigitRun, Digits;
    match z {
      case Absent =>
        NumberShown(0, u);
        NoDigits();
        assert "" + u == u;
      case Fixed(m) =>
        NumberShown(m, u);
      case Star =>
        assert ("*" + u)[1..] == u;
    }
  }

  lemma NoDigits()
    ensures Digits(0, 10, false) == ""
  {
  }

  lemma PrecisionShown(z: Size, u: string, va: nat -> Arg, n: nat)
    requires Ends(u) && u[0] != '.'
    ensures ReadPrecision(PrecisionText(z) + u, va, n) == PrecisionOf(z, va, n, u)
  {
    hide AsInt, Value, DigitRun, Digits;
    match z {
      case Absent =>
        assert "" + u == u;
      case Fixed(m) =>
        var t := Digits(m, 10, false) + u;
        NumberShown(m, u);
        NoDigits();
        assert "." + Digits(m, 10, false) + u == "." + t;
        assert ("." + t)[1..] == t;
        assert t[0] != '*';
      case Star =>
        assert "." + "*" + u == ".*" + u;
        assert (".*" + u)[2..] == u;
    }
  }

  /** The table follows the letters of a length. */
  lemma LengthSteps(length: string)
    requires length in {"", "h", "hh", "l", "ll", "j", "z", "t", "L"}
    ensures |length| <= 2
    ensures |length| == 0 ==> LengthOf(length) == Bare
    ensures |length| == 1 ==> Next(Bare, length[0]) == Prefixed(LengthOf(length))
    ensures |length| == 2 ==>
              && Next(Bare, length[0]).Prefixed?
              && Next(Next(Bare, length[0]).len, length[1]) == Prefixed(LengthOf(length))
  {
  }

  /** Behind a length, the table is in its state. */
  lemma LengthRead(length: string, t: string)
    requires length in {"", "h", "hh", "l", "ll", "j", "z", "t", "L"} && t != ""
    ensures ReadEnd(Bare, length + t) == ReadEnd(LengthOf(length), t)
  {
    hide ReadEnd, Next, LengthOf;
    LengthSteps(length);
    if |length| == 0 {
      assert length + t == t;
    } else if |length| == 1 {
      EndPrefixed(Bare, length[0], length + t);
      assert (length + t)[1..] == t;
    } else {
      var v := [length[1]] + t;
      EndPrefixed(Bare, length[0], length + t);
      assert (length + t)[1..] == v;
      EndPrefixed(Next(Bare, length[0]).len, length[1], v);
      assert v[1..] == t;
    }
  }

  lemma EndShown(length: string, c: char, rest: string)
    requires Together(length, c)
    ensures Next(LengthOf(length), c).Final?
    ensures ReadEnd(Bare, length + ([c] + rest))
            == End(Next(LengthOf(length), c).kind, LengthOf(length), c, rest)
  {
    hide ReadEnd, LengthOf;
    var t := [c] + rest;
    KindsOf(length, c);
    hide Next;
    LengthRead(length, t);
    EndPrefixed(LengthOf(length), c, t);
    assert t[1..] == rest;
  }

  lemma EndPrefixed(len: Length, c: char, v: string)
    requires v != "" && v[0] == c
    ensures Next(len, c).Prefixed? ==> ReadEnd(len, v) == ReadEnd(Next(len, c).len, v[1..])
    ensures Next(len, c).Final? ==> ReadEnd(len, v) == End(Next(len, c).kind, len, c, v[1..])
  {
  }

  /** No position: no dollar sign comes second. */
  lemma NotPositional(d: Directive, e: string)
    requires AllFlags(d.flags) && Tail(e)
    ensures !Positional(Sized(d, e)) && Sized(d, e) != "" && Sized(d, e)[0] != '%'
  {
    var p := PrecisionText(d.prec) + e;
    var w := SizeText(d.width) + p;
    SizeClean(d.prec);
    SizeClean(d.width);
    hide SizeText;
    BeforeClean(PrecisionText(d.prec), e);
    BeforeClean(SizeText(d.width), p);
    BeforeClean(d.flags, w);
  }

  predicate Clean(t: string) {
    forall i | 0 <= i < |t| :: t[i] != '$' && t[i] != '%'
  }

  /** The first character is no percent sign, and if it is a digit, the second one is there and no dollar sign. */
  predicate NoDollar(u: string) {
    u != "" && u[0] != '%' && u[0] != '$' && (IsDigit(u[0]) ==> |u| > 1 && u[1] != '$')
  }

  lemma BeforeClean(t: string, u: string)
    requires Clean(t) && NoDollar(u)
    ensures NoDollar(t + u)
  {
    if t == "" {
      assert t + u == u;
    } else {
      assert (t + u)[0] == t[0];
      assert (t + u)[1] == if |t| > 1 then t[1] else u[0];
    }
  }

  lemma SizeClean(z: Size)
    ensures Clean(SizeText(z)) && Clean(PrecisionText(z))
  {
    if z.Fixed? {
      DecimalDigits(z.n);
      assert Clean(Digits(z.n, 10, false)) by {
        hide Digits;
      }
    }
    hide Digits;
  }

  /** Flags and sizes are read as what they stand for, whatever ends the directive. */
  lemma SizedReadBack(d: Directive, va: nat -> Arg, n: nat, e: string)
    requires AllFlags(d.flags) && (d.width.Fixed? ==> 0 < d.width.n) && Tail(e)
    ensures ReadDirective(Sized(d, e), va, n) == WithEnd(d, ReadEnd(Bare, e), va, n)
  {
    hide ReadWidth, ReadPrecision, ReadEnd, ItemOf, FlagRun, FlagsOf, Positional, SizeText, PrecisionText, AsInt, Ends,
         AllFlags, Capped;
    NotPositional(d, e);
    var p := PrecisionText(d.prec) + e;
    var w := SizeText(d.width) + p;
    PrecisionEnds(d.prec, e);
    WidthEnds(d.width, p);
    FlagsShown(d.flags, w);
    assert (d.flags + w)[..|d.flags|] == d.flags && (d.flags + w)[|d.flags|..] == w;
    WidthShown(d.width, p, va, n);
    if WidthOf(d.width, va, n, p).Part? {
      PrecisionShown(d.prec, e, va, WidthOf(d.width, va, n, p).used);
    }
  }

  /** Every proper directive is read as what it stands for, whatever follows it. */
  lemma DirectiveReadBack(d: Directive, va: nat -> Arg, n: nat, rest: string)
    requires Proper(d)
    ensures ReadDirective(Shown(d, rest), va, n) == Directed(d, va, n, rest)
  {
    LetterEnds(d.length, d.c, rest);
    SizedReadBack(d, va, n, d.length + ([d.c] + rest));
    EndShown(d.length, d.c, rest);
    hide ReadDirective, Sized, ReadEnd, Next, LengthOf, WithEnd;
  }

  lemma PrecisionEnds(z: Size, u: string)
    requires Ends(u)
    ensures Ends(PrecisionText(z) + u)
  {
    if z.Absent? {
      assert "" + u == u;
    } else {
      assert (PrecisionText(z) + u)[0] == '.';
    }
  }

  lemma WidthEnds(z: Size, u: string)
    requires Ends(u) && (z.Fixed? ==> 0 < z.n)
    ensures SizeText(z) + u != "" && (SizeText(z) + u)[0] !in FLAGS
  {
    if z.Absent? {
      assert "" + u == u;
    } else if z.Fixed? {
      FirstDigit(z.n);
      assert (SizeText(z) + u)[0] == SizeText(z)[0];
    }
  }

  /** A number does not start with a zero. */
  lemma {:induction false} FirstDigit(n: nat)
    requires 0 < n
    ensures Digits(n, 10, false) != "" && '1' <= Digits(n, 10, false)[0] <= '9'
  {
    if n < 10 {
      assert Digits(n / 10, 10, false) == "";
    } else {
      FirstDigit(n / 10);
    }
  }

  /** A format put together from text and directives. */
  datatype Piece = Plain(text: string) | Converted(d: Directive)

  function Escaped(t: string): string {
    if t == "" then "" else (if t[0] == '%' then "%%" else [t[0]]) + Escaped(t[1..])
  }

  function Written(ps: seq<Piece>): string {
    if ps == [] then ""
    else
      match ps[0]
      case Plain(t) => Escaped(t) + Written(ps[1..])
      case Converted(d) => "%" + Shown(d, Written(ps[1..]))
  }

  function Intended(ps: seq<Piece>, va: nat -> Arg, n: nat): Outcome
    requires forall i | 0 <= i < |ps| :: ps[i].Converted? ==> Proper(ps[i].d)
  {
    if ps == [] then Prints("")
    else
      match ps[0]
      case Plain(t) => Then(t, Intended(ps[1..], va, n))
      case Converted(d) =>
        match Directed(d, va, n, "")
        case Fails => Wrong
        case Uncovered => Unknown
        case Reads(item, _, used) =>
          if ItemOk(item) then Then(ItemText(item), Intended(ps[1..], va, used)) else Wrong
  }

  lemma EscapedFirst(c: char, v: string, va: nat -> Arg, n: nat)
    ensures Meaning((if c == '%' then "%%" else [c]) + v, va, n) == Then([c], Meaning(v, va, n))
  {
    hide Meaning;
    var s := (if c == '%' then "%%" else [c]) + v;
    assert s[0..] == s;
    if c == '%' {
      NextPercent(s, 0, va, n);
      assert s[2..] == v;
    } else {
      NextPlain(s, 0, va, n);
      assert s[1..] == v;
    }
  }

  lemma {:induction false} EscapedMeaning(t: string, u: string, va: nat -> Arg, n: nat)
    ensures Meaning(Escaped(t) + u, va, n) == Then(t, Meaning(u, va, n))
    decreases |t|
  {
    hide Meaning;
    if t == "" {
      ThenNothing(Meaning(u, va, n));
      assert Escaped(t) + u == u;
    } else {
      var v := Escaped(t[1..]) + u;
      EscapedFirst(t[0], v, va, n);
      assert Escaped(t) + u == (if t[0] == '%' then "%%" else [t[0]]) + v;
      EscapedMeaning(t[1..], u, va, n);
      ThenThen([t[0]], t[1..], Meaning(u, va, n));
      assert [t[0]] + t[1..] == t;
    }
  }

  /** printf_core reads every format as it was put together. */
  lemma {:induction false} FormatReadBack(ps: seq<Piece>, va: nat -> Arg, n: nat)
    requires forall i | 0 <= i < |ps| :: ps[i].Converted? ==> Proper(ps[i].d)
    ensures Meaning(Written(ps), va, n) == Intended(ps, va, n)
    decreases |ps|
  {
    if ps != [] {
      var rest := Written(ps[1..]);
      match ps[0]
      case Plain(t) =>
        EscapedMeaning(t, rest, va, n);
        FormatReadBack(ps[1..], va, n);
      case Converted(d) =>
        var s := "%" + Shown(d, rest);
        assert s[0..] == s && s[1..] == Shown(d, rest);
        LetterEnds(d.length, d.c, rest);
        NotPositional(d, d.length + ([d.c] + rest));
        NextDirective(s, 0, va, n);
        DirectiveReadBack(d, va, n, rest);
        if Directed(d, va, n, rest).Reads? {
          FormatReadBack(ps[1..], va, Directed(d, va, n, rest).used);
        }
    }
  }
}
