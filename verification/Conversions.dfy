/** What printf_core prints for a directive, from the text of the directive to the number, string or character in its
    argument (src/libc/stdio/vfprintf.c). */
module Conversions {
  import opened Printf
  import opened Formats
  import opened FormatTexts

  /** v is what a word of m values stands for as a signed number, or as an unsigned one. */
  predicate SignedOf(v: int, x: nat, m: nat)
    requires 0 < m
  {
    -(m as int) <= 2 * v < m && (x - v) % m == 0
  }

  predicate UnsignedOf(v: int, x: nat, m: nat)
    requires 0 < m
  {
    0 <= v < m && (x - v) % m == 0
  }

  /** How many values an argument of a length has: char, short, 64 bits, or int, long and size_t of 32 bits. */
  function Values(length: string): (m: nat)
    ensures 0 < m
  {
    if length == "hh" then 0x100
    else if length == "h" then 0x1_0000
    else if length == "ll" || length == "j" then 0x1_0000_0000_0000_0000
    else 0x1_0000_0000
  }

  /** The value of a width or precision: none, a number that fits an int, or an int argument. */
  predicate SizeIs(z: Size, x: nat, none: int, v: int) {
    match z
    case Absent => v == none
    case Fixed(n) => v == n <= 0x7fff_ffff
    case Star => SignedOf(v, x, 0x1_0000_0000)
  }

  /** How many arguments a size takes. */
  function Taken(z: Size): nat {
    if z.Star? then 1 else 0
  }

  function Abs(v: int): nat {
    if v < 0 then -v else v
  }

  /** A sign or prefix and a body of at least so many characters in a field of width w: flush left with blanks behind
      it, or filled up with zeros behind the sign, or flush right with blanks before it. */
  predicate Laid(text: string, left: bool, zero: bool, w: nat, sign: string, least: nat, body: string, pre: nat,
                 zeros: nat, post: nat)
  {
    && text == Fill(' ', pre) + sign + Fill('0', zeros) + body + Fill(' ', post)
    && |text| == Max(w, |sign| + Max(least, |body|))
    && (if left then pre == 0 && zeros + |body| == Max(least, |body|)
        else if zero then pre == 0 && post == 0
        else post == 0 && zeros + |body| == Max(least, |body|))
  }

  lemma FieldLaid(left: bool, zero: bool, w: nat, p: nat, prefix: string, body: string)
    returns (pre: nat, zeros: nat, post: nat)
    ensures Laid(Field(left, zero, w, p, prefix, body), left, zero, w, prefix, p, body, pre, zeros, post)
  {
    var z := Max(p, |body|) - |body|;
    var fill := Max(w, |prefix| + z + |body|) - (|prefix| + z + |body|);
    if left {
      pre, zeros, post := 0, z, fill;
      assert Field(left, zero, w, p, prefix, body) == Fill(' ', 0) + prefix + Fill('0', z) + body + Fill(' ', fill);
    } else if zero {
      pre, zeros, post := 0, fill + z, 0;
      assert Field(left, zero, w, p, prefix, body) == Fill(' ', 0) + prefix + Fill('0', fill + z) + body + Fill(' ', 0);
    } else {
      pre, zeros, post := fill, z, 0;
      assert Field(left, zero, w, p, prefix, body) == Fill(' ', fill) + prefix + Fill('0', z) + body + Fill(' ', 0);
    }
  }

  /** The digits of a base, small or capital. */
  function Alphabet(c: char): string {
    if c == 'o' then "01234567"
    else if c in "diu" then "0123456789"
    else if c == 'X' then "0123456789ABCDEF"
    else "0123456789abcdef"
  }

  /** body is the number v written in the digits of an alphabet, without leading zeros; nothing for 0. */
  predicate IsNumeral(body: string, alphabet: string, v: nat) {
    && (forall i | 0 <= i < |body| :: body[i] in alphabet)
    && Value(body, |alphabet|) == v
    && (body == "" <==> v == 0)
    && (body != "" ==> body[0] != '0')
  }

  /** The characters of the digits of a base are those of the alphabet. */
  predicate Spells(alphabet: string, lower: bool) {
    && 2 <= |alphabet| <= 16
    && forall d | 0 <= d < |alphabet| :: DigitChar(d, lower) == alphabet[d] && (0 < d ==> alphabet[d] != '0')
  }

  lemma {:induction false} DigitsAreNumeral(x: nat, alphabet: string, lower: bool)
    requires Spells(alphabet, lower)
    ensures IsNumeral(Digits(x, |alphabet|, lower), alphabet, x)
    decreases x
  {
    hide Digits, Value, DigitChar, IsNumeral;
    DigitsValue(x, |alphabet|, lower);
    if x == 0 {
      NothingForZero(alphabet, lower);
    } else {
      var q, r := LastDigit(x, |alphabet|, lower);
      DigitsAreNumeral(q, alphabet, lower);
      assert DigitChar(r, lower) == alphabet[r];
      OneDigitMore(Digits(q, |alphabet|, lower), DigitChar(r, lower), alphabet, q, x);
    }
  }

  lemma NothingForZero(alphabet: string, lower: bool)
    requires 2 <= |alphabet| <= 16
    ensures Digits(0, |alphabet|, lower) == "" && IsNumeral("", alphabet, 0)
  {
  }

  lemma LastDigit(x: nat, base: nat, lower: bool) returns (q: nat, r: nat)
    requires 2 <= base <= 16 && 0 < x
    ensures q < x && r < base && (q == 0 ==> r == x)
    ensures Digits(x, base, lower) == Digits(q, base, lower) + [DigitChar(r, lower)]
  {
    q, r := x / base, x % base;
    Rebuilt(x, base);
    Smaller(q, r, base, x);
    assert Digits(x, base, lower) == Digits(q, base, lower) + [DigitChar(r, lower)];
  }

  lemma Smaller(q: nat, r: nat, base: nat, x: nat)
    requires 2 <= base && 0 < x == q * base + r
    ensures q < x && (q == 0 ==> r == x)
  {
    assert q * base == 2 * q + q * (base - 2);
    assert 0 <= q * (base - 2);
  }

  lemma OneDigitMore(ds: string, c: char, alphabet: string, v: nat, x: nat)
    requires IsNumeral(ds, alphabet, v) && c in alphabet && Value(ds + [c], |alphabet|) == x
    requires 0 < x && (v == 0 ==> c != '0')
    ensures IsNumeral(ds + [c], alphabet, x)
  {
    hide Value;
    assert (ds + [c])[0] == if ds == "" then c else ds[0];
  }

  predicate Small(c: char) {
    c == 'x' || c == 'p'
  }

  lemma AlphabetSpells(c: char)
    requires c in "diuoxXp"
    ensures Spells(Alphabet(c), Small(c))
  {
  }

  /** Two numbers that differ by a multiple of m have the same rest. */
  lemma ModularUnique(x: nat, v: int, m: nat)
    requires 0 < m && (x - v) % m == 0 && -(m as int) < v < m
    ensures v == x % m || v == x % m - m
  {
    var q, q', r := (x - v) / m, x / m, x % m;
    Multiple(q, q', m, v, r);
  }

  lemma Multiple(q: int, q': int, m: int, v: int, r: int)
    requires 0 < m && q * m + v == q' * m + r && 0 <= r < m && -m < v < m
    ensures v == r || v == r - m
  {
    var k := q' - q;
    assert k * m == q' * m - q * m;
    Times(k, m);
  }

  lemma Times(k: int, m: int)
    requires 0 < m
    ensures (1 <= k ==> m <= k * m) && (k <= -2 ==> k * m <= -2 * m)
  {
  }

  /** The word that an argument is loaded as, and the number it stands for. */
  lemma LoadedIs(x: Word64, len: Length, v: int, signed: bool)
    requires if signed then SignedOf(v, x, Modulus(len)) else UnsignedOf(v, x, Modulus(len))
    ensures var a := Loaded(x, len, signed);
            if v < 0 then INTMAX_MAX < a && WORD64 - a == -v else a == v && (signed ==> a <= INTMAX_MAX)
  {
    var m := Modulus(len);
    ModularUnique(x, v, m);
  }

  lemma AsIntIs(x: Word64, v: int)
    requires SignedOf(v, x, 0x1_0000_0000)
    ensures AsInt(x) == v
  {
    ModularUnique(x, v, 0x1_0000_0000);
  }

  /** Where the argument of a directive is, behind those of its sizes. */
  function ArgumentOf(d: Directive, n: nat): nat {
    n + Taken(d.width) + Taken(d.prec)
  }

  /** The sizes of a directive: its width, 0 for none and negative for one flush left, and its precision, negative for
      none. The least int is no width. */
  predicate SizesAre(d: Directive, va: nat -> Arg, n: nat, w: int, p: int) {
    && SizeIs(d.width, va(n).word, 0, w) && w != -0x8000_0000
    && SizeIs(d.prec, va(n + Taken(d.width)).word, -1, p)
  }

  /** What a proper directive is read as. */
  function Asked(d: Directive, w: int, p: int, arg: Arg): Item
    requires Proper(d)
  {
    KindsOf(d.length, d.c);
    var flags := FlagsOf(d.flags);
    ItemOf(Next(LengthOf(d.length), d.c).kind, LengthOf(d.length), d.c, flags.(left := flags.left || w < 0), Abs(w), p,
           0 <= p, arg)
  }

  lemma WidthRead(z: Size, va: nat -> Arg, n: nat, w: int)
    requires SizeIs(z, va(n).word, 0, w) && w != -0x8000_0000
    ensures WidthOf(z, va, n, "") == Part(Abs(w), w < 0, "", n + Taken(z))
  {
    hide AsInt;
    if z.Star? {
      AsIntIs(va(n).word, w);
    }
  }

  lemma SizesRead(d: Directive, va: nat -> Arg, n: nat, w: int, p: int)
    requires SizesAre(d, va, n, w, p)
    ensures WidthOf(d.width, va, n, "") == Part(Abs(w), w < 0, "", n + Taken(d.width))
    ensures PrecisionOf(d.prec, va, n + Taken(d.width), "") == Part(p, 0 <= p, "", ArgumentOf(d, n))
  {
    WidthRead(d.width, va, n, w);
    hide AsInt;
    if d.prec.Star? {
      AsIntIs(va(n + Taken(d.width)).word, p);
    }
  }

  lemma AskedRead(d: Directive, va: nat -> Arg, n: nat, rest: string, w: int, p: int)
    requires Proper(d) && SizesAre(d, va, n, w, p)
    ensures ReadDirective(Shown(d, rest), va, n)
            == Reads(Asked(d, w, p, va(ArgumentOf(d, n))), rest, ArgumentOf(d, n) + 1)
  {
    hide ReadDirective, Shown, SizesAre, ItemOf, Next, LengthOf, FlagsOf, WidthOf, PrecisionOf, Together, AllFlags;
    DirectiveReadBack(d, va, n, rest);
    SizesRead(d, va, n, w, p);
    KindsOf(d.length, d.c);
  }

  lemma AskedMeaning(d: Directive, va: nat -> Arg, n: nat, rest: string, w: int, p: int)
    requires Proper(d) && SizesAre(d, va, n, w, p)
    ensures var item := Asked(d, w, p, va(ArgumentOf(d, n)));
            Meaning("%" + Shown(d, rest), va, n)
            == if ItemOk(item) then Then(ItemText(item), Meaning(rest, va, ArgumentOf(d, n) + 1)) else Wrong
  {
    var s := "%" + Shown(d, rest);
    assert s[0..] == s && s[1..] == Shown(d, rest);
    AskedRead(d, va, n, rest, w, p);
    ShownStarts(d, rest);
    hide Meaning, ReadDirective, Shown, ItemOk, ItemText, Asked, SizesAre, Proper;
    assert s[0] == '%';
    NextDirective(s, 0, va, n);
  }

  lemma ShownStarts(d: Directive, rest: string)
    requires Proper(d)
    ensures Shown(d, rest) != "" && Shown(d, rest)[0] != '%'
  {
    LetterEnds(d.length, d.c, rest);
    NotPositional(d, d.length + ([d.c] + rest));
  }

  /** The sign or prefix of a number. */
  function Sign(c: char, flags: string, v: int): string {
    if c in "di" then if v < 0 then "-" else if '+' in flags then "+" else if ' ' in flags then " " else ""
    else if v == 0 then ""
    else if c == 'p' || (c == 'x' && '#' in flags) then "0x"
    else if c == 'X' && '#' in flags then "0X"
    else ""
  }

  /** How many digits it has at least: the precision, or one, or for an octal number with '#' one more than it needs. */
  function Least(c: char, flags: string, p: int, digits: nat): nat {
    if c == 'o' && '#' in flags then Max(Max(p, 0), digits + 1)
    else if p < 0 then 1
    else if c == 'p' then Max(p, 8)
    else p
  }

  /** v is what the directive takes its argument for: a number of its length, with a sign for d and i. */
  predicate NumberIs(d: Directive, x: nat, v: int) {
    if d.c in "di" then SignedOf(v, x, Values(d.length))
    else UnsignedOf(v, x, if d.c == 'p' then 0x1_0000_0000 else Values(d.length))
  }

  lemma ValuesAre(d: Directive)
    requires Proper(d) && d.c in "diuoxXp"
    ensures Modulus(LengthOf(d.length)) == Values(d.length)
    ensures d.c == 'p' ==> Values(d.length) == 0x1_0000_0000 == Modulus(Bare)
  {
  }

  /** The integer item of a directive, its magnitude and what it starts with. */
  lemma AskedInteger(d: Directive, w: int, p: int, arg: Arg, v: int)
    requires Proper(d) && d.c in "diuoxXp" && NumberIs(d, arg.word, v)
    ensures var i := Asked(d, w, p, arg);
            && i.Integer? && i.arg < WORD64 && i.width == Abs(w) && i.given == (0 <= p)
            && i.flags.left == ('-' in d.flags || w < 0) && i.flags.zero == ('0' in d.flags)
            && Magnitude(i.conv, i.arg) == Abs(v) && (i.arg == 0 <==> v == 0)
            && Prefix(i.conv, i.flags, i.arg) == Sign(d.c, d.flags, v)
            && Base(i.conv) == |Alphabet(d.c)| && (i.conv.Hex? ==> i.conv.lower == Small(d.c))
            && (i.conv.Octal? <==> d.c == 'o') && (i.conv.Hex? <==> d.c in "xXp")
            && i.prec == (if d.c == 'p' && 0 <= p then Max(p, 8) else p)
            && (d.c == 'o' ==> i.flags.alt == ('#' in d.flags))
  {
    ValuesAre(d);
    KindsOf(d.length, d.c);
    LoadedIs(arg.word, if d.c == 'p' then Bare else LengthOf(d.length), v, d.c in "di");
    hide Loaded, Next, LengthOf, Modulus, Values;
  }

  /** That item is accepted, and printed as its digits in a field. */
  lemma IntegerLaid(d: Directive, i: Item, w: nat, p: int, v: int)
    returns (body: string, pre: nat, zeros: nat, post: nat)
    requires d.c in "diuoxXp" && i.Integer? && i.arg < WORD64 && i.width == w && i.given == (0 <= p)
    requires Magnitude(i.conv, i.arg) == Abs(v) && (i.arg == 0 <==> v == 0)
    requires Prefix(i.conv, i.flags, i.arg) == Sign(d.c, d.flags, v)
    requires Base(i.conv) == |Alphabet(d.c)| && (i.conv.Hex? ==> i.conv.lower == Small(d.c))
    requires (i.conv.Octal? <==> d.c == 'o') && (i.conv.Hex? <==> d.c in "xXp")
    requires i.prec == (if d.c == 'p' && 0 <= p then Max(p, 8) else p)
    requires d.c == 'o' ==> i.flags.alt == ('#' in d.flags)
    ensures ItemOk(i) && IsNumeral(body, Alphabet(d.c), Abs(v))
    ensures Laid(ItemText(i), i.flags.left, i.flags.zero && p < 0, w, Sign(d.c, d.flags, v),
                 Least(d.c, d.flags, p, |body|), body, pre, zeros, post)
  {
    hide Digits, Value, Laid, Field, Magnitude, Prefix, Sign, Alphabet, Spells, IsNumeral;
    AlphabetSpells(d.c);
    body := IntDigits(i.conv, i.arg);
    DigitsAreNumeral(Abs(v), Alphabet(d.c), Small(d.c));
    LowerMatters(i, d.c, Abs(v));
    NoneForZero(body, Alphabet(d.c), Abs(v));
    var least := MinDigits(i.conv, i.flags, i.prec, i.arg);
    pre, zeros, post := FieldLaid(i.flags.left, i.flags.zero && p < 0, w, least, Sign(d.c, d.flags, v), body);
    LeastIs(i, d.c, d.flags, p, |body|, least);
    hide Least, MinDigits, IntDigits;
    LaidLeast(ItemText(i), i.flags.left, i.flags.zero && p < 0, w, Sign(d.c, d.flags, v), least,
              Least(d.c, d.flags, p, |body|), body, pre, zeros, post);
  }

  /** Only hexadecimal digits can be capital letters. */
  lemma LowerMatters(i: Item, c: char, v: nat)
    requires c in "diuoxXp" && i.Integer? && i.arg < WORD64 && Magnitude(i.conv, i.arg) == v
    requires Base(i.conv) == |Alphabet(c)|
    requires (i.conv.Hex? ==> i.conv.lower == Small(c)) && (i.conv.Hex? <==> c in "xXp")
    ensures 2 <= |Alphabet(c)| <= 16 && IntDigits(i.conv, i.arg) == Digits(v, |Alphabet(c)|, Small(c))
  {
  }

  lemma NoneForZero(body: string, alphabet: string, v: nat)
    requires IsNumeral(body, alphabet, v)
    ensures body == "" <==> v == 0
  {
  }

  /** The least number of digits that lines 540 and 554-560 come to; a longer body makes up for the difference. */
  lemma LeastIs(i: Item, c: char, flags: string, p: int, n: nat, least: nat)
    requires i.Integer? && i.arg < WORD64 && n == |IntDigits(i.conv, i.arg)| && (n == 0 <==> i.arg == 0)
    requires (i.conv.Octal? <==> c == 'o') && (c == 'o' ==> i.flags.alt == ('#' in flags))
    requires i.prec == (if c == 'p' && 0 <= p then Max(p, 8) else p) && i.given == (0 <= p)
    requires least == MinDigits(i.conv, i.flags, i.prec, i.arg)
    ensures ItemOk(i) && Max(least, n) == Max(Least(c, flags, p, n), n)
  {
    hide IntDigits;
  }

  lemma LaidLeast(text: string, left: bool, zero: bool, w: nat, sign: string, least: nat, least': nat, body: string,
                  pre: nat, zeros: nat, post: nat)
    requires Laid(text, left, zero, w, sign, least, body, pre, zeros, post) && Max(least, |body|) == Max(least', |body|)
    ensures Laid(text, left, zero, w, sign, least', body, pre, zeros, post)
  {
  }

  /** d, i, u, o, x, X and p print the number that their argument stands for: in decimal, octal or hexadecimal digits,
      with its sign or prefix, as many digits as the precision asks for, in a field of the width. */
  lemma IntegerPrinted(d: Directive, va: nat -> Arg, n: nat, rest: string, w: int, p: int, v: int)
    returns (text: string, body: string, pre: nat, zeros: nat, post: nat)
    requires Proper(d) && d.c in "diuoxXp" && SizesAre(d, va, n, w, p) && NumberIs(d, va(ArgumentOf(d, n)).word, v)
    ensures Meaning("%" + Shown(d, rest), va, n) == Then(text, Meaning(rest, va, ArgumentOf(d, n) + 1))
    ensures IsNumeral(body, Alphabet(d.c), Abs(v))
    ensures Laid(text, '-' in d.flags || w < 0, '0' in d.flags && p < 0, Abs(w), Sign(d.c, d.flags, v),
                 Least(d.c, d.flags, p, |body|), body, pre, zeros, post)
  {
    hide Meaning, Shown, ItemOk, ItemText, Laid, IsNumeral, Sign, Least, Asked, NumberIs, SizesAre, Proper, Alphabet,
         Prefix, Magnitude, Base;
    var item := Asked(d, w, p, va(ArgumentOf(d, n)));
    AskedMeaning(d, va, n, rest, w, p);
    AskedInteger(d, w, p, va(ArgumentOf(d, n)), v);
    body, pre, zeros, post := IntegerLaid(d, item, Abs(w), p, v);
    text := ItemText(item);
  }

  /** c prints the character of its argument, s its string up to the precision, or "(null)", in a field filled up with
      blanks. */
  lemma CharacterPrinted(d: Directive, va: nat -> Arg, n: nat, rest: string, w: int, p: int)
    returns (text: string, ch: char, pre: nat, zeros: nat, post: nat)
    requires Proper(d) && d.c == 'c' && SizesAre(d, va, n, w, p)
    ensures Meaning("%" + Shown(d, rest), va, n) == Then(text, Meaning(rest, va, ArgumentOf(d, n) + 1))
    ensures ch as int == va(ArgumentOf(d, n)).word % 0x100
    ensures Laid(text, '-' in d.flags || w < 0, false, Abs(w), "", 1, [ch], pre, zeros, post)
  {
    var item := Asked(d, w, p, va(ArgumentOf(d, n)));
    AskedMeaning(d, va, n, rest, w, p);
    KindsOf(d.length, d.c);
    hide Meaning, Shown, Laid, SizesAre, Proper, Field, Next, LengthOf;
    text, ch := ItemText(item), item.c;
    pre, zeros, post := FieldLaid(item.flags.left, false, Abs(w), 1, "", [ch]);
  }

  lemma StringPrinted(d: Directive, va: nat -> Arg, n: nat, rest: string, w: int, p: int)
    returns (text: string, pre: nat, zeros: nat, post: nat)
    requires Proper(d) && d.c == 's' && SizesAre(d, va, n, w, p)
    ensures Meaning("%" + Shown(d, rest), va, n) == Then(text, Meaning(rest, va, ArgumentOf(d, n) + 1))
    ensures var str := va(ArgumentOf(d, n)).str;
            var s := if str.None? then "(null)" else str.value;
            Laid(text, '-' in d.flags || w < 0, false, Abs(w), "", 0, if 0 <= p < |s| then s[..p] else s, pre, zeros,
                 post)
  {
    var item := Asked(d, w, p, va(ArgumentOf(d, n)));
    AskedMeaning(d, va, n, rest, w, p);
    KindsOf(d.length, d.c);
    hide Meaning, Shown, SizesAre, Proper, Field, Next, LengthOf;
    text := ItemText(item);
    var str := va(ArgumentOf(d, n)).str;
    var s := if str.None? then "(null)" else str.value;
    var shown := if 0 <= p < |s| then s[..p] else s;
    pre, zeros, post := FieldLaid(item.flags.left, false, Abs(w), |shown|, "", shown);
    hide ItemText;
  }

  /** atoll reads back the number that d, i and u print, whatever follows that is no digit. */
  lemma NumberReadBack(d: Directive, va: nat -> Arg, n: nat, rest: string, w: int, p: int, v: int)
    returns (text: string)
    requires Proper(d) && d.c in "diu" && SizesAre(d, va, n, w, p) && NumberIs(d, va(ArgumentOf(d, n)).word, v)
    ensures Meaning("%" + Shown(d, rest), va, n) == Then(text, Meaning(rest, va, ArgumentOf(d, n) + 1))
    ensures Parsed(text) == v
  {
    var body, pre, zeros, post;
    text, body, pre, zeros, post := IntegerPrinted(d, va, n, rest, w, p, v);
    hide Meaning, Shown, SizesAre, Proper, Least;
    LaidReadBack(text, '-' in d.flags || w < 0, '0' in d.flags && p < 0, Abs(w), Sign(d.c, d.flags, v),
                 Least(d.c, d.flags, p, |body|), body, pre, zeros, post, v);
  }

  lemma LaidReadBack(text: string, left: bool, zero: bool, w: nat, sign: string, least: nat, body: string, pre: nat,
                     zeros: nat, post: nat, v: int)
    requires Laid(text, left, zero, w, sign, least, body, pre, zeros, post)
    requires IsNumeral(body, "0123456789", Abs(v)) && sign in {"", "-", "+", " "} && (sign == "-" <==> v < 0)
    ensures Parsed(text) == v
  {
    var z, front, back := Fill('0', zeros), Fill(' ', pre), Fill(' ', post);
    AllDecimal(body);
    LeadingZeros(zeros, body, 10);
    assert AllSpaces(front) && AllSpaces(front + " ") && AllDigits(z + body);
    hide Value, Parsed, Fill, AllSpaces, AllDigits, Laid;
    if sign == " " {
      ParsedIs(front + " ", "", z + body, post);
      Regrouped(front + " ", "", z, body, back);
      NoSign(front + " ");
    } else {
      ParsedIs(front, sign, z + body, post);
      Regrouped(front, sign, z, body, back);
    }
  }

  lemma Regrouped(a: string, sign: string, z: string, body: string, b: string)
    ensures a + sign + z + body + b == a + (sign + (z + body + b))
  {
  }

  lemma NoSign(a: string)
    ensures a + "" == a
  {
  }

  lemma AllDecimal(body: string)
    requires forall i | 0 <= i < |body| :: body[i] in "0123456789"
    ensures AllDigits(body)
  {
  }

  /** Neither a conversion for the length nor a letter that makes it a longer length. */
  predicate Refuses(length: string, c: char) {
    && c !in "n"
    && (c in "diuoxX" ==> length == "L")
    && (c in "csp" ==> length != "")
    && (c in "efgaEFGA" ==> length !in {"", "l", "L"})
    && (length == "" ==> c !in "hlLjzt") && (length == "h" ==> c != 'h') && (length == "l" ==> c != 'l')
  }

  lemma RefusedEnd(length: string, c: char, rest: string)
    requires length in {"", "h", "hh", "l", "ll", "j", "z", "t", "L"} && Refuses(length, c)
    ensures ReadEnd(Bare, length + ([c] + rest)) == NoEnd
  {
    LengthRead(length, [c] + rest);
    assert Next(LengthOf(length), c) == Invalid;
  }

  /** A directive whose length and conversion do not go together, or that has none, is wrong. */
  lemma DirectiveRefused(d: Directive, va: nat -> Arg, n: nat, rest: string, w: int, p: int)
    requires AllFlags(d.flags) && (d.width.Fixed? ==> 0 < d.width.n) && SizesAre(d, va, n, w, p)
    requires d.length in {"", "h", "hh", "l", "ll", "j", "z", "t", "L"}
    requires Tail(d.length + ([d.c] + rest)) && Refuses(d.length, d.c)
    ensures Meaning("%" + Shown(d, rest), va, n) == Wrong
  {
    var s, e := "%" + Shown(d, rest), d.length + ([d.c] + rest);
    assert s[0..] == s && s[1..] == Shown(d, rest);
    RefusedEnd(d.length, d.c, rest);
    hide Meaning, ReadDirective, Sized, ReadEnd, Tail, SizesAre, WidthOf, PrecisionOf, AllFlags, Refuses;
    SizedReadBack(d, va, n, e);
    SizesRead(d, va, n, w, p);
    NotPositional(d, e);
    NextDirective(s, 0, va, n);
  }

  /** A width that does not fit an int is wrong. */
  lemma WidthRefused(d: Directive, va: nat -> Arg, n: nat, rest: string)
    requires Proper(d) && d.width.Fixed? && 0x7fff_ffff < d.width.n
    ensures Meaning("%" + Shown(d, rest), va, n) == Wrong
  {
    var s := "%" + Shown(d, rest);
    assert s[0..] == s && s[1..] == Shown(d, rest);
    DirectiveReadBack(d, va, n, rest);
    ShownStarts(d, rest);
    hide Meaning, ReadDirective, Shown;
    NextDirective(s, 0, va, n);
  }

  /** So is a precision, for a number; but not for an octal one with '#', which gets a precision of its own. */
  lemma PrecisionRefused(d: Directive, va: nat -> Arg, n: nat, rest: string, w: int) returns (text: string)
    requires Proper(d) && d.prec.Fixed? && 0x7fff_ffff < d.prec.n && d.c in "diuoxXp"
    requires SizeIs(d.width, va(n).word, 0, w) && w != -0x8000_0000
    ensures Meaning("%" + Shown(d, rest), va, n)
            == if d.c == 'o' && '#' in d.flags then Then(text, Meaning(rest, va, ArgumentOf(d, n) + 1)) else Wrong
  {
    hide Meaning, ReadDirective, Shown, ItemText, ItemOk, ItemOf, SizeIs, Next, LengthOf, Together, AllFlags;
    var flags := FlagsOf(d.flags);
    var item := TooLong(d, flags.(left := flags.left || w < 0), Abs(w), va(ArgumentOf(d, n)));
    TooLongRead(d, va, n, rest, w, item);
    ShownStarts(d, rest);
    var s := "%" + Shown(d, rest);
    assert s[0..] == s && s[1..] == Shown(d, rest);
    NextDirective(s, 0, va, n);
    text := if ItemOk(item) then ItemText(item) else "";
  }

  lemma TooLongRead(d: Directive, va: nat -> Arg, n: nat, rest: string, w: int, item: Item)
    requires Proper(d) && d.prec.Fixed? && 0x7fff_ffff < d.prec.n && Next(LengthOf(d.length), d.c).Final?
    requires SizeIs(d.width, va(n).word, 0, w) && w != -0x8000_0000
    requires var flags := FlagsOf(d.flags);
             item == ItemOf(Next(LengthOf(d.length), d.c).kind, LengthOf(d.length), d.c,
                       flags.(left := flags.left || w < 0), Abs(w), -1, true, va(ArgumentOf(d, n)))
    ensures ReadDirective(Shown(d, rest), va, n) == Reads(item, rest, ArgumentOf(d, n) + 1)
  {
    hide ReadDirective, Shown, ItemOf, Next, LengthOf, FlagsOf, Together, AllFlags, WidthOf, PrecisionOf, SizeIs;
    KindsOf(d.length, d.c);
    WidthRead(d.width, va, n, w);
    PrecisionTooLong(d.prec, va, n + Taken(d.width));
    DirectiveReadBack(d, va, n, rest);
  }

  lemma PrecisionTooLong(z: Size, va: nat -> Arg, n: nat)
    requires z.Fixed? && 0x7fff_ffff < z.n
    ensures PrecisionOf(z, va, n, "") == Part(-1, true, "", n)
  {
  }

  /** What is asked for with a precision that does not fit an int. */
  lemma TooLong(d: Directive, flags: Flags, w: nat, arg: Arg) returns (item: Item)
    requires Proper(d) && d.c in "diuoxXp" && flags.alt == ('#' in d.flags)
    ensures Next(LengthOf(d.length), d.c).Final?
    ensures item == ItemOf(Next(LengthOf(d.length), d.c).kind, LengthOf(d.length), d.c, flags, w, -1, true, arg)
    ensures ItemOk(item) <==> d.c == 'o' && '#' in d.flags
  {
    KindsOf(d.length, d.c);
    hide Loaded, LengthOf, IntDigits;
    item := ItemOf(Next(LengthOf(d.length), d.c).kind, LengthOf(d.length), d.c, flags, w, -1, true, arg);
  }
}
