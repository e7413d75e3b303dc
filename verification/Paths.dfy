/** Paths: strtok_r (src/libc/string/strtok_r.c), canonicalize_path and get_canon_parent_basename
    (src/kernel/fs/fs.c). Strings are sequences without the terminator. */
module Paths {
  import opened Options

  const SLASH := '/'
  const NUL := '\0'
  const CURRENT := "."
  const GO_UP := ".."

  function Span(s: string): (n: nat)
    ensures n <= |s| && (forall i | 0 <= i < n :: s[i] != SLASH) && (n < |s| ==> s[n] == SLASH)
  {
    if s == "" || s[0] == SLASH then 0 else 1 + Span(s[1..])
  }

  /** The parts of a path between its separators. */
  function Tokens(s: string): seq<string>
    decreases |s|
  {
    if s == "" then []
    else if s[0] == SLASH then Tokens(s[1..])
    else [s[..Span(s)]] + Tokens(s[Span(s)..])
  }

  predicate IsPart(s: string) {
    s != "" && SLASH !in s
  }

  predicate IsProper(s: string) {
    IsPart(s) && s != CURRENT && s != GO_UP
  }

  predicate Parts(ps: seq<string>) {
    forall i | 0 <= i < |ps| :: IsPart(ps[i])
  }

  predicate Proper(ps: seq<string>) {
    forall i | 0 <= i < |ps| :: IsProper(ps[i])
  }

  function Join(ps: seq<string>): string {
    if ps == [] then "" else [SLASH] + ps[0] + Join(ps[1..])
  }

  /** One part of a path, on the stack of the parts before it. */
  function Step(stack: seq<string>, part: string): seq<string> {
    if part == CURRENT then stack
    else if part == GO_UP then if stack == [] then [] else stack[..|stack| - 1]
    else stack + [part]
  }

  function Walk(stack: seq<string>, parts: seq<string>): seq<string>
    decreases |parts|
  {
    if parts == [] then stack else Walk(Step(stack, parts[0]), parts[1..])
  }

  function Named(stack: seq<string>): string {
    if stack == [] then "/" else Join(stack)
  }

  predicate Relative(path: string) {
    path != "" && path[0] != SLASH
  }

  function Start(cwd: string, path: string): seq<string> {
    if Relative(path) then Tokens(cwd) else []
  }

  function Canon(cwd: string, path: string): string {
    Named(Walk(Start(cwd, path), Tokens(path)))
  }

  /** "/" or parts joined by slashes, none of them empty, "." or "..". */
  ghost predicate Canonical(s: string) {
    exists ps :: Proper(ps) && s == Named(ps)
  }

  lemma {:induction false} TokensAreParts(s: string)
    ensures Parts(Tokens(s))
    decreases |s|
  {
    if s != "" {
      TokensAreParts(if s[0] == SLASH then s[1..] else s[Span(s)..]);
    }
  }

  lemma {:induction false} SpanOf(p: string, rest: string)
    requires SLASH !in p && (rest == "" || rest[0] == SLASH)
    ensures Span(p + rest) == |p|
    decreases |p|
  {
    if p == "" {
      assert p + rest == rest;
    } else {
      SpanOf(p[1..], rest);
      assert (p + rest)[1..] == p[1..] + rest;
      assert p[0] in p;
    }
  }

  lemma TokenFirst(p: string, rest: string)
    requires IsPart(p) && (rest == "" || rest[0] == SLASH)
    ensures Tokens(p + rest) == [p] + Tokens(rest)
  {
    SpanOf(p, rest);
    assert p[0] in p;
    assert (p + rest)[..|p|] == p && (p + rest)[|p|..] == rest;
  }

  lemma {:induction false} TokensOfJoin(ps: seq<string>)
    requires Parts(ps)
    ensures Tokens(Join(ps)) == ps
    decreases |ps|
  {
    if ps != [] {
      TokensOfJoin(ps[1..]);
      var more := Join(ps[1..]);
      TokenFirst(ps[0], more);
      SlashSkipped(ps[0] + more);
      Associative([SLASH], ps[0], more);
      hide Tokens, IsPart;
    }
  }

  lemma TokensOfNamed(ps: seq<string>)
    requires Parts(ps)
    ensures Tokens(Named(ps)) == ps
  {
    TokensOfJoin(ps);
  }

  lemma {:induction false} WalkProper(stack: seq<string>, parts: seq<string>)
    requires Proper(stack) && Parts(parts)
    ensures Proper(Walk(stack, parts))
    decreases |parts|
  {
    if parts != [] {
      WalkProper(Step(stack, parts[0]), parts[1..]);
    }
  }

  lemma {:induction false} WalkOn(stack: seq<string>, parts: seq<string>, more: seq<string>)
    ensures Walk(stack, parts + more) == Walk(Walk(stack, parts), more)
    decreases |parts|
  {
    if parts == [] {
      assert parts + more == more;
    } else {
      WalkOn(Step(stack, parts[0]), parts[1..], more);
      assert (parts + more)[1..] == parts[1..] + more;
    }
  }

  /** Proper parts are pushed one after the other. */
  lemma {:induction false} WalkPushes(stack: seq<string>, parts: seq<string>)
    requires Proper(parts)
    ensures Walk(stack, parts) == stack + parts
    decreases |parts|
  {
    if parts != [] {
      WalkPushes(stack + [parts[0]], parts[1..]);
      assert stack + [parts[0]] + parts[1..] == stack + parts;
    }
  }

  /** A canonical path is the name of its parts. */
  lemma CanonicalParts(s: string)
    requires Canonical(s)
    ensures Proper(Tokens(s)) && s == Named(Tokens(s))
  {
    var ps :| Proper(ps) && s == Named(ps);
    TokensOfNamed(ps);
  }

  /** Canonicalizing a path relative to a canonical directory gives a canonical path. */
  lemma CanonIsCanonical(cwd: string, path: string)
    requires Relative(path) ==> Canonical(cwd)
    ensures Canonical(Canon(cwd, path))
  {
    if Relative(path) {
      CanonicalParts(cwd);
    }
    TokensAreParts(path);
    WalkProper(Start(cwd, path), Tokens(path));
  }

  /** A canonical path stays as it is, from wherever it is looked at. */
  lemma CanonOfCanonical(cwd: string, s: string)
    requires Canonical(s)
    ensures Canon(cwd, s) == s
  {
    CanonicalParts(s);
    WalkPushes([], Tokens(s));
    assert [] + Tokens(s) == Tokens(s);
  }

  lemma CanonIdempotent(cwd: string, path: string, other: string)
    requires Relative(path) ==> Canonical(cwd)
    ensures Canon(other, Canon(cwd, path)) == Canon(cwd, path)
  {
    CanonIsCanonical(cwd, path);
    CanonOfCanonical(other, Canon(cwd, path));
  }

  lemma SlashSkipped(s: string)
    ensures Tokens([SLASH] + s) == Tokens(s)
  {
    assert ([SLASH] + s)[1..] == s;
  }

  lemma Split(s: string) returns (p: string, r: string)
    requires s != "" && s[0] != SLASH
    ensures s == p + r && IsPart(p) && (r == "" || r[0] == SLASH)
  {
    p, r := s[..Span(s)], s[Span(s)..];
  }

  lemma Associative<T>(a: seq<T>, b: seq<T>, c: seq<T>)
    ensures a + b + c == a + (b + c)
  {
  }

  lemma ConcatBehindSlash(s: string, t: string)
    requires Tokens(s + [SLASH] + t) == Tokens(s) + Tokens(t)
    ensures Tokens([SLASH] + s + [SLASH] + t) == Tokens([SLASH] + s) + Tokens(t)
  {
    SlashSkipped(s);
    SlashSkipped(s + [SLASH] + t);
    hide Tokens;
    Associative([SLASH], s, [SLASH]);
    Associative([SLASH], s + [SLASH], t);
  }

  lemma ConcatBehindPart(p: string, r: string, t: string)
    requires IsPart(p) && (r == "" || r[0] == SLASH)
    requires Tokens(r + [SLASH] + t) == Tokens(r) + Tokens(t)
    ensures Tokens(p + r + [SLASH] + t) == Tokens(p + r) + Tokens(t)
  {
    TokenFirst(p, r);
    TokenFirst(p, r + [SLASH] + t);
    hide Tokens, IsPart;
    Associative(p, r, [SLASH]);
    Associative(p, r + [SLASH], t);
    Associative([p], Tokens(r), Tokens(t));
  }

  lemma {:induction false} TokensConcat(s: string, t: string)
    ensures Tokens(s + [SLASH] + t) == Tokens(s) + Tokens(t)
    decreases |s|
  {
    if s == "" {
      SlashSkipped(t);
      assert s + [SLASH] + t == [SLASH] + t;
    } else if s[0] == SLASH {
      TokensConcat(s[1..], t);
      ConcatBehindSlash(s[1..], t);
      assert s == [SLASH] + s[1..];
    } else {
      var p, r := Split(s);
      TokensConcat(r, t);
      ConcatBehindPart(p, r, t);
    }
  }

  /** A relative path means the same as the path put behind its directory, if that has no "." and no ".." in it. */
  lemma CanonRelative(cwd: string, path: string, other: string)
    requires Relative(path) && cwd != "" && cwd[0] == SLASH && Proper(Tokens(cwd))
    ensures Canon(cwd, path) == Canon(other, cwd + [SLASH] + path)
  {
    TokensConcat(cwd, path);
    WalkOn([], Tokens(cwd), Tokens(path));
    WalkPushes([], Tokens(cwd));
    assert [] + Tokens(cwd) == Tokens(cwd);
  }

  /** That condition is exact: "." and ".." in the directory are taken for names. */
  lemma CanonRelativeExactly(cwd: string, other: string)
    requires cwd != "" && cwd[0] == SLASH
    ensures (forall path | Relative(path) :: Canon(cwd, path) == Canon(other, cwd + [SLASH] + path))
            <==> Proper(Tokens(cwd))
  {
    if Proper(Tokens(cwd)) {
      forall path | Relative(path) ensures Canon(cwd, path) == Canon(other, cwd + [SLASH] + path) {
        CanonRelative(cwd, path, other);
      }
    }
    var parts, x := Tokens(cwd), "x";
    assert Relative(x);
    if Canon(cwd, x) == Canon(other, cwd + [SLASH] + x) {
      TokensConcat(cwd, x);
      TokensAreParts(cwd);
      TokenFirst(x, "");
      assert x + "" == x && Tokens(x) == [x];
      WalkPushes(parts, [x]);
      WalkProper([], parts + [x]);
      TokensOfNamed(parts + [x]);
      TokensOfNamed(Walk([], parts + [x]));
      assert forall i | 0 <= i < |parts| :: parts[i] == (parts + [x])[i];
    }
  }

  /** The empty path is not relative: it names the root, whatever the directory. So it means the same as the directory
      with a slash behind it if and only if that is the root. */
  lemma CanonEmpty(cwd: string, other: string)
    requires cwd == "" || cwd[0] == SLASH
    ensures Canon(cwd, "") == "/"
    ensures Canon(cwd, "") == Canon(other, cwd + [SLASH] + "") <==> Walk([], Tokens(cwd)) == []
  {
    var stack := Walk([], Tokens(cwd));
    TokensConcat(cwd, "");
    assert Tokens(cwd) + Tokens("") == Tokens(cwd);
    TokensAreParts(cwd);
    WalkParts([], Tokens(cwd));
    if stack != [] {
      TokensOfNamed(stack);
      TokensOfNamed([]);
    }
  }

  /** Empty, or a slash and what follows: what can stand behind a part. */
  predicate Rest(t: string) {
    t == "" || t[0] == SLASH
  }

  /** The parts of two pieces of a path that meet at a slash. */
  lemma TokensMeet(s: string, t: string)
    requires Rest(t)
    ensures Tokens(s + t) == Tokens(s) + Tokens(t)
  {
    if t == "" {
      assert s + t == s && Tokens(s) + Tokens(t) == Tokens(s);
    } else {
      var u := t[1..];
      assert t == [SLASH] + u && s + t == s + [SLASH] + u;
      TokensConcat(s, u);
      SlashSkipped(u);
    }
  }

  /** A part between slashes. */
  lemma TokensBetween(s: string, x: string, t: string)
    requires IsPart(x) && Rest(t)
    ensures Tokens(s + ("/" + x + t)) == Tokens(s) + ([x] + Tokens(t))
    ensures Rest("/" + x + t)
  {
    assert "/" + x + t == [SLASH] + (x + t);
    SlashSkipped(x + t);
    TokenFirst(x, t);
    TokensMeet(s, "/" + x + t);
  }

  /** Paths that start in the same place and have the same parts are the same path. */
  lemma SameStart(cwd: string, s: string, t: string)
    requires Rest(t)
    ensures Start(cwd, s + t) == Start(cwd, s)
  {
    if s == "" {
      assert s + t == t;
    } else {
      assert (s + t)[0] == s[0];
    }
  }

  /** A slash too many means nothing. */
  lemma CanonSlashes(cwd: string, s: string, t: string)
    requires Rest(t)
    ensures Canon(cwd, s + ("/" + t)) == Canon(cwd, s + t)
  {
    assert "/" + t == [SLASH] + t;
    SlashSkipped(t);
    TokensMeet(s, "/" + t);
    TokensMeet(s, t);
    SameStart(cwd, s, "/" + t);
    SameStart(cwd, s, t);
  }

  /** A part "." means nothing. */
  lemma CanonCurrent(cwd: string, s: string, t: string)
    requires Rest(t)
    ensures Canon(cwd, s + ("/." + t)) == Canon(cwd, s + t)
  {
    assert "/" + CURRENT + t == "/." + t;
    TokensBetween(s, CURRENT, t);
    TokensMeet(s, t);
    SameStart(cwd, s, "/." + t);
    SameStart(cwd, s, t);
    WalkOn(Start(cwd, s), Tokens(s), [CURRENT] + Tokens(t));
    WalkOn(Start(cwd, s), Tokens(s), Tokens(t));
  }

  /** A part ".." takes the part before it away. */
  lemma CanonParent(cwd: string, s: string, x: string, t: string)
    requires IsProper(x) && Rest(t)
    ensures Canon(cwd, s + ("/" + x + ("/.." + t))) == Canon(cwd, s + t)
  {
    var up := "/.." + t;
    assert "/" + GO_UP + t == up;
    TokensBetween("", GO_UP, t);
    assert "" + up == up && Tokens("") + ([GO_UP] + Tokens(t)) == [GO_UP] + Tokens(t);
    TokensBetween(s, x, up);
    TokensMeet(s, t);
    SameStart(cwd, s, "/" + x + up);
    SameStart(cwd, s, t);
    var stack := Walk(Start(cwd, s), Tokens(s));
    WalkOn(Start(cwd, s), Tokens(s), [x] + ([GO_UP] + Tokens(t)));
    WalkOn(Start(cwd, s), Tokens(s), Tokens(t));
    assert ([x] + ([GO_UP] + Tokens(t)))[1..] == [GO_UP] + Tokens(t);
    assert (stack + [x])[..|stack|] == stack;
  }

  /** And the root has nothing above it. */
  lemma CanonAboveRoot(cwd: string, t: string)
    requires Rest(t)
    ensures Canon(cwd, "/.." + t) == Canon(cwd, t)
  {
    assert "/" + GO_UP + t == "/.." + t && "" + ("/.." + t) == "/.." + t;
    TokensBetween("", GO_UP, t);
    SameStart(cwd, "", "/.." + t);
    SameStart(cwd, "", t);
    assert "" + t == t;
    assert ([GO_UP] + Tokens(t))[1..] == Tokens(t);
    assert Tokens("") + ([GO_UP] + Tokens(t)) == [GO_UP] + Tokens(t);
  }

  /** The last part of a canonical path, and what stands before it. */
  lemma {:induction false} JoinLast(ps: seq<string>)
    requires ps != []
    ensures Join(ps) == Join(ps[..|ps| - 1]) + [SLASH] + ps[|ps| - 1]
    decreases |ps|
  {
    if |ps| > 1 {
      JoinLast(ps[1..]);
      assert ps[1..][..|ps| - 2] == ps[..|ps| - 1][1..];
    }
  }

  /** The C string at position p of a buffer whose last character is NUL. */
  function StringAt(s: seq<char>, p: nat): (r: string)
    requires p < |s| && s[|s| - 1] == NUL
    ensures p + |r| < |s| && s[p + |r|] == NUL
    decreases |s| - p
  {
    if s[p] == NUL then "" else [s[p]] + StringAt(s, p + 1)
  }

  /** The tokens that later calls of strtok_r find. */
  function Remaining(s: seq<char>, saved: Option<nat>): seq<string>
    requires s != [] && s[|s| - 1] == NUL && (saved.Some? ==> saved.value < |s|)
  {
    if saved.None? then [] else Tokens(StringAt(s, saved.value))
  }

  /** The parts still to be walked when a token was found. */
  ghost function Ahead(buf: seq<char>, token: Option<nat>, saved: Option<nat>): seq<string>
    requires buf != [] && buf[|buf| - 1] == NUL && (saved.Some? ==> saved.value < |buf|)
    requires token.Some? ==> token.value < |buf|
  {
    if token.None? then [] else [StringAt(buf, token.value)] + Remaining(buf, saved)
  }

  lemma AheadNext(buf: seq<char>, token: nat, saved: Option<nat>)
    requires token < |buf| && buf[|buf| - 1] == NUL && (saved.Some? ==> saved.value < |buf|)
    ensures var ahead := Ahead(buf, Some(token), saved);
            ahead != [] && ahead[0] == StringAt(buf, token) && ahead[1..] == Remaining(buf, saved)
  {
  }

  lemma {:induction false} StringParts(s: seq<char>, p: nat, q: nat)
    requires p <= q < |s| && s[|s| - 1] == NUL && NUL !in s[p..q]
    ensures StringAt(s, p) == s[p..q] + StringAt(s, q)
    decreases q - p
  {
    if p < q {
      assert s[p] == s[p..q][0] && s[p + 1..q] == s[p..q][1..];
      StringParts(s, p + 1, q);
      assert s[p..q] == [s[p]] + s[p + 1..q];
    }
  }

  lemma {:induction false} StringBehind(s: seq<char>, t: seq<char>, p: nat)
    requires p < |s| == |t| && s[|s| - 1] == NUL && s[p..] == t[p..]
    ensures t[|t| - 1] == NUL && StringAt(t, p) == StringAt(s, p)
    decreases |s| - p
  {
    assert s[p] == s[p..][0] == t[p..][0] == t[p] && s[|s| - 1] == s[p..][|s| - 1 - p] == t[|s| - 1];
    if s[p] != NUL {
      assert s[p + 1..] == s[p..][1..] == t[p + 1..];
      StringBehind(s, t, p + 1);
    }
  }

  /** Cutting the token from p to q off, whether a separator or the end of the string follows. */
  lemma TokenCut(s: seq<char>, p: nat, q: nat)
    requires p < q < |s| && s[|s| - 1] == NUL && NUL !in s[p..q] && SLASH !in s[p..q]
    requires s[q] == NUL || s[q] == SLASH
    ensures s[q] == NUL ==> StringAt(s, p) == s[p..q] && Tokens(StringAt(s, p)) == [s[p..q]]
    ensures s[q] == SLASH
            ==> q + 1 < |s| && StringAt(s[q := NUL], p) == s[p..q]
                && Tokens(StringAt(s, p)) == [s[p..q]] + Tokens(StringAt(s[q := NUL], q + 1))
  {
    StringParts(s, p, q);
    TokenFirst(s[p..q], StringAt(s, q));
    if s[q] == SLASH {
      var t := s[q := NUL];
      assert t[p..q] == s[p..q];
      StringParts(t, p, q);
      StringBehind(s, t, q + 1);
      SlashSkipped(StringAt(s, q + 1));
    }
  }

  /** strspn with the separator: where the first token may start. */
  method SkipSeparators(buf: array<char>, from: nat) returns (s: nat)
    requires from < buf.Length && buf[buf.Length - 1] == NUL
    ensures from <= s < buf.Length && buf[s] != SLASH
    ensures Tokens(StringAt(buf[..], s)) == Tokens(StringAt(buf[..], from))
  {
    s := from;
    while buf[s] == SLASH
      invariant from <= s < buf.Length && Tokens(StringAt(buf[..], s)) == Tokens(StringAt(buf[..], from))
      decreases buf.Length - s
    {
      SlashSkipped(StringAt(buf[..], s + 1));
      s := s + 1;
    }
  }

  /** strcspn with the separator: where the token ends. */
  method SkipToken(buf: array<char>, from: nat) returns (p: nat)
    requires from < buf.Length && buf[buf.Length - 1] == NUL
    ensures from <= p < buf.Length && (buf[p] == SLASH || buf[p] == NUL)
    ensures NUL !in buf[from..p] && SLASH !in buf[from..p]
  {
    p := from;
    while buf[p] != SLASH && buf[p] != NUL
      invariant from <= p < buf.Length && NUL !in buf[from..p] && SLASH !in buf[from..p]
      decreases buf.Length - p
    {
      p := p + 1;
    }
  }

  /** The next token of the string at from: separators are skipped, and the one behind it becomes its terminator. */
  method StrTokR(buf: array<char>, from: Option<nat>) returns (token: Option<nat>, saved: Option<nat>)
    requires 0 < buf.Length && buf[buf.Length - 1] == NUL && (from.Some? ==> from.value < buf.Length)
    modifies buf
    ensures buf[buf.Length - 1] == NUL && (saved.Some? ==> saved.value < buf.Length)
    ensures token.Some? ==> token.value < buf.Length
    ensures Ahead(buf[..], token, saved) == Remaining(old(buf[..]), from)
  {
    if from.None? {
      return None, None;
    }
    var s := SkipSeparators(buf, from.value);
    if buf[s] == NUL {
      return None, None;
    }
    var p := SkipToken(buf, s);
    ghost var was := buf[..];
    TokenCut(was, s, p);
    token, saved := Some(s), None;
    if buf[p] != NUL {
      buf[p] := NUL;
      saved := Some(p + 1);
      assert buf[..] == was[p := NUL];
    }
  }

  /** A copy of a string, with its terminator. */
  method StrDup(s: string) returns (buf: array<char>)
    ensures fresh(buf) && buf[..] == s + [NUL]
  {
    buf := new char[|s| + 1];
    var i := 0;
    while i < |s|
      invariant 0 <= i <= |s| && buf[..i] == s[..i]
    {
      buf[i] := s[i];
      i := i + 1;
    }
    buf[i] := NUL;
  }

  lemma WholeString(buf: seq<char>, s: string)
    requires buf == s + [NUL] && NUL !in s
    ensures StringAt(buf, 0) == s
  {
    assert buf[0..|s|] == s;
    StringParts(buf, 0, |s|);
  }

  /** A buffer being cut up: token is the part left[0], and saved leads to the other ones. */
  ghost predicate Scans(buf: seq<char>, token: Option<nat>, saved: Option<nat>, left: seq<string>) {
    && buf != [] && buf[|buf| - 1] == NUL && (saved.Some? ==> saved.value < |buf|)
    && (token.Some? ==> token.value < |buf|)
    && (token.Some? <==> left != []) && Ahead(buf, token, saved) == left
  }

  /** The first call of strtok_r. */
  method FirstPart(s: string) returns (buf: array<char>, token: Option<nat>, saved: Option<nat>)
    requires NUL !in s
    ensures fresh(buf) && Scans(buf[..], token, saved, Tokens(s))
  {
    buf := StrDup(s);
    WholeString(buf[..], s);
    token, saved := StrTokR(buf, Some(0));
  }

  /** A copy of the part found, and the next call of strtok_r. */
  method NextPart(buf: array<char>, token: Option<nat>, saved: Option<nat>, ghost left: seq<string>)
    returns (part: string, token': Option<nat>, saved': Option<nat>)
    requires Scans(buf[..], token, saved, left) && token.Some?
    modifies buf
    ensures left != [] && part == left[0] && Scans(buf[..], token', saved', left[1..])
  {
    hide StringAt, Tokens, Remaining;
    AheadNext(buf[..], token.value, saved);
    part := StringAt(buf[..], token.value);
    token', saved' := StrTokR(buf, saved);
  }

  /** The loop at lines 545-549: every part of a string, in order. */
  method PushAll(s: string) returns (out: seq<string>)
    requires NUL !in s
    ensures out == Tokens(s)
  {
    out := [];
    var buf, token, saved := FirstPart(s);
    ghost var left := Tokens(s);
    while token.Some?
      invariant fresh(buf) && Scans(buf[..], token, saved, left) && out + left == Tokens(s)
      decreases |left|
    {
      var part;
      part, token, saved := NextPart(buf, token, saved, left);
      assert left == [left[0]] + left[1..];
      Associative(out, [left[0]], left[1..]);
      out := out + [part];
      left := left[1..];
    }
  }

  lemma WalkNext(stack: seq<string>, parts: seq<string>)
    requires parts != []
    ensures Walk(stack, parts) == Walk(Step(stack, parts[0]), parts[1..])
  {
  }

  /** Lines 560-573: "." does nothing, ".." pops the stack if there is something on it. */
  method PushPart(stack: seq<string>, part: string) returns (out: seq<string>)
    ensures out == Step(stack, part)
  {
    out := stack;
    if part == CURRENT {
    } else if part == GO_UP {
      if out != [] {
        out := out[..|out| - 1];
      }
    } else {
      out := out + [part];
    }
  }

  /** The loop at lines 559-575: the parts of a path, with "." and ".." obeyed. */
  method WalkPath(start: seq<string>, path: string) returns (out: seq<string>)
    requires NUL !in path
    ensures out == Walk(start, Tokens(path))
  {
    out := start;
    var buf, token, saved := FirstPart(path);
    ghost var left := Tokens(path);
    while token.Some?
      invariant fresh(buf) && Scans(buf[..], token, saved, left) && Walk(out, left) == Walk(start, Tokens(path))
      decreases |left|
    {
      WalkNext(out, left);
      var part;
      part, token, saved := NextPart(buf, token, saved, left);
      out := PushPart(out, part);
      left := left[1..];
    }
  }

  lemma {:induction false} JoinGrows(ps: seq<string>, i: nat)
    requires i <= |ps|
    ensures |Join(ps[..i])| <= |Join(ps)|
    decreases |ps|
  {
    if i < |ps| {
      JoinLast(ps);
      JoinGrows(ps[..|ps| - 1], i);
      assert ps[..|ps| - 1][..i] == ps[..i];
    } else {
      assert ps[..i] == ps;
    }
  }

  /** Lines 585-587: the size of the path. */
  method JoinedSize(out: seq<string>) returns (size: nat)
    ensures size == |Join(out)|
  {
    size := 0;
    var i := 0;
    while i < |out|
      invariant 0 <= i <= |out| && size == |Join(out[..i])|
    {
      JoinLast(out[..i + 1]);
      assert out[..i + 1][..i] == out[..i];
      size := size + |out[i]| + 1;
      i := i + 1;
    }
    assert out[..i] == out;
  }

  /** Lines 590-596: the parts are copied behind one another. */
  method JoinInto(text: array<char>, out: seq<string>)
    requires out != [] && text.Length == |Join(out)| + 1
    modifies text
    ensures text[..] == Join(out) + [NUL]
  {
    var head, i := 0, 0;
    while i < |out|
      invariant 0 <= i <= |out| && head == |Join(out[..i])| < text.Length
      invariant text[..head] == Join(out[..i]) && (0 < i ==> text[head] == NUL)
    {
      JoinLast(out[..i + 1]);
      JoinGrows(out, i + 1);
      assert out[..i + 1][..i] == out[..i];
      hide Join;
      ghost var before := text[..head];
      text[head] := SLASH;
      assert text[..head + 1] == before + [SLASH];
      CopyString(text, head + 1, out[i]);
      head := head + 1 + |out[i]|;
      assert text[..head] == text[..head + 1][..head];
      assert text[head] == text[..head + 1][head];
      i := i + 1;
    }
    assert out[..i] == out;
  }

  /** memcpy of a string with its terminator. */
  method CopyString(text: array<char>, at: nat, s: string)
    requires at + |s| < text.Length
    modifies text
    ensures text[..at + |s| + 1] == old(text[..at]) + s + [NUL]
    ensures text[at + |s| + 1..] == old(text[at + |s| + 1..])
  {
    var i := 0;
    while i < |s|
      invariant 0 <= i <= |s| && text[..at + i] == old(text[..at]) + s[..i]
      invariant text[at + i..] == old(text[at + i..])
    {
      text[at + i] := s[i];
      i := i + 1;
    }
    text[at + i] := NUL;
  }

  /** fs.c:533-602 */
  method CanonicalizePath(cwd: string, path: string) returns (text: array<char>, length: nat)
    requires NUL !in cwd && NUL !in path
    ensures fresh(text) && length == |Canon(cwd, path)| && text[..] == Canon(cwd, path) + [NUL]
  {
    var out := [];
    if Relative(path) {
      out := PushAll(cwd);
    }
    out := WalkPath(out, path);
    if out == [] {
      text := StrDup("/");
      return text, 1;
    }
    length := JoinedSize(out);
    text := new char[length + 1];
    JoinInto(text, out);
  }

  lemma {:induction false} WalkParts(stack: seq<string>, parts: seq<string>)
    requires Parts(stack) && Parts(parts)
    ensures Parts(Walk(stack, parts))
    decreases |parts|
  {
    if parts != [] {
      WalkParts(Step(stack, parts[0]), parts[1..]);
    }
  }

  /** The last slash of a path stands before its last part. */
  lemma NameOfParts(ps: seq<string>)
    requires Parts(ps) && ps != []
    ensures var last := ps[|ps| - 1];
            && Named(ps) == Join(ps[..|ps| - 1]) + [SLASH] + last && IsPart(last)
            && Tokens(Named(ps[..|ps| - 1])) + [last] == Tokens(Named(ps))
  {
    var front := ps[..|ps| - 1];
    JoinLast(ps);
    TokensOfNamed(ps);
    TokensOfNamed(front);
    assert front + [ps[|ps| - 1]] == ps;
  }

  /** The last slash is the one before the last part: b is its place. */
  lemma LastSlash(ps: seq<string>, b: nat)
    requires Parts(ps) && ps != [] && b < |Named(ps)| && Named(ps)[b] == SLASH && SLASH !in Named(ps)[b + 1..]
    ensures Named(ps)[..b] == Join(ps[..|ps| - 1]) && Named(ps)[b + 1..] == ps[|ps| - 1]
  {
    var front, last, s := Join(ps[..|ps| - 1]), ps[|ps| - 1], Named(ps);
    NameOfParts(ps);
    assert s == front + [SLASH] + last && s[|front|] == SLASH;
    assert b == |front|;
  }

  /** What the parent and the last part of a path are. */
  ghost predicate SplitsInto(canon: string, parent: string, base: string) {
    && canon == (if parent == "/" then "" else parent) + [SLASH] + base && IsPart(base)
    && Tokens(parent) + [base] == Tokens(canon) && parent == Named(Tokens(parent))
  }

  lemma SplitParts(ps: seq<string>, b: nat)
    requires Parts(ps) && ps != [] && b < |Named(ps)| && Named(ps)[b] == SLASH && SLASH !in Named(ps)[b + 1..]
    ensures SplitsInto(Named(ps), if b == 0 then "/" else Named(ps)[..b], Named(ps)[b + 1..])
  {
    var front := ps[..|ps| - 1];
    LastSlash(ps, b);
    NameOfParts(ps);
    TokensOfNamed(front);
    assert front != [] ==> Join(front)[0] == SLASH;
  }

  /** get_canon_parent_basename (fs.c:32-56): the parent and the last part, and how they make up the path again. The
      root has neither. */
  method ParentBasename(cwd: string, path: string)
    returns (canon: string, parent: Option<string>, base: Option<string>)
    requires NUL !in cwd && NUL !in path
    ensures canon == Canon(cwd, path)
    ensures (parent.None? <==> canon == "/") && (base.None? <==> canon == "/")
    ensures canon != "/" ==> SplitsInto(canon, parent.value, base.value)
  {
    var text, size := CanonicalizePath(cwd, path);
    canon := text[..size];
    ghost var ps := Walk(Start(cwd, path), Tokens(path));
    TokensAreParts(path);
    TokensAreParts(cwd);
    WalkParts(Start(cwd, path), Tokens(path));
    if ps != [] {
      NameOfParts(ps);
    }
    hide Walk, Tokens, Join, SplitsInto;
    if size < 2 {
      return canon, None, None;
    }
    var b := size - 1;
    while canon[b] != SLASH
      invariant 0 <= b < size && SLASH !in canon[b + 1..]
      invariant canon[0] == SLASH
      decreases b
    {
      b := b - 1;
    }
    SplitParts(ps, b);
    base := Some(canon[b + 1..]);
    parent := Some(if b == 0 then "/" else canon[..b]);
  }
}
