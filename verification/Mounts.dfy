/** The tree of mounted file systems: vfs_mount and get_mount_point (src/kernel/fs/fs.c). */
module Mounts {
  import opened Options
  import opened Paths

  /** A path whose separators were replaced by terminators, with the terminator of the string. */
  function Chopped(path: string): (r: seq<char>)
    ensures |r| == |path| + 1 && r[|path|] == NUL
    ensures forall i | 0 <= i < |path| :: r[i] == if path[i] == SLASH then NUL else path[i]
  {
    seq(|path|, i requires 0 <= i < |path| => if path[i] == SLASH then NUL else path[i]) + [NUL]
  }

  /** The strings found from at on, one behind the terminator of the other, up to end. */
  function StringsFrom(buf: seq<char>, at: nat, end: nat): seq<string>
    requires end < |buf| && buf[|buf| - 1] == NUL
    decreases |buf| - at
  {
    if end <= at then [] else [StringAt(buf, at)] + StringsFrom(buf, at + |StringAt(buf, at)| + 1, end)
  }

  /** The directories that vfs_mount descends through; none when nothing or another slash follows the first one. */
  function MountParts(path: string): seq<string>
    requires path != ""
  {
    var buf := Chopped(path);
    if buf[1] == NUL then [] else StringsFrom(buf, 1, |path|)
  }

  /** Where part i of a path starts. */
  function Offset(ps: seq<string>, i: nat): nat
    requires i <= |ps|
  {
    |Join(ps[..i])| + 1
  }

  predicate NoTerminators(ps: seq<string>) {
    forall i | 0 <= i < |ps| :: NUL !in ps[i]
  }

  lemma {:induction false} JoinConcat(a: seq<string>, b: seq<string>)
    ensures Join(a + b) == Join(a) + Join(b)
    decreases |a|
  {
    if a == [] {
      assert a + b == b;
    } else {
      JoinConcat(a[1..], b);
      assert (a + b)[1..] == a[1..] + b;
      Associative([SLASH] + a[0], Join(a[1..]), Join(b));
    }
  }

  /** Around part i: what stands before it, the part, and what follows. */
  lemma JoinAround(ps: seq<string>, i: nat)
    requires i < |ps|
    ensures Join(ps) == Join(ps[..i]) + [SLASH] + ps[i] + Join(ps[i + 1..])
    ensures |Join(ps[..i + 1])| == |Join(ps[..i])| + |ps[i]| + 1
  {
    assert ps == ps[..i] + ps[i..] && ps[i..][1..] == ps[i + 1..];
    JoinConcat(ps[..i], ps[i..]);
    assert ps[..i + 1] == ps[..i] + [ps[i]];
    JoinConcat(ps[..i], [ps[i]]);
    assert Join([ps[i]]) == [SLASH] + ps[i] + "";
  }

  /** A string between separators is a C string of its own once they are terminators. */
  lemma StringBetween(front: string, part: string, rest: string)
    requires NUL !in part && SLASH !in part && (rest == "" || rest[0] == SLASH)
    ensures StringAt(Chopped(front + part + rest), |front|) == part
  {
    var s, p, q := front + part + rest, |front|, |front| + |part|;
    var buf := Chopped(s);
    assert s[p..q] == part;
    CleanCopy(s, p, q);
    assert buf[q] == NUL by {
      assert q < |s| ==> s[q] == rest[0];
    }
    hide Chopped;
    StringParts(buf, p, q);
    assert StringAt(buf, q) == "";
  }

  lemma CleanCopy(s: string, p: nat, q: nat)
    requires p <= q <= |s| && SLASH !in s[p..q]
    ensures Chopped(s)[p..q] == s[p..q]
  {
    forall k | p <= k < q ensures Chopped(s)[k] == s[k] {
      assert s[k] == s[p..q][k - p];
    }
  }

  /** In a chopped path, part i is a string of its own. */
  lemma PartAt(ps: seq<string>, i: nat)
    requires Parts(ps) && NoTerminators(ps) && i < |ps|
    ensures Offset(ps, i) + |ps[i]| <= |Join(ps)| && StringAt(Chopped(Join(ps)), Offset(ps, i)) == ps[i]
  {
    JoinAround(ps, i);
    StringBetween(Join(ps[..i]) + [SLASH], ps[i], Join(ps[i + 1..]));
  }

  lemma OffsetNext(ps: seq<string>, i: nat)
    requires i < |ps|
    ensures Offset(ps, i + 1) == Offset(ps, i) + |ps[i]| + 1
  {
    JoinAround(ps, i);
  }

  lemma StringsNext(buf: seq<char>, at: nat, end: nat, part: string)
    requires at < end < |buf| && buf[|buf| - 1] == NUL && StringAt(buf, at) == part
    ensures StringsFrom(buf, at, end) == [part] + StringsFrom(buf, at + |part| + 1, end)
  {
  }

  lemma FirstString(s: string, at: nat, qs: seq<string>)
    requires Parts(qs) && NoTerminators(qs) && qs != [] && 1 <= at <= |s| && s[at - 1..] == Join(qs)
    ensures at + |qs[0]| <= |s| && s[at + |qs[0]|..] == Join(qs[1..]) && StringAt(Chopped(s), at) == qs[0]
    ensures Parts(qs[1..]) && NoTerminators(qs[1..])
  {
    var front, rest := s[..at - 1] + [SLASH], Join(qs[1..]);
    assert s == front + qs[0] + rest by {
      assert s == s[..at - 1] + s[at - 1..];
    }
    StringBetween(front, qs[0], rest);
  }

  lemma StringsBehind(buf: seq<char>, at: nat, end: nat, qs: seq<string>)
    requires at < end < |buf| && buf[|buf| - 1] == NUL && qs != [] && StringAt(buf, at) == qs[0]
    requires StringsFrom(buf, at + |qs[0]| + 1, end) == qs[1..]
    ensures StringsFrom(buf, at, end) == qs
  {
    StringsNext(buf, at, end, qs[0]);
    hide StringsFrom, StringAt;
    assert StringsFrom(buf, at, end) == [qs[0]] + qs[1..];
  }

  /** The strings from at on are qs, up to the end of the buffer. */
  ghost predicate Holds(buf: seq<char>, at: nat, end: nat, qs: seq<string>)
    requires end < |buf| && buf[|buf| - 1] == NUL
    decreases |qs|
  {
    if qs == [] then end <= at
    else at < end && StringAt(buf, at) == qs[0] && Holds(buf, at + |qs[0]| + 1, end, qs[1..])
  }

  lemma {:induction false} HeldStrings(buf: seq<char>, at: nat, end: nat, qs: seq<string>)
    requires end < |buf| && buf[|buf| - 1] == NUL && Holds(buf, at, end, qs)
    ensures StringsFrom(buf, at, end) == qs
    decreases |qs|
  {
    if qs != [] {
      HeldStrings(buf, at + |qs[0]| + 1, end, qs[1..]);
      StringsBehind(buf, at, end, qs);
    }
  }

  /** In a chopped path, the strings behind a slash are the parts behind it. */
  lemma {:induction false} ChoppedHolds(s: string, at: nat, qs: seq<string>)
    requires Parts(qs) && NoTerminators(qs) && 1 <= at <= |s| + 1 && s[at - 1..] == Join(qs)
    ensures Holds(Chopped(s), at, |s|, qs)
    decreases |qs|
  {
    if qs == [] {
      assert |s[at - 1..]| == 0;
    } else {
      FirstString(s, at, qs);
      ChoppedHolds(s, at + |qs[0]| + 1, qs[1..]);
    }
  }

  /** For a canonical path the directories are its parts. */
  lemma MountPartsOfCanonical(ps: seq<string>)
    requires Proper(ps) && NoTerminators(ps)
    ensures Named(ps) != "" && MountParts(Named(ps)) == ps
  {
    if ps != [] {
      ChoppedHolds(Join(ps), 1, ps);
      HeldStrings(Chopped(Join(ps)), 1, |Join(ps)|, ps);
      PartAt(ps, 0);
      assert StringAt(Chopped(Join(ps)), 1) != "";
    }
  }

  /** A node of the tree: the name of the directory, the file system mounted on it, its children. */
  datatype Node<F> = Node(name: string, file: Option<F>, children: seq<nat>)

  predicate IsChild<F>(nodes: seq<Node<F>>, i: nat, c: int)
    requires i < |nodes|
  {
    c in nodes[i].children
  }

  /** Node i of the tree stands for the path paths[i]: every path but the root's extends the one of its parent, and
      no two are the same. */
  ghost predicate IsTree<F>(nodes: seq<Node<F>>, paths: seq<seq<string>>) {
    && |paths| == |nodes| && nodes != [] && paths[0] == []
    && (forall i, j | 0 <= i < |nodes| && 0 <= j < |nodes| && paths[i] == paths[j] :: i == j)
    && (forall i, c | 0 <= i < |nodes| && IsChild(nodes, i, c)
          :: 0 <= c < |nodes| && paths[c] == paths[i] + [nodes[c].name])
    && (forall c | 0 < c < |nodes| :: HasParent(nodes, paths, c))
  }

  ghost predicate HasParent<F>(nodes: seq<Node<F>>, paths: seq<seq<string>>, c: nat)
    requires |paths| == |nodes| && c < |nodes|
  {
    exists i | 0 <= i < |nodes| :: IsChild(nodes, i, c)
  }

  /** Exactly the paths of the table have a file system, the one in the table. */
  ghost predicate Agrees<F>(nodes: seq<Node<F>>, paths: seq<seq<string>>, table: map<seq<string>, F>)
    requires |paths| == |nodes|
  {
    && (forall i | 0 <= i < |nodes| && nodes[i].file.Some?
          :: paths[i] in table && table[paths[i]] == nodes[i].file.value)
    && (forall q | q in table :: exists i | 0 <= i < |nodes| :: paths[i] == q && nodes[i].file.Some?)
  }

  /** A new directory below node at. */
  function Grown<F>(nodes: seq<Node<F>>, at: nat, name: string): seq<Node<F>>
    requires at < |nodes|
  {
    nodes[at := nodes[at].(children := nodes[at].children + [|nodes|])] + [Node(name, None, [])]
  }

  /** No child of node at has this name. */
  ghost predicate NoChild<F>(nodes: seq<Node<F>>, at: nat, name: string)
    requires at < |nodes|
  {
    forall c | 0 <= c < |nodes| && IsChild(nodes, at, c) :: nodes[c].name != name
  }

  /** A path one longer than that of node at belongs to a child of it. */
  lemma OnlyChildren<F>(nodes: seq<Node<F>>, paths: seq<seq<string>>, at: nat, name: string, c: nat)
    requires IsTree(nodes, paths) && at < |nodes| && c < |nodes| && paths[c] == paths[at] + [name]
    ensures IsChild(nodes, at, c) && nodes[c].name == name
  {
    assert 0 < c && HasParent(nodes, paths, c);
    var i :| 0 <= i < |nodes| && IsChild(nodes, i, c);
    var last := |paths[c]| - 1;
    assert paths[i] == paths[c][..last] == paths[at];
    assert paths[c][last] == nodes[c].name;
  }

  lemma GrownTree<F>(nodes: seq<Node<F>>, paths: seq<seq<string>>, at: nat, name: string)
    requires IsTree(nodes, paths) && at < |nodes|
    requires NoChild(nodes, at, name)
    ensures IsTree(Grown(nodes, at, name), paths + [paths[at] + [name]])
  {
    var ns, ps, n := Grown(nodes, at, name), paths + [paths[at] + [name]], |nodes|;
    forall i | 0 <= i < n ensures paths[i] != ps[n] {
      if paths[i] == ps[n] {
        OnlyChildren(nodes, paths, at, name, i);
      }
    }
    forall i, c | 0 <= i < n + 1 && IsChild(ns, i, c) ensures 0 <= c < n + 1 && ps[c] == ps[i] + [ns[c].name] {
      assert i != n;
      if i != at || c != n {
        assert IsChild(nodes, i, c) && ns[c].name == nodes[c].name && ps[c] == paths[c];
      }
    }
    forall c | 0 < c < n + 1 ensures HasParent(ns, ps, c) {
      if c == n {
        assert IsChild(ns, at, n);
      } else {
        assert HasParent(nodes, paths, c);
        var i :| 0 <= i < n && IsChild(nodes, i, c);
        assert IsChild(ns, i, c);
      }
    }
  }

  lemma GrownAgrees<F>(nodes: seq<Node<F>>, paths: seq<seq<string>>, table: map<seq<string>, F>, at: nat,
                       name: string)
    requires |paths| == |nodes| && at < |nodes| && Agrees(nodes, paths, table)
    ensures Agrees(Grown(nodes, at, name), paths + [paths[at] + [name]], table)
  {
    var ns, ps := Grown(nodes, at, name), paths + [paths[at] + [name]];
    assert forall i | 0 <= i < |nodes| :: ns[i].file == nodes[i].file && ps[i] == paths[i];
    forall q | q in table ensures exists i | 0 <= i < |ns| :: ps[i] == q && ns[i].file.Some? {
      var i :| 0 <= i < |nodes| && paths[i] == q && nodes[i].file.Some?;
      assert ps[i] == q && ns[i].file.Some?;
    }
  }

  /** A file system on node at. */
  function Covered<F>(nodes: seq<Node<F>>, at: nat, file: F): (r: seq<Node<F>>)
    requires at < |nodes|
  {
    nodes[at := nodes[at].(file := Some(file))]
  }

  lemma CoveredTree<F>(nodes: seq<Node<F>>, paths: seq<seq<string>>, at: nat, file: F)
    requires IsTree(nodes, paths) && at < |nodes|
    ensures IsTree(Covered(nodes, at, file), paths)
  {
    var ns := Covered(nodes, at, file);
    assert forall i | 0 <= i < |nodes| :: ns[i].children == nodes[i].children && ns[i].name == nodes[i].name;
    forall i, c | 0 <= i < |ns| && IsChild(ns, i, c) ensures 0 <= c < |ns| && paths[c] == paths[i] + [ns[c].name] {
      assert IsChild(nodes, i, c) && 0 <= c < |nodes| && ns[c].name == nodes[c].name;
    }
    forall c | 0 < c < |ns| ensures HasParent(ns, paths, c) {
      assert HasParent(nodes, paths, c);
      var i :| 0 <= i < |nodes| && IsChild(nodes, i, c);
      assert IsChild(ns, i, c);
    }
  }

  lemma CoveredAgrees<F>(nodes: seq<Node<F>>, paths: seq<seq<string>>, table: map<seq<string>, F>, at: nat, file: F)
    requires IsTree(nodes, paths) && at < |nodes| && Agrees(nodes, paths, table)
    ensures Agrees(Covered(nodes, at, file), paths, table[paths[at] := file])
  {
    var ns, t := Covered(nodes, at, file), table[paths[at] := file];
    forall q | q in t ensures exists i | 0 <= i < |ns| :: paths[i] == q && ns[i].file.Some? {
      if q == paths[at] {
        assert ns[at].file.Some?;
      } else {
        var i :| 0 <= i < |nodes| && paths[i] == q && nodes[i].file.Some?;
        assert ns[i].file.Some?;
      }
    }
  }

  /** When node at has no child for the next part of a path, nothing is mounted there or below. */
  lemma {:induction false} NothingBelow<F>(nodes: seq<Node<F>>, paths: seq<seq<string>>, at: nat, name: string, c: nat,
                                           q: seq<string>)
    requires IsTree(nodes, paths) && at < |nodes| && c < |nodes|
    requires NoChild(nodes, at, name)
    requires |paths[at]| < |q| && q[..|paths[at]| + 1] == paths[at] + [name]
    ensures paths[c] != q
    decreases |q|
  {
    if paths[c] == q {
      if |q| == |paths[at]| + 1 {
        assert q == q[..|paths[at]| + 1];
        OnlyChildren(nodes, paths, at, name, c);
      } else {
        assert c != 0 && HasParent(nodes, paths, c);
        var i :| 0 <= i < |nodes| && IsChild(nodes, i, c);
        var front := q[..|q| - 1];
        assert paths[i] == front;
        assert front[..|paths[at]| + 1] == q[..|paths[at]| + 1];
        NothingBelow(nodes, paths, at, name, i, front);
      }
    }
  }

  function Slashes(s: string): nat {
    if s == "" then 0 else Slashes(s[..|s| - 1]) + (if s[|s| - 1] == SLASH then 1 else 0)
  }

  lemma {:induction false} SlashesConcat(s: string, t: string)
    ensures Slashes(s + t) == Slashes(s) + Slashes(t)
    decreases |t|
  {
    if t == "" {
      assert s + t == s;
    } else {
      SlashesConcat(s, t[..|t| - 1]);
      assert (s + t)[..|s + t| - 1] == s + t[..|t| - 1];
    }
  }

  lemma {:induction false} NoSlashes(s: string)
    requires SLASH !in s
    ensures Slashes(s) == 0
  {
    if s != "" {
      assert s[|s| - 1] in s;
      NoSlashes(s[..|s| - 1]);
    }
  }

  /** A path has as many slashes as parts. */
  lemma {:induction false} SlashesOfJoin(ps: seq<string>)
    requires Parts(ps)
    ensures Slashes(Join(ps)) == |ps|
    decreases |ps|
  {
    if ps != [] {
      SlashesOfJoin(ps[1..]);
      SlashesConcat([SLASH] + ps[0], Join(ps[1..]));
      SlashesConcat([SLASH], ps[0]);
      NoSlashes(ps[0]);
      assert [SLASH][..0] == "";
    }
  }

  /** Lines 443-446 and 676-680: the separators of a copy become terminators, and are counted. */
  method Chop(path: string) returns (buf: array<char>, depth: nat)
    ensures fresh(buf) && buf[..] == Chopped(path) && depth == Slashes(path)
  {
    buf := StrDup(path);
    var i := 0;
    depth := 0;
    while i < |path|
      invariant 0 <= i <= |path| && fresh(buf) && buf.Length == |path| + 1 && buf[|path|] == NUL
      invariant forall k | 0 <= k < |path| :: buf[k] == if k < i && path[k] == SLASH then NUL else path[k]
      invariant depth == Slashes(path[..i])
    {
      assert path[..i + 1][..i] == path[..i];
      if buf[i] == SLASH {
        buf[i] := NUL;
        depth := depth + 1;
      }
      i := i + 1;
    }
    assert path[..i] == path;
  }

  lemma {:induction false} CleanTokens(s: string)
    requires NUL !in s
    ensures NoTerminators(Tokens(s))
    decreases |s|
  {
    if s != "" {
      CleanTokens(if s[0] == SLASH then s[1..] else s[Span(s)..]);
    }
  }

  lemma {:induction false} CleanWalk(stack: seq<string>, parts: seq<string>)
    requires NoTerminators(stack) && NoTerminators(parts)
    ensures NoTerminators(Walk(stack, parts))
    decreases |parts|
  {
    if parts != [] {
      CleanWalk(Step(stack, parts[0]), parts[1..]);
    }
  }

  /** Only the root has a name of one character. */
  lemma RootOnly(ps: seq<string>)
    requires Parts(ps) && |Named(ps)| == 1
    ensures ps == []
  {
    if ps != [] {
      NameOfParts(ps);
    }
  }

  /** The parts of the path that a name in a directory stands for. */
  function PartsOf(cwd: string, file: string): seq<string> {
    Walk(Start(cwd, file), Tokens(file))
  }

  lemma PartsOfIsClean(cwd: string, file: string)
    requires NUL !in cwd && NUL !in file
    ensures Parts(PartsOf(cwd, file)) && NoTerminators(PartsOf(cwd, file))
    ensures Canon(cwd, file) == Named(PartsOf(cwd, file))
  {
    TokensAreParts(cwd);
    TokensAreParts(file);
    WalkParts(Start(cwd, file), Tokens(file));
    CleanTokens(cwd);
    CleanTokens(file);
    CleanWalk(Start(cwd, file), Tokens(file));
  }

  /** A canonical path other than the root, chopped into its parts. */
  ghost predicate IsChopped(buf: seq<char>, ps: seq<string>) {
    Parts(ps) && NoTerminators(ps) && ps != [] && buf == Chopped(Join(ps))
  }

  lemma BeforeEnd(ps: seq<string>, k: nat)
    requires Parts(ps) && NoTerminators(ps) && k <= |ps|
    ensures Offset(ps, k) < Offset(ps, |ps|) <==> k < |ps|
  {
    assert ps[..|ps|] == ps;
    if k < |ps| {
      PartAt(ps, k);
    }
  }

  class MountTree<F> {
    var nodes: seq<Node<F>>
    ghost var paths: seq<seq<string>>
    ghost var table: map<seq<string>, F>

    ghost predicate Valid()
      reads this
    {
      IsTree(nodes, paths) && Agrees(nodes, paths, table)
    }

    constructor ()
      ensures Valid() && table == map[]
    {
      nodes := [Node("", None, [])];
      paths := [[]];
      table := map[];
    }

    /** The search through the children of a node. */
    method FindChild(at: nat, name: string) returns (child: Option<nat>)
      requires Valid() && at < |nodes|
      ensures child.Some? ==> child.value < |nodes| && paths[child.value] == paths[at] + [name]
      ensures child.None? ==> NoChild(nodes, at, name)
    {
      var i, children := 0, nodes[at].children;
      while i < |children|
        invariant 0 <= i <= |children|
        invariant forall k | 0 <= k < i :: children[k] < |nodes| && nodes[children[k]].name != name
      {
        assert IsChild(nodes, at, children[i]);
        if nodes[children[i]].name == name {
          return Some(children[i]);
        }
        i := i + 1;
      }
      return None;
    }

    /** tree_insert_item with a new entry. */
    method AddChild(at: nat, name: string) returns (child: nat)
      requires Valid() && at < |nodes| && NoChild(nodes, at, name)
      modifies this
      ensures Valid() && table == old(table) && child < |nodes| && paths[child] == old(paths[at]) + [name]
    {
      GrownTree(nodes, paths, at, name);
      GrownAgrees(nodes, paths, table, at, name);
      child := |nodes|;
      paths := paths + [paths[at] + [name]];
      nodes := Grown(nodes, at, name);
    }

    /** Lines 466-485: the directory for the next part of a path. */
    method Descend(at: nat, name: string) returns (child: nat)
      requires Valid() && at < |nodes|
      modifies this
      ensures Valid() && table == old(table) && child < |nodes| && paths[child] == old(paths[at]) + [name]
    {
      var found := FindChild(at, name);
      if found.Some? {
        child := found.value;
      } else {
        child := AddChild(at, name);
      }
    }

    method PutFile(at: nat, file: F)
      requires Valid() && at < |nodes|
      modifies this
      ensures Valid() && table == old(table)[old(paths[at]) := file]
      ensures paths == old(paths) && |nodes| == |old(nodes)| && nodes[at].file == Some(file)
    {
      CoveredTree(nodes, paths, at, file);
      CoveredAgrees(nodes, paths, table, at, file);
      table := table[paths[at] := file];
      nodes := Covered(nodes, at, file);
    }

    /** The loop at lines 463-487: the directories of the path are looked up or made. */
    method DescendAll(buf: array<char>, end: nat) returns (at: nat)
      requires Valid() && 1 <= end < buf.Length && buf[buf.Length - 1] == NUL
      modifies this
      ensures Valid() && table == old(table) && at < |nodes| && paths[at] == StringsFrom(buf[..], 1, end)
    {
      ghost var parts := StringsFrom(buf[..], 1, end);
      var head := 1;
      at := 0;
      assert paths[0] == [];
      hide IsTree, Agrees;
      while head < end
        invariant Valid() && table == old(table) && at < |nodes| && 1 <= head
        invariant paths[at] + StringsFrom(buf[..], head, end) == parts
        decreases end - head
      {
        var name := StringAt(buf[..], head);
        StringsNext(buf[..], head, end, name);
        Associative(paths[at], [name], StringsFrom(buf[..], head + |name| + 1, end));
        at := Descend(at, name);
        head := head + |name| + 1;
      }
    }

    /** vfs_mount (fs.c:427-500): the file system is put on the directory of the path. Everything mounted elsewhere
        stays. */
    method Mount(path: string, file: F) returns (node: Option<nat>)
      requires Valid() && NUL !in path
      modifies this
      ensures Valid()
      ensures if path == "" || path[0] != SLASH then node.None? && table == old(table)
              else node.Some? && table == old(table)[MountParts(path) := file]
      ensures node.Some? ==> node.value < |nodes| && nodes[node.value].file == Some(file)
                             && path != "" && paths[node.value] == MountParts(path)
    {
      if path == "" || path[0] != SLASH {
        return None;
      }
      var buf, _ := Chop(path);
      var at: nat := 0;
      if buf[1] != NUL {
        at := DescendAll(buf, |path|);
      }
      PutFile(at, file);
      node := Some(at);
    }

    /** The place behind the last part of a chopped path. */
    method EndOfParts(buf: array<char>, depth: nat, ghost ps: seq<string>) returns (end: nat)
      requires IsChopped(buf[..], ps) && depth == |ps|
      ensures end == Offset(ps, |ps|)
    {
      end := 1;
      var d := 0;
      while d < depth
        invariant 0 <= d <= depth && end == Offset(ps, d)
      {
        PartAt(ps, d);
        OffsetNext(ps, d);
        end := end + |StringAt(buf[..], end)| + 1;
        d := d + 1;
      }
    }

    /** Of the prefixes of ps with at most k parts, the one with d parts is the longest with a file system, which is
        last; or none has one. */
    ghost predicate Deepest(ps: seq<string>, k: nat, d: nat, last: Option<F>)
      reads this
    {
      && d <= k <= |ps| && (forall m | d < m <= k :: ps[..m] !in table)
      && (if ps[..d] in table then last == Some(table[ps[..d]]) else d == 0 && last == None)
    }

    /** The next part has a directory: it is the deepest one when a file system is mounted on it. */
    lemma DeeperBy(ps: seq<string>, k: nat, d: nat, last: Option<F>, node: nat)
      requires Valid() && k < |ps| && Deepest(ps, k, d, last) && node < |nodes| && paths[node] == ps[..k + 1]
      ensures if nodes[node].file.Some? then Deepest(ps, k + 1, k + 1, nodes[node].file)
              else Deepest(ps, k + 1, d, last)
    {
      NodeTable(node);
    }

    /** The next part has no directory: nothing deeper is mounted. */
    lemma NoDeeper(ps: seq<string>, k: nat, d: nat, last: Option<F>, node: nat)
      requires Valid() && k < |ps| && Deepest(ps, k, d, last) && node < |nodes| && paths[node] == ps[..k]
      requires NoChild(nodes, node, ps[k])
      ensures Deepest(ps, |ps|, d, last)
    {
      forall m | k < m <= |ps| ensures ps[..m] !in table {
        assert ps[..m][..k + 1] == ps[..k] + [ps[k]];
        NothingFurther(node, ps[k], ps[..m]);
      }
    }

    /** The directory for the string at a position of a chopped path, and the position behind that string. */
    method ChildAt(buf: array<char>, at: nat, node: nat, ghost ps: seq<string>, ghost k: nat)
      returns (child: Option<nat>, next: nat)
      requires Valid() && IsChopped(buf[..], ps) && k < |ps| && at == Offset(ps, k) && node < |nodes|
      ensures next == Offset(ps, k + 1)
      ensures child.Some? ==> child.value < |nodes| && paths[child.value] == paths[node] + [ps[k]]
      ensures child.None? ==> NoChild(nodes, node, ps[k])
    {
      PartAt(ps, k);
      OffsetNext(ps, k);
      var name := StringAt(buf[..], at);
      next := at + |name| + 1;
      child := FindChild(node, name);
    }

    /** The walk through the tree has come to the node for the first k parts. */
    ghost predicate Reached(ps: seq<string>, k: nat, at: nat, node: nat)
      reads this
    {
      |paths| == |nodes| && k <= |ps| && at == Offset(ps, k) && node < |nodes| && paths[node] == ps[..k]
    }

    /** Lines 619-637: one directory further, if there is one; then nothing deeper is mounted. */
    method Advance(buf: array<char>, at: nat, node: nat, last: Option<F>, depth: nat, path: nat, d: nat,
                   ghost ps: seq<string>, ghost k: nat)
      returns (found: bool, at': nat, node': nat, last': Option<F>, depth': nat, path': nat)
      requires Valid() && IsChopped(buf[..], ps) && k < |ps| && Reached(ps, k, at, node) && d == k + 1
      requires depth <= |ps| && Deepest(ps, k, depth, last) && path == Offset(ps, depth)
      ensures found ==> Reached(ps, k + 1, at', node') && Deepest(ps, k + 1, depth', last')
      ensures !found ==> Deepest(ps, |ps|, depth', last')
      ensures depth' <= |ps| && path' == Offset(ps, depth')
    {
      last', depth', path' := last, depth, path;
      var child, next := ChildAt(buf, at, node, ps, k);
      found, at', node' := child.Some?, at, node;
      if child.None? {
        NoDeeper(ps, k, depth, last, node);
      } else {
        node', at' := child.value, next;
        assert paths[node'] == ps[..k + 1];
        DeeperBy(ps, k, depth, last, node');
        if nodes[node'].file.Some? {
          last', depth', path' := nodes[node'].file, d, at';
        }
      }
    }

    /** get_mount_point (fs.c:604-649) for a path that was canonicalized and chopped: the file system mounted at the
        longest prefix of the path that has one, how many parts that prefix has, and where the other ones start. */
    method GetMountPoint(buf: array<char>, pathDepth: nat, ghost ps: seq<string>)
      returns (last: Option<F>, outDepth: nat, outPath: nat)
      requires Valid() && IsChopped(buf[..], ps) && pathDepth == |ps|
      ensures outDepth <= |ps| && Deepest(ps, |ps|, outDepth, last) && outPath == Offset(ps, outDepth)
    {
      var end := EndOfParts(buf, pathDepth, ps);
      last := nodes[0].file;
      outDepth, outPath := 0, 1;
      var at: nat, node: nat, d: nat, found := 1, 0, 1, true;
      ghost var k: nat := 0;
      NodeTable(0);
      assert paths[0] == ps[..0];
      BeforeEnd(ps, 0);
      while found && at < end
        invariant outDepth <= |ps| && outPath == Offset(ps, outDepth) && d == k + 1 && k <= |ps|
        invariant found ==> Reached(ps, k, at, node) && (at < end <==> k < |ps|)
        invariant Deepest(ps, if found then k else |ps|, outDepth, last)
        decreases |ps| - k, found
      {
        found, at, node, last, outDepth, outPath := Advance(buf, at, node, last, outDepth, outPath, d, ps, k);
        if found {
          d, k := d + 1, k + 1;
          BeforeEnd(ps, k);
        }
      }
    }

    /** kopen_recur from line 658 to line 689: whatever name a file is opened by, it is looked for in the file system
        mounted at the longest prefix of its canonical path that has one. */
    method MountPointOf(cwd: string, file: string) returns (last: Option<F>, outDepth: nat, outPath: nat)
      requires Valid() && NUL !in cwd && NUL !in file
      ensures Deepest(PartsOf(cwd, file), |PartsOf(cwd, file)|, outDepth, last)
      ensures outDepth <= |PartsOf(cwd, file)| && outPath == Offset(PartsOf(cwd, file), outDepth)
      ensures Canon(cwd, file) == Named(PartsOf(cwd, file)) && Parts(PartsOf(cwd, file))
    {
      ghost var ps := PartsOf(cwd, file);
      PartsOfIsClean(cwd, file);
      var text, size := CanonicalizePath(cwd, file);
      if size == 1 {
        RootOnly(ps);
        NodeTable(0);
        return nodes[0].file, 0, 1;
      }
      assert ps != [];
      var buf, depth := Chop(text[..size]);
      SlashesOfJoin(ps);
      last, outDepth, outPath := GetMountPoint(buf, depth, ps);
    }

    lemma NothingFurther(at: nat, name: string, q: seq<string>)
      requires Valid() && at < |nodes| && NoChild(nodes, at, name)
      requires |paths[at]| < |q| && q[..|paths[at]| + 1] == paths[at] + [name]
      ensures q !in table
    {
      if q in table {
        var c :| 0 <= c < |nodes| && paths[c] == q && nodes[c].file.Some?;
        NothingBelow(nodes, paths, at, name, c, q);
      }
    }

    lemma NodeTable(i: nat)
      requires Valid() && i < |nodes|
      ensures paths[i] in table <==> nodes[i].file.Some?
      ensures paths[i] in table ==> table[paths[i]] == nodes[i].file.value
    {
    }
  }
}
