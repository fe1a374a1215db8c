/** Path normalisation: what the system calls do to a path before the file system sees it. */
module Paths {
  import opened Bytes
  import opened Errno
  import opened Directory
  import opened Trees
  import opened FileSystem
  import opened DirOps

  // ---------- what it computes ----------

  /** The names of a path, each after a slash. */
  function Slashed(names: seq<CString>): (s: CString) {
    if names == [] then [] else Slashed(names[..|names| - 1]) + ([SLASH] + names[|names| - 1])
  }

  function Joined(names: seq<CString>): (s: CString) {
    if names == [] then [SLASH] else Slashed(names)
  }

  datatype Result = Names(names: seq<CString>) | TooLong

  /** One more component: "." stays, ".." goes up but not above the root. */
  function Enter(names: seq<CString>, c: CString): (r: Result) {
    if c == DOT then Names(names)
    else if c == DOT_DOT then Names(if names == [] then [] else names[..|names| - 1])
    else if |Joined(names + [c])| >= 256 then TooLong
    else Names(names + [c])
  }

  function EnterAll(names: seq<CString>, cs: seq<CString>): (r: Result)
    decreases |cs|
  {
    if cs == [] then Names(names)
    else match Enter(names, cs[0])
      case TooLong => TooLong
      case Names(more) => EnterAll(more, cs[1..])
  }

  predicate Absolute(input: CString) { input != [] && input[0] == SLASH }

  function Resolved(cwd: CString, input: CString): (r: Result) {
    if Absolute(input) then EnterAll([], Components(input))
    else match EnterAll([], Components(cwd))
      case TooLong => TooLong
      case Names(base) => EnterAll(base, Components(input))
  }

  predicate EndsInSlash(s: CString) { |s| > 1 && s[|s| - 1] == SLASH }

  datatype Normal = Path(path: CString) | Bad

  function Normalized(cwd: CString, input: CString): (r: Normal) {
    match Resolved(cwd, input)
    case TooLong => Bad
    case Names(names) =>
      if !EndsInSlash(input) || names == [] then Path(Joined(names))
      else if |Joined(names)| + 1 >= 256 then Bad
      else Path(Joined(names) + [SLASH])
  }

  // ---------- components of a joined path ----------

  lemma {:induction false} ComponentsSplit(a: CString, b: CString)
    requires b != [] ==> b[0] == SLASH
    ensures Components(a + b) == Components(a) + Components(b)
    decreases |a|
  {
    if a == [] {
      assert a + b == b;
    } else if a[0] == SLASH {
      assert (a + b)[1..] == a[1..] + b;
      ComponentsSplit(a[1..], b);
    } else {
      var e := UpToSlash(a);
      assert UpToSlash(a + b) == e by { SameStart(a, b); }
      assert (a + b)[..e] == a[..e] && (a + b)[e..] == a[e..] + b;
      ComponentsSplit(a[e..], b);
    }
  }

  lemma SameStart(a: CString, b: CString)
    requires a != [] && a[0] != SLASH && (b != [] ==> b[0] == SLASH)
    ensures UpToSlash(a + b) == UpToSlash(a)
  {
    var e := UpToSlash(a);
    assert forall i :: 0 <= i < e ==> (a + b)[i] == a[i];
    assert e < |a + b| ==> (a + b)[e] == SLASH;
  }

  ghost predicate Plain(c: CString) { c != [] && SLASH !in c && !Dot(c) }

  ghost predicate AllPlain(names: seq<CString>) { forall i :: 0 <= i < |names| ==> Plain(names[i]) }

  lemma OneComponent(c: CString)
    requires Plain(c)
    ensures Components([SLASH] + c) == [c]
  {
    assert ([SLASH] + c)[1..] == c;
    assert c[0] in c;
    assert Components(c) == [c[..UpToSlash(c)]] + Components(c[UpToSlash(c)..]);
    assert UpToSlash(c) == |c|;
    assert c[..|c|] == c && c[|c|..] == [];
  }

  lemma {:induction false} ComponentsOfSlashed(names: seq<CString>)
    requires AllPlain(names)
    ensures Components(Slashed(names)) == names
  {
    if names != [] {
      var p, c := names[..|names| - 1], names[|names| - 1];
      ComponentsOfSlashed(p);
      OneComponent(c);
      ComponentsSplit(Slashed(p), [SLASH] + c);
      assert names == p + [c];
    }
  }

  /** The components of a joined path are the names it was joined from. */
  lemma ComponentsOfJoined(names: seq<CString>)
    requires AllPlain(names)
    ensures Components(Joined(names)) == names
    ensures names != [] ==> Components(Joined(names) + [SLASH]) == names
  {
    ComponentsOfSlashed(names);
    assert Components([SLASH]) == [] by { assert [SLASH][1..] == []; }
    ComponentsSplit(Joined(names), [SLASH]);
  }

  // ---------- the result is normal ----------

  lemma {:induction false} EnterAllPlain(names: seq<CString>, cs: seq<CString>)
    requires AllPlain(names) && |Joined(names)| < 256 && (forall i :: 0 <= i < |cs| ==> cs[i] != [] && SLASH !in cs[i])
    requires EnterAll(names, cs).Names?
    ensures AllPlain(EnterAll(names, cs).names) && |Joined(EnterAll(names, cs).names)| < 256
    decreases |cs|
  {
    if cs != [] {
      ShorterPrefix(names);
      EnterAllPlain(Enter(names, cs[0]).names, cs[1..]);
    }
  }

  lemma ShorterPrefix(names: seq<CString>)
    requires AllPlain(names)
    ensures names != [] ==> |Joined(names[..|names| - 1])| <= |Joined(names)|
  {
    if names != [] { assert Plain(names[|names| - 1]); }
  }

  lemma ComponentsFine(s: CString)
    ensures forall i :: 0 <= i < |Components(s)| ==> Components(s)[i] != [] && SLASH !in Components(s)[i]
  {
    forall i | 0 <= i < |Components(s)|
      ensures Components(s)[i] != [] && SLASH !in Components(s)[i] { ComponentsNonEmpty(s, i); }
  }

  lemma ResolvedPlain(cwd: CString, input: CString)
    requires Resolved(cwd, input).Names?
    ensures AllPlain(Resolved(cwd, input).names) && |Joined(Resolved(cwd, input).names)| < 256
  {
    hide EnterAll, Components;
    ComponentsFine(cwd);
    ComponentsFine(input);
    if Absolute(input) {
      EnterAllPlain([], Components(input));
    } else {
      EnterAllPlain([], Components(cwd));
      EnterAllPlain(EnterAll([], Components(cwd)).names, Components(input));
    }
  }

  /** No two slashes follow each other. */
  predicate NoDoubleSlash(p: CString) { forall i :: 0 <= i < |p| - 1 ==> !(p[i] == SLASH && p[i + 1] == SLASH) }

  lemma {:induction false} JoinedSingle(names: seq<CString>)
    requires AllPlain(names)
    ensures NoDoubleSlash(Joined(names))
  {
    if |names| > 0 {
      var p, c := names[..|names| - 1], names[|names| - 1];
      assert Plain(c);
      assert forall i :: 0 <= i < |c| ==> c[i] in c;
      if p != [] {
        JoinedSingle(p);
        LastByte(p);
        assert Joined(names) == Joined(p) + ([SLASH] + c);
      } else {
        assert Slashed(p) == [];
        assert Joined(names) == [] + ([SLASH] + c);
      }
    }
  }

  /** A normalised path is rooted, shorter than 256 bytes, and has no ".", ".." or empty component:
      slashes stand alone, and there is one at the end exactly if the input had one there and names
      are left. */
  lemma NormalizedIsNormal(cwd: CString, input: CString)
    requires Normalized(cwd, input).Path?
    ensures var p, names := Normalized(cwd, input).path, Resolved(cwd, input).names;
            && PathOK(p) && NoDoubleSlash(p) && Components(p) == names && AllPlain(names)
            && (EndsInSlash(p) <==> EndsInSlash(input) && names != [])
  {
    hide EnterAll, Components;
    var names := Resolved(cwd, input).names;
    ResolvedPlain(cwd, input);
    ComponentsOfJoined(names);
    JoinedRooted(names);
    JoinedSingle(names);
    if names != [] { LastByte(names); }
  }

  /** The path "/a/" keeps its slash, and with it an empty string after the last slash. */
  lemma TrailingSlashKept()
    ensures var p := [SLASH, 0x61, SLASH]; Normalized([SLASH], p) == Path(p)
  {
    var p: CString := [SLASH, 0x61, SLASH];
    ComponentsOfJoined([[0x61]]);
    assert [[0x61]][..0] == [];
    assert Joined([[0x61]]) == [SLASH, 0x61];
    assert p == Joined([[0x61]]) + [SLASH];
    assert Components(p) == [[0x61]];
    assert [] + [[0x61]] == [[0x61]];
    assert Enter([], [0x61]) == Names([[0x61]]);
    assert [[0x61]][1..] == [];
    assert EnterAll([], [[0x61]]) == Names([[0x61]]);
  }

  lemma {:induction false} JoinedRooted(names: seq<CString>)
    ensures Joined(names) != [] && Joined(names)[0] == SLASH
  {
    if |names| == 1 {
      assert names[..0] == [];
    } else if |names| > 1 {
      JoinedRooted(names[..|names| - 1]);
      assert Joined(names)[0] == Slashed(names[..|names| - 1])[0];
    }
  }

  lemma {:induction false} EnterPlainOnes(names: seq<CString>, cs: seq<CString>)
    requires AllPlain(names + cs) && |Joined(names + cs)| < 256
    ensures EnterAll(names, cs) == Names(names + cs)
    decreases |cs|
  {
    hide Joined;
    if cs == [] {
      assert names + cs == names;
    } else {
      assert Plain((names + cs)[|names|]);
      assert (names + [cs[0]]) + cs[1..] == names + cs;
      JoinedGrows(names + [cs[0]], cs[1..]);
      EnterPlainOnes(names + [cs[0]], cs[1..]);
    }
  }

  lemma {:induction false} JoinedGrows(names: seq<CString>, cs: seq<CString>)
    requires names != []
    ensures |Joined(names)| <= |Joined(names + cs)|
    decreases |cs|
  {
    if cs == [] {
      assert names + cs == names;
    } else {
      assert (names + cs)[..|names + cs| - 1] == names + cs[..|cs| - 1];
      JoinedGrows(names, cs[..|cs| - 1]);
    }
  }

  /** Normalising twice is normalising once. */
  lemma Idempotent(cwd: CString, other: CString, input: CString)
    requires Normalized(cwd, input).Path?
    ensures Normalized(other, Normalized(cwd, input).path) == Normalized(cwd, input)
  {
    hide EnterAll, Components;
    var p, names := Normalized(cwd, input).path, Resolved(cwd, input).names;
    NormalizedIsNormal(cwd, input);
    ResolvedPlain(cwd, input);
    assert [] + names == names;
    EnterPlainOnes([], names);
    if names != [] { LastByte(names); }
  }

  lemma LastByte(names: seq<CString>)
    requires AllPlain(names) && names != []
    ensures |Joined(names)| > 1 && Joined(names)[|Joined(names)| - 1] != SLASH
  {
    var c := names[|names| - 1];
    assert Plain(c) && c[|c| - 1] in c;
  }

  // ---------- the same file is found ----------

  /** Going up from a directory reached by a plain path undoes the last name of that path. */
  lemma UpUndoesDown(t: Tree, root: nat, par: map<nat, Ref>, depth: map<nat, nat>, p: nat, name: Name)
    requires TreeWith(t, root, par, depth) && HasEntry(t, p, name) && !Dot(name)
    requires IsFolder(t, t[p].entries[name].child)
    ensures var c := t[p].entries[name].child; c != root && DOT_DOT in t[c].entries && t[c].entries[DOT_DOT].child == p
  {
    var c := t[p].entries[name].child;
    assert ChildFine(t, root, par, p, name) && DotsFine(t, root, par, c);
  }

  lemma RootUp(t: Tree, root: nat, par: map<nat, Ref>, depth: map<nat, nat>)
    requires TreeWith(t, root, par, depth) && IsFolder(t, root)
    ensures DOT_DOT in t[root].entries && t[root].entries[DOT_DOT].child == root
  {
    assert DotsFine(t, root, par, root);
  }

  lemma {:induction false} WalkLast(t: Tree, cur: nat, cs: seq<CString>, n: nat)
    requires cs != [] && Walk(t, cur, cs) == Found(n)
    ensures var c := cs[|cs| - 1];
            && ComponentOK(c) && Walk(t, cur, cs[..|cs| - 1]).Found?
            && var p := Walk(t, cur, cs[..|cs| - 1]).n;
               IsFolder(t, p) && (if c == DOT then n == p else c in t[p].entries && t[p].entries[c].child == n)
    decreases |cs|
  {
    if |cs| > 1 {
      var next := if cs[0] == DOT then cur else t[cur].entries[cs[0]].child;
      WalkLast(t, next, cs[1..], n);
      assert cs[1..][..|cs| - 2] == cs[..|cs| - 1][1..];
      assert cs[1..][|cs| - 2] == cs[|cs| - 1];
    } else {
      assert cs[..0] == [];
    }
  }

  lemma {:induction false} WalkOneMore(t: Tree, cur: nat, cs: seq<CString>, c: CString, p: nat)
    requires Walk(t, cur, cs) == Found(p) && ComponentOK(c) && c != DOT && IsFolder(t, p) && c in t[p].entries
    ensures Walk(t, cur, cs + [c]) == Found(t[p].entries[c].child)
    decreases |cs|
  {
    if cs == [] {
      assert cs + [c] == [c] && [c][1..] == [];
    } else {
      assert (cs + [c])[1..] == cs[1..] + [c];
      WalkOneMore(t, if cs[0] == DOT then cur else t[cur].entries[cs[0]].child, cs[1..], c, p);
    }
  }

  /** Walking on from where the names so far lead ends where the shortened names lead. */
  lemma {:induction false} SameWalk(t: Tree, root: nat, par: map<nat, Ref>, depth: map<nat, nat>,
                                    names: seq<CString>, cur: nat, cs: seq<CString>, n: nat)
    requires TreeWith(t, root, par, depth) && AllPlain(names) && Walk(t, root, names) == Found(cur)
    requires (forall i :: 0 <= i < |cs| ==> cs[i] != [] && SLASH !in cs[i]) && |Joined(names)| < 256
    requires Walk(t, cur, cs) == Found(n) && EnterAll(names, cs).Names?
    ensures Walk(t, root, EnterAll(names, cs).names) == Found(n)
    decreases |cs|
  {
    if cs != [] {
      var next := if cs[0] == DOT then cur else t[cur].entries[cs[0]].child;
      var more := Enter(names, cs[0]).names;
      OneStep(t, root, par, depth, names, cur, cs[0], next);
      ShorterPrefix(names);
      SameWalk(t, root, par, depth, more, next, cs[1..], n);
    }
  }

  lemma OneStep(t: Tree, root: nat, par: map<nat, Ref>, depth: map<nat, nat>, names: seq<CString>, cur: nat, c: CString,
                next: nat)
    requires TreeWith(t, root, par, depth) && AllPlain(names) && Walk(t, root, names) == Found(cur)
    requires c != [] && SLASH !in c && ComponentOK(c) && IsFolder(t, cur) && Enter(names, c).Names?
    requires if c == DOT then next == cur else c in t[cur].entries && next == t[cur].entries[c].child
    ensures AllPlain(Enter(names, c).names) && Walk(t, root, Enter(names, c).names) == Found(next)
  {
    hide TreeWith, Joined, ComponentOK;
    if c == DOT_DOT {
      if names == [] {
        RootUp(t, root, par, depth);
      } else {
        WalkLast(t, root, names, cur);
        var p, x := Walk(t, root, names[..|names| - 1]).n, names[|names| - 1];
        assert Plain(x);
        UpUndoesDown(t, root, par, depth, p, x);
      }
    } else if c != DOT {
      WalkOneMore(t, root, names, c, cur);
    }
  }

  /** On a tree, whenever an absolute path leads somewhere, following every stored "..", the
      normalised path leads to the same inode. */
  lemma LookupNormalized(t: Tree, root: nat, cwd: CString, input: CString, n: nat)
    requires IsTree(t, root) && Lookup(t, root, input) == Found(n) && Normalized(cwd, input).Path?
    ensures Lookup(t, root, Normalized(cwd, input).path) == Found(n)
  {
    hide EnterAll, Components, TreeWith;
    var par, depth :| TreeWith(t, root, par, depth);
    var p, names := Normalized(cwd, input).path, Resolved(cwd, input).names;
    NormalizedIsNormal(cwd, input);
    ComponentsFine(input);
    SameWalk(t, root, par, depth, [], root, Components(input), n);
    if names != [] { LastByte(names); } else { RootIsFolder(t, root, par, depth); }
  }

  // ---------- relative paths ----------

  lemma {:induction false} EnterAllSplit(names: seq<CString>, a: seq<CString>, b: seq<CString>)
    ensures EnterAll(names, a + b) == match EnterAll(names, a)
                                      case TooLong => TooLong
                                      case Names(more) => EnterAll(more, b)
    decreases |a|
  {
    if a == [] {
      assert a + b == b;
    } else {
      assert (a + b)[0] == a[0] && (a + b)[1..] == a[1..] + b;
      if Enter(names, a[0]).Names? { EnterAllSplit(Enter(names, a[0]).names, a[1..], b); }
    }
  }

  // ---------- when it fails ----------

  /** The names that are left of `cs` when "." is dropped and ".." takes back the name before it,
      without any limit on their length. */
  ghost function Simplified(cs: seq<CString>): (names: seq<CString>) {
    if cs == [] then []
    else
      var before, c := Simplified(cs[..|cs| - 1]), cs[|cs| - 1];
      if c == [0x2E] then before
      else if c == [0x2E, 0x2E] then (if before == [] then [] else before[..|before| - 1])
      else before + [c]
  }

  /** No part of the way, from the whole of it back to the start, is 256 bytes long or longer. */
  ghost predicate StaysShort(cs: seq<CString>) {
    |Joined(Simplified(cs))| < 256 && (cs == [] || StaysShort(cs[..|cs| - 1]))
  }

  lemma {:induction false} SimplifiedPlain(cs: seq<CString>)
    requires forall i :: 0 <= i < |cs| ==> cs[i] != [] && SLASH !in cs[i]
    ensures AllPlain(Simplified(cs))
  {
    if cs != [] { SimplifiedPlain(cs[..|cs| - 1]); }
  }

  lemma {:induction false} EnterAllIsSimplified(cs: seq<CString>)
    requires forall i :: 0 <= i < |cs| ==> cs[i] != [] && SLASH !in cs[i]
    ensures EnterAll([], cs) == if StaysShort(cs) then Names(Simplified(cs)) else TooLong
  {
    hide Joined;
    if cs == [] {
      JoinedNothing();
    } else {
      var p, c := cs[..|cs| - 1], cs[|cs| - 1];
      EnterAllIsSimplified(p);
      SimplifiedPlain(p);
      assert cs == p + [c] && [c][1..] == [];
      EnterAllSplit([], p, [c]);
      if StaysShort(p) {
        ShorterPrefix(Simplified(p));
        JoinedNothing();
      }
    }
  }

  lemma JoinedNothing()
    ensures |Joined([])| == 1
  {
  }

  /** The result is the simplified path; it is refused exactly if some part of the way to it, or it
      with the slash that is put at its end, does not fit into 255 bytes. */
  lemma NormalizedIsSimplified(cwd: CString, input: CString)
    ensures var cs := if Absolute(input) then Components(input) else Components(cwd) + Components(input);
            var names := Simplified(cs);
            var path := if EndsInSlash(input) && names != [] then Joined(names) + [SLASH] else Joined(names);
            Normalized(cwd, input) == if StaysShort(cs) && |path| < 256 then Path(path) else Bad
  {
    hide EnterAll, Components, Simplified, Joined;
    var cs := if Absolute(input) then Components(input) else Components(cwd) + Components(input);
    ComponentsFine(cwd);
    ComponentsFine(input);
    EnterAllSplit([], Components(cwd), Components(input));
    EnterAllIsSimplified(cs);
  }

  /** The absolute path that a relative one stands for in a working directory. */
  function InDirectory(cwd: CString, input: CString): (path: CString) {
    cwd + ([SLASH] + if input == [] then [0x2E] else input)
  }

  lemma ComponentsInDirectory(cwd: CString, input: CString)
    ensures Components(cwd + ([SLASH] + input)) == Components(cwd) + Components(input)
  {
    ComponentsSplit(cwd, [SLASH] + input);
    assert ([SLASH] + input)[1..] == input;
  }

  /** A relative path is normalised as the absolute path is that it stands for, and fails if that
      fails; the empty one stands for the working directory itself. */
  lemma RelativeIsAbsolute(cwd: CString, other: CString, input: CString)
    requires Absolute(cwd) && !Absolute(input)
    ensures Normalized(cwd, input) == Normalized(other, InDirectory(cwd, input))
  {
    hide EnterAll, Components;
    var i := if input == [] then [0x2E] else input;
    var path := InDirectory(cwd, input);
    ComponentsInDirectory(cwd, i);
    EnterAllSplit([], Components(cwd), Components(i));
    if input == [] { JustDot(cwd); }
    assert path[|path| - 1] == i[|i| - 1];
  }

  lemma JustDot(cwd: CString)
    ensures Components([]) == [] && Components([0x2E]) == [DOT]
    ensures forall names :: EnterAll(names, [DOT]) == EnterAll(names, [])
  {
    var c: CString := [0x2E];
    assert UpToSlash(c) == 1;
    assert c[..1] == c && c[1..] == [];
    assert [DOT][1..] == [];
  }

  lemma {:induction false} WalkSplit(t: Tree, cur: nat, a: seq<CString>, b: seq<CString>)
    requires Walk(t, cur, a).Found?
    ensures Walk(t, cur, a + b) == Walk(t, Walk(t, cur, a).n, b)
    decreases |a|
  {
    if a == [] {
      assert a + b == b;
    } else {
      assert (a + b)[0] == a[0] && (a + b)[1..] == a[1..] + b;
      WalkSplit(t, if a[0] == DOT then cur else t[cur].entries[a[0]].child, a[1..], b);
    }
  }

  /** On a tree, whenever the working directory is a directory and walking a relative path from
      there leads somewhere, the normalised path leads to the same inode. */
  lemma RelativeLookup(t: Tree, root: nat, cwd: CString, input: CString, d: nat, n: nat)
    requires IsTree(t, root) && Lookup(t, root, cwd) == Found(d) && IsFolder(t, d)
    requires !Absolute(input) && Walk(t, d, Components(input)) == Found(n) && Normalized(cwd, input).Path?
    ensures Lookup(t, root, Normalized(cwd, input).path) ==
              if EndsInSlash(input) && !IsFolder(t, n) then Failed(ENOTDIR) else Found(n)
  {
    hide EnterAll, Components, TreeWith, Walk;
    var par, depth :| TreeWith(t, root, par, depth);
    var names := Resolved(cwd, input).names;
    var cs := Components(cwd) + Components(input);
    NormalizedIsNormal(cwd, input);
    ComponentsFine(cwd);
    ComponentsFine(input);
    EnterAllSplit([], Components(cwd), Components(input));
    WalkSplit(t, root, Components(cwd), Components(input));
    WalkNowhere(t, root);
    SameWalk(t, root, par, depth, [], root, cs, n);
    RootIsFolder(t, root, par, depth);
    EntriesInside(t, root, par, depth);
    WalkInside(t, root, cs, n);
    if names != [] { LastByte(names); }
  }

  lemma EntriesInside(t: Tree, root: nat, par: map<nat, Ref>, depth: map<nat, nat>)
    requires TreeWith(t, root, par, depth)
    ensures EntriesOK(t)
  {
  }

  lemma {:induction false} WalkInside(t: Tree, cur: nat, cs: seq<CString>, n: nat)
    requires EntriesOK(t) && cur in t && Walk(t, cur, cs) == Found(n)
    ensures n in t
    decreases |cs|
  {
    if cs != [] {
      if cs[0] == DOT {
        WalkInside(t, cur, cs[1..], n);
      } else {
        assert EntryFine(t, cur, cs[0]);
        WalkInside(t, t[cur].entries[cs[0]].child, cs[1..], n);
      }
    }
  }

  lemma WalkNowhere(t: Tree, root: nat)
    ensures Walk(t, root, []) == Found(root)
  {
  }

  lemma RootIsFolder(t: Tree, root: nat, par: map<nat, Ref>, depth: map<nat, nat>)
    requires TreeWith(t, root, par, depth)
    ensures IsFolder(t, root)
  {
  }

  // ---------- the kernel's buffer ----------

  /** The buffer holds the joined names as a C string of the given length. */
  ghost predicate HoldsNames(path: seq<byte>, length: nat, names: seq<CString>) {
    && |path| == 256 && AllPlain(names) && length == |Joined(names)| < 256 && path[..length] == Joined(names)
       && path[length] == 0
  }

  method RemoveLastComponent(path: array<byte>, length: nat, ghost names: seq<CString>) returns (shorter: nat)
    requires path.Length == 256 && HoldsNames(path[..], length, names)
    modifies path
    ensures HoldsNames(path[..], shorter, if names == [] then [] else names[..|names| - 1])
  {
    shorter := length;
    ghost var before := path[..];
    if names != [] { SlashPosition(names); }
    ghost var slash := if names == [] then 0 else |Slashed(names[..|names| - 1])|;
    while shorter > 1 && path[shorter - 1] != SLASH
      invariant 1 <= shorter <= length && slash < shorter && path[..] == before
    {
      assert names != [] ==> path[slash] == before[..length][slash];
      shorter := shorter - 1;
    }
    assert forall k :: 0 <= k < length ==> path[k] == Joined(names)[k];
    if shorter > 1 {
      shorter := shorter - 1;
    }
    path[shorter] := 0;
    assert path[..shorter] == before[..shorter] == Joined(names)[..shorter];
  }

  /** In a joined path the last slash stands before the last name. */
  lemma SlashPosition(names: seq<CString>)
    requires AllPlain(names) && names != []
    ensures var p, c := Slashed(names[..|names| - 1]), names[|names| - 1];
            && Joined(names) == p + ([SLASH] + c) && c != [] && SLASH !in c
            && (forall k :: |p| < k < |Joined(names)| ==> Joined(names)[k] != SLASH) && Joined(names)[|p|] == SLASH
            && (p == [] <==> |names| == 1)
  {
    var p, c := Slashed(names[..|names| - 1]), names[|names| - 1];
    assert Plain(c);
    var j := Joined(names);
    forall k | |p| < k < |j| ensures j[k] != SLASH {
      assert j[k] == c[k - |p| - 1] && c[k - |p| - 1] in c;
    }
    if |names| > 1 { JoinedRooted(names[..|names| - 1]); }
  }

  /** Appends one plain name. */
  method AppendName(path: array<byte>, length: nat, name: CString, ghost names: seq<CString>)
    returns (ok: bool, longer: nat)
    requires path.Length == 256 && HoldsNames(path[..], length, names) && Plain(name)
    modifies path
    ensures ok <==> |Joined(names + [name])| < 256
    ensures if ok then HoldsNames(path[..], longer, names + [name]) else path[..] == old(path[..]) && longer == length
  {
    longer := length;
    var separator := if length > 1 then 1 else 0;
    JoinOneMore(names, name);
    if |name| >= 256 || separator + |name| >= 256 - length {
      return false, length;
    }
    if separator != 0 {
      path[longer] := SLASH;
      longer := longer + 1;
    }
    ghost var before := path[..];
    for index := 0 to |name|
      invariant forall k :: 0 <= k < 256 ==>
          path[k] == if longer <= k < longer + index then name[k - longer] else before[k]
    {
      path[longer + index] := name[index];
    }
    assert path[..longer + |name|] == before[..longer] + name;
    assert before[..longer] == Joined(names) + (if separator != 0 then [SLASH] else []);
    longer := longer + |name|;
    path[longer] := 0;
    assert path[..longer] == Joined(names + [name]);
    ok := true;
  }

  lemma JoinOneMore(names: seq<CString>, name: CString)
    requires AllPlain(names) && Plain(name)
    ensures AllPlain(names + [name])
    ensures (|Joined(names)| > 1) == (names != [])
    ensures Joined(names + [name]) == Joined(names) + (if names != [] then [SLASH] else []) + name
  {
    assert (names + [name])[..|names|] == names;
    assert Slashed(names + [name]) == Slashed(names) + ([SLASH] + name);
    if names != [] { LastByte(names); }
  }

  method AppendComponents(path: array<byte>, length: nat, source: CString, ghost names: seq<CString>)
    returns (result: int, longer: nat)
    requires path.Length == 256 && HoldsNames(path[..], length, names)
    modifies path
    ensures var r := EnterAll(names, Components(source));
            if r.Names? then result == 0 && HoldsNames(path[..], longer, r.names) else result == EINVAL
  {
    hide Components, HoldsNames, Joined;
    longer := length;
    var cursor := 0;
    ghost var now := names;
    assert source[0..] == source;
    NoComponents();
    while cursor < |source|
      invariant cursor <= |source| && HoldsNames(path[..], longer, now)
      invariant EnterAll(names, Components(source)) == EnterAll(now, Components(source[cursor..]))
      decreases |source| - cursor
    {
      var start := cursor;
      while start < |source| && source[start] == SLASH
        invariant cursor <= start <= |source| && Components(source[cursor..]) == Components(source[start..])
        invariant HoldsNames(path[..], longer, now)
      {
        SkipSlash(source, start);
        start := start + 1;
      }
      if start == |source| {
        assert source[start..] == [];
        cursor := start;
        break;
      }
      var end := start;
      while end < |source| && source[end] != SLASH
        invariant start <= end <= |source| && forall j :: start <= j < end ==> source[j] != SLASH
        invariant HoldsNames(path[..], longer, now)
      {
        end := end + 1;
      }
      SplitComponent(source, start, end);
      var component: CString := source[start..end];
      assert component != [] && SLASH !in component;
      assert ([component] + Components(source[end..]))[1..] == Components(source[end..]);
      if component == DOT {
      } else if component == DOT_DOT {
        longer := RemoveLastComponent(path, longer, now);
        now := if now == [] then [] else now[..|now| - 1];
      } else {
        var ok;
        ok, longer := AppendName(path, longer, component, now);
        if !ok {
          return EINVAL, longer;
        }
        now := now + [component];
      }
      cursor := end;
    }
    assert source[cursor..] == [];
    result := 0;
  }

  datatype Cwd = NoCwd | Cwd(path: CString)

  /** Normalises `input`, which is relative to the working directory unless it starts with a slash. */
  method NormalizePath(cwd: Cwd, input: CString, path: array<byte>) returns (result: int, ghost length: nat)
    requires path.Length == 256
    modifies path
    ensures var r := Normalized(if cwd.Cwd? then cwd.path else [], input);
            if cwd.NoCwd? && !Absolute(input) then result == EIO
            else if r.Path? then
              result == 0 && length == |r.path| < 256 && path[..length] == r.path && path[length] == 0
            else result == EINVAL
  {
    hide Components, EnterAll;
    var used := 1;
    length := 0;
    path[0], path[1] := SLASH, 0;
    ghost var names: seq<CString> := [];
    assert path[..1] == [SLASH];
    if !Absolute(input) {
      if cwd.NoCwd? {
        return EIO, 0;
      }
      result, used := AppendComponents(path, used, cwd.path, names);
      if result < 0 {
        return;
      }
      names := EnterAll([], Components(cwd.path)).names;
    }
    result, used := AppendComponents(path, used, input, names);
    if result < 0 {
      return;
    }
    names := EnterAll(names, Components(input)).names;
    length := used;
    if names != [] { LastByte(names); }
    if EndsInSlash(input) && used > 1 {
      if used + 1 >= 256 {
        return EINVAL, 0;
      }
      path[used] := SLASH;
      path[used + 1] := 0;
      length := used + 1;
      assert path[..length] == Joined(names) + [SLASH];
    }
  }
}
