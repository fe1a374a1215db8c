/** What the operations on the tree do to paths: which paths lead where before and after them. */
module TreeLaws {
  import opened Bytes
  import opened Errno
  import opened Layout
  import opened Directory
  import opened Trees
  import opened FileSystem
  import opened PathOps

  // ---------- where a path leads ----------

  ghost predicate GoodComponent(c: CString) { |c| <= 58 && forall i :: 0 <= i < |c| ==> c[i] <= 0x7F }

  /** Component `c` leads from inode `x` to inode `y`. */
  ghost predicate StepTo(t: Tree, x: nat, c: CString, y: nat) {
    && GoodComponent(c) && x in t && t[x].Folder?
    && if c == [0x2E] then y == x else c in t[x].entries && y == t[x].entries[c].child
  }

  /** The first `k` components lead from `cur` to `n`. */
  ghost predicate Chain(t: Tree, cur: nat, cs: seq<CString>, k: nat, n: nat)
    requires k <= |cs|
  {
    if k == 0 then n == cur
    else
      var c := cs[k - 1];
      exists m: nat :: Chain(t, cur, cs, k - 1, m) && StepTo(t, m, c, n)
  }

  /** Why component `c` leads nowhere from `x`. */
  ghost predicate Stuck(t: Tree, x: nat, c: CString, st: int) {
    if !GoodComponent(c) then st == EINVAL
    else if x !in t then st == EIO
    else if t[x].Regular? then st == ENOTDIR
    else c != [0x2E] && c !in t[x].entries && st == ENOENT
  }

  lemma {:induction false} ChainFront(t: Tree, cur: nat, cs: seq<CString>, k: nat, next: nat, n: nat)
    requires 0 < |cs| && k < |cs| && StepTo(t, cur, cs[0], next) && Chain(t, next, cs[1..], k, n)
    ensures Chain(t, cur, cs, k + 1, n)
    decreases k
  {
    hide StepTo;
    if k == 0 {
      assert Chain(t, cur, cs, 0, cur);
    } else {
      var m: nat :| Chain(t, next, cs[1..], k - 1, m) && StepTo(t, m, cs[1..][k - 1], n);
      ChainFront(t, cur, cs, k - 1, next, m);
      assert cs[1..][k - 1] == cs[k];
    }
  }

  /** The components lead to `n`, or the first one that leads nowhere decides the error. */
  ghost predicate Outcomes(t: Tree, cur: nat, cs: seq<CString>, o: FileSystem.Outcome) {
    match o
    case Found(n) => Chain(t, cur, cs, |cs|, n)
    case Failed(st) => exists k: nat, m: nat :: k < |cs| && Chain(t, cur, cs, k, m) && Stuck(t, m, cs[k], st)
  }

  lemma {:induction false} WalkMeans(t: Tree, cur: nat, cs: seq<CString>)
    ensures Outcomes(t, cur, cs, Walk(t, cur, cs))
    decreases |cs|
  {
    if cs != [] {
      var c := cs[0];
      if GoodComponent(c) && cur in t && t[cur].Folder? && (c == [0x2E] || c in t[cur].entries) {
        var next := if c == [0x2E] then cur else t[cur].entries[c].child;
        assert StepTo(t, cur, c, next);
        WalkMeans(t, next, cs[1..]);
        OutcomeFront(t, cur, cs, next, Walk(t, next, cs[1..]));
      } else {
        assert Chain(t, cur, cs, 0, cur);
        StuckHere(t, cur, cs, Walk(t, cur, cs).st);
      }
    }
  }

  lemma StuckHere(t: Tree, cur: nat, cs: seq<CString>, st: int)
    requires cs != [] && Stuck(t, cur, cs[0], st)
    ensures Outcomes(t, cur, cs, Failed(st))
  {
    hide Stuck;
    assert Chain(t, cur, cs, 0, cur);
  }

  lemma OutcomeFront(t: Tree, cur: nat, cs: seq<CString>, next: nat, o: FileSystem.Outcome)
    requires cs != [] && StepTo(t, cur, cs[0], next) && Outcomes(t, next, cs[1..], o)
    ensures Outcomes(t, cur, cs, o)
  {
    hide StepTo, Stuck, Chain;
    match o
    case Found(n) => ChainFront(t, cur, cs, |cs| - 1, next, n);
    case Failed(st) =>
      var k: nat, m: nat :| k < |cs| - 1 && Chain(t, next, cs[1..], k, m) && Stuck(t, m, cs[1..][k], st);
      ChainFront(t, cur, cs, k, next, m);
      assert cs[1..][k] == cs[k + 1];
  }

  lemma {:induction false} ChainUnique(t: Tree, cur: nat, cs: seq<CString>, k: nat, m: nat, n: nat)
    requires k <= |cs| && Chain(t, cur, cs, k, m) && Chain(t, cur, cs, k, n)
    ensures m == n
    decreases k
  {
    if k > 0 {
      var x: nat :| Chain(t, cur, cs, k - 1, x) && StepTo(t, x, cs[k - 1], m);
      var y: nat :| Chain(t, cur, cs, k - 1, y) && StepTo(t, y, cs[k - 1], n);
      ChainUnique(t, cur, cs, k - 1, x, y);
    }
  }

  lemma {:induction false} ChainShorter(t: Tree, cur: nat, cs: seq<CString>, j: nat, k: nat, n: nat) returns (m: nat)
    requires j < k <= |cs| && Chain(t, cur, cs, k, n)
    ensures Chain(t, cur, cs, j, m) && exists x: nat :: StepTo(t, m, cs[j], x)
    decreases k
  {
    hide StepTo;
    m :| Chain(t, cur, cs, k - 1, m) && StepTo(t, m, cs[k - 1], n);
    if j < k - 1 { m := ChainShorter(t, cur, cs, j, k - 1, m); }
  }

  /** There is only one outcome, so this is what walking gives. */
  lemma OutcomeUnique(t: Tree, cur: nat, cs: seq<CString>, o: FileSystem.Outcome)
    requires Outcomes(t, cur, cs, o)
    ensures o == Walk(t, cur, cs)
  {
    hide Chain, Walk;
    var w := Walk(t, cur, cs);
    WalkMeans(t, cur, cs);
    if o.Found? && w.Found? {
      ChainUnique(t, cur, cs, |cs|, o.n, w.n);
    } else if o.Found? {
      FoundAndStuck(t, cur, cs, o.n, w.st);
    } else if w.Found? {
      FoundAndStuck(t, cur, cs, w.n, o.st);
    } else {
      StuckOnce(t, cur, cs, o.st, w.st);
    }
  }

  lemma FoundAndStuck(t: Tree, cur: nat, cs: seq<CString>, n: nat, st: int)
    requires Chain(t, cur, cs, |cs|, n)
    ensures !Outcomes(t, cur, cs, Failed(st))
  {
    hide Chain;
    if Outcomes(t, cur, cs, Failed(st)) {
      var k: nat, m: nat :| k < |cs| && Chain(t, cur, cs, k, m) && Stuck(t, m, cs[k], st);
      var x := ChainShorter(t, cur, cs, k, |cs|, n);
      ChainUnique(t, cur, cs, k, m, x);
    }
  }

  lemma StuckOnce(t: Tree, cur: nat, cs: seq<CString>, a: int, b: int)
    requires Outcomes(t, cur, cs, Failed(a)) && Outcomes(t, cur, cs, Failed(b))
    ensures a == b
  {
    hide Chain;
    var j: nat, x: nat :| j < |cs| && Chain(t, cur, cs, j, x) && Stuck(t, x, cs[j], a);
    var k: nat, y: nat :| k < |cs| && Chain(t, cur, cs, k, y) && Stuck(t, y, cs[k], b);
    if j < k {
      var m := ChainShorter(t, cur, cs, j, k, y);
      ChainUnique(t, cur, cs, j, x, m);
    } else if k < j {
      var m := ChainShorter(t, cur, cs, k, j, x);
      ChainUnique(t, cur, cs, k, y, m);
    } else {
      ChainUnique(t, cur, cs, k, x, y);
    }
  }

  /** Looking up a path: it is rooted and shorter than 256 bytes, its components lead from the root
      to the inode, and a slash at its end asks for a directory. */
  lemma LookupMeans(t: Tree, root: nat, path: CString)
    ensures var o := Lookup(t, root, path);
            if path == [] || |path| >= 256 || path[0] != 0x2F then o == Failed(EINVAL)
            else exists w :: Outcomes(t, root, Components(path), w)
                   && o == if |path| > 1 && path[|path| - 1] == 0x2F && w.Found? && w.n in t && t[w.n].Regular?
                           then Failed(ENOTDIR) else w
  {
    hide Outcomes, Walk;
    WalkMeans(t, root, Components(path));
  }

  /** Why the last component names no place in `x`. */
  ghost predicate NoPlace(t: Tree, x: nat, c: CString, st: int) {
    if !GoodComponent(c) then st == EINVAL
    else if x !in t then st == EIO
    else if t[x].Regular? then st == ENOTDIR
    else c in {[0x2E], [0x2E, 0x2E]} && st == EINVAL
  }

  /** All components but the last lead to the directory, and the last is a name other than the dots;
      or the first one that does not decides the error. */
  ghost predicate Places(t: Tree, cur: nat, cs: seq<CString>, o: Place)
    requires cs != []
  {
    var last := |cs| - 1;
    match o
    case At(d, name) =>
      && Chain(t, cur, cs, last, d) && IsFolder(t, d) && GoodComponent(name)
      && name == cs[last] && name !in {[0x2E], [0x2E, 0x2E]}
    case Nowhere(st) =>
      || (exists k: nat, m: nat :: k < last && Chain(t, cur, cs, k, m) && Stuck(t, m, cs[k], st))
      || (exists m: nat :: Chain(t, cur, cs, last, m) && NoPlace(t, m, cs[last], st))
  }

  lemma {:induction false} WalkToParentMeans(t: Tree, cur: nat, cs: seq<CString>)
    requires cs != []
    ensures Places(t, cur, cs, WalkToParent(t, cur, cs))
    decreases |cs|
  {
    hide Stuck, NoPlace;
    var c := cs[0];
    assert Chain(t, cur, cs, 0, cur);
    if |cs| == 1 {
      PlaceHere(t, cur, cs);
    } else if GoodComponent(c) && cur in t && t[cur].Folder? && (c == [0x2E] || c in t[cur].entries) {
      var next := if c == [0x2E] then cur else t[cur].entries[c].child;
      assert StepTo(t, cur, c, next);
      WalkToParentMeans(t, next, cs[1..]);
      PlacesFront(t, cur, cs, next, WalkToParent(t, next, cs[1..]));
    } else {
      StuckParent(t, cur, cs);
    }
  }

  lemma PlaceHere(t: Tree, cur: nat, cs: seq<CString>)
    requires |cs| == 1
    ensures Places(t, cur, cs, WalkToParent(t, cur, cs))
  {
    assert Chain(t, cur, cs, 0, cur);
  }

  lemma StuckParent(t: Tree, cur: nat, cs: seq<CString>)
    requires |cs| > 1
    requires !(GoodComponent(cs[0]) && cur in t && t[cur].Folder? && (cs[0] == [0x2E] || cs[0] in t[cur].entries))
    ensures Places(t, cur, cs, WalkToParent(t, cur, cs))
  {
    assert Chain(t, cur, cs, 0, cur);
    assert Stuck(t, cur, cs[0], WalkToParent(t, cur, cs).st);
  }

  lemma PlacesFront(t: Tree, cur: nat, cs: seq<CString>, next: nat, o: Place)
    requires |cs| > 1 && StepTo(t, cur, cs[0], next) && Places(t, next, cs[1..], o)
    ensures Places(t, cur, cs, o)
  {
    hide StepTo, Stuck, NoPlace, Chain;
    var rest, last := cs[1..], |cs| - 2;
    assert rest[last] == cs[last + 1];
    match o
    case At(d, name) => ChainFront(t, cur, cs, last, next, d);
    case Nowhere(st) =>
      if k: nat, m: nat :| k < last && Chain(t, next, rest, k, m) && Stuck(t, m, rest[k], st) {
        ChainFront(t, cur, cs, k, next, m);
        assert rest[k] == cs[k + 1];
      } else {
        var m: nat :| Chain(t, next, rest, last, m) && NoPlace(t, m, rest[last], st);
        ChainFront(t, cur, cs, last, next, m);
        assert Chain(t, cur, cs, |cs| - 1, m) && NoPlace(t, m, cs[|cs| - 1], st);
      }
  }

  /** The place that a path names for a new or existing entry: the path is rooted, below 256 bytes,
      does not end in a slash, and has a component. */
  lemma ParentMeans(t: Tree, root: nat, path: CString)
    ensures var o, cs := Parent(t, root, path), Components(path);
            if path == [] || |path| >= 256 || path[0] != 0x2F || path[|path| - 1] == 0x2F || cs == []
            then o == Nowhere(EINVAL) else Places(t, root, cs, o)
  {
    hide Places, WalkToParent;
    if Components(path) != [] { WalkToParentMeans(t, root, Components(path)); }
  }

  // ---------- growing trees ----------

  /** Every inode of `t` is in `t'`, of the same kind, and every entry of `t` is in `t'`. */
  ghost predicate Extends(t: Tree, t': Tree) {
    forall x :: x in t ==>
      && x in t' && (t'[x].Folder? <==> t[x].Folder?)
      && (t[x].Folder? ==>
            forall c :: c in t[x].entries ==> c in t'[x].entries && t'[x].entries[c].child == t[x].entries[c].child)
  }

  lemma {:induction false} WalkExtends(t: Tree, t': Tree, cur: nat, cs: seq<CString>)
    requires Extends(t, t') && Walk(t, cur, cs).Found?
    ensures Walk(t', cur, cs) == Walk(t, cur, cs)
    decreases |cs|
  {
    if cs != [] { WalkExtends(t, t', if cs[0] == DOT then cur else t[cur].entries[cs[0]].child, cs[1..]); }
  }

  lemma LookupExtends(t: Tree, t': Tree, root: nat, path: CString)
    requires EntriesOK(t) && root in t && Extends(t, t') && Lookup(t, root, path).Found?
    ensures Lookup(t', root, path) == Lookup(t, root, path)
  {
    hide Walk, EntriesOK, Components;
    var cs := Components(path);
    WalkExtends(t, t', root, cs);
    WalkStays(t, root, cs);
  }

  lemma {:induction false} WalkStays(t: Tree, cur: nat, cs: seq<CString>)
    requires EntriesOK(t) && cur in t && Walk(t, cur, cs).Found?
    ensures Walk(t, cur, cs).n in t
    decreases |cs|
  {
    if cs != [] {
      if cs[0] == DOT {
        WalkStays(t, cur, cs[1..]);
      } else {
        assert EntryFine(t, cur, cs[0]);
        WalkStays(t, t[cur].entries[cs[0]].child, cs[1..]);
      }
    }
  }

  lemma {:induction false} ParentExtends(t: Tree, t': Tree, cur: nat, cs: seq<CString>)
    requires cs != [] && Extends(t, t') && WalkToParent(t, cur, cs).At?
    ensures WalkToParent(t', cur, cs) == WalkToParent(t, cur, cs)
    decreases |cs|
  {
    if |cs| > 1 { ParentExtends(t, t', if cs[0] == DOT then cur else t[cur].entries[cs[0]].child, cs[1..]); }
  }

  /** The path of a new entry leads to the inode behind it. */
  lemma NewEntryFound(t: Tree, t': Tree, root: nat, path: CString, n: nat)
    requires Extends(t, t') && Parent(t, root, path).At?
    requires var o := Parent(t, root, path);
             o.dir in t' && t'[o.dir].Folder? && o.name in t'[o.dir].entries && t'[o.dir].entries[o.name].child == n
    ensures Lookup(t', root, path) == Found(n)
  {
    hide WalkToParent, Walk, Components, Extends;
    var cs := Components(path);
    ParentExtends(t, t', root, cs);
    WalkThroughParent(t', root, cs);
  }

  lemma NoEntryFails(t: Tree, root: nat, path: CString)
    requires Parent(t, root, path).At?
    requires var o := Parent(t, root, path); o.dir in t && t[o.dir].Folder? && o.name !in t[o.dir].entries
    ensures Lookup(t, root, path) == Failed(ENOENT)
  {
    hide WalkToParent, Walk, Components;
    WalkThroughParent(t, root, Components(path));
  }

  // ---------- create and mkdir ----------

  lemma AddedExtends(t: Tree, p: nat, name: Name, n: nat)
    requires IsFolder(t, p) && name !in t[p].entries && n !in t
    ensures Extends(t, AddFile(t, p, name, n)) && Extends(t, AddFolder(t, p, name, n))
  {
  }

  /** After a file was created its path leads to it, where nothing was before; it is empty, and every
      path that led somewhere leads there still. */
  lemma CreateMeans(g: Geometry, v: Vol, w: Vol, path: CString, n: nat, q: CString)
    requires IsTree(TreeAt(v), g.root) && CreateSpec(g, v, w, path, 0, n)
    ensures Lookup(TreeAt(v), g.root, path) == Failed(ENOENT)
    ensures Lookup(TreeAt(w), g.root, path) == Found(n) && n !in TreeAt(v)
    ensures n in TreeAt(w) && TreeAt(w)[n] == Regular(1, [])
    ensures Lookup(TreeAt(v), g.root, q).Found? ==> Lookup(TreeAt(w), g.root, q) == Lookup(TreeAt(v), g.root, q)
    ensures forall x :: x in TreeAt(v) && TreeAt(v)[x].Regular? ==> x in TreeAt(w) && TreeAt(w)[x] == TreeAt(v)[x]
  {
    hide TreeAt, Lookup, Extends, Parent, IsTree, CreateFate;
    var t, t' := TreeAt(v), TreeAt(w);
    SuccessAt(t, g.root, path);
    var o := Parent(t, g.root, path);
    AddedExtends(t, o.dir, o.name, n);
    NewEntryFound(t, t', g.root, path, n);
    NoEntryFails(t, g.root, path);
    TreeParts(t, g.root);
    if Lookup(t, g.root, q).Found? { LookupExtends(t, t', g.root, q); }
  }

  /** The errors of finding the parent are not 0. */
  lemma SuccessAt(t: Tree, root: nat, path: CString)
    ensures Parent(t, root, path).Nowhere? ==> Parent(t, root, path).st < 0
  {
    if Components(path) != [] { ParentError(t, root, Components(path)); }
  }

  lemma {:induction false} ParentError(t: Tree, cur: nat, cs: seq<CString>)
    requires cs != []
    ensures WalkToParent(t, cur, cs).Nowhere? ==> WalkToParent(t, cur, cs).st < 0
    decreases |cs|
  {
    if |cs| > 1 && cur in t && t[cur].Folder? && (cs[0] == DOT || cs[0] in t[cur].entries) {
      ParentError(t, if cs[0] == DOT then cur else t[cur].entries[cs[0]].child, cs[1..]);
    }
  }

  lemma TreeParts(t: Tree, root: nat)
    requires IsTree(t, root)
    ensures EntriesOK(t) && IsFolder(t, root)
  {
  }

  /** The same for a directory, which has its two dot entries and no other. */
  lemma MkdirMeans(g: Geometry, v: Vol, w: Vol, path: CString, n: nat, q: CString)
    requires IsTree(TreeAt(v), g.root) && MkdirSpec(g, v, w, path, 0, n)
    ensures Lookup(TreeAt(v), g.root, path) == Failed(ENOENT)
    ensures Lookup(TreeAt(w), g.root, path) == Found(n) && n !in TreeAt(v)
    ensures n in TreeAt(w) && TreeAt(w)[n].Folder? && TreeAt(w)[n].entries.Keys == {[0x2E], [0x2E, 0x2E]}
    ensures Lookup(TreeAt(v), g.root, q).Found? ==> Lookup(TreeAt(w), g.root, q) == Lookup(TreeAt(v), g.root, q)
    ensures forall x :: x in TreeAt(v) && TreeAt(v)[x].Regular? ==> x in TreeAt(w) && TreeAt(w)[x] == TreeAt(v)[x]
  {
    hide TreeAt, Lookup, Extends, Parent, IsTree, MkdirFate;
    var t, t' := TreeAt(v), TreeAt(w);
    SuccessAt(t, g.root, path);
    var o := Parent(t, g.root, path);
    AddedExtends(t, o.dir, o.name, n);
    NewEntryFound(t, t', g.root, path, n);
    NoEntryFails(t, g.root, path);
    TreeParts(t, g.root);
    if Lookup(t, g.root, q).Found? { LookupExtends(t, t', g.root, q); }
  }

  // ---------- unlink ----------

  lemma RemovedExtends(t: Tree, p: nat, name: Name, n: nat)
    requires IsFolder(t, p) && n in t && n != p && (t[n].Folder? ==> t[p].links > 0)
    ensures Extends(Remove(t, p, name, n), t)
  {
  }

  lemma CanRemove(t: Tree, root: nat, par: map<nat, Ref>, depth: map<nat, nat>, p: nat, name: Name)
    requires TreeWith(t, root, par, depth) && SingleLinks(t) && HasEntry(t, p, name) && !Dot(name)
    requires var c := t[p].entries[name].child; c in t && (t[c].Folder? ==> t[c].entries.Keys == {DOT, DOT_DOT})
    ensures Removable(t, root, p, name, t[p].entries[name].child) && t[p].entries[name].child != p
  {
    var c := t[p].entries[name].child;
    assert ChildFine(t, root, par, p, name);
    assert c == p ==> name in {DOT, DOT_DOT};
  }

  /** From any inode but `n`, an entry other than the removed one does not lead to `n`. */
  lemma OtherEntry(t: Tree, root: nat, par: map<nat, Ref>, depth: map<nat, nat>, p: nat, name: Name, n: nat, cur: nat,
                   c: Name)
    requires TreeWith(t, root, par, depth) && Removable(t, root, p, name, n) && HasEntry(t, cur, c) && cur != n
    requires !(cur == p && c == name)
    ensures t[cur].entries[c].child != n
  {
    if t[cur].entries[c].child == n { OnlyRef(t, root, par, depth, p, name, n, Ref(cur, c)); }
  }

  /** What follows a removed inode in a path that leads somewhere: nothing, or dots. */
  lemma {:induction false} BehindRemoved(t: Tree, n: nat, cs: seq<CString>)
    requires n in t && Walk(t, n, cs).Found? && (t[n].Regular? || DOT_DOT !in cs)
    requires t[n].Folder? ==> t[n].entries.Keys == {DOT, DOT_DOT} && t[n].entries[DOT].child == n
    ensures Walk(t, n, cs) == Found(n)
    decreases |cs|
  {
    if cs != [] {
      assert cs[0] in cs;
      if cs[0] == DOT { BehindRemoved(t, n, cs[1..]); }
    }
  }

  /** Walking without the removed entry: the same inode, unless the path went through it. */
  lemma {:induction false} WalkRemoved(t: Tree, root: nat, par: map<nat, Ref>, depth: map<nat, nat>, p: nat, name: Name,
                                       n: nat, cur: nat, cs: seq<CString>, x: nat)
    requires TreeWith(t, root, par, depth) && Removable(t, root, p, name, n) && n != p
    requires t[n].Folder? ==> t[p].links > 0 && t[n].entries[DOT].child == n
    requires cur in t && cur != n && Walk(t, cur, cs) == Found(x) && x != n && (t[n].Regular? || DOT_DOT !in cs)
    ensures Walk(Remove(t, p, name, n), cur, cs) == Found(x)
    decreases |cs|
  {
    hide TreeWith, Removable;
    if cs != [] {
      var c, rest := cs[0], cs[1..];
      if c == DOT {
        WalkRemoved(t, root, par, depth, p, name, n, cur, rest, x);
      } else {
        var next := t[cur].entries[c].child;
        if cur == p && c == name {
          RemovedFacts(t, root, p, name, n);
          BehindRemoved(t, n, rest);
        } else {
          OtherEntry(t, root, par, depth, p, name, n, cur, c);
          NextInside(t, root, par, depth, cur, c);
          WalkRemoved(t, root, par, depth, p, name, n, next, rest, x);
        }
      }
    }
  }

  lemma RemovedFacts(t: Tree, root: nat, p: nat, name: Name, n: nat)
    requires Removable(t, root, p, name, n)
    ensures n in t && IsFolder(t, p) && name in t[p].entries && t[p].entries[name].child == n
    ensures t[n].Folder? ==> t[n].entries.Keys == {DOT, DOT_DOT}
  {
  }

  lemma NextInside(t: Tree, root: nat, par: map<nat, Ref>, depth: map<nat, nat>, cur: nat, c: Name)
    requires TreeWith(t, root, par, depth) && HasEntry(t, cur, c)
    ensures t[cur].entries[c].child in t
  {
    assert EntryFine(t, cur, c);
  }

  /** The path of a removed entry leads nowhere, even if it went through the removed directory. */
  lemma {:induction false} WalkGone(t: Tree, root: nat, par: map<nat, Ref>, depth: map<nat, nat>, p: nat,
                                    name: CString, n: nat, cur: nat, cs: seq<CString>)
    requires TreeWith(t, root, par, depth) && Removable(t, root, p, name, n) && n != p
    requires t[n].Folder? ==> t[p].links > 0
    requires cur in t && cur != n && cs != [] && WalkToParent(t, cur, cs) == At(p, name)
    ensures Walk(Remove(t, p, name, n), cur, cs) == Failed(ENOENT)
    decreases |cs|
  {
    hide TreeWith, Removable;
    RemovedFacts(t, root, p, name, n);
    var c, rest := cs[0], cs[1..];
    if |cs| > 1 {
      if c == DOT {
        WalkGone(t, root, par, depth, p, name, n, cur, rest);
      } else if !(cur == p && c == name) {
        OtherEntry(t, root, par, depth, p, name, n, cur, c);
        NextInside(t, root, par, depth, cur, c);
        WalkGone(t, root, par, depth, p, name, n, t[cur].entries[c].child, rest);
      }
    }
  }

  /** After unlink the path leads nowhere and its inode is gone; no path leads elsewhere than before;
      and every path to another inode leads there still, unless it takes "..". */
  lemma UnlinkMeans(g: Geometry, v: Vol, w: Vol, path: CString, q: CString) returns (n: nat)
    requires IsTree(TreeAt(v), g.root) && SingleLinks(TreeAt(v)) && UnlinkSpec(g, v, w, path, 0)
    ensures Lookup(TreeAt(v), g.root, path) == Found(n) && Lookup(TreeAt(w), g.root, path) == Failed(ENOENT)
    ensures n in TreeAt(v) && n !in TreeAt(w)
    ensures Lookup(TreeAt(w), g.root, q).Found? ==> Lookup(TreeAt(v), g.root, q) == Lookup(TreeAt(w), g.root, q)
    ensures var o := Lookup(TreeAt(v), g.root, q);
            o.Found? && o.n != n && (TreeAt(v)[n].Regular? || DOT_DOT !in Components(q)) ==>
              Lookup(TreeAt(w), g.root, q) == o
    ensures forall x :: x in TreeAt(v) && x != n && TreeAt(v)[x].Regular? ==>
              x in TreeAt(w) && TreeAt(w)[x] == TreeAt(v)[x]
  {
    hide TreeAt, Lookup, Extends, Parent, TreeWith, Removable, SingleLinks, Components;
    var t, t' := TreeAt(v), TreeAt(w);
    SuccessAt(t, g.root, path);
    var o := Parent(t, g.root, path);
    n := t[o.dir].entries[o.name].child;
    var par, depth :| TreeWith(t, g.root, par, depth);
    TreeParts(t, g.root);
    ParentNameValid(t, g.root, path);
    CanRemove(t, g.root, par, depth, o.dir, o.name);
    RemovedExtends(t, o.dir, o.name, n);
    RemovedFacts(t, g.root, o.dir, o.name, n);
    PathGone(t, g.root, par, depth, path, n);
    RemoveKeepsTree(t, g.root, o.dir, o.name, n);
    TreeParts(t', g.root);
    if Lookup(t', g.root, q).Found? { LookupExtends(t', t, g.root, q); }
    if Lookup(t, g.root, q).Found? && Lookup(t, g.root, q).n != n && (t[n].Regular? || DOT_DOT !in Components(q)) {
      PathStays(t, g.root, par, depth, o.dir, o.name, n, q);
    }
  }

  lemma PathGone(t: Tree, root: nat, par: map<nat, Ref>, depth: map<nat, nat>, path: CString, n: nat)
    requires TreeWith(t, root, par, depth) && Parent(t, root, path).At?
    requires var o := Parent(t, root, path);
             IsFolder(t, o.dir) && Removable(t, root, o.dir, o.name, n) && n != o.dir && t[o.dir].links > 0
    ensures Lookup(t, root, path) == Found(n)
    ensures var o := Parent(t, root, path); n in t && Lookup(Remove(t, o.dir, o.name, n), root, path) == Failed(ENOENT)
  {
    hide Components, WalkToParent, Walk, TreeWith;
    var o, cs := Parent(t, root, path), Components(path);
    RootInside(t, root, par, depth);
    WalkThroughParent(t, root, cs);
    WalkGone(t, root, par, depth, o.dir, o.name, n, root, cs);
  }

  lemma RootInside(t: Tree, root: nat, par: map<nat, Ref>, depth: map<nat, nat>)
    requires TreeWith(t, root, par, depth)
    ensures root in t && t[root].Folder?
  {
  }

  lemma PathStays(t: Tree, root: nat, par: map<nat, Ref>, depth: map<nat, nat>, p: nat, name: Name, n: nat, q: CString)
    requires TreeWith(t, root, par, depth) && Removable(t, root, p, name, n) && n != p && t[p].links > 0
    requires Lookup(t, root, q).Found? && Lookup(t, root, q).n != n && (t[n].Regular? || DOT_DOT !in Components(q))
    ensures Lookup(Remove(t, p, name, n), root, q) == Lookup(t, root, q)
  {
    hide Components, Walk, TreeWith;
    RootInside(t, root, par, depth);
    if t[n].Folder? { SelfEntry(t, root, par, depth, n); }
    WalkRemoved(t, root, par, depth, p, name, n, root, Components(q), Lookup(t, root, q).n);
  }

  lemma SelfEntry(t: Tree, root: nat, par: map<nat, Ref>, depth: map<nat, nat>, n: nat)
    requires TreeWith(t, root, par, depth) && IsFolder(t, n)
    ensures DOT in t[n].entries && t[n].entries[DOT].child == n
  {
    assert DotsFine(t, root, par, n);
  }

  // ---------- write and truncate ----------

  lemma {:induction false} WalkSameContent(t: Tree, n: nat, s: seq<byte>, cur: nat, cs: seq<CString>)
    requires n in t && t[n].Regular?
    ensures Walk(SetContent(t, n, s), cur, cs) == Walk(t, cur, cs)
    decreases |cs|
  {
    if cs != [] && cur in t && t[cur].Folder? && (cs[0] == DOT || cs[0] in t[cur].entries) {
      WalkSameContent(t, n, s, if cs[0] == DOT then cur else t[cur].entries[cs[0]].child, cs[1..]);
    }
  }

  /** Changing the bytes of a file changes no path, and no other file. */
  lemma ContentMeans(t: Tree, root: nat, n: nat, s: seq<byte>, q: CString)
    requires n in t && t[n].Regular?
    ensures Lookup(SetContent(t, n, s), root, q) == Lookup(t, root, q)
    ensures SetContent(t, n, s)[n] == Regular(t[n].links, s)
    ensures forall x :: x in t && x != n ==> SetContent(t, n, s)[x] == t[x]
  {
    hide Walk, Components;
    WalkSameContent(t, n, s, root, Components(q));
  }
}
