/** The directory tree: what a volume looks like to a user, and when it is a tree. */
module Trees {
  import opened Bytes
  import opened Directory

  datatype Node = Regular(links: nat, content: seq<byte>) | Folder(links: nat, entries: map<Name, Link>)

  /** All allocated inodes, by number. */
  type Tree = map<nat, Node>

  function Kind(x: Node): (k: nat) { if x.Regular? then 1 else 2 }

  predicate Dot(name: Name) { name == DOT || name == DOT_DOT }

  /** A directory entry, by directory and name. */
  datatype Ref = Ref(dir: nat, name: Name)

  ghost predicate Refers(t: Tree, r: Ref, n: nat) {
    r.dir in t && t[r.dir].Folder? && r.name in t[r.dir].entries && t[r.dir].entries[r.name].child == n
  }

  ghost function Refs(t: Tree, n: nat): (rs: set<Ref>)
    ensures forall r :: r in rs <==> Refers(t, r, n)
  {
    set d, name | d in t && t[d].Folder? && name in t[d].entries && t[d].entries[name].child == n :: Ref(d, name)
  }

  // Each condition is a predicate on one directory, entry or inode; the quantifiers are
  // triggered by that predicate alone, so a proof uses exactly the instances it names.

  ghost predicate HasEntry(t: Tree, d: nat, name: Name) {
    d in t && t[d].Folder? && name in t[d].entries
  }

  ghost predicate EntryFine(t: Tree, d: nat, name: Name)
    requires HasEntry(t, d, name)
  {
    t[d].entries[name].child in t && t[d].entries[name].kind == Kind(t[t[d].entries[name].child])
  }

  ghost predicate EntriesOK(t: Tree) {
    forall d, name {:trigger EntryFine(t, d, name)} :: HasEntry(t, d, name) ==> EntryFine(t, d, name)
  }

  ghost predicate IsFolder(t: Tree, d: nat) { d in t && t[d].Folder? }

  ghost predicate DotsFine(t: Tree, root: nat, par: map<nat, Ref>, d: nat)
    requires IsFolder(t, d)
  {
    && DOT in t[d].entries && t[d].entries[DOT].child == d
    && DOT_DOT in t[d].entries
    && (d == root || d in par) && t[d].entries[DOT_DOT].child == if d == root then root else par[d].dir
  }

  /** Every directory lists itself and its parent. */
  ghost predicate DotsOK(t: Tree, root: nat, par: map<nat, Ref>) {
    forall d {:trigger DotsFine(t, root, par, d)} :: IsFolder(t, d) ==> DotsFine(t, root, par, d)
  }

  ghost predicate ParentFine(t: Tree, par: map<nat, Ref>, depth: map<nat, nat>, d: nat) {
    && d in par && !Dot(par[d].name) && Refers(t, par[d], d)
    && d in depth && par[d].dir in depth && depth[d] == depth[par[d].dir] + 1
  }

  /** Every directory but the root hangs from a directory nearer to the root. */
  ghost predicate ParentsOK(t: Tree, root: nat, par: map<nat, Ref>, depth: map<nat, nat>) {
    && IsFolder(t, root) && root in depth
    && forall d {:trigger ParentFine(t, par, depth, d)} :: IsFolder(t, d) && d != root ==> ParentFine(t, par, depth, d)
  }

  ghost predicate ChildFine(t: Tree, root: nat, par: map<nat, Ref>, d: nat, name: Name)
    requires HasEntry(t, d, name)
  {
    var c := t[d].entries[name].child;
    IsFolder(t, c) && !Dot(name) ==> c != root && c in par && par[c] == Ref(d, name)
  }

  /** And it hangs from there only. */
  ghost predicate ChildrenOK(t: Tree, root: nat, par: map<nat, Ref>) {
    forall d, name {:trigger ChildFine(t, root, par, d, name)} :: HasEntry(t, d, name) ==>
      ChildFine(t, root, par, d, name)
  }

  ghost predicate LinksFine(t: Tree, n: nat)
    requires n in t
  {
    0 < t[n].links == |Refs(t, n)|
  }

  ghost predicate LinksOK(t: Tree) {
    forall n {:trigger LinksFine(t, n)} :: n in t ==> LinksFine(t, n)
  }

  ghost predicate TreeWith(t: Tree, root: nat, par: map<nat, Ref>, depth: map<nat, nat>) {
    EntriesOK(t) && DotsOK(t, root, par) && ParentsOK(t, root, par, depth) && ChildrenOK(t, root, par) && LinksOK(t)
  }

  /** One directory tree that reaches every inode, with link counts that match. */
  ghost predicate IsTree(t: Tree, root: nat) {
    exists par: map<nat, Ref>, depth: map<nat, nat> :: TreeWith(t, root, par, depth)
  }

  ghost predicate SingleLinks(t: Tree) {
    forall n :: n in t && t[n].Regular? ==> t[n].links == 1
  }

  // ---------- every inode is reachable ----------

  /** Where following `names` from inode `n` leads. */
  ghost predicate Leads(t: Tree, n: nat, names: seq<Name>, m: nat)
    decreases |names|
  {
    if names == [] then n == m
    else && n in t && t[n].Folder? && names[0] in t[n].entries
         && Leads(t, t[n].entries[names[0]].child, names[1..], m)
  }

  lemma {:induction false} LeadsOneMore(t: Tree, n: nat, names: seq<Name>, r: Ref, m: nat)
    requires Leads(t, n, names, r.dir) && Refers(t, r, m)
    ensures Leads(t, n, names + [r.name], m)
    decreases |names|
  {
    if names == [] {
      assert ([] + [r.name])[1..] == [];
    } else {
      assert (names + [r.name])[1..] == names[1..] + [r.name];
      LeadsOneMore(t, t[n].entries[names[0]].child, names[1..], r, m);
    }
  }

  ghost predicate Plain(names: seq<Name>) {
    forall i :: 0 <= i < |names| ==> !Dot(names[i])
  }

  lemma {:induction false} FolderReachable(t: Tree, root: nat, par: map<nat, Ref>, depth: map<nat, nat>, d: nat)
    returns (names: seq<Name>)
    requires TreeWith(t, root, par, depth) && d in t && t[d].Folder?
    ensures Leads(t, root, names, d) && Plain(names)
    decreases if d in depth then depth[d] else 0
  {
    if d == root {
      names := [];
    } else {
      assert ParentFine(t, par, depth, d);
      names := FolderReachable(t, root, par, depth, par[d].dir);
      LeadsOneMore(t, root, names, par[d], d);
      names := names + [par[d].name];
    }
  }

  /** In a tree, some path without dots leads from the root to every inode. */
  lemma Reachable(t: Tree, root: nat, n: nat)
    requires IsTree(t, root) && n in t
    ensures exists names :: Leads(t, root, names, n) && Plain(names)
  {
    var par, depth :| TreeWith(t, root, par, depth);
    if t[n].Folder? {
      var names := FolderReachable(t, root, par, depth, n);
    } else {
      assert LinksFine(t, n);
      var r :| r in Refs(t, n);
      assert DotsFine(t, root, par, r.dir);
      assert r.dir != root ==> ParentFine(t, par, depth, r.dir);
      var names := FolderReachable(t, root, par, depth, r.dir);
      LeadsOneMore(t, root, names, r, n);
      assert Plain(names + [r.name]);
    }
  }

  // ---------- the tree operations ----------

  function WithEntry(x: Node, name: Name, l: Link, more: nat): (y: Node)
    requires x.Folder?
  {
    Folder(x.links + more, x.entries[name := l])
  }

  /** `t` with the empty file `n` under the new name `name` in directory `p`. */
  function AddFile(t: Tree, p: nat, name: Name, n: nat): (t': Tree)
    requires p in t && t[p].Folder?
  {
    t[n := Regular(1, [])][p := WithEntry(t[p], name, Link(n, 1), 0)]
  }

  /** `t` with the empty directory `n` under the new name `name` in directory `p`. */
  function AddFolder(t: Tree, p: nat, name: Name, n: nat): (t': Tree)
    requires p in t && t[p].Folder?
  {
    t[n := Folder(2, map[DOT := Link(n, 2), DOT_DOT := Link(p, 2)])][p := WithEntry(t[p], name, Link(n, 2), 1)]
  }

  /** `t` without inode `n`, which directory `p` lists as `name`. */
  function Remove(t: Tree, p: nat, name: Name, n: nat): (t': Tree)
    requires p in t && t[p].Folder? && n in t && (t[n].Folder? ==> t[p].links > 0)
  {
    (t - {n})[p := Folder(if t[n].Folder? then t[p].links - 1 else t[p].links, t[p].entries - {name})]
  }

  function SetContent(t: Tree, n: nat, s: seq<byte>): (t': Tree)
    requires n in t && t[n].Regular?
  {
    t[n := Regular(t[n].links, s)]
  }

  lemma NoRefsToMissing(t: Tree, n: nat)
    requires EntriesOK(t) && n !in t
    ensures Refs(t, n) == {}
  {
    forall r: Ref ensures !Refers(t, r, n) {
      if HasEntry(t, r.dir, r.name) { assert EntryFine(t, r.dir, r.name); }
    }
  }

  lemma AddFileRefs(t: Tree, p: nat, name: Name, n: nat, m: nat)
    requires EntriesOK(t) && IsFolder(t, p) && name !in t[p].entries && n !in t
    ensures Refs(AddFile(t, p, name, n), m) == if m == n then {Ref(p, name)} else Refs(t, m)
  {
    NoRefsToMissing(t, n);
    var t' := AddFile(t, p, name, n);
    forall r ensures Refers(t', r, m) <==> (Refers(t, r, m) || (m == n && r == Ref(p, name))) {
    }
  }

  lemma AddFileKeepsTree(t: Tree, root: nat, p: nat, name: Name, n: nat)
    requires IsTree(t, root) && IsFolder(t, p) && name !in t[p].entries && n !in t && !Dot(name)
    ensures IsTree(AddFile(t, p, name, n), root)
    ensures SingleLinks(t) ==> SingleLinks(AddFile(t, p, name, n))
  {
    var par, depth :| TreeWith(t, root, par, depth);
    var t' := AddFile(t, p, name, n);
    assert EntriesOK(t') by {
      forall d, x | HasEntry(t', d, x) ensures EntryFine(t', d, x) {
        if HasEntry(t, d, x) { assert EntryFine(t, d, x); }
      }
    }
    assert DotsOK(t', root, par) by {
      forall d | IsFolder(t', d) ensures DotsFine(t', root, par, d) { assert DotsFine(t, root, par, d); }
    }
    assert ParentsOK(t', root, par, depth) by {
      forall d | IsFolder(t', d) && d != root
        ensures ParentFine(t', par, depth, d) { assert ParentFine(t, par, depth, d); }
    }
    assert ChildrenOK(t', root, par) by {
      forall d, x | HasEntry(t', d, x) ensures ChildFine(t', root, par, d, x) {
        if HasEntry(t, d, x) { assert ChildFine(t, root, par, d, x); assert EntryFine(t, d, x); }
      }
    }
    assert LinksOK(t') by {
      forall m | m in t' ensures LinksFine(t', m) {
        AddFileRefs(t, p, name, n, m);
        if m != n { assert LinksFine(t, m); }
      }
    }
    assert TreeWith(t', root, par, depth);
  }

  lemma AddFolderRefs(t: Tree, p: nat, name: Name, n: nat, m: nat)
    requires EntriesOK(t) && IsFolder(t, p) && name !in t[p].entries && n !in t
    ensures Refs(AddFolder(t, p, name, n), m) ==
            if m == n then {Ref(p, name), Ref(n, DOT)} else if m == p then Refs(t, p) + {Ref(n, DOT_DOT)}
              else Refs(t, m)
  {
    NoRefsToMissing(t, n);
    var t' := AddFolder(t, p, name, n);
    forall r ensures Refers(t', r, m) <==>
      (Refers(t, r, m) || (m == n && r == Ref(p, name)) || (m == n && r == Ref(n, DOT))
        || (m == p && r == Ref(n, DOT_DOT)))
    {
    }
  }

  lemma AddFolderLinks(t: Tree, p: nat, name: Name, n: nat)
    requires EntriesOK(t) && LinksOK(t) && IsFolder(t, p) && name !in t[p].entries && n !in t
    ensures LinksOK(AddFolder(t, p, name, n))
  {
    var t' := AddFolder(t, p, name, n);
    forall m | m in t' ensures LinksFine(t', m) {
      AddFolderRefs(t, p, name, n, m);
      if m == n {
        assert Ref(p, name) != Ref(n, DOT);
      } else {
        assert LinksFine(t, m);
        assert !Refers(t, Ref(n, DOT_DOT), m);
      }
    }
  }

  lemma AddFolderKeepsTree(t: Tree, root: nat, p: nat, name: Name, n: nat)
    requires IsTree(t, root) && IsFolder(t, p) && name !in t[p].entries && n !in t && !Dot(name)
    ensures IsTree(AddFolder(t, p, name, n), root)
    ensures SingleLinks(t) ==> SingleLinks(AddFolder(t, p, name, n))
  {
    var par, depth :| TreeWith(t, root, par, depth);
    assert p != root ==> ParentFine(t, par, depth, p);
    var t', par', depth' := AddFolder(t, p, name, n), par[n := Ref(p, name)], depth[n := depth[p] + 1];
    assert EntriesOK(t') by {
      forall d, x | HasEntry(t', d, x) ensures EntryFine(t', d, x) {
        if HasEntry(t, d, x) { assert EntryFine(t, d, x); }
      }
    }
    assert DotsOK(t', root, par') by {
      forall d | IsFolder(t', d) ensures DotsFine(t', root, par', d) {
        if d != n { assert DotsFine(t, root, par, d); }
      }
    }
    assert ParentsOK(t', root, par', depth') by {
      forall d | IsFolder(t', d) && d != root ensures ParentFine(t', par', depth', d) {
        if d != n { assert ParentFine(t, par, depth, d); }
      }
    }
    assert ChildrenOK(t', root, par') by {
      forall d, x | HasEntry(t', d, x) ensures ChildFine(t', root, par', d, x) {
        if HasEntry(t, d, x) { assert ChildFine(t, root, par, d, x); assert EntryFine(t, d, x); }
      }
    }
    AddFolderLinks(t, p, name, n);
    assert TreeWith(t', root, par', depth');
  }

  /** `p` lists `n` as `name`, and `n` is a file with one link or a directory with nothing in it. */
  ghost predicate Removable(t: Tree, root: nat, p: nat, name: Name, n: nat) {
    && IsFolder(t, p) && !Dot(name) && name in t[p].entries && t[p].entries[name].child == n && n in t && n != root
    && (t[n].Regular? ==> t[n].links == 1)
    && (t[n].Folder? ==> t[n].entries.Keys == {DOT, DOT_DOT})
  }

  /** No directory but `p`, and `n` itself, refers to a removable `n`. */
  lemma OnlyRef(t: Tree, root: nat, par: map<nat, Ref>, depth: map<nat, nat>, p: nat, name: Name, n: nat, r: Ref)
    requires TreeWith(t, root, par, depth) && Removable(t, root, p, name, n) && Refers(t, r, n)
    ensures r == Ref(p, name) || (t[n].Folder? && r == Ref(n, DOT))
  {
    if t[n].Regular? {
      assert LinksFine(t, n);
      assert Ref(p, name) in Refs(t, n);
      if r != Ref(p, name) {
        assert {r, Ref(p, name)} <= Refs(t, n);
        TwoInside(Refs(t, n), r, Ref(p, name));
      }
    } else {
      assert ChildFine(t, root, par, p, name);
      assert ChildFine(t, root, par, r.dir, r.name);
      assert DotsFine(t, root, par, r.dir);
      assert r.dir != root ==>
          ParentFine(t, par, depth, r.dir) && ChildFine(t, root, par, par[r.dir].dir, par[r.dir].name);
    }
  }

  lemma TwoInside<T>(s: set<T>, a: T, b: T)
    requires a in s && b in s && a != b
    ensures |s| >= 2
  {
    assert |s - {a}| == |s| - 1 && b in s - {a};
    assert |s - {a} - {b}| == |s| - 2;
  }

  lemma RemoveRefs(t: Tree, root: nat, par: map<nat, Ref>, depth: map<nat, nat>, p: nat, name: Name, n: nat, m: nat)
    requires TreeWith(t, root, par, depth) && Removable(t, root, p, name, n) && m in t && m != n && p != n
    requires t[n].Folder? ==> t[p].links > 0
    ensures Refs(Remove(t, p, name, n), m) == Refs(t, m) - (if t[n].Folder? && m == p then {Ref(n, DOT_DOT)} else {})
    ensures t[n].Folder? && m == p ==> Ref(n, DOT_DOT) in Refs(t, m)
  {
    var t' := Remove(t, p, name, n);
    if t[n].Folder? {
      assert DotsFine(t, root, par, n);
      assert ChildFine(t, root, par, p, name);
    }
    forall r ensures Refers(t', r, m) <==> (Refers(t, r, m) && !(t[n].Folder? && m == p && r == Ref(n, DOT_DOT))) {
    }
  }

  lemma ParentDiffers(t: Tree, root: nat, par: map<nat, Ref>, depth: map<nat, nat>, p: nat, name: Name, n: nat)
    requires TreeWith(t, root, par, depth) && Removable(t, root, p, name, n)
    ensures p != n && t[p].links > 0
  {
    assert LinksFine(t, p);
    assert ChildFine(t, root, par, p, name);
    if t[n].Folder? { assert ParentFine(t, par, depth, n); }
  }

  lemma RemoveLinks(t: Tree, root: nat, par: map<nat, Ref>, depth: map<nat, nat>, p: nat, name: Name, n: nat)
    requires TreeWith(t, root, par, depth) && Removable(t, root, p, name, n) && p != n && t[p].links > 0
    ensures LinksOK(Remove(t, p, name, n))
  {
    var t' := Remove(t, p, name, n);
    forall m | m in t' ensures LinksFine(t', m) {
      assert LinksFine(t, m);
      RemoveRefs(t, root, par, depth, p, name, n, m);
      if m == p {
        assert DotsFine(t, root, par, p);
        assert Ref(p, DOT) in Refs(t', m);
      }
    }
  }

  lemma RemoveKeepsTree(t: Tree, root: nat, p: nat, name: Name, n: nat)
    requires IsTree(t, root) && Removable(t, root, p, name, n)
    ensures p != n && t[p].links > 0
    ensures IsTree(Remove(t, p, name, n), root)
    ensures SingleLinks(t) ==> SingleLinks(Remove(t, p, name, n))
  {
    var par, depth :| TreeWith(t, root, par, depth);
    ParentDiffers(t, root, par, depth, p, name, n);
    var t' := Remove(t, p, name, n);
    assert EntriesOK(t') by {
      forall d, x | HasEntry(t', d, x) ensures EntryFine(t', d, x) {
        assert EntryFine(t, d, x);
        if Refers(t, Ref(d, x), n) { OnlyRef(t, root, par, depth, p, name, n, Ref(d, x)); }
      }
    }
    assert DotsOK(t', root, par) by {
      forall d | IsFolder(t', d) ensures DotsFine(t', root, par, d) { assert DotsFine(t, root, par, d); }
    }
    assert ParentsOK(t', root, par, depth) by {
      forall d | IsFolder(t', d) && d != root ensures ParentFine(t', par, depth, d) {
        assert ParentFine(t, par, depth, d);
        assert ChildFine(t, root, par, p, name);
      }
    }
    assert ChildrenOK(t', root, par) by {
      forall d, x | HasEntry(t', d, x) ensures ChildFine(t', root, par, d, x) { assert ChildFine(t, root, par, d, x); }
    }
    RemoveLinks(t, root, par, depth, p, name, n);
    assert TreeWith(t', root, par, depth);
  }

  lemma SetContentKeepsTree(t: Tree, root: nat, n: nat, s: seq<byte>)
    requires IsTree(t, root) && n in t && t[n].Regular?
    ensures IsTree(SetContent(t, n, s), root)
    ensures SingleLinks(t) ==> SingleLinks(SetContent(t, n, s))
  {
    var par, depth :| TreeWith(t, root, par, depth);
    var t' := SetContent(t, n, s);
    assert EntriesOK(t') by {
      forall d, x | HasEntry(t', d, x) ensures EntryFine(t', d, x) { assert EntryFine(t, d, x); }
    }
    assert DotsOK(t', root, par) by {
      forall d | IsFolder(t', d) ensures DotsFine(t', root, par, d) { assert DotsFine(t, root, par, d); }
    }
    assert ParentsOK(t', root, par, depth) by {
      forall d | IsFolder(t', d) && d != root
        ensures ParentFine(t', par, depth, d) { assert ParentFine(t, par, depth, d); }
    }
    assert ChildrenOK(t', root, par) by {
      forall d, x | HasEntry(t', d, x) ensures ChildFine(t', root, par, d, x) { assert ChildFine(t, root, par, d, x); }
    }
    assert LinksOK(t') by {
      forall m | m in t' ensures LinksFine(t', m) {
        assert LinksFine(t, m);
        assert Refs(t', m) == Refs(t, m);
      }
    }
    assert TreeWith(t', root, par, depth);
  }
}
