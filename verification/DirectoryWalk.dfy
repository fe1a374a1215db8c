/** The breadth-first walk over directories, as the volume checker makes it: what each step
    keeps, and why it accepts trees and nothing else. */
module DirectoryWalk {
  import opened Directory
  import opened Trees

  /** A directory still to be visited, and the directory that lists it. */
  datatype Item = Item(dir: nat, parent: nat)

  ghost predicate Queued(queue: seq<Item>, c: nat) { exists i :: 0 <= i < |queue| && queue[i].dir == c }

  ghost predicate Distinct<T(!new)>(s: seq<T>) { forall i, j :: 0 <= i < j < |s| ==> s[i] != s[j] }

  /** The state of the walk. The checker keeps the first three; `from` names the entry that
      put each item into the queue, and `par` and `depth` are the tree found so far. */
  datatype State = State(queue: seq<Item>, visited: set<nat>, reached: set<nat>,
                         from: seq<Ref>, par: map<nat, Ref>, depth: map<nat, nat>)

  ghost predicate ItemFine(t: Tree, root: nat, s: State, i: nat)
    requires i < |s.queue| && i < |s.from|
  {
    && IsFolder(t, s.queue[i].dir) && s.queue[i].parent == s.from[i].dir
    && (s.visited == {} ==> s.queue[i] == Item(root, root))
    && (s.visited != {} ==> s.from[i].dir in s.visited && !Dot(s.from[i].name) && Refers(t, s.from[i], s.queue[i].dir))
  }

  ghost predicate VisitedFine(t: Tree, root: nat, s: State, d: nat) {
    && IsFolder(t, d) && d in s.depth && DotsFine(t, root, s.par, d)
    && (d != root ==> ParentFine(t, s.par, s.depth, d) && s.par[d].dir in s.visited && s.par[d] !in s.from)
  }

  ghost predicate EntrySeen(t: Tree, root: nat, s: State, d: nat, name: Name)
    requires HasEntry(t, d, name)
  {
    var c := t[d].entries[name].child;
    && EntryFine(t, d, name)
    && (!Dot(name) ==> c in s.reached)
    && (!Dot(name) && IsFolder(t, c) ==>
          Ref(d, name) in s.from || (c != root && c in s.visited && c in s.par && s.par[c] == Ref(d, name)))
  }

  ghost predicate Reached(t: Tree, s: State, c: nat) {
    c in t && (IsFolder(t, c) ==> c in s.visited || Queued(s.queue, c))
  }

  ghost predicate Walking(t: Tree, root: nat, s: State) {
    && |s.from| == |s.queue| && Distinct(s.from)
    && root in s.reached && (s.visited == {} ==> s.queue == [Item(root, root)])
    && (s.visited != {} ==> root in s.visited)
    && (forall c :: c in s.par || c in s.depth ==> c in s.visited)
    && (forall i: nat {:trigger ItemFine(t, root, s, i)} :: i < |s.queue| ==> ItemFine(t, root, s, i))
    && (forall d {:trigger VisitedFine(t, root, s, d)} :: d in s.visited ==> VisitedFine(t, root, s, d))
    && (forall d, name {:trigger EntrySeen(t, root, s, d, name)} ::
          d in s.visited && HasEntry(t, d, name) ==> EntrySeen(t, root, s, d, name))
    && (forall c {:trigger Reached(t, s, c)} :: c in s.reached ==> Reached(t, s, c))
  }

  const NO_STATE := State([], {}, {}, [], map[], map[])

  function Start(root: nat): (s: State) {
    NO_STATE.(queue := [Item(root, root)], reached := {root}, from := [Ref(root, DOT)])
  }

  lemma Starting(t: Tree, root: nat)
    requires IsFolder(t, root)
    ensures Walking(t, root, Start(root))
  {
    var s := Start(root);
    assert s.queue[0].dir == root;
    assert Reached(t, s, root);
    assert ItemFine(t, root, s, 0);
  }

  /** The dot entries of a directory that `parent` lists. */
  ghost predicate DotsGood(t: Tree, d: nat, parent: nat)
    requires IsFolder(t, d)
  {
    && DOT in t[d].entries && t[d].entries[DOT] == Link(d, 2)
    && DOT_DOT in t[d].entries && t[d].entries[DOT_DOT] == Link(parent, 2)
  }

  ghost predicate EntriesGood(t: Tree, d: nat)
    requires IsFolder(t, d)
  {
    forall name :: name in t[d].entries ==> EntryFine(t, d, name)
  }

  /** `names` lists, once each, the entries of `d` that the walk has to follow. */
  ghost predicate ToFollow(t: Tree, d: nat, names: seq<Name>)
    requires IsFolder(t, d)
  {
    && Distinct(names)
    && forall x :: x in names <==> x in t[d].entries && !Dot(x) && t[d].entries[x].kind == 2
  }

  ghost predicate Visitable(t: Tree, root: nat, s: State) {
    && Walking(t, root, s) && s.queue != [] && s.queue[0].dir !in s.visited && IsFolder(t, s.queue[0].dir)
  }

  function Items(entries: map<Name, Link>, d: nat, names: seq<Name>): (items: seq<Item>)
    requires forall x :: x in names ==> x in entries
  {
    seq(|names|, i requires 0 <= i < |names| => Item(entries[names[i]].child, d))
  }

  function Hops(d: nat, names: seq<Name>): (rs: seq<Ref>) {
    seq(|names|, i requires 0 <= i < |names| => Ref(d, names[i]))
  }

  function Children(entries: map<Name, Link>): (cs: set<nat>) {
    set x | x in entries && !Dot(x) :: entries[x].child
  }

  ghost function Visit(t: Tree, root: nat, s: State, names: seq<Name>): (s': State)
    requires Visitable(t, root, s) && ToFollow(t, s.queue[0].dir, names)
  {
    var d, es := s.queue[0].dir, t[s.queue[0].dir].entries;
    var p := s.from[0].dir;
    State(s.queue[1..] + Items(es, d, names), s.visited + {d}, s.reached + Children(es),
          s.from[1..] + Hops(d, names),
          if d == root then s.par else s.par[d := s.from[0]],
          s.depth[d := if d == root then 0 else if p in s.depth then s.depth[p] + 1 else 0])
  }

  lemma VisitItems(t: Tree, root: nat, s: State, names: seq<Name>, i: nat)
    requires Visitable(t, root, s) && ToFollow(t, s.queue[0].dir, names)
    requires EntriesGood(t, s.queue[0].dir) && i < |Visit(t, root, s, names).queue|
    ensures i < |Visit(t, root, s, names).from| && ItemFine(t, root, Visit(t, root, s, names), i)
  {
    var d, s' := s.queue[0].dir, Visit(t, root, s, names);
    if i < |s.queue| - 1 {
      assert ItemFine(t, root, s, i + 1);
      assert s.visited == {} ==> |s.queue| == 1;
    } else {
      var x := names[i - (|s.queue| - 1)];
      assert x in names;
      assert EntryFine(t, d, x);
    }
  }

  lemma VisitDistinct(t: Tree, root: nat, s: State, names: seq<Name>)
    requires Visitable(t, root, s) && ToFollow(t, s.queue[0].dir, names)
    ensures Distinct(Visit(t, root, s, names).from)
  {
    var d, s' := s.queue[0].dir, Visit(t, root, s, names);
    forall i, j | 0 <= i < j < |s'.from| ensures s'.from[i] != s'.from[j] {
      if i < |s.queue| - 1 <= j {
        assert ItemFine(t, root, s, i + 1);
        assert s.visited == {} ==> |s.queue| == 1;
      }
    }
  }

  lemma VisitVisited(t: Tree, root: nat, s: State, names: seq<Name>, e: nat)
    requires Visitable(t, root, s) && ToFollow(t, s.queue[0].dir, names)
    requires DotsGood(t, s.queue[0].dir, s.queue[0].parent)
    requires e in Visit(t, root, s, names).visited
    ensures VisitedFine(t, root, Visit(t, root, s, names), e)
  {
    var d, s' := s.queue[0].dir, Visit(t, root, s, names);
    assert ItemFine(t, root, s, 0);
    if e == d {
      if d != root {
        assert VisitedFine(t, root, s, s.from[0].dir);
        assert s'.par[d] !in s'.from by {
          forall i | 0 <= i < |s'.from| ensures s'.from[i] != s.from[0] { }
        }
      }
    } else {
      assert VisitedFine(t, root, s, e);
      assert DotsFine(t, root, s.par, e);
      if e != root {
        assert ParentFine(t, s.par, s.depth, e);
        assert s'.par[e] !in s'.from by {
          forall i | 0 <= i < |s'.from| ensures s'.from[i] != s.par[e] {
            if i < |s.queue| - 1 { assert s.from[i + 1] in s.from; }
          }
        }
      }
    }
  }

  lemma VisitEntries(t: Tree, root: nat, s: State, names: seq<Name>, e: nat, x: Name)
    requires Visitable(t, root, s) && ToFollow(t, s.queue[0].dir, names) && EntriesGood(t, s.queue[0].dir)
    requires e in Visit(t, root, s, names).visited && HasEntry(t, e, x)
    ensures EntrySeen(t, root, Visit(t, root, s, names), e, x)
  {
    var d, s' := s.queue[0].dir, Visit(t, root, s, names);
    var c := t[e].entries[x].child;
    if e == d {
      assert EntryFine(t, d, x);
      if !Dot(x) && IsFolder(t, c) {
        var i :| 0 <= i < |names| && names[i] == x;
        assert s'.from[|s.queue| - 1 + i] == Ref(d, x);
      }
    } else {
      assert EntrySeen(t, root, s, e, x);
      if !Dot(x) && IsFolder(t, c) && Ref(e, x) in s.from {
        var i :| 0 <= i < |s.from| && s.from[i] == Ref(e, x);
        assert ItemFine(t, root, s, i);
        if i > 0 { assert s'.from[i - 1] == Ref(e, x); }
      }
    }
  }

  lemma VisitReached(t: Tree, root: nat, s: State, names: seq<Name>, c: nat)
    requires Visitable(t, root, s) && ToFollow(t, s.queue[0].dir, names) && EntriesGood(t, s.queue[0].dir)
    requires c in Visit(t, root, s, names).reached
    ensures Reached(t, Visit(t, root, s, names), c)
  {
    var d, s' := s.queue[0].dir, Visit(t, root, s, names);
    if c in s.reached {
      assert Reached(t, s, c);
      if IsFolder(t, c) && c !in s.visited {
        var i :| 0 <= i < |s.queue| && s.queue[i].dir == c;
        if i > 0 { assert s'.queue[i - 1].dir == c; }
      }
    } else {
      var x :| x in t[d].entries && !Dot(x) && t[d].entries[x].child == c;
      assert EntryFine(t, d, x);
      if IsFolder(t, c) {
        var i :| 0 <= i < |names| && names[i] == x;
        assert s'.queue[|s.queue| - 1 + i].dir == c;
      }
    }
  }

  /** Visiting a directory that is in order keeps the walk in order. */
  lemma Visiting(t: Tree, root: nat, s: State, names: seq<Name>)
    requires Visitable(t, root, s) && ToFollow(t, s.queue[0].dir, names)
    requires EntriesGood(t, s.queue[0].dir) && DotsGood(t, s.queue[0].dir, s.queue[0].parent)
    ensures Walking(t, root, Visit(t, root, s, names))
  {
    hide ItemFine, VisitedFine, EntrySeen, Reached;
    var s' := Visit(t, root, s, names);
    VisitDistinct(t, root, s, names);
    forall i: nat | i < |s'.queue| ensures ItemFine(t, root, s', i) { VisitItems(t, root, s, names, i); }
    forall d | d in s'.visited ensures VisitedFine(t, root, s', d) { VisitVisited(t, root, s, names, d); }
    forall d, x | d in s'.visited && HasEntry(t, d, x)
      ensures EntrySeen(t, root, s', d, x) { VisitEntries(t, root, s, names, d, x); }
    forall c | c in s'.reached ensures Reached(t, s', c) { VisitReached(t, root, s, names, c); }
    assert s.visited == {} ==> s.queue[0].dir == root by { assert ItemFine(t, root, s, 0); FirstItem(t, root, s); }
  }

  lemma FirstItem(t: Tree, root: nat, s: State)
    requires Walking(t, root, s) && s.queue != []
    ensures s.visited == {} ==> s.queue[0] == Item(root, root)
  {
  }

  // ---------- accepted means a tree ----------

  /** References to `n` from visited directories. */
  ghost function RefsIn(t: Tree, visited: set<nat>, n: nat): (rs: set<Ref>) {
    set r | r in Refs(t, n) && r.dir in visited
  }

  ghost predicate Finished(t: Tree, root: nat, s: State) {
    Walking(t, root, s) && s.queue == [] && s.reached == t.Keys && IsFolder(t, root)
  }

  lemma AllVisited(t: Tree, root: nat, s: State, d: nat)
    requires Finished(t, root, s)
    ensures IsFolder(t, d) <==> d in s.visited
  {
    if IsFolder(t, d) { assert Reached(t, s, d); }
    if d in s.visited { assert VisitedFine(t, root, s, d); }
  }

  lemma AllRefs(t: Tree, root: nat, s: State, n: nat)
    requires Finished(t, root, s)
    ensures RefsIn(t, s.visited, n) == Refs(t, n)
  {
    forall r | r in Refs(t, n) ensures r.dir in s.visited { AllVisited(t, root, s, r.dir); }
  }

  lemma FinishedIsTree(t: Tree, root: nat, s: State)
    requires Finished(t, root, s) && LinksOK(t)
    ensures IsTree(t, root)
  {
    hide LinksOK, Walking;
    forall d, x | HasEntry(t, d, x) ensures EntryFine(t, d, x) && ChildFine(t, root, s.par, d, x) {
      FinishedEntry(t, root, s, d, x);
    }
    forall d | IsFolder(t, d)
      ensures DotsFine(t, root, s.par, d) && (d != root ==> ParentFine(t, s.par, s.depth, d)) && d in s.depth {
      FinishedFolder(t, root, s, d);
    }
    assert TreeWith(t, root, s.par, s.depth);
  }

  lemma FinishedEntry(t: Tree, root: nat, s: State, d: nat, x: Name)
    requires Finished(t, root, s) && HasEntry(t, d, x)
    ensures EntryFine(t, d, x) && ChildFine(t, root, s.par, d, x)
  {
    AllVisited(t, root, s, d);
    assert EntrySeen(t, root, s, d, x);
  }

  lemma FinishedFolder(t: Tree, root: nat, s: State, d: nat)
    requires Finished(t, root, s) && IsFolder(t, d)
    ensures DotsFine(t, root, s.par, d) && (d != root ==> ParentFine(t, s.par, s.depth, d)) && d in s.depth
  {
    AllVisited(t, root, s, d);
    assert VisitedFine(t, root, s, d);
  }

  // ---------- rejection means no tree ----------

  /** In a tree, the entry that queued a directory is the one it hangs from. */
  lemma ItemParent(t: Tree, root: nat, s: State, par: map<nat, Ref>, depth: map<nat, nat>)
    requires Walking(t, root, s) && s.queue != [] && s.visited != {} && TreeWith(t, root, par, depth)
    ensures var d := s.queue[0].dir; d != root && d in par && par[d] == s.from[0] && IsFolder(t, s.queue[0].parent)
  {
    assert ItemFine(t, root, s, 0);
    assert ChildFine(t, root, par, s.from[0].dir, s.from[0].name);
  }

  lemma VisitedParent(t: Tree, root: nat, s: State, par: map<nat, Ref>, depth: map<nat, nat>, d: nat)
    requires Walking(t, root, s) && d in s.visited && d != root && TreeWith(t, root, par, depth)
    ensures d in s.par && d in par && par[d] == s.par[d] && s.par[d] !in s.from
  {
    assert VisitedFine(t, root, s, d);
    assert ChildFine(t, root, par, s.par[d].dir, s.par[d].name);
  }

  lemma VisitedTwice(t: Tree, root: nat, s: State)
    requires Walking(t, root, s) && s.queue != [] && s.queue[0].dir in s.visited
    ensures !IsTree(t, root)
  {
    if IsTree(t, root) {
      var par, depth :| TreeWith(t, root, par, depth);
      ItemParent(t, root, s, par, depth);
      assert s.from[0] in s.from;
      VisitedParent(t, root, s, par, depth, s.queue[0].dir);
    }
  }

  lemma DotsWrong(t: Tree, root: nat, s: State)
    requires Visitable(t, root, s) && !DotsGood(t, s.queue[0].dir, s.queue[0].parent)
    ensures !IsTree(t, root)
  {
    if IsTree(t, root) {
      var par, depth :| TreeWith(t, root, par, depth);
      var d := s.queue[0].dir;
      assert DotsFine(t, root, par, d);
      assert EntryFine(t, d, DOT);
      assert EntryFine(t, d, DOT_DOT);
      if s.visited != {} {
        assert ItemFine(t, root, s, 0);
        ItemParent(t, root, s, par, depth);
      }
    }
  }

  lemma {:induction false} FoldersVisited(t: Tree, root: nat, s: State, par: map<nat, Ref>, depth: map<nat, nat>,
                                          d: nat)
    requires Walking(t, root, s) && s.queue == [] && TreeWith(t, root, par, depth) && IsFolder(t, d)
    ensures d in s.visited
    decreases if d in depth then depth[d] else 0
  {
    if d != root {
      assert ParentFine(t, par, depth, d);
      FoldersVisited(t, root, s, par, depth, par[d].dir);
      assert EntrySeen(t, root, s, par[d].dir, par[d].name);
      assert Reached(t, s, d);
    }
  }

  lemma Unreached(t: Tree, root: nat, s: State)
    requires Walking(t, root, s) && s.queue == [] && s.reached != t.Keys
    ensures !IsTree(t, root)
  {
    if IsTree(t, root) {
      var par, depth :| TreeWith(t, root, par, depth);
      forall n | n in s.reached ensures n in t { assert Reached(t, s, n); }
      forall n | n in t ensures n in s.reached { InodesReached(t, root, s, par, depth, n); }
    }
  }

  lemma InodesReached(t: Tree, root: nat, s: State, par: map<nat, Ref>, depth: map<nat, nat>, n: nat)
    requires Walking(t, root, s) && s.queue == [] && TreeWith(t, root, par, depth) && n in t
    ensures n in s.reached
  {
    if n != root {
      var r: Ref;
      if IsFolder(t, n) {
        assert ParentFine(t, par, depth, n);
        r := par[n];
      } else {
        assert LinksFine(t, n);
        r :| r in Refs(t, n);
        assert DotsFine(t, root, par, r.dir);
        assert r.dir != root ==> ParentFine(t, par, depth, r.dir);
      }
      FoldersVisited(t, root, s, par, depth, r.dir);
      assert EntrySeen(t, root, s, r.dir, r.name);
    }
  }
}
