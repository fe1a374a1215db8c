/** What opening a path does, by the value of its flags. */
module OpenOutcomes {
  import opened Bytes
  import opened Errno
  import opened Layout
  import opened Trees
  import opened FileSystem
  import opened PathOps
  import opened TreeLaws
  import opened Kernel
  import opened FileOps
  import opened Vfs

  /** One call of open: the volume, open files and descriptors before and after it. */
  datatype Opening = Opening(g: Geometry, v: Vol, v': Vol, files: seq<OpenFile>, files': seq<OpenFile>,
                             fds: seq<seq<nat>>, fds': seq<seq<nat>>, p: nat, path: CString, flags: nat, result: int)
  {
    ghost predicate Happened() { OpenSpec(g, v, v', files, files', fds, fds', p, path, flags, result) }

    /** Nothing changed. */
    ghost predicate Nothing() { v' == v && files' == files && fds' == fds }

    ghost predicate SlotFree() { exists i :: 0 <= i < |files| && !files[i].used }

    ghost function Before(): (o: FileSystem.Outcome) { Lookup(TreeAt(v), g.root, path) }
  }

  /** Values that are refused, and calls that cannot be served. */
  lemma Refused(x: Opening)
    requires x.Happened()
    ensures x.flags !in {0, 1, 2, 0x100, 0x101, 0x102, 0x201, 0x202, 0x301, 0x302} ==> x.result == EINVAL && x.Nothing()
    ensures x.flags in {0, 1, 2, 0x100, 0x101, 0x102, 0x201, 0x202, 0x301, 0x302} && !x.SlotFree() ==>
              x.result == ENFILE && x.Nothing()
  {
    hide Lookup, TreeAt, Settled, Located;
  }

  lemma SlotIsFree(x: Opening)
    ensures x.SlotFree() <==> !AllUsed(x.files)
  {
  }

  /** Without 0x100 a path that leads nowhere is an error and changes nothing; with it, only errors
      other than ENOENT are. */
  lemma Missing(x: Opening)
    requires x.Happened() && Allowed(x.flags) && x.SlotFree() && x.Before().Failed?
    requires x.flags in {0, 1, 2, 0x201, 0x202} || x.Before().st != ENOENT
    ensures x.result == x.Before().st && x.Nothing()
  {
    hide Lookup, TreeAt, Settled, Located;
    SlotIsFree(x);
  }

  /** With 0x100 a missing file is created, empty, if that is possible, and paths that led somewhere
      lead there still; otherwise the reason is reported and the tree stays as it is. */
  lemma Created(x: Opening, q: CString) returns (n: nat)
    requires x.Happened() && x.SlotFree() && x.Before() == Failed(ENOENT) && IsTree(TreeAt(x.v), x.g.root)
    requires x.flags in {0x100, 0x101, 0x102, 0x301, 0x302}
    ensures match Parent(TreeAt(x.v), x.g.root, x.path)
            case Nowhere(e) => x.result == e && TreeAt(x.v') == TreeAt(x.v)
            case At(p, name) =>
              && p < |x.v.inodes|
              && if CreateFate(x.g, x.v, p) != 0
                 then x.result == CreateFate(x.g, x.v, p) && TreeAt(x.v') == TreeAt(x.v)
                 else && Lookup(TreeAt(x.v'), x.g.root, x.path) == Found(n)
                      && n in TreeAt(x.v') && TreeAt(x.v')[n] == Regular(1, [])
                      && (Lookup(TreeAt(x.v), x.g.root, q).Found? ==>
                          Lookup(TreeAt(x.v'), x.g.root, q) == Lookup(TreeAt(x.v), x.g.root, q))
  {
    hide Lookup, TreeAt, Parent, CreateFate, IsTree, AllUsed, OpenedAt;
    SlotIsFree(x);
    var w, st;
    w, st, n :| Located(x.g, x.v, w, x.path, st, n)
      && if st < 0 then x.result == st && x.v' == w && x.files' == x.files && x.fds' == x.fds
         else Settled(w, x.v', x.files, x.files', x.fds, x.fds', x.p, n, x.flags, x.result);
    SuccessAt(TreeAt(x.v), x.g.root, x.path);
    MissingName(TreeAt(x.v), x.g.root, x.path);
    FateSign(x.g, x.v, x.path);
    if st == 0 {
      CreateMeans(x.g, x.v, w, x.path, n, q);
      ContentMeans(TreeAt(w), x.g.root, n, [], x.path);
      ContentMeans(TreeAt(w), x.g.root, n, [], q);
    }
  }

  lemma MissingName(t: Tree, root: nat, path: CString)
    requires Lookup(t, root, path) == Failed(ENOENT)
    ensures var o := Parent(t, root, path); o.At? ==> IsFolder(t, o.dir) && o.name !in t[o.dir].entries
  {
    hide Components, Walk, WalkToParent;
    if Parent(t, root, path).At? { WalkThroughParent(t, root, Components(path)); }
  }

  lemma FateSign(g: Geometry, v: Vol, path: CString)
    ensures forall p: nat :: p < |v.inodes| ==> CreateFate(g, v, p) <= 0
  {
    hide InodesFull, NeedsBlock;
  }

  /** An existing file keeps its bytes without 0x200 and is empty with it; nothing else changes. */
  lemma Existing(x: Opening, n: nat)
    requires x.Happened() && Allowed(x.flags) && x.SlotFree() && x.Before() == Found(n)
    ensures n in TreeAt(x.v)
    ensures TreeAt(x.v)[n].Regular? && x.flags in {0, 1, 2, 0x100, 0x101, 0x102} ==> x.v' == x.v
    ensures TreeAt(x.v)[n].Regular? && x.flags in {0x201, 0x202, 0x301, 0x302} ==>
              TreeAt(x.v') == TreeAt(x.v)[n := Regular(TreeAt(x.v)[n].links, [])]
    ensures TreeAt(x.v)[n].Folder? && x.flags !in {0, 0x100} ==> x.result == EISDIR && x.Nothing()
    ensures TreeAt(x.v)[n].Folder? && x.flags in {0, 0x100} ==> x.v' == x.v
  {
    hide Lookup, TreeAt, AllUsed, OpenedAt, CreateSpec;
    SlotIsFree(x);
    var w, st, m :| Located(x.g, x.v, w, x.path, st, m)
      && if st < 0 then x.result == st && x.v' == w && x.files' == x.files && x.fds' == x.fds
         else Settled(w, x.v', x.files, x.files', x.fds, x.fds', x.p, m, x.flags, x.result);
  }

  /** A descriptor that was returned is the lowest unused one from 3 on, and stands for a new open
      file with these flags at offset 0 of the inode that the path leads to. */
  lemma Descriptor(x: Opening)
    requires x.Happened() && IsTree(TreeAt(x.v), x.g.root) && x.result >= 0
    ensures x.p < |x.fds| && 3 <= x.result < |x.fds[x.p]| == 16 && x.fds[x.p][x.result] == 0
    ensures forall d :: 3 <= d < x.result ==> x.fds[x.p][d] != 0
    ensures exists i: nat, n: nat ::
              && OpenedAt(x.files, x.fds, x.files', x.fds', x.p, x.result, i)
              && n in TreeAt(x.v') && Lookup(TreeAt(x.v'), x.g.root, x.path) == Found(n)
              && x.files'[i] == OpenFile(true, 1, n, 0, x.flags, Kind(TreeAt(x.v')[n]))
  {
    hide Lookup, TreeAt, AllUsed, OpenedAt, CreateSpec, IsTree, FirstFreeFd;
    NegativeErrors(x);
    var w, st, n :| Located(x.g, x.v, w, x.path, st, n)
      && if st < 0 then x.result == st && x.v' == w && x.files' == x.files && x.fds' == x.fds
         else Settled(w, x.v', x.files, x.files', x.fds, x.fds', x.p, n, x.flags, x.result);
    var t := TreeAt(w);
    FoundThere(x, w, st, n);
    if Empties(x.flags) { ContentMeans(t, x.g.root, n, [], x.path); }
  }

  lemma FoundThere(x: Opening, w: Vol, st: int, n: nat)
    requires Located(x.g, x.v, w, x.path, st, n) && st >= 0 && IsTree(TreeAt(x.v), x.g.root)
    ensures Lookup(TreeAt(w), x.g.root, x.path) == Found(n)
  {
    hide Lookup, TreeAt, Parent, CreateFate, IsTree;
    if x.Before().Failed? {
      SuccessAt(TreeAt(x.v), x.g.root, x.path);
      FateSign(x.g, x.v, x.path);
      CreateMeans(x.g, x.v, w, x.path, n, x.path);
    }
  }

  lemma NegativeErrors(x: Opening)
    requires x.Happened() && x.result >= 0
    ensures Allowed(x.flags) && !AllUsed(x.files)
    ensures x.Before().Failed? ==> x.Before().st == ENOENT && Creates(x.flags)
  {
    hide Lookup, TreeAt, Settled, Located;
    LookupErrors(TreeAt(x.v), x.g.root, x.path);
  }

  lemma LookupErrors(t: Tree, root: nat, path: CString)
    ensures Lookup(t, root, path).Failed? ==> Lookup(t, root, path).st < 0
  {
    hide Components, Walk;
    WalkError(t, root, Components(path));
  }

  lemma {:induction false} WalkError(t: Tree, cur: nat, cs: seq<CString>)
    ensures Walk(t, cur, cs).Failed? ==> Walk(t, cur, cs).st < 0
    decreases |cs|
  {
    if cs != [] && cur in t && t[cur].Folder? && (cs[0] == [0x2E] || cs[0] in t[cur].entries) {
      WalkError(t, if cs[0] == [0x2E] then cur else t[cur].entries[cs[0]].child, cs[1..]);
    }
  }

  /** A file opened for writing only cannot be read, and one opened for reading only cannot be
      written; with other flags neither call reports a bad descriptor. */
  method OpenAndUse(ft: FileTable, path: CString, flags: nat, length: nat, source: seq<byte>)
    returns (descriptor: int, read: int, written: int)
    requires ft.Valid()
    modifies ft, ft.m
    ensures ft.Valid()
    ensures descriptor >= 0 ==> (read == EBADF <==> flags in {1, 0x101, 0x201, 0x301})
    ensures descriptor >= 0 ==> (written == EBADF <==> flags in {0, 0x100})
  {
    hide FileTable.Valid, OpenSpec, WriteSpec, KeepsNodes, Fd, TreeAt, ReadLength;
    ghost var x := Opening(ft.m.g, ft.m.vol, ft.m.vol, ft.table, ft.table, ft.fds, ft.fds, ft.current, path, flags, 0);
    ValidTree(ft);
    descriptor := ft.Open(path, flags);
    read, written := 0, 0;
    if descriptor < 0 {
      return;
    }
    x := x.(v' := ft.m.vol, files' := ft.table, fds' := ft.fds, result := descriptor);
    ghost var i := OpenedFile(x);
    var bytes;
    read, bytes := ft.ReadFd(descriptor, length);
    written := ft.WriteFd(descriptor, source);
    WriteResult(ft.m.g, x.v', ft.m.vol, x.files'[i].inode, source);
  }

  lemma ValidTree(ft: FileTable)
    requires ft.Valid()
    ensures IsTree(TreeAt(ft.m.vol), ft.m.g.root)
  {
  }

  lemma OpenedFile(x: Opening) returns (i: nat)
    requires x.Happened() && IsTree(TreeAt(x.v), x.g.root) && x.result >= 0
    ensures i < |x.files'| && Fd(x.fds', x.p, x.result) == i + 1 && x.files'[i].flags == x.flags
    ensures x.flags % 4 == 1 <==> x.flags in {1, 0x101, 0x201, 0x301}
    ensures x.flags % 4 == 0 <==> x.flags in {0, 0x100}
  {
    hide Lookup, TreeAt, IsTree, OpenSpec;
    Descriptor(x);
    var n;
    i, n :| OpenedAt(x.files, x.fds, x.files', x.fds', x.p, x.result, i)
      && n in TreeAt(x.v') && Lookup(TreeAt(x.v'), x.g.root, x.path) == Found(n)
      && x.files'[i] == OpenFile(true, 1, n, 0, x.flags, Kind(TreeAt(x.v')[n]));
    NegativeErrors(x);
  }

  lemma WriteResult(g: Geometry, v: Vol, w: Vol, n: nat, source: seq<byte>)
    ensures forall offset: nat, r :: WriteSpec(g, v, w, n, offset, source, r) ==> r != EBADF
  {
    hide TreeAt;
  }
}
