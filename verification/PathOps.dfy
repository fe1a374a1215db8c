/** Creating, making directories and unlinking: each refines one operation on the tree. */
module PathOps {
  import opened Bytes
  import opened Layout
  import opened Volume
  import opened BlockOps
  import opened Crash
  import opened Directory
  import opened Trees
  import opened FileSystem
  import opened Errno
  import opened Mounted
  import opened FileOps
  import opened DirOps

  ghost function TreeAt(v: Vol): (t: Tree)
  {
    TreeOf(Files(v))
  }

  lemma CleanMountable(g: Geometry, v: Vol, ow: Owner)
    requires Clean(g, v, ow)
    ensures Mountable(g, v, ow) && Closed(Files(v), g.root)
  {
    var t := TreeOf(Files(v));
    var par, depth :| TreeWith(t, g.root, par, depth);
    assert IsFolder(t, g.root);
  }

  /** Storing an entry for a new name adds that name to the directory's node. */
  lemma AppendedTree(g: Geometry, v: Vol, ow: Owner, d: nat, dir: Inode, k: nat, child: u32, kind: byte, name: Name)
    requires Consistent(g, v, ow) && AppendPre(g, v, ow, d, dir, k, kind, name)
    requires ValidName(name) && (kind == 1 || kind == 2) && name !in Entries(Content(v.data, dir))
    ensures FoldersOK(AppendedFiles(v, d, k, child, kind, name))
    ensures IsFolder(TreeAt(v), d)
    ensures TreeOf(AppendedFiles(v, d, k, child, kind, name))
         == TreeAt(v)[d := WithEntry(TreeAt(v)[d], name, Link(child, kind), MoreLinks(kind))]
  {
    hide Content, Sound, Written, EncodeEntry, IsTree, DirectoryOK, Entries, FirstFree, EntriesOK;
    FolderEntries(g, v, ow, d, dir);
    var c, fs, fs' := Content(v.data, dir), Files(v), AppendedFiles(v, d, k, child, kind, name);
    NotUsed(c, k);
    AddEntry(c, k, child, kind, name);
    forall n | n in fs' && fs'[n].mode == MODE_DIRECTORY ensures DirectoryOK(fs'[n].content) {
      if n != d { assert DirectoryOK(fs[n].content); }
    }
    assert forall n :: n in fs' && n != d ==> fs'[n] == fs[n];
  }

  lemma NotUsed(c: seq<byte>, k: nat)
    requires FirstFree(c, k)
    ensures k <= Slots(c) && (k < Slots(c) ==> !Used(c, k))
  {
  }

  /** A freshly allocated inode without a name leaves the volume consistent. */
  lemma ExtraInode(g: Geometry, v: Vol, w: Vol, ow: Owner, ow': Owner, n: nat, f: File)
    requires Consistent(g, v, ow) && Sound(g, w, ow') && n !in Files(v) && Files(w) == Files(v)[n := f]
    requires f.mode == MODE_REGULAR || (f.mode == MODE_DIRECTORY && DirectoryOK(f.content))
    requires f.mode == MODE_DIRECTORY ==> forall x :: x in Entries(f.content) ==>
               Entries(f.content)[x].child in Files(v)[n := f]
                 && Entries(f.content)[x].kind == Files(v)[n := f][Entries(f.content)[x].child].mode
    requires forall m :: m in Files(v) ==> Files(v)[m].mode == MODE_REGULAR || Files(v)[m].mode == MODE_DIRECTORY
    ensures Consistent(g, w, ow') && TreeOf(Files(w)) == TreeOf(Files(v))[n := NodeOf(f)]
  {
    hide Sound, Files, DirectoryOK, Entries;
    var fs, fs' := Files(v), Files(w);
    forall m | m in fs' && fs'[m].mode == MODE_DIRECTORY ensures DirectoryOK(fs'[m].content) {
      if m != n { assert DirectoryOK(fs[m].content); }
    }
    var t, t' := TreeOf(fs), TreeOf(fs');
    forall d, x | HasEntry(t', d, x) ensures EntryFine(t', d, x) {
      if d != n { assert EntryFine(t, d, x); }
    }
  }

  lemma ModesKnown(g: Geometry, v: Vol, ow: Owner)
    requires Sound(g, v, ow)
    ensures forall m :: m in Files(v) ==> Files(v)[m].mode == MODE_REGULAR || Files(v)[m].mode == MODE_DIRECTORY
  {
    forall m | m in Files(v) ensures Files(v)[m].mode == MODE_REGULAR || Files(v)[m].mode == MODE_DIRECTORY {
      assert InodeSound(g, v.data, ow, m, v.inodes[m]);
    }
  }

  lemma ShowsCrashSafe(g: Geometry, v: Vol, fs: map<nat, File>)
    requires Closed(fs, g.root) && Shows(g, v, fs)
    ensures CrashSafe(g, v)
  {
  }

  lemma OldOrNewCrashSafe(g: Geometry, h: seq<Vol>, from: nat, fs: map<nat, File>, w: Vol)
    requires Closed(fs, g.root) && WellFormed(g, w) && OldOrNew(g, h, from, fs, Files(w))
    ensures CrashSafeSince(g, h, from)
  {
    hide Shows, Files, Closed, Healthy;
    var ow :| Healthy(g, w, ow);
    HealthyFacts(g, w, ow);
    forall j | from <= j < |h| ensures CrashSafe(g, h[j]) {
      ShowsCrashSafe(g, h[j], if Shows(g, h[j], fs) then fs else Files(w));
    }
  }

  lemma OldOrNewOn(g: Geometry, h: seq<Vol>, h': seq<Vol>, from: nat, fs: map<nat, File>, fs': map<nat, File>)
    requires h <= h' && from <= |h| && OldOrNew(g, h, from, fs, fs') && OldOrNew(g, h', |h|, fs, fs')
    ensures OldOrNew(g, h', from, fs, fs')
  {
    hide Shows;
  }

  /** What shows more files than `fs` shows these. */
  lemma OldShown(g: Geometry, h: seq<Vol>, from: nat, fs: map<nat, File>, more: map<nat, File>, fs': map<nat, File>)
    requires OldOrNew(g, h, from, more, fs') && forall n :: n in fs ==> n in more && more[n] == fs[n]
    ensures OldOrNew(g, h, from, fs, fs')
  {
    hide Shows;
    forall j | from <= j < |h| ensures Shows(g, h[j], fs) || Shows(g, h[j], fs') {
      if Shows(g, h[j], more) { ShowsIgnoresLinks(g, h[j], more, fs); }
    }
  }

  lemma CrashSafeOn(g: Geometry, h: seq<Vol>, h': seq<Vol>, from: nat)
    requires h <= h' && from <= |h| && CrashSafeSince(g, h, from) && CrashSafeSince(g, h', |h|)
    ensures CrashSafeSince(g, h', from)
  {
  }

  // ---------- creating a file ----------

  ghost predicate InodesFull(g: Geometry, v: Vol) {
    forall n :: 1 <= n < g.totalInodes ==> n in TreeAt(v)
  }

  /** The directory has no unused slot, and its blocks are full. */
  ghost predicate NeedsBlock(v: Vol, p: nat)
    requires p < |v.inodes|
  {
    var c := Content(v.data, v.inodes[p]);
    |c| % 4096 == 0 && forall k: nat :: k < Slots(c) ==> !AllZero(Raw(c, k))
  }

  /** What comes of adding a file whose name is new. */
  ghost function CreateFate(g: Geometry, v: Vol, p: nat): (st: int)
    requires p < |v.inodes|
  {
    if g.totalInodes == 1 then EINVAL
    else if InodesFull(g, v) then ENOSPC
    else if v.inodes[p].size > MAX_FILE_SIZE - 64 then EINVAL
    else if NeedsBlock(v, p) && !Room(g, v, BlocksFor(v.inodes[p].size) == 10) then ENOSPC
    else 0
  }

  /** The lowest inode number that is not in use. */
  ghost predicate LowestInode(t: Tree, n: nat) {
    n !in t && n >= 1 && forall m: nat :: 1 <= m < n ==> m in t
  }

  ghost predicate CreateSpec(g: Geometry, v: Vol, w: Vol, path: CString, st: int, n: nat) {
    match Parent(TreeAt(v), g.root, path)
    case Nowhere(e) => st == e && TreeAt(w) == TreeAt(v)
    case At(p, name) =>
      && IsFolder(TreeAt(v), p) && p < |v.inodes|
      && if name in TreeAt(v)[p].entries then st == EEXIST && TreeAt(w) == TreeAt(v)
         else
           && st == CreateFate(g, v, p)
           && if st == 0 then LowestInode(TreeAt(v), n) && TreeAt(w) == AddFile(TreeAt(v), p, name, n)
              else TreeAt(w) == TreeAt(v)
  }

  /** An entry needs a new block exactly if the first free slot lies behind the last block. */
  lemma AppendNeeds(g: Geometry, v: Vol, w: Vol, ow: Owner, p: nat, dir: Inode, k: nat)
    requires OpenFolder(g, v, ow, p, dir) && p < |v.inodes| && dir == v.inodes[p]
    requires Content(w.data, dir) == Content(v.data, dir) && FirstFree(Content(w.data, dir), k)
    requires dir.size <= MAX_FILE_SIZE - 64
    ensures ChunkStatus(g, w, dir, 64 * k) == ENOSPC <==> NeedsBlock(v, p) && !Room(g, w, BlocksFor(dir.size) == 10)
  {
    hide Sound, Content, Room, Raw;
    FolderSize(g, v, ow, p, dir);
  }

  /** The volume with a new inode that has no name yet. */
  ghost function WithInode(v: Vol, n: nat): (w: Vol)
    requires n < |v.inodeBits| && n < |v.inodes|
  {
    v.(inodeBits := v.inodeBits[n := true], inodes := v.inodes[n := FRESH])
  }

  lemma FreeInodeAbsent(g: Geometry, v: Vol, ow: Owner, n: nat)
    requires Sound(g, v, ow) && n < g.totalInodes
    ensures n < |v.inodeBits| && n < |v.inodes| && (v.inodeBits[n] <==> n in TreeAt(v))
    ensures (n in TreeAt(v) <==> n in Files(v))
  {
  }

  lemma InodeCreated(g: Geometry, v: Vol, ow: Owner, n: nat, p: nat, dir: Inode)
    requires Healthy(g, v, ow) && OpenFolder(g, v, ow, p, dir) && n < g.totalInodes && n !in TreeAt(v)
    ensures n < |v.inodeBits| && n < |v.inodes| && n != p
    ensures var w := WithInode(v, n);
            && Consistent(g, w, ow) && OpenFolder(g, w, ow, p, dir)
            && TreeAt(w) == TreeAt(v)[n := Regular(1, [])]
            && Files(w) == Files(v)[n := File(1, 1, [])]
            && Shows(g, w, Files(v)) && Shows(g, v.(inodeBits := v.inodeBits[n := true]), Files(v))
  {
    hide Sound, Files, Shows, IsTree, SingleLinks, FoldersOK, EntriesOK, TreeOf;
    FreeInodeAbsent(g, v, ow, n);
    CleanMountable(g, v, ow);
    OpenShape(g, v, ow, p, dir);
    ModesKnown(g, v, ow);
    Create(g, v, ow, n);
    var w := WithInode(v, n);
    ExtraInode(g, v, w, ow, ow, n, File(1, 1, []));
    BitShows(g, v, ow, n);
    SoundShows(g, w, ow);
    ShowsIgnoresLinks(g, w, Files(w), Files(v));
    assert NodeOf(File(1, 1, [])) == Regular(1, []);
    FolderIsPresent(g, v, ow, p, dir);
  }

  lemma FolderIsPresent(g: Geometry, v: Vol, ow: Owner, p: nat, dir: Inode)
    requires OpenFolder(g, v, ow, p, dir)
    ensures p in TreeAt(v)
  {
  }

  lemma BitShows(g: Geometry, v: Vol, ow: Owner, n: nat)
    requires Sound(g, v, ow) && n < g.totalInodes
    ensures Shows(g, v.(inodeBits := v.inodeBits[n := true]), Files(v))
  {
    var w := v.(inodeBits := v.inodeBits[n := true]);
    assert Pads(g, v, w, ow) by {
      forall b | b in ow ensures v.blockBits[b] { InodeBlocks(g, v, ow, b); }
    }
    PaddedShows(g, v, w, ow);
  }

  /** With the entry in place the new file is part of the tree. */
  lemma FileNamed(g: Geometry, v: Vol, w: Vol, u: Vol, ow: Owner, ow': Owner, p: nat, dir: Inode, k: nat, n: u32,
                  name: Name)
    requires Healthy(g, v, ow) && OpenFolder(g, v, ow, p, dir) && n < g.totalInodes && n !in TreeAt(v)
    requires n < |v.inodeBits| && n < |v.inodes| && w == WithInode(v, n)
    requires AppendPre(g, w, ow, p, dir, k, 1, name) && ValidName(name) && !Dot(name)
    requires IsFolder(TreeAt(v), p) && name !in TreeAt(v)[p].entries
    ensures Appended(g, w, u, ow', p, k, n, 1, name) ==>
        Healthy(g, u, ow') && TreeAt(u) == AddFile(TreeAt(v), p, name, n)
  {
    hide Sound, Files, Shows, IsTree, SingleLinks, FoldersOK, EntriesOK, TreeOf, AppendedFiles, Entries, Content,
         ValidName, FirstFree;
    InodeCreated(g, v, ow, n, p, dir);
    var t := TreeAt(v);
    ScanIsLookup(g, w, ow, p, dir, []);
    AppendedTree(g, w, ow, p, dir, k, n, 1, name);
    assert TreeOf(AppendedFiles(w, p, k, n, 1, name)) == AddFile(t, p, name, n);
    AddFileKeepsTree(t, g.root, p, name, n);
  }

  ghost function Without(u: Vol, n: nat): (y: Vol)
    requires n < |u.inodes| && n < |u.inodeBits|
  {
    Vol(ClearBits(u.blockBits, SlotsFrom(u.data, u.inodes[n], 0)), u.inodeBits[n := false], u.inodes[n := ZERO_INODE],
      u.data)
  }

  /** Releasing a nameless inode brings back the tree from before it was allocated. */
  lemma InodeDropped(g: Geometry, v: Vol, u: Vol, ow: Owner, ow': Owner, n: nat, f: File)
    requires Healthy(g, v, ow) && n < g.totalInodes && n !in Files(v)
    requires Sound(g, u, ow') && Files(u) == Files(v)[n := f]
    ensures n < |u.inodes| && n < |u.inodeBits| && u.inodeBits[n]
    ensures Healthy(g, Without(u, n), KeptOwners(ow', n, 0)) && TreeAt(Without(u, n)) == TreeAt(v)
    ensures Files(Without(u, n)) == Files(v) && Sound(g, Without(u, n), KeptOwners(ow', n, 0))
  {
    hide Shows, IsTree, SingleLinks, FoldersOK, EntriesOK, TreeOf, Content, Sound, InodeSound;
    FreeInodeAbsent(g, u, ow', n);
    assert n in Files(u);
    Release(g, u, ow', n);
    var y := Without(u, n);
    assert Files(y) == Files(v) by { assert (Files(v)[n := f]) - {n} == Files(v); }
    CleanMountable(g, v, ow);
  }

  /** `x` still has everything that `y` has, and perhaps more bits set and more records. */
  ghost predicate Dropping(g: Geometry, y: Vol, x: Vol) {
    && Shape(g, y) && Shape(g, x) && x.data == y.data
    && (forall n :: 0 <= n < g.totalInodes && y.inodeBits[n] ==> x.inodeBits[n] && x.inodes[n] == y.inodes[n])
    && (forall b :: 0 <= b < |y.blockBits| && y.blockBits[b] ==> x.blockBits[b])
  }

  /** While it is being released, every block write leaves the other files as they are. */
  lemma DroppingShows(g: Geometry, y: Vol, x: Vol, ow: Owner)
    requires Sound(g, y, ow) && Dropping(g, y, x)
    ensures Shows(g, x, Files(y))
  {
    hide Shows;
    assert Pads(g, y, x, ow) by {
      forall b | b in ow ensures y.blockBits[b] { InodeBlocks(g, y, ow, b); }
    }
    PaddedShows(g, y, x, ow);
  }

  lemma NoBlocks(data: seq<Block>, bits: seq<bool>)
    ensures ClearBits(bits, SlotsFrom(data, FRESH, 0)) == bits
  {
  }

  lemma HealthyFacts(g: Geometry, v: Vol, ow: Owner)
    requires Healthy(g, v, ow)
    ensures Mountable(g, v, ow) && Consistent(g, v, ow) && Sound(g, v, ow) && Closed(Files(v), g.root) && Shape(g, v)
  {
    CleanMountable(g, v, ow);
  }

  lemma NameShort(name: Name)
    requires ValidName(name)
    ensures 0 < |name| <= 58
  {
  }

  lemma FreshPointers()
    ensures PointersOK(FRESH) && FRESH.(reserved := 0) == FRESH
  {
  }

  lemma AllInodesUsed(g: Geometry, v: Vol, ow: Owner)
    requires Sound(g, v, ow) && forall m: nat :: 1 <= m < g.totalInodes && m < |v.inodeBits| ==> v.inodeBits[m]
    ensures InodesFull(g, v)
  {
  }

  lemma LowestFree(g: Geometry, v: Vol, ow: Owner, n: nat)
    requires Sound(g, v, ow) && 1 <= n < g.totalInodes && n < |v.inodeBits| && !v.inodeBits[n]
    requires forall m: nat :: 1 <= m < n ==> v.inodeBits[m]
    ensures LowestInode(TreeAt(v), n) && !InodesFull(g, v)
  {
  }

  lemma RoomSame(g: Geometry, v: Vol, w: Vol)
    requires w.blockBits == v.blockBits
    ensures forall two :: Room(g, v, two) == Room(g, w, two)
  {
    assert forall b :: Free(g, v, b) == Free(g, w, b);
  }

  lemma AppendReady(g: Geometry, w: Vol, ow: Owner, p: nat, dir: Inode, k: nat, kind: nat, name: Name)
    requires OpenFolder(g, w, ow, p, dir) && FirstFree(Content(w.data, dir), k)
    requires 64 * k <= dir.size <= MAX_FILE_SIZE - 64
    requires ValidName(name) && dir.links as int + MoreLinks(kind) <= 0xFFFF
    ensures AppendPre(g, w, ow, p, dir, k, kind, name)
  {
  }

  /** Undoes the creation of an empty file that got no name. */
  method Rollback(m: Mount, ghost v: Vol, n: nat, ghost ow: Owner)
    requires m.Valid() && Healthy(m.g, v, ow) && n < m.g.totalInodes && n !in Files(v)
    requires n < |v.inodes| && n < |v.inodeBits| && ChunkUndone(m.g, WithInode(v, n), m.vol, ow)
    requires Files(WithInode(v, n)) == Files(v)[n := File(1, 1, [])]
    modifies m`io, m`disk, m`vol, m`history
    ensures m.Valid() && WellFormed(m.g, m.vol) && TreeAt(m.vol) == TreeAt(v) && Files(m.vol) == Files(v)
    ensures old(m.history) <= m.history && OldOrNew(m.g, m.history, |old(m.history)|, Files(v), Files(v))
  {
    hide Sound, Files, Shows, Healthy, Mount.Valid, CrashSafe, TreeOf, Closed;
    ValidFacts(m);
    ghost var u, y := m.vol, Without(m.vol, n);
    InodeDropped(m.g, v, u, ow, ow, n, File(1, 1, []));
    NoBlocks(u.data, u.blockBits);
    assert n != m.g.root by { RootKept(m.g, v, ow); }
    assert u.inodes[n] == FRESH;
    DroppingShows(m.g, y, y, KeptOwners(ow, n, 0));
    DroppingShows(m.g, y, u.(inodes := u.inodes[n := ZERO_INODE]), KeptOwners(ow, n, 0));
    var _ := m.ClearInodeRecord(n);
    var _ := m.FreeInode(n);
    assert m.vol == y;
  }

  lemma RootKept(g: Geometry, v: Vol, ow: Owner)
    requires Healthy(g, v, ow)
    ensures g.root in Files(v)
  {
    CleanMountable(g, v, ow);
  }

  method CreateFile(m: Mount, path: CString) returns (st: int, n: nat)
    requires m.Valid() && WellFormed(m.g, m.vol)
    modifies m`io, m`aux, m`disk, m`vol, m`history
    ensures m.Valid() && WellFormed(m.g, m.vol)
    ensures CreateSpec(m.g, old(m.vol), m.vol, path, st, n)
    ensures old(m.history) <= m.history && CrashSafeSince(m.g, m.history, |old(m.history)|)
    ensures OldOrNew(m.g, m.history, |old(m.history)|, Files(old(m.vol)), Files(m.vol))
  {
    hide Sound, Files, Shows, IsTree, SingleLinks, FoldersOK, EntriesOK, TreeOf, AppendedFiles, Entries, Content,
         Healthy, Mount.Valid, Consistent, Scan, Raw, CrashSafe, Appended, ChunkUndone, RecordOK, Room, AddFile,
         ValidName, FirstFree, Parent, NeedsBlock, InodesFull, LowestInode;
    ghost var g, v, h := m.g, m.vol, m.history;
    ghost var ow :| Healthy(g, v, ow);
    HealthyFacts(g, v, ow);
    ValidFacts(m);
    n := 0;
    var p, dir, name;
    st, p, dir, name := ResolveParent(m, path, ow);
    if st < 0 {
      return;
    }
    ScanIsLookup(g, v, ow, p, dir, name);
    var slot, child, kind;
    NameShort(name);
    st, slot, child, kind := DirectoryFind(m, p, dir, name, ow);
    if st == 0 {
      return EEXIST, 0;
    }
    st, n := m.AllocateInode();
    if st < 0 {
      AllInodesUsed(g, v, ow);
      return;
    }
    FreeInodeAbsent(g, v, ow, n);
    LowestFree(g, v, ow, n);
    FreshPointers();
    InodeCreated(g, v, ow, n, p, dir);
    st := m.WriteInode(n, FRESH);
    ghost var w, hw, k, ow' := m.vol, m.history, 0, ow;
    st, k, ow' := DirectoryAppend(m, p, dir, n, 1, name, ow);
    RoomSame(g, v, w);
    if st != EINVAL { AppendNeeds(g, v, w, ow, p, dir, k); }
    OldShown(g, m.history, |hw|, Files(v), Files(w), Files(m.vol));
    OldOrNewOn(g, hw, m.history, |h|, Files(v), Files(m.vol));
    if st == 0 {
      AppendReady(g, w, ow, p, dir, k, 1, name);
      FileNamed(g, v, w, m.vol, ow, ow', p, dir, k, n, name);
    } else {
      UndoneFiles(g, w, m.vol, ow);
      OldShown(g, m.history, |h|, Files(v), Files(w), Files(v));
      ghost var ha := m.history;
      Rollback(m, v, n, ow);
      OldOrNewOn(g, ha, m.history, |h|, Files(v), Files(v));
    }
    OldOrNewCrashSafe(g, m.history, |h|, Files(v), m.vol);
  }

  // ---------- making a directory ----------

  /** The bytes of a directory that holds nothing but itself and its parent. */
  function NewFolderBytes(n: u32, p: u32): (c: seq<byte>)
    ensures |c| == 128
  {
    EncodeEntry(n, 2, DOT) + EncodeEntry(p, 2, DOT_DOT)
  }

  lemma NewFolderEntries(n: u32, p: u32)
    ensures DirectoryOK(NewFolderBytes(n, p))
    ensures Entries(NewFolderBytes(n, p)) == map[DOT := Link(n, 2), DOT_DOT := Link(p, 2)]
  {
    hide EncodeEntry, NameOf, Raw;
    var e1, e2 := EncodeEntry(n, 2, DOT), EncodeEntry(p, 2, DOT_DOT);
    assert DirectoryOK([]) && Entries([]) == map[];
    assert Written([], 64 * 0, e1) == e1;
    AddEntry([], 0, n, 2, DOT);
    assert Written(e1, 64 * 1, e2) == e1 + e2;
    AddEntry(e1, 1, p, 2, DOT_DOT);
  }

  /** Blocks for a new directory and for its entry: one, and one or two others. */
  ghost predicate RoomForBoth(g: Geometry, v: Vol, two: bool) {
    exists a, b, c :: Free(g, v, a) && Free(g, v, b) && Free(g, v, c) && a != b && a != c && (two ==> b != c)
  }

  /** What comes of adding a directory whose name is new. */
  ghost function MkdirFate(g: Geometry, v: Vol, p: nat): (st: int)
    requires p < |v.inodes|
  {
    if g.totalInodes == 1 then EINVAL
    else if InodesFull(g, v) || !Room(g, v, false) then ENOSPC
    else if v.inodes[p].size > MAX_FILE_SIZE - 64 then EINVAL
    else if v.inodes[p].links == 0xFFFF then ENOSPC
    else if NeedsBlock(v, p) && !RoomForBoth(g, v, BlocksFor(v.inodes[p].size) == 10) then ENOSPC
    else 0
  }

  ghost predicate MkdirSpec(g: Geometry, v: Vol, w: Vol, path: CString, st: int, n: nat) {
    match Parent(TreeAt(v), g.root, path)
    case Nowhere(e) => st == e && TreeAt(w) == TreeAt(v)
    case At(p, name) =>
      && IsFolder(TreeAt(v), p) && p < |v.inodes|
      && if name in TreeAt(v)[p].entries then st == EEXIST && TreeAt(w) == TreeAt(v)
         else
           && st == MkdirFate(g, v, p)
           && if st == 0 then LowestInode(TreeAt(v), n) && TreeAt(w) == AddFolder(TreeAt(v), p, name, n)
              else TreeAt(w) == TreeAt(v)
  }

  /** The volume with a new directory that has no name yet. */
  ghost function WithFolder(v: Vol, n: nat, b: u32, blk: Block): (w: Vol)
    requires n < |v.inodeBits| && n < |v.inodes| && b < |v.data| && b < |v.blockBits|
  {
    Vol(v.blockBits[b := true], v.inodeBits[n := true], v.inodes[n := DirectoryInode(b)], v.data[b := blk])
  }

  ghost predicate NewFolder(g: Geometry, v: Vol, ow: Owner, n: nat, p: nat, dir: Inode, b: nat, blk: Block) {
    && g.Valid() && Healthy(g, v, ow) && OpenFolder(g, v, ow, p, dir) && n < g.totalInodes && n !in Files(v)
    && n < |v.inodeBits| && n < |v.inodes| && b < |v.data| && b < |v.blockBits| && Free(g, v, b)
    && p < 0x1_0000_0000 && n < 0x1_0000_0000 && b < 0x1_0000_0000 && blk[..128] == NewFolderBytes(n, p)
  }

  lemma FolderCreated(g: Geometry, v: Vol, ow: Owner, n: nat, p: nat, dir: Inode, b: nat, blk: Block)
    requires NewFolder(g, v, ow, n, p, dir, b, blk)
    ensures var w, ow' := WithFolder(v, n, b, blk), ow[b := Slot(n, 0)];
            && Consistent(g, w, ow') && OpenFolder(g, w, ow', p, dir) && n != p
            && TreeAt(w) == TreeAt(v)[n := Folder(2, map[DOT := Link(n, 2), DOT_DOT := Link(p, 2)])]
            && Files(w) == Files(v)[n := File(2, 2, NewFolderBytes(n, p))]
            && Shows(g, w, Files(v))
  {
    hide Sound, Shows, IsTree, SingleLinks, FoldersOK, EntriesOK, TreeOf, Entries, DirectoryOK, NewFolderBytes, Content;
    HealthyFacts(g, v, ow);
    ModesKnown(g, v, ow);
    FreeInodeAbsent(g, v, ow, n);
    CreateDirectory(g, v, ow, n, b, blk);
    NewFolderEntries(n, p);
    var w, ow', f := WithFolder(v, n, b, blk), ow[b := Slot(n, 0)], File(2, 2, NewFolderBytes(n, p));
    assert Files(v)[p].mode == MODE_DIRECTORY;
    ExtraInode(g, v, w, ow, ow', n, f);
    SoundShows(g, w, ow');
    ShowsIgnoresLinks(g, w, Files(w), Files(v));
  }

  /** With the entry in place the new directory is part of the tree. */
  lemma FolderNamed(g: Geometry, v: Vol, w: Vol, u: Vol, ow: Owner, ow2: Owner, ow': Owner, p: nat, dir: Inode, k: nat,
                    n: u32,
                    b: u32, blk: Block, name: Name)
    requires NewFolder(g, v, ow, n, p, dir, b, blk) && w == WithFolder(v, n, b, blk) && ow2 == ow[b := Slot(n, 0)]
    requires AppendPre(g, w, ow2, p, dir, k, 2, name) && ValidName(name) && !Dot(name)
    requires IsFolder(TreeAt(v), p) && name !in TreeAt(v)[p].entries
    ensures Appended(g, w, u, ow', p, k, n, 2, name) ==>
        Healthy(g, u, ow') && TreeAt(u) == AddFolder(TreeAt(v), p, name, n)
  {
    hide Sound, Files, Shows, IsTree, SingleLinks, FoldersOK, EntriesOK, TreeOf, AppendedFiles, Entries, Content,
         ValidName, FirstFree;
    FolderCreated(g, v, ow, n, p, dir, b, blk);
    FreeInodeAbsent(g, v, ow, n);
    HealthyFacts(g, v, ow);
    var t := TreeAt(v);
    ScanIsLookup(g, w, ow2, p, dir, []);
    AppendedTree(g, w, ow2, p, dir, k, n, 2, name);
    assert TreeOf(AppendedFiles(w, p, k, n, 2, name)) == AddFolder(t, p, name, n);
    AddFolderKeepsTree(t, g.root, p, name, n);
  }

  /** Bits and blocks taken but not yet linked to anything do not show. */
  lemma TakenShows(g: Geometry, v: Vol, ow: Owner, n: nat, b: nat, x: Block)
    requires Sound(g, v, ow) && n < g.totalInodes && n < |v.inodeBits| && Free(g, v, b) && b < |v.data|
    ensures var v1 := v.(inodeBits := v.inodeBits[n := true]);
            var v2 := v1.(blockBits := v1.blockBits[b := true]);
            Shows(g, v1, Files(v)) && Shows(g, v2, Files(v)) && Shows(g, v2.(data := v.data[b := x]), Files(v))
  {
    hide Shows, Content, Files, InodesSound, OwnersExact;
    var v1 := v.(inodeBits := v.inodeBits[n := true]);
    var v2 := v1.(blockBits := v1.blockBits[b := true]);
    var v3 := v2.(data := v.data[b := x]);
    forall c | c in ow ensures c < |v.blockBits| && v.blockBits[c] && c != b { InodeBlocks(g, v, ow, c); }
    PaddedShows(g, v, v1, ow);
    PaddedShows(g, v, v2, ow);
    PaddedShows(g, v, v3, ow);
  }

  /** Gives the new inode `n` a block that lists `n` and its parent `p`. */
  method BuildFolder(m: Mount, ghost v: Vol, n: nat, p: nat, ghost dir: Inode, ghost ow: Owner)
    returns (st: int, b: nat, ghost blk: Block)
    requires m.Valid() && Healthy(m.g, v, ow) && OpenFolder(m.g, v, ow, p, dir) && n < m.g.totalInodes && n !in Files(v)
    requires n < |v.inodeBits| && n < |v.inodes| && !v.inodeBits[n] && m.vol == v.(inodeBits := v.inodeBits[n := true])
    modifies m`io, m`aux, m`disk, m`vol, m`history
    ensures m.Valid() && (st == 0 || st == ENOSPC)
    ensures st == 0 ==> NewFolder(m.g, v, ow, n, p, dir, b, blk) && m.vol == WithFolder(v, n, b, blk)
    ensures st != 0 ==> m.vol == v
    ensures st == 0 <==> Room(m.g, v, false)
    ensures old(m.history) <= m.history && OldOrNew(m.g, m.history, |old(m.history)|, Files(v), Files(v))
  {
    hide Sound, Files, Shows, Healthy, Mount.Valid, CrashSafe, TreeOf, Closed, RecordOK, EncodeEntry, Consistent;
    ValidFacts(m);
    ghost var g, h := m.g, m.history;
    HealthyFacts(g, v, ow);
    blk := ZERO_BLOCK;
    st, b := m.AllocateBlock();
    if st < 0 {
      assert n != g.root by { RootKept(g, v, ow); }
      ghost var u := m.vol;
      var _ := m.FreeInode(n);
      assert m.vol == v by { assert v.inodeBits[n := true][n := false] == v.inodeBits; }
      SoundShows(g, v, ow);
      assert forall x :: Free(g, v, x) ==> Free(g, u, x);
      return;
    }
    assert Free(g, v, b);
    TakenShows(g, v, ow, n, b, ZERO_BLOCK);
    m.io := Splice(Splice(ZERO_BLOCK, 0, EncodeEntry(n, 2, DOT)), 64, EncodeEntry(p, 2, DOT_DOT));
    blk := m.io;
    assert blk[..128] == NewFolderBytes(n, p);
    st := m.WriteDataBlock(b, m.io);
    TakenShows(g, v, ow, n, b, blk);
    assert v.data[b := ZERO_BLOCK][b := blk] == v.data[b := blk];
    FolderPointers(b);
    st := m.WriteInode(n, DirectoryInode(b));
    FolderCreated(g, v, ow, n, p, dir, b, blk);
  }

  lemma FolderPointers(b: u32)
    requires b != 0
    ensures PointersOK(DirectoryInode(b)) && DirectoryInode(b).(reserved := 0) == DirectoryInode(b)
  {
  }

  /** Undoes the creation of a directory that got no name. */
  method RollbackFolder(m: Mount, ghost v: Vol, n: nat, ghost p: nat, ghost dir: Inode, b: nat, ghost blk: Block,
                        ghost ow: Owner)
    requires m.Valid() && NewFolder(m.g, v, ow, n, p, dir, b, blk)
    requires ChunkUndone(m.g, WithFolder(v, n, b, blk), m.vol, ow[b := Slot(n, 0)])
    modifies m`io, m`disk, m`vol, m`history
    ensures m.Valid() && WellFormed(m.g, m.vol) && TreeAt(m.vol) == TreeAt(v) && Files(m.vol) == Files(v)
    ensures old(m.history) <= m.history && OldOrNew(m.g, m.history, |old(m.history)|, Files(v), Files(v))
  {
    hide Sound, Files, Shows, Healthy, Mount.Valid, CrashSafe, TreeOf, Closed, NewFolderBytes, Consistent;
    ValidFacts(m);
    ghost var g, u, y, ow2 := m.g, m.vol, Without(m.vol, n), ow[b := Slot(n, 0)];
    FolderCreated(g, v, ow, n, p, dir, b, blk);
    InodeDropped(g, v, u, ow, ow2, n, File(2, 2, NewFolderBytes(n, p)));
    OneBlock(u.data, u.blockBits, b);
    assert n != g.root by { RootKept(g, v, ow); }
    ghost var x1 := u.(blockBits := u.blockBits[b := false]);
    ghost var x2 := x1.(inodes := x1.inodes[n := ZERO_INODE]);
    DroppingShows(g, y, x1, KeptOwners(ow2, n, 0));
    DroppingShows(g, y, x2, KeptOwners(ow2, n, 0));
    DroppingShows(g, y, y, KeptOwners(ow2, n, 0));
    var _ := m.FreeBlock(b);
    var _ := m.ClearInodeRecord(n);
    var _ := m.FreeInode(n);
    assert m.vol == y;
  }

  lemma OneBlock(data: seq<Block>, bits: seq<bool>, b: u32)
    requires b < |bits|
    ensures ClearBits(bits, SlotsFrom(data, DirectoryInode(b), 0)) == bits[b := false]
  {
    assert SlotBlock(data, DirectoryInode(b), 0) == b;
    assert SlotsFrom(data, DirectoryInode(b), 0) == {b as nat};
  }

  /** What room is left once the block of the new directory is taken. */
  lemma RoomLeft(g: Geometry, v: Vol, w: Vol, b: nat, two: bool)
    requires Shape(g, v) && Free(g, v, b) && b < |v.blockBits| && w.blockBits == v.blockBits[b := true]
    ensures Room(g, w, two) <==> RoomForBoth(g, v, two)
  {
    if Room(g, w, two) {
      var x, y :| Free(g, w, x) && Free(g, w, y) && (two ==> x != y);
      assert Free(g, v, x) && Free(g, v, y);
    }
    if RoomForBoth(g, v, two) {
      var x, y, z :| Free(g, v, x) && Free(g, v, y) && Free(g, v, z) && x != y && x != z && (two ==> y != z);
      var c, d := if y == b then x else y, if z == b then x else z;
      assert Free(g, w, c) && Free(g, w, d);
    }
  }

  /** What naming the new directory comes to, in terms of the volume before it. */
  lemma NamingFate(g: Geometry, v: Vol, ow: Owner, n: nat, p: nat, dir: Inode, b: nat, blk: Block, k: nat, st: int)
    requires NewFolder(g, v, ow, n, p, dir, b, blk) && g.totalInodes > 1 && !InodesFull(g, v) && Room(g, v, false)
    requires var w := WithFolder(v, n, b, blk);
             && (st == 0 || st == EINVAL || st == ENOSPC) && (st == EINVAL <==> dir.size > MAX_FILE_SIZE - 64)
             && (st != EINVAL ==> FirstFree(Content(w.data, dir), k) && 64 * k <= dir.size)
             && (st == ENOSPC <==> && dir.size <= MAX_FILE_SIZE - 64
                                   && (dir.links == 0xFFFF || ChunkStatus(g, w, dir, 64 * k) == ENOSPC))
    ensures p < |v.inodes| && st == MkdirFate(g, v, p)
  {
    hide Sound, Shows, IsTree, SingleLinks, FoldersOK, EntriesOK, TreeOf, Entries, DirectoryOK, NewFolderBytes, Content,
         Healthy, Consistent, NeedsBlock, InodesFull, Room, RoomForBoth, FirstFree, ChunkStatus;
    var w, ow' := WithFolder(v, n, b, blk), ow[b := Slot(n, 0)];
    FolderCreated(g, v, ow, n, p, dir, b, blk);
    OpenShape(g, v, ow, p, dir);
    RoomLeft(g, v, w, b, BlocksFor(dir.size) == 10);
    SameFolder(g, v, w, ow, ow', p, dir);
    if st != EINVAL { AppendNeeds(g, v, w, ow, p, dir, k); }
  }

  /** The directory that gets the entry is not touched when the new one is built. */
  lemma SameFolder(g: Geometry, v: Vol, w: Vol, ow: Owner, ow': Owner, p: nat, dir: Inode)
    requires OpenFolder(g, v, ow, p, dir) && OpenFolder(g, w, ow', p, dir)
    requires p in Files(v) && p in Files(w) ==> Files(w)[p] == Files(v)[p]
    ensures p < |v.inodes| && dir == v.inodes[p] && Content(w.data, dir) == Content(v.data, dir)
  {
  }

  /** Enters the new directory into its parent, or undoes it. */
  method NameFolder(m: Mount, ghost v: Vol, p: nat, dir: Inode, n: nat, b: nat, ghost blk: Block, name: CString,
                    ghost ow: Owner) returns (st: int)
    requires m.Valid() && NewFolder(m.g, v, ow, n, p, dir, b, blk) && m.vol == WithFolder(v, n, b, blk)
    requires ValidName(name) && !Dot(name) && IsFolder(TreeAt(v), p) && name !in TreeAt(v)[p].entries
    requires m.g.totalInodes > 1 && !InodesFull(m.g, v) && Room(m.g, v, false)
    modifies m`io, m`aux, m`disk, m`vol, m`history
    ensures m.Valid() && WellFormed(m.g, m.vol) && p < |v.inodes| && st == MkdirFate(m.g, v, p)
    ensures TreeAt(m.vol) == if st == 0 then AddFolder(TreeAt(v), p, name, n) else TreeAt(v)
    ensures old(m.history) <= m.history && OldOrNew(m.g, m.history, |old(m.history)|, Files(v), Files(m.vol))
  {
    hide Sound, Files, Shows, IsTree, SingleLinks, FoldersOK, EntriesOK, TreeOf, AppendedFiles, Entries, Content,
         Healthy, Mount.Valid, Consistent, Appended, ChunkUndone, RecordOK, Room, AddFolder, ValidName, FirstFree,
         NewFolderBytes, InodesFull, MkdirFate;
    ghost var g, w, hw, ow2 := m.g, m.vol, m.history, ow[b := Slot(n, 0)];
    ghost var k, ow' := 0, ow;
    ValidFacts(m);
    FolderCreated(g, v, ow, n, p, dir, b, blk);
    st, k, ow' := DirectoryAppend(m, p, dir, n, 2, name, ow2);
    NamingFate(g, v, ow, n, p, dir, b, blk, k, st);
    OldShown(g, m.history, |hw|, Files(v), Files(w), Files(m.vol));
    if st == 0 {
      AppendReady(g, w, ow2, p, dir, k, 2, name);
      FolderNamed(g, v, w, m.vol, ow, ow2, ow', p, dir, k, n, b, blk, name);
    } else {
      UndoneFiles(g, w, m.vol, ow2);
      OldShown(g, m.history, |hw|, Files(v), Files(w), Files(v));
      ghost var ha := m.history;
      RollbackFolder(m, v, n, p, dir, b, blk, ow);
      OldOrNewOn(g, ha, m.history, |hw|, Files(v), Files(v));
    }
  }

  method MakeDirectory(m: Mount, path: CString) returns (st: int, ghost n: nat)
    requires m.Valid() && WellFormed(m.g, m.vol)
    modifies m`io, m`aux, m`disk, m`vol, m`history
    ensures m.Valid() && WellFormed(m.g, m.vol)
    ensures MkdirSpec(m.g, old(m.vol), m.vol, path, st, n)
    ensures old(m.history) <= m.history && CrashSafeSince(m.g, m.history, |old(m.history)|)
    ensures OldOrNew(m.g, m.history, |old(m.history)|, Files(old(m.vol)), Files(m.vol))
  {
    hide Sound, Files, Shows, IsTree, SingleLinks, FoldersOK, EntriesOK, TreeOf, Entries, Content, Healthy, Mount.Valid,
         Consistent, Scan, Raw, CrashSafe, RecordOK, Room, AddFolder, ValidName, Parent, NewFolderBytes, NeedsBlock,
         InodesFull, LowestInode, RoomForBoth;
    ghost var g, v, h := m.g, m.vol, m.history;
    ghost var ow :| Healthy(g, v, ow);
    HealthyFacts(g, v, ow);
    ValidFacts(m);
    n := 0;
    var p, dir, name;
    st, p, dir, name := ResolveParent(m, path, ow);
    if st < 0 {
      return;
    }
    ScanIsLookup(g, v, ow, p, dir, name);
    OpenShape(g, v, ow, p, dir);
    var slot, child, kind;
    NameShort(name);
    st, slot, child, kind := DirectoryFind(m, p, dir, name, ow);
    if st == 0 {
      return EEXIST, 0;
    }
    var number;
    st, number := m.AllocateInode();
    n := number;
    if st < 0 {
      AllInodesUsed(g, v, ow);
      return;
    }
    FreeInodeAbsent(g, v, ow, number);
    LowestFree(g, v, ow, number);
    InodeCreated(g, v, ow, number, p, dir);
    var b;
    ghost var blk, h1 := ZERO_BLOCK, m.history;
    st, b, blk := BuildFolder(m, v, number, p, dir, ow);
    OldOrNewOn(g, h1, m.history, |h|, Files(v), Files(v));
    if st == 0 {
      h1 := m.history;
      st := NameFolder(m, v, p, dir, number, b, blk, name, ow);
      OldOrNewOn(g, h1, m.history, |h|, Files(v), Files(m.vol));
    }
    OldOrNewCrashSafe(g, m.history, |h|, Files(v), m.vol);
  }

  // ---------- unlinking ----------

  ghost predicate UnlinkSpec(g: Geometry, v: Vol, w: Vol, path: CString, st: int) {
    var t := TreeAt(v);
    match Parent(t, g.root, path)
    case Nowhere(e) => st == e && TreeAt(w) == t
    case At(p, name) =>
      && IsFolder(t, p)
      && if name !in t[p].entries then st == ENOENT && TreeAt(w) == t
         else
           var c := t[p].entries[name].child;
           && c in t && t[p].links > 0
           && if t[c].Folder? && t[c].entries.Keys != {DOT, DOT_DOT} then st == ENOTEMPTY && TreeAt(w) == t
              else st == 0 && TreeAt(w) == Remove(t, p, name, c)
  }

  /** The volume with the entry in slot `k` of directory `p` cleared. */
  ghost function Cleared(v: Vol, p: nat, k: nat, links: u16): (w: Vol)
    requires p < |v.inodes|
  {
    Overwritten(v, p, 64 * k, Zeros(64), v.inodes[p].size, links)
  }

  ghost predicate Unlinking(g: Geometry, v: Vol, ow: Owner, p: nat, dir: Inode, k: nat, name: Name) {
    && Healthy(g, v, ow) && OpenFolder(g, v, ow, p, dir) && NamedAt(Content(v.data, dir), k, name)
    && DirectoryOK(Content(v.data, dir))
  }

  lemma EntryCleared(g: Geometry, v: Vol, ow: Owner, p: nat, dir: Inode, k: nat, name: Name, links: u16)
    requires Unlinking(g, v, ow, p, dir, k, name) && links != 0
    ensures IsFolder(TreeAt(v), p) && 64 * k % 4096 + 64 <= 4096
    ensures var u := Cleared(v, p, k, links);
            && Sound(g, u, ow) && FoldersOK(Files(u))
            && TreeAt(u) == TreeAt(v)[p := Folder(links, TreeAt(v)[p].entries - {name})]
            && Files(u) == Files(v)[p := File(MODE_DIRECTORY, links, Written(Content(v.data, dir), 64 * k, Zeros(64)))]
  {
    hide Content, Sound, Shows, IsTree, SingleLinks, EntriesOK, Entries, DirectoryOK, Consistent, Raw, NameOf;
    HealthyFacts(g, v, ow);
    ModesKnown(g, v, ow);
    FolderEntries(g, v, ow, p, dir);
    FolderSize(g, v, ow, p, dir);
    OneEntry(g, v, ow, p, dir, k);
    SlotReadable(g, v, ow, p, k / 64);
    var u, c := Cleared(v, p, k, links), Content(v.data, dir);
    Overwrite(g, v, ow, p, 64 * k, Zeros(64), dir.size, links);
    RemoveEntry(c, k, name);
    assert Written(c, 64 * k, Zeros(64))[..dir.size] == Written(c, 64 * k, Zeros(64));
    ClearedFolder(Files(v), p, links, Written(c, 64 * k, Zeros(64)), name);
  }

  lemma ClearedFolder(fs: map<nat, File>, p: nat, links: u16, d: seq<byte>, name: Name)
    requires FoldersOK(fs) && p in fs && fs[p].mode == MODE_DIRECTORY && DirectoryOK(d)
    requires Entries(d) == Entries(fs[p].content) - {name}
    ensures var fs' := fs[p := File(MODE_DIRECTORY, links, d)];
            && FoldersOK(fs') && IsFolder(TreeOf(fs), p)
            && TreeOf(fs') == TreeOf(fs)[p := Folder(links, TreeOf(fs)[p].entries - {name})]
  {
    hide DirectoryOK, Entries;
    var fs' := fs[p := File(MODE_DIRECTORY, links, d)];
    forall m | m in fs' && fs'[m].mode == MODE_DIRECTORY ensures DirectoryOK(fs'[m].content) {
      if m != p { assert DirectoryOK(fs[m].content); }
    }
  }

  lemma AllReleasable(g: Geometry, v: Vol, ow: Owner, n: nat)
    requires Sound(g, v, ow) && n < g.totalInodes && v.inodeBits[n]
    ensures BlocksFor(v.inodes[n].size) > 10 ==>
              && g.dataStart <= v.inodes[n].indirect < g.totalBlocks == |v.data|
              && Releasable(g, v.data, v.inodes[n], 0, v.data[v.inodes[n].indirect])
    ensures BlocksFor(v.inodes[n].size) <= 10 ==> forall x :: Releasable(g, v.data, v.inodes[n], 0, x)
  {
    assert InodeSound(g, v.data, ow, n, v.inodes[n]);
    if BlocksFor(v.inodes[n].size) > 10 { IndirectInRange(g, v, ow, n); }
    forall k: nat | k < BlocksFor(v.inodes[n].size)
      ensures g.dataStart <= SlotBlock(v.data, v.inodes[n], k) < g.totalBlocks {
      SlotKept(g, v, ow, n, k);
    }
  }

  /** Frees all blocks of an inode, then its record and its number. */
  method ReleaseInode(m: Mount, n: nat, inode: Inode, ghost ow: Owner) returns (st: int)
    requires m.Valid() && Sound(m.g, m.vol, ow) && n < m.g.totalInodes && n != m.g.root
    requires n < |m.vol.inodeBits| && n < |m.vol.inodes| && m.vol.inodeBits[n] && inode == m.vol.inodes[n]
    modifies m`io, m`cmp, m`disk, m`vol, m`history
    ensures m.Valid() && st == 0 && m.vol == Without(old(m.vol), n)
    ensures old(m.history) <= m.history
    ensures forall j :: |old(m.history)| <= j < |m.history| ==> Dropping(m.g, Without(old(m.vol), n), m.history[j])
  {
    hide Sound, Mount.Valid, RecordOK, PointersOK, SlotsFrom, SlotBlock;
    ValidFacts(m);
    ghost var v, y := m.vol, Without(m.vol, n);
    AllReleasable(m.g, v, ow, n);
    if BlocksFor(inode.size) > 10 {
      st, m.cmp := m.ReadDataBlock(inode.indirect);
    }
    FreeSlotsFrom(m, inode, 0, v.data);
    st := m.ClearInodeRecord(n);
    st := m.FreeInode(n);
  }

  lemma RemovableFacts(g: Geometry, v: Vol, ow: Owner, p: nat, name: Name)
    requires Healthy(g, v, ow) && IsFolder(TreeAt(v), p) && name in TreeAt(v)[p].entries && !Dot(name)
    ensures var t := TreeAt(v); var c := t[p].entries[name].child;
            && c in t && t[p].links > 0 && c != g.root && t[p].entries[name].kind == Kind(t[c])
            && (t[c].Folder? ==> DOT in t[c].entries && DOT_DOT in t[c].entries)
            && ((t[c].Folder? && t[c].entries.Keys != {DOT, DOT_DOT}) || Removable(t, g.root, p, name, c))
  {
    var t := TreeAt(v);
    var c := t[p].entries[name].child;
    var par, depth :| TreeWith(t, g.root, par, depth);
    assert EntryFine(t, p, name);
    assert LinksFine(t, p);
    assert ChildFine(t, g.root, par, p, name);
    assert t[c].Folder? ==> DotsFine(t, g.root, par, c);
  }

  /** Once the entry is cleared and the inode released, the tree is the old one without it. */
  lemma Unlinked(g: Geometry, v: Vol, ow: Owner, p: nat, dir: Inode, k: nat, name: Name, c: nat, links: u16)
    requires Unlinking(g, v, ow, p, dir, k, name) && Removable(TreeAt(v), g.root, p, name, c)
    requires links as int == dir.links as int - MoreLinks(Kind(TreeAt(v)[c])) && links != 0
    ensures TreeAt(v)[p].links > 0
    ensures var u := Cleared(v, p, k, links);
            && c < |u.inodes| && c < |u.inodeBits| && c < g.totalInodes && u.inodeBits[c] && c != p && c != g.root
            && u.inodes[c] == v.inodes[c] && Sound(g, u, ow)
            && Sound(g, Without(u, c), KeptOwners(ow, c, 0)) && Files(Without(u, c)) == Files(u) - {c}
            && Healthy(g, Without(u, c), KeptOwners(ow, c, 0))
            && TreeAt(Without(u, c)) == Remove(TreeAt(v), p, name, c)
  {
    hide Content, Sound, Shows, IsTree, SingleLinks, EntriesOK, Entries, DirectoryOK, Consistent, Raw, NameOf, Files,
         SlotsFrom, FoldersOK;
    HealthyFacts(g, v, ow);
    var t, u := TreeAt(v), Cleared(v, p, k, links);
    InodeOfNode(g, v, ow, p);
    InodeOfNode(g, v, ow, c);
    RemoveKeepsTree(t, g.root, p, name, c);
    EntryCleared(g, v, ow, p, dir, k, name, links);
    Release(g, u, ow, c);
    var y := Without(u, c);
    FewerFolders(Files(u), c);
    assert TreeAt(y) == Remove(t, p, name, c);
  }

  lemma FewerFolders(fs: map<nat, File>, c: nat)
    requires FoldersOK(fs)
    ensures FoldersOK(fs - {c}) && TreeOf(fs - {c}) == TreeOf(fs) - {c}
  {
    forall n | n in fs - {c} && fs[n].mode == MODE_DIRECTORY ensures DirectoryOK((fs - {c})[n].content) {
      assert DirectoryOK(fs[n].content);
    }
  }

  lemma LinksLeft(g: Geometry, v: Vol, ow: Owner, p: nat, name: Name, c: nat)
    requires Healthy(g, v, ow) && Removable(TreeAt(v), g.root, p, name, c)
    ensures TreeAt(v)[p].links > MoreLinks(Kind(TreeAt(v)[c]))
  {
    var t := TreeAt(v);
    RemoveKeepsTree(t, g.root, p, name, c);
    var t' := Remove(t, p, name, c);
    var par, depth :| TreeWith(t', g.root, par, depth);
    assert LinksFine(t', p);
  }

  /** Whether or not the link count is stored yet, the cleared directory shows. */
  lemma ClearedShows(g: Geometry, v: Vol, ow: Owner, p: nat, dir: Inode, k: nat, name: Name, links: u16)
    requires Unlinking(g, v, ow, p, dir, k, name) && links != 0 && dir.links != 0
    ensures 64 * k % 4096 + 64 <= 4096
    ensures Shows(g, Cleared(v, p, k, dir.links), Files(Cleared(v, p, k, links)))
    ensures Shows(g, Cleared(v, p, k, links), Files(Cleared(v, p, k, links)))
  {
    hide Content, Sound, Shows, Healthy, TreeOf, Files, Raw, NameOf, DirectoryOK, FoldersOK, Cleared;
    EntryCleared(g, v, ow, p, dir, k, name, dir.links);
    EntryCleared(g, v, ow, p, dir, k, name, links);
    var u, w := Cleared(v, p, k, dir.links), Cleared(v, p, k, links);
    SoundShows(g, u, ow);
    SoundShows(g, w, ow);
    ShowsIgnoresLinks(g, u, Files(u), Files(w));
  }

  /** Clears the entry, and stores the parent's lower link count if a directory goes. */
  method ClearEntry(m: Mount, p: nat, dir: Inode, slot: nat, ghost name: Name, c: nat, kind: nat, ghost ow: Owner)
    requires m.Valid() && Unlinking(m.g, m.vol, ow, p, dir, slot, name)
    requires Removable(TreeAt(m.vol), m.g.root, p, name, c) && kind == Kind(TreeAt(m.vol)[c])
    requires dir.links > MoreLinks(kind)
    modifies m`io, m`aux, m`disk, m`vol, m`history
    ensures m.Valid() && m.vol == Cleared(old(m.vol), p, slot, dir.links as int - MoreLinks(kind))
    ensures old(m.history) <= m.history && OldOrNew(m.g, m.history, |old(m.history)|, Files(m.vol), Files(m.vol))
  {
    hide Content, Sound, Shows, Healthy, Mount.Valid, TreeOf, Files, CrashSafe, Raw, NameOf, DirectoryOK, FoldersOK,
         Removable;
    ValidFacts(m);
    ghost var g, v := m.g, m.vol;
    OneEntry(g, v, ow, p, dir, slot);
    SlotReadable(g, v, ow, p, slot / 64);
    ClearedShows(g, v, ow, p, dir, slot, name, dir.links as int - MoreLinks(kind));
    var st, b := m.InodeBlockAt(dir, 64 * slot / 4096);
    var offset := 64 * slot % 4096;
    st, m.io := m.ReadDataBlock(b);
    m.aux := Splice(m.aux, 0, m.io[offset..offset + 64]);
    m.io := Splice(m.io, offset, Zeros(64));
    st := m.WriteDataBlock(b, m.io);
    assert v.inodes[p := dir] == v.inodes;
    assert m.vol == Cleared(v, p, slot, dir.links);
    if kind == 2 {
      assert PointersOK(dir.(links := dir.links - 1));
      st := m.WriteInode(p, dir.(links := dir.links - 1));
    }
  }

  method Unlink(m: Mount, path: CString) returns (st: int)
    requires m.Valid() && WellFormed(m.g, m.vol)
    modifies m`io, m`aux, m`cmp, m`disk, m`vol, m`history
    ensures m.Valid() && WellFormed(m.g, m.vol)
    ensures UnlinkSpec(m.g, old(m.vol), m.vol, path, st)
    ensures old(m.history) <= m.history && CrashSafeSince(m.g, m.history, |old(m.history)|)
    ensures OldOrNew(m.g, m.history, |old(m.history)|, Files(old(m.vol)), Files(m.vol))
  {
    hide Sound, Files, Shows, IsTree, SingleLinks, FoldersOK, EntriesOK, TreeOf, Entries, Content, Healthy, Mount.Valid,
         Consistent, Scan, Raw, NameOf, CrashSafe, RecordOK, PointersOK, ValidName, Parent, Cleared, Without, Dropping,
         Remove, EmptyStatus, DirectoryOK;
    ghost var g, v, h := m.g, m.vol, m.history;
    ghost var ow :| Healthy(g, v, ow);
    HealthyFacts(g, v, ow);
    ghost var t := TreeAt(v);
    var p, dir, name;
    st, p, dir, name := ResolveParent(m, path, ow);
    if st < 0 {
      return;
    }
    ScanIsLookup(g, v, ow, p, dir, name);
    var slot, c, kind, inode;
    NameShort(name);
    st, slot, c, kind := DirectoryFind(m, p, dir, name, ow);
    if st < 0 {
      return;
    }
    RemovableFacts(g, v, ow, p, name);
    InodeOfNode(g, v, ow, c);
    st, inode := m.ReadInode(c);
    if inode.mode == MODE_DIRECTORY {
      ScanIsLookup(g, v, ow, c, inode, []);
      EmptyIsDotsOnly(Content(v.data, inode));
      st := DirectoryEmpty(m, c, inode, ow);
      if st < 0 {
        return;
      }
    }
    LinksLeft(g, v, ow, p, name, c);
    ghost var links := dir.links as int - MoreLinks(kind);
    Unlinked(g, v, ow, p, dir, slot, name, c, links);
    ClearEntry(m, p, dir, slot, name, c, kind, ow);
    ghost var u, y, hc := m.vol, Without(m.vol, c), m.history;
    OldShown(g, hc, |h|, Files(y), Files(u), Files(u));
    OldShown(g, hc, |h|, Files(y), Files(u), Files(y));
    st := ReleaseInode(m, c, inode, ow);
    forall j | |hc| <= j < |m.history| ensures Shows(g, m.history[j], Files(y)) {
      DroppingShows(g, y, m.history[j], KeptOwners(ow, c, 0));
    }
    OldOrNewOn(g, hc, m.history, |h|, Files(y), Files(y));
    OldOrNewCrashSafe(g, m.history, |h|, Files(v), m.vol);
  }
}
