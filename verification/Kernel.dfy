/** The file operations as a caller sees them: whole runs keep the volume well formed, and
    what an interrupted operation leaves behind is still a usable tree. */
module Kernel {
  import opened Bytes
  import opened Layout
  import opened Volume
  import opened BlockOps
  import opened Crash
  import opened Directory
  import opened Trees
  import opened FileSystem
  import opened Errno
  import opened Mounted
  import opened FileOps
  import opened DirOps
  import opened PathOps

  // ---------- file contents as part of the tree ----------

  lemma HoldsIsSetContent(g: Geometry, v: Vol, w: Vol, ow: Owner, ow': Owner, n: nat, s: seq<byte>)
    requires Healthy(g, v, ow) && Holds(g, v, w, ow', n, s)
    ensures n in TreeAt(v) && TreeAt(v)[n].Regular?
    ensures Healthy(g, w, ow') && TreeAt(w) == SetContent(TreeAt(v), n, s)
  {
    hide Sound, Content, IsTree, SingleLinks, EntriesOK, DirectoryOK, Entries;
    var fs, fs' := Files(v), Files(w);
    assert n in fs;
    forall d | d in fs' && fs'[d].mode == MODE_DIRECTORY ensures DirectoryOK(fs'[d].content) {
      assert DirectoryOK(fs[d].content);
    }
    assert TreeAt(w) == SetContent(TreeAt(v), n, s);
    SetContentKeepsTree(TreeAt(v), g.root, n, s);
  }

  lemma OthersCrashSafe(g: Geometry, v: Vol, ow: Owner, n: nat, h: seq<Vol>, from: nat)
    requires Healthy(g, v, ow) && n in Files(v) && Files(v)[n].mode == MODE_REGULAR
    requires OthersShownSince(g, h, from, Files(v), n)
    ensures CrashSafeSince(g, h, from)
  {
    hide Sound, Content, IsTree, SingleLinks, Shows, Files, DirectoryOK, Entries;
    HealthyFacts(g, v, ow);
    var fs := Files(v);
    forall j | from <= j < |h| ensures CrashSafe(g, h[j]) {
      var f: File :| f.mode == fs[n].mode && Shows(g, h[j], fs[n := f]);
      OtherBytesClosed(fs, g.root, n, f);
      ShowsCrashSafe(g, h[j], fs[n := f]);
    }
  }

  lemma OtherBytesClosed(fs: map<nat, File>, root: nat, n: nat, f: File)
    requires Closed(fs, root) && n in fs && fs[n].mode == f.mode == MODE_REGULAR
    ensures Closed(fs[n := f], root)
  {
    hide DirectoryOK, Entries;
    var fs' := fs[n := f];
    forall d | d in fs' && fs'[d].mode == MODE_DIRECTORY ensures DirectoryOK(fs'[d].content) {
      assert DirectoryOK(fs[d].content);
    }
    var t, t' := TreeOf(fs), TreeOf(fs');
    forall d, x | HasEntry(t', d, x) ensures EntryFine(t', d, x) { assert EntryFine(t, d, x); }
  }

  /** Why a write or truncation of inode `n` is refused. */
  function FileError(t: Tree, totalInodes: nat, n: nat): (st: int) {
    if n >= totalInodes then EINVAL else if n !in t then EIO else if t[n].Folder? then EISDIR else 0
  }

  lemma ErrorsOnTree(g: Geometry, v: Vol, ow: Owner, n: nat)
    requires Healthy(g, v, ow)
    ensures Shape(g, v)
    ensures ReadStatus(g, v, n) == if n >= g.totalInodes then EINVAL else if n !in TreeAt(v) then EIO else 0
    ensures n in TreeAt(v) ==>
        v.inodes[n].mode == Kind(TreeAt(v)[n]) && (n in Files(v) && Files(v)[n].mode == v.inodes[n].mode)
    ensures n in TreeAt(v) && TreeAt(v)[n].Regular? ==>
              Content(v.data, v.inodes[n]) == TreeAt(v)[n].content && |TreeAt(v)[n].content| == v.inodes[n].size
  {
    HealthyFacts(g, v, ow);
    if n < g.totalInodes { FreeInodeAbsent(g, v, ow, n); }
    if n in TreeAt(v) { InodeOfNode(g, v, ow, n); }
  }

  ghost predicate WriteSpec(g: Geometry, v: Vol, w: Vol, n: nat, offset: nat, source: seq<byte>, r: int) {
    var t := TreeAt(v);
    if offset > MAX_FILE_SIZE || |source| > MAX_FILE_SIZE - offset then r == EINVAL && TreeAt(w) == t
    else if FileError(t, g.totalInodes, n) != 0 then r == FileError(t, g.totalInodes, n) && TreeAt(w) == t
    else if offset > |t[n].content| then r == EINVAL && TreeAt(w) == t
    else
      && (r == ENOSPC || 0 <= r <= |source|)
      && var k := if r < 0 then 0 else r;
         && TreeAt(w) == SetContent(t, n, Written(t[n].content, offset, source[..k]))
         && (r < |source| ==> !Room(g, w, BlocksFor(offset + k) == 10))
         && (r == 0 ==> source == [])
  }

  method WriteFile(m: Mount, n: nat, offset: nat, source: seq<byte>) returns (r: int)
    requires m.Valid() && WellFormed(m.g, m.vol)
    modifies m`io, m`aux, m`disk, m`vol, m`history
    ensures m.Valid() && WellFormed(m.g, m.vol)
    ensures WriteSpec(m.g, old(m.vol), m.vol, n, offset, source, r)
    ensures old(m.history) <= m.history && CrashSafeSince(m.g, m.history, |old(m.history)|)
    ensures OthersShownSince(m.g, m.history, |old(m.history)|, Files(old(m.vol)), n)
  {
    hide Sound, Files, Content, Healthy, Mount.Valid, Holds, TreeOf, Room, CrashSafe, OthersShownSince, Written;
    ghost var g, v := m.g, m.vol;
    ghost var ow :| Healthy(g, v, ow);
    HealthyFacts(g, v, ow);
    ErrorsOnTree(g, v, ow, n);
    ghost var ow';
    r, ow' := Write(m, n, offset, source, ow);
    if WriteError(g, v, n, offset, |source|) == 0 {
      HoldsIsSetContent(g, v, m.vol, ow, ow', n,
        Written(Content(v.data, v.inodes[n]), offset, source[..if r < 0 then 0 else r]));
      OthersCrashSafe(g, v, ow, n, m.history, |old(m.history)|);
    } else {
      NothingShown(g, m.history, Files(v), n);
    }
  }

  ghost predicate TruncateSpec(g: Geometry, v: Vol, w: Vol, n: nat, size: nat, st: int) {
    var t := TreeAt(v);
    if size > MAX_FILE_SIZE then st == EINVAL && TreeAt(w) == t
    else if n !in t then st == EIO && TreeAt(w) == t
    else if t[n].Folder? then st == EISDIR && TreeAt(w) == t
    else if size > |t[n].content| then st == EINVAL && TreeAt(w) == t
    else st == 0 && TreeAt(w) == SetContent(t, n, t[n].content[..size])
  }

  method TruncateFile(m: Mount, n: nat, size: nat) returns (st: int)
    requires m.Valid() && WellFormed(m.g, m.vol)
    modifies m`io, m`aux, m`cmp, m`disk, m`vol, m`history
    ensures m.Valid() && WellFormed(m.g, m.vol)
    ensures TruncateSpec(m.g, old(m.vol), m.vol, n, size, st)
    ensures old(m.history) <= m.history && CrashSafeSince(m.g, m.history, |old(m.history)|)
    ensures OthersShownSince(m.g, m.history, |old(m.history)|, Files(old(m.vol)), n)
  {
    hide Sound, Files, Content, Healthy, Mount.Valid, Holds, TreeOf, Room, CrashSafe, OthersShownSince;
    ghost var g, v := m.g, m.vol;
    ghost var ow :| Healthy(g, v, ow);
    HealthyFacts(g, v, ow);
    ErrorsOnTree(g, v, ow, n);
    TreeInRange(g, v, ow, n);
    ghost var ow';
    st, ow' := Truncate(m, n, size, ow);
    if st == 0 {
      HoldsIsSetContent(g, v, m.vol, ow, ow', n, Content(v.data, v.inodes[n])[..size]);
      OthersCrashSafe(g, v, ow, n, m.history, |old(m.history)|);
    } else {
      NothingShown(g, m.history, Files(v), n);
    }
  }

  lemma TreeInRange(g: Geometry, v: Vol, ow: Owner, n: nat)
    requires Healthy(g, v, ow)
    ensures n in TreeAt(v) ==> n < g.totalInodes
  {
  }

  method ReadFile(m: Mount, n: nat, offset: nat, length: nat) returns (r: int, bytes: seq<byte>)
    requires m.Valid() && WellFormed(m.g, m.vol)
    modifies m`io
    ensures var t := TreeAt(m.vol);
            if FileError(t, m.g.totalInodes, n) != 0 then r == FileError(t, m.g.totalInodes, n)
            else && r == ReadLength(|t[n].content|, offset, length) && |bytes| == r
                 && (r > 0 ==> bytes == t[n].content[offset..offset + r])
  {
    hide Sound, Files, Content, Healthy, Mount.Valid, TreeOf;
    ghost var ow :| Healthy(m.g, m.vol, ow);
    HealthyFacts(m.g, m.vol, ow);
    ErrorsOnTree(m.g, m.vol, ow, n);
    r, bytes := Read(m, n, offset, length, ow);
  }

  /** What a write stored is read back. */
  method WriteReadBack(m: Mount, n: nat, offset: nat, source: seq<byte>) returns (stored: int, bytes: seq<byte>)
    requires m.Valid() && WellFormed(m.g, m.vol)
    modifies m`io, m`aux, m`disk, m`vol, m`history
    ensures m.Valid() && WellFormed(m.g, m.vol)
    ensures stored > 0 ==> stored <= |source| && bytes == source[..stored]
  {
    hide Mount.Valid, WellFormed, TreeAt, CrashSafeSince, OthersShownSince;
    bytes := [];
    stored := WriteFile(m, n, offset, source);
    if stored > 0 {
      var r;
      r, bytes := ReadFile(m, n, offset, stored);
      assert bytes == source[..stored];
    }
  }

  // ---------- whole runs ----------

  datatype Op =
    | OpCreate(path: CString)
    | OpMkdir(path: CString)
    | OpUnlink(path: CString)
    | OpWrite(n: nat, offset: nat, source: seq<byte>)
    | OpTruncate(n: nat, size: nat)

  /** Whatever is asked of a well-formed volume, in whatever order, and whether or not each
      request succeeds: the volume stays well formed, and every disk state on the way is crash safe. */
  method Run(m: Mount, ops: seq<Op>)
    requires m.Valid() && WellFormed(m.g, m.vol)
    modifies m`io, m`aux, m`cmp, m`disk, m`vol, m`history
    ensures m.Valid() && WellFormed(m.g, m.vol)
    ensures old(m.history) <= m.history && CrashSafeSince(m.g, m.history, |old(m.history)|)
  {
    hide WellFormed, Mount.Valid, CrashSafe;
    ghost var h := m.history;
    for i := 0 to |ops|
      invariant m.Valid() && WellFormed(m.g, m.vol)
      invariant h <= m.history && CrashSafeSince(m.g, m.history, |h|)
    {
      ghost var hi := m.history;
      match ops[i]
      case OpCreate(path) => var _, _ := CreateFile(m, path);
      case OpMkdir(path) => var _, _ := MakeDirectory(m, path);
      case OpUnlink(path) => var _ := Unlink(m, path);
      case OpWrite(n, offset, source) => var _ := WriteFile(m, n, offset, source);
      case OpTruncate(n, size) => var _ := TruncateFile(m, n, size);
      CrashSafeOn(m.g, hi, m.history, |h|);
    }
  }

  // ---------- what crash safety means ----------

  lemma {:induction false} SeenAlongPath(g: Geometry, v: Vol, ow: Owner, fs: map<nat, File>, d: nat, names: seq<Name>,
                                         n: nat)
    requires Closed(fs, g.root) && ShowsWith(g, v, ow, fs) && d in fs && Leads(TreeAt(v), d, names, n)
    ensures n in fs
    decreases |names|
  {
    hide Content, DirectoryOK, Entries;
    if names != [] {
      assert Intact(g, v, ow, d);
      assert EntryFine(TreeOf(fs), d, names[0]);
      SeenAlongPath(g, v, ow, fs, TreeAt(v)[d].entries[names[0]].child, names[1..], n);
    }
  }

  /** On a crash-safe volume every entry that a path from the root reaches names an allocated
      inode of the kind the entry says. */
  lemma CrashSafeEntries(g: Geometry, v: Vol, names: seq<Name>, d: nat, name: Name)
    requires CrashSafe(g, v) && Leads(TreeAt(v), g.root, names, d) && HasEntry(TreeAt(v), d, name)
    ensures var l := TreeAt(v)[d].entries[name];
            && Shape(g, v) && l.child < g.totalInodes && v.inodeBits[l.child] && RecordOK(v.inodes[l.child])
            && v.inodes[l.child].mode == l.kind
  {
    hide Content, DirectoryOK, Entries, Leads, SlotBlock, PointersOK, Claimed;
    var fs :| Closed(fs, g.root) && Shows(g, v, fs);
    var ow :| ShowsWith(g, v, ow, fs);
    SeenAlongPath(g, v, ow, fs, g.root, names, d);
    assert Intact(g, v, ow, d);
    assert EntryFine(TreeOf(fs), d, name);
    assert Intact(g, v, ow, TreeAt(v)[d].entries[name].child);
  }

  /** And every non-zero pointer inside the size of a reachable inode refers to an allocated
      block to which no other pointer of a reachable inode refers. */
  lemma CrashSafePointers(g: Geometry, v: Vol, names: seq<Name>, n: nat, k: nat, names': seq<Name>, n': nat, k': nat)
    requires CrashSafe(g, v) && Leads(TreeAt(v), g.root, names, n) && Leads(TreeAt(v), g.root, names', n')
    requires n < |v.inodes| && HasSlot(v.inodes[n], k) && SlotBlock(v.data, v.inodes[n], k) != 0
    requires n' < |v.inodes| && HasSlot(v.inodes[n'], k')
    requires SlotBlock(v.data, v.inodes[n'], k') == SlotBlock(v.data, v.inodes[n], k)
    ensures Allocated(g, v, SlotBlock(v.data, v.inodes[n], k)) && n == n' && k == k'
  {
    hide Content, DirectoryOK, Entries, Leads;
    var fs :| Closed(fs, g.root) && Shows(g, v, fs);
    var ow :| ShowsWith(g, v, ow, fs);
    SeenAlongPath(g, v, ow, fs, g.root, names, n);
    SeenAlongPath(g, v, ow, fs, g.root, names', n');
    assert Intact(g, v, ow, n) && Intact(g, v, ow, n');
  }
}
