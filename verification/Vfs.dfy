/** The open-file table and the descriptors of all processes. */
module Vfs {
  import opened Bytes
  import opened Layout
  import opened Volume
  import opened Directory
  import opened Trees
  import opened FileSystem
  import opened Errno
  import opened Mounted
  import opened FileOps
  import opened DirOps
  import opened PathOps
  import opened Kernel
  import opened Listing

  datatype OpenFile = OpenFile(used: bool, refcount: nat, inode: nat, offset: nat, flags: nat, mode: nat)

  const CLOSED := OpenFile(false, 0, 0, 0, 0, 0)

  // ---------- descriptors and open files ----------

  /** Descriptor `d` of process `p`: 0, or one more than the number of an open file. */
  function Handle(fds: seq<seq<nat>>, p: nat, d: nat): (h: nat) {
    if p < |fds| && d < |fds[p]| then fds[p][d] else 0
  }

  /** What descriptor `d` of process `p` refers to; 0 if it is not a file descriptor in use. */
  function Fd(fds: seq<seq<nat>>, p: nat, d: int): (h: nat) { if d < 3 then 0 else Handle(fds, p, d) }

  /** The lowest free descriptor from `d` on; 16 if there is none. */
  function FirstFreeFd(row: seq<nat>, d: nat): (e: nat)
    requires d <= 16 == |row|
    ensures d <= e <= 16 && (e < 16 ==> row[e] == 0) && forall x :: d <= x < e ==> row[x] != 0
    decreases 16 - d
  {
    if d == 16 || row[d] == 0 then d else FirstFreeFd(row, d + 1)
  }

  ghost predicate Shaped(files: seq<OpenFile>, fds: seq<seq<nat>>) {
    |files| == 32 && |fds| == 16 && forall p :: 0 <= p < 16 ==> |fds[p]| == 16
  }

  ghost predicate FileFine(files: seq<OpenFile>, fds: seq<seq<nat>>, i: nat)
    requires i < |files|
  {
    if files[i].used then files[i].refcount == 1 && exists p: nat, d: nat :: Handle(fds, p, d) == i + 1
    else files[i] == CLOSED
  }

  ghost predicate HandleFine(files: seq<OpenFile>, fds: seq<seq<nat>>, p: nat, d: nat) {
    Handle(fds, p, d) != 0 ==> d >= 3 && Handle(fds, p, d) <= |files| && files[Handle(fds, p, d) - 1].used
  }

  /** Used slots of the file table and non-zero descriptors correspond one to one. */
  ghost predicate Linked(files: seq<OpenFile>, fds: seq<seq<nat>>) {
    && Shaped(files, fds)
    && (forall i {:trigger FileFine(files, fds, i)} :: 0 <= i < 32 ==> FileFine(files, fds, i))
    && (forall p: nat, d: nat {:trigger HandleFine(files, fds, p, d)} :: HandleFine(files, fds, p, d))
    && (forall p: nat, d: nat, q: nat, e: nat {:trigger Handle(fds, p, d), Handle(fds, q, e)} ::
          Handle(fds, p, d) == Handle(fds, q, e) != 0 ==> p == q && d == e)
  }

  function SetHandle(fds: seq<seq<nat>>, p: nat, d: nat, h: nat): (r: seq<seq<nat>>)
    requires p < |fds| && d < |fds[p]|
    ensures forall q: nat, e: nat :: Handle(r, q, e) == if q == p && e == d then h else Handle(fds, q, e)
  {
    var row: seq<nat> := fds[p];
    fds[p := row[d := h]]
  }

  lemma InstallKeeps(files: seq<OpenFile>, fds: seq<seq<nat>>, i: nat, p: nat, d: nat, f: OpenFile)
    requires Linked(files, fds) && i < 32 && !files[i].used && p < 16 && 3 <= d < 16 && fds[p][d] == 0 && f.used
    requires f.refcount == 1
    ensures Linked(files[i := f], SetHandle(fds, p, d, i + 1))
  {
    hide Handle;
    var gs, r := files[i := f], SetHandle(fds, p, d, i + 1);
    assert Handle(fds, p, d) == 0 by { HandleIs(fds, p, d); }
    forall q: nat, e: nat
      ensures HandleFine(gs, r, q, e) && Handle(fds, q, e) != i + 1 { assert HandleFine(files, fds, q, e); }
    forall j | 0 <= j < 32 ensures FileFine(gs, r, j) {
      assert FileFine(files, fds, j);
      if j == i {
        assert Handle(r, p, d) == j + 1;
      } else if files[j].used {
        var q: nat, e: nat :| Handle(fds, q, e) == j + 1;
        assert Handle(r, q, e) == j + 1;
      }
    }
  }

  lemma HandleIs(fds: seq<seq<nat>>, p: nat, d: nat)
    requires p < |fds| && d < |fds[p]|
    ensures Handle(fds, p, d) == fds[p][d]
  {
  }

  lemma RemoveKeeps(files: seq<OpenFile>, fds: seq<seq<nat>>, p: nat, d: nat)
    requires Linked(files, fds) && p < 16 && d < 16 && fds[p][d] != 0
    ensures fds[p][d] <= 32 && files[fds[p][d] - 1].used && files[fds[p][d] - 1].refcount == 1
    ensures Linked(files[fds[p][d] - 1 := CLOSED], SetHandle(fds, p, d, 0))
  {
    hide Handle;
    HandleIs(fds, p, d);
    assert HandleFine(files, fds, p, d);
    var i := fds[p][d] - 1;
    assert FileFine(files, fds, i);
    var gs, r := files[i := CLOSED], SetHandle(fds, p, d, 0);
    forall q: nat, e: nat ensures HandleFine(gs, r, q, e) { assert HandleFine(files, fds, q, e); }
    forall j | 0 <= j < 32 ensures FileFine(gs, r, j) {
      assert FileFine(files, fds, j);
      if j != i && files[j].used {
        var q: nat, e: nat :| Handle(fds, q, e) == j + 1;
        assert Handle(r, q, e) == j + 1;
      }
    }
  }

  lemma UpdateKeeps(files: seq<OpenFile>, fds: seq<seq<nat>>, i: nat, f: OpenFile)
    requires Linked(files, fds) && i < 32 && files[i].used && f.used && f.refcount == 1
    ensures Linked(files[i := f], fds)
  {
    hide Handle;
    var gs := files[i := f];
    forall q: nat, e: nat ensures HandleFine(gs, fds, q, e) { assert HandleFine(files, fds, q, e); }
    forall j | 0 <= j < 32 ensures FileFine(gs, fds, j) { assert FileFine(files, fds, j); }
  }

  // ---------- open files and the tree ----------

  ghost predicate InodeOpen(t: Tree, f: OpenFile) { f.used ==> f.inode in t && f.mode == Kind(t[f.inode]) }

  /** Every open file's inode is allocated. */
  ghost predicate InodesOpen(t: Tree, files: seq<OpenFile>) {
    forall i :: 0 <= i < |files| ==> InodeOpen(t, files[i])
  }

  /** `t'` has every inode of `t`, of the same kind, except perhaps `gone`. */
  ghost predicate KeepsNodes(t: Tree, t': Tree, gone: set<nat>) {
    forall n :: n in t && n !in gone ==> n in t' && Kind(t'[n]) == Kind(t[n])
  }

  lemma StillOpen(t: Tree, t': Tree, files: seq<OpenFile>, gone: set<nat>)
    requires InodesOpen(t, files) && KeepsNodes(t, t', gone) && forall i :: 0 <= i < |files| && files[i].used ==>
        files[i].inode !in gone
    ensures InodesOpen(t', files)
  {
    forall i | 0 <= i < |files| ensures InodeOpen(t', files[i]) { assert InodeOpen(t, files[i]); }
  }

  lemma CreateKeepsNodes(g: Geometry, v: Vol, w: Vol, path: CString, st: int, n: nat)
    requires CreateSpec(g, v, w, path, st, n)
    ensures KeepsNodes(TreeAt(v), TreeAt(w), {}) && (st == 0 ==> n in TreeAt(w) && TreeAt(w)[n] == Regular(1, []))
  {
    hide TreeOf, Files;
    ParentErrors(TreeAt(v), g.root, path);
  }

  lemma MkdirKeepsNodes(g: Geometry, v: Vol, w: Vol, path: CString, st: int, n: nat)
    requires MkdirSpec(g, v, w, path, st, n)
    ensures KeepsNodes(TreeAt(v), TreeAt(w), {})
  {
    hide TreeOf, Files, MkdirFate;
  }

  lemma {:induction false} WalkErrors(t: Tree, cur: nat, cs: seq<CString>)
    requires cs != []
    ensures WalkToParent(t, cur, cs).Nowhere? ==> WalkToParent(t, cur, cs).st < 0
    decreases |cs|
  {
    if |cs| > 1 && cur in t && t[cur].Folder? {
      if cs[0] == DOT {
        WalkErrors(t, cur, cs[1..]);
      } else if cs[0] in t[cur].entries {
        WalkErrors(t, t[cur].entries[cs[0]].child, cs[1..]);
      }
    }
  }

  lemma ParentErrors(t: Tree, root: nat, path: CString)
    ensures Parent(t, root, path).Nowhere? ==> Parent(t, root, path).st < 0
  {
    if Components(path) != [] { WalkErrors(t, root, Components(path)); }
  }

  /** Unlinking removes the inode that looking the path up finds, and no other. */
  lemma UnlinkKeepsNodes(g: Geometry, v: Vol, w: Vol, path: CString, st: int, n: nat)
    requires UnlinkSpec(g, v, w, path, st) && Lookup(TreeAt(v), g.root, path) == Found(n)
    ensures KeepsNodes(TreeAt(v), TreeAt(w), {n})
  {
    hide TreeOf, Files;
    var t := TreeAt(v);
    if Parent(t, g.root, path).At? { WalkThroughParent(t, g.root, Components(path)); }
  }

  // ---------- flags ----------

  function Access(flags: nat): (a: nat) { flags % 4 }

  predicate WantsCreate(flags: nat) { flags / 256 % 2 == 1 }

  predicate WantsTruncate(flags: nat) { flags / 512 % 2 == 1 }

  predicate FlagsValid(flags: nat) {
    flags < 1024 && flags % 256 < 4 && Access(flags) <= 2 && (WantsTruncate(flags) ==> Access(flags) != 0)
  }

  // The same by the values that flags may have: 0 to 2 ask for reading, writing or both, 0x100 more
  // asks for a new file if there is none, and 0x200 more for an empty one.

  ghost predicate Allowed(flags: nat) {
    flags in {0, 1, 2, 0x100, 0x101, 0x102, 0x201, 0x202, 0x301, 0x302}
  }

  ghost predicate Creates(flags: nat) { flags in {0x100, 0x101, 0x102, 0x301, 0x302} }

  ghost predicate Empties(flags: nat) { flags in {0x201, 0x202, 0x301, 0x302} }

  lemma FlagValues(flags: nat)
    ensures FlagsValid(flags) <==> Allowed(flags)
    ensures Allowed(flags) ==>
              && (WantsCreate(flags) <==> Creates(flags)) && (Creates(flags) <==> flags / 0x100 % 2 == 1)
              && (WantsTruncate(flags) <==> Empties(flags))
              && (Access(flags) != 0 || WantsTruncate(flags) <==> flags !in {0, 0x100})
  {
    if FlagsValid(flags) { assert flags == 256 * (flags / 256) + flags % 256 && flags / 256 < 4; }
  }

  class FileTable {
    const m: Mount
    var table: seq<OpenFile>
    var fds: seq<seq<nat>>
    var current: nat

    ghost predicate Valid()
      reads this, m
    {
      && m.Valid() && WellFormed(m.g, m.vol) && current < 16
      && Linked(table, fds) && InodesOpen(TreeAt(m.vol), table)
    }

    /** No file is open when the file system is mounted. */
    constructor (m: Mount, current: nat)
      requires m.Valid() && WellFormed(m.g, m.vol) && current < 16
      ensures Valid() && this.m == m && this.current == current
    {
      this.m, this.current := m, current;
      table, fds := seq(32, _ => CLOSED), seq(16, _ => seq(16, _ => 0));
      new;
      forall p: nat, d: nat ensures Handle(fds, p, d) == 0 { }
      forall i | 0 <= i < 32 ensures FileFine(table, fds, i) { }
    }

    // ---------- descriptors ----------

    method AllocateFile() returns (i: nat)
      requires Shaped(table, fds)
      ensures i <= 32 && (i < 32 ==> !table[i].used) && forall j :: 0 <= j < i ==> table[j].used
    {
      i := 0;
      while i < 32 && table[i].used
        invariant i <= 32 && forall j :: 0 <= j < i ==> table[j].used
      {
        i := i + 1;
      }
    }

    method FreeDescriptor() returns (d: nat)
      requires Shaped(table, fds) && current < 16
      ensures d == FirstFreeFd(fds[current], 3)
    {
      d := 3;
      while d < 16 && fds[current][d] != 0
        invariant 3 <= d <= 16 && FirstFreeFd(fds[current], 3) == FirstFreeFd(fds[current], d)
      {
        d := d + 1;
      }
    }

    /** The open file behind a descriptor of the current process; 32 if it has none. */
    method FileOf(descriptor: int) returns (i: nat)
      requires Valid()
      ensures if Fd(fds, current, descriptor) != 0
              then i < 32 && i + 1 == Fd(fds, current, descriptor) && table[i].used
                && InodeOpen(TreeAt(m.vol), table[i]) && table[i].refcount == 1
              else i == 32
    {
      hide Mount.Valid, WellFormed, TreeAt;
      if descriptor < 3 || descriptor >= 16 {
        return 32;
      }
      var handle := fds[current][descriptor];
      if handle == 0 {
        return 32;
      }
      HandleIs(fds, current, descriptor);
      assert HandleFine(table, fds, current, descriptor);
      assert FileFine(table, fds, handle - 1);
      return handle - 1;
    }

    method Close(descriptor: int) returns (result: int)
      requires Valid()
      modifies `table, `fds
      ensures Valid()
      ensures var h := Fd(old(fds), current, descriptor);
              if h != 0 then
                && result == 0 && 0 < descriptor < |old(fds)[current]|
                   && fds == SetHandle(old(fds), current, descriptor, 0)
                && h <= 32 && table == old(table)[h - 1 := OpenFile(false, 0, 0, 0, 0, 0)]
              else result == EBADF && table == old(table) && fds == old(fds)
    {
      hide Mount.Valid, WellFormed, TreeAt, Linked;
      assert Shaped(table, fds) by { LinkedShaped(table, fds); }
      var i := FileOf(descriptor);
      if i == 32 {
        return EBADF;
      }
      RemoveKeeps(table, fds, current, descriptor);
      StillOpenBut(TreeAt(m.vol), table, i);
      fds := SetHandle(fds, current, descriptor, 0);
      table := table[i := CLOSED];
      result := 0;
    }

    /** What happens to descriptors when a process exits. */
    method CloseAllCurrent()
      requires Valid()
      modifies `table, `fds
      ensures Valid() && forall d: nat :: Handle(fds, current, d) == 0
      ensures forall p: nat, d: nat :: p != current ==> Handle(fds, p, d) == Handle(old(fds), p, d)
    {
      hide Mount.Valid, WellFormed, TreeAt, Linked;
      for d := 3 to 16
        invariant Valid() && (forall e: nat :: 3 <= e < d ==> Handle(fds, current, e) == 0)
        invariant forall p: nat, e: nat :: p != current ==> Handle(fds, p, e) == Handle(old(fds), p, e)
      {
        LinkedShaped(table, fds);
        HandleIs(fds, current, d);
        if fds[current][d] != 0 {
          var result := Close(d);
        }
      }
      forall d: nat ensures Handle(fds, current, d) == 0 { NoLowHandle(table, fds, current, d); }
    }

    // ---------- files ----------

    method LookupFile(path: CString) returns (st: int, n: nat, mode: nat)
      requires m.Valid() && WellFormed(m.g, m.vol)
      modifies m`io
      ensures st <= 0 && Lookup(TreeAt(m.vol), m.g.root, path) == if st == 0 then Found(n) else Failed(st)
      ensures st == 0 ==> n in TreeAt(m.vol) && mode == Kind(TreeAt(m.vol)[n])
    {
      hide Healthy, Mount.Valid, Mountable, TreeOf, Lookup, Volume.Files;
      ghost var ow :| Healthy(m.g, m.vol, ow);
      HealthyFacts(m.g, m.vol, ow);
      var inode;
      st, n, inode := LookupPath(m, path, ow);
      ErrorsOnTree(m.g, m.vol, ow, n);
      mode := inode.mode;
    }

    /** The inode that opening a path yields: an existing one, a new one, or an error. */
    method FindOrCreate(path: CString, flags: nat) returns (st: int, n: nat, mode: nat)
      requires m.Valid() && WellFormed(m.g, m.vol)
      modifies m`io, m`aux, m`disk, m`vol, m`history
      ensures m.Valid() && WellFormed(m.g, m.vol) && KeepsNodes(TreeAt(old(m.vol)), TreeAt(m.vol), {})
      ensures st <= 0 && (st == 0 ==> n in TreeAt(m.vol) && mode == Kind(TreeAt(m.vol)[n]))
      ensures var o := Lookup(TreeAt(old(m.vol)), m.g.root, path);
              if o.Found? || o.st != ENOENT || flags / 0x100 % 2 == 0
              then m.vol == old(m.vol) && (o == if st == 0 then Found(n) else Failed(st))
              else CreateSpec(m.g, old(m.vol), m.vol, path, st, n)
    {
      hide WellFormed, Mount.Valid, TreeAt, Lookup, CreateSpec;
      st, n, mode := LookupFile(path);
      if st == ENOENT && WantsCreate(flags) {
        ghost var v := m.vol;
        st, n := CreateFile(m, path);
        CreateKeepsNodes(m.g, v, m.vol, path, st, n);
        CreateStatus(m.g, v, m.vol, path, st, n);
        mode := 1;
      }
    }

    method Open(path: CString, flags: nat) returns (result: int)
      requires Valid()
      modifies this, m
      ensures Valid() && current == old(current) && KeepsNodes(TreeAt(old(m.vol)), TreeAt(m.vol), {})
      ensures OpenSpec(m.g, old(m.vol), m.vol, old(table), table, old(fds), fds, current, path, flags, result)
    {
      hide WellFormed, Mount.Valid, TreeAt, Linked, InodesOpen, FlagsValid, Lookup, CreateSpec, TruncateSpec,
           KeepsNodes, Settled, FirstFreeFd, WantsTruncate, WantsCreate, Access, Located, SetHandle, Allowed, Creates,
           Empties;
      FlagValues(flags);
      KeepsAll(TreeAt(m.vol));
      if !FlagsValid(flags) {
        return EINVAL;
      }
      LinkedShaped(table, fds);
      var i := AllocateFile();
      if i == 32 {
        return ENFILE;
      }
      ghost var t0, v1 := TreeAt(m.vol), m.vol;
      var st, n, mode := FindOrCreate(path, flags);
      NothingGone(t0, TreeAt(m.vol), table);
      if st < 0 {
        FailedOpen(m.g, v1, m.vol, table, fds, current, path, flags, st, n);
        return st;
      }
      ghost var w := m.vol;
      if mode == MODE_DIRECTORY && (Access(flags) != 0 || WantsTruncate(flags)) {
        NotOpened(w, m.vol, table, fds, current, n, flags, EISDIR);
        OpenedStep(m.g, v1, w, m.vol, table, table, fds, fds, current, path, flags, n, EISDIR);
        return EISDIR;
      }
      if WantsTruncate(flags) {
        st := TruncateFile(m, n, 0);
        TruncateKeepsNodes(m.g, w, m.vol, n, 0, st);
        TruncateWorks(m.g, w, m.vol, n, st);
        NothingGone(TreeAt(w), TreeAt(m.vol), table);
        KeepsBoth(t0, TreeAt(w), TreeAt(m.vol));
        NodeKept(TreeAt(w), TreeAt(m.vol), n);
        if st < 0 {
          assert false;  // truncating to nothing cannot fail
        }
      }
      var d := FreeDescriptor();
      if d == 16 {
        NotOpened(w, m.vol, table, fds, current, n, flags, EMFILE);
        OpenedStep(m.g, v1, w, m.vol, table, table, fds, fds, current, path, flags, n, EMFILE);
        return EMFILE;
      }
      var f := OpenFile(true, 1, n, 0, flags, mode);
      InstallKeeps(table, fds, i, current, d, f);
      OneMoreOpen(TreeAt(m.vol), table, i, f);
      ghost var files0, fds0 := table, fds;
      table, fds := table[i := f], SetHandle(fds, current, d, i + 1);
      NowOpened(w, m.vol, files0, table, fds0, fds, current, n, flags, i);
      OpenedStep(m.g, v1, w, m.vol, files0, table, fds0, fds, current, path, flags, n, d);
      result := d;
    }

    method ReadFd(descriptor: int, length: nat) returns (result: int, bytes: seq<byte>)
      requires Valid()
      modifies `table, m`io
      ensures Valid()
      ensures var h := Fd(fds, current, descriptor);
              if h == 0 then result == EBADF && table == old(table)
              else
                && h <= 32 && h <= |old(table)|
                && var f := old(table)[h - 1]; var t := TreeAt(m.vol);
                   if f.flags % 4 == 1 then result == EBADF && table == old(table)
                   else if f.mode == MODE_DIRECTORY then result == EISDIR && table == old(table)
                   else
                     && f.inode in t && t[f.inode].Regular?
                     && result == ReadLength(|t[f.inode].content|, f.offset, length) && |bytes| == result
                     && (result > 0 ==> bytes == t[f.inode].content[f.offset..f.offset + result])
                     && table == old(table)[h - 1 := f.(offset := f.offset + result)]
    {
      hide WellFormed, Mount.Valid, TreeAt, Linked;
      LinkedShaped(table, fds);
      bytes := [];
      var i := FileOf(descriptor);
      if i == 32 || Access(table[i].flags) == 1 {
        return EBADF, [];
      }
      if table[i].mode == MODE_DIRECTORY {
        return EISDIR, [];
      }
      OpenInRange(m.g, m.vol, table[i].inode);
      result, bytes := ReadFile(m, table[i].inode, table[i].offset, length);
      if result > 0 {
        UpdateKeeps(table, fds, i, table[i].(offset := table[i].offset + result));
        OneMoreOpen(TreeAt(m.vol), table, i, table[i].(offset := table[i].offset + result));
        table := table[i := table[i].(offset := table[i].offset + result)];
      }
    }

    method WriteFd(descriptor: int, source: seq<byte>) returns (result: int)
      requires Valid()
      modifies `table, m
      ensures Valid() && KeepsNodes(TreeAt(old(m.vol)), TreeAt(m.vol), {})
      ensures var h := Fd(fds, current, descriptor);
              if h == 0 then result == EBADF && table == old(table) && m.vol == old(m.vol)
              else
                && h <= 32 && h <= |old(table)|
                && var f := old(table)[h - 1];
                   if f.flags % 4 == 0 then result == EBADF && table == old(table) && m.vol == old(m.vol)
                   else if f.mode == MODE_DIRECTORY then result == EISDIR && table == old(table) && m.vol == old(m.vol)
                   else
                     && WriteSpec(m.g, old(m.vol), m.vol, f.inode, f.offset, source, result)
                     && table == old(table)[h - 1 := f.(offset := f.offset + (if result > 0 then result else 0))]
    {
      hide WellFormed, Mount.Valid, TreeAt, Linked, WriteSpec, KeepsNodes;
      LinkedShaped(table, fds);
      KeepsAll(TreeAt(m.vol));
      var i := FileOf(descriptor);
      if i == 32 || Access(table[i].flags) == 0 {
        return EBADF;
      }
      if table[i].mode == MODE_DIRECTORY {
        return EISDIR;
      }
      ghost var v := m.vol;
      result := WriteFile(m, table[i].inode, table[i].offset, source);
      WriteKeepsNodes(m.g, v, m.vol, table[i].inode, table[i].offset, source, result);
      NothingGone(TreeAt(v), TreeAt(m.vol), table);
      assert InodeOpen(TreeAt(m.vol), table[i]);
      if result > 0 {
        UpdateKeeps(table, fds, i, table[i].(offset := table[i].offset + result));
        OneMoreOpen(TreeAt(m.vol), table, i, table[i].(offset := table[i].offset + result));
        table := table[i := table[i].(offset := table[i].offset + result)];
      }
    }

    /** Moves the offset; the size of the file is only looked at when seeking from its end. */
    method Seek(descriptor: int, offset: int, whence: int) returns (result: int)
      requires Valid() && -0x8000_0000 <= offset < 0x8000_0000
      modifies `table, m`io
      ensures Valid()
      ensures var h := Fd(fds, current, descriptor);
              if h == 0 then result == EBADF && table == old(table)
              else
                && h <= 32 && h <= |old(table)|
                && var f := old(table)[h - 1];
                   && f.inode < |m.vol.inodes|
                   && var target := offset + (if whence == 0 then 0 else if whence == 1 then f.offset
                      else m.vol.inodes[f.inode].size);
                      if 0 <= whence <= 2 && 0 <= target < 0x8000_0000
                      then result == target && table == old(table)[h - 1 := f.(offset := target)]
                      else result == EINVAL && table == old(table)
    {
      hide WellFormed, Mount.Valid, TreeAt, Linked;
      LinkedShaped(table, fds);
      var i := FileOf(descriptor);
      if i == 32 {
        return EBADF;
      }
      OpenInRange(m.g, m.vol, table[i].inode);
      var base := 0;
      if whence == 1 {
        base := table[i].offset;
      } else if whence == 2 {
        base := SizeOf(table[i].inode);
      } else if whence != 0 {
        return EINVAL;
      }
      var target := base + offset;
      if target < 0 || target > 0x7FFF_FFFF {
        return EINVAL;
      }
      UpdateKeeps(table, fds, i, table[i].(offset := target));
      OneMoreOpen(TreeAt(m.vol), table, i, table[i].(offset := target));
      table := table[i := table[i].(offset := target)];
      result := target;
    }

    method SizeOf(n: nat) returns (size: nat)
      requires m.Valid() && WellFormed(m.g, m.vol) && n in TreeAt(m.vol)
      modifies m`io
      ensures n < |m.vol.inodes| && size == m.vol.inodes[n].size
    {
      hide Healthy, Mount.Valid, TreeOf, Volume.Files;
      ghost var ow :| Healthy(m.g, m.vol, ow);
      HealthyFacts(m.g, m.vol, ow);
      ErrorsOnTree(m.g, m.vol, ow, n);
      TreeInRange(m.g, m.vol, ow, n);
      var st, inode := m.ReadInode(n);
      size := inode.size;
    }

    /** Refuses to unlink an open file, so that open files keep their inodes. */
    method UnlinkPath(path: CString) returns (result: int)
      requires Valid()
      modifies m
      ensures Valid()
      ensures var o := Lookup(TreeAt(old(m.vol)), m.g.root, path);
              if o.Failed? then result == o.st && m.vol == old(m.vol)
              else if exists i :: 0 <= i < 32 && table[i].used && table[i].inode == o.n
                   then result == EBUSY && m.vol == old(m.vol)
              else UnlinkSpec(m.g, old(m.vol), m.vol, path, result)
    {
      hide WellFormed, Mount.Valid, TreeAt, Linked, Lookup, UnlinkSpec, InodesOpen;
      LinkedShaped(table, fds);
      var n, mode;
      result, n, mode := LookupFile(path);
      if result < 0 {
        return;
      }
      for index := 0 to 32
        invariant Valid() && m.vol == old(m.vol) && forall i :: 0 <= i < index ==>
            !(table[i].used && table[i].inode == n)
      {
        if table[index].used && table[index].inode == n {
          return EBUSY;
        }
      }
      ghost var v := m.vol;
      result := Unlink(m, path);
      UnlinkKeepsNodes(m.g, v, m.vol, path, result, n);
      StillOpen(TreeAt(v), TreeAt(m.vol), table, {n});
    }

    method MakeDirectoryAt(path: CString) returns (result: int, ghost n: nat)
      requires Valid()
      modifies m
      ensures Valid() && MkdirSpec(m.g, old(m.vol), m.vol, path, result, n)
    {
      hide WellFormed, Mount.Valid, TreeAt, Linked, InodesOpen, MkdirSpec;
      ghost var v := m.vol;
      result, n := MakeDirectory(m, path);
      MkdirKeepsNodes(m.g, v, m.vol, path, result, n);
      NothingGone(TreeAt(v), TreeAt(m.vol), table);
    }

    /** Reads the next entry of an open directory and moves the offset behind it. */
    method ReadDirFd(descriptor: int) returns (result: int, name: Name, child: nat, mode: nat)
      requires Valid()
      modifies `table, m`io
      ensures Valid()
      ensures var h := Fd(fds, current, descriptor);
              if h == 0 then result == EBADF && table == old(table)
              else
                && h <= 32 && h <= |table| == |old(table)|
                && var f := old(table)[h - 1];
                   if f.flags % 4 == 1 then result == EBADF && table == old(table)
                   else if f.mode != MODE_DIRECTORY then result == ENOTDIR && table == old(table)
                   else && ReadDirSpec(m.g, m.vol, f.inode, f.offset, result, table[h - 1].offset, name, child, mode)
                        && table == old(table)[h - 1 := f.(offset := table[h - 1].offset)]
    {
      hide WellFormed, Mount.Valid, TreeAt, Linked, ReadDirSpec;
      LinkedShaped(table, fds);
      name, child, mode := [], 0, 0;
      var i := FileOf(descriptor);
      if i == 32 || Access(table[i].flags) == 1 {
        return EBADF, [], 0, 0;
      }
      if table[i].mode != MODE_DIRECTORY {
        return ENOTDIR, [], 0, 0;
      }
      var offset;
      result, offset, name, child, mode := ReadDirectory(m, table[i].inode, table[i].offset);
      UpdateKeeps(table, fds, i, table[i].(offset := offset));
      OneMoreOpen(TreeAt(m.vol), table, i, table[i].(offset := offset));
      table := table[i := table[i].(offset := offset)];
    }

    // ---------- whole runs ----------

    /** Whatever the processes call, in whatever order: between calls the open files and the
        descriptors correspond one to one, every open file has its inode, and the volume is well formed. */
    method Run(calls: seq<(nat, Call)>)
      requires Valid() && forall k :: 0 <= k < |calls| ==> calls[k].0 < 16
      modifies this, m
      ensures Valid()
    {
      hide WellFormed, Mount.Valid, TreeAt, Linked, InodesOpen;
      for k := 0 to |calls|
        invariant Valid()
      {
        current := calls[k].0;
        Perform(calls[k].1);
      }
    }

    method Perform(call: Call)
      requires Valid()
      modifies this, m
      ensures Valid() && current == old(current)
      ensures call.CallExit? ==> forall d: nat :: Handle(fds, current, d) == 0
    {
      hide WellFormed, Mount.Valid, TreeAt, Linked, InodesOpen, WriteSpec, UnlinkSpec, MkdirSpec, KeepsNodes, OpenSpec,
           ReadDirSpec, Lookup;
      LinkedShaped(table, fds);
      match call
      case CallOpen(path, flags) => var _ := Open(path, flags);
      case CallClose(d) => var _ := Close(d);
      case CallRead(d, length) => var _, _ := ReadFd(d, length);
      case CallWrite(d, source) => var _ := WriteFd(d, source);
      case CallSeek(d, offset, whence) => if -0x8000_0000 <= offset < 0x8000_0000 { var _ := Seek(d, offset, whence); }
      case CallUnlink(path) => var _ := UnlinkPath(path);
      case CallMkdir(path) => var _, _ := MakeDirectoryAt(path);
      case CallReadDir(d) => var _, _, _, _ := ReadDirFd(d);
      case CallStat(path) => var _, _, _ := LookupFile(path);
      case CallExit => CloseAllCurrent();
    }
  }

  datatype Call =
    | CallOpen(path: CString, flags: nat)
    | CallClose(d: int)
    | CallRead(d: int, length: nat)
    | CallWrite(d: int, source: seq<byte>)
    | CallSeek(d: int, offset: int, whence: int)
    | CallUnlink(path: CString)
    | CallMkdir(path: CString)
    | CallReadDir(d: int)
    | CallStat(path: CString)
    | CallExit

  // ---------- what open does ----------

  predicate AllUsed(files: seq<OpenFile>) { forall i :: 0 <= i < |files| ==> files[i].used }

  /** The path leads to inode `n`, perhaps a new one; `w` is the volume then. */
  ghost predicate Located(g: Geometry, v: Vol, w: Vol, path: CString, st: int, n: nat) {
    var o := Lookup(TreeAt(v), g.root, path);
    if o.Found? then w == v && st == 0 && n == o.n else CreateSpec(g, v, w, path, st, n)
  }

  /** Inode `n` of `w` is opened, and truncated if asked for. */
  ghost predicate Settled(w: Vol, v': Vol, files: seq<OpenFile>, files': seq<OpenFile>, fds: seq<seq<nat>>,
                          fds': seq<seq<nat>>,
                          p: nat, n: nat, flags: nat, result: int) {
    && Shaped(files, fds) && p < 16 && n in TreeAt(w)
    && var t, d := TreeAt(w), FirstFreeFd(fds[p], 3);
       if t[n].Folder? && flags !in {0, 0x100}
       then result == EISDIR && v' == w && files' == files && fds' == fds
       else
         && (if Empties(flags) then TreeAt(v') == SetContent(t, n, []) else v' == w)
         && if d == 16 then result == EMFILE && files' == files && fds' == fds
            else
              && result == d
              && exists i: nat ::
                   && OpenedAt(files, fds, files', fds', p, d, i)
                   && files'[i] == OpenFile(true, 1, n, 0, flags, Kind(t[n]))
  }

  /** All outcomes of opening a path. */
  ghost predicate OpenSpec(g: Geometry, v: Vol, v': Vol, files: seq<OpenFile>, files': seq<OpenFile>,
                           fds: seq<seq<nat>>,
                           fds': seq<seq<nat>>, p: nat, path: CString, flags: nat, result: int) {
    var same := v' == v && files' == files && fds' == fds;
    if !Allowed(flags) then result == EINVAL && same
    else if AllUsed(files) then result == ENFILE && same
    else
      var o := Lookup(TreeAt(v), g.root, path);
      if o.Failed? && (o.st != ENOENT || !Creates(flags)) then result == o.st && same
      else exists w, st, n {:trigger Located(g, v, w, path, st, n)} ::
             && Located(g, v, w, path, st, n)
             && if st < 0 then result == st && v' == w && files' == files && fds' == fds
                else Settled(w, v', files, files', fds, fds', p, n, flags, result)
  }

  lemma OpenedStep(g: Geometry, v: Vol, w: Vol, v': Vol, files: seq<OpenFile>, files': seq<OpenFile>,
                   fds: seq<seq<nat>>,
                   fds': seq<seq<nat>>, p: nat, path: CString, flags: nat, n: nat, result: int)
    requires Allowed(flags) && !AllUsed(files)
    requires var o := Lookup(TreeAt(v), g.root, path);
             if o.Found? || o.st != ENOENT || !Creates(flags) then w == v && o == Found(n)
             else CreateSpec(g, v, w, path, 0, n)
    requires Settled(w, v', files, files', fds, fds', p, n, flags, result)
    ensures OpenSpec(g, v, v', files, files', fds, fds', p, path, flags, result)
  {
    hide Lookup, CreateSpec, TreeAt, Settled;
    assert Located(g, v, w, path, 0, n);
  }

  lemma FailedOpen(g: Geometry, v: Vol, w: Vol, files: seq<OpenFile>, fds: seq<seq<nat>>, p: nat, path: CString,
                   flags: nat, st: int, n: nat)
    requires Allowed(flags) && !AllUsed(files) && st < 0
    requires var o := Lookup(TreeAt(v), g.root, path);
             if o.Found? || o.st != ENOENT || !Creates(flags) then w == v && o == Failed(st)
             else CreateSpec(g, v, w, path, st, n)
    ensures OpenSpec(g, v, w, files, files, fds, fds, p, path, flags, st)
  {
    hide Lookup, CreateSpec, TreeAt, Settled;
    var o := Lookup(TreeAt(v), g.root, path);
    if o.Failed? && o.st == ENOENT && Creates(flags) { assert Located(g, v, w, path, st, n); }
  }

  lemma NotOpened(w: Vol, v': Vol, files: seq<OpenFile>, fds: seq<seq<nat>>, p: nat, n: nat, flags: nat, result: int)
    requires Shaped(files, fds) && p < 16 && n in TreeAt(w)
    requires var folder := TreeAt(w)[n].Folder? && flags !in {0, 0x100};
             if folder then result == EISDIR && v' == w
             else && result == EMFILE && FirstFreeFd(fds[p], 3) == 16
                  && if Empties(flags) then TreeAt(v') == SetContent(TreeAt(w), n, []) else v' == w
    ensures Settled(w, v', files, files, fds, fds, p, n, flags, result)
  {
    hide TreeAt;
  }

  lemma NowOpened(w: Vol, v': Vol, files: seq<OpenFile>, files': seq<OpenFile>, fds: seq<seq<nat>>, fds': seq<seq<nat>>,
                  p: nat, n: nat, flags: nat, i: nat)
    requires Shaped(files, fds) && p < 16 && n in TreeAt(w) && i < 32 && !files[i].used
    requires !(TreeAt(w)[n].Folder? && flags !in {0, 0x100})
    requires if Empties(flags) then TreeAt(v') == SetContent(TreeAt(w), n, []) else v' == w
    requires FirstFreeFd(fds[p], 3) < 16 && files' == files[i := OpenFile(true, 1, n, 0, flags, Kind(TreeAt(w)[n]))]
    requires fds' == SetHandle(fds, p, FirstFreeFd(fds[p], 3), i + 1)
    ensures Settled(w, v', files, files', fds, fds', p, n, flags, FirstFreeFd(fds[p], 3))
  {
    hide TreeAt;
    assert OpenedAt(files, fds, files', fds', p, FirstFreeFd(fds[p], 3), i);
  }

  /** Truncating a file to nothing always works. */
  lemma TruncateWorks(g: Geometry, v: Vol, w: Vol, n: nat, st: int)
    requires TruncateSpec(g, v, w, n, 0, st) && n in TreeAt(v) && !TreeAt(v)[n].Folder?
    ensures st == 0 && TreeAt(w) == SetContent(TreeAt(v), n, [])
  {
    hide TreeAt;
    assert TreeAt(v)[n].content[..0] == [];
  }

  lemma OpenInRange(g: Geometry, v: Vol, n: nat)
    requires WellFormed(g, v) && n in TreeAt(v)
    ensures n < g.totalInodes && n < |v.inodes|
  {
    hide Healthy, TreeOf, Volume.Files;
    var ow :| Healthy(g, v, ow);
    ErrorsOnTree(g, v, ow, n);
    TreeInRange(g, v, ow, n);
  }

  /** Process `p` got descriptor `d` for the file in slot `i`, which was free. */
  ghost predicate OpenedAt(files: seq<OpenFile>, fds: seq<seq<nat>>, files': seq<OpenFile>, fds': seq<seq<nat>>, p: nat,
                           d: nat, i: nat) {
    && i < |files| == |files'| && !files[i].used && files'[i].used && p < |fds| && d < |fds[p]|
    && files' == files[i := files'[i]] && fds' == SetHandle(fds, p, d, i + 1)
  }

  lemma CreateStatus(g: Geometry, v: Vol, w: Vol, path: CString, st: int, n: nat)
    requires CreateSpec(g, v, w, path, st, n)
    ensures st <= 0
  {
    hide TreeOf, Volume.Files;
    ParentErrors(TreeAt(v), g.root, path);
  }

  lemma KeepsAll(t: Tree)
    ensures KeepsNodes(t, t, {})
  {
  }

  lemma NodeKept(t: Tree, u: Tree, n: nat)
    requires KeepsNodes(t, u, {}) && n in t
    ensures n in u && Kind(u[n]) == Kind(t[n])
  {
  }

  lemma KeepsBoth(t: Tree, u: Tree, w: Tree)
    requires KeepsNodes(t, u, {}) && KeepsNodes(u, w, {})
    ensures KeepsNodes(t, w, {})
  {
  }

  lemma NothingGone(t: Tree, t': Tree, files: seq<OpenFile>)
    requires InodesOpen(t, files) && KeepsNodes(t, t', {})
    ensures InodesOpen(t', files)
  {
    StillOpen(t, t', files, {});
  }

  lemma OneMoreOpen(t: Tree, files: seq<OpenFile>, i: nat, f: OpenFile)
    requires InodesOpen(t, files) && i < |files| && InodeOpen(t, f)
    ensures InodesOpen(t, files[i := f])
  {
    var gs := files[i := f];
    forall j | 0 <= j < |files| ensures InodeOpen(t, gs[j]) { assert InodeOpen(t, files[j]); }
  }

  lemma TruncateKeepsNodes(g: Geometry, v: Vol, w: Vol, n: nat, size: nat, st: int)
    requires TruncateSpec(g, v, w, n, size, st)
    ensures KeepsNodes(TreeAt(v), TreeAt(w), {})
  {
    hide TreeOf, Volume.Files;
  }

  lemma WriteKeepsNodes(g: Geometry, v: Vol, w: Vol, n: nat, offset: nat, source: seq<byte>, r: int)
    requires WriteSpec(g, v, w, n, offset, source, r)
    ensures KeepsNodes(TreeAt(v), TreeAt(w), {})
  {
    hide TreeOf, Volume.Files, Room;
  }

  lemma LinkedShaped(files: seq<OpenFile>, fds: seq<seq<nat>>)
    requires Linked(files, fds)
    ensures Shaped(files, fds)
  {
  }

  lemma NoLowHandle(files: seq<OpenFile>, fds: seq<seq<nat>>, p: nat, d: nat)
    requires Linked(files, fds)
    ensures d < 3 || d >= 16 ==> Handle(fds, p, d) == 0
  {
    assert HandleFine(files, fds, p, d);
  }

  lemma StillOpenBut(t: Tree, files: seq<OpenFile>, i: nat)
    requires InodesOpen(t, files) && i < |files|
    ensures InodesOpen(t, files[i := CLOSED])
  {
    var gs := files[i := CLOSED];
    forall j | 0 <= j < |files| ensures InodeOpen(t, gs[j]) { assert InodeOpen(t, files[j]); }
  }
}
