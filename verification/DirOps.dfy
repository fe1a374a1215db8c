/** Directory look-up and update, and the operations on paths. */
module DirOps {
  import opened Bytes
  import opened Layout
  import opened Volume
  import opened BlockOps
  import opened Crash
  import opened Directory
  import opened Trees
  import opened FileSystem
  import opened Errno
  import opened Mounted
  import opened FileOps

  // ---------- names ----------

  method NameValid(field: seq<byte>) returns (ok: bool)
    requires |field| == 59
    ensures ok == NameFieldOK(field)
  {
    var terminated := false;
    var index := 0;
    ghost var n := Length(field);
    while index < 59
      invariant 0 <= index <= 59
      invariant terminated == (n < index)
      invariant forall i :: 0 <= i < index && i < n ==> NameByte(field[i])
      invariant forall i :: n <= i < index ==> field[i] == 0
      invariant index > 0 ==> n > 0
    {
      var value := field[index];
      if !terminated {
        if value == 0 {
          if index == 0 {
            return false;
          }
          terminated := true;
        } else if value > 0x7F || value == SLASH {
          assert !NameByte(field[..n][index]);
          return false;
        }
      } else if value != 0 {
        assert field[n..][index - n] != 0;
        return false;
      }
      index := index + 1;
    }
    return terminated;
  }

  predicate NameEqual(field: seq<byte>, name: CString)
    requires |field| == 59
  {
    |name| <= 58 && field[|name|] == 0 && field[..|name|] == name
  }

  lemma NameEqualIs(raw: seq<byte>, name: CString)
    requires |raw| == 64 && NameFieldOK(raw[5..64])
    ensures NameEqual(raw[5..64], name) <==> NameOf(raw) == name
  {
    var field := raw[5..64];
    if NameEqual(field, name) {
      assert forall i :: 0 <= i < |name| ==> field[i] == name[i];
      assert Length(field) == |name|;
    }
  }

  // ---------- finding an entry ----------

  datatype Scanned = Hit(slot: nat) | Miss | Corrupt

  /** The first entry called `name`, unless something malformed comes before it or in it. */
  ghost function Scan(g: Geometry, v: Vol, c: seq<byte>, k: nat, name: CString): (r: Scanned)
    requires Shape(g, v)
    ensures r.Hit? ==> NamedAt(c, r.slot, name) && k <= r.slot
    decreases Slots(c) - k
  {
    if k >= Slots(c) then Miss
    else
      var raw := Raw(c, k);
      if raw[4] == 0 then (if AllZero(raw) then Scan(g, v, c, k + 1, name) else Corrupt)
      else if !EntryOK(raw) || LinkOf(raw).child >= g.totalInodes then Corrupt
      else if NameOf(raw) != name then Scan(g, v, c, k + 1, name)
      else if ReadStatus(g, v, LinkOf(raw).child) == 0 && v.inodes[LinkOf(raw).child].mode == raw[4] then Hit(k)
      else Corrupt
  }

  function ScanStatus(r: Scanned): (st: int) {
    match r case Hit(_) => 0 case Miss => ENOENT case Corrupt => EIO
  }

  /** `blk` holds the entries `base`, `base + 1`, … of the directory bytes `c`. */
  ghost predicate HoldsEntries(blk: Block, c: seq<byte>, base: nat, count: nat) {
    count <= 64 && base + count <= Slots(c) &&
    forall i: nat {:trigger Raw(c, base + i)} :: i < count ==> blk[64 * i..64 * i + 64] == Raw(c, base + i)
  }

  method FindInBlock(m: Mount, ghost c: seq<byte>, ghost base: nat, count: nat, name: CString)
    returns (done: bool, st: int, index: nat, child: nat, kind: nat)
    requires m.Valid() && HoldsEntries(m.io, c, base, count) && 0 < |name| <= 58
    modifies m`io
    ensures done ==> st == ScanStatus(Scan(m.g, m.vol, c, base, name))
    ensures done && st == 0 ==>
              && index < count && Scan(m.g, m.vol, c, base, name) == Hit(base + index)
              && LinkOf(Raw(c, base + index)) == Link(child, kind)
    ensures !done ==> Scan(m.g, m.vol, c, base, name) == Scan(m.g, m.vol, c, base + count, name)
  {
    hide Mount.Valid, NameFieldOK, NameOf, Raw, Length, RecordOK, PointersOK;
    ValidFacts(m);
    done, st, index, child, kind := false, 0, 0, 0, 0;
    while index < count
      invariant index <= count && !done
      invariant m.io == old(m.io)
      invariant Scan(m.g, m.vol, c, base, name) == Scan(m.g, m.vol, c, base + index, name)
    {
      var entry := m.io[64 * index..64 * index + 64];
      assert entry == Raw(c, base + index);
      if entry[4] == 0 {
        if !AllZero(entry) {
          return true, EIO, index, 0, 0;
        }
      } else {
        child, kind := Le32(entry, 0), entry[4];
        var ok := NameValid(entry[5..64]);
        if (kind != 1 && kind != 2) || child >= m.g.totalInodes || !ok {
          return true, EIO, index, 0, 0;
        }
        NameEqualIs(entry, name);
        if NameEqual(entry[5..64], name) {
          var inode;
          st, inode := m.ReadInode(child);
          if st != 0 || inode.mode != kind {
            return true, EIO, index, 0, 0;
          }
          return true, 0, index, child, kind;
        }
      }
      index := index + 1;
    }
  }

  ghost predicate OpenFolder(g: Geometry, v: Vol, ow: Owner, d: nat, dir: Inode) {
    && Sound(g, v, ow) && d < g.totalInodes && d < |v.inodeBits| && d < |v.inodes|
    && v.inodeBits[d] && dir == v.inodes[d] && dir.mode == MODE_DIRECTORY
  }

  lemma SliceOfSlice<T>(s: seq<T>, a: nat, b: nat, x: nat, y: nat)
    requires a <= b <= |s| && x <= y <= b - a
    ensures s[a..b][x..y] == s[a + x..a + y]
  {
    var m, l, r := s[a..b], s[a..b][x..y], s[a + x..a + y];
    forall i | 0 <= i < y - x ensures l[i] == r[i] {
      assert l[i] == m[x + i];
    }
  }

  /** Entries never straddle blocks, so a directory's block holds 64 of them. */
  lemma BlockHoldsEntries(g: Geometry, v: Vol, ow: Owner, d: nat, dir: Inode, k: nat, count: nat)
    requires OpenFolder(g, v, ow, d, dir)
    requires k % 64 == 0 && 0 < count <= 64 && 64 * (k + count) <= dir.size
    ensures k / 64 < BlocksFor(dir.size) && SlotBlock(v.data, dir, k / 64) < |v.data|
    ensures HoldsEntries(v.data[SlotBlock(v.data, dir, k / 64)], Content(v.data, dir), k, count)
  {
    hide Sound, Content;
    OpenShape(g, v, ow, d, dir);
    var b, c := SlotBlock(v.data, dir, k / 64), Content(v.data, dir);
    assert 64 * k / 4096 == k / 64 && 64 * k % 4096 == 0;
    BlockSlice(g, v, ow, d, 64 * k, 64 * count);
    forall i: nat | i < count ensures v.data[b][64 * i..64 * i + 64] == Raw(c, k + i) {
      SliceOfSlice(c, 64 * k, 64 * k + 64 * count, 64 * i, 64 * i + 64);
      SliceOfSlice(v.data[b], 0, 64 * count, 64 * i, 64 * i + 64);
    }
  }

  method DirectoryFind(m: Mount, ghost d: nat, dir: Inode, name: CString, ghost ow: Owner)
    returns (st: int, slot: nat, child: nat, kind: nat)
    requires m.Valid() && OpenFolder(m.g, m.vol, ow, d, dir)
    modifies m`io
    ensures st <= 0 && st == if |name| == 0 || |name| > 58 then EINVAL
                  else ScanStatus(Scan(m.g, m.vol, Content(m.vol.data, dir), 0, name))
    ensures st == 0 ==>
              && Scan(m.g, m.vol, Content(m.vol.data, dir), 0, name) == Hit(slot)
              && LinkOf(Raw(Content(m.vol.data, dir), slot)) == Link(child, kind)
  {
    hide Sound, Content, Mount.Valid, RecordOK, PointersOK, Scan, Raw;
    ValidFacts(m);
    slot, child, kind := 0, 0, 0;
    if |name| == 0 || |name| > 58 {
      return EINVAL, 0, 0, 0;
    }
    ghost var c := Content(m.vol.data, dir);
    FolderSize(m.g, m.vol, ow, d, dir);
    var remaining, fileBlock := dir.size / 64, 0;
    while remaining > 0
      invariant 0 <= remaining && (remaining == 0 || 64 * fileBlock + remaining == dir.size / 64)
      invariant remaining == 0 ==> Scan(m.g, m.vol, c, 0, name) == Scan(m.g, m.vol, c, dir.size / 64, name)
      invariant remaining > 0 ==> Scan(m.g, m.vol, c, 0, name) == Scan(m.g, m.vol, c, 64 * fileBlock, name)
    {
      var entries := if remaining > 64 then 64 else remaining;
      BlockHoldsEntries(m.g, m.vol, ow, d, dir, 64 * fileBlock, entries);
      SlotReadable(m.g, m.vol, ow, d, fileBlock);
      var b, done, index;
      st, b := m.InodeBlockAt(dir, fileBlock);
      st, m.io := m.ReadDataBlock(b);
      done, st, index, child, kind := FindInBlock(m, c, 64 * fileBlock, entries, name);
      if done {
        slot := 64 * fileBlock + index;
        return;
      }
      remaining := remaining - entries;
      fileBlock := fileBlock + 1;
    }
    ScanEnd(m.g, m.vol, c, name);
    st := ENOENT;
  }

  lemma FolderSize(g: Geometry, v: Vol, ow: Owner, d: nat, dir: Inode)
    requires OpenFolder(g, v, ow, d, dir)
    ensures 0 < dir.size <= MAX_FILE_SIZE && dir.size % 64 == 0 && dir.links != 0
    ensures Slots(Content(v.data, dir)) == dir.size / 64
  {
    assert InodeSound(g, v.data, ow, d, dir);
  }

  lemma ScanEnd(g: Geometry, v: Vol, c: seq<byte>, name: CString)
    requires Shape(g, v)
    ensures Scan(g, v, c, Slots(c), name) == Miss
  {
  }

  // ---------- on a consistent volume, scanning is looking up ----------

  lemma FolderEntries(g: Geometry, v: Vol, ow: Owner, d: nat, dir: Inode)
    requires Consistent(g, v, ow) && OpenFolder(g, v, ow, d, dir)
    ensures d in Files(v) && DirectoryOK(Content(v.data, dir))
    ensures var t := TreeOf(Files(v)); IsFolder(t, d) && t[d] == Folder(dir.links, Entries(Content(v.data, dir)))
  {
    assert Files(v)[d] == File(dir.mode, dir.links, Content(v.data, dir));
    assert DirectoryOK(Files(v)[d].content);
  }

  lemma EntryReadable(g: Geometry, v: Vol, ow: Owner, d: nat, dir: Inode, k: nat)
    requires Consistent(g, v, ow) && OpenFolder(g, v, ow, d, dir)
    requires k < Slots(Content(v.data, dir)) && Used(Content(v.data, dir), k)
    ensures var l := LinkOf(Raw(Content(v.data, dir), k));
            && l.child < g.totalInodes && ReadStatus(g, v, l.child) == 0 && v.inodes[l.child].mode == l.kind
  {
    FolderEntries(g, v, ow, d, dir);
    var t, c := TreeOf(Files(v)), Content(v.data, dir);
    var name := NameOf(Raw(c, k));
    EntryAt(c, k, name);
    assert EntryFine(t, d, name);
    var n := LinkOf(Raw(c, k)).child;
    assert InodeSound(g, v.data, ow, n, v.inodes[n]);
  }

  lemma {:induction false} ScanFinds(g: Geometry, v: Vol, ow: Owner, d: nat, dir: Inode, k: nat, name: CString)
    requires Consistent(g, v, ow) && OpenFolder(g, v, ow, d, dir) && k <= Slots(Content(v.data, dir))
    ensures var c := Content(v.data, dir);
            && Shape(g, v)
            && !Scan(g, v, c, k, name).Corrupt?
            && (Scan(g, v, c, k, name).Miss? ==> forall j: nat :: k <= j ==> !NamedAt(c, j, name))
    decreases Slots(Content(v.data, dir)) - k
  {
    hide Consistent, Content, RecordOK, PointersOK, NameFieldOK, NameOf, Raw, IsTree, Files;
    var c := Content(v.data, dir);
    OpenShape(g, v, ow, d, dir);
    FolderEntries(g, v, ow, d, dir);
    if k < Slots(c) {
      assert EntryOK(Raw(c, k));
      ScanFinds(g, v, ow, d, dir, k + 1, name);
      if Used(c, k) {
        EntryReadable(g, v, ow, d, dir, k);
      }
    }
  }

  lemma OpenShape(g: Geometry, v: Vol, ow: Owner, d: nat, dir: Inode)
    requires OpenFolder(g, v, ow, d, dir)
    ensures Shape(g, v)
  {
  }

  /** Scanning a directory finds a name exactly when the directory lists it. */
  lemma ScanIsLookup(g: Geometry, v: Vol, ow: Owner, d: nat, dir: Inode, name: CString)
    requires Consistent(g, v, ow) && OpenFolder(g, v, ow, d, dir)
    ensures var c, t := Content(v.data, dir), TreeOf(Files(v));
            && Shape(g, v) && IsFolder(t, d) && t[d] == Folder(dir.links, Entries(c)) && DirectoryOK(c)
            && Scan(g, v, c, 0, name) == (if name in t[d].entries then Hit(SlotOf(c, name)) else Miss)
            && (name in t[d].entries ==> t[d].entries[name] == LinkOf(Raw(c, SlotOf(c, name))))
  {
    hide Consistent, Content, Files, Scan, Raw, NameOf, DirectoryOK;
    var c := Content(v.data, dir);
    FolderEntries(g, v, ow, d, dir);
    ScanFinds(g, v, ow, d, dir, 0, name);
    if Scan(g, v, c, 0, name).Hit? {
      EntryAt(c, Scan(g, v, c, 0, name).slot, name);
    }
  }

  // ---------- following a path ----------

  lemma SkipSlash(s: CString, i: nat)
    requires i < |s| && s[i] == SLASH
    ensures Components(s[i..]) == Components(s[i + 1..])
  {
    assert s[i..][1..] == s[i + 1..];
  }

  lemma SplitComponent(s: CString, i: nat, e: nat)
    requires i < e <= |s| && (e < |s| ==> s[e] == SLASH) && forall j :: i <= j < e ==> s[j] != SLASH
    ensures Components(s[i..]) == [s[i..e]] + Components(s[e..])
  {
    var r := s[i..];
    assert r[0] == s[i];
    assert UpToSlash(r) == e - i by {
      assert forall j :: 0 <= j < e - i ==> r[j] == s[i + j];
      assert e - i < |r| ==> r[e - i] == s[e];
    }
    assert r[..e - i] == s[i..e] && r[e - i..] == s[e..];
  }

  /** The next component of `path` at or after `index`: `path[start..end]`, unless nothing is
      left (`start == |path|`) or it is no possible name (`!ok`). */
  method NextComponent(path: CString, index: nat) returns (ok: bool, start: nat, end: nat)
    requires index <= |path|
    ensures index <= start <= end <= |path|
    ensures start == |path| ==> ok && Components(path[index..]) == []
    ensures start < |path| ==> Components(path[index..]) != [] && ok == ComponentOK(Components(path[index..])[0])
    ensures start < |path| && ok ==>
        start < end && Components(path[index..]) == [path[start..end]] + Components(path[end..])
  {
    hide Components, UpToSlash;
    NoComponents();
    start := index;
    while start < |path| && path[start] == SLASH
      invariant index <= start <= |path|
      invariant Components(path[index..]) == Components(path[start..])
    {
      SkipSlash(path, start);
      start := start + 1;
    }
    end := start;
    if start == |path| {
      return true, start, end;
    }
    while end < |path| && path[end] != SLASH
      invariant start <= end <= |path|
      invariant forall j :: start <= j < end ==> path[j] != SLASH && path[j] <= 0x7F
    {
      if path[end] > 0x7F {
        BadByte(path, start, end);
        return false, start, end;
      }
      end := end + 1;
    }
    SplitComponent(path, start, end);
    ok := end - start <= 58;
    AsciiSlice(path, start, end);
  }

  lemma AsciiSlice(s: CString, a: nat, b: nat)
    requires a <= b <= |s| && forall j :: a <= j < b ==> s[j] <= 0x7F
    ensures forall j :: 0 <= j < b - a ==> s[a..b][j] <= 0x7F
  {
  }

  lemma BadByte(s: CString, i: nat, j: nat)
    requires i <= j < |s| && s[j] > 0x7F && forall k :: i <= k <= j ==> s[k] != SLASH
    ensures Components(s[i..]) != [] && !ComponentOK(Components(s[i..])[0])
  {
    var r := s[i..];
    var e := UpToSlash(r);
    assert r[0] == s[i];
    assert forall k :: 0 <= k <= j - i ==> r[k] == s[i + k];
    assert e > j - i;
    assert r[..e][j - i] == s[j];
  }

  /** A consistent volume whose root is a directory. */
  ghost predicate Mountable(g: Geometry, v: Vol, ow: Owner) {
    Consistent(g, v, ow) && IsFolder(TreeOf(Files(v)), g.root)
  }

  lemma InodeOfNode(g: Geometry, v: Vol, ow: Owner, n: nat)
    requires Consistent(g, v, ow) && n in TreeOf(Files(v))
    ensures Shape(g, v) && n < g.totalInodes && v.inodeBits[n] && ReadStatus(g, v, n) == 0
    ensures v.inodes[n].mode == Kind(TreeOf(Files(v))[n]) && v.inodes[n].links == TreeOf(Files(v))[n].links
    ensures TreeOf(Files(v))[n].Folder? ==> OpenFolder(g, v, ow, n, v.inodes[n])
    ensures TreeOf(Files(v))[n].Regular? ==> Content(v.data, v.inodes[n]) == TreeOf(Files(v))[n].content
  {
    assert InodeSound(g, v.data, ow, n, v.inodes[n]);
  }

  lemma ChildExists(g: Geometry, v: Vol, ow: Owner, d: nat, name: Name)
    requires Consistent(g, v, ow) && HasEntry(TreeOf(Files(v)), d, name)
    ensures TreeOf(Files(v))[d].entries[name].child in TreeOf(Files(v))
  {
    assert EntryFine(TreeOf(Files(v)), d, name);
  }

  method LookupPath(m: Mount, path: CString, ghost ow: Owner) returns (st: int, n: nat, inode: Inode)
    requires m.Valid() && Mountable(m.g, m.vol, ow)
    modifies m`io
    ensures st <= 0 && Lookup(TreeOf(Files(m.vol)), m.g.root, path) == if st == 0 then Found(n) else Failed(st)
    ensures st == 0 ==> n in TreeOf(Files(m.vol)) && n < |m.vol.inodes| && inode == m.vol.inodes[n]
  {
    hide Mount.Valid, Files, Consistent, RecordOK, PointersOK, Content, NodeOf, TreeOf, Components, Scan, Raw, NameOf;
    ValidFacts(m);
    n, inode := m.g.root, ZERO_INODE;
    if |path| == 0 || path[0] != SLASH || |path| >= 256 {
      return EINVAL, n, inode;
    }
    ghost var t := TreeOf(Files(m.vol));
    var trailing := |path| > 1 && path[|path| - 1] == SLASH;
    var index := 1;
    SkipSlash(path, 0);
    assert path[0..] == path;
    while index < |path|
      invariant 1 <= index <= |path| && n in t
      invariant Walk(t, m.g.root, Components(path)) == Walk(t, n, Components(path[index..]))
    {
      var ok, start, end := NextComponent(path, index);
      index := end;
      if start == |path| {
        break;
      }
      if !ok {
        return EINVAL, n, inode;
      }
      ghost var cs := Components(path[end..]);
      assert ([path[start..end]] + cs)[1..] == cs;
      InodeOfNode(m.g, m.vol, ow, n);
      st, inode := m.ReadInode(n);
      if inode.mode != MODE_DIRECTORY {
        return ENOTDIR, n, inode;
      }
      if path[start..end] != DOT {
        var slot, kind, child;
        ScanIsLookup(m.g, m.vol, ow, n, inode, path[start..end]);
        st, slot, child, kind := DirectoryFind(m, n, inode, path[start..end], ow);
        if st < 0 {
          return;
        }
        ChildExists(m.g, m.vol, ow, n, path[start..end]);
        n := child;
      }
    }
    NoComponents();
    assert index == |path| ==> path[index..] == [];
    InodeOfNode(m.g, m.vol, ow, n);
    st, inode := m.ReadInode(n);
    if trailing && inode.mode != MODE_DIRECTORY {
      st := ENOTDIR;
    }
  }

  lemma NoComponents()
    ensures Components([]) == []
  {
  }

  lemma {:induction false} LastComponent(s: CString, i: nat)
    requires i < |s| && s[|s| - 1] != SLASH
    ensures Components(s[i..]) != []
    decreases |s| - i
  {
    assert s[i..][0] == s[i];
    if s[i] == SLASH {
      SkipSlash(s, i);
      LastComponent(s, i + 1);
    }
  }

  /** The directory that holds a path's last name, and that name. */
  method ResolveParent(m: Mount, path: CString, ghost ow: Owner) returns (st: int, p: nat, dir: Inode, name: CString)
    requires m.Valid() && Mountable(m.g, m.vol, ow)
    modifies m`io
    ensures st <= 0 && Parent(TreeOf(Files(m.vol)), m.g.root, path) == if st == 0 then At(p, name) else Nowhere(st)
    ensures st == 0 ==> OpenFolder(m.g, m.vol, ow, p, dir) && p in TreeOf(Files(m.vol)) && ValidName(name) && !Dot(name)
  {
    hide Mount.Valid, Files, Consistent, RecordOK, PointersOK, Content, NodeOf, TreeOf, Components, Scan, Raw, NameOf,
         Sound;
    ValidFacts(m);
    p, dir, name := m.g.root, ZERO_INODE, [];
    if |path| == 0 || path[0] != SLASH || |path| >= 256 || |path| <= 1 || path[|path| - 1] == SLASH {
      return EINVAL, p, dir, name;
    }
    ghost var t := TreeOf(Files(m.vol));
    var index := 1;
    assert path[0..] == path;
    LastComponent(path, 0);
    LastComponent(path, 1);
    SkipSlash(path, 0);
    while true
      invariant 1 <= index < |path| && p in t
      invariant Components(path[index..]) != []
      invariant WalkToParent(t, m.g.root, Components(path)) == WalkToParent(t, p, Components(path[index..]))
      decreases |path| - index
    {
      var ok, start, end := NextComponent(path, index);
      if !ok {
        return EINVAL, p, dir, name;
      }
      ghost var cs := Components(path[end..]);
      assert ([path[start..end]] + cs)[1..] == cs;
      InodeOfNode(m.g, m.vol, ow, p);
      st, dir := m.ReadInode(p);
      if dir.mode != MODE_DIRECTORY {
        return ENOTDIR, p, dir, name;
      }
      if end == |path| {
        NoComponents();
        assert path[end..] == [];
        if path[start..end] == DOT || path[start..end] == DOT_DOT {
          return EINVAL, p, dir, name;
        }
        ParentNameValid(t, m.g.root, path);
        return 0, p, dir, path[start..end];
      }
      LastComponent(path, end);
      if path[start..end] != DOT {
        var slot, kind, child;
        ScanIsLookup(m.g, m.vol, ow, p, dir, path[start..end]);
        st, slot, child, kind := DirectoryFind(m, p, dir, path[start..end], ow);
        if st < 0 {
          return;
        }
        ChildExists(m.g, m.vol, ow, p, path[start..end]);
        p := child;
      }
      index := end;
    }
  }

  // ---------- adding an entry ----------

  lemma OneEntry(g: Geometry, v: Vol, ow: Owner, d: nat, dir: Inode, k: nat)
    requires OpenFolder(g, v, ow, d, dir) && k < Slots(Content(v.data, dir))
    ensures k / 64 < BlocksFor(dir.size) && 64 * k / 4096 == k / 64 && 64 * k % 4096 == 64 * (k % 64)
    ensures SlotBlock(v.data, dir, k / 64) < |v.data|
    ensures v.data[SlotBlock(v.data, dir, k / 64)][64 * (k % 64)..64 * (k % 64) + 64] == Raw(Content(v.data, dir), k)
  {
    BlockSlice(g, v, ow, d, 64 * k, 64);
  }

  /** The first slot that is all zero, or the one past the last. */
  ghost predicate FirstFree(c: seq<byte>, k: nat) {
    && k <= Slots(c) && (k < Slots(c) ==> AllZero(Raw(c, k)))
    && forall j: nat :: j < k ==> !AllZero(Raw(c, j))
  }

  method FindFreeSlot(m: Mount, ghost d: nat, dir: Inode, ghost ow: Owner) returns (k: nat)
    requires m.Valid() && OpenFolder(m.g, m.vol, ow, d, dir)
    modifies m`io
    ensures FirstFree(Content(m.vol.data, dir), k)
  {
    hide Sound, Content, Mount.Valid, RecordOK, PointersOK, Raw;
    ValidFacts(m);
    FolderSize(m.g, m.vol, ow, d, dir);
    ghost var c := Content(m.vol.data, dir);
    k := 0;
    while 64 * k < dir.size
      invariant k <= Slots(c)
      invariant forall j: nat :: j < k ==> !AllZero(Raw(c, j))
    {
      OneEntry(m.g, m.vol, ow, d, dir, k);
      SlotReadable(m.g, m.vol, ow, d, k / 64);
      var st, b := m.InodeBlockAt(dir, 64 * k / 4096);
      st, m.io := m.ReadDataBlock(b);
      if AllZero(m.io[64 * k % 4096..64 * k % 4096 + 64]) {
        return;
      }
      k := k + 1;
    }
  }

  /** Storing a directory's new link count changes nothing else. */
  lemma Relink(g: Geometry, v: Vol, ow: Owner, d: nat, dir: Inode, links: u16)
    requires OpenFolder(g, v, ow, d, dir) && links != 0
    ensures var w := v.(inodes := v.inodes[d := dir.(links := links)]);
            && Sound(g, w, ow) && Files(w) == Files(v)[d := File(dir.mode, links, Content(v.data, dir))]
  {
    hide Sound, Files, Content;
    FolderSize(g, v, ow, d, dir);
    SlotReadable(g, v, ow, d, 0);
    Overwrite(g, v, ow, d, 0, [], dir.size, links);
    var b := SlotBlock(v.data, dir, 0);
    assert Splice(v.data[b], 0, []) == v.data[b];
    assert v.data[b := v.data[b]] == v.data;
    assert Overwritten(v, d, 0, [], dir.size, links) == v.(inodes := v.inodes[d := dir.(links := links)]);
    assert Written(Content(v.data, dir), 0, [])[..dir.size] == Content(v.data, dir);
  }

  function MoreLinks(kind: nat): (n: nat) { if kind == 2 then 1 else 0 }

  /** The files once directory `d` has an entry for `child` in slot `k`. */
  ghost function AppendedFiles(v: Vol, d: nat, k: nat, child: u32, kind: byte, name: Name): (fs: map<nat, File>)
    requires d < |v.inodes| && |name| <= 58
    requires 64 * k <= v.inodes[d].size && v.inodes[d].links as int + MoreLinks(kind) <= 0xFFFF
  {
    Files(v)[d := File(MODE_DIRECTORY, v.inodes[d].links as int + MoreLinks(kind),
                       Written(Content(v.data, v.inodes[d]), 64 * k, EncodeEntry(child, kind, name)))]
  }

  ghost predicate AppendPre(g: Geometry, v: Vol, ow: Owner, d: nat, dir: Inode, k: nat, kind: nat, name: Name) {
    && OpenFolder(g, v, ow, d, dir) && FirstFree(Content(v.data, dir), k)
    && 64 * k <= dir.size <= MAX_FILE_SIZE - 64 && |name| <= 58
    && dir.links as int + MoreLinks(kind) <= 0xFFFF
  }

  lemma AppendChunkPre(g: Geometry, v: Vol, ow: Owner, d: nat, dir: Inode, k: nat, child: u32, kind: byte, name: Name)
    requires AppendPre(g, v, ow, d, dir, k, kind, name)
    ensures ChunkPre(g, v, ow, d, dir.(links := dir.links as int + MoreLinks(kind)), 64 * k,
        EncodeEntry(child, kind, name))
    ensures 64 * k % 4096 + 64 <= 4096
  {
    hide Sound, Content, FirstFree, EncodeEntry;
    FolderSize(g, v, ow, d, dir);
    SlotInBlock(k);
  }

  /** An entry does not cross the end of a block. */
  lemma SlotInBlock(k: nat)
    ensures 64 * k % 4096 + 64 <= 4096 && (64 * k + 64) % 64 == 0
  {
  }

  /** Whichever block write an append is cut off at, the old or the new entries are seen. */
  lemma AppendShown(g: Geometry, v: Vol, ow: Owner, d: nat, dir: Inode, k: nat, child: u32, kind: byte, name: Name,
                    w: Vol)
    requires AppendPre(g, v, ow, d, dir, k, kind, name)
    requires var inode, raw := dir.(links := dir.links as int + MoreLinks(kind)), EncodeEntry(child, kind, name);
             Shows(g, w, Files(v)) || Shows(g, w, HalfFiles(v, d, 64 * k, raw))
               || Shows(g, w, ChunkFiles(v, d, inode, 64 * k, raw))
    ensures Shows(g, w, Files(v)) || Shows(g, w, AppendedFiles(v, d, k, child, kind, name))
  {
    hide Shows, Content, Sound;
    var inode, raw := dir.(links := dir.links as int + MoreLinks(kind)), EncodeEntry(child, kind, name);
    var c, fs, fs' := Content(v.data, dir), Files(v), AppendedFiles(v, d, k, child, kind, name);
    FolderSize(g, v, ow, d, dir);
    assert Files(v)[d] == File(dir.mode, dir.links, c);
    var half := Written(c, 64 * k, raw)[..dir.size];
    if k < Slots(c) {
      assert half == Written(c, 64 * k, raw);
    } else {
      assert half == c;
    }
    if Shows(g, w, HalfFiles(v, d, 64 * k, raw)) {
      ShowsIgnoresLinks(g, w, HalfFiles(v, d, 64 * k, raw), if k < Slots(c) then fs' else fs);
    } else if Shows(g, w, ChunkFiles(v, d, inode, 64 * k, raw)) {
      ShowsIgnoresLinks(g, w, ChunkFiles(v, d, inode, 64 * k, raw), fs');
    }
  }

  ghost predicate Appended(g: Geometry, v: Vol, w: Vol, ow: Owner, d: nat, k: nat, child: u32, kind: byte, name: Name)
    requires d < |v.inodes| && |name| <= 58
    requires 64 * k <= v.inodes[d].size && v.inodes[d].links as int + MoreLinks(kind) <= 0xFFFF
  {
    Sound(g, w, ow) && w.inodeBits == v.inodeBits && Files(w) == AppendedFiles(v, d, k, child, kind, name)
  }

  /** With the entry stored, only the link count may be left to store. */
  lemma AppendStored(g: Geometry, v: Vol, w: Vol, ow: Owner, ow': Owner, d: nat, dir: Inode, inode': Inode, k: nat,
                     child: u32, kind: byte, name: Name)
    requires AppendPre(g, v, ow, d, dir, k, kind, name) && k <= Slots(Content(v.data, dir))
    requires ChunkDone(g, v, w, ow', d, dir.(links := dir.links as int + MoreLinks(kind)), inode', 64 * k,
                       EncodeEntry(child, kind, name))
    ensures k == Slots(Content(v.data, dir)) || kind != 2 ==> Appended(g, v, w, ow', d, k, child, kind, name)
    ensures k < Slots(Content(v.data, dir)) && kind == 2 ==>
              && d < |w.inodes| && PointersOK(inode') && inode'.reserved == 0
              && Appended(g, v, w.(inodes := w.inodes[d := inode']), ow', d, k, child, kind, name)
  {
    hide Content, Sound, Written, EncodeEntry, Raw;
    FolderSize(g, v, ow, d, dir);
    var c, raw := Content(v.data, dir), EncodeEntry(child, kind, name);
    if k < Slots(c) && kind == 2 {
      ChunkDoneFolder(g, v, w, ow, ow', d, dir, inode', k, raw, kind);
      var b := w.inodes[d];
      Relink(g, w, ow', d, b, inode'.links);
      assert Content(w.data, b) == Written(c, 64 * k, raw) by {
        assert Files(w)[d].content == Written(c, 64 * k, raw);
      }
    }
  }

  lemma ChunkDoneFolder(g: Geometry, v: Vol, w: Vol, ow: Owner, ow': Owner, d: nat, dir: Inode, inode': Inode, k: nat,
                        raw: seq<byte>, kind: nat)
    requires OpenFolder(g, v, ow, d, dir) && 64 * k <= dir.size
    requires dir.links as int + MoreLinks(kind) <= 0xFFFF
    requires ChunkDone(g, v, w, ow', d, dir.(links := dir.links as int + MoreLinks(kind)), inode', 64 * k, raw)
    ensures Shape(g, w) && OpenFolder(g, w, ow', d, w.inodes[d])
    ensures inode' == w.inodes[d].(links := dir.links as int + MoreLinks(kind))
    ensures PointersOK(inode') && inode'.reserved == 0 && dir.links != 0
  {
    assert InodeSound(g, w.data, ow', d, w.inodes[d]);
    assert InodeSound(g, v.data, ow, d, dir);
    assert Files(w)[d].mode == w.inodes[d].mode;
  }

  /** Adds an entry in the first free slot, growing the directory if there is none. */
  method DirectoryAppend(m: Mount, d: nat, dir: Inode, child: u32, kind: byte, name: CString, ghost ow: Owner)
    returns (st: int, ghost k: nat, ghost ow': Owner)
    requires m.Valid() && OpenFolder(m.g, m.vol, ow, d, dir) && ValidName(name) && (kind == 1 || kind == 2)
    modifies m`io, m`aux, m`disk, m`vol, m`history
    ensures m.Valid() && d < |old(m.vol).inodes| <= |old(m.vol).inodeBits|
    ensures st == 0 || st == EINVAL || st == ENOSPC
    ensures st == EINVAL <==> dir.size > MAX_FILE_SIZE - 64
    ensures st != EINVAL ==> FirstFree(Content(old(m.vol).data, dir), k) && 64 * k <= dir.size
    ensures st == ENOSPC <==>
              && dir.size <= MAX_FILE_SIZE - 64
              && ((kind == 2 && dir.links == 0xFFFF) || ChunkStatus(m.g, old(m.vol), dir, 64 * k) == ENOSPC)
    ensures st == 0 ==>
        dir.links as int + MoreLinks(kind) <= 0xFFFF && Appended(m.g, old(m.vol), m.vol, ow', d, k, child, kind, name)
    ensures st != 0 ==> ow' == ow && ChunkUndone(m.g, old(m.vol), m.vol, ow)
    ensures old(m.history) <= m.history
    ensures OldOrNew(m.g, m.history, |old(m.history)|, Files(old(m.vol)), Files(m.vol))
  {
    hide Sound, Files, Content, Shows, Mount.Valid, RecordOK, PointersOK, Raw, ChunkDone, ChunkUndone, HalfFiles,
         ChunkFiles, AppendedFiles, Appended, Room, EncodeEntry, FirstFree;
    ValidFacts(m);
    ghost var g, v, h := m.g, m.vol, m.history;
    st, k, ow' := 0, 0, ow;
    FolderSize(g, v, ow, d, dir);
    if dir.size > MAX_FILE_SIZE - 64 {
      UndoneNothing(g, v, ow);
      return EINVAL, 0, ow;
    }
    var slot := FindFreeSlot(m, d, dir, ow);
    k := slot;
    FreeInside(Content(v.data, dir), slot);
    var appended := 64 * slot == dir.size;
    var grown := dir;
    if kind == 2 {
      if dir.links == 0xFFFF {
        UndoneNothing(g, v, ow);
        return ENOSPC, k, ow;
      }
      grown := dir.(links := dir.links + 1);
    }
    AppendChunkPre(g, v, ow, d, dir, slot, child, kind, name);
    st, grown, ow' := WriteChunk(m, d, grown, 64 * slot, EncodeEntry(child, kind, name), ow);
    if st < 0 {
      return;
    }
    forall j | |h| <= j < |m.history|
      ensures Shows(g, m.history[j], Files(v)) || Shows(g, m.history[j], AppendedFiles(v, d, slot, child, kind, name))
    {
      AppendShown(g, v, ow, d, dir, slot, child, kind, name, m.history[j]);
    }
    AppendStored(g, v, m.vol, ow, ow', d, dir, grown, slot, child, kind, name);
    if !appended && kind == 2 {
      st := m.WriteInode(d, grown);
      AppendedShows(g, v, m.vol, ow', d, slot, child, kind, name);
    }
    AppendedFilesAre(g, v, m.vol, ow', d, slot, child, kind, name);
  }

  lemma AppendedFilesAre(g: Geometry, v: Vol, w: Vol, ow: Owner, d: nat, k: nat, child: u32, kind: byte, name: Name)
    requires d < |v.inodes| && |name| <= 58
    requires 64 * k <= v.inodes[d].size && v.inodes[d].links as int + MoreLinks(kind) <= 0xFFFF
    requires Appended(g, v, w, ow, d, k, child, kind, name)
    ensures Files(w) == AppendedFiles(v, d, k, child, kind, name)
  {
  }

  lemma FreeInside(c: seq<byte>, k: nat)
    requires FirstFree(c, k)
    ensures k <= Slots(c)
  {
  }

  lemma UndoneNothing(g: Geometry, v: Vol, ow: Owner)
    requires Sound(g, v, ow)
    ensures ChunkUndone(g, v, v, ow)
  {
  }

  lemma AppendedShows(g: Geometry, v: Vol, w: Vol, ow: Owner, d: nat, k: nat, child: u32, kind: byte, name: Name)
    requires d < |v.inodes| && |name| <= 58
    requires 64 * k <= v.inodes[d].size && v.inodes[d].links as int + MoreLinks(kind) <= 0xFFFF
    requires Appended(g, v, w, ow, d, k, child, kind, name)
    ensures Shows(g, w, AppendedFiles(v, d, k, child, kind, name))
  {
    SoundShows(g, w, ow);
  }

  // ---------- is a directory empty? ----------

  ghost function EmptyStatus(c: seq<byte>, k: nat): (st: int)
    decreases Slots(c) - k
  {
    if k >= Slots(c) then 0
    else
      var raw := Raw(c, k);
      if raw[4] == 0 then (if AllZero(raw) then EmptyStatus(c, k + 1) else EIO)
      else if !EntryOK(raw) then EIO
      else if !Dot(NameOf(raw)) then ENOTEMPTY
      else EmptyStatus(c, k + 1)
  }

  method DirectoryEmpty(m: Mount, ghost d: nat, dir: Inode, ghost ow: Owner) returns (st: int)
    requires m.Valid() && OpenFolder(m.g, m.vol, ow, d, dir)
    modifies m`io
    ensures st == EmptyStatus(Content(m.vol.data, dir), 0)
  {
    hide Sound, Content, Mount.Valid, RecordOK, PointersOK, Raw, NameFieldOK, NameOf, Length;
    ValidFacts(m);
    FolderSize(m.g, m.vol, ow, d, dir);
    ghost var c := Content(m.vol.data, dir);
    var k := 0;
    while 64 * k < dir.size
      invariant 0 <= k <= Slots(c)
      invariant EmptyStatus(c, 0) == EmptyStatus(c, k)
    {
      OneEntry(m.g, m.vol, ow, d, dir, k);
      SlotReadable(m.g, m.vol, ow, d, k / 64);
      var b;
      st, b := m.InodeBlockAt(dir, 64 * k / 4096);
      st, m.io := m.ReadDataBlock(b);
      var entry := m.io[64 * k % 4096..64 * k % 4096 + 64];
      assert entry == Raw(c, k);
      if entry[4] == 0 {
        if !AllZero(entry) {
          return EIO;
        }
      } else {
        var ok := NameValid(entry[5..64]);
        if (entry[4] != 1 && entry[4] != 2) || !ok {
          return EIO;
        }
        NameEqualIs(entry, DOT);
        NameEqualIs(entry, DOT_DOT);
        if !NameEqual(entry[5..64], DOT) && !NameEqual(entry[5..64], DOT_DOT) {
          return ENOTEMPTY;
        }
      }
      k := k + 1;
    }
    st := 0;
  }

  lemma {:induction false} EmptyMeans(c: seq<byte>, k: nat)
    requires DirectoryOK(c) && k <= Slots(c)
    ensures EmptyStatus(c, k) == 0 || EmptyStatus(c, k) == ENOTEMPTY
    ensures EmptyStatus(c, k) == 0 <==> forall j: nat :: k <= j < Slots(c) && Used(c, j) ==> Dot(NameOf(Raw(c, j)))
    decreases Slots(c) - k
  {
    hide NameOf, Raw, NameFieldOK;
    if k < Slots(c) {
      assert EntryOK(Raw(c, k));
      EmptyMeans(c, k + 1);
    }
  }

  /** A directory passes as empty exactly when it lists itself and its parent and no more. */
  lemma EmptyIsDotsOnly(c: seq<byte>)
    requires DirectoryOK(c) && DOT in Entries(c) && DOT_DOT in Entries(c)
    ensures EmptyStatus(c, 0) == if Entries(c).Keys == {DOT, DOT_DOT} then 0 else ENOTEMPTY
  {
    hide NameOf, Raw, DirectoryOK, EmptyStatus;
    EmptyMeans(c, 0);
    if EmptyStatus(c, 0) == 0 {
      forall x | x in Entries(c) ensures Dot(x) {
        var j := SlotOf(c, x);
      }
    } else {
      var j: nat :| j < Slots(c) && Used(c, j) && !Dot(NameOf(Raw(c, j)));
      assert NamedAt(c, j, NameOf(Raw(c, j)));
      EntryAt(c, j, NameOf(Raw(c, j)));
    }
  }
}
