/** Reading a directory entry by entry. */
module Listing {
  import opened Bytes
  import opened Layout
  import opened Volume
  import opened Directory
  import opened Trees
  import opened FileSystem
  import opened Errno
  import opened Mounted
  import opened FileOps
  import opened DirOps
  import opened PathOps
  import opened Kernel

  // ---------- what successive calls give ----------

  /** The first used slot from `k` on, or the end of the directory. */
  function NextUsed(c: seq<byte>, k: nat): (j: nat)
    ensures k <= j && (k <= Slots(c) ==> j <= Slots(c)) && (k > Slots(c) ==> j == k) && (j < Slots(c) ==> Used(c, j))
    ensures forall i :: k <= i < j && i < Slots(c) ==> !Used(c, i)
    decreases Slots(c) - k
  {
    if k >= Slots(c) || Used(c, k) then k else NextUsed(c, k + 1)
  }

  /** The names that successive calls from slot `k` on return. */
  ghost function NamesFrom(c: seq<byte>, k: nat): (names: seq<Name>)
    decreases Slots(c) - k
  {
    var j := NextUsed(c, k);
    if j >= Slots(c) then [] else [NameOf(Raw(c, j))] + NamesFrom(c, j + 1)
  }

  lemma {:induction false} NamesFromListed(c: seq<byte>, k: nat, x: Name)
    ensures x in NamesFrom(c, k) <==> exists j: nat :: j >= k && NamedAt(c, j, x)
    decreases Slots(c) - k
  {
    hide NameOf, Raw;
    var j := NextUsed(c, k);
    if j < Slots(c) {
      NamesFromListed(c, j + 1, x);
      assert NamedAt(c, j, x) <==> x == NameOf(Raw(c, j));
    }
  }

  /** Every name of the directory comes exactly once. */
  lemma {:induction false} NamesOnce(c: seq<byte>, k: nat, a: nat, b: nat)
    requires DirectoryOK(c) && a < b < |NamesFrom(c, k)|
    ensures NamesFrom(c, k)[a] != NamesFrom(c, k)[b]
    decreases Slots(c) - k
  {
    hide NameOf, Raw;
    var j := NextUsed(c, k);
    var rest := NamesFrom(c, j + 1);
    if a == 0 {
      assert rest[b - 1] in rest;
      NamesFromListed(c, j + 1, rest[b - 1]);
    } else {
      NamesOnce(c, j + 1, a - 1, b - 1);
    }
  }

  // ---------- one call ----------

  /** What reading the entry at `offset` of inode `n` returns: 1 and an entry, 0 at the end, or an error. */
  ghost predicate ReadDirSpec(g: Geometry, v: Vol, n: nat, offset: nat, result: int, offset': nat, name: Name,
                              child: nat, mode: nat) {
    var t := TreeAt(v);
    if offset % 64 != 0 then result == EINVAL && offset' == offset
    else if n >= g.totalInodes then result == EINVAL && offset' == offset
    else if n !in t then result == EIO && offset' == offset
    else if t[n].Regular? then result == ENOTDIR && offset' == offset
    else
      && n in Files(v)
      && var c := Files(v)[n].content;
         var k := NextUsed(c, offset / 64);
         if k >= Slots(c) then result == 0 && offset' == if offset < |c| then |c| else offset
         else && result == 1 && offset' == 64 * (k + 1) && name == NameOf(Raw(c, k))
              && name in t[n].entries && t[n].entries[name] == Link(child, mode)
  }

  datatype Outcome = AtEnd | EntryIn(slot: nat) | Damaged

  /** What scanning the slots from `k` on gives, whatever they hold. */
  ghost function Following(g: Geometry, v: Vol, c: seq<byte>, k: nat): (o: Outcome)
    requires Shape(g, v)
    decreases Slots(c) - k
  {
    if k >= Slots(c) then AtEnd
    else
      var raw := Raw(c, k);
      if raw[4] == 0 then (if AllZero(raw) then Following(g, v, c, k + 1) else Damaged)
      else if !EntryOK(raw) || ReadStatus(g, v, LinkOf(raw).child) != 0 then Damaged
      else if v.inodes[LinkOf(raw).child].mode != raw[4] then Damaged
      else EntryIn(k)
  }

  /** In a consistent directory nothing is damaged, and the scan stops at the next used slot. */
  lemma {:induction false} FollowingIsNext(g: Geometry, v: Vol, ow: Owner, d: nat, dir: Inode, k: nat)
    requires Consistent(g, v, ow) && OpenFolder(g, v, ow, d, dir) && Shape(g, v)
    ensures var c := Content(v.data, dir);
            Following(g, v, c, k) == if NextUsed(c, k) < Slots(c) then EntryIn(NextUsed(c, k)) else AtEnd
    decreases Slots(Content(v.data, dir)) - k
  {
    hide Consistent, Sound, Content, Files, TreeOf, Raw, NameFieldOK, RecordOK, PointersOK, ReadStatus;
    var c := Content(v.data, dir);
    if k < Slots(c) {
      FolderEntries(g, v, ow, d, dir);
      assert EntryOK(Raw(c, k));
      if Used(c, k) {
        EntryReadable(g, v, ow, d, dir, k);
      } else {
        FollowingIsNext(g, v, ow, d, dir, k + 1);
      }
    }
  }

  /** Scans the slots of an open directory. */
  method NextEntry(m: Mount, n: nat, dir: Inode, start: nat, ghost ow: Owner)
    returns (result: int, k: nat, name: Name, child: nat, mode: nat)
    requires m.Valid() && OpenFolder(m.g, m.vol, ow, n, dir) && Shape(m.g, m.vol)
    modifies m`io
    ensures var c := Content(m.vol.data, dir);
            match Following(m.g, m.vol, c, start)
            case AtEnd => result == 0 && k == if start < Slots(c) then Slots(c) else start
            case EntryIn(j) => result == 1 && k == j < Slots(c) && name == NameOf(Raw(c, j))
              && LinkOf(Raw(c, j)) == Link(child, mode)
            case Damaged => result == EIO
  {
    hide Sound, Content, Mount.Valid, RecordOK, PointersOK, Raw, NameFieldOK, Length;
    ValidFacts(m);
    FolderSize(m.g, m.vol, ow, n, dir);
    ghost var c := Content(m.vol.data, dir);
    result, k, name, child, mode := 0, start, [], 0, 0;
    while 64 * k < dir.size
      invariant start <= k && (k <= Slots(c) || k == start) && m.Valid()
      invariant Following(m.g, m.vol, c, start) == Following(m.g, m.vol, c, k)
    {
      OneEntry(m.g, m.vol, ow, n, dir, k);
      SlotReadable(m.g, m.vol, ow, n, k / 64);
      var st, b := m.InodeBlockAt(dir, 64 * k / 4096);
      st, m.io := m.ReadDataBlock(b);
      var entry := m.io[64 * k % 4096..64 * k % 4096 + 64];
      assert entry == Raw(c, k);
      if entry[4] == 0 {
        if !AllZero(entry) {
          return EIO, k, [], 0, 0;
        }
        k := k + 1;
        continue;
      }
      child := Le32(entry, 0);
      var ok := NameValid(entry[5..64]);
      if (entry[4] != 1 && entry[4] != 2) || !ok {
        return EIO, k, [], 0, 0;
      }
      var inode;
      st, inode := m.ReadInode(child);
      if st != 0 || inode.mode != entry[4] {
        return EIO, k, [], 0, 0;
      }
      return 1, k, NameOf(entry), child, inode.mode;
    }
  }

  /** The entry of inode `n` at `offset` or after it. */
  method ReadDirectory(m: Mount, n: nat, offset: nat)
    returns (result: int, offset': nat, name: Name, child: nat, mode: nat)
    requires m.Valid() && WellFormed(m.g, m.vol)
    modifies m`io
    ensures ReadDirSpec(m.g, m.vol, n, offset, result, offset', name, child, mode)
  {
    hide Sound, Files, Content, Healthy, Mount.Valid, TreeOf, Raw, NameOf, Following, Consistent;
    result, offset', name, child, mode := EINVAL, offset, [], 0, 0;
    if offset % 64 != 0 {
      return;
    }
    ghost var ow :| Healthy(m.g, m.vol, ow);
    HealthyFacts(m.g, m.vol, ow);
    ErrorsOnTree(m.g, m.vol, ow, n);
    var directory;
    result, directory := m.ReadInode(n);
    if result < 0 {
      return;
    }
    if directory.mode != MODE_DIRECTORY {
      return ENOTDIR, offset, [], 0, 0;
    }
    InodeOfNode(m.g, m.vol, ow, n);
    FolderSize(m.g, m.vol, ow, n, directory);
    FollowingIsNext(m.g, m.vol, ow, n, directory, offset / 64);
    FolderContent(m.g, m.vol, ow, n, directory);
    var k;
    result, k, name, child, mode := NextEntry(m, n, directory, offset / 64, ow);
    if result == 1 {
      EntryAt(Content(m.vol.data, directory), k, name);
      offset' := 64 * k + 64;
    } else {
      offset' := 64 * k;
    }
  }

  lemma FolderContent(g: Geometry, v: Vol, ow: Owner, d: nat, dir: Inode)
    requires Consistent(g, v, ow) && OpenFolder(g, v, ow, d, dir)
    ensures d in Files(v) && Files(v)[d].content == Content(v.data, dir) && DirectoryOK(Content(v.data, dir))
    ensures d in TreeAt(v) && TreeAt(v)[d] == Folder(dir.links, Entries(Content(v.data, dir)))
    ensures |Content(v.data, dir)| == 64 * Slots(Content(v.data, dir))
  {
    FolderEntries(g, v, ow, d, dir);
  }

  // ---------- all of them ----------

  /** Calls from offset 0 until the end: what `ls` does. */
  method ListDirectory(m: Mount, n: nat) returns (names: seq<Name>, ghost links: map<Name, Link>)
    requires m.Valid() && WellFormed(m.g, m.vol) && IsFolder(TreeAt(m.vol), n)
    modifies m`io
    ensures forall a, b :: 0 <= a < b < |names| ==> names[a] != names[b]
    ensures forall x :: x in names <==> x in TreeAt(m.vol)[n].entries
    ensures links == TreeAt(m.vol)[n].entries
  {
    hide WellFormed, Mount.Valid, TreeOf, Files, NameOf, Raw, NextUsed, DirectoryOK, Entries;
    FolderListing(m.g, m.vol, n);
    ghost var c := Files(m.vol)[n].content;
    var offset: nat, result: int := 0, 1;
    names, links := [], map[];
    while true
      invariant m.Valid() && offset % 64 == 0 && offset <= 64 * Slots(c)
      invariant names + NamesFrom(c, offset / 64) == NamesFrom(c, 0)
      invariant links.Keys == (set x | x in names) && forall x :: x in links ==>
          x in TreeAt(m.vol)[n].entries && links[x] == TreeAt(m.vol)[n].entries[x]
      decreases 64 * Slots(c) - offset
    {
      var name, child, mode;
      ghost var before := offset;
      result, offset, name, child, mode := ReadDirectory(m, n, offset);
      if result != 1 {
        break;
      }
      assert NamesFrom(c, before / 64) == [name] + NamesFrom(c, offset / 64);
      assert names + ([name] + NamesFrom(c, offset / 64)) == (names + [name]) + NamesFrom(c, offset / 64);
      names, links := names + [name], links[name := Link(child, mode)];
    }
    assert names == NamesFrom(c, 0);
    forall a, b | 0 <= a < b < |names| ensures names[a] != names[b] { NamesOnce(c, 0, a, b); }
    forall x ensures x in names <==> x in TreeAt(m.vol)[n].entries { NamesAreEntries(c, x); }
  }

  lemma NamesAreEntries(c: seq<byte>, x: Name)
    ensures x in NamesFrom(c, 0) <==> x in Entries(c)
  {
    hide NamedAt, NamesFrom;
    NamesFromListed(c, 0, x);
  }

  lemma FolderListing(g: Geometry, v: Vol, n: nat)
    requires WellFormed(g, v) && IsFolder(TreeAt(v), n)
    ensures n in Files(v) && DirectoryOK(Files(v)[n].content) && TreeAt(v)[n].entries == Entries(Files(v)[n].content)
    ensures |Files(v)[n].content| == 64 * Slots(Files(v)[n].content) && n < g.totalInodes
  {
    hide Healthy, Sound, Content, Files, TreeOf, Entries, Consistent;
    var ow :| Healthy(g, v, ow);
    HealthyFacts(g, v, ow);
    InodeOfNode(g, v, ow, n);
    FolderContent(g, v, ow, n, v.inodes[n]);
  }
}
