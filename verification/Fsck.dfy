/** The volume checker: it accepts a disk exactly when the disk is clean. */
module Fsck {
  import opened Bytes
  import opened Layout
  import opened Volume
  import opened BlockOps
  import opened Directory
  import opened Trees
  import opened FileSystem
  import opened DirectoryWalk

  // ---------- block ownership ----------

  datatype Claim = Metadata | ByInode(slot: Slot)

  /** The order in which the slots of one inode are claimed: the indirect block comes between
      the direct pointers and the pointers it holds. */
  function Pos(k: nat): (p: nat) { if k < 10 then k else if k == 1034 then 10 else k + 1 }

  ghost predicate ClaimsMatch(g: Geometry, claimed: map<nat, Claim>, ow: Owner) {
    forall b: nat :: b in claimed <==> b < g.dataStart || b in ow
  }

  /** Owners recorded so far are real ones: those of inodes before `n`, and those of `n` before `stage`. */
  ghost predicate OwnersUpto(g: Geometry, v: Vol, ow: Owner, n: nat, stage: nat)
    requires Shape(g, v)
  {
    forall b :: b in ow ==>
      && g.dataStart <= b < g.totalBlocks && v.blockBits[b] && Owns(v, ow[b].inode, ow[b].index, b)
      && (ow[b].inode < n || (ow[b].inode == n && Pos(ow[b].index) < stage))
  }

  ghost predicate SlotsUpto(g: Geometry, v: Vol, ow: Owner, n: nat, stage: nat)
    requires n < |v.inodes|
  {
    forall k: nat :: HasSlot(v.inodes[n], k) && Pos(k) < stage ==> Claimed(g, v.data, ow, n, v.inodes[n], k)
  }

  ghost predicate InodesUpto(g: Geometry, v: Vol, ow: Owner, n: nat)
    requires Shape(g, v) && n <= g.totalInodes
  {
    forall m: nat :: m < n ==>
      && (v.inodeBits[m] ==> InodeSound(g, v.data, ow, m, v.inodes[m]))
      && (!v.inodeBits[m] ==> v.inodes[m] == ZERO_INODE)
  }

  ghost predicate Unsound(g: Geometry, v: Vol) { forall ow :: !Sound(g, v, ow) }

  ghost predicate Present(g: Geometry, v: Vol, n: nat) { Shape(g, v) && n < g.totalInodes && v.inodeBits[n] }

  /** No assignment of owners can repair a slot that cannot be claimed. */
  lemma ClaimFails(g: Geometry, v: Vol, ow: Owner, n: nat, stage: nat, k: nat, b: nat)
    requires Present(g, v, n) && OwnersUpto(g, v, ow, n, stage) && stage <= Pos(k)
    requires HasSlot(v.inodes[n], k) && b == SlotBlock(v.data, v.inodes[n], k)
    requires !(g.dataStart <= b < g.totalBlocks && v.blockBits[b]) || b in ow
    ensures Unsound(g, v)
  {
    hide Content, RecordOK, PointersOK, TailZero;
    forall ow2 ensures !Sound(g, v, ow2) {
      if Sound(g, v, ow2) {
        OwnedOnce(g, v, ow2, n, k, if b in ow then ow[b].inode else n, if b in ow then ow[b].index else k, b);
      }
    }
  }

  lemma OwnedOnce(g: Geometry, v: Vol, ow: Owner, n: nat, k: nat, n': nat, k': nat, b: nat)
    requires Sound(g, v, ow) && Owns(v, n, k, b) && Owns(v, n', k', b)
    ensures n == n' && k == k' && g.dataStart <= b < g.totalBlocks && v.blockBits[b]
  {
    hide Content, RecordOK, PointersOK, TailZero;
    assert Claimed(g, v.data, ow, n, v.inodes[n], k);
    assert Claimed(g, v.data, ow, n', v.inodes[n'], k');
  }

  lemma BadInode(g: Geometry, v: Vol, n: nat)
    requires Shape(g, v) && n < g.totalInodes
    requires if v.inodeBits[n] then !RecordOK(v.inodes[n]) || !PointersOK(v.inodes[n]) || !TailZero(v.data, v.inodes[n])
             else v.inodes[n] != ZERO_INODE
    ensures Unsound(g, v)
  {
    hide RecordOK, PointersOK, TailZero, OwnersExact, BitsExact;
  }

  /** Claims of one more slot leave all earlier claims in place. */
  lemma ClaimKeeps(g: Geometry, v: Vol, ow: Owner, n: nat, stage: nat, k: nat, b: nat)
    requires Present(g, v, n) && OwnersUpto(g, v, ow, n, stage) && SlotsUpto(g, v, ow, n, stage)
    requires InodesUpto(g, v, ow, n)
    requires Pos(k) == stage && HasSlot(v.inodes[n], k) && b == SlotBlock(v.data, v.inodes[n], k)
    requires g.dataStart <= b < g.totalBlocks && v.blockBits[b] && b !in ow
    ensures var ow' := ow[b := Slot(n, k)];
            OwnersUpto(g, v, ow', n, stage + 1) && SlotsUpto(g, v, ow', n, stage + 1) && InodesUpto(g, v, ow', n)
  {
    hide Content, RecordOK, PointersOK, TailZero;
    var ow' := ow[b := Slot(n, k)];
    forall m: nat | m < n && v.inodeBits[m] ensures InodeSound(g, v.data, ow', m, v.inodes[m]) {
      assert InodeSound(g, v.data, ow, m, v.inodes[m]);
      forall j: nat | HasSlot(v.inodes[m], j) ensures Claimed(g, v.data, ow', m, v.inodes[m], j) {
        assert Claimed(g, v.data, ow, m, v.inodes[m], j);
      }
    }
    forall j: nat | HasSlot(v.inodes[n], j) && Pos(j) < stage + 1 ensures Claimed(g, v.data, ow', n, v.inodes[n], j) {
      if j != k { assert Claimed(g, v.data, ow, n, v.inodes[n], j); }
    }
  }

  /** Slots that an inode does not have need no claim. */
  lemma SkipStages(g: Geometry, v: Vol, ow: Owner, n: nat, from: nat, to: nat)
    requires Present(g, v, n) && OwnersUpto(g, v, ow, n, from) && SlotsUpto(g, v, ow, n, from) && from <= to
    requires forall k: nat :: HasSlot(v.inodes[n], k) && from <= Pos(k) ==> to <= Pos(k)
    ensures OwnersUpto(g, v, ow, n, to) && SlotsUpto(g, v, ow, n, to)
  {
  }

  /** After its last slot an inode is done. */
  lemma InodeDone(g: Geometry, v: Vol, ow: Owner, n: nat)
    requires Present(g, v, n) && OwnersUpto(g, v, ow, n, 1035) && SlotsUpto(g, v, ow, n, 1035)
    requires InodesUpto(g, v, ow, n)
    requires RecordOK(v.inodes[n]) && PointersOK(v.inodes[n]) && TailZero(v.data, v.inodes[n])
    ensures OwnersUpto(g, v, ow, n + 1, 0) && InodesUpto(g, v, ow, n + 1)
  {
    hide Content, PointersOK, TailZero;
    assert InodeSound(g, v.data, ow, n, v.inodes[n]) by {
      forall k: nat | HasSlot(v.inodes[n], k) ensures Claimed(g, v.data, ow, n, v.inodes[n], k) {
        assert Pos(k) < 1035;
      }
    }
  }

  lemma FreeDone(g: Geometry, v: Vol, ow: Owner, n: nat)
    requires Shape(g, v) && n < g.totalInodes && !v.inodeBits[n] && v.inodes[n] == ZERO_INODE
    requires OwnersUpto(g, v, ow, n, 0) && InodesUpto(g, v, ow, n)
    ensures OwnersUpto(g, v, ow, n + 1, 0) && InodesUpto(g, v, ow, n + 1)
  {
  }

  /** Two ways of reading owners off the same inodes agree on which blocks are owned. */
  lemma SameBlocksOwned(g: Geometry, v: Vol, ow: Owner, ow2: Owner, b: nat)
    requires Shape(g, v) && InodesSound(g, v, ow) && OwnersExact(g, v, ow) && Sound(g, v, ow2)
    ensures b in ow <==> b in ow2
  {
    hide Content, RecordOK, PointersOK, TailZero;
    if b in ow {
      assert Owns(v, ow[b].inode, ow[b].index, b);
      assert Claimed(g, v.data, ow2, ow[b].inode, v.inodes[ow[b].inode], ow[b].index);
    }
    if b in ow2 {
      assert Owns(v, ow2[b].inode, ow2[b].index, b);
      assert Claimed(g, v.data, ow, ow2[b].inode, v.inodes[ow2[b].inode], ow2[b].index);
    }
  }

  lemma CoverageFails(g: Geometry, v: Vol, ow: Owner, b: nat)
    requires Shape(g, v) && InodesSound(g, v, ow) && OwnersExact(g, v, ow)
    requires b < |v.blockBits| && (v.blockBits[b] != (b < g.dataStart || b >= g.totalBlocks || b in ow))
    ensures Unsound(g, v)
  {
    hide Content, InodesSound, OwnersExact;
    forall ow2 ensures !Sound(g, v, ow2) {
      if Sound(g, v, ow2) { SameBlocksOwned(g, v, ow, ow2, b); }
    }
  }

  ghost predicate Dirty(g: Geometry, v: Vol) { forall ow :: !Clean(g, v, ow) }

  lemma UnsoundDirty(g: Geometry, v: Vol)
    requires Unsound(g, v)
    ensures Dirty(g, v)
  {
    hide Sound;
  }

  /** `blocks` lists the data blocks of an inode in file order. */
  ghost predicate BlockList(v: Vol, i: Inode, blocks: seq<nat>, count: nat) {
    |blocks| == count && forall k :: 0 <= k < count ==> blocks[k] == SlotBlock(v.data, i, k)
  }

  /** The checker's tables describe the inodes before `n`. */
  ghost predicate TablesUpto(g: Geometry, v: Vol, inodes: map<nat, Inode>, fileBlocks: map<nat, seq<nat>>, n: nat)
    requires Shape(g, v) && n <= g.totalInodes
  {
    && (forall m: nat :: m in inodes <==> m < n && v.inodeBits[m])
    && (forall m: nat :: m in inodes ==>
          inodes[m] == v.inodes[m] && m in fileBlocks
            && BlockList(v, inodes[m], fileBlocks[m], BlocksFor(inodes[m].size)))
  }

  lemma ReadBits(g: Geometry, disk: Disk, v: Vol, b: nat)
    requires Represents(g, disk, v)
    ensures Shape(g, v) && |disk| == g.totalBlocks
    ensures b < |v.blockBits| ==>
              g.blockBitmapStart + b / 32768 < |disk| && v.blockBits[b] == BitmapBit(disk, g.blockBitmapStart, b)
    ensures b < |v.inodeBits| ==>
              g.inodeBitmapStart + b / 32768 < |disk| && v.inodeBits[b] == BitmapBit(disk, g.inodeBitmapStart, b)
    ensures b < |v.inodes| ==>
              g.inodeTableStart + b / 64 < |disk| && v.inodes[b] == TableInode(disk, g.inodeTableStart, b)
  {
  }

  lemma ReadData(g: Geometry, disk: Disk, v: Vol, b: nat)
    requires Represents(g, disk, v) && g.dataStart <= b < g.totalBlocks
    ensures |disk| == |v.data| == g.totalBlocks && v.data[b] == disk[b]
  {
  }

  function MetadataClaims(n: nat): (c: map<nat, Claim>)
    ensures forall b: nat :: b in c <==> b < n
  {
    if n == 0 then map[] else MetadataClaims(n - 1)[n - 1 := Metadata]
  }

  // ---------- directories ----------

  /** The entries before slot `k` and the entry in it make up the entries before slot `k + 1`. */
  lemma PrefixStep(c: seq<byte>, k: nat)
    requires k < Slots(c) && 64 * k <= |c| && DirectoryOK(c[..64 * k]) && EntryOK(Raw(c, k))
    requires Used(c, k) ==> NameOf(Raw(c, k)) !in Entries(c[..64 * k])
    ensures 64 * k + 64 <= |c| && DirectoryOK(c[..64 * k + 64])
    ensures Entries(c[..64 * k + 64]) ==
            if Used(c, k) then Entries(c[..64 * k])[NameOf(Raw(c, k)) := LinkOf(Raw(c, k))] else Entries(c[..64 * k])
  {
    hide NameOf, LinkOf, EntryOK, DirectoryOK, Listed;
    var p, raw := c[..64 * k], Raw(c, k);
    var d := Written(p, 64 * k, raw);
    assert d == c[..64 * k + 64];
    assert Slots(p) == k;
    AddKeepsOrder(p, k, raw);
    forall x ensures (x in Entries(d)) == (x in Entries(p) || (raw[4] != 0 && x == NameOf(raw))) {
      ListedAfterWrite(p, k, raw, x);
    }
    forall x | x in Entries(d)
      ensures Entries(d)[x] == if raw[4] != 0 && x == NameOf(raw) then LinkOf(raw) else Entries(p)[x]
    {
      EntryAfterWrite(p, k, raw, x);
    }
  }

  lemma ListedAfterWrite(p: seq<byte>, k: nat, raw: seq<byte>, x: Name)
    requires |p| % 64 == 0 && Slots(p) == k && |raw| == 64
    ensures Listed(Written(p, 64 * k, raw), x) == (Listed(p, x) || (raw[4] != 0 && x == NameOf(raw)))
  {
    var d := Written(p, 64 * k, raw);
    if Listed(p, x) {
      var j := SlotOf(p, x);
      NamedOfWritten(p, k, raw, j, x);
    }
    if Listed(d, x) {
      var j := SlotOf(d, x);
      NamedOfWritten(p, k, raw, j, x);
    }
    NamedOfWritten(p, k, raw, k, x);
  }

  /** A bad or repeated entry spoils the whole directory. */
  lemma PrefixFails(c: seq<byte>, k: nat)
    requires k < Slots(c) && 64 * k <= |c|
    requires !EntryOK(Raw(c, k)) || (Used(c, k) && NameOf(Raw(c, k)) in Entries(c[..64 * k]))
    ensures !DirectoryOK(c)
  {
    hide NameOf, LinkOf, EntryOK;
    if EntryOK(Raw(c, k)) {
      var p := c[..64 * k];
      var j := SlotOf(p, NameOf(Raw(c, k)));
      assert Raw(p, j) == Raw(c, j);
    }
  }

  lemma BadFolder(g: Geometry, v: Vol, d: nat)
    requires d in Files(v) && Files(v)[d].mode == MODE_DIRECTORY && !DirectoryOK(Files(v)[d].content)
    ensures Dirty(g, v)
  {
    hide Sound, DirectoryOK, Content, IsTree;
  }

  lemma NotATree(g: Geometry, v: Vol)
    requires !IsTree(TreeOf(Files(v)), g.root)
    ensures Dirty(g, v)
  {
    hide Sound, FoldersOK, IsTree, Files, TreeOf;
  }

  lemma BadEntry(g: Geometry, v: Vol, d: nat, c: seq<byte>, k: nat)
    requires d in Files(v) && Files(v)[d] == File(MODE_DIRECTORY, Files(v)[d].links, c) && k < Slots(c) && Used(c, k)
    requires var t, l := TreeOf(Files(v)), LinkOf(Raw(c, k)); l.child !in t || Kind(t[l.child]) != l.kind
    ensures Dirty(g, v)
  {
    hide Sound, DirectoryOK, Content, NameOf, LinkOf, Files, IsTree;
    var t := TreeOf(Files(v));
    if DirectoryOK(c) {
      EntryAt(c, k, NameOf(Raw(c, k)));
      if IsTree(t, g.root) { TreeEntry(t, g.root, d, NameOf(Raw(c, k))); }
      NotATree(g, v);
    } else {
      BadFolder(g, v, d);
    }
  }

  lemma TreeEntry(t: Tree, root: nat, d: nat, x: Name)
    requires IsTree(t, root) && HasEntry(t, d, x)
    ensures EntryFine(t, d, x)
  {
    var par, depth :| TreeWith(t, root, par, depth);
    assert EntryFine(t, d, x);
  }

  /** What the tables say about the tree. */
  lemma TableTree(g: Geometry, v: Vol, ow: Owner, inodes: map<nat, Inode>, fileBlocks: map<nat, seq<nat>>, n: nat)
    requires Sound(g, v, ow) && TablesUpto(g, v, inodes, fileBlocks, g.totalInodes)
    ensures n in inodes <==> n in Files(v)
    ensures n in inodes ==>
              && Files(v)[n] == File(inodes[n].mode, inodes[n].links, Content(v.data, inodes[n]))
                 && inodes[n] == v.inodes[n]
              && inodes[n].mode == Kind(TreeOf(Files(v))[n]) && inodes[n].links == TreeOf(Files(v))[n].links > 0
              && n in fileBlocks && BlockList(v, inodes[n], fileBlocks[n], BlocksFor(inodes[n].size))
              && (inodes[n].mode == 2 ==> inodes[n].size % 64 == 0)
  {
    hide Content, Entries, BlockList;
    assert n in inodes ==> InodeSound(g, v.data, ow, n, v.inodes[n]);
  }

  method DecodeName(field: seq<byte>) returns (ok: bool, name: Name)
    requires |field| == 59
    ensures ok == NameFieldOK(field)
    ensures ok ==> name == field[..Length(field)]
  {
    var terminator := Length(field);
    name := field[..terminator];
    if terminator == 0 || terminator == |field| {
      return false, [];
    }
    if !AllZero(field[terminator + 1..]) {
      return false, [];
    }
    assert AllZero(field[terminator..]) by {
      forall i | 0 <= i < |field[terminator..]| ensures field[terminator..][i] == 0 {
        if i > 0 { assert field[terminator..][i] == field[terminator + 1..][i - 1]; }
      }
    }
    if SLASH in name {
      var i :| 0 <= i < |name| && name[i] == SLASH;
      assert !NameByte(name[i]);
      return false, [];
    }
    ok := forall i :: 0 <= i < |name| ==> name[i] <= 0x7F;
    assert ok ==> forall i :: 0 <= i < |name| ==> NameByte(name[i]);
    assert !ok ==> exists i :: 0 <= i < |name| && !NameByte(name[i]);
  }

  function Pointing(es: map<Name, Link>, n: nat): (xs: set<Name>) { set x | x in es && es[x].child == n }

  lemma PointingStep(es: map<Name, Link>, x: Name, l: Link, n: nat)
    requires x !in es
    ensures |Pointing(es[x := l], n)| == |Pointing(es, n)| + if l.child == n then 1 else 0
  {
    assert Pointing(es[x := l], n) == Pointing(es, n) + if l.child == n then {x} else {};
  }

  ghost function Folders(t: Tree): (count: nat) { |set d | d in t && t[d].Folder?| }

  ghost function RegularFiles(t: Tree): (count: nat) { |set n | n in t && t[n].Regular?| }

  class Checker {
    const g: Geometry
    const disk: Disk
    ghost const v: Vol
    var inodes: map<nat, Inode>
    var fileBlocks: map<nat, seq<nat>>
    var claimed: map<nat, Claim>
    ghost var ow: Owner

    constructor (g: Geometry, disk: Disk, ghost v: Vol)
      ensures this.g == g && this.disk == disk && this.v == v
      ensures inodes == map[] && fileBlocks == map[] && ow == map[] && ClaimsMatch(g, claimed, ow)
    {
      this.g, this.disk, this.v := g, disk, v;
      inodes, fileBlocks, ow := map[], map[], map[];
      claimed := MetadataClaims(g.dataStart);
    }

    ghost predicate Ready() { g.Valid() && Represents(g, disk, v) }

    ghost predicate Upto(n: nat, stage: nat)
      reads `claimed, `ow
    {
      && Present(g, v, n) && ClaimsMatch(g, claimed, ow)
      && OwnersUpto(g, v, ow, n, stage) && SlotsUpto(g, v, ow, n, stage) && InodesUpto(g, v, ow, n)
    }

    method ClaimDataBlock(b: nat, n: nat, k: nat) returns (ok: bool)
      requires Ready() && Upto(n, Pos(k)) && HasSlot(v.inodes[n], k) && b == SlotBlock(v.data, v.inodes[n], k)
      modifies `claimed, `ow
      ensures if ok then Upto(n, Pos(k) + 1) && b == SlotBlock(v.data, v.inodes[n], k)
          && g.dataStart <= b < g.totalBlocks
              else Unsound(g, v)
    {
      hide Represents, OwnersUpto, SlotsUpto, InodesUpto, HasSlot, SlotBlock, Unsound;
      ReadBits(g, disk, v, b);
      if b < g.dataStart || b >= g.totalBlocks {
        ClaimFails(g, v, ow, n, Pos(k), k, b);
        return false;
      }
      if b in claimed {
        ClaimFails(g, v, ow, n, Pos(k), k, b);
        return false;
      }
      if !BitmapBit(disk, g.blockBitmapStart, b) {
        ClaimFails(g, v, ow, n, Pos(k), k, b);
        return false;
      }
      ClaimKeeps(g, v, ow, n, Pos(k), k, b);
      claimed, ow := claimed[b := ByInode(Slot(n, k))], ow[b := Slot(n, k)];
      return true;
    }

    method ClaimDirect(n: nat, inode: Inode) returns (ok: bool, blocks: seq<nat>)
      requires Ready() && Upto(n, 0) && inode == v.inodes[n] && RecordOK(inode)
      modifies `claimed, `ow
      ensures if ok then
                && Upto(n, 10) && BlockList(v, inode, blocks, if BlocksFor(inode.size) < 10 then BlocksFor(inode.size)
                   else 10)
                && forall k :: 0 <= k < 10 ==> (inode.direct[k] != 0 <==> k < BlocksFor(inode.size))
              else Unsound(g, v)
    {
      hide Represents, OwnersUpto, SlotsUpto, InodesUpto, Unsound, RecordOK, TailZero, ClaimsMatch;
      var required := BlocksFor(inode.size);
      blocks := [];
      for index := 0 to 10
        invariant Upto(n, index)
        invariant BlockList(v, inode, blocks, if required < index then required else index)
        invariant forall k :: 0 <= k < index ==> (inode.direct[k] != 0 <==> k < required)
      {
        var block := inode.direct[index];
        if index < required {
          if block == 0 {
            BadInode(g, v, n);
            return false, [];
          }
          ok := ClaimDataBlock(block, n, index);
          if !ok {
            return false, [];
          }
          blocks := blocks + [block];
        } else {
          if block != 0 {
            BadInode(g, v, n);
            return false, [];
          }
          SkipStages(g, v, ow, n, index, index + 1);
        }
      }
      ok := true;
    }

    method ClaimIndirect(n: nat, inode: Inode, direct: seq<nat>) returns (ok: bool, blocks: seq<nat>)
      requires Ready() && Upto(n, 10) && inode == v.inodes[n] && RecordOK(inode)
      requires BlocksFor(inode.size) > 10 && BlockList(v, inode, direct, 10)
      modifies `claimed, `ow
      ensures if ok then
                && Upto(n, 1035) && BlockList(v, inode, blocks, BlocksFor(inode.size))
                && inode.indirect != 0 && TailZero(v.data, inode)
              else Unsound(g, v)
    {
      hide Represents, OwnersUpto, SlotsUpto, InodesUpto, Unsound, RecordOK, ClaimsMatch;
      var required := BlocksFor(inode.size) - 10;
      assert required <= 1024 by { SizeBound(inode); }
      blocks := direct;
      if inode.indirect == 0 {
        BadInode(g, v, n);
        return false, [];
      }
      ok := ClaimDataBlock(inode.indirect, n, 1034);
      if !ok {
        return false, [];
      }
      ReadData(g, disk, v, inode.indirect);
      for index := 0 to 1024
        invariant Upto(n, 11 + index)
        invariant BlockList(v, inode, blocks, 10 + if required < index then required else index)
        invariant forall j: nat :: required <= j < index ==> Word(v.data[inode.indirect], j) == 0
      {
        var block := Word(disk[inode.indirect], index);
        if index < required {
          if block == 0 {
            ClaimFails(g, v, ow, n, 11 + index, 10 + index, block);
            return false, [];
          }
          ok := ClaimDataBlock(block, n, 10 + index);
          if !ok {
            return false, [];
          }
          blocks := blocks + [block];
        } else {
          if block != 0 {
            BadInode(g, v, n);
            return false, [];
          }
          SkipStages(g, v, ow, n, 11 + index, 12 + index);
        }
      }
      ok := true;
    }

    /** Checks one inode and claims its blocks. */
    method LoadInode(n: nat) returns (ok: bool)
      requires Ready() && n < g.totalInodes && TablesUpto(g, v, inodes, fileBlocks, n)
      requires ClaimsMatch(g, claimed, ow) && OwnersUpto(g, v, ow, n, 0) && InodesUpto(g, v, ow, n)
      modifies `claimed, `ow, `inodes, `fileBlocks
      ensures if ok then
                && ClaimsMatch(g, claimed, ow) && OwnersUpto(g, v, ow, n + 1, 0) && InodesUpto(g, v, ow, n + 1)
                && TablesUpto(g, v, inodes, fileBlocks, n + 1)
              else Unsound(g, v)
    {
      hide Represents, OwnersUpto, SlotsUpto, InodesUpto, Unsound, RecordOK, ClaimsMatch, DecodeInode, BitmapBit,
           TablesUpto, BlockList, TailZero;
      ReadBits(g, disk, v, n);
      var o := RecordOffset(n);
      var raw := disk[g.inodeTableStart + n / 64][o..o + 64];
      if !BitmapBit(disk, g.inodeBitmapStart, n) {
        ZeroRecord(raw);
        if !AllZero(raw) {
          BadInode(g, v, n);
          return false;
        }
        FreeDone(g, v, ow, n);
        TablesMore(g, v, inodes, fileBlocks, n, []);
        return true;
      }
      var inode := DecodeInode(raw);
      if !RecordOK(inode) {
        BadInode(g, v, n);
        return false;
      }
      NothingClaimed(g, v, ow, n);
      var blocks;
      ok, blocks := ClaimDirect(n, inode);
      if !ok {
        return;
      }
      if BlocksFor(inode.size) > 10 {
        ok, blocks := ClaimIndirect(n, inode, blocks);
        if !ok {
          return;
        }
      } else {
        if inode.indirect != 0 {
          BadInode(g, v, n);
          return false;
        }
        SkipStages(g, v, ow, n, 10, 1035);
        NoTail(v, inode);
      }
      InodeDone(g, v, ow, n);
      TablesMore(g, v, inodes, fileBlocks, n, blocks);
      inodes, fileBlocks := inodes[n := inode], fileBlocks[n := blocks];
    }

    /** Checks every inode, and that the root is a directory. */
    method LoadInodes() returns (ok: bool)
      requires Ready() && inodes == map[] && ow == map[] && ClaimsMatch(g, claimed, ow)
      modifies `claimed, `ow, `inodes, `fileBlocks
      ensures Shape(g, v)
      ensures if ok then Loaded() else Dirty(g, v)
    {
      hide Represents, OwnersUpto, InodesUpto, ClaimsMatch, Dirty, TablesUpto;
      ReadBits(g, disk, v, 0);
      NothingLoaded(g, v);
      for n := 0 to g.totalInodes
        invariant ClaimsMatch(g, claimed, ow) && OwnersUpto(g, v, ow, n, 0) && InodesUpto(g, v, ow, n)
        invariant TablesUpto(g, v, inodes, fileBlocks, n)
      {
        ok := LoadInode(n);
        if !ok {
          UnsoundDirty(g, v);
          return;
        }
      }
      AllLoaded(g, v, ow);
      RootFails(g, v, inodes, fileBlocks);
      ok := g.root in inodes && inodes[g.root].mode == MODE_DIRECTORY;
    }

    ghost predicate Loaded()
      reads this
    {
      && Shape(g, v) && g.root < g.totalInodes && v.inodeBits[g.root] && v.inodes[g.root].mode == MODE_DIRECTORY
      && ClaimsMatch(g, claimed, ow) && InodesSound(g, v, ow) && OwnersExact(g, v, ow)
      && TablesUpto(g, v, inodes, fileBlocks, g.totalInodes)
    }

    method CheckBlockBits() returns (ok: bool)
      requires Ready() && Loaded()
      ensures if ok then forall c: nat :: c < g.totalBlocks ==> (v.blockBits[c] <==> c < g.dataStart || c in ow)
              else Dirty(g, v)
    {
      hide Represents, InodesSound, OwnersExact, Dirty, TablesUpto, ClaimsMatch, Unsound, BitmapBit;
      ReadBits(g, disk, v, 0);
      for b := 0 to g.totalBlocks
        invariant forall c: nat :: c < b ==> (v.blockBits[c] <==> c < g.dataStart || c in ow)
      {
        ReadBits(g, disk, v, b);
        ClaimedIs(g, claimed, ow, b);
        if BitmapBit(disk, g.blockBitmapStart, b) != (b in claimed) {
          CoverageFails(g, v, ow, b);
          UnsoundDirty(g, v);
          return false;
        }
      }
      return true;
    }

    /** Compares the bitmaps with the claims. */
    method CheckBitmapCoverage() returns (ok: bool)
      requires Ready() && Loaded()
      ensures if ok then Sound(g, v, ow) else Dirty(g, v)
    {
      hide Represents, InodesSound, OwnersExact, Dirty, TablesUpto, ClaimsMatch, BitmapBit, Unsound;
      ok := CheckBlockBits();
      if !ok {
        return;
      }
      ReadBits(g, disk, v, 0);
      for b := g.totalBlocks to g.blockBitmapBlocks * 32768
        invariant forall c: nat :: g.totalBlocks <= c < b ==> v.blockBits[c]
      {
        ReadBits(g, disk, v, b);
        if !BitmapBit(disk, g.blockBitmapStart, b) {
          CoverageFails(g, v, ow, b);
          UnsoundDirty(g, v);
          return false;
        }
      }
      for n := g.totalInodes to g.inodeBitmapBlocks * 32768
        invariant forall c: nat :: g.totalInodes <= c < n ==> v.inodeBits[c]
      {
        ReadBits(g, disk, v, n);
        if !BitmapBit(disk, g.inodeBitmapStart, n) {
          PaddingFails(g, v, n);
          return false;
        }
      }
      return true;
    }

    ghost predicate Checked()
      reads this
    {
      Ready() && Loaded() && Sound(g, v, ow)
    }

    method ReadInodeContent(n: nat) returns (content: seq<byte>)
      requires Checked() && n in inodes
      ensures n in Files(v) && content == Files(v)[n].content
    {
      hide Represents, InodesSound, OwnersExact, TablesUpto, ClaimsMatch, Files;
      TableTree(g, v, ow, inodes, fileBlocks, n);
      content := [];
      var blocks := fileBlocks[n];
      for k := 0 to |blocks|
        invariant |content| == 4096 * k
        invariant forall j: nat :: j < |content| ==> content[j] == ByteAt(v.data, inodes[n], j)
      {
        BlockReadable(g, v, ow, n, k);
        ReadData(g, disk, v, blocks[k]);
        content := content + disk[blocks[k]];
      }
      content := content[..inodes[n].size];
      assert content == Content(v.data, inodes[n]);
    }

    /** Checks the entry in slot `k`; `names` are those of the slots before it. */
    method ReadEntry(d: nat, c: seq<byte>, k: nat, names: map<Name, Link>) returns (ok: bool, name: Name)
      requires Checked() && d in inodes && inodes[d].mode == MODE_DIRECTORY && c == Content(v.data, inodes[d])
      requires k < Slots(c) && 64 * k <= |c| && names == Entries(c[..64 * k])
      ensures if ok then
                && EntryOK(Raw(c, k))
                && (Used(c, k) ==> name == NameOf(Raw(c, k)) && name !in names && LinkFine(inodes, LinkOf(Raw(c, k))))
              else Dirty(g, v)
    {
      hide Represents, Loaded, Sound, Files, DirectoryOK, Dirty, NameOf, Listed, AllZero, TreeOf, Content, LinkOf,
           TablesUpto, NameFieldOK, Entries;
      CheckedFacts(d);
      var raw := c[64 * k..64 * k + 64];
      if raw[4] == 0 {
        ok, name := AllZero(raw), [];
        if !ok {
          PrefixFails(c, k);
          BadFolder(g, v, d);
        }
        return;
      }
      ok, name := false, [];
      if raw[4] == 1 || raw[4] == 2 {
        ok, name := DecodeName(raw[5..64]);
      }
      NameIs(raw);
      if !ok || name in names {
        PrefixFails(c, k);
        BadFolder(g, v, d);
        return false, [];
      }
      var link := LinkOf(raw);
      CheckedFacts(link.child);
      ok := LinkFine(inodes, link);
      if !ok {
        LinkBad(g, v, inodes, link);
        BadEntry(g, v, d, c, k);
      }
    }

    /** Reads one directory's entries, and counts what they refer to. */
    method ReadEntries(d: nat, c: seq<byte>, refs0: map<nat, nat>)
      returns (ok: bool, names: map<Name, Link>, order: seq<Name>, refs: map<nat, nat>)
      requires Checked() && d in inodes && inodes[d].mode == MODE_DIRECTORY && c == Content(v.data, inodes[d])
      requires refs0.Keys == inodes.Keys
      ensures if ok then DirectoryOK(c) && Entering(c, inodes, names, order, refs0, refs) else Dirty(g, v)
    {
      hide Checked, DirectoryOK, Dirty, NameOf, LinkOf, Content, Entries, Entering, EntryOK, Files, TreeOf, TablesUpto,
           LinkFine;
      CheckedFacts(d);
      names, order, refs := map[], [], refs0;
      NothingEntered(c, inodes, refs0);
      assert c[..0] == [];
      for k := 0 to Slots(c)
        invariant 64 * k <= |c| && DirectoryOK(c[..64 * k]) && Entering(c[..64 * k], inodes, names, order, refs0, refs)
      {
        var name;
        EnteredNames(c[..64 * k], inodes, names, order, refs0, refs);
        ok, name := ReadEntry(d, c, k, names);
        if !ok {
          return;
        }
        var raw := c[64 * k..64 * k + 64];
        PrefixStep(c, k);
        EnterOne(c, k, inodes, names, order, refs0, refs);
        if raw[4] != 0 {
          var link := LinkOf(raw);
          names, order, refs := names[name := link], order + [name], refs[link.child := refs[link.child] + 1];
        }
      }
      assert c[..64 * Slots(c)] == c;
      ok := true;
    }

    /** Reads the directory at the head of the queue. */
    method VisitDirectory(d: nat, parent: nat, refs0: map<nat, nat>, ghost s: State)
      returns (ok: bool, names: map<Name, Link>, order: seq<Name>, refs: map<nat, nat>)
      requires Checked() && Visitable(Tree(), g.root, s) && s.queue[0] == Item(d, parent)
      requires Counted(Tree(), s.visited, refs0)
      ensures d in Files(v) && IsFolder(Tree(), d)
      ensures if ok then
                && DirectoryOK(Files(v)[d].content) && EntriesGood(Tree(), d) && DotsGood(Tree(), d, parent)
                && names == Tree()[d].entries && Distinct(order) && (forall x :: x in order <==> x in names)
                && Counted(Tree(), s.visited + {d}, refs)
              else Dirty(g, v)
    {
      hide Checked, Files, DirectoryOK, Dirty, Visitable, Content, Entries, Listed, LinkFine;
      ghost var t := Tree();
      HeadIsFolder(t, g.root, s);
      CheckedFacts(d);
      assert refs0.Keys == inodes.Keys by { forall n { CheckedFacts(n); } }
      var content := ReadInodeContent(d);
      ok, names, order, refs := ReadEntries(d, content, refs0);
      if !ok {
        return;
      }
      EntriesAreGood(d, names);
      CountMore(t, s.visited, d, refs0, refs);
      ok := DOT in names && names[DOT] == Link(d, 2) && DOT_DOT in names && names[DOT_DOT] == Link(parent, 2);
      if !ok {
        DotsWrong(t, g.root, s);
        NotATree(g, v);
      }
    }

    /** The tree that the disk holds. */
    ghost function Tree(): (t: Trees.Tree) { TreeOf(Files(v)) }

    lemma EntriesAreGood(d: nat, names: map<Name, Link>)
      requires Checked() && d in Files(v) && IsFolder(Tree(), d) && names == Tree()[d].entries
      requires forall x :: x in names ==> LinkFine(inodes, names[x])
      ensures EntriesGood(Tree(), d)
    {
      hide Checked, Files, Entries;
      forall x | x in names ensures EntryFine(Tree(), d, x) {
        CheckedFacts(names[x].child);
      }
    }

    /** Walks the directories from the root, and compares what they refer to with the inodes. */
    method CheckDirectories() returns (ok: bool, directories: nat)
      requires Checked()
      ensures if ok then Clean(g, v, ow) && directories == Folders(Tree()) else Dirty(g, v)
    {
      hide Checked, Files, DirectoryOK, Dirty, Content, Entries, Walking, Counted, TreeOf, LinkFine, EntriesGood,
           DotsGood;
      ghost var t := Tree();
      var root := g.root;
      RootFolder();
      var queue, visited, reached := [Item(root, root)], {}, {root};
      var refs := map n | n in inodes :: 0;
      ghost var s := Start(root);
      Starting(t, root);
      NothingCounted(refs);
      while queue != []
        invariant Walking(t, root, s) && s.queue == queue && s.visited == visited && s.reached == reached
        invariant Counted(t, visited, refs) && FoldersRead(Files(v), visited)
        decreases t.Keys - visited
      {
        var number, parent := queue[0].dir, queue[0].parent;
        if number in visited {
          VisitedTwice(t, root, s);
          NotATree(g, v);
          return false, 0;
        }
        HeadFolder(t, root, s);
        var names, order;
        ok, names, order, refs := VisitDirectory(number, parent, refs, s);
        if !ok {
          return false, 0;
        }
        ghost var follow;
        queue, reached, follow := Push(queue[1..], reached, number, names, order);
        Visiting(t, root, s, follow);
        visited, s := visited + {number}, Visit(t, root, s, follow);
      }
      KeysAgree();
      if reached != inodes.Keys {
        Unreached(t, root, s);
        NotATree(g, v);
        return false, 0;
      }
      ok := CheckLinks(refs, s);
      if ok {
        AllFolders(s);
      }
      directories := |visited|;
    }

    /** The whole check. It accepts a disk exactly when the disk is clean, whatever the disk holds. */
    method Run() returns (ok: bool, files: nat, regular: nat, directories: nat)
      requires Ready() && inodes == map[] && ow == map[] && ClaimsMatch(g, claimed, ow)
      modifies `claimed, `ow, `inodes, `fileBlocks
      ensures ok <==> exists ow' :: Clean(g, v, ow')
      ensures ok ==> files == |Files(v)| && regular == RegularFiles(Tree()) && directories == Folders(Tree())
    {
      hide Clean, Files, TreeOf, ClaimsMatch, Sound, Represents;
      files, regular, directories := 0, 0, 0;
      ok := LoadInodes();
      if ok {
        ok := CheckBitmapCoverage();
      }
      if ok {
        ok, directories := CheckDirectories();
        KeysAgree();
        SizeOfKeys(inodes, Files(v));
        RegularAgree();
      }
      files, regular := |inodes|, |set n | n in inodes && inodes[n].mode == MODE_REGULAR|;
    }

    method CheckLinks(refs: map<nat, nat>, ghost s: State) returns (ok: bool)
      requires Checked() && Finished(Tree(), g.root, s) && Counted(Tree(), s.visited, refs)
      ensures if ok then LinksOK(Tree()) else Dirty(g, v)
    {
      hide Checked, Files, Dirty, Finished, Tree, Counted, LinksFine, IsTree;
      ghost var t := Tree();
      for n := 0 to g.totalInodes
        invariant forall m: nat :: m < n && m in t ==> LinksFine(t, m)
      {
        LinkCount(refs, s, n);
        if n in inodes && refs[n] != inodes[n].links {
          TreeLinksWrong(t, g.root, n);
          NotATree(g, v);
          return false;
        }
      }
      forall m | m in t ensures LinksFine(t, m) { LinkCount(refs, s, m); }
      ok := true;
    }

    lemma LinkCount(refs: map<nat, nat>, s: State, n: nat)
      requires Checked() && Finished(Tree(), g.root, s) && Counted(Tree(), s.visited, refs)
      ensures Tree() == TreeOf(Files(v)) && (n in inodes <==> n in Tree()) && (n in Tree() ==> n < g.totalInodes)
      ensures n in inodes ==> n in refs && (refs[n] == inodes[n].links <==> LinksFine(Tree(), n))
    {
      hide Checked, Files, Finished, TreeOf, Refs, RefsIn;
      KeysAgree();
      CheckedFacts(n);
      if n in inodes {
        AllRefs(Tree(), g.root, s, n);
        InodeInRange(n);
      }
    }

    lemma InodeInRange(m: nat)
      requires Checked() && m in Tree()
      ensures m < g.totalInodes
    {
    }

    lemma RootFolder()
      requires Checked()
      ensures IsFolder(Tree(), g.root)
    {
      hide Sound, Content, Entries;
    }

    lemma RegularAgree()
      requires Checked()
      ensures |set n | n in inodes && inodes[n].mode == MODE_REGULAR| == RegularFiles(Tree())
    {
      hide Checked, Files;
      forall n { CheckedFacts(n); }
      assert (set n | n in inodes && inodes[n].mode == MODE_REGULAR) == (set n | n in Tree() && Tree()[n].Regular?);
    }

    lemma KeysAgree()
      requires Checked()
      ensures inodes.Keys == Tree().Keys
    {
      hide Checked, Files;
      forall n { CheckedFacts(n); }
    }

    lemma NothingCounted(refs: map<nat, nat>)
      requires Checked() && refs.Keys == inodes.Keys && forall n :: n in refs ==> refs[n] == 0
      ensures Counted(Tree(), {}, refs)
    {
      hide Checked, Files, TreeOf;
      KeysAgree();
      forall n ensures RefsIn(Tree(), {}, n) == {} { }
    }

    lemma AllFolders(s: State)
      requires Checked() && Finished(Tree(), g.root, s) && LinksOK(Tree()) && FoldersRead(Files(v), s.visited)
      ensures Clean(g, v, ow) && |s.visited| == Folders(Tree())
    {
      hide Sound, Files, Content, Entries, DirectoryOK, LinksOK, Finished, IsTree;
      forall d ensures IsFolder(Tree(), d) <==> d in s.visited { AllVisited(Tree(), g.root, s, d); }
      assert s.visited == set d | d in Tree() && Tree()[d].Folder?;
      FinishedIsTree(Tree(), g.root, s);
    }

    lemma CheckedFacts(n: nat)
      requires Checked()
      ensures Shape(g, v) && TablesUpto(g, v, inodes, fileBlocks, g.totalInodes)
      ensures n in inodes <==> n in Files(v)
      ensures n in inodes ==>
                && Files(v)[n] == File(inodes[n].mode, inodes[n].links, Content(v.data, inodes[n]))
                   && inodes[n] == v.inodes[n]
                && inodes[n].mode == Kind(TreeOf(Files(v))[n]) && inodes[n].links == TreeOf(Files(v))[n].links > 0
                && (inodes[n].mode == 2 ==> |Content(v.data, inodes[n])| % 64 == 0)
    {
      hide Sound, Files, TreeOf;
      TableTree(g, v, ow, inodes, fileBlocks, n);
    }
  }

  // ---------- the walk ----------

  lemma SizeOfKeys(a: map<nat, Inode>, b: map<nat, File>)
    requires a.Keys == TreeOf(b).Keys
    ensures |a| == |b|
  {
    hide Entries;
    assert a.Keys == b.Keys;
    assert |a.Keys| == |a| && |b.Keys| == |b|;
  }

  lemma HeadIsFolder(t: Tree, root: nat, s: State)
    requires Visitable(t, root, s)
    ensures s.queue != [] && s.queue[0].dir !in s.visited && IsFolder(t, s.queue[0].dir)
  {
  }

  lemma HeadFolder(t: Tree, root: nat, s: State)
    requires Walking(t, root, s) && s.queue != [] && s.queue[0].dir !in s.visited
    ensures Visitable(t, root, s)
  {
    assert ItemFine(t, root, s, 0);
  }

  lemma TreeLinksWrong(t: Tree, root: nat, n: nat)
    requires n in t && !LinksFine(t, n)
    ensures !IsTree(t, root)
  {
    hide LinksFine;
    if IsTree(t, root) { TreeLinks(t, root, n); }
  }

  lemma TreeLinks(t: Tree, root: nat, n: nat)
    requires IsTree(t, root) && n in t
    ensures LinksFine(t, n)
  {
    var par, depth :| TreeWith(t, root, par, depth);
    assert LinksFine(t, n);
  }

  ghost predicate Counted(t: Tree, visited: set<nat>, refs: map<nat, nat>) {
    refs.Keys == t.Keys && forall n :: n in refs ==> refs[n] == |RefsIn(t, visited, n)|
  }

  ghost predicate FoldersRead(fs: map<nat, File>, visited: set<nat>) {
    forall d :: d in visited ==> d in fs && DirectoryOK(fs[d].content)
  }

  function Tags(d: nat, xs: set<Name>): (rs: set<Ref>)
    ensures |rs| == |xs|
    ensures forall r :: r in rs <==> r.dir == d && r.name in xs
  {
    TagsCount(d, xs);
    set x | x in xs :: Ref(d, x)
  }

  lemma {:induction false} TagsCount(d: nat, xs: set<Name>)
    ensures |set x | x in xs :: Ref(d, x)| == |xs|
  {
    var rs := set x | x in xs :: Ref(d, x);
    if xs == {} {
      assert rs == {};
    } else {
      var x :| x in xs;
      TagsCount(d, xs - {x});
      var rest := set y | y in xs - {x} :: Ref(d, y);
      assert rs == rest + {Ref(d, x)};
      assert Ref(d, x) !in rest;
    }
  }

  /** Visiting `d` adds the references that its entries make. */
  lemma RefsMore(t: Tree, visited: set<nat>, d: nat, n: nat)
    requires IsFolder(t, d) && d !in visited
    ensures |RefsIn(t, visited + {d}, n)| == |RefsIn(t, visited, n)| + |Pointing(t[d].entries, n)|
  {
    hide Refs;
    var all, old_, more := RefsIn(t, visited + {d}, n), RefsIn(t, visited, n), Tags(d, Pointing(t[d].entries, n));
    forall r: Ref ensures r in all <==> r in old_ || r in more {
      assert r in Refs(t, n) <==> Refers(t, r, n);
    }
    assert all == old_ + more && old_ !! more;
  }

  lemma CountMore(t: Tree, visited: set<nat>, d: nat, refs: map<nat, nat>, refs': map<nat, nat>)
    requires Counted(t, visited, refs) && IsFolder(t, d) && d !in visited && refs'.Keys == refs.Keys
    requires forall n :: n in refs' ==> refs'[n] == refs[n] + |Pointing(t[d].entries, n)|
    ensures Counted(t, visited + {d}, refs')
  {
    hide RefsIn, Pointing;
    forall n | n in refs' ensures refs'[n] == |RefsIn(t, visited + {d}, n)| {
      RefsMore(t, visited, d, n);
    }
  }

  /** Queues the directories that `d` lists, and notes everything it lists as reached. */
  method Push(queue: seq<Item>, reached: set<nat>, d: nat, names: map<Name, Link>, order: seq<Name>)
    returns (queue': seq<Item>, reached': set<nat>, ghost follow: seq<Name>)
    requires Distinct(order) && forall x :: x in order <==> x in names
    ensures Distinct(follow) && forall x :: x in follow <==> x in names && !Dot(x) && names[x].kind == 2
    ensures queue' == queue + Items(names, d, follow) && reached' == reached + Children(names)
  {
    queue', reached', follow := queue, reached, [];
    for i := 0 to |order|
      invariant forall x :: x in follow <==> x in order[..i] && !Dot(x) && names[x].kind == 2
      invariant Distinct(follow) && queue' == queue + Items(names, d, follow)
      invariant forall c :: c in reached' <==>
          c in reached || exists j :: 0 <= j < i && !Dot(order[j]) && names[order[j]].child == c
    {
      var x := order[i];
      assert x in order && x !in order[..i];
      assert order[..i + 1] == order[..i] + [x];
      if !Dot(x) {
        reached' := reached' + {names[x].child};
        if names[x].kind == 2 {
          queue' := queue' + [Item(names[x].child, d)];
          follow := follow + [x];
        }
      }
    }
    assert order[..|order|] == order;
    assert forall x :: x in names && !Dot(x) ==> exists j :: 0 <= j < |order| && order[j] == x;
  }

  predicate LinkFine(inodes: map<nat, Inode>, l: Link) {
    l.child in inodes && l.kind == if inodes[l.child].mode == MODE_DIRECTORY then 2 else 1
  }

  lemma LinkBad(g: Geometry, v: Vol, inodes: map<nat, Inode>, l: Link)
    requires l.child in inodes <==> l.child in Files(v)
    requires l.child in inodes ==> inodes[l.child].mode == Kind(TreeOf(Files(v))[l.child])
    requires !LinkFine(inodes, l)
    ensures var t := TreeOf(Files(v)); l.child !in t || Kind(t[l.child]) != l.kind
  {
    hide Files, Content, Entries;
  }

  /** What reading the entries of `c` has gathered: the names with what they lead to, in order,
      and the number of references to each inode. */
  ghost predicate Entering(c: seq<byte>, inodes: map<nat, Inode>, names: map<Name, Link>, order: seq<Name>,
                           refs0: map<nat, nat>, refs: map<nat, nat>)
  {
    && names == Entries(c) && Distinct(order) && (forall x :: x in order <==> x in names)
    && (forall x :: x in names ==> LinkFine(inodes, names[x]))
    && refs.Keys == refs0.Keys == inodes.Keys && (forall n :: n in refs ==> refs[n] == refs0[n] + |Pointing(names, n)|)
  }

  lemma EnteredNames(c: seq<byte>, inodes: map<nat, Inode>, names: map<Name, Link>, order: seq<Name>,
                     refs0: map<nat, nat>, refs: map<nat, nat>)
    requires Entering(c, inodes, names, order, refs0, refs)
    ensures names == Entries(c) && refs.Keys == inodes.Keys
  {
  }

  lemma NothingEntered(c: seq<byte>, inodes: map<nat, Inode>, refs0: map<nat, nat>)
    requires refs0.Keys == inodes.Keys
    ensures DirectoryOK([]) && Entering([], inodes, map[], [], refs0, refs0)
  {
    assert forall n :: Pointing(map[], n) == {};
  }

  lemma EnterOne(c: seq<byte>, k: nat, inodes: map<nat, Inode>, names: map<Name, Link>, order: seq<Name>,
                 refs0: map<nat, nat>, refs: map<nat, nat>)
    requires k < Slots(c) && 64 * k + 64 <= |c| && Entering(c[..64 * k], inodes, names, order, refs0, refs)
    requires Entries(c[..64 * k + 64]) == if Used(c, k) then names[NameOf(Raw(c, k)) := LinkOf(Raw(c, k))] else names
    requires Used(c, k) ==> NameOf(Raw(c, k)) !in names && LinkFine(inodes, LinkOf(Raw(c, k)))
    ensures var name, l := NameOf(Raw(c, k)), LinkOf(Raw(c, k));
            if Used(c, k) then l.child in refs
              && Entering(c[..64 * k + 64], inodes, names[name := l], order + [name], refs0,
                                                           refs[l.child := refs[l.child] + 1])
            else Entering(c[..64 * k + 64], inodes, names, order, refs0, refs)
  {
    hide Entries, NameOf, LinkOf, Pointing, Raw;
    if Used(c, k) {
      var name, l := NameOf(Raw(c, k)), LinkOf(Raw(c, k));
      forall n { PointingStep(names, name, l, n); }
      assert forall i :: 0 <= i < |order| ==> order[i] in order;
    }
  }

  lemma NameIs(raw: seq<byte>)
    requires |raw| == 64
    ensures NameOf(raw) == raw[5..64][..Length(raw[5..64])]
  {
  }

  lemma BlockReadable(g: Geometry, v: Vol, ow: Owner, n: nat, k: nat)
    requires Sound(g, v, ow) && n in Files(v) && k < BlocksFor(v.inodes[n].size)
    ensures var b := SlotBlock(v.data, v.inodes[n], k); g.dataStart <= b < g.totalBlocks == |v.data|
  {
    hide Content, RecordOK, PointersOK, TailZero;
    assert HasSlot(v.inodes[n], k);
    assert Claimed(g, v.data, ow, n, v.inodes[n], k);
  }

  lemma ClaimedIs(g: Geometry, claimed: map<nat, Claim>, ow: Owner, b: nat)
    requires ClaimsMatch(g, claimed, ow)
    ensures b in claimed <==> b < g.dataStart || b in ow
  {
  }

  lemma PaddingFails(g: Geometry, v: Vol, n: nat)
    requires Shape(g, v) && g.totalInodes <= n < |v.inodeBits| && !v.inodeBits[n]
    ensures Dirty(g, v)
  {
    hide InodesSound, OwnersExact, BitsExact;
  }

  lemma NothingClaimed(g: Geometry, v: Vol, ow: Owner, n: nat)
    requires Present(g, v, n)
    ensures SlotsUpto(g, v, ow, n, 0)
  {
  }

  lemma NoTail(v: Vol, i: Inode)
    requires BlocksFor(i.size) <= 10
    ensures TailZero(v.data, i)
  {
  }

  lemma TablesMore(g: Geometry, v: Vol, inodes: map<nat, Inode>, fileBlocks: map<nat, seq<nat>>, n: nat,
                   blocks: seq<nat>)
    requires Shape(g, v) && n < g.totalInodes && TablesUpto(g, v, inodes, fileBlocks, n)
    requires v.inodeBits[n] ==> BlockList(v, v.inodes[n], blocks, BlocksFor(v.inodes[n].size))
    ensures if v.inodeBits[n] then TablesUpto(g, v, inodes[n := v.inodes[n]], fileBlocks[n := blocks], n + 1)
            else TablesUpto(g, v, inodes, fileBlocks, n + 1)
  {
    hide BlockList;
  }

  lemma NothingLoaded(g: Geometry, v: Vol)
    requires Shape(g, v)
    ensures OwnersUpto(g, v, map[], 0, 0) && InodesUpto(g, v, map[], 0)
    ensures forall fb :: TablesUpto(g, v, map[], fb, 0)
  {
  }

  lemma AllLoaded(g: Geometry, v: Vol, ow: Owner)
    requires Shape(g, v) && OwnersUpto(g, v, ow, g.totalInodes, 0) && InodesUpto(g, v, ow, g.totalInodes)
    ensures InodesSound(g, v, ow) && OwnersExact(g, v, ow)
  {
  }

  lemma RootFails(g: Geometry, v: Vol, inodes: map<nat, Inode>, fileBlocks: map<nat, seq<nat>>)
    requires Shape(g, v) && TablesUpto(g, v, inodes, fileBlocks, g.totalInodes)
    ensures if g.root in inodes && inodes[g.root].mode == MODE_DIRECTORY
            then g.root < g.totalInodes && v.inodeBits[g.root] && v.inodes[g.root].mode == MODE_DIRECTORY
            else Dirty(g, v)
  {
    hide Sound, FoldersOK, EntriesOK, DotsOK, ChildrenOK, LinksOK, Content, Entries, BlockList;
  }

  lemma SizeBound(i: Inode)
    requires RecordOK(i)
    ensures BlocksFor(i.size) <= 1034
  {
  }
}
