/** What the block-level updates of the kernel do to a sound volume: each lemma takes the
    volume after the last write of an update and gives its ownership and its files. */
module BlockOps {
  import opened Bytes
  import opened Layout
  import opened Volume

  /** `s` with `t` written at `o`, growing if need be. */
  function Written(s: seq<byte>, o: nat, t: seq<byte>): (r: seq<byte>)
    requires o <= |s|
    ensures |r| == if o + |t| > |s| then o + |t| else |s|
    ensures forall j :: 0 <= j < |r| ==> r[j] == if o <= j < o + |t| then t[j - o] else s[j]
  {
    s[..o] + t + (if o + |t| < |s| then s[o + |t|..] else [])
  }

  lemma SlotKept(g: Geometry, v: Vol, ow: Owner, n: nat, k: nat)
    requires Sound(g, v, ow) && n < g.totalInodes && v.inodeBits[n] && HasSlot(v.inodes[n], k)
    ensures Claimed(g, v.data, ow, n, v.inodes[n], k)
    ensures v.blockBits[SlotBlock(v.data, v.inodes[n], k)]
  {
    assert InodeSound(g, v.data, ow, n, v.inodes[n]);
  }

  // ---------- writing inside a file's blocks ----------

  ghost predicate CanOverwrite(i: Inode, o: nat, t: seq<byte>, size: nat) {
    && o <= i.size && o / 4096 < BlocksFor(i.size) && o % 4096 + |t| <= 4096
    && (size == i.size || i.size < size == o + |t|)
    && size <= MAX_FILE_SIZE
  }

  function Overwritten(v: Vol, n: nat, o: nat, t: seq<byte>, size: nat, links: u16): (w: Vol)
    requires n < |v.inodes| && o % 4096 + |t| <= 4096 && size < 0x1_0000_0000
  {
    var i := v.inodes[n];
    var b := SlotBlock(v.data, i, o / 4096);
    v.(data := if b < |v.data| then v.data[b := Splice(v.data[b], o % 4096, t)] else v.data,
       inodes := v.inodes[n := i.(size := size, links := links)])
  }

  lemma OverwriteSlot(g: Geometry, v: Vol, ow: Owner, n: nat, o: nat, t: seq<byte>, size: nat, links: u16, k: nat)
    requires Sound(g, v, ow) && n < g.totalInodes && v.inodeBits[n]
    requires CanOverwrite(v.inodes[n], o, t, size)
    requires HasSlot(v.inodes[n], k)
    ensures var w := Overwritten(v, n, o, t, size, links);
            SlotBlock(w.data, w.inodes[n], k) == SlotBlock(v.data, v.inodes[n], k)
  {
    var i := v.inodes[n];
    SlotKept(g, v, ow, n, k);
    SlotKept(g, v, ow, n, o / 4096);
    if BlocksFor(i.size) > 10 {
      SlotKept(g, v, ow, n, 1034);
    }
  }

  lemma OverwriteContent(g: Geometry, v: Vol, ow: Owner, n: nat, o: nat, t: seq<byte>, size: nat, links: u16)
    requires Sound(g, v, ow) && n < g.totalInodes && v.inodeBits[n]
    requires CanOverwrite(v.inodes[n], o, t, size)
    ensures var w := Overwritten(v, n, o, t, size, links);
            Content(w.data, w.inodes[n]) == Written(Content(v.data, v.inodes[n]), o, t)[..size]
  {
    var w, i := Overwritten(v, n, o, t, size, links), v.inodes[n];
    var old', new' := Content(v.data, i), Written(Content(v.data, i), o, t);
    SlotKept(g, v, ow, n, o / 4096);
    forall j: nat | j < size ensures ByteAt(w.data, w.inodes[n], j) == new'[j] {
      SlotKept(g, v, ow, n, j / 4096);
      OverwriteSlot(g, v, ow, n, o, t, size, links, j / 4096);
      if j < i.size { assert old'[j] == ByteAt(v.data, i, j); }
    }
  }

  lemma Overwrite(g: Geometry, v: Vol, ow: Owner, n: nat, o: nat, t: seq<byte>, size: nat, links: u16)
    requires Sound(g, v, ow) && n < g.totalInodes && v.inodeBits[n]
    requires CanOverwrite(v.inodes[n], o, t, size)
    requires RecordOK(v.inodes[n].(size := size, links := links))
    ensures var w := Overwritten(v, n, o, t, size, links);
            && Sound(g, w, ow)
            && Files(w) == Files(v)[n := File(v.inodes[n].mode, links,
               Written(Content(v.data, v.inodes[n]), o, t)[..size])]
  {
    var w, i := Overwritten(v, n, o, t, size, links), v.inodes[n];
    assert InodeSound(g, v.data, ow, n, i);
    SlotKept(g, v, ow, n, o / 4096);
    forall k: nat | HasSlot(w.inodes[n], k) ensures Claimed(g, w.data, ow, n, w.inodes[n], k) {
      SlotKept(g, v, ow, n, k);
      OverwriteSlot(g, v, ow, n, o, t, size, links, k);
    }
    if BlocksFor(i.size) > 10 {
      SlotKept(g, v, ow, n, 1034);
      OverwriteSlot(g, v, ow, n, o, t, size, links, 1034);
    }
    forall b | b in ow && ow[b].inode == n ensures Owns(w, n, ow[b].index, b) {
      assert Owns(v, n, ow[b].index, b);
      OverwriteSlot(g, v, ow, n, o, t, size, links, ow[b].index);
    }
    Replace(g, v, w, ow, ow, n);
    OverwriteContent(g, v, ow, n, o, t, size, links);
  }

  // ---------- growing a file by one block ----------

  /** `b` is free for the new block; `c` is free for the indirect block if the file gets one now. */
  ghost predicate CanAttach(g: Geometry, v: Vol, n: nat, b: nat, c: nat, t: seq<byte>) {
    && n < |v.inodes|
    && var k := BlocksFor(v.inodes[n].size);
       && v.inodes[n].size == 4096 * k && k < 1034
       && 0 < |t| <= 4096
       && Free(g, v, b)
       && (k == 10 ==> Free(g, v, c) && c != b)
  }

  function AttachedInode(i: Inode, b: u32, c: u32, t: seq<byte>, links: u16): (j: Inode)
    requires |t| <= 4096 && i.size <= MAX_FILE_SIZE
  {
    var k := BlocksFor(i.size);
    i.(direct := if k < 10 then i.direct[k := b] else i.direct,
       indirect := if k == 10 then c else i.indirect,
       size := i.size + |t|, links := links)
  }

  function AttachedData(data: seq<Block>, i: Inode, b: u32, c: u32, t: seq<byte>): (d: seq<Block>)
    requires b < |data| && c < |data| && |t| <= 4096
  {
    var k := BlocksFor(i.size);
    var d := data[b := Splice(ZERO_BLOCK, 0, t)];
    if k == 10 then d[c := SetWord(ZERO_BLOCK, 0, b)]
    else if 10 < k < 1034 && i.indirect < |data| then d[i.indirect := SetWord(data[i.indirect], k - 10, b)]
    else d
  }

  function AttachedOwner(ow: Owner, n: nat, i: Inode, b: nat, c: nat): (ow': Owner) {
    var k := BlocksFor(i.size);
    if k == 10 then ow[b := Slot(n, k)][c := Slot(n, 1034)] else ow[b := Slot(n, k)]
  }

  /** The volume after the last write of a growing write. */
  ghost function Attached(v: Vol, n: nat, b: u32, c: u32, t: seq<byte>, links: u16): (w: Vol)
    requires n < |v.inodes| && b < |v.data| && c < |v.data| && |t| <= 4096
    requires b < |v.blockBits| && c < |v.blockBits|
    requires v.inodes[n].size <= MAX_FILE_SIZE
  {
    var i := v.inodes[n];
    Vol(if BlocksFor(i.size) == 10 then v.blockBits[c := true][b := true] else v.blockBits[b := true],
        v.inodeBits,
        v.inodes[n := AttachedInode(i, b, c, t, links)],
        AttachedData(v.data, i, b, c, t))
  }

  /** What holds of an inode before a block is attached to it. */
  ghost predicate AttachPre(g: Geometry, v: Vol, ow: Owner, n: nat, b: u32, c: u32, t: seq<byte>) {
    && Sound(g, v, ow) && n < g.totalInodes && v.inodeBits[n]
    && CanAttach(g, v, n, b, c, t) && c < |v.data| && c < |v.blockBits|
  }

  lemma IndirectInRange(g: Geometry, v: Vol, ow: Owner, n: nat)
    requires Sound(g, v, ow) && n < g.totalInodes && v.inodeBits[n] && BlocksFor(v.inodes[n].size) > 10
    ensures g.dataStart <= v.inodes[n].indirect < g.totalBlocks
    ensures v.inodes[n].indirect in ow && ow[v.inodes[n].indirect] == Slot(n, 1034)
    ensures v.inodes[n].size <= MAX_FILE_SIZE
  {
    assert HasSlot(v.inodes[n], 1034);
    SlotKept(g, v, ow, n, 1034);
    assert InodeSound(g, v.data, ow, n, v.inodes[n]);
  }

  lemma AttachDefined(g: Geometry, v: Vol, ow: Owner, n: nat, b: u32, c: u32, t: seq<byte>)
    requires AttachPre(g, v, ow, n, b, c, t)
    ensures 10 < BlocksFor(v.inodes[n].size) ==> v.inodes[n].indirect < |v.data|
    ensures b !in ow && (BlocksFor(v.inodes[n].size) == 10 ==> c !in ow)
  {
    assert InodeSound(g, v.data, ow, n, v.inodes[n]);
    if BlocksFor(v.inodes[n].size) > 10 {
      IndirectInRange(g, v, ow, n);
    }
  }

  /** Old slots keep their blocks and the new slot gets `b`. */
  lemma AttachSlot(g: Geometry, v: Vol, ow: Owner, n: nat, b: u32, c: u32, t: seq<byte>, links: u16, k: nat)
    requires AttachPre(g, v, ow, n, b, c, t)
    requires HasSlot(v.inodes[n], k) || k == BlocksFor(v.inodes[n].size)
    ensures var w := Attached(v, n, b, c, t, links);
            SlotBlock(w.data, w.inodes[n], k) ==
              if HasSlot(v.inodes[n], k) then SlotBlock(v.data, v.inodes[n], k) else b
  {
    AttachDefined(g, v, ow, n, b, c, t);
    var i := v.inodes[n];
    var z := BlocksFor(i.size);
    if z > 10 && 10 <= k < 1034 {
      IndirectInRange(g, v, ow, n);
      WordOfSetWord(v.data[i.indirect], z - 10, b, k - 10);
    } else if z == 10 && k == 10 {
      WordOfSetWord(ZERO_BLOCK, 0, b, 0);
    }
  }

  lemma AttachTail(g: Geometry, v: Vol, ow: Owner, n: nat, b: u32, c: u32, t: seq<byte>, links: u16)
    requires AttachPre(g, v, ow, n, b, c, t)
    ensures var w := Attached(v, n, b, c, t, links); TailZero(w.data, w.inodes[n])
  {
    AttachDefined(g, v, ow, n, b, c, t);
    var i, w := v.inodes[n], Attached(v, n, b, c, t, links);
    var z := BlocksFor(i.size);
    assert InodeSound(g, v.data, ow, n, i);
    if z > 10 {
      IndirectInRange(g, v, ow, n);
      forall j: nat | z - 9 <= j < 1024 ensures Word(w.data[w.inodes[n].indirect], j) == 0 {
        WordOfSetWord(v.data[i.indirect], z - 10, b, j);
        assert Word(v.data[i.indirect], j) == 0;
      }
    } else if z == 10 {
      forall j: nat | 1 <= j < 1024 ensures Word(w.data[c], j) == 0 {
        WordOfSetWord(ZERO_BLOCK, 0, b, j);
        WordOfZeros(ZERO_BLOCK, j);
      }
    }
  }

  lemma AttachInodeSound(g: Geometry, v: Vol, ow: Owner, n: nat, b: u32, c: u32, t: seq<byte>, links: u16)
    requires AttachPre(g, v, ow, n, b, c, t)
    requires g.dataStart > 0 && RecordOK(v.inodes[n].(size := v.inodes[n].size + |t|, links := links))
    ensures var w := Attached(v, n, b, c, t, links);
            InodeSound(g, w.data, AttachedOwner(ow, n, v.inodes[n], b, c), n, w.inodes[n])
  {
    AttachDefined(g, v, ow, n, b, c, t);
    AttachTail(g, v, ow, n, b, c, t, links);
    var i, w := v.inodes[n], Attached(v, n, b, c, t, links);
    assert InodeSound(g, v.data, ow, n, i);
    var ow' := AttachedOwner(ow, n, i, b, c);
    forall k: nat | HasSlot(w.inodes[n], k) ensures Claimed(g, w.data, ow', n, w.inodes[n], k) {
      if HasSlot(i, k) {
        SlotKept(g, v, ow, n, k);
        AttachSlot(g, v, ow, n, b, c, t, links, k);
      } else if k == BlocksFor(i.size) {
        AttachSlot(g, v, ow, n, b, c, t, links, k);
      }
    }
  }

  lemma AttachContent(g: Geometry, v: Vol, ow: Owner, n: nat, b: u32, c: u32, t: seq<byte>, links: u16)
    requires AttachPre(g, v, ow, n, b, c, t)
    ensures var w := Attached(v, n, b, c, t, links);
            Content(w.data, w.inodes[n]) == Content(v.data, v.inodes[n]) + t
  {
    AttachDefined(g, v, ow, n, b, c, t);
    var i, w := v.inodes[n], Attached(v, n, b, c, t, links);
    var s := Content(v.data, i);
    var z := BlocksFor(i.size);
    forall j: nat | j < i.size + |t| ensures ByteAt(w.data, w.inodes[n], j) == (s + t)[j] {
      AttachSlot(g, v, ow, n, b, c, t, links, j / 4096);
      if j < i.size {
        SlotKept(g, v, ow, n, j / 4096);
        if z > 10 { IndirectInRange(g, v, ow, n); }
        assert s[j] == ByteAt(v.data, i, j);
      } else {
        if z > 10 { IndirectInRange(g, v, ow, n); }
        assert j / 4096 == z && j % 4096 == j - i.size;
      }
    }
  }

  lemma AttachOwners(g: Geometry, v: Vol, ow: Owner, n: nat, b: u32, c: u32, t: seq<byte>, links: u16, x: nat)
    requires AttachPre(g, v, ow, n, b, c, t)
    requires x in AttachedOwner(ow, n, v.inodes[n], b, c) && AttachedOwner(ow, n, v.inodes[n], b, c)[x].inode == n
    ensures Owns(Attached(v, n, b, c, t, links), n, AttachedOwner(ow, n, v.inodes[n], b, c)[x].index, x)
  {
    AttachDefined(g, v, ow, n, b, c, t);
    var k := AttachedOwner(ow, n, v.inodes[n], b, c)[x].index;
    if x in ow && x != b {
      assert Owns(v, n, k, x);
      AttachSlot(g, v, ow, n, b, c, t, links, k);
    } else if x == b {
      AttachSlot(g, v, ow, n, b, c, t, links, k);
    }
  }

  lemma AttachBits(g: Geometry, v: Vol, ow: Owner, n: nat, b: u32, c: u32, t: seq<byte>, links: u16)
    requires AttachPre(g, v, ow, n, b, c, t)
    ensures BitsExact(g, Attached(v, n, b, c, t, links).blockBits, AttachedOwner(ow, n, v.inodes[n], b, c))
  {
  }

  lemma AttachData(g: Geometry, v: Vol, ow: Owner, n: nat, b: u32, c: u32, t: seq<byte>, x: nat)
    requires AttachPre(g, v, ow, n, b, c, t) && x in ow && ow[x].inode != n && x < |v.data|
    ensures AttachedData(v.data, v.inodes[n], b, c, t)[x] == v.data[x]
  {
    AttachDefined(g, v, ow, n, b, c, t);
    if BlocksFor(v.inodes[n].size) > 10 { IndirectInRange(g, v, ow, n); }
  }

  lemma AttachOthers(g: Geometry, v: Vol, ow: Owner, n: nat, b: u32, c: u32, t: seq<byte>, links: u16)
    requires AttachPre(g, v, ow, n, b, c, t)
    ensures OthersKept(g, v, Attached(v, n, b, c, t, links), ow, AttachedOwner(ow, n, v.inodes[n], b, c), n)
  {
    hide InodesSound, OwnersExact, BitsExact, SetWord, Written;
    AttachDefined(g, v, ow, n, b, c, t);
    forall x | x in ow && ow[x].inode != n && x < |v.data|
      ensures AttachedData(v.data, v.inodes[n], b, c, t)[x] == v.data[x]
    {
      AttachData(g, v, ow, n, b, c, t, x);
    }
  }

  lemma Attach(g: Geometry, v: Vol, ow: Owner, n: nat, b: u32, c: u32, t: seq<byte>, links: u16)
    requires AttachPre(g, v, ow, n, b, c, t)
    requires g.dataStart > 0 && RecordOK(v.inodes[n].(size := v.inodes[n].size + |t|, links := links))
    ensures var w := Attached(v, n, b, c, t, links);
            && Sound(g, w, AttachedOwner(ow, n, v.inodes[n], b, c))
            && Files(w) == Files(v)[n := File(v.inodes[n].mode, links, Content(v.data, v.inodes[n]) + t)]
  {
    AttachDefined(g, v, ow, n, b, c, t);
    AttachInodeSound(g, v, ow, n, b, c, t, links);
    AttachContent(g, v, ow, n, b, c, t, links);
    var i, w := v.inodes[n], Attached(v, n, b, c, t, links);
    var ow' := AttachedOwner(ow, n, i, b, c);
    forall x | x in ow' && ow'[x].inode == n ensures Owns(w, n, ow'[x].index, x) {
      AttachOwners(g, v, ow, n, b, c, t, links, x);
    }
    AttachOthers(g, v, ow, n, b, c, t, links);
    AttachBits(g, v, ow, n, b, c, t, links);
    Replace(g, v, w, ow, ow', n);
  }

  // ---------- writes nobody can see ----------

  lemma InodeBlocks(g: Geometry, v: Vol, ow: Owner, b: nat)
    requires Sound(g, v, ow) && b in ow
    ensures g.dataStart <= b < g.totalBlocks
  {
    var n, k := ow[b].inode, ow[b].index;
    assert Owns(v, n, k, b);
    SlotKept(g, v, ow, n, k);
  }

  /** Changing blocks that no inode owns changes no file. */
  lemma UnownedWrites(g: Geometry, v: Vol, data: seq<Block>, ow: Owner)
    requires Sound(g, v, ow) && |data| == |v.data| && g.totalInodes > 0
    requires forall b :: b in ow && b < |data| ==> data[b] == v.data[b]
    ensures Sound(g, v.(data := data), ow) && Files(v.(data := data)) == Files(v)
  {
    var w := v.(data := data);
    if v.inodeBits[0] {
      InodeFrame(g, v.data, data, ow, ow, 0, v.inodes[0]);
    }
    forall b | b in ow && ow[b].inode == 0 ensures Owns(w, 0, ow[b].index, b) {
      assert Owns(v, 0, ow[b].index, b);
      SlotFrame(g, v.data, data, ow, 0, v.inodes[0], ow[b].index);
    }
    Replace(g, v, w, ow, ow, 0);
  }

  // ---------- new inodes ----------

  const FRESH := Inode(1, 1, 0, NO_POINTERS, 0, 0, 0, 0)

  lemma FreeInodeOwnsNothing(g: Geometry, v: Vol, ow: Owner, n: nat)
    requires Sound(g, v, ow) && n < g.totalInodes && !v.inodeBits[n]
    ensures forall b :: b in ow ==> ow[b].inode != n
  {
  }

  lemma Create(g: Geometry, v: Vol, ow: Owner, n: nat)
    requires Sound(g, v, ow) && n < g.totalInodes && !v.inodeBits[n]
    ensures var w := v.(inodeBits := v.inodeBits[n := true], inodes := v.inodes[n := FRESH]);
            Sound(g, w, ow) && Files(w) == Files(v)[n := File(1, 1, [])]
  {
    var w := v.(inodeBits := v.inodeBits[n := true], inodes := v.inodes[n := FRESH]);
    FreeInodeOwnsNothing(g, v, ow, n);
    Replace(g, v, w, ow, ow, n);
    assert Content(w.data, FRESH) == [];
  }

  function DirectoryInode(b: u32): (i: Inode) {
    Inode(2, 2, 128, NO_POINTERS[0 := b], 0, 0, 0, 0)
  }

  lemma CreateDirectory(g: Geometry, v: Vol, ow: Owner, n: nat, b: u32, blk: Block)
    requires Sound(g, v, ow) && n < g.totalInodes && !v.inodeBits[n] && Free(g, v, b) && g.dataStart > 0
    ensures var w := Vol(v.blockBits[b := true], v.inodeBits[n := true], v.inodes[n := DirectoryInode(b)],
        v.data[b := blk]);
            Sound(g, w, ow[b := Slot(n, 0)]) && Files(w) == Files(v)[n := File(2, 2, blk[..128])]
  {
    var i := DirectoryInode(b);
    var w := Vol(v.blockBits[b := true], v.inodeBits[n := true], v.inodes[n := i], v.data[b := blk]);
    var ow' := ow[b := Slot(n, 0)];
    assert SoundAt(g, w, ow', n) by {
      FreeInodeOwnsNothing(g, v, ow, n);
      forall k: nat | HasSlot(i, k) ensures Claimed(g, w.data, ow', n, i, k) {
        assert k == 0;
      }
    }
    assert b !in ow;
    Replace(g, v, w, ow, ow', n);
    assert Content(w.data, i) == blk[..128];
  }

  // ---------- giving blocks back ----------

  function SlotRange(data: seq<Block>, i: Inode, lo: nat, hi: nat): (s: set<nat>) {
    set k: nat | lo <= k < hi :: SlotBlock(data, i, k) as nat
  }

  /** The blocks in slots from `lo` on; the indirect block goes with the first block it serves. */
  function SlotsFrom(data: seq<Block>, i: Inode, lo: nat): (s: set<nat>) {
    SlotRange(data, i, lo, BlocksFor(i.size)) + (if lo <= 10 < BlocksFor(i.size) then {i.indirect as nat} else {})
  }

  function ClearBits(bits: seq<bool>, s: set<nat>): (r: seq<bool>)
    ensures |r| == |bits|
    ensures forall b :: 0 <= b < |bits| ==> r[b] == (bits[b] && b !in s)
  {
    seq(|bits|, b requires 0 <= b < |bits| => bits[b] && b !in s)
  }

  ghost function KeptOwners(ow: Owner, n: nat, lo: nat): (ow': Owner) {
    map b | b in ow && (ow[b].inode != n || ow[b].index < lo || (lo > 10 && ow[b].index == 1034)) :: ow[b]
  }

  lemma FreedOwners(g: Geometry, v: Vol, ow: Owner, n: nat, lo: nat)
    requires Sound(g, v, ow) && n < g.totalInodes && v.inodeBits[n] && lo <= BlocksFor(v.inodes[n].size)
    ensures forall b :: b in SlotsFrom(v.data, v.inodes[n], lo) <==> b in ow && b !in KeptOwners(ow, n, lo)
  {
    var i := v.inodes[n];
    assert InodeSound(g, v.data, ow, n, i);
    forall b | b in SlotsFrom(v.data, i, lo) ensures b in ow && b !in KeptOwners(ow, n, lo) {
      if k: nat :| lo <= k < BlocksFor(i.size) && b == SlotBlock(v.data, i, k) as nat {
        SlotKept(g, v, ow, n, k);
      } else {
        IndirectInRange(g, v, ow, n);
      }
    }
    forall b | b in ow && b !in KeptOwners(ow, n, lo) ensures b in SlotsFrom(v.data, i, lo) {
      assert Owns(v, n, ow[b].index, b);
    }
  }

  lemma FreedBits(g: Geometry, v: Vol, ow: Owner, n: nat, lo: nat)
    requires Sound(g, v, ow) && n < g.totalInodes && v.inodeBits[n] && lo <= BlocksFor(v.inodes[n].size)
    ensures BitsExact(g, ClearBits(v.blockBits, SlotsFrom(v.data, v.inodes[n], lo)), KeptOwners(ow, n, lo))
  {
    FreedOwners(g, v, ow, n, lo);
    forall b | b in ow ensures g.dataStart <= b < g.totalBlocks {
      InodeBlocks(g, v, ow, b);
    }
  }

  /** Releasing an inode and all its blocks removes its file and no other. */
  lemma Release(g: Geometry, v: Vol, ow: Owner, n: nat)
    requires Sound(g, v, ow) && n < g.totalInodes && v.inodeBits[n]
    ensures var w := Vol(ClearBits(v.blockBits, SlotsFrom(v.data, v.inodes[n], 0)), v.inodeBits[n := false],
                         v.inodes[n := ZERO_INODE], v.data);
            Sound(g, w, KeptOwners(ow, n, 0)) && Files(w) == Files(v) - {n}
  {
    var w := Vol(ClearBits(v.blockBits, SlotsFrom(v.data, v.inodes[n], 0)), v.inodeBits[n := false],
                 v.inodes[n := ZERO_INODE], v.data);
    FreedBits(g, v, ow, n, 0);
    Replace(g, v, w, ow, KeptOwners(ow, n, 0), n);
  }

  // ---------- shortening a file ----------

  /** The block with the words `lo..hi` cleared. */
  function ClearWords(b: Block, lo: nat, hi: nat): (r: Block)
    requires hi <= 1024
  {
    if hi <= lo then b else SetWord(ClearWords(b, lo, hi - 1), hi - 1, 0)
  }

  lemma {:induction false} WordOfClearWords(b: Block, lo: nat, hi: nat, j: nat)
    requires hi <= 1024 && j < 1024
    ensures Word(ClearWords(b, lo, hi), j) == if lo <= j < hi then 0 else Word(b, j)
  {
    if hi > lo {
      WordOfClearWords(b, lo, hi - 1, j);
      WordOfSetWord(ClearWords(b, lo, hi - 1), hi - 1, 0, j);
    }
  }

  function ShrunkPointers(p: Pointers, z: nat): (q: Pointers)
    ensures forall k :: 0 <= k < 10 ==> q[k] == if k < z then p[k] else 0
  {
    seq(10, k requires 0 <= k < 10 => if k < z then p[k] else 0)
  }

  function ShrunkInode(i: Inode, size: u32): (j: Inode) {
    var z := BlocksFor(size);
    i.(direct := ShrunkPointers(i.direct, z), indirect := if z > 10 then i.indirect else 0, size := size)
  }

  function ShrunkData(data: seq<Block>, i: Inode, size: nat): (d: seq<Block>)
    requires size <= i.size <= MAX_FILE_SIZE
    ensures |d| == |data|
  {
    var z := BlocksFor(size);
    if z > 10 && i.indirect < |data|
    then data[i.indirect := ClearWords(data[i.indirect], z - 10, BlocksFor(i.size) - 10)] else data
  }

  /** The volume after the last write of a truncation. */
  function Shrunk(v: Vol, n: nat, size: u32): (w: Vol)
    requires n < |v.inodes| && size <= v.inodes[n].size <= MAX_FILE_SIZE
  {
    var i := v.inodes[n];
    Vol(ClearBits(v.blockBits, SlotsFrom(v.data, i, BlocksFor(size))), v.inodeBits,
        v.inodes[n := ShrunkInode(i, size)], ShrunkData(v.data, i, size))
  }

  ghost predicate ShrinkPre(g: Geometry, v: Vol, ow: Owner, n: nat, size: u32) {
    && Sound(g, v, ow) && n < g.totalInodes && v.inodeBits[n]
    && size <= v.inodes[n].size <= MAX_FILE_SIZE && RecordOK(v.inodes[n].(size := size))
  }

  lemma ShrinkSlot(g: Geometry, v: Vol, ow: Owner, n: nat, size: u32, k: nat)
    requires ShrinkPre(g, v, ow, n, size) && HasSlot(ShrunkInode(v.inodes[n], size), k)
    ensures HasSlot(v.inodes[n], k)
    ensures SlotBlock(ShrunkData(v.data, v.inodes[n], size), ShrunkInode(v.inodes[n], size), k)
         == SlotBlock(v.data, v.inodes[n], k)
  {
    var i := v.inodes[n];
    if BlocksFor(size) > 10 {
      IndirectInRange(g, v, ow, n);
      if 10 <= k < 1034 {
        WordOfClearWords(v.data[i.indirect], BlocksFor(size) - 10, BlocksFor(i.size) - 10, k - 10);
      }
    }
  }

  lemma ShrinkInodeSound(g: Geometry, v: Vol, ow: Owner, n: nat, size: u32)
    requires ShrinkPre(g, v, ow, n, size)
    ensures InodeSound(g, ShrunkData(v.data, v.inodes[n], size), KeptOwners(ow, n, BlocksFor(size)), n,
                       ShrunkInode(v.inodes[n], size))
  {
    var i, j, d, ow' := v.inodes[n], ShrunkInode(v.inodes[n], size), ShrunkData(v.data, v.inodes[n], size),
                        KeptOwners(ow, n, BlocksFor(size));
    assert InodeSound(g, v.data, ow, n, i);
    forall k: nat | HasSlot(j, k) ensures Claimed(g, d, ow', n, j, k) {
      ShrinkSlot(g, v, ow, n, size, k);
      SlotKept(g, v, ow, n, k);
    }
    if BlocksFor(size) > 10 {
      IndirectInRange(g, v, ow, n);
      forall x: nat | BlocksFor(size) - 10 <= x < 1024 ensures Word(d[j.indirect], x) == 0 {
        WordOfClearWords(v.data[i.indirect], BlocksFor(size) - 10, BlocksFor(i.size) - 10, x);
      }
    }
  }

  lemma ShrinkContent(g: Geometry, v: Vol, ow: Owner, n: nat, size: u32)
    requires ShrinkPre(g, v, ow, n, size)
    ensures Content(ShrunkData(v.data, v.inodes[n], size), ShrunkInode(v.inodes[n], size))
         == Content(v.data, v.inodes[n])[..size]
  {
    var i, j, d := v.inodes[n], ShrunkInode(v.inodes[n], size), ShrunkData(v.data, v.inodes[n], size);
    var s := Content(v.data, i);
    forall x: nat | x < size ensures ByteAt(d, j, x) == s[x] {
      assert HasSlot(j, x / 4096);
      ShrinkSlot(g, v, ow, n, size, x / 4096);
      SlotKept(g, v, ow, n, x / 4096);
      if BlocksFor(size) > 10 { IndirectInRange(g, v, ow, n); }
      assert s[x] == ByteAt(v.data, i, x);
    }
  }

  lemma ShrinkOthers(g: Geometry, v: Vol, ow: Owner, n: nat, size: u32)
    requires ShrinkPre(g, v, ow, n, size)
    ensures var w, ow' := Shrunk(v, n, size), KeptOwners(ow, n, BlocksFor(size));
            OthersKept(g, v, w, ow, ow', n) && BitsExact(g, w.blockBits, ow')
  {
    FreedBits(g, v, ow, n, BlocksFor(size));
    if BlocksFor(size) > 10 { IndirectInRange(g, v, ow, n); }
  }

  /** Truncation keeps a prefix and gives back every block past it. */
  lemma Shrink(g: Geometry, v: Vol, ow: Owner, n: nat, size: u32)
    requires ShrinkPre(g, v, ow, n, size)
    ensures var w := Shrunk(v, n, size);
            && Sound(g, w, KeptOwners(ow, n, BlocksFor(size)))
            && Files(w) == Files(v)[n := File(v.inodes[n].mode, v.inodes[n].links,
               Content(v.data, v.inodes[n])[..size])]
  {
    var w, ow' := Shrunk(v, n, size), KeptOwners(ow, n, BlocksFor(size));
    ShrinkInodeSound(g, v, ow, n, size);
    ShrinkContent(g, v, ow, n, size);
    ShrinkOthers(g, v, ow, n, size);
    forall b | b in ow' && ow'[b].inode == n ensures Owns(w, n, ow'[b].index, b) {
      assert Owns(v, n, ow[b].index, b);
      ShrinkSlot(g, v, ow, n, size, ow[b].index);
    }
    Replace(g, v, w, ow, ow', n);
  }
}
