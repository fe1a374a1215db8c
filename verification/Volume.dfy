/** Who owns which block: the block-level invariant of a MiniFS volume, and the byte
    sequence each inode stands for. */
module Volume {
  import opened Bytes
  import opened Layout

  /** Number of blocks a file of `size` bytes needs. */
  function BlocksFor(size: nat): (n: nat)
    ensures 4096 * (n - 1) < size <= 4096 * n
  {
    if size == 0 then 0 else (size - 1) / 4096 + 1
  }

  /** The pointer slots of an inode: one per file block, and one for the indirect block.
      The indirect block's slot has a number that no file block can have. */
  predicate HasSlot(i: Inode, k: nat) {
    k < BlocksFor(i.size) || (k == 1034 && BlocksFor(i.size) > 10)
  }

  function SlotBlock(data: seq<Block>, i: Inode, k: nat): (b: u32) {
    if k < 10 then i.direct[k]
    else if k == 1034 then i.indirect
    else if k < 1034 && i.indirect < |data| then Word(data[i.indirect], k - 10)
    else 0
  }

  /** What decoding an inode record insists on. */
  predicate RecordOK(i: Inode) {
    && (i.mode == MODE_REGULAR || i.mode == MODE_DIRECTORY)
    && i.links != 0
    && i.size <= MAX_FILE_SIZE
    && i.reserved == 0
    && (i.mode == MODE_DIRECTORY ==> i.size != 0 && i.size % 64 == 0)
  }

  /** Direct and indirect pointers are non-zero exactly where the size needs them. */
  predicate PointersOK(i: Inode) {
    && (forall k :: 0 <= k < 10 ==> (i.direct[k] != 0 <==> k < BlocksFor(i.size)))
    && (i.indirect != 0 <==> BlocksFor(i.size) > 10)
  }

  predicate TailZero(data: seq<Block>, i: Inode) {
    BlocksFor(i.size) > 10 && i.indirect < |data| ==>
      forall j: nat :: BlocksFor(i.size) - 10 <= j < 1024 ==> Word(data[i.indirect], j) == 0
  }

  /** Maps each block in use to the one inode slot that refers to it. */
  type Owner = map<nat, Slot>

  datatype Slot = Slot(inode: nat, index: nat)

  ghost predicate Claimed(g: Geometry, data: seq<Block>, ow: Owner, n: nat, i: Inode, k: nat) {
    var b := SlotBlock(data, i, k);
    g.dataStart <= b < g.totalBlocks && b in ow && ow[b] == Slot(n, k)
  }

  ghost predicate InodeSound(g: Geometry, data: seq<Block>, ow: Owner, n: nat, i: Inode) {
    && RecordOK(i)
    && PointersOK(i)
    && TailZero(data, i)
    && (forall k: nat :: HasSlot(i, k) ==> Claimed(g, data, ow, n, i, k))
  }

  ghost predicate InodesSound(g: Geometry, v: Vol, ow: Owner)
    requires Shape(g, v)
  {
    && (forall n: nat :: n < g.totalInodes && v.inodeBits[n] ==> InodeSound(g, v.data, ow, n, v.inodes[n]))
    && (forall n: nat :: n < g.totalInodes && !v.inodeBits[n] ==> v.inodes[n] == ZERO_INODE)
  }

  ghost predicate Owns(v: Vol, n: nat, k: nat, b: nat) {
    && n < |v.inodes| && n < |v.inodeBits|
    && v.inodeBits[n] && HasSlot(v.inodes[n], k) && SlotBlock(v.data, v.inodes[n], k) == b
  }

  ghost predicate OwnersExact(g: Geometry, v: Vol, ow: Owner) {
    forall b :: b in ow ==> ow[b].inode < g.totalInodes && Owns(v, ow[b].inode, ow[b].index, b)
  }

  /** A block bit is set exactly for metadata blocks, owned blocks and the padding past
      the volume's end. */
  ghost predicate BitsExact(g: Geometry, bits: seq<bool>, ow: Owner) {
    forall b :: 0 <= b < |bits| ==> (bits[b] <==> b < g.dataStart || b >= g.totalBlocks || b in ow)
  }

  ghost predicate InodePadding(g: Geometry, bits: seq<bool>) {
    forall n :: g.totalInodes <= n < |bits| ==> bits[n]
  }

  ghost predicate Sound(g: Geometry, v: Vol, ow: Owner) {
    && Shape(g, v)
    && InodesSound(g, v, ow)
    && OwnersExact(g, v, ow)
    && BitsExact(g, v.blockBits, ow)
    && InodePadding(g, v.inodeBits)
  }

  ghost predicate Free(g: Geometry, v: Vol, b: nat) {
    g.dataStart <= b < g.totalBlocks && b < |v.blockBits| && !v.blockBits[b]
  }

  ghost predicate Allocated(g: Geometry, v: Vol, b: nat) {
    g.dataStart <= b < g.totalBlocks && b < |v.blockBits| && v.blockBits[b]
  }

  // ---------- contents ----------

  function ByteAt(data: seq<Block>, i: Inode, j: nat): (x: byte) {
    var b := SlotBlock(data, i, j / 4096);
    if b < |data| then data[b][j % 4096] else 0
  }

  function Content(data: seq<Block>, i: Inode): (s: seq<byte>)
    ensures |s| == i.size
  {
    seq(i.size, j requires 0 <= j < i.size => ByteAt(data, i, j))
  }

  /** An allocated inode as a file: its kind, link count and bytes. */
  datatype File = File(mode: u16, links: u16, content: seq<byte>)

  ghost function Files(v: Vol): (fs: map<nat, File>) {
    map n: nat | n < |v.inodes| && n < |v.inodeBits| && v.inodeBits[n] ::
      File(v.inodes[n].mode, v.inodes[n].links, Content(v.data, v.inodes[n]))
  }

  /** `e` keeps every block that inode `n` owns. */
  ghost predicate KeepsBlocks(d: seq<Block>, e: seq<Block>, ow: Owner, n: nat) {
    |d| == |e| && forall b :: b in ow && ow[b].inode == n && b < |d| ==> e[b] == d[b]
  }

  lemma SlotFrame(g: Geometry, d: seq<Block>, e: seq<Block>, ow: Owner, n: nat, i: Inode, k: nat)
    requires |d| == g.totalBlocks && InodeSound(g, d, ow, n, i) && KeepsBlocks(d, e, ow, n)
    requires HasSlot(i, k)
    ensures SlotBlock(e, i, k) == SlotBlock(d, i, k)
    ensures e[SlotBlock(d, i, k)] == d[SlotBlock(d, i, k)]
  {
    assert Claimed(g, d, ow, n, i, k);
    if BlocksFor(i.size) > 10 {
      assert HasSlot(i, 1034);
      assert Claimed(g, d, ow, n, i, 1034);
    }
  }

  /** Writes to blocks that an inode does not own change neither its soundness nor its bytes. */
  lemma InodeFrame(g: Geometry, d: seq<Block>, e: seq<Block>, ow: Owner, ow': Owner, n: nat, i: Inode)
    requires |d| == g.totalBlocks && InodeSound(g, d, ow, n, i) && KeepsBlocks(d, e, ow, n)
    requires forall b :: b in ow && ow[b].inode == n ==> b in ow' && ow'[b] == ow[b]
    ensures InodeSound(g, e, ow', n, i)
    ensures Content(e, i) == Content(d, i)
  {
    forall k: nat | HasSlot(i, k) ensures Claimed(g, e, ow', n, i, k) {
      assert Claimed(g, d, ow, n, i, k);
      SlotFrame(g, d, e, ow, n, i, k);
    }
    if BlocksFor(i.size) > 10 {
      assert HasSlot(i, 1034);
      SlotFrame(g, d, e, ow, n, i, 1034);
    }
    forall j: nat | j < i.size ensures ByteAt(e, i, j) == ByteAt(d, i, j) {
      assert HasSlot(i, j / 4096);
      assert Claimed(g, d, ow, n, i, j / 4096);
      SlotFrame(g, d, e, ow, n, i, j / 4096);
    }
  }

  // ---------- replacing one inode ----------

  /** From `v` to `w` nothing changes but inode `n`, the blocks it owned or owns, and blocks
      that nobody owns. */
  ghost predicate OthersKept(g: Geometry, v: Vol, w: Vol, ow: Owner, ow': Owner, n: nat) {
    && Shape(g, v) && Shape(g, w)
    && (forall m :: 0 <= m < |v.inodeBits| && m != n ==> w.inodeBits[m] == v.inodeBits[m])
    && (forall m :: 0 <= m < |v.inodes| && m != n ==> w.inodes[m] == v.inodes[m])
    && (forall b :: b in ow && ow[b].inode != n && b < |v.data| ==>
       b in ow' && ow'[b] == ow[b] && w.data[b] == v.data[b])
    && (forall b :: b in ow' && ow'[b].inode != n ==> b in ow && ow'[b] == ow[b])
  }

  lemma OtherInode(g: Geometry, v: Vol, w: Vol, ow: Owner, ow': Owner, n: nat, m: nat)
    requires Sound(g, v, ow) && OthersKept(g, v, w, ow, ow', n)
    requires m < g.totalInodes && m != n && v.inodeBits[m]
    ensures w.inodeBits[m] && InodeSound(g, w.data, ow', m, w.inodes[m])
    ensures Content(w.data, w.inodes[m]) == Content(v.data, v.inodes[m])
  {
    forall b | b in ow && ow[b].inode == m ensures b < |v.data| {
      assert Owns(v, m, ow[b].index, b);
      assert Claimed(g, v.data, ow, m, v.inodes[m], ow[b].index);
    }
    InodeFrame(g, v.data, w.data, ow, ow', m, v.inodes[m]);
  }

  lemma OtherOwners(g: Geometry, v: Vol, w: Vol, ow: Owner, ow': Owner, n: nat, b: nat)
    requires Sound(g, v, ow) && OthersKept(g, v, w, ow, ow', n)
    requires b in ow' && ow'[b].inode != n
    ensures ow'[b].inode < g.totalInodes && Owns(w, ow'[b].inode, ow'[b].index, b)
  {
    var m, k := ow[b].inode, ow[b].index;
    assert Owns(v, m, k, b);
    OtherInode(g, v, w, ow, ow', n, m);
    assert Claimed(g, w.data, ow', m, w.inodes[m], k);
    assert Claimed(g, v.data, ow, m, v.inodes[m], k);
    forall c | c in ow && ow[c].inode == m ensures c < |v.data| {
      assert Owns(v, m, ow[c].index, c);
      assert Claimed(g, v.data, ow, m, v.inodes[m], ow[c].index);
    }
    SlotFrame(g, v.data, w.data, ow, m, v.inodes[m], k);
  }

  ghost predicate SoundAt(g: Geometry, w: Vol, ow: Owner, n: nat)
    requires Shape(g, w) && n < g.totalInodes
  {
    && (w.inodeBits[n] ==> InodeSound(g, w.data, ow, n, w.inodes[n]))
    && (!w.inodeBits[n] ==> w.inodes[n] == ZERO_INODE)
    && (forall b :: b in ow && ow[b].inode == n ==> Owns(w, n, ow[b].index, b))
  }

  /** If everything else is kept and inode `n` is sound again, the volume is sound again, and
      as a set of files it differs in `n` only. */
  lemma Replace(g: Geometry, v: Vol, w: Vol, ow: Owner, ow': Owner, n: nat)
    requires Sound(g, v, ow) && OthersKept(g, v, w, ow, ow', n) && n < g.totalInodes
    requires SoundAt(g, w, ow', n) && BitsExact(g, w.blockBits, ow')
    ensures Sound(g, w, ow')
    ensures Files(w) == if w.inodeBits[n]
                        then Files(v)[n := File(w.inodes[n].mode, w.inodes[n].links, Content(w.data, w.inodes[n]))]
                        else Files(v) - {n}
  {
    forall m: nat | m < g.totalInodes && m != n && v.inodeBits[m]
      ensures InodeSound(g, w.data, ow', m, w.inodes[m]) && Content(w.data, w.inodes[m]) == Content(v.data, v.inodes[m])
    {
      OtherInode(g, v, w, ow, ow', n, m);
    }
    forall b | b in ow' ensures ow'[b].inode < g.totalInodes && Owns(w, ow'[b].inode, ow'[b].index, b) {
      if ow'[b].inode != n {
        OtherOwners(g, v, w, ow, ow', n, b);
      }
    }
  }
}
