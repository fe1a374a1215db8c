/** Building a new volume: the host tool's builder, and the volume that comes out of it. */
module Mkfs {
  import opened Bytes
  import opened Layout
  import opened Volume
  import opened BlockOps
  import opened Directory

  // ---------- the empty volume ----------

  lemma {:induction false} NoBitInZero(k: nat)
    ensures !Bit(0, k)
  {
    if k > 0 { NoBitInZero(k - 1); }
  }

  function AllFalse(n: nat): (s: seq<bool>)
    ensures |s| == n && forall i :: 0 <= i < n ==> !s[i]
  {
    seq(n, _ => false)
  }

  function NoInodes(n: nat): (s: seq<Inode>)
    ensures |s| == n && forall i :: 0 <= i < n ==> s[i] == ZERO_INODE
  {
    seq(n, _ => ZERO_INODE)
  }

  function ZeroBlocks(n: nat): (s: seq<Block>)
    ensures |s| == n && forall i :: 0 <= i < n ==> s[i] == ZERO_BLOCK
  {
    seq(n, _ => ZERO_BLOCK)
  }

  ghost function ZeroVolume(g: Geometry): (v: Vol) {
    Vol(AllFalse(g.blockBitmapBlocks * 32768), AllFalse(g.inodeBitmapBlocks * 32768), NoInodes(g.totalInodes),
        ZeroBlocks(g.totalBlocks))
  }

  lemma ZeroBits(disk: Disk, start: nat, n: nat)
    requires forall b :: 0 <= b < |disk| ==> disk[b] == ZERO_BLOCK
    requires n % 32768 == 0 && start + n / 32768 <= |disk|
    ensures EncodesBits(disk, start, AllFalse(n))
  {
    forall i: nat | i < n ensures !BitmapBit(disk, start, i) { NoBitInZero(i % 32768 % 8); }
  }

  lemma ZeroTable(disk: Disk, start: nat, n: nat)
    requires forall b :: 0 <= b < |disk| ==> disk[b] == ZERO_BLOCK
    requires start + (n + 63) / 64 <= |disk|
    ensures EncodesInodes(disk, start, NoInodes(n))
  {
    forall m: nat | m < n ensures TableInode(disk, start, m) == ZERO_INODE {
      var o := RecordOffset(m);
      ZeroRecord(disk[start + m / 64][o..o + 64]);
    }
  }

  lemma ZeroRepresents(g: Geometry)
    requires g.Valid()
    ensures Represents(g, ZeroBlocks(g.totalBlocks), ZeroVolume(g))
  {
    hide BitmapBit, TableInode, EncodesBits, EncodesInodes;
    var disk := ZeroBlocks(g.totalBlocks);
    ZeroBits(disk, g.blockBitmapStart, g.blockBitmapBlocks * 32768);
    ZeroBits(disk, g.inodeBitmapStart, g.inodeBitmapBlocks * 32768);
    ZeroTable(disk, g.inodeTableStart, g.totalInodes);
  }

  /** Everything from `from` on is free and zero. */
  ghost predicate FreshFrom(g: Geometry, v: Vol, from: nat) {
    && Shape(g, v)
    && forall b :: from <= b < g.totalBlocks ==> !v.blockBits[b] && v.data[b] == ZERO_BLOCK
  }

  lemma EmptySound(g: Geometry, v: Vol)
    requires g.Valid() && Shape(g, v) && v.inodes == NoInodes(g.totalInodes)
    requires forall b :: 0 <= b < |v.blockBits| ==> (v.blockBits[b] <==> b < g.dataStart || b >= g.totalBlocks)
    requires forall n :: 0 <= n < |v.inodeBits| ==> (v.inodeBits[n] <==> n >= g.totalInodes)
    ensures Sound(g, v, map[]) && Files(v) == map[]
  {
  }

  // ---------- files ----------

  /** Block `k` of a file, padded with zeros. */
  function Chunk(bytes: seq<byte>, k: nat): (b: Block) {
    var part := if 4096 * k >= |bytes| then [] else if 4096 * k + 4096 <= |bytes| then bytes[4096 * k..4096 * k + 4096]
                                                    else bytes[4096 * k..];
    part + Zeros(4096 - |part|)
  }

  function Marked(bits: seq<bool>, start: nat, count: nat): (r: seq<bool>)
    ensures |r| == |bits| && forall b :: 0 <= b < |bits| ==> r[b] == (bits[b] || start <= b < start + count)
  {
    seq(|bits|, b requires 0 <= b < |bits| => bits[b] || start <= b < start + count)
  }

  function FilledBlock(data: seq<Block>, start: nat, bytes: seq<byte>, count: nat, b: nat): (x: Block)
    requires b < |data|
  {
    if start <= b < start + count then Chunk(bytes, b - start) else data[b]
  }

  function Filled(data: seq<Block>, start: nat, bytes: seq<byte>, count: nat): (r: seq<Block>)
    ensures |r| == |data| && forall b :: 0 <= b < |data| ==>
        r[b] == if start <= b < start + count then Chunk(bytes, b - start) else data[b]
  {
    seq(|data|, b requires 0 <= b < |data| => FilledBlock(data, start, bytes, count, b))
  }

  function DirectBlocks(start: nat, count: nat): (p: Pointers)
    requires start + count < 0x1_0000_0000
    ensures forall k :: 0 <= k < 10 ==> p[k] == if k < count then start + k else 0
  {
    seq(10, k requires 0 <= k < 10 => if k < count then start + k else 0)
  }

  function FileInode(f: File, start: nat, count: nat): (i: Inode)
    requires start + count < 0x1_0000_0000 && |f.content| < 0x1_0000_0000
  {
    Inode(f.mode, f.links, |f.content|, DirectBlocks(start, count), if count > 10 then start + count else 0, 0, 0, 0)
  }

  /** `blk` holds the pointers of the blocks after the tenth. */
  ghost predicate PointerBlock(blk: Block, start: nat, count: nat) {
    forall j: nat :: j < 1024 ==> Word(blk, j) == if j + 10 < count then start + 10 + j else 0
  }

  /** The volume after a file was written to the blocks from `start` on. */
  ghost function WithFile(v: Vol, n: nat, f: File, start: nat, blk: Block): (w: Vol)
    requires n < |v.inodes| && n < |v.inodeBits| && |f.content| <= MAX_FILE_SIZE && |v.data| < 0x1_0000_0000
    requires start + BlocksFor(|f.content|) + (if BlocksFor(|f.content|) > 10 then 1 else 0) <= |v.data|
  {
    var count := BlocksFor(|f.content|);
    var data := Filled(v.data, start, f.content, count);
    Vol(Marked(v.blockBits, start, if count > 10 then count + 1 else count), v.inodeBits[n := true],
        v.inodes[n := FileInode(f, start, count)], if count > 10 then data[start + count := blk] else data)
  }

  /** Blocks `start..start + k` belong to slots `0..k` of inode `n`. */
  ghost function Owning(ow: Owner, n: nat, start: nat, k: nat): (ow': Owner)
    ensures forall b :: b in ow' <==> b in ow || start <= b < start + k
    ensures forall b :: b in ow' ==> ow'[b] == if start <= b < start + k then Slot(n, b - start) else ow[b]
  {
    if k == 0 then ow else Owning(ow, n, start, k - 1)[start + k - 1 := Slot(n, k - 1)]
  }

  ghost function FileOwner(ow: Owner, n: nat, start: nat, count: nat): (ow': Owner) {
    if count > 10 then Owning(ow, n, start, count)[start + count := Slot(n, 1034)] else Owning(ow, n, start, count)
  }

  predicate Writable(f: File) {
    && f.links != 0 && |f.content| <= MAX_FILE_SIZE
    && (f.mode == MODE_REGULAR || (f.mode == MODE_DIRECTORY && f.content != [] && |f.content| % 64 == 0))
  }

  ghost predicate CanWriteFile(g: Geometry, v: Vol, ow: Owner, n: nat, f: File, start: nat, blk: Block) {
    && g.Valid() && Sound(g, v, ow) && n < g.totalInodes && !v.inodeBits[n] && Writable(f)
    && g.dataStart <= start && FreshFrom(g, v, start)
    && start + BlocksFor(|f.content|) + (if BlocksFor(|f.content|) > 10 then 1 else 0) <= g.totalBlocks
    && (BlocksFor(|f.content|) > 10 ==> PointerBlock(blk, start, BlocksFor(|f.content|)))
  }

  /** Every block of the file is claimed, and the bytes read back are those written. */
  lemma FileSlots(g: Geometry, v: Vol, ow: Owner, n: nat, f: File, start: nat, blk: Block, k: nat)
    requires CanWriteFile(g, v, ow, n, f, start, blk)
    requires HasSlot(FileInode(f, start, BlocksFor(|f.content|)), k)
    ensures var w, i, c := WithFile(v, n, f, start, blk), FileInode(f, start, BlocksFor(|f.content|)),
        BlocksFor(|f.content|);
            && SlotBlock(w.data, i, k) == (if k == 1034 then start + c else start + k)
            && Claimed(g, w.data, FileOwner(ow, n, start, c), n, i, k)
            && (k != 1034 ==> w.data[start + k] == Chunk(f.content, k))
  {
    hide Sound, Chunk;
    var w, i, c := WithFile(v, n, f, start, blk), FileInode(f, start, BlocksFor(|f.content|)), BlocksFor(|f.content|);
    assert c <= 1034;
    if 10 <= k < 1034 {
      assert w.data[start + c] == blk;
      assert Word(blk, k - 10) == start + k;
    }
  }

  lemma FileInodeSound(g: Geometry, v: Vol, ow: Owner, n: nat, f: File, start: nat, blk: Block)
    requires CanWriteFile(g, v, ow, n, f, start, blk)
    ensures var w, c := WithFile(v, n, f, start, blk), BlocksFor(|f.content|);
            && InodeSound(g, w.data, FileOwner(ow, n, start, c), n, FileInode(f, start, c))
            && Content(w.data, FileInode(f, start, c)) == f.content
  {
    hide Sound, Chunk, HasSlot, SlotBlock, Claimed;
    var c := BlocksFor(|f.content|);
    var w, i, ow' := WithFile(v, n, f, start, blk), FileInode(f, start, c), FileOwner(ow, n, start, c);
    forall k: nat | HasSlot(i, k) ensures Claimed(g, w.data, ow', n, i, k) { FileSlots(g, v, ow, n, f, start, blk, k); }
    FilePointers(g, v, ow, n, f, start, blk);
    forall j: nat | j < |f.content| ensures ByteAt(w.data, i, j) == f.content[j] {
      SlotOfByte(i, j);
      FileSlots(g, v, ow, n, f, start, blk, j / 4096);
      ChunkByte(f.content, j);
    }
    assert Content(w.data, i) == f.content;
  }

  lemma SlotOfByte(i: Inode, j: nat)
    requires j < i.size && i.size <= MAX_FILE_SIZE
    ensures HasSlot(i, j / 4096) && j / 4096 != 1034
  {
  }

  lemma ChunkByte(bytes: seq<byte>, j: nat)
    requires j < |bytes|
    ensures Chunk(bytes, j / 4096)[j % 4096] == bytes[j]
  {
  }

  lemma FilePointers(g: Geometry, v: Vol, ow: Owner, n: nat, f: File, start: nat, blk: Block)
    requires CanWriteFile(g, v, ow, n, f, start, blk)
    ensures var w, i := WithFile(v, n, f, start, blk), FileInode(f, start, BlocksFor(|f.content|));
            RecordOK(i) && PointersOK(i) && TailZero(w.data, i)
  {
    hide Sound, Chunk;
    var w, i, c := WithFile(v, n, f, start, blk), FileInode(f, start, BlocksFor(|f.content|)), BlocksFor(|f.content|);
    if c > 10 {
      assert w.data[start + c] == blk;
      forall j: nat | c - 10 <= j < 1024 ensures Word(w.data[i.indirect], j) == 0 {
        assert Word(blk, j) == 0;
      }
    }
  }

  /** Writing a file adds that file, with exactly its bytes, and changes no other. */
  lemma FileWritten(g: Geometry, v: Vol, ow: Owner, n: nat, f: File, start: nat, blk: Block)
    requires CanWriteFile(g, v, ow, n, f, start, blk)
    ensures var w, c := WithFile(v, n, f, start, blk), BlocksFor(|f.content|);
            && Sound(g, w, FileOwner(ow, n, start, c)) && Files(w) == Files(v)[n := f]
            && FreshFrom(g, w, start + (if c > 10 then c + 1 else c))
  {
    hide Chunk, Content, WithFile, FileOwner, Sound, OthersKept, SoundAt, FileInode;
    var c := BlocksFor(|f.content|);
    var w, ow' := WithFile(v, n, f, start, blk), FileOwner(ow, n, start, c);
    FileSoundAt(g, v, ow, n, f, start, blk);
    FileOthers(g, v, ow, n, f, start, blk);
    FileBits(g, v, ow, n, f, start, blk);
    Replace(g, v, w, ow, ow', n);
  }

  lemma FileSoundAt(g: Geometry, v: Vol, ow: Owner, n: nat, f: File, start: nat, blk: Block)
    requires CanWriteFile(g, v, ow, n, f, start, blk)
    ensures var w, c := WithFile(v, n, f, start, blk), BlocksFor(|f.content|);
            && Shape(g, w) && SoundAt(g, w, FileOwner(ow, n, start, c), n) && w.inodeBits[n]
            && w.inodes[n].mode == f.mode && w.inodes[n].links == f.links && Content(w.data, w.inodes[n]) == f.content
  {
    hide Chunk, InodesSound, Content, InodeSound, SlotBlock, BitsExact;
    var c := BlocksFor(|f.content|);
    var w, i, ow' := WithFile(v, n, f, start, blk), FileInode(f, start, c), FileOwner(ow, n, start, c);
    FileInodeSound(g, v, ow, n, f, start, blk);
    FreeInodeOwnsNothing(g, v, ow, n);
    forall b | b in ow' && ow'[b].inode == n ensures Owns(w, n, ow'[b].index, b) {
      FileSlots(g, v, ow, n, f, start, blk, ow'[b].index);
    }
  }

  lemma FileOthers(g: Geometry, v: Vol, ow: Owner, n: nat, f: File, start: nat, blk: Block)
    requires CanWriteFile(g, v, ow, n, f, start, blk)
    ensures OthersKept(g, v, WithFile(v, n, f, start, blk), ow, FileOwner(ow, n, start, BlocksFor(|f.content|)), n)
  {
    hide Chunk, InodesSound, OwnersExact, FileInode, FileOwner, Filled, Marked;
    var c := BlocksFor(|f.content|);
    var end := start + if c > 10 then c + 1 else c;
    var w, ow' := WithFile(v, n, f, start, blk), FileOwner(ow, n, start, c);
    FileOwnerIs(ow, n, start, c);
    forall b: nat | b < g.totalBlocks && !(start <= b < end) ensures w.data[b] == v.data[b] { }
    forall b | b in ow && b < g.totalBlocks ensures b < start { assert b < |v.blockBits|; }
  }

  lemma FileBits(g: Geometry, v: Vol, ow: Owner, n: nat, f: File, start: nat, blk: Block)
    requires CanWriteFile(g, v, ow, n, f, start, blk)
    ensures var w, c := WithFile(v, n, f, start, blk), BlocksFor(|f.content|);
            BitsExact(g, w.blockBits, FileOwner(ow, n, start, c))
              && FreshFrom(g, w, start + (if c > 10 then c + 1 else c))
  {
    hide Chunk, InodesSound, OwnersExact, FileInode, FileOwner, Filled, Marked;
    FileOwnerIs(ow, n, start, BlocksFor(|f.content|));
  }

  lemma FileOwnerIs(ow: Owner, n: nat, start: nat, count: nat)
    ensures var ow', end := FileOwner(ow, n, start, count), start + (if count > 10 then count + 1 else count);
            && (forall b :: b in ow' <==> b in ow || start <= b < end)
            && (forall b :: b in ow' ==> if start <= b < end then ow'[b].inode == n else ow'[b] == ow[b])
  {
  }

  // ---------- the builder ----------

  class Builder {
    const g: Geometry
    var payload: Disk
    var nextBlock: nat
    ghost var vol: Vol
    ghost var ow: Owner

    ghost predicate Tracks()
      reads `payload, `vol
    {
      g.Valid() && Represents(g, payload, vol)
    }

    ghost predicate Valid()
      reads this
    {
      Tracks() && Sound(g, vol, ow) && g.dataStart <= nextBlock <= g.totalBlocks && FreshFrom(g, vol, nextBlock)
    }

    method MarkBlock(b: nat)
      requires Tracks() && b < |vol.blockBits|
      modifies `payload, `vol
      ensures Tracks() && vol == old(vol).(blockBits := old(vol).blockBits[b := true])
    {
      WriteBlockBit(g, payload, vol, b, true);
      payload, vol := SetBitmapBit(payload, g.blockBitmapStart, b, true), vol.(blockBits := vol.blockBits[b := true]);
    }

    method MarkInode(n: nat)
      requires Tracks() && n < |vol.inodeBits|
      modifies `payload, `vol
      ensures Tracks() && vol == old(vol).(inodeBits := old(vol).inodeBits[n := true])
    {
      WriteInodeBit(g, payload, vol, n, true);
      payload, vol := SetBitmapBit(payload, g.inodeBitmapStart, n, true), vol.(inodeBits := vol.inodeBits[n := true]);
    }

    method PutBlock(b: nat, x: Block)
      requires Tracks() && g.dataStart <= b < g.totalBlocks
      modifies `payload, `vol
      ensures Tracks() && vol == old(vol).(data := old(vol).data[b := x])
    {
      WriteData(g, payload, vol, b, x);
      payload, vol := payload[b := x], vol.(data := vol.data[b := x]);
    }

    constructor (g: Geometry)
      requires g.Valid()
      ensures Valid() && this.g == g && nextBlock == g.dataStart && Files(vol) == map[]
      ensures vol.inodeBits[..g.totalInodes] == AllFalse(g.totalInodes)
    {
      this.g, this.payload, this.nextBlock := g, ZeroBlocks(g.totalBlocks), g.dataStart;
      vol, ow := ZeroVolume(g), map[];
      new;
      ZeroRepresents(g);
      MarkMetadata();
      EmptySound(g, vol);
    }

    /** Marks the metadata blocks, and everything past the end of the volume, as used. */
    method MarkMetadata()
      requires Tracks() && vol == ZeroVolume(g)
      modifies `payload, `vol
      ensures Tracks() && Shape(g, vol) && vol == ZeroVolume(g).(blockBits := vol.blockBits, inodeBits := vol.inodeBits)
      ensures forall b :: 0 <= b < |vol.blockBits| ==> (vol.blockBits[b] <==> b < g.dataStart || b >= g.totalBlocks)
      ensures forall n :: 0 <= n < |vol.inodeBits| ==> (vol.inodeBits[n] <==> n >= g.totalInodes)
    {
      hide Represents;
      for b := 0 to g.dataStart
        invariant Tracks() && vol == ZeroVolume(g).(blockBits := vol.blockBits)
        invariant |vol.blockBits| == g.blockBitmapBlocks * 32768
        invariant forall c :: 0 <= c < |vol.blockBits| ==> (vol.blockBits[c] <==> c < b)
      {
        MarkBlock(b);
      }
      for b := g.totalBlocks to g.blockBitmapBlocks * 32768
        invariant Tracks() && vol == ZeroVolume(g).(blockBits := vol.blockBits)
        invariant |vol.blockBits| == g.blockBitmapBlocks * 32768
        invariant forall c :: 0 <= c < |vol.blockBits| ==>
            (vol.blockBits[c] <==> c < g.dataStart || g.totalBlocks <= c < b)
      {
        MarkBlock(b);
      }
      ghost var bits := vol.blockBits;
      for n := g.totalInodes to g.inodeBitmapBlocks * 32768
        invariant Tracks() && vol == ZeroVolume(g).(blockBits := bits, inodeBits := vol.inodeBits)
        invariant |vol.inodeBits| == g.inodeBitmapBlocks * 32768
        invariant forall c :: 0 <= c < |vol.inodeBits| ==> (vol.inodeBits[c] <==> g.totalInodes <= c < n)
      {
        MarkInode(n);
      }
    }

    method AllocateBlock() returns (ok: bool, b: nat)
      requires Tracks() && g.dataStart <= nextBlock <= g.totalBlocks
      modifies `payload, `vol, `nextBlock
      ensures Tracks() && (ok <==> old(nextBlock) < g.totalBlocks)
      ensures if ok then b == old(nextBlock) && nextBlock == b + 1 && Shape(g, old(vol))
          && vol == old(vol).(blockBits := old(vol).blockBits[b := true])
              else vol == old(vol) && nextBlock == old(nextBlock)
    {
      hide EncodesBits, EncodesInodes, EncodesData;
      if nextBlock >= g.totalBlocks {
        return false, 0;
      }
      b := nextBlock;
      nextBlock := nextBlock + 1;
      MarkBlock(b);
      ok := true;
    }

    method WriteInode(n: nat, inode: Inode) returns (ok: bool)
      requires Tracks() && inode.reserved == 0
      modifies `payload, `vol
      ensures Tracks() && (ok <==> n < g.totalInodes)
      ensures ok ==> Shape(g, old(vol))
      ensures ok ==>
                vol == old(vol).(inodes := old(vol).inodes[n := inode], inodeBits := old(vol).inodeBits[n := true])
    {
      hide EncodesBits, EncodesInodes, EncodesData, DecodeInode;
      if n >= g.totalInodes {
        return false;
      }
      DecodeEncodeInode(inode);
      WriteRecord(g, payload, vol, n, EncodeInode(inode));
      payload := SetTableRecord(payload, g.inodeTableStart, n, EncodeInode(inode));
      vol := vol.(inodes := vol.inodes[n := inode]);
      MarkInode(n);
      ok := true;
    }

    /** Copies the blocks of a file to the next free blocks. */
    method FillBlocks(bytes: seq<byte>, count: nat) returns (ok: bool, blocks: seq<nat>)
      requires Tracks() && g.dataStart <= nextBlock <= g.totalBlocks && FreshFrom(g, vol, nextBlock)
      requires count == BlocksFor(|bytes|)
      modifies `payload, `vol, `nextBlock
      ensures ok <==> old(nextBlock) + count <= g.totalBlocks
      ensures ok ==>
                && Tracks() && nextBlock == old(nextBlock) + count
                && |blocks| == count && (forall k :: 0 <= k < count ==> blocks[k] == old(nextBlock) + k)
                && vol == old(vol).(blockBits := Marked(old(vol).blockBits, old(nextBlock), count),
                                    data := Filled(old(vol).data, old(nextBlock), bytes, count))
    {
      hide Represents, Chunk;
      ghost var start, v := nextBlock, vol;
      blocks := [];
      assert vol.blockBits == Marked(v.blockBits, start, 0) && vol.data == Filled(v.data, start, bytes, 0);
      for index := 0 to count
        invariant Tracks() && nextBlock == start + index <= g.totalBlocks
        invariant |blocks| == index && forall k :: 0 <= k < index ==> blocks[k] == start + k
        invariant vol == v.(blockBits := Marked(v.blockBits, start, index), data := Filled(v.data, start, bytes, index))
      {
        var b;
        ok, b := AllocateBlock();
        if !ok {
          return;
        }
        blocks := blocks + [b];
        var chunk := if 4096 * index + 4096 <= |bytes| then bytes[4096 * index..4096 * index + 4096]
                     else bytes[4096 * index..];
        StoredBlock(g, payload, vol, b);
        ChunkIs(bytes, index, chunk);
        PutBlock(b, Splice(payload[b], 0, chunk));
        assert vol.blockBits == Marked(v.blockBits, start, index + 1);
        assert vol.data == Filled(v.data, start, bytes, index + 1);
      }
      ok := true;
    }

    /** Fills the indirect block with the pointers after the tenth. */
    method FillPointers(indirect: nat, blocks: seq<nat>, ghost start: nat)
      requires Tracks() && g.dataStart <= indirect < g.totalBlocks && Shape(g, vol) && vol.data[indirect] == ZERO_BLOCK
      requires 10 < |blocks| <= 1034 && forall k :: 0 <= k < |blocks| ==> blocks[k] == start + k < g.totalBlocks
      modifies `payload, `vol
      ensures Tracks() && vol == old(vol).(data := old(vol).data[indirect := vol.data[indirect]])
      ensures |vol.data| == |old(vol).data| && PointerBlock(vol.data[indirect], start, |blocks|)
    {
      hide Represents, Word, SetWord;
      ghost var v := vol;
      forall j: nat | j < 1024 ensures Word(ZERO_BLOCK, j) == 0 { WordOfZeros(ZERO_BLOCK, j); }
      assert vol == v.(data := v.data[indirect := vol.data[indirect]]);
      for index := 0 to |blocks| - 10
        invariant Tracks() && |vol.data| == |v.data| && vol == v.(data := v.data[indirect := vol.data[indirect]])
        invariant forall j: nat :: j < 1024 ==> Word(vol.data[indirect], j) == if j < index then start + 10 + j else 0
      {
        StoredBlock(g, payload, vol, indirect);
        ghost var blk := payload[indirect];
        PutBlock(indirect, SetWord(payload[indirect], index, blocks[10 + index]));
        forall j: nat | j < 1024 ensures Word(vol.data[indirect], j) == if j < index + 1 then start + 10 + j else 0 {
          WordOfSetWord(blk, index, blocks[10 + index], j);
        }
      }
    }

    method WriteFile(n: nat, bytes: seq<byte>) returns (ok: bool)
      requires Valid() && (n < g.totalInodes ==> !vol.inodeBits[n])
      modifies this
      ensures ok <==> && n < g.totalInodes && |bytes| <= MAX_FILE_SIZE
                      && old(nextBlock) + BlocksFor(|bytes|) + (if BlocksFor(|bytes|) > 10 then 1 else 0)
                         <= g.totalBlocks
      ensures ok ==> Valid() && Files(vol) == old(Files(vol))[n := File(MODE_REGULAR, 1, bytes)]
      ensures ok ==> nextBlock == old(nextBlock) + BlocksFor(|bytes|) + (if BlocksFor(|bytes|) > 10 then 1 else 0)
      ensures ok ==> Shape(g, old(vol)) && vol.inodeBits == old(vol).inodeBits[n := true]
    {
      hide Represents, Sound, Files, PointerBlock;
      ghost var start, v, f := nextBlock, vol, File(MODE_REGULAR, 1, bytes);
      var count := BlocksFor(|bytes|);
      if count > 1034 {
        return false;
      }
      var blocks;
      ok, blocks := FillBlocks(bytes, count);
      if !ok {
        return;
      }
      var direct, indirect := DirectPointers(blocks), 0;
      if count > 10 {
        ok, indirect := AllocateBlock();
        if !ok {
          return;
        }
        FillPointers(indirect, blocks, start);
      }
      ghost var blk := if count > 10 then vol.data[indirect] else ZERO_BLOCK;
      ok := WriteInode(n, Inode(MODE_REGULAR, 1, |bytes|, direct, indirect, 0, 0, 0));
      if ok {
        assert direct == DirectBlocks(start, count);
        assert vol == WithFile(v, n, f, start, blk) by {
          assert vol.blockBits == WithFile(v, n, f, start, blk).blockBits;
          assert vol.data == WithFile(v, n, f, start, blk).data;
        }
        FileWritten(g, v, ow, n, f, start, blk);
        ow := FileOwner(ow, n, start, count);
      }
    }

    method WriteDirectory(n: nat, links: u16, entries: seq<NewEntry>) returns (ok: bool)
      requires Valid() && (n < g.totalInodes ==> !vol.inodeBits[n]) && links != 0 && entries != []
      requires forall i :: 0 <= i < |entries| ==> EntryFit(entries[i])
      modifies this
      ensures ok <==> n < g.totalInodes && |entries| <= 64 && old(nextBlock) < g.totalBlocks
      ensures ok ==> Valid() && nextBlock == old(nextBlock) + 1
      ensures ok ==> Files(vol) == old(Files(vol))[n := File(MODE_DIRECTORY, links, EncodeEntries(entries))]
      ensures ok ==> Shape(g, old(vol)) && vol.inodeBits == old(vol).inodeBits[n := true]
    {
      hide Represents, Sound, Files, PointerBlock, EncodeEntries;
      var content := EncodeEntries(entries);
      ghost var start, v, f := nextBlock, vol, File(MODE_DIRECTORY, links, content);
      if |content| > 4096 {
        return false;
      }
      var block;
      ok, block := AllocateBlock();
      if !ok {
        return;
      }
      StoredBlock(g, payload, vol, block);
      PutBlock(block, Splice(payload[block], 0, content));
      ok := WriteInode(n, Inode(MODE_DIRECTORY, links, |content|, NO_POINTERS[0 := block], 0, 0, 0, 0));
      if ok {
        OneBlockFile(v, n, f, start);
        assert vol == WithFile(v, n, f, start, ZERO_BLOCK) by {
          assert vol.blockBits == WithFile(v, n, f, start, ZERO_BLOCK).blockBits;
          assert vol.data == WithFile(v, n, f, start, ZERO_BLOCK).data;
        }
        FileWritten(g, v, ow, n, f, start, ZERO_BLOCK);
        ow := FileOwner(ow, n, start, 1);
      }
    }
  }

  // ---------- directories ----------

  datatype NewEntry = NewEntry(child: u32, kind: byte, name: Name)

  predicate EntryFit(e: NewEntry) { ValidName(e.name) && (e.kind == 1 || e.kind == 2) }

  function EncodeEntries(es: seq<NewEntry>): (c: seq<byte>)
    requires forall i :: 0 <= i < |es| ==> EntryFit(es[i])
    ensures |c| == 64 * |es|
  {
    if es == [] then [] else
    assert EntryFit(es[|es| - 1]);
    EncodeEntries(es[..|es| - 1]) + EncodeEntry(es[|es| - 1].child, es[|es| - 1].kind, es[|es| - 1].name)
  }

  ghost predicate DistinctNames(es: seq<NewEntry>) {
    forall i, j :: 0 <= i < j < |es| ==> es[i].name != es[j].name
  }

  ghost function EntryMap(es: seq<NewEntry>): (m: map<Name, Link>) {
    if es == [] then map[]
    else EntryMap(es[..|es| - 1])[es[|es| - 1].name := Link(es[|es| - 1].child, es[|es| - 1].kind)]
  }

  ghost predicate NamedIn(es: seq<NewEntry>, x: Name) { exists i :: 0 <= i < |es| && es[i].name == x }

  lemma {:induction false} EntryMapKeys(es: seq<NewEntry>, x: Name)
    ensures x in EntryMap(es) <==> NamedIn(es, x)
  {
    if es != [] {
      var p := es[..|es| - 1];
      EntryMapKeys(p, x);
      if NamedIn(p, x) {
        var i :| 0 <= i < |p| && p[i].name == x;
        assert es[i].name == x;
      }
      if NamedIn(es, x) && x != es[|es| - 1].name {
        var i :| 0 <= i < |es| && es[i].name == x;
        assert p[i].name == x;
      }
    }
  }

  lemma LastIsNew(es: seq<NewEntry>)
    requires DistinctNames(es) && es != []
    ensures es[|es| - 1].name !in EntryMap(es[..|es| - 1])
  {
    EntryMapKeys(es[..|es| - 1], es[|es| - 1].name);
  }

  lemma {:induction false} EntryMapAt(es: seq<NewEntry>, i: nat)
    requires DistinctNames(es) && i < |es|
    ensures es[i].name in EntryMap(es) && EntryMap(es)[es[i].name] == Link(es[i].child, es[i].kind)
  {
    if i < |es| - 1 {
      assert es[..|es| - 1][i] == es[i];
      EntryMapAt(es[..|es| - 1], i);
    }
  }

  lemma NoEntries()
    ensures DirectoryOK([]) && Entries([]) == map[]
  {
  }

  lemma {:induction false} EntriesAre(es: seq<NewEntry>)
    requires (forall i :: 0 <= i < |es| ==> EntryFit(es[i])) && DistinctNames(es)
    ensures DirectoryOK(EncodeEntries(es)) && Entries(EncodeEntries(es)) == EntryMap(es)
  {
    hide EncodeEntry, EntryOK, NameOf, LinkOf, DirectoryOK, Entries, Raw, Used;
    if es == [] {
      NoEntries();
    } else {
      var p, e := es[..|es| - 1], es[|es| - 1];
      EntriesAre(p);
      var c := EncodeEntries(p);
      LastIsNew(es);
      AddEntry(c, |p|, e.child, e.kind, e.name);
      assert Written(c, 64 * |p|, EncodeEntry(e.child, e.kind, e.name)) == EncodeEntries(es);
    }
  }

  lemma {:induction false} RawOfEntries(es: seq<NewEntry>, i: nat)
    requires (forall j :: 0 <= j < |es| ==> EntryFit(es[j])) && i < |es|
    ensures i < Slots(EncodeEntries(es))
    ensures Raw(EncodeEntries(es), i) == EncodeEntry(es[i].child, es[i].kind, es[i].name)
  {
    hide EncodeEntry;
    var p, e := es[..|es| - 1], es[|es| - 1];
    if i < |es| - 1 {
      RawOfEntries(p, i);
      assert Raw(EncodeEntries(es), i) == Raw(EncodeEntries(p), i);
    }
  }

  /** A name that occurs twice spoils the directory. */
  lemma RepeatedName(es: seq<NewEntry>, i: nat, j: nat)
    requires (forall k :: 0 <= k < |es| ==> EntryFit(es[k])) && i < j < |es| && es[i].name == es[j].name
    ensures !DirectoryOK(EncodeEntries(es))
  {
    hide EncodeEntry, NameOf, EncodeEntries, EntryOK;
    RawOfEntries(es, i);
    RawOfEntries(es, j);
    DecodeEncodeEntry(es[i].child, es[i].kind, es[i].name);
    DecodeEncodeEntry(es[j].child, es[j].kind, es[j].name);
  }

  /** The first ten block numbers, padded with zeros. */
  function DirectPointers(blocks: seq<nat>): (p: Pointers)
    requires forall k :: 0 <= k < |blocks| ==> blocks[k] < 0x1_0000_0000
    ensures forall k :: 0 <= k < 10 ==> p[k] == if k < |blocks| then blocks[k] else 0
  {
    seq(10, k requires 0 <= k < 10 => if k < |blocks| then blocks[k] else 0)
  }

  lemma OneBlockFile(v: Vol, n: nat, f: File, start: nat)
    requires 0 < |f.content| <= 4096 && start + 1 < 0x1_0000_0000
    ensures BlocksFor(|f.content|) == 1 && Chunk(f.content, 0) == Splice(ZERO_BLOCK, 0, f.content)
    ensures FileInode(f, start, 1) == Inode(f.mode, f.links, |f.content|, NO_POINTERS[0 := start], 0, 0, 0, 0)
  {
    assert DirectBlocks(start, 1) == NO_POINTERS[0 := start];
  }

  lemma StoredBlock(g: Geometry, disk: Disk, v: Vol, b: nat)
    requires Represents(g, disk, v) && g.dataStart <= b < g.totalBlocks
    ensures |disk| == |v.data| == g.totalBlocks && disk[b] == v.data[b]
  {
  }

  lemma ChunkIs(bytes: seq<byte>, k: nat, chunk: seq<byte>)
    requires k < BlocksFor(|bytes|)
    requires chunk == if 4096 * k + 4096 <= |bytes| then bytes[4096 * k..4096 * k + 4096] else bytes[4096 * k..]
    ensures |chunk| <= 4096 && Splice(ZERO_BLOCK, 0, chunk) == Chunk(bytes, k)
  {
  }
}
