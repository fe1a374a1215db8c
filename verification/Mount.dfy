/** The mounted volume: the disk, the kernel's shared block buffers, and the operations that
    touch one on-disk structure at a time. */
module Mounted {
  import opened Bytes
  import opened Layout
  import opened Volume
  import opened Errno

  function ReadStatus(g: Geometry, v: Vol, n: nat): (st: int)
    requires Shape(g, v)
  {
    if n >= g.totalInodes then EINVAL
    else if v.inodeBits[n] && RecordOK(v.inodes[n]) && PointersOK(v.inodes[n]) then 0
    else EIO
  }

  class Mount {
    const g: Geometry
    /** The superblock is read when the volume is mounted, and never written. */
    ghost const superblock: Block
    var disk: Disk
    var io: Block
    var aux: Block
    var cmp: Block
    ghost var vol: Vol
    /** What the disk meant after each block write so far. */
    ghost var history: seq<Vol>

    ghost predicate Valid()
      reads `disk, `vol
    {
      g.Valid() && Represents(g, disk, vol) && disk[0] == superblock
    }

    constructor (g: Geometry, disk: Disk, ghost vol: Vol)
      requires g.Valid() && Represents(g, disk, vol)
      ensures Valid() && this.g == g && this.disk == disk && this.vol == vol && history == []
    {
      superblock := disk[0];
      this.g, this.disk, this.vol, this.history := g, disk, vol, [];
      this.io, this.aux, this.cmp := ZERO_BLOCK, ZERO_BLOCK, ZERO_BLOCK;
    }

    // ---------- blocks ----------

    method ReadBlock(b: nat) returns (st: int, x: Block)
      requires |disk| == g.totalBlocks
      ensures st == if b < g.totalBlocks then 0 else EIO
      ensures st == 0 ==> x == disk[b]
    {
      if b >= g.totalBlocks {
        return EIO, ZERO_BLOCK;
      }
      return 0, disk[b];
    }

    method ReadDataBlock(b: nat) returns (st: int, x: Block)
      requires Valid()
      ensures st == if b < g.totalBlocks then 0 else EIO
      ensures st == 0 && g.dataStart <= b ==> x == vol.data[b]
    {
      st, x := ReadBlock(b);
    }

    method WriteDataBlock(b: nat, x: Block) returns (st: int)
      requires Valid() && g.dataStart <= b < g.totalBlocks
      modifies `disk, `vol, `history
      ensures Valid() && st == 0
      ensures vol == old(vol).(data := old(vol).data[b := x])
      ensures history == old(history) + [vol]
    {
      WriteData(g, disk, vol, b, x);
      disk := disk[b := x];
      vol := vol.(data := vol.data[b := x]);
      history := history + [vol];
      st := 0;
    }

    // ---------- bitmaps ----------

    method BitmapBitSet(start: nat, count: nat, bit: nat) returns (r: bool)
      requires |disk| == g.totalBlocks && start + count <= |disk|
      modifies `io
      ensures r == (bit / 32768 < count && BitmapBit(disk, start, bit))
    {
      var bitmapBlock, within := bit / 32768, bit % 32768;
      if bitmapBlock >= count {
        return false;
      }
      var st;
      st, io := ReadBlock(start + bitmapBlock);
      return BitAt(io, within);
    }

    method BitmapUpdate(start: nat, count: nat, bit: nat, value: bool) returns (st: int)
      requires |disk| == g.totalBlocks && start + count <= |disk|
      modifies `io, `disk
      ensures st == if bit / 32768 < count then 0 else EIO
      ensures disk == if bit / 32768 < count then SetBitmapBit(old(disk), start, bit, value) else old(disk)
    {
      var bitmapBlock, within := bit / 32768, bit % 32768;
      if bitmapBlock >= count {
        return EIO;
      }
      st, io := ReadBlock(start + bitmapBlock);
      io := SetBitAt(io, within, value);
      disk := disk[start + bitmapBlock := io];
    }

    /** Sets the lowest clear bit of a range, reading each bitmap block once. */
    method AllocateBitmapBit(start: nat, count: nat, first: nat, limit: nat) returns (st: int, bit: nat)
      requires |disk| == g.totalBlocks && start + count <= |disk| && limit <= count * 32768
      modifies `io, `disk
      ensures st == 0 || st == ENOSPC || st == EINVAL
      ensures st == EINVAL <==> first >= limit
      ensures st == 0 ==>
                && first <= bit < limit && !BitmapBit(old(disk), start, bit)
                && (forall c: nat :: first <= c < bit ==> BitmapBit(old(disk), start, c))
                && disk == SetBitmapBit(old(disk), start, bit, true)
      ensures st != 0 ==> disk == old(disk) && forall c: nat :: first <= c < limit ==> BitmapBit(disk, start, c)
    {
      bit := 0;
      if first >= limit {
        return EINVAL, bit;
      }
      bit := first;
      var loaded := -1;
      while bit < limit
        invariant first <= bit <= limit
        invariant disk == old(disk)
        invariant loaded == -1 || (0 <= loaded < count && io == disk[start + loaded])
        invariant forall c: nat :: first <= c < bit ==> BitmapBit(disk, start, c)
      {
        var bitmapBlock, within := bit / 32768, bit % 32768;
        if bitmapBlock != loaded {
          st, io := ReadBlock(start + bitmapBlock);
          loaded := bitmapBlock;
        }
        if !BitAt(io, within) {
          io := SetBitAt(io, within, true);
          disk := disk[start + bitmapBlock := io];
          return 0, bit;
        }
        bit := bit + 1;
      }
      return ENOSPC, bit;
    }

    // ---------- inodes ----------

    method PointerShapeValid(inode: Inode) returns (ok: bool)
      ensures ok == PointersOK(inode)
    {
      var required := BlocksFor(inode.size);
      var directRequired := if required > 10 then 10 else required;
      var index := 0;
      while index < 10
        invariant 0 <= index <= 10
        invariant forall k :: 0 <= k < index ==> (inode.direct[k] != 0 <==> k < required)
      {
        if (index < directRequired && inode.direct[index] == 0)
          || (index >= directRequired && inode.direct[index] != 0) {
          return false;
        }
        index := index + 1;
      }
      return (required > 10 && inode.indirect != 0) || (required <= 10 && inode.indirect == 0);
    }

    method ReadInode(n: nat) returns (st: int, inode: Inode)
      requires Valid()
      modifies `io
      ensures st == ReadStatus(g, vol, n)
      ensures st == 0 ==> inode == vol.inodes[n]
    {
      inode := ZERO_INODE;
      if n >= g.totalInodes {
        return EINVAL, inode;
      }
      var set' := BitmapBitSet(g.inodeBitmapStart, g.inodeBitmapBlocks, n);
      assert BitmapBit(disk, g.inodeBitmapStart, n) == vol.inodeBits[n];
      if !set' {
        return EIO, inode;
      }
      st, io := ReadBlock(g.inodeTableStart + n / 64);
      var o := RecordOffset(n);
      inode := DecodeInode(io[o..o + 64]);
      assert inode == TableInode(disk, g.inodeTableStart, n) == vol.inodes[n];
      var shape := PointerShapeValid(inode);
      st := if RecordOK(inode) && shape then 0 else EIO;
    }

    method PutRecord(n: nat, raw: seq<byte>) returns (st: int)
      requires Valid() && n < g.totalInodes && |raw| == 64
      modifies `io, `disk, `vol, `history
      ensures Valid() && st == 0
      ensures vol == old(vol).(inodes := old(vol).inodes[n := DecodeInode(raw)])
      ensures history == old(history) + [vol]
    {
      var b := g.inodeTableStart + n / 64;
      st, io := ReadBlock(b);
      io := Splice(io, RecordOffset(n), raw);
      WriteRecord(g, disk, vol, n, raw);
      disk := disk[b := io];
      vol := vol.(inodes := vol.inodes[n := DecodeInode(raw)]);
      history := history + [vol];
    }

    method WriteInode(n: nat, inode: Inode) returns (st: int)
      requires Valid()
      modifies `io, `disk, `vol, `history
      ensures Valid()
      ensures st == if n < g.totalInodes && PointersOK(inode) then 0 else EINVAL
      ensures st == 0 ==>
                && vol == old(vol).(inodes := old(vol).inodes[n := inode.(reserved := 0)])
                && history == old(history) + [vol]
      ensures st != 0 ==> vol == old(vol) && history == old(history)
    {
      var shape := PointerShapeValid(inode);
      if n >= g.totalInodes || !shape {
        return EINVAL;
      }
      DecodeEncodeInode(inode);
      st := PutRecord(n, EncodeInode(inode));
    }

    method ClearInodeRecord(n: nat) returns (st: int)
      requires Valid()
      modifies `io, `disk, `vol, `history
      ensures Valid()
      ensures st == if n < g.totalInodes && n != g.root then 0 else EINVAL
      ensures st == 0 ==>
          vol == old(vol).(inodes := old(vol).inodes[n := ZERO_INODE]) && history == old(history) + [vol]
      ensures st != 0 ==> vol == old(vol) && history == old(history)
    {
      if n == g.root || n >= g.totalInodes {
        return EINVAL;
      }
      ZeroRecord(Zeros(64));
      st := PutRecord(n, Zeros(64));
    }

    method FreeInode(n: nat) returns (st: int)
      requires Valid()
      modifies `io, `disk, `vol, `history
      ensures Valid()
      ensures st == if n < g.totalInodes && n != g.root then 0 else EINVAL
      ensures st == 0 ==>
          vol == old(vol).(inodeBits := old(vol).inodeBits[n := false]) && history == old(history) + [vol]
      ensures st != 0 ==> vol == old(vol) && history == old(history)
    {
      if n == g.root || n >= g.totalInodes {
        return EINVAL;
      }
      WriteInodeBit(g, disk, vol, n, false);
      st := BitmapUpdate(g.inodeBitmapStart, g.inodeBitmapBlocks, n, false);
      vol := vol.(inodeBits := vol.inodeBits[n := false]);
      history := history + [vol];
    }

    /** Allocates the lowest free inode number other than 0. */
    method AllocateInode() returns (st: int, n: nat)
      requires Valid()
      modifies `io, `disk, `vol, `history
      ensures Valid()
      ensures st == 0 || st == ENOSPC || st == EINVAL
      ensures st == EINVAL <==> g.totalInodes == 1
      ensures st == 0 ==>
                && 1 <= n < g.totalInodes && !old(vol).inodeBits[n]
                && (forall m: nat :: 1 <= m < n ==> old(vol).inodeBits[m])
                && vol == old(vol).(inodeBits := old(vol).inodeBits[n := true]) && history == old(history) + [vol]
      ensures st != 0 ==>
                && vol == old(vol) && history == old(history)
                && forall m: nat :: 1 <= m < g.totalInodes ==> vol.inodeBits[m]
    {
      ghost var before := disk;
      st, n := AllocateBitmapBit(g.inodeBitmapStart, g.inodeBitmapBlocks, 1, g.totalInodes);
      assert forall m: nat :: m < g.totalInodes ==> vol.inodeBits[m] == BitmapBit(before, g.inodeBitmapStart, m);
      if st == 0 {
        WriteInodeBit(g, before, vol, n, true);
        vol := vol.(inodeBits := vol.inodeBits[n := true]);
        history := history + [vol];
      }
    }

    // ---------- data blocks ----------

    method BlockAllocated(b: nat) returns (r: bool)
      requires Valid()
      modifies `io
      ensures r == Allocated(g, vol, b)
    {
      if b < g.dataStart || b >= g.totalBlocks {
        return false;
      }
      r := BitmapBitSet(g.blockBitmapStart, g.blockBitmapBlocks, b);
      assert BitmapBit(disk, g.blockBitmapStart, b) == vol.blockBits[b];
    }

    method FreeBlock(b: nat) returns (st: int)
      requires Valid()
      modifies `io, `disk, `vol, `history
      ensures Valid()
      ensures st == if g.dataStart <= b < g.totalBlocks then 0 else EINVAL
      ensures st == 0 ==>
          vol == old(vol).(blockBits := old(vol).blockBits[b := false]) && history == old(history) + [vol]
      ensures st != 0 ==> vol == old(vol) && history == old(history)
    {
      if b < g.dataStart || b >= g.totalBlocks {
        return EINVAL;
      }
      WriteBlockBit(g, disk, vol, b, false);
      st := BitmapUpdate(g.blockBitmapStart, g.blockBitmapBlocks, b, false);
      vol := vol.(blockBits := vol.blockBits[b := false]);
      history := history + [vol];
    }

    /** Allocates the lowest free data block and clears it. */
    method AllocateBlock() returns (st: int, b: nat)
      requires Valid()
      modifies `io, `aux, `disk, `vol, `history
      ensures Valid()
      ensures st == 0 || st == ENOSPC
      ensures st == 0 ==>
                && Free(g, old(vol), b) && (forall c :: g.dataStart <= c < b ==> old(vol).blockBits[c])
                && vol == old(vol).(blockBits := old(vol).blockBits[b := true], data := old(vol).data[b := ZERO_BLOCK])
                && history == old(history) + [old(vol).(blockBits := old(vol).blockBits[b := true]), vol]
      ensures st != 0 ==> vol == old(vol) && history == old(history) && forall c :: !Free(g, vol, c)
    {
      ghost var before := disk;
      st, b := AllocateBitmapBit(g.blockBitmapStart, g.blockBitmapBlocks, g.dataStart, g.totalBlocks);
      assert forall c: nat :: c < g.totalBlocks ==> vol.blockBits[c] == BitmapBit(before, g.blockBitmapStart, c);
      if st < 0 {
        return;
      }
      WriteBlockBit(g, before, vol, b, true);
      vol := vol.(blockBits := vol.blockBits[b := true]);
      history := history + [vol];
      aux := ZERO_BLOCK;
      st := WriteDataBlock(b, aux);
    }

    /** The disk block that holds a file's block number `k`. */
    method InodeBlockAt(inode: Inode, k: nat) returns (st: int, b: nat)
      requires Valid()
      modifies `io
      ensures st == if k >= BlocksFor(inode.size) then EINVAL
                    else if (k < 10 || (k < 1034 && Allocated(g, vol, inode.indirect)))
                            && Allocated(g, vol, SlotBlock(vol.data, inode, k)) then 0
                    else EIO
      ensures st == 0 ==> b == SlotBlock(vol.data, inode, k)
    {
      b := 0;
      if k >= BlocksFor(inode.size) {
        return EINVAL, b;
      }
      if k < 10 {
        b := inode.direct[k];
      } else {
        var ok := BlockAllocated(inode.indirect);
        if !ok || k - 10 >= 1024 {
          return EIO, b;
        }
        st, io := ReadBlock(inode.indirect);
        b := Word(io, k - 10);
      }
      var ok := BlockAllocated(b);
      st := if ok then 0 else EIO;
    }
  }
}
