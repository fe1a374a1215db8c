/** The MiniFS disk format: inode records, and where bitmaps, inode table and data
    blocks lie on the volume. */
module Layout {
  import opened Bytes

  // A block has 4096 bytes, so 32768 bits, 1024 pointers, 64 inode records of 64 bytes, or 64
  // directory entries of 64 bytes. These sizes are written as literals wherever they multiply
  // or divide, which keeps the arithmetic linear for the verifier. A file has 10 direct blocks and
  // 1024 more through its indirect block, which counts as slot 1034.

  const MAX_FILE_SIZE: nat := 4235264
  const MODE_REGULAR: u16 := 1
  const MODE_DIRECTORY: u16 := 2

  type Block = b: seq<byte> | |b| == 4096 witness Zeros(4096)
  type Pointers = p: seq<u32> | |p| == 10 witness seq(10, _ => 0)

  const ZERO_BLOCK: Block := Zeros(4096)
  const NO_POINTERS: Pointers := [0, 0, 0, 0, 0, 0, 0, 0, 0, 0]

  datatype Inode = Inode(mode: u16, links: u16, size: u32, direct: Pointers, indirect: u32,
                         created: u32, modified: u32, reserved: u32)

  const ZERO_INODE := Inode(0, 0, 0, NO_POINTERS, 0, 0, 0, 0)

  // ---------- inode records ----------

  function DecodeInode(raw: seq<byte>): (i: Inode)
    requires |raw| == 64
  {
    Inode(Le16(raw, 0), Le16(raw, 2), Le32(raw, 4),
          seq(10, k requires 0 <= k < 10 => Le32(raw, 8 + 4 * k)),
          Le32(raw, 48), Le32(raw, 52), Le32(raw, 56), Le32(raw, 60))
  }

  /** The record written for an inode; its reserved word is always zero. */
  function EncodeInode(i: Inode): (raw: seq<byte>)
    ensures |raw| == 64
  {
    WordBytes(InodeWords(i))
  }

  function InodeWords(i: Inode): (ws: seq<u32>)
    ensures |ws| == 16
  {
    [i.mode as int + 0x1_0000 * (i.links as int), i.size] + i.direct + [i.indirect, i.created, i.modified, 0]
  }

  lemma Halves(raw: seq<byte>, lo: u16, hi: u16)
    requires |raw| >= 4 && Le32(raw, 0) == lo as int + 0x1_0000 * (hi as int)
    ensures Le16(raw, 0) == lo && Le16(raw, 2) == hi
  {
    Le16Unique(Le16(raw, 0), Le16(raw, 2), lo, hi);
  }

  lemma Le16Unique(a: u16, b: u16, c: u16, d: u16)
    requires a as int + 0x1_0000 * (b as int) == c as int + 0x1_0000 * (d as int)
    ensures a == c && b == d
  {
  }

  lemma InodeWord(i: Inode, k: nat)
    requires k < 16
    ensures Le32(EncodeInode(i), 4 * k) == InodeWords(i)[k]
  {
    WordOfWordBytes(InodeWords(i), k);
  }

  lemma DecodeEncodeInode(i: Inode)
    ensures DecodeInode(EncodeInode(i)) == i.(reserved := 0)
  {
    var raw := EncodeInode(i);
    InodeWord(i, 0);
    Halves(raw, i.mode, i.links);
    InodeWord(i, 1);
    InodeWord(i, 12);
    InodeWord(i, 13);
    InodeWord(i, 14);
    InodeWord(i, 15);
    assert DecodeInode(raw).direct == i.direct by {
      forall k | 0 <= k < 10 ensures Le32(raw, 8 + 4 * k) == i.direct[k] {
        InodeWord(i, 2 + k);
      }
    }
  }

  lemma ZeroRecord(raw: seq<byte>)
    requires |raw| == 64
    ensures AllZero(raw) <==> DecodeInode(raw) == ZERO_INODE
  {
    var d := DecodeInode(raw);
    if d == ZERO_INODE {
      assert forall k :: 0 <= k < 10 ==> d.direct[k] == 0;
      forall i: nat | 4 * i < |raw| ensures Word(raw, i) == 0 {
        if i == 0 {
        } else if i == 1 {
        } else if i < 12 {
          assert d.direct[i - 2] == Word(raw, i);
        } else if i == 12 {
        } else if i == 13 {
        } else if i == 14 {
        } else {
        }
      }
      ZeroWords(raw);
    }
    if AllZero(raw) {
      assert d.direct == NO_POINTERS;
    }
  }

  // ---------- where things lie ----------

  /** What the kernel keeps of an accepted superblock. */
  datatype Geometry = Geometry(totalBlocks: nat, totalInodes: nat,
                               blockBitmapStart: nat, blockBitmapBlocks: nat,
                               inodeBitmapStart: nat, inodeBitmapBlocks: nat,
                               inodeTableStart: nat, inodeTableBlocks: nat,
                               dataStart: nat, root: nat)
  {
    /** The checks that superblock decoding makes: the regions follow one another,
        each just large enough, and at least one data block is left. */
    ghost predicate Valid() {
      && totalBlocks < 0x1_0000_0000
      && 0 < totalInodes < 0x1_0000_0000
      && root < totalInodes
      && blockBitmapStart == 1
      && (blockBitmapBlocks - 1) * 32768 < totalBlocks <= blockBitmapBlocks * 32768
      && inodeBitmapStart == 1 + blockBitmapBlocks
      && (inodeBitmapBlocks - 1) * 32768 < totalInodes <= inodeBitmapBlocks * 32768
      && inodeTableStart == inodeBitmapStart + inodeBitmapBlocks
      && (inodeTableBlocks - 1) * 64 < totalInodes <= inodeTableBlocks * 64
      && dataStart == inodeTableStart + inodeTableBlocks
      && dataStart < totalBlocks
    }
  }

  type Disk = seq<Block>

  predicate BitmapBit(disk: Disk, start: nat, bit: nat)
    requires start + bit / 32768 < |disk|
  {
    BitAt(disk[start + bit / 32768], bit % 32768)
  }

  function SetBitmapBit(disk: Disk, start: nat, bit: nat, v: bool): (r: Disk)
    requires start + bit / 32768 < |disk|
  {
    var b := start + bit / 32768;
    disk[b := SetBitAt(disk[b], bit % 32768, v)]
  }

  function RecordOffset(n: nat): (o: nat)
    ensures o + 64 <= 4096
  {
    n % 64 * 64
  }

  function TableInode(disk: Disk, start: nat, n: nat): (i: Inode)
    requires start + n / 64 < |disk|
  {
    var o := RecordOffset(n);
    DecodeInode(disk[start + n / 64][o..o + 64])
  }

  function SetTableRecord(disk: Disk, start: nat, n: nat, raw: seq<byte>): (r: Disk)
    requires start + n / 64 < |disk|
    requires |raw| == 64
  {
    var b := start + n / 64;
    disk[b := Splice(disk[b], RecordOffset(n), raw)]
  }

  /** What a volume means, free of byte encodings: both bitmaps (including the bits past
      the end of the volume), the inode records, and the blocks of the data region. */
  datatype Vol = Vol(blockBits: seq<bool>, inodeBits: seq<bool>, inodes: seq<Inode>, data: seq<Block>)

  ghost predicate Shape(g: Geometry, v: Vol) {
    && |v.blockBits| == g.blockBitmapBlocks * 32768
    && |v.inodeBits| == g.inodeBitmapBlocks * 32768
    && |v.inodes| == g.totalInodes
    && |v.data| == g.totalBlocks
    && |v.blockBits| >= g.totalBlocks
    && |v.inodeBits| >= g.totalInodes
  }

  /** The triggers of these predicates keep the encoding out of sight of everything that
      speaks about the meaning only. */
  ghost predicate EncodesBits(disk: Disk, start: nat, bits: seq<bool>) {
    && start + |bits| / 32768 <= |disk|
    && |bits| % 32768 == 0
    && forall i: nat {:trigger BitmapBit(disk, start, i)} :: i < |bits| ==> bits[i] == BitmapBit(disk, start, i)
  }

  ghost predicate EncodesInodes(disk: Disk, start: nat, inodes: seq<Inode>) {
    && start + (|inodes| + 63) / 64 <= |disk|
    && forall n: nat {:trigger TableInode(disk, start, n)} :: n < |inodes| ==> inodes[n] == TableInode(disk, start, n)
  }

  ghost predicate EncodesData(disk: Disk, start: nat, data: seq<Block>) {
    && |data| == |disk|
    && forall b {:trigger disk[b]} :: start <= b < |data| ==> data[b] == disk[b]
  }

  /** `disk` is an encoding of `v`. */
  ghost predicate Represents(g: Geometry, disk: Disk, v: Vol) {
    && |disk| == g.totalBlocks
    && Shape(g, v)
    && EncodesBits(disk, g.blockBitmapStart, v.blockBits)
    && EncodesBits(disk, g.inodeBitmapStart, v.inodeBits)
    && EncodesInodes(disk, g.inodeTableStart, v.inodes)
    && EncodesData(disk, g.dataStart, v.data)
  }

  /** Two disks that agree on blocks `lo..hi`. */
  ghost predicate Agree(d: Disk, e: Disk, lo: nat, hi: nat) {
    |d| == |e| && forall b :: lo <= b < hi && b < |d| ==> d[b] == e[b]
  }

  lemma BitsFrame(d: Disk, e: Disk, start: nat, bits: seq<bool>)
    requires EncodesBits(d, start, bits) && Agree(d, e, start, start + |bits| / 32768)
    ensures EncodesBits(e, start, bits)
  {
    forall i: nat | i < |bits| ensures bits[i] == BitmapBit(e, start, i) {
      assert bits[i] == BitmapBit(d, start, i);
    }
  }

  lemma InodesFrame(d: Disk, e: Disk, start: nat, inodes: seq<Inode>)
    requires EncodesInodes(d, start, inodes)
    requires Agree(d, e, start, start + (|inodes| + 63) / 64)
    ensures EncodesInodes(e, start, inodes)
  {
    forall n: nat | n < |inodes| ensures inodes[n] == TableInode(e, start, n) {
      assert inodes[n] == TableInode(d, start, n);
    }
  }

  lemma SetBit(d: Disk, start: nat, bits: seq<bool>, i: nat, x: bool)
    requires EncodesBits(d, start, bits) && i < |bits|
    ensures EncodesBits(SetBitmapBit(d, start, i, x), start, bits[i := x])
  {
    var e := SetBitmapBit(d, start, i, x);
    forall c: nat | c < |bits| ensures bits[i := x][c] == BitmapBit(e, start, c) {
      assert bits[c] == BitmapBit(d, start, c);
      BitOfSetBit(d[start + i / 32768], i % 32768, x, c % 32768);
    }
  }

  lemma SetRecord(d: Disk, start: nat, inodes: seq<Inode>, n: nat, raw: seq<byte>)
    requires EncodesInodes(d, start, inodes) && n < |inodes| && |raw| == 64
    ensures EncodesInodes(SetTableRecord(d, start, n, raw), start, inodes[n := DecodeInode(raw)])
  {
    var e := SetTableRecord(d, start, n, raw);
    forall m: nat | m < |inodes| ensures inodes[n := DecodeInode(raw)][m] == TableInode(e, start, m) {
      assert inodes[m] == TableInode(d, start, m);
      var o, b := RecordOffset(m), start + m / 64;
      if m == n {
        assert e[b][o..o + 64] == raw;
      } else {
        assert e[b][o..o + 64] == d[b][o..o + 64];
      }
    }
  }

  // ---------- one block write, one change of meaning ----------

  lemma WriteBlockBit(g: Geometry, disk: Disk, v: Vol, b: nat, x: bool)
    requires g.Valid() && Represents(g, disk, v) && b < |v.blockBits|
    ensures Represents(g, SetBitmapBit(disk, g.blockBitmapStart, b, x), v.(blockBits := v.blockBits[b := x]))
  {
    var d := SetBitmapBit(disk, g.blockBitmapStart, b, x);
    assert g.blockBitmapStart + b / 32768 < g.inodeBitmapStart;
    SetBit(disk, g.blockBitmapStart, v.blockBits, b, x);
    assert Agree(disk, d, g.inodeBitmapStart, |disk|);
    BitsFrame(disk, d, g.inodeBitmapStart, v.inodeBits);
    InodesFrame(disk, d, g.inodeTableStart, v.inodes);
  }

  lemma WriteInodeBit(g: Geometry, disk: Disk, v: Vol, n: nat, x: bool)
    requires g.Valid() && Represents(g, disk, v) && n < |v.inodeBits|
    ensures Represents(g, SetBitmapBit(disk, g.inodeBitmapStart, n, x), v.(inodeBits := v.inodeBits[n := x]))
  {
    var d := SetBitmapBit(disk, g.inodeBitmapStart, n, x);
    assert g.inodeBitmapStart <= g.inodeBitmapStart + n / 32768 < g.inodeTableStart;
    SetBit(disk, g.inodeBitmapStart, v.inodeBits, n, x);
    assert Agree(disk, d, 0, g.inodeBitmapStart) && Agree(disk, d, g.inodeTableStart, |disk|);
    BitsFrame(disk, d, g.blockBitmapStart, v.blockBits);
    InodesFrame(disk, d, g.inodeTableStart, v.inodes);
  }

  lemma WriteRecord(g: Geometry, disk: Disk, v: Vol, n: nat, raw: seq<byte>)
    requires g.Valid() && Represents(g, disk, v) && n < g.totalInodes && |raw| == 64
    ensures Represents(g, SetTableRecord(disk, g.inodeTableStart, n, raw),
        v.(inodes := v.inodes[n := DecodeInode(raw)]))
  {
    var d := SetTableRecord(disk, g.inodeTableStart, n, raw);
    SetRecord(disk, g.inodeTableStart, v.inodes, n, raw);
    BitsFrame(disk, d, g.blockBitmapStart, v.blockBits);
    BitsFrame(disk, d, g.inodeBitmapStart, v.inodeBits);
  }

  lemma WriteData(g: Geometry, disk: Disk, v: Vol, b: nat, x: Block)
    requires g.Valid() && Represents(g, disk, v) && g.dataStart <= b < g.totalBlocks
    ensures Represents(g, disk[b := x], v.(data := v.data[b := x]))
  {
    var d := disk[b := x];
    BitsFrame(disk, d, g.blockBitmapStart, v.blockBits);
    BitsFrame(disk, d, g.inodeBitmapStart, v.inodeBits);
    InodesFrame(disk, d, g.inodeTableStart, v.inodes);
  }
}
