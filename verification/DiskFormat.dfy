/** The disk format byte by byte, as other implementations of it would have to know it. */
module DiskFormat {
  import opened Bytes
  import opened Layout
  import opened Volume
  import opened Directory
  import opened Crc32
  import opened CrcRemainder
  import opened Superblock

  /** The number `w` is stored in four bytes from `o` on, lowest byte first. */
  ghost predicate Stored(b: seq<byte>, o: nat, w: nat) {
    && o + 4 <= |b|
    && b[o] == w % 0x100 && b[o + 1] == w / 0x100 % 0x100 && b[o + 2] == w / 0x1_0000 % 0x100
    && b[o + 3] == w / 0x100_0000
  }

  /** The same for two bytes. */
  ghost predicate StoredShort(b: seq<byte>, o: nat, w: nat) {
    o + 2 <= |b| && b[o] == w % 0x100 && b[o + 1] == w / 0x100
  }

  lemma WordStored(b: seq<byte>, o: nat)
    requires o + 4 <= |b|
    ensures Stored(b, o, Le32(b, o))
  {
    var x2 := b[o + 2] as int + 0x100 * (b[o + 3] as int);
    var x1 := b[o + 1] as int + 0x100 * x2;
    var w := Le32(b, o);
    assert w == b[o] as int + 0x100 * x1;
    LowByte(b[o], x1);
    LowByte(b[o + 1], x2);
    LowByte(b[o + 2], b[o + 3]);
    assert w / 0x1_0000 == w / 0x100 / 0x100 && w / 0x100_0000 == w / 0x100 / 0x100 / 0x100;
  }

  lemma LowByte(a: byte, x: nat)
    ensures (a as int + 0x100 * x) % 0x100 == a && (a as int + 0x100 * x) / 0x100 == x
  {
  }

  lemma ShortStored(b: seq<byte>, o: nat)
    requires o + 2 <= |b|
    ensures StoredShort(b, o, Le16(b, o))
  {
  }

  // ---------- the superblock ----------

  /** "MFS1", version, block size, totals, the four regions, the root, and the CRC-32 of the block
      with zeros in place of the checksum; zeros in the rest. */
  ghost predicate IsSuperblock(b: Block, g: Geometry) {
    && b[..4] == [0x4D, 0x46, 0x53, 0x31] && Stored(b, 4, 1) && Stored(b, 8, 4096)
    && Stored(b, 12, g.totalBlocks) && Stored(b, 16, g.totalInodes)
    && Stored(b, 20, 1) && Stored(b, 24, g.blockBitmapBlocks)
    && Stored(b, 28, g.inodeBitmapStart) && Stored(b, 32, g.inodeBitmapBlocks)
    && Stored(b, 36, g.inodeTableStart) && Stored(b, 40, g.inodeTableBlocks)
    && Stored(b, 44, g.dataStart) && Stored(b, 48, g.root)
    && (exists crc: u32 :: Stored(b, 52, crc) && IsCrc32(b[..52] + [0, 0, 0, 0] + b[56..], crc))
    && forall k :: 56 <= k < 4096 ==> b[k] == 0
  }

  /** The checksum of `s` as polynomial division defines it. */
  ghost predicate IsCrc32(s: seq<byte>, crc: u32) {
    Remainder(Dividend(0xFFFF_FFFF, s), Plus(Terms(crc), AllTerms()))
  }

  /** The blocks that encode a layout are exactly these. */
  lemma SuperblockBytes(block: Block, g: Geometry, volumeBlocks: u32)
    requires g.Valid() && g.totalBlocks == volumeBlocks
    ensures Encodes(block, g, volumeBlocks) <==> IsSuperblock(block, g)
  {
    if Encodes(block, g, volumeBlocks) { EncodedBytes(block, g, volumeBlocks); }
    if IsSuperblock(block, g) { BytesEncode(block, g, volumeBlocks); }
  }

  lemma BytesEncode(block: Block, g: Geometry, volumeBlocks: u32)
    requires g.Valid() && g.totalBlocks == volumeBlocks && IsSuperblock(block, g)
    ensures Encodes(block, g, volumeBlocks)
  {
    hide Le32, Checksum, Masked, Stored, Remainder, Dividend, Terms, AllTerms, Plus, EncodeSuperblock;
    var crc: u32 :| Stored(block, 52, crc) && IsCrc32(block[..52] + [0, 0, 0, 0] + block[56..], crc);
    MaskedIs(block);
    ChecksumIsCrc32(Masked(block), crc);
    assert Stored(block, 0, MAGIC) by { MagicStored(block); }
    var vs := [MAGIC, VERSION, 4096, g.totalBlocks, g.totalInodes, g.blockBitmapStart, g.blockBitmapBlocks,
               g.inodeBitmapStart, g.inodeBitmapBlocks, g.inodeTableStart, g.inodeTableBlocks, g.dataStart, g.root,
               crc];
    StoredIs(block, 0, vs[0]);
    StoredIs(block, 4, vs[1]);
    StoredIs(block, 8, vs[2]);
    StoredIs(block, 12, vs[3]);
    StoredIs(block, 16, vs[4]);
    StoredIs(block, 20, vs[5]);
    StoredIs(block, 24, vs[6]);
    StoredIs(block, 28, vs[7]);
    StoredIs(block, 32, vs[8]);
    StoredIs(block, 36, vs[9]);
    StoredIs(block, 40, vs[10]);
    StoredIs(block, 44, vs[11]);
    StoredIs(block, 48, vs[12]);
    StoredIs(block, 52, vs[13]);
    AcceptedEncodes(block, g, volumeBlocks);
  }

  lemma MagicStored(block: Block)
    requires block[..4] == [0x4D, 0x46, 0x53, 0x31]
    ensures Stored(block, 0, MAGIC)
  {
    var h := block[..4];
    assert h[0] == block[0] && h[1] == block[1] && h[2] == block[2] && h[3] == block[3];
  }

  lemma EncodedBytes(block: Block, g: Geometry, volumeBlocks: u32)
    requires Encodes(block, g, volumeBlocks)
    ensures IsSuperblock(block, g)
  {
    hide Le32, Checksum, Masked, Stored, Remainder, Dividend, Terms, AllTerms, Plus;
    EncodedWords(block, g, volumeBlocks);
    forall i: nat | i < 14 ensures Stored(block, 4 * i, HeaderWords(g, Word(block, 13))[i]) {
      WordStored(block, 4 * i);
    }
    var ws := HeaderWords(g, Word(block, 13));
    assert Stored(block, 0, ws[0]) && Stored(block, 4, ws[1]) && Stored(block, 8, ws[2]) && Stored(block, 12, ws[3]);
    assert Stored(block, 16, ws[4]) && Stored(block, 20, ws[5]) && Stored(block, 24, ws[6]) && Stored(block, 28, ws[7]);
    assert Stored(block, 32, ws[8]) && Stored(block, 36, ws[9]) && Stored(block, 40, ws[10]);
    assert Stored(block, 44, ws[11]) && Stored(block, 48, ws[12]) && Stored(block, 52, ws[13]);
    Magic(block);
    MaskedIs(block);
    ChecksumIsCrc32(Masked(block), ws[13]);
    forall k | 56 <= k < 4096 ensures block[k] == 0 { assert block[56..][k - 56] == 0; }
  }

  lemma Magic(block: Block)
    requires Stored(block, 0, MAGIC)
    ensures block[..4] == [0x4D, 0x46, 0x53, 0x31]
  {
  }

  lemma MaskedIs(block: Block)
    ensures Masked(block) == block[..52] + [0, 0, 0, 0] + block[56..]
  {
  }

  // ---------- inodes ----------

  /** Where the fields of an inode are in its record. */
  lemma InodeBytes(raw: seq<byte>)
    requires |raw| == 64
    ensures var i := DecodeInode(raw);
            && StoredShort(raw, 0, i.mode) && StoredShort(raw, 2, i.links) && Stored(raw, 4, i.size)
            && (forall k :: 0 <= k < 10 ==> Stored(raw, 8 + 4 * k, i.direct[k]))
            && Stored(raw, 48, i.indirect) && Stored(raw, 52, i.created) && Stored(raw, 56, i.modified)
            && Stored(raw, 60, i.reserved)
  {
    hide Le32, Le16, Stored, StoredShort;
    ShortStored(raw, 0);
    ShortStored(raw, 2);
    WordStored(raw, 4);
    forall k | 0 <= k < 10 ensures Stored(raw, 8 + 4 * k, Le32(raw, 8 + 4 * k)) { WordStored(raw, 8 + 4 * k); }
    WordStored(raw, 48);
    WordStored(raw, 52);
    WordStored(raw, 56);
    WordStored(raw, 60);
  }

  /** Which records are inodes: files have mode 1, directories mode 2, and 1034 blocks are the most. */
  lemma RecordMeans(i: Inode)
    ensures RecordOK(i) <==>
              && i.mode in {1, 2} && i.links > 0 && i.size <= 1034 * 4096 && i.reserved == 0
              && (i.mode == 2 ==> i.size > 0 && i.size % 64 == 0)
  {
  }

  // ---------- bitmaps, table and contents ----------

  ghost function Weight(k: nat): (w: nat)
    requires k < 8
    ensures w > 0
  {
    [1, 2, 4, 8, 16, 32, 64, 128][k]
  }

  lemma {:induction false} BitWeight(x: byte, k: nat)
    requires k < 8
    ensures Bit(x, k) <==> x / Weight(k) % 2 == 1
  {
    if k > 0 {
      BitWeight(x / 2, k - 1);
      HalfWeight(x, k);
    }
  }

  lemma HalfWeight(x: nat, k: nat)
    requires 0 < k < 8
    ensures x / 2 / Weight(k - 1) == x / Weight(k)
  {
    if k == 1 {
      assert Weight(0) == 1;
    } else if k == 2 {
    } else if k == 3 {
    } else if k == 4 {
    } else if k == 5 {
    } else if k == 6 {
    } else {
    }
  }

  /** Bit `b` of a bitmap: eight bits to a byte, lowest first, 32768 to a block. */
  lemma BitmapBytes(disk: Disk, start: nat, b: nat)
    requires start + b / 32768 < |disk|
    ensures BitmapBit(disk, start, b) <==> disk[start + b / 32768][b % 32768 / 8] / Weight(b % 8) % 2 == 1
  {
    hide Weight, Bit;
    assert b % 32768 % 8 == b % 8;
    BitWeight(disk[start + b / 32768][b % 32768 / 8], b % 8);
  }

  /** 64 records of 64 bytes to a block. */
  lemma TableBytes(disk: Disk, start: nat, n: nat)
    requires start + n / 64 < |disk|
    ensures TableInode(disk, start, n) == DecodeInode(disk[start + n / 64][64 * (n % 64)..64 * (n % 64) + 64])
  {
  }

  /** Byte `j` of a file: ten blocks of 4096 bytes are named in the inode, the others in the
      indirect block. */
  lemma ContentBytes(data: seq<Block>, i: Inode, j: nat, b: nat)
    requires j < i.size && b < |data|
    requires if j < 40960 then b == i.direct[j / 4096]
             else i.indirect < |data| && j < 40960 + 4194304 && Stored(data[i.indirect], 4 * (j / 4096 - 10), b)
    ensures Content(data, i)[j] == data[b][j % 4096]
  {
    if j >= 40960 { StoredIs(data[i.indirect], 4 * (j / 4096 - 10), b); }
  }

  lemma StoredIs(b: seq<byte>, o: nat, w: nat)
    requires Stored(b, o, w)
    ensures Le32(b, o) == w
  {
    var h, q := w / 0x100, w / 0x1_0000;
    assert w == 0x100 * h + w % 0x100 && h / 0x100 == q && h == 0x100 * q + h % 0x100;
    assert q / 0x100 == w / 0x100_0000 && q == 0x100 * (q / 0x100) + q % 0x100;
  }

  // ---------- directory entries ----------

  ghost predicate GoodName(name: seq<byte>) {
    1 <= |name| <= 58 && forall i :: 0 <= i < |name| ==> 1 <= name[i] <= 0x7F && name[i] != 0x2F
  }

  /** The entry with that inode, kind and name, padded with zeros. */
  ghost predicate IsEntry(raw: seq<byte>, child: nat, kind: nat, name: seq<byte>) {
    && |raw| == 64 && |name| <= 58 && Stored(raw, 0, child) && raw[4] == kind && raw[5..5 + |name|] == name
    && forall i :: 5 + |name| <= i < 64 ==> raw[i] == 0
  }

  lemma EntryBytes(child: u32, kind: byte, name: Name)
    requires |name| <= 58
    ensures IsEntry(EncodeEntry(child, kind, name), child, kind, name)
  {
  }

  /** Entries that are accepted: unused ones are all zero, the others have a name. */
  lemma EntryMeans(raw: seq<byte>)
    requires |raw| == 64
    ensures EntryOK(raw) <==>
              || (forall i :: 0 <= i < 64 ==> raw[i] == 0)
              || (&& raw[4] in {1, 2} && GoodName(NameOf(raw))
                  && IsEntry(raw, LinkOf(raw).child, LinkOf(raw).kind, NameOf(raw)))
  {
    hide Le32, Stored;
    WordStored(raw, 0);
    var f, n := raw[5..64], Length(raw[5..64]);
    if raw[4] != 0 {
      assert NameOf(raw) == f[..n] == raw[5..5 + n];
      assert AllZero(f[n..]) <==> forall i :: 5 + n <= i < 64 ==> raw[i] == 0 by {
        forall i | 5 + n <= i < 64 ensures raw[i] == f[n..][i - 5 - n] { }
        forall j | 0 <= j < 59 - n ensures f[n..][j] == raw[5 + n + j] { }
      }
    }
  }
}
