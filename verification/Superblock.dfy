/** The superblock: its encoding by the host tools and its decoding by the kernel, which
    accepts exactly what the encoder produces. */
module Superblock {
  import opened Bytes
  import opened Layout
  import opened Crc32

  const MAGIC: u32 := 0x3153464D
  const VERSION: u32 := 1

  lemma FieldsAreWords(g: Geometry)
    requires g.Valid()
    ensures g.totalInodes < 0x1_0000_0000 && g.root < 0x1_0000_0000 && g.totalBlocks < 0x1_0000_0000
    ensures g.blockBitmapStart < 0x1_0000_0000 && g.blockBitmapBlocks < 0x1_0000_0000
    ensures g.inodeBitmapStart < 0x1_0000_0000 && g.inodeBitmapBlocks < 0x1_0000_0000
    ensures g.inodeTableStart < 0x1_0000_0000 && g.inodeTableBlocks < 0x1_0000_0000 && g.dataStart < 0x1_0000_0000
  {
  }

  function HeaderWords(g: Geometry, checksum: u32): (ws: seq<u32>)
    requires g.Valid()
    ensures |ws| == 14
  {
    FieldsAreWords(g);
    [MAGIC, VERSION, 4096, g.totalBlocks, g.totalInodes, g.blockBitmapStart, g.blockBitmapBlocks,
     g.inodeBitmapStart, g.inodeBitmapBlocks, g.inodeTableStart, g.inodeTableBlocks, g.dataStart, g.root, checksum]
  }

  function Header(g: Geometry, checksum: u32): (b: Block)
    requires g.Valid()
  {
    WordBytes(HeaderWords(g, checksum)) + Zeros(4040)
  }

  /** The block that the host tools write for a volume. */
  function EncodeSuperblock(g: Geometry): (b: Block)
    requires g.Valid()
  {
    Header(g, Checksum(Header(g, 0)))
  }

  /** A block with its checksum field cleared. */
  function Masked(b: Block): (m: Block) {
    Splice(b, 52, Zeros(4))
  }

  lemma HeaderWord(g: Geometry, checksum: u32, i: nat)
    requires g.Valid() && i < 14
    ensures Word(Header(g, checksum), i) == HeaderWords(g, checksum)[i]
  {
    var ws := WordBytes(HeaderWords(g, checksum));
    WordOfWordBytes(HeaderWords(g, checksum), i);
    assert Header(g, checksum)[4 * i..4 * i + 4] == ws[4 * i..4 * i + 4];
    Le32Local(Header(g, checksum), 4 * i, ws, 4 * i);
  }

  /** A block is a header if its words and its reserved bytes say so. */
  lemma HeaderUnique(b: Block, g: Geometry, checksum: u32)
    requires g.Valid() && AllZero(b[56..])
    requires forall i: nat :: i < 14 ==> Word(b, i) == HeaderWords(g, checksum)[i]
    ensures b == Header(g, checksum)
  {
    var h := Header(g, checksum);
    forall k | 0 <= k < 4096 ensures b[k] == h[k] {
      if k < 56 {
        var i := k / 4;
        HeaderWord(g, checksum, i);
        Le32Injective(b, 4 * i, h, 4 * i);
        assert b[4 * i..4 * i + 4][k - 4 * i] == h[4 * i..4 * i + 4][k - 4 * i];
      } else {
        assert b[k] == b[56..][k - 56];
      }
    }
  }

  lemma MaskedHeader(g: Geometry, checksum: u32)
    requires g.Valid()
    ensures Masked(Header(g, checksum)) == Header(g, 0)
  {
    var m := Masked(Header(g, checksum));
    forall i: nat | i < 14 ensures Word(m, i) == HeaderWords(g, 0)[i] {
      HeaderWord(g, checksum, i);
      if i == 13 {
        assert m[52] == 0 && m[53] == 0 && m[54] == 0 && m[55] == 0;
      } else {
        assert m[4 * i..4 * i + 4] == Header(g, checksum)[4 * i..4 * i + 4];
        Le32Local(m, 4 * i, Header(g, checksum), 4 * i);
      }
    }
    assert AllZero(m[56..]);
    HeaderUnique(m, g, 0);
  }

  // ---------- the kernel's decoder ----------

  method SuperblockCrc(block: Block) returns (crc: u32)
    ensures crc == Checksum(Masked(block))
  {
    crc := 0xFFFF_FFFF;
    for index := 0 to 4096
      invariant crc == Register(0xFFFF_FFFF, Masked(block)[..index])
    {
      var value := block[index];
      if 52 <= index < 56 {
        value := 0;
      }
      assert Masked(block)[..index + 1][..index] == Masked(block)[..index];
      ghost var before := crc;
      XorInRange(crc, value);
      crc := Xor(crc, value);
      ghost var start := crc;
      for bit := 0 to 8
        invariant crc == BitSteps(start, bit)
      {
        crc := BitStep(crc);
      }
      assert crc == Absorb(before, Masked(block)[index]);
    }
    assert Masked(block)[..4096] == Masked(block);
    crc := 0xFFFF_FFFF - crc;
  }

  method ReservedZero(block: Block) returns (zero: bool)
    ensures zero == AllZero(block[56..])
  {
    for index := 56 to 4096
      invariant forall k :: 56 <= k < index ==> block[k] == 0
    {
      if block[index] != 0 {
        assert block[56..][index - 56] != 0;
        return false;
      }
    }
    return true;
  }

  ghost predicate Encodes(block: Block, g: Geometry, volumeBlocks: u32) {
    g.Valid() && g.totalBlocks == volumeBlocks && block == EncodeSuperblock(g)
  }

  /** The kernel also refuses volumes whose inode table it cannot measure in 32 bits. */
  ghost predicate Decodes(block: Block, g: Geometry, volumeBlocks: u32) {
    Encodes(block, g, volumeBlocks) && g.totalInodes <= 0xFFFF_FFFF / 64
  }

  ghost predicate Accepted(block: Block, volumeBlocks: u32) { exists g :: Decodes(block, g, volumeBlocks) }

  lemma EncodedWords(block: Block, g: Geometry, volumeBlocks: u32)
    requires Encodes(block, g, volumeBlocks)
    ensures AllZero(block[56..]) && Word(block, 13) == Checksum(Masked(block))
    ensures forall i: nat :: i < 14 ==> Word(block, i) == HeaderWords(g, Word(block, 13))[i]
  {
    hide Checksum;
    var c := Checksum(Header(g, 0));
    MaskedHeader(g, c);
    forall i: nat | i < 14 ensures Word(block, i) == HeaderWords(g, c)[i] { HeaderWord(g, c, i); }
    assert Word(block, 13) == HeaderWords(g, c)[13] == c;
  }

  /** All fields but the root follow from the two totals. */
  lemma Determined(g: Geometry)
    requires g.Valid()
    ensures g.blockBitmapBlocks == (g.totalBlocks - 1) / 32768 + 1
    ensures g.inodeBitmapBlocks == (g.totalInodes - 1) / 32768 + 1
    ensures g.inodeTableBlocks == (64 * g.totalInodes - 1) / 4096 + 1
  {
  }

  /** `value / divisor` rounded up, for the divisors that occur. */
  function RoundUpBits(value: u32): (n: u32) { if value == 0 then 0 else (value - 1) / 32768 + 1 }

  function RoundUpBytes(value: u32): (n: u32) { if value == 0 then 0 else (value - 1) / 4096 + 1 }

  /** The geometry of a volume with these totals. */
  function GeometryOf(totalBlocks: u32, totalInodes: u32, root: u32): (g: Geometry)
    requires totalInodes * 64 < 0x1_0000_0000
  {
    var bb, ib, it := RoundUpBits(totalBlocks), RoundUpBits(totalInodes), RoundUpBytes(totalInodes * 64);
    Geometry(totalBlocks, totalInodes, 1, bb, 1 + bb, ib, 1 + bb + ib, it, 1 + bb + ib + it, root)
  }

  lemma RegionsFit(totalBlocks: u32, totalInodes: u32, root: u32)
    requires 0 < totalInodes && totalInodes * 64 < 0x1_0000_0000
    ensures GeometryOf(totalBlocks, totalInodes, root).dataStart < 0x1_0000_0000
    ensures GeometryOf(totalBlocks, totalInodes, root).dataStart < totalBlocks && root < totalInodes <==>
              GeometryOf(totalBlocks, totalInodes, root).Valid()
  {
  }

  /** Accepts a block if and only if it is the encoding of some volume of the expected size. */
  method DecodeSuperblock(block: Block, volumeBlocks: u32) returns (ok: bool, g: Geometry)
    ensures ok ==> Decodes(block, g, volumeBlocks)
    ensures ok <==> Accepted(block, volumeBlocks)
  {
    hide Checksum, AllZero, Masked, Word, HeaderWords, Encodes, RoundUpBits, RoundUpBytes, Geometry.Valid;
    g := Geometry(0, 0, 0, 0, 0, 0, 0, 0, 0, 0);
    var crc := SuperblockCrc(block);
    var zero := ReservedZero(block);
    if Word(block, 0) != MAGIC || Word(block, 1) != VERSION || Word(block, 2) != 4096 || Word(block, 13) != crc
      || !zero {
      forall g' | Decodes(block, g', volumeBlocks) ensures false { HeadRight(block, g', volumeBlocks); }
      return false, g;
    }
    var totalBlocks, totalInodes := Word(block, 3), Word(block, 4);
    if totalBlocks != volumeBlocks || totalInodes == 0 || totalInodes > 0xFFFF_FFFF / 64 {
      forall g' | Decodes(block, g', volumeBlocks) ensures false { TotalsRight(block, g', volumeBlocks); }
      return false, g;
    }
    var blockBitmapBlocks, inodeBitmapBlocks := RoundUpBits(totalBlocks), RoundUpBits(totalInodes);
    var inodeTableBlocks := RoundUpBytes(totalInodes * 64);
    RegionsFit(totalBlocks, totalInodes, Word(block, 12));
    var inodeBitmapStart := (1 + blockBitmapBlocks) % 0x1_0000_0000;
    var inodeTableStart := (inodeBitmapStart + inodeBitmapBlocks) % 0x1_0000_0000;
    var dataStart := (inodeTableStart + inodeTableBlocks) % 0x1_0000_0000;
    if || inodeBitmapStart < blockBitmapBlocks || inodeTableStart < inodeBitmapStart || dataStart < inodeTableStart
       || dataStart >= totalBlocks || Word(block, 5) != 1 || Word(block, 6) != blockBitmapBlocks
       || Word(block, 7) != inodeBitmapStart || Word(block, 8) != inodeBitmapBlocks
       || Word(block, 9) != inodeTableStart || Word(block, 10) != inodeTableBlocks
       || Word(block, 11) != dataStart || Word(block, 12) >= totalInodes
    {
      forall g' | Decodes(block, g', volumeBlocks)
        ensures false { TotalsRight(block, g', volumeBlocks); RegionsRight(block, g', volumeBlocks); }
      return false, g;
    }
    g := Geometry(totalBlocks, totalInodes, 1, blockBitmapBlocks, inodeBitmapStart, inodeBitmapBlocks,
                  inodeTableStart, inodeTableBlocks, dataStart, Word(block, 12));
    AcceptedEncodes(block, g, volumeBlocks);
    ok := true;
  }

  lemma HeadRight(block: Block, g: Geometry, volumeBlocks: u32)
    requires Encodes(block, g, volumeBlocks)
    ensures Word(block, 0) == MAGIC && Word(block, 1) == VERSION && Word(block, 2) == 4096
    ensures Word(block, 13) == Checksum(Masked(block)) && AllZero(block[56..])
  {
    hide Checksum, AllZero, Masked, Word;
    EncodedWords(block, g, volumeBlocks);
  }

  lemma TotalsRight(block: Block, g: Geometry, volumeBlocks: u32)
    requires Encodes(block, g, volumeBlocks)
    ensures Word(block, 3) == volumeBlocks == g.totalBlocks && Word(block, 4) == g.totalInodes != 0
  {
    hide Checksum, AllZero, Masked, Word;
    EncodedWords(block, g, volumeBlocks);
  }

  lemma RegionsRight(block: Block, g: Geometry, volumeBlocks: u32)
    requires Decodes(block, g, volumeBlocks)
    ensures Word(block, 4) * 64 < 0x1_0000_0000
    ensures var bb, ib, it := RoundUpBits(Word(block, 3)), RoundUpBits(Word(block, 4)),
        RoundUpBytes(Word(block, 4) * 64);
            && Word(block, 5) == 1 && Word(block, 6) == bb && Word(block, 7) == 1 + bb && Word(block, 8) == ib
            && Word(block, 9) == 1 + bb + ib && Word(block, 10) == it
               && Word(block, 11) == 1 + bb + ib + it < Word(block, 3)
            && Word(block, 12) < Word(block, 4)
  {
    hide Checksum, AllZero, Masked, Word;
    EncodedWords(block, g, volumeBlocks);
    Determined(g);
  }

  lemma AcceptedEncodes(block: Block, g: Geometry, volumeBlocks: u32)
    requires g.Valid() && g.totalBlocks == volumeBlocks && AllZero(block[56..])
    requires Word(block, 13) == Checksum(Masked(block))
    requires Word(block, 0) == MAGIC && Word(block, 1) == VERSION && Word(block, 2) == 4096
    requires Word(block, 3) == g.totalBlocks && Word(block, 4) == g.totalInodes
    requires Word(block, 5) == g.blockBitmapStart && Word(block, 6) == g.blockBitmapBlocks
    requires Word(block, 7) == g.inodeBitmapStart && Word(block, 8) == g.inodeBitmapBlocks
    requires Word(block, 9) == g.inodeTableStart && Word(block, 10) == g.inodeTableBlocks
    requires Word(block, 11) == g.dataStart && Word(block, 12) == g.root
    ensures Encodes(block, g, volumeBlocks)
  {
    hide Checksum, AllZero, Masked, Word;
    var c := Word(block, 13);
    HeaderUnique(block, g, c);
    MaskedHeader(g, c);
  }

  lemma ChecksumFieldByte(block: Block, i: nat, x: byte)
    requires 52 <= i < 56 && block[i] != x
    ensures Masked(block[i := x]) == Masked(block) && Word(block[i := x], 13) != Word(block, 13)
  {
    assert Masked(block[i := x]) == Masked(block);
  }

  lemma OtherByte(block: Block, i: nat, x: byte)
    requires i < 4096 && !(52 <= i < 56) && block[i] != x
    ensures Checksum(Masked(block[i := x])) != Checksum(Masked(block)) && Word(block[i := x], 13) == Word(block, 13)
  {
    hide Checksum;
    var m := Masked(block);
    assert Masked(block[i := x]) == m[i := x];
    assert m == m[..i] + ([m[i]] + m[i + 1..]) && m[i := x] == m[..i] + ([x] + m[i + 1..]);
    BurstDetected(m[..i], [m[i]], [x], m[i + 1..]);
  }

  /** No single byte of an accepted superblock can change without the decoder noticing. */
  lemma OneByteChange(block: Block, g: Geometry, volumeBlocks: u32, i: nat, x: byte)
    requires Encodes(block, g, volumeBlocks) && i < 4096 && block[i] != x
    ensures !Accepted(block[i := x], volumeBlocks)
    ensures var b: Block := block[i := x]; forall g', blocks :: !Encodes(b, g', blocks)
  {
    hide Checksum, Masked, Word, Encodes;
    var b: Block := block[i := x];
    HeadRight(block, g, volumeBlocks);
    if 52 <= i < 56 { ChecksumFieldByte(block, i, x); } else { OtherByte(block, i, x); }
    forall g', blocks | Encodes(b, g', blocks) ensures false { HeadRight(b, g', blocks); }
  }

  /** Two volumes with the same superblock have the same geometry. */
  lemma EncodeInjective(g: Geometry, g': Geometry, volumeBlocks: u32, block: Block)
    requires Encodes(block, g, volumeBlocks) && Encodes(block, g', volumeBlocks)
    ensures g == g'
  {
    hide EncodeSuperblock, Word;
    EncodedWords(block, g, volumeBlocks);
    EncodedWords(block, g', volumeBlocks);
    forall i: nat | i < 14 ensures HeaderWords(g, Word(block, 13))[i] == HeaderWords(g', Word(block, 13))[i] { }
    var a, b := HeaderWords(g, Word(block, 13)), HeaderWords(g', Word(block, 13));
    assert a[4] == b[4] && a[5] == b[5] && a[6] == b[6] && a[7] == b[7] && a[8] == b[8] && a[9] == b[9];
    assert a[10] == b[10] && a[11] == b[11] && a[12] == b[12];
  }

  // ---------- making one on the host ----------

  /** Number of units that hold `size`, as the host tool counts them. */
  function BlocksForBytes(size: nat, unit: nat): (n: nat)
    requires unit > 0
  {
    (size + unit - 1) / unit
  }

  datatype Made = Refused | Made(g: Geometry)

  function MakeSuperblock(totalBlocks: nat, totalInodes: nat): (r: Made) {
    if totalBlocks == 0 || totalInodes == 0 then Refused
    else
      var bb, ib := BlocksForBytes(totalBlocks, 32768), BlocksForBytes(totalInodes, 32768);
      var it := BlocksForBytes(totalInodes * 64, 4096);
      var dataStart := 1 + bb + ib + it;
      if dataStart >= totalBlocks then Refused
      else Made(Geometry(totalBlocks, totalInodes, 1, bb, 1 + bb, ib, 1 + bb + ib, it, dataStart, 0))
  }

  lemma MadeValid(totalBlocks: u32, totalInodes: u32)
    requires MakeSuperblock(totalBlocks, totalInodes).Made?
    ensures MakeSuperblock(totalBlocks, totalInodes).g.Valid()
  {
  }

  /** There is only one way to lay out a volume with root 0, and the host finds it. */
  lemma MadeUnique(g: Geometry)
    requires g.Valid() && g.root == 0
    ensures MakeSuperblock(g.totalBlocks, g.totalInodes) == Made(g)
  {
    hide BlocksForBytes;
    BitmapSize(g.totalBlocks, g.blockBitmapBlocks);
    BitmapSize(g.totalInodes, g.inodeBitmapBlocks);
    TableSize(g.totalInodes, g.inodeTableBlocks);
  }

  lemma BitmapSize(bits: nat, blocks: nat)
    requires (blocks - 1) * 32768 < bits <= blocks * 32768
    ensures BlocksForBytes(bits, 32768) == blocks
  {
  }

  lemma TableSize(inodes: nat, blocks: nat)
    requires (blocks - 1) * 64 < inodes <= blocks * 64
    ensures BlocksForBytes(inodes * 64, 4096) == blocks
  {
  }

  /** The host refuses exactly the totals for which there is no layout. What it makes is accepted by
      the kernel exactly if the inode table can be measured in 32 bits. */
  lemma MadeIff(totalBlocks: u32, totalInodes: u32)
    ensures MakeSuperblock(totalBlocks, totalInodes).Made? <==>
              exists g: Geometry :: g.Valid() && g.totalBlocks == totalBlocks && g.totalInodes == totalInodes
                && g.root == 0
    ensures var r := MakeSuperblock(totalBlocks, totalInodes);
            r.Made? ==>
              && r.g.Valid()
              && (Accepted(EncodeSuperblock(r.g), totalBlocks) <==> totalInodes <= 0xFFFF_FFFF / 64)
  {
    hide EncodeSuperblock;
    var r := MakeSuperblock(totalBlocks, totalInodes);
    if r.Made? {
      MadeValid(totalBlocks, totalInodes);
      assert Encodes(EncodeSuperblock(r.g), r.g, totalBlocks);
      assert totalInodes <= 0xFFFF_FFFF / 64 ==> Decodes(EncodeSuperblock(r.g), r.g, totalBlocks);
      if g :| Decodes(EncodeSuperblock(r.g), g, totalBlocks) {
        TotalsRight(EncodeSuperblock(r.g), g, totalBlocks);
        TotalsRight(EncodeSuperblock(r.g), r.g, totalBlocks);
      }
    }
    forall g: Geometry | g.Valid() && g.totalBlocks == totalBlocks && g.totalInodes == totalInodes && g.root == 0
      ensures r.Made? {
      MadeUnique(g);
    }
  }
}
