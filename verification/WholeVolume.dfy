/** Mounting and checking any disk whatever: what is on it is found out, not given. */
module WholeVolume {
  import opened Bytes
  import opened Layout
  import opened Volume
  import opened Trees
  import opened FileSystem
  import opened Mounted
  import opened Crc32
  import opened Superblock
  import Fsck

  // ---------- every disk holds some volume ----------

  ghost function VolumeOn(g: Geometry, disk: Disk): (v: Vol)
    requires g.Valid() && |disk| == g.totalBlocks
  {
    Vol(seq(g.blockBitmapBlocks * 32768,
      i requires 0 <= i < g.blockBitmapBlocks * 32768 => BitmapBit(disk, g.blockBitmapStart, i)),
        seq(g.inodeBitmapBlocks * 32768,
          i requires 0 <= i < g.inodeBitmapBlocks * 32768 => BitmapBit(disk, g.inodeBitmapStart, i)),
        seq(g.totalInodes, n requires 0 <= n < g.totalInodes => TableInode(disk, g.inodeTableStart, n)), disk)
  }

  lemma VolumeThere(g: Geometry, disk: Disk)
    requires g.Valid() && |disk| == g.totalBlocks
    ensures Represents(g, disk, VolumeOn(g, disk))
  {
    hide BitmapBit, TableInode;
  }

  // ---------- checking ----------

  /** The host takes any number of inodes, and wants inode 0 as the root. */
  ghost predicate HostDecodes(block: Block, g: Geometry, volumeBlocks: u32) {
    Encodes(block, g, volumeBlocks) && g.root == 0
  }

  method HostDecode(block: Block, volumeBlocks: u32) returns (ok: bool, g: Geometry)
    ensures ok ==> HostDecodes(block, g, volumeBlocks)
    ensures ok <==> exists g' :: HostDecodes(block, g', volumeBlocks)
  {
    hide Checksum, AllZero, Masked, Word, HeaderWords, Encodes, MakeSuperblock, Geometry.Valid;
    g := Geometry(0, 0, 0, 0, 0, 0, 0, 0, 0, 0);
    var crc := SuperblockCrc(block);
    var zero := ReservedZero(block);
    if Word(block, 0) != MAGIC || Word(block, 1) != VERSION || Word(block, 2) != 4096 || Word(block, 13) != crc
      || !zero {
      forall g' | HostDecodes(block, g', volumeBlocks) ensures false { HeadRight(block, g', volumeBlocks); }
      return false, g;
    }
    if Word(block, 3) != volumeBlocks {
      forall g' | HostDecodes(block, g', volumeBlocks) ensures false { TotalsRight(block, g', volumeBlocks); }
      return false, g;
    }
    var made := MakeSuperblock(Word(block, 3), Word(block, 4));
    g := Geometry(Word(block, 3), Word(block, 4), Word(block, 5), Word(block, 6), Word(block, 7),
                  Word(block, 8), Word(block, 9), Word(block, 10), Word(block, 11), Word(block, 12));
    if made != Made(g) {
      forall g' | HostDecodes(block, g', volumeBlocks) ensures false { HostFields(block, g', volumeBlocks); }
      return false, g;
    }
    MadeValid(Word(block, 3), Word(block, 4));
    MadeTotals(Word(block, 3), Word(block, 4));
    AcceptedEncodes(block, g, volumeBlocks);
    ok := true;
  }

  lemma MadeTotals(totalBlocks: u32, totalInodes: u32)
    requires MakeSuperblock(totalBlocks, totalInodes).Made?
    ensures MakeSuperblock(totalBlocks, totalInodes).g.root == 0
    ensures MakeSuperblock(totalBlocks, totalInodes).g.totalBlocks == totalBlocks
    ensures MakeSuperblock(totalBlocks, totalInodes).g.totalInodes == totalInodes
  {
  }

  /** The decoded fields are those of the layout that was encoded. */
  lemma HostFields(block: Block, g: Geometry, volumeBlocks: u32)
    requires HostDecodes(block, g, volumeBlocks)
    ensures g == Geometry(Word(block, 3), Word(block, 4), Word(block, 5), Word(block, 6), Word(block, 7),
                          Word(block, 8), Word(block, 9), Word(block, 10), Word(block, 11), Word(block, 12))
    ensures MakeSuperblock(Word(block, 3), Word(block, 4)) == Made(g)
  {
    hide Checksum, AllZero, Masked, Word, MakeSuperblock;
    EncodedWords(block, g, volumeBlocks);
    MadeUnique(g);
  }

  /** What the disk holds is a clean volume. */
  ghost predicate CleanOn(g: Geometry, disk: Disk) {
    exists v: Vol, ow: Owner :: Represents(g, disk, v) && Clean(g, v, ow)
  }

  ghost predicate CleanAs(disk: Disk, g: Geometry) {
    0 < |disk| < 0x1_0000_0000 && HostDecodes(disk[0], g, |disk|) && CleanOn(g, disk)
  }

  /** The numbers that are reported for a clean disk. */
  ghost predicate Counts(disk: Disk, g: Geometry, v: Vol, files: nat, regular: nat, directories: nat) {
    && Represents(g, disk, v) && (exists ow :: Clean(g, v, ow)) && files == |Files(v)|
    && regular == Fsck.RegularFiles(TreeOf(Files(v))) && directories == Fsck.Folders(TreeOf(Files(v)))
  }

  /** The whole tool. It accepts a disk, whatever its blocks hold, if and only if the first block is
      a superblock for that size and the rest is a clean volume of that layout. */
  method CheckVolume(disk: Disk)
    returns (ok: bool, files: nat, regular: nat, directories: nat, ghost g: Geometry, ghost v: Vol)
    ensures ok <==> exists g' :: CleanAs(disk, g')
    ensures ok ==> CleanAs(disk, g) && Counts(disk, g, v, files, regular, directories)
  {
    hide Represents, Clean, Encodes, Files, Fsck.ClaimsMatch, Geometry.Valid;
    files, regular, directories, v := 0, 0, 0, Vol([], [], [], []);
    g := Geometry(0, 0, 0, 0, 0, 0, 0, 0, 0, 0);
    if |disk| == 0 || |disk| >= 0x1_0000_0000 {
      return false, 0, 0, 0, g, v;
    }
    var decoded, geometry := HostDecode(disk[0], |disk|);
    g := geometry;
    if !decoded {
      return false, 0, 0, 0, g, v;
    }
    EncodedValid(disk[0], g, |disk|);
    v := SomeVolume(g, disk);
    var checker := new Fsck.Checker(geometry, disk, v);
    ok, files, regular, directories := checker.Run();
    forall g' | CleanAs(disk, g') ensures g' == g { EncodeInjective(g, g', |disk|, disk[0]); }
    assert ok <==> CleanAs(disk, g);
  }

  lemma EncodedValid(block: Block, g: Geometry, volumeBlocks: u32)
    requires Encodes(block, g, volumeBlocks)
    ensures g.Valid() && g.totalBlocks == volumeBlocks
  {
  }

  /** A volume that the disk holds, a clean one if possible. */
  lemma SomeVolume(g: Geometry, disk: Disk) returns (v: Vol)
    requires g.Valid() && |disk| == g.totalBlocks
    ensures Represents(g, disk, v) && (CleanOn(g, disk) <==> exists ow :: Clean(g, v, ow))
  {
    hide Represents, Clean, Geometry.Valid;
    VolumeThere(g, disk);
    v := VolumeOn(g, disk);
    if v', ow :| Represents(g, disk, v') && Clean(g, v', ow) { v := v'; }
  }

  // ---------- mounting ----------

  /** What the kernel looks at before it mounts a volume. */
  ghost predicate MountChecks(g: Geometry, v: Vol) {
    && Shape(g, v) && g.dataStart <= |v.blockBits| && (forall b :: 0 <= b < g.dataStart ==> v.blockBits[b])
    && g.root < g.totalInodes && ReadStatus(g, v, g.root) == 0 && v.inodes[g.root].mode == MODE_DIRECTORY
  }

  /** Bitmaps and inodes of a volume can be read off the disk. */
  lemma SameMetadata(g: Geometry, disk: Disk, v: Vol)
    requires g.Valid() && Represents(g, disk, v)
    ensures var w := VolumeOn(g, disk); v.blockBits == w.blockBits && v.inodeBits == w.inodeBits && v.inodes == w.inodes
    ensures MountChecks(g, v) <==> MountChecks(g, VolumeOn(g, disk))
  {
    hide RecordOK, PointersOK;
    var w := VolumeOn(g, disk);
    forall i: nat | i < |v.blockBits|
      ensures v.blockBits[i] == w.blockBits[i] { assert v.blockBits[i] == BitmapBit(disk, g.blockBitmapStart, i); }
    forall i: nat | i < |v.inodeBits|
      ensures v.inodeBits[i] == w.inodeBits[i] { assert v.inodeBits[i] == BitmapBit(disk, g.inodeBitmapStart, i); }
    forall n: nat | n < |v.inodes|
      ensures v.inodes[n] == w.inodes[n] { assert v.inodes[n] == TableInode(disk, g.inodeTableStart, n); }
    assert v.blockBits == w.blockBits && v.inodeBits == w.inodeBits && v.inodes == w.inodes;
  }

  ghost predicate MountsAs(disk: Disk, g: Geometry, volumeBlocks: u32) {
    |disk| == volumeBlocks > 0 && Decodes(disk[0], g, volumeBlocks) && |disk| == g.totalBlocks
      && MountChecks(g, VolumeOn(g, disk))
  }

  /** Mounts a disk if and only if its superblock is accepted, its metadata blocks are marked as used
      and its root is a directory. `v` is what the disk is said to hold. */
  method MountVolume(disk: Disk, volumeBlocks: u32, ghost v: Vol) returns (m: Mount?)
    requires |disk| == volumeBlocks > 0
    ensures m != null <==> exists g :: MountsAs(disk, g, volumeBlocks)
    ensures m != null ==>
              && fresh(m) && m.Valid() && m.disk == disk && m.history == [] && MountsAs(disk, m.g, volumeBlocks)
              && (Represents(m.g, disk, v) ==> m.vol == v)
  {
    hide Represents, Encodes, Geometry.Valid, ReadStatus, Mount.Valid, VolumeOn;
    var decoded, g := DecodeSuperblock(disk[0], volumeBlocks);
    m := null;
    if !decoded {
      return null;
    }
    EncodedValid(disk[0], g, volumeBlocks);
    forall g' | MountsAs(disk, g', volumeBlocks) ensures g' == g { EncodeInjective(g, g', volumeBlocks, disk[0]); }
    ghost var u := if Represents(g, disk, v) then v else VolumeOn(g, disk);
    VolumeThere(g, disk);
    SameMetadata(g, disk, u);
    var candidate := new Mount(g, disk, u);
    var ok := ChecksPass(candidate);
    assert ok <==> MountsAs(disk, g, volumeBlocks);
    if ok {
      m := candidate;
    }
  }

  method ChecksPass(m: Mount) returns (ok: bool)
    requires m.Valid()
    modifies m`io
    ensures ok <==> MountChecks(m.g, m.vol)
  {
    for block := 0 to m.g.dataStart
      invariant m.Valid() && forall b :: 0 <= b < block ==> m.vol.blockBits[b]
    {
      var marked := m.BitmapBitSet(m.g.blockBitmapStart, m.g.blockBitmapBlocks, block);
      assert BitmapBit(m.disk, m.g.blockBitmapStart, block) == m.vol.blockBits[block];
      if !marked {
        return false;
      }
    }
    var st, root := m.ReadInode(m.g.root);
    ok := st == 0 && root.mode == MODE_DIRECTORY;
  }

  /** Every clean volume can be mounted. */
  lemma CleanMounts(g: Geometry, v: Vol, ow: Owner)
    requires g.Valid() && Clean(g, v, ow)
    ensures MountChecks(g, v)
  {
    hide IsTree;
    var n := g.root;
    CleanRoot(g, v, ow);
    assert InodeSound(g, v.data, ow, n, v.inodes[n]);
  }

  lemma CleanRoot(g: Geometry, v: Vol, ow: Owner)
    requires Clean(g, v, ow)
    ensures g.root in Files(v) && Files(v)[g.root].mode == MODE_DIRECTORY
  {
    hide Sound, Content;
    var t := TreeOf(Files(v));
    var par, depth :| TreeWith(t, g.root, par, depth);
    assert IsFolder(t, g.root);
  }
}
