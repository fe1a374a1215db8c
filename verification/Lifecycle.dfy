/** From the host tool to the kernel and back: a volume that is made, mounted, used and checked. */
module Lifecycle {
  import opened Bytes
  import opened Layout
  import opened Volume
  import opened BlockOps
  import opened Directory
  import opened Trees
  import opened FileSystem
  import opened Mounted
  import opened Superblock
  import opened NewVolume
  import opened WholeVolume
  import opened Mkfs
  import Kernel
  import Paths

  ghost predicate Fits(blockCount: u32, imports: seq<Import>) {
    var made := MakeSuperblock(blockCount, 1024);
    made.Made? && made.g.dataStart + 2 + Needed(imports) <= blockCount
  }

  /** Two readings of the same disk differ in nothing that a file could hold. */
  lemma SameFiles(g: Geometry, disk: Disk, v: Vol, v': Vol, ow: Owner)
    requires g.Valid() && Represents(g, disk, v) && Represents(g, disk, v') && Sound(g, v, ow)
    ensures Sound(g, v', ow) && Files(v') == Files(v)
  {
    hide Sound, Files;
    SameMetadata(g, disk, v);
    SameMetadata(g, disk, v');
    assert v' == v.(data := v'.data);
    forall b | b in ow && b < |v.data| ensures v'.data[b] == v.data[b] {
      InodeBlocks(g, v, ow, b);
      assert disk[b] == v.data[b];
    }
    UnownedWrites(g, v, v'.data, ow);
  }

  /** A volume made by the one tool is accepted by the other if and only if no import is called "."
      or "..". */
  method MakeAndCheck(blockCount: u32, imports: seq<Import>) returns (built: bool, accepted: bool)
    requires ImportsOK(imports)
    ensures built <==> Fits(blockCount, imports)
    ensures built ==> (accepted <==> NoDots(imports))
  {
    hide WellFormed, Represents, ImportsOK, EncodeSuperblock, Needed, Sound, Files, Clean, MakeSuperblock,
         Geometry.Valid, NoDots;
    var g, volume;
    ghost var v;
    accepted := false;
    built, g, volume, v := BuildVolume(blockCount, imports);
    if !built {
      return;
    }
    MadeTotals(blockCount, 1024);
    VolumeSize(g, volume, v);
    assert HostDecodes(volume[0], g, blockCount);
    var files, regular, directories;
    ghost var g', v';
    accepted, files, regular, directories, g', v' := CheckVolume(volume);
    ghost var ow :| Sound(g, v, ow);
    AcceptedIff(g, v, ow, imports);
    assert NoDots(imports) ==> CleanAs(volume, g);
    if accepted {
      EncodeInjective(g, g', blockCount, volume[0]);
      SameFiles(g, volume, v, v', ow);
      AcceptedIff(g, v', ow, imports);
    }
  }

  lemma VolumeSize(g: Geometry, disk: Disk, v: Vol)
    requires Represents(g, disk, v)
    ensures |disk| == g.totalBlocks
  {
  }

  /** A new volume is mounted, any operations are performed on it, and the checker accepts the
      result; in between, no block write ever leaves it in a state that is not crash safe. */
  method MakeUseCheck(blockCount: u32, imports: seq<Import>, ops: seq<Kernel.Op>)
    returns (built: bool, m: Mount?, accepted: bool)
    requires ImportsOK(imports) && NoDots(imports)
    ensures built <==> Fits(blockCount, imports)
    ensures built ==> m != null && m.Valid() && WellFormed(m.g, m.vol) && accepted
    ensures built ==> forall j :: 0 <= j < |m.history| ==> CrashSafe(m.g, m.history[j])
  {
    hide WellFormed, Represents, CrashSafe, ImportsOK, EncodeSuperblock, Needed, Sound, Files, Clean, MakeSuperblock,
         Geometry.Valid, MountChecks, Mount.Valid;
    var g, volume;
    ghost var v;
    m, accepted := null, false;
    built, g, volume, v := BuildVolume(blockCount, imports);
    if !built {
      return;
    }
    MadeTotals(blockCount, 1024);
    VolumeSize(g, volume, v);
    ghost var ow :| Sound(g, v, ow);
    AcceptedIff(g, v, ow, imports);
    MountsNew(g, volume, v);
    m := MountVolume(volume, blockCount, v);
    EncodeInjective(g, m.g, blockCount, volume[0]);
    accepted := UseAndCheck(m, ops);
  }

  /** A mounted well-formed volume is accepted by the checker after any operations. */
  method UseAndCheck(m: Mount, ops: seq<Kernel.Op>) returns (accepted: bool)
    requires m.Valid() && WellFormed(m.g, m.vol) && m.history == [] && m.g.root == 0 && m.disk != []
    requires |m.disk| < 0x1_0000_0000
    requires Encodes(m.disk[0], m.g, |m.disk|)
    modifies m`io, m`aux, m`cmp, m`disk, m`vol, m`history
    ensures m.Valid() && WellFormed(m.g, m.vol) && accepted
    ensures forall j :: 0 <= j < |m.history| ==> CrashSafe(m.g, m.history[j])
  {
    hide WellFormed, Represents, CrashSafe, Encodes, Clean, Mount.Valid;
    MountedFacts(m);
    Kernel.Run(m, ops);
    MountedFacts(m);
    WellFormedClean(m.g, m.vol);
    assert CleanAs(m.disk, m.g);
    var files, regular, directories;
    ghost var g', v';
    accepted, files, regular, directories, g', v' := CheckVolume(m.disk);
  }

  lemma MountedFacts(m: Mount)
    requires m.Valid()
    ensures Represents(m.g, m.disk, m.vol) && |m.disk| == m.g.totalBlocks > 0 && m.disk[0] == m.superblock
  {
  }

  lemma MountsNew(g: Geometry, disk: Disk, v: Vol)
    requires g.Valid() && g.totalInodes <= 0xFFFF_FFFF / 64 && Represents(g, disk, v) && WellFormed(g, v)
    requires disk[0] == EncodeSuperblock(g)
    ensures MountsAs(disk, g, g.totalBlocks)
  {
    hide EncodeSuperblock, Clean, MountChecks;
    var ow :| Healthy(g, v, ow);
    CleanMounts(g, v, ow);
    SameMetadata(g, disk, v);
  }

  lemma WellFormedClean(g: Geometry, v: Vol)
    requires WellFormed(g, v)
    ensures exists ow :: Clean(g, v, ow)
  {
    hide Clean;
    var ow :| Healthy(g, v, ow);
    assert Clean(g, v, ow);
  }

  // ---------- where the imports are ----------

  /** The path "/bin/" and the name of an import leads to a file with its bytes. */
  lemma ImportFound(imports: seq<Import>, i: nat, name: CString)
    requires ImportsOK(imports) && NoDots(imports) && i < |imports| && name == imports[i].name
    ensures i + 2 in BuiltTree(imports) && BuiltTree(imports)[i + 2] == Regular(1, imports[i].payload)
    ensures Lookup(BuiltTree(imports), 0, [0x2F, 0x62, 0x69, 0x6E, 0x2F] + name) == Found(i + 2)
  {
    hide EncodeEntries, Entries, BuiltTree, BinEntries, DirectoryOK, Components, Walk;
    var t, bin: CString := BuiltTree(imports), [0x62, 0x69, 0x6E];
    TreeShape(imports);
    BinFolderIs(imports, name);
    TwoNames(bin, name);
    assert [0x2F, 0x62, 0x69, 0x6E, 0x2F] + name == ([0x2F] + bin) + ([0x2F] + name);
    WalkTwo(t, 0, bin, name, 1, i + 2);
  }

  lemma TwoNames(a: CString, b: CString)
    requires Paths.Plain(a) && Paths.Plain(b)
    ensures var path: CString := ([0x2F] + a) + ([0x2F] + b); Components(path) == [a, b] && path[|path| - 1] != 0x2F
  {
    hide Components;
    var cs: seq<CString> := [a, b];
    Paths.ComponentsOfSlashed(cs);
    assert [a, b][..1] == [a] && [a][..0] == [];
    assert Paths.Slashed([a]) == [] + ([0x2F] + a);
    assert Paths.Slashed(cs) == ([0x2F] + a) + ([0x2F] + b);
    assert b[|b| - 1] in b;
  }

  lemma WalkTwo(t: Tree, root: nat, a: CString, b: CString, x: nat, y: nat)
    requires HasEntry(t, root, a) && t[root].entries[a].child == x && HasEntry(t, x, b) && t[x].entries[b].child == y
    requires ComponentOK(a) && ComponentOK(b) && !Dot(a) && !Dot(b)
    ensures Walk(t, root, [a, b]) == Found(y)
  {
    assert [a, b][1..] == [b] && [b][1..] == [];
    assert Walk(t, y, []) == Found(y);
    assert Walk(t, x, [b]) == Walk(t, y, []);
  }
}
