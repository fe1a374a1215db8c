/** A freshly made volume: what is on it, and when the checker accepts it. */
module NewVolume {
  import opened Bytes
  import opened Layout
  import opened Volume
  import opened Directory
  import opened Trees
  import opened FileSystem
  import opened Mkfs
  import opened Superblock
  import Fsck

  /** A program to be stored in /bin. */
  datatype Import = Import(name: Name, payload: seq<byte>)

  const BIN: Name := [0x62, 0x69, 0x6E]

  /** What the command line parser guarantees. */
  ghost predicate ImportsOK(imports: seq<Import>) {
    && 0 < |imports| <= 62
    && (forall i :: 0 <= i < |imports| ==> ValidName(imports[i].name) && |imports[i].payload| <= MAX_FILE_SIZE)
    && forall i, j :: 0 <= i < j < |imports| ==> imports[i].name != imports[j].name
  }

  ghost predicate NoDots(imports: seq<Import>) {
    forall i :: 0 <= i < |imports| ==> !Dot(imports[i].name)
  }

  function RootEntries(): (es: seq<NewEntry>)
    ensures |es| == 3 && forall i :: 0 <= i < |es| ==> EntryFit(es[i])
  {
    [NewEntry(0, 2, DOT), NewEntry(0, 2, DOT_DOT), NewEntry(1, 2, BIN)]
  }

  function FileEntry(imports: seq<Import>, i: nat): (e: NewEntry)
    requires i < |imports| <= 62
  {
    NewEntry(i + 2, 1, imports[i].name)
  }

  function BinEntries(imports: seq<Import>): (es: seq<NewEntry>)
    requires ImportsOK(imports)
    ensures |es| == |imports| + 2 && es[0] == NewEntry(1, 2, DOT) && es[1] == NewEntry(0, 2, DOT_DOT)
    ensures forall i :: 2 <= i < |es| ==> es[i] == FileEntry(imports, i - 2)
    ensures forall i :: 0 <= i < |es| ==> EntryFit(es[i])
  {
    [NewEntry(1, 2, DOT), NewEntry(0, 2, DOT_DOT)]
    + seq(|imports|, i requires 0 <= i < |imports| => FileEntry(imports, i))
  }

  /** The files of the new volume, with the first `k` imports. */
  ghost function BuiltFiles(imports: seq<Import>, k: nat): (fs: map<nat, File>)
    requires ImportsOK(imports) && k <= |imports|
    ensures forall n: nat :: n in fs <==> n < k + 2
    ensures fs[0] == File(2, 3, EncodeEntries(RootEntries())) && fs[1] == File(2, 2, EncodeEntries(BinEntries(imports)))
    ensures forall n :: 2 <= n < k + 2 ==> fs[n] == File(1, 1, imports[n - 2].payload)
  {
    if k == 0 then map[0 := File(2, 3, EncodeEntries(RootEntries())),
      1 := File(2, 2, EncodeEntries(BinEntries(imports)))]
    else BuiltFiles(imports, k - 1)[k + 1 := File(1, 1, imports[k - 1].payload)]
  }

  /** The tree that the new volume should hold. */
  ghost function BuiltTree(imports: seq<Import>): (t: Tree)
    requires ImportsOK(imports)
  {
    TreeOf(BuiltFiles(imports, |imports|))
  }

  lemma RootFolderIs()
    ensures DirectoryOK(EncodeEntries(RootEntries()))
    ensures Entries(EncodeEntries(RootEntries())) == map[DOT := Link(0, 2), DOT_DOT := Link(0, 2), BIN := Link(1, 2)]
  {
    hide EncodeEntries, DirectoryOK, Entries;
    var es := RootEntries();
    EntriesAre(es);
    assert es[..2][..1][..0] == [] && es[..2][..1] == es[..1] && es[..2][1] == es[1] && es[..1][0] == es[0];
    assert EntryMap(es[..1]) == map[DOT := Link(0, 2)];
    assert EntryMap(es[..2]) == map[DOT := Link(0, 2), DOT_DOT := Link(0, 2)];
  }

  lemma BinDistinct(imports: seq<Import>)
    requires ImportsOK(imports) && NoDots(imports)
    ensures DistinctNames(BinEntries(imports))
  {
  }

  /** Where the entries of /bin lead. */
  lemma BinFolderIs(imports: seq<Import>, x: Name)
    requires ImportsOK(imports) && NoDots(imports)
    ensures var c := EncodeEntries(BinEntries(imports));
            && DirectoryOK(c)
            && DOT in Entries(c) && Entries(c)[DOT] == Link(1, 2) && DOT_DOT in Entries(c)
               && Entries(c)[DOT_DOT] == Link(0, 2)
            && (x in Entries(c) && !Dot(x) ==>
               exists i :: 0 <= i < |imports| && x == imports[i].name && Entries(c)[x] == Link(i + 2, 1))
            && (forall i :: 0 <= i < |imports| ==>
               imports[i].name in Entries(c) && Entries(c)[imports[i].name] == Link(i + 2, 1))
  {
    hide EncodeEntries, DirectoryOK, Entries, EntryMap;
    var es := BinEntries(imports);
    BinDistinct(imports);
    EntriesAre(es);
    EntryMapAt(es, 0);
    EntryMapAt(es, 1);
    EntryMapKeys(es, x);
    if x in EntryMap(es) && !Dot(x) {
      var i :| 0 <= i < |es| && es[i].name == x;
      EntryMapAt(es, i);
      assert x == imports[i - 2].name;
    }
    forall i | 0 <= i < |imports|
      ensures imports[i].name in EntryMap(es) && EntryMap(es)[imports[i].name] == Link(i + 2, 1) {
      assert es[i + 2] == FileEntry(imports, i);
      EntryMapAt(es, i + 2);
    }
  }

  // ---------- it is a tree ----------

  lemma TreeShape(imports: seq<Import>)
    requires ImportsOK(imports) && NoDots(imports)
    ensures var t := BuiltTree(imports);
            && (forall n: nat :: n in t <==> n < |imports| + 2)
            && t[0] == Folder(3, map[DOT := Link(0, 2), DOT_DOT := Link(0, 2), BIN := Link(1, 2)])
            && t[1].Folder? && t[1].links == 2 && t[1].entries == Entries(EncodeEntries(BinEntries(imports)))
            && (forall n :: 2 <= n < |imports| + 2 ==> t[n] == Regular(1, imports[n - 2].payload))
  {
    hide EncodeEntries, Entries;
    RootFolderIs();
  }

  /** The entries that refer to each inode. */
  lemma BuiltRefs(imports: seq<Import>, n: nat, r: Ref)
    requires ImportsOK(imports) && NoDots(imports) && n < |imports| + 2
    ensures Refers(BuiltTree(imports), r, n) <==>
              if n == 0 then r == Ref(0, DOT) || r == Ref(0, DOT_DOT) || r == Ref(1, DOT_DOT)
              else if n == 1 then r == Ref(0, BIN) || r == Ref(1, DOT)
              else r == Ref(1, imports[n - 2].name)
  {
    hide EncodeEntries, Entries, BuiltTree, BinEntries, DirectoryOK;
    TreeShape(imports);
    BinFolderIs(imports, r.name);
  }

  lemma BuiltLinks(imports: seq<Import>)
    requires ImportsOK(imports) && NoDots(imports)
    ensures LinksOK(BuiltTree(imports)) && SingleLinks(BuiltTree(imports))
  {
    hide EncodeEntries, Entries, BuiltTree, Refers;
    var t := BuiltTree(imports);
    TreeShape(imports);
    forall n | n in t ensures LinksFine(t, n) && (t[n].Regular? ==> t[n].links == 1) {
      forall r { BuiltRefs(imports, n, r); }
      if n == 0 {
        assert Refs(t, n) == {Ref(0, DOT), Ref(0, DOT_DOT), Ref(1, DOT_DOT)};
      } else if n == 1 {
        assert Refs(t, n) == {Ref(0, BIN), Ref(1, DOT)};
      } else {
        assert Refs(t, n) == {Ref(1, imports[n - 2].name)};
      }
    }
  }

  lemma BuiltEntry(imports: seq<Import>, d: nat, x: Name)
    requires ImportsOK(imports) && NoDots(imports) && HasEntry(BuiltTree(imports), d, x)
    ensures EntryFine(BuiltTree(imports), d, x) && ChildFine(BuiltTree(imports), 0, map[1 := Ref(0, BIN)], d, x)
  {
    hide EncodeEntries, Entries, BuiltTree, BinEntries, DirectoryOK;
    TreeShape(imports);
    BinFolderIs(imports, x);
    var t := BuiltTree(imports);
    if d == 1 && !Dot(x) {
      var i :| 0 <= i < |imports| && x == imports[i].name && t[1].entries[x] == Link(i + 2, 1);
    }
  }

  lemma BuiltIsTree(imports: seq<Import>)
    requires ImportsOK(imports) && NoDots(imports)
    ensures IsTree(BuiltTree(imports), 0) && SingleLinks(BuiltTree(imports))
  {
    hide EncodeEntries, Entries, BuiltTree, LinksOK;
    var t, par, depth := BuiltTree(imports), map[1 := Ref(0, BIN)], map[0 := 0, 1 := 1];
    BuiltLinks(imports);
    TreeShape(imports);
    BinFolderIs(imports, DOT);
    forall d, x | HasEntry(t, d, x)
      ensures EntryFine(t, d, x) && ChildFine(t, 0, par, d, x) { BuiltEntry(imports, d, x); }
    forall d | IsFolder(t, d) ensures DotsFine(t, 0, par, d) && (d != 0 ==> ParentFine(t, par, depth, d)) {
      }
    assert TreeWith(t, 0, par, depth);
  }

  // ---------- building it ----------

  /** Blocks that a file takes, with its indirect block. */
  function FileBlocks(payload: seq<byte>): (n: nat) {
    BlocksFor(|payload|) + if BlocksFor(|payload|) > 10 then 1 else 0
  }

  function Needed(imports: seq<Import>): (n: nat) {
    if imports == [] then 0 else Needed(imports[..|imports| - 1]) + FileBlocks(imports[|imports| - 1].payload)
  }

  lemma {:induction false} NeededGrows(imports: seq<Import>, k: nat)
    requires k < |imports|
    ensures Needed(imports[..k]) + FileBlocks(imports[k].payload) <= Needed(imports)
    ensures Needed(imports[..k + 1]) == Needed(imports[..k]) + FileBlocks(imports[k].payload)
    decreases |imports| - k
  {
    assert imports[..k + 1][..k] == imports[..k];
    if k + 1 < |imports| {
      NeededGrows(imports, k + 1);
    } else {
      assert imports[..k + 1] == imports;
    }
  }

  lemma SuperblockOutside(g: Geometry, disk: Disk, v: Vol, x: Block)
    requires g.Valid() && Represents(g, disk, v)
    ensures |disk| > 0 && Represents(g, disk[0 := x], v)
  {
    var d := disk[0 := x];
    BitsFrame(disk, d, g.blockBitmapStart, v.blockBits);
    BitsFrame(disk, d, g.inodeBitmapStart, v.inodeBits);
    InodesFrame(disk, d, g.inodeTableStart, v.inodes);
  }

  ghost predicate FirstInodes(g: Geometry, v: Vol, k: nat) {
    Shape(g, v) && forall n :: 0 <= n < g.totalInodes ==> (v.inodeBits[n] <==> n < k)
  }

  method WriteImports(builder: Builder, imports: seq<Import>) returns (ok: bool)
    requires ImportsOK(imports) && builder.g.totalInodes == 1024
    requires builder.Valid() && FirstInodes(builder.g, builder.vol, 2) && Files(builder.vol) == BuiltFiles(imports, 0)
    modifies builder
    ensures ok <==> old(builder.nextBlock) + Needed(imports) <= builder.g.totalBlocks
    ensures ok ==> builder.Valid() && Files(builder.vol) == BuiltFiles(imports, |imports|)
  {
    hide Sound, Files, Represents, EncodeEntries, BlocksFor, BinEntries, RootEntries;
    assert imports[..0] == [];
    for i := 0 to |imports|
      invariant builder.Valid() && FirstInodes(builder.g, builder.vol, i + 2)
      invariant Files(builder.vol) == BuiltFiles(imports, i)
      invariant builder.nextBlock == old(builder.nextBlock) + Needed(imports[..i])
    {
      NeededGrows(imports, i);
      ok := builder.WriteFile(i + 2, imports[i].payload);
      if !ok {
        return;
      }
    }
    assert imports[..|imports|] == imports;
    ok := true;
  }

  /** Builds the volume; fails exactly when the metadata or the data does not fit. */
  method BuildVolume(blockCount: u32, imports: seq<Import>) returns (ok: bool, g: Geometry, volume: Disk, ghost v: Vol)
    requires ImportsOK(imports)
    ensures ok <==> var made := MakeSuperblock(blockCount, 1024);
                    made.Made? && made.g.dataStart + 2 + Needed(imports) <= blockCount
    ensures ok ==> g.Valid() && g.root == 0 && MakeSuperblock(blockCount, 1024) == Made(g)
    ensures ok ==> Represents(g, volume, v) && |volume| > 0 && volume[0] == EncodeSuperblock(g)
    ensures ok ==> (exists ow :: Sound(g, v, ow)) && Files(v) == BuiltFiles(imports, |imports|)
  {
    MadeIff(blockCount, 1024);
    var made := MakeSuperblock(blockCount, 1024);
    if made.Refused? {
      return false, Geometry(0, 0, 0, 0, 0, 0, 0, 0, 0, 0), [], Vol([], [], [], []);
    }
    g := made.g;
    ok, volume, v := FillVolume(g, imports);
  }

  method FillVolume(g: Geometry, imports: seq<Import>) returns (ok: bool, volume: Disk, ghost v: Vol)
    requires g.Valid() && g.root == 0 && g.totalInodes == 1024 && ImportsOK(imports)
    ensures ok <==> g.dataStart + 2 + Needed(imports) <= g.totalBlocks
    ensures ok ==> Represents(g, volume, v) && |volume| > 0 && volume[0] == EncodeSuperblock(g)
    ensures ok ==> (exists ow :: Sound(g, v, ow)) && Files(v) == BuiltFiles(imports, |imports|)
  {
    hide Sound, Files, Represents, EncodeEntries, EncodeSuperblock, BlocksFor, BinEntries, RootEntries;
    var builder := new Builder(g);
    volume, v := [], builder.vol;
    ok := builder.WriteDirectory(0, 3, RootEntries());
    if ok {
      ok := builder.WriteDirectory(1, 2, BinEntries(imports));
    }
    if ok {
      ok := WriteImports(builder, imports);
    }
    if ok {
      v := builder.vol;
      SuperblockOutside(g, builder.payload, v, EncodeSuperblock(g));
      volume := builder.payload[0 := EncodeSuperblock(g)];
      assert Sound(g, v, builder.ow);
    }
  }

  lemma {:induction false} BuiltFoldersOK(imports: seq<Import>)
    requires ImportsOK(imports) && NoDots(imports)
    ensures FoldersOK(BuiltFiles(imports, |imports|))
  {
    hide EncodeEntries, DirectoryOK, Entries, BuiltFiles, BinEntries, RootEntries;
    RootFolderIs();
    BinFolderIs(imports, DOT);
  }

  /** The new volume is well formed, and so accepted by the checker, exactly when no import is
      called "." or "..". */
  lemma {:induction false} AcceptedIff(g: Geometry, v: Vol, ow: Owner, imports: seq<Import>)
    requires g.root == 0 && ImportsOK(imports) && Sound(g, v, ow) && Files(v) == BuiltFiles(imports, |imports|)
    ensures WellFormed(g, v) <==> NoDots(imports)
    ensures (exists ow' :: Clean(g, v, ow')) <==> NoDots(imports)
  {
    hide Sound, Files, EncodeEntries, DirectoryOK, Entries, IsTree, BuiltFiles;
    if NoDots(imports) {
      BuiltIsTree(imports);
      BuiltFoldersOK(imports);
      assert Healthy(g, v, ow);
      assert Clean(g, v, ow);
    } else {
      var i :| 0 <= i < |imports| && Dot(imports[i].name);
      RepeatedName(BinEntries(imports), if imports[i].name == DOT then 0 else 1, i + 2);
      assert forall ow' :: !Clean(g, v, ow') by { Fsck.BadFolder(g, v, 1); }
    }
  }

  /** An import called "." passes the command line checks, and no volume that holds it is clean. */
  lemma DotImportRefused(g: Geometry, v: Vol, ow: Owner, payload: seq<byte>)
    requires |payload| <= MAX_FILE_SIZE
    ensures var imports := [Import(DOT, payload)];
            && ImportsOK(imports) && !NoDots(imports)
            && (g.root == 0 && Sound(g, v, ow) && Files(v) == BuiltFiles(imports, 1) ==>
               !exists ow' :: Clean(g, v, ow'))
  {
    hide Sound, Files, BuiltFiles, Clean;
    var imports := [Import(DOT, payload)];
    assert Dot(imports[0].name);
    if g.root == 0 && Sound(g, v, ow) && Files(v) == BuiltFiles(imports, 1) { AcceptedIff(g, v, ow, imports); }
  }
}
