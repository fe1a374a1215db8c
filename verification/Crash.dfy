/** What a volume still shows when an update is cut off between two block writes. */
module Crash {
  import opened Bytes
  import opened Layout
  import opened Volume
  import opened BlockOps

  /** Inode `n` is allocated and well formed, and each of its non-zero pointers inside its size
      refers to an allocated block that no other slot refers to. */
  ghost predicate Intact(g: Geometry, v: Vol, ow: Owner, n: nat) {
    && Shape(g, v)
    && n < g.totalInodes && v.inodeBits[n]
    && RecordOK(v.inodes[n]) && PointersOK(v.inodes[n])
    && (forall k: nat :: HasSlot(v.inodes[n], k) && SlotBlock(v.data, v.inodes[n], k) != 0 ==>
          Claimed(g, v.data, ow, n, v.inodes[n], k) && Allocated(g, v, SlotBlock(v.data, v.inodes[n], k)))
  }

  ghost predicate ShowsWith(g: Geometry, v: Vol, ow: Owner, fs: map<nat, File>) {
    forall n :: n in fs ==>
      && Intact(g, v, ow, n)
      && fs[n].mode == v.inodes[n].mode && fs[n].content == Content(v.data, v.inodes[n])
  }

  /** All files of `fs` can be read off `v`; link counts may lag behind, and there may be
      further allocated inodes and blocks that belong to nobody. */
  ghost predicate Shows(g: Geometry, v: Vol, fs: map<nat, File>) {
    exists ow: Owner :: ShowsWith(g, v, ow, fs)
  }

  /** Every state since `from` shows the files `fs` or the files `fs'`. */
  ghost predicate OldOrNew(g: Geometry, h: seq<Vol>, from: nat, fs: map<nat, File>, fs': map<nat, File>) {
    forall j :: from <= j < |h| ==> Shows(g, h[j], fs) || Shows(g, h[j], fs')
  }

  /** Fewer files, and files with other link counts, are shown just as well. */
  lemma ShowsIgnoresLinks(g: Geometry, w: Vol, fs: map<nat, File>, fs': map<nat, File>)
    requires Shows(g, w, fs) && fs'.Keys <= fs.Keys
    requires forall n :: n in fs' ==> fs[n].mode == fs'[n].mode && fs[n].content == fs'[n].content
    ensures Shows(g, w, fs')
  {
    var ow :| ShowsWith(g, w, ow, fs);
    assert ShowsWith(g, w, ow, fs');
  }

  lemma SoundShows(g: Geometry, v: Vol, ow: Owner)
    requires Sound(g, v, ow)
    ensures Shows(g, v, Files(v))
  {
    var fs := Files(v);
    forall n | n in fs ensures Intact(g, v, ow, n) {
      assert InodeSound(g, v.data, ow, n, v.inodes[n]);
      forall k: nat | HasSlot(v.inodes[n], k) ensures Claimed(g, v.data, ow, n, v.inodes[n], k)
                                                   && Allocated(g, v, SlotBlock(v.data, v.inodes[n], k)) {
        SlotKept(g, v, ow, n, k);
      }
    }
    assert ShowsWith(g, v, ow, fs);
  }

  /** `w` still holds everything the sound volume `v` holds: writes so far went to free blocks,
      free inode records, and bits of free blocks and inodes. */
  ghost predicate Pads(g: Geometry, v: Vol, w: Vol, ow: Owner) {
    && Shape(g, v) && Shape(g, w)
    && (forall n :: 0 <= n < g.totalInodes && v.inodeBits[n] ==> w.inodeBits[n] && w.inodes[n] == v.inodes[n])
    && (forall b :: b in ow && b < |v.data| && b < |v.blockBits| ==> w.data[b] == v.data[b] && w.blockBits[b])
  }

  lemma PaddedInode(g: Geometry, v: Vol, w: Vol, ow: Owner, n: nat)
    requires Sound(g, v, ow) && Pads(g, v, w, ow) && n < g.totalInodes && v.inodeBits[n]
    ensures Intact(g, w, ow, n) && Content(w.data, w.inodes[n]) == Content(v.data, v.inodes[n])
  {
    var i := v.inodes[n];
    assert InodeSound(g, v.data, ow, n, i);
    forall b | b in ow && ow[b].inode == n ensures b < |v.data| {
      InodeBlocks(g, v, ow, b);
    }
    InodeFrame(g, v.data, w.data, ow, ow, n, i);
    forall k: nat | HasSlot(i, k) ensures Claimed(g, w.data, ow, n, i, k) && Allocated(g, w, SlotBlock(w.data, i, k)) {
      SlotKept(g, v, ow, n, k);
      SlotFrame(g, v.data, w.data, ow, n, i, k);
    }
  }

  lemma PaddedShows(g: Geometry, v: Vol, w: Vol, ow: Owner)
    requires Sound(g, v, ow) && Pads(g, v, w, ow)
    ensures Shows(g, w, Files(v))
  {
    var fs := Files(v);
    forall n | n in fs
      ensures Intact(g, w, ow, n) && fs[n].mode == w.inodes[n].mode && fs[n].content == Content(w.data, w.inodes[n])
    {
      PaddedInode(g, v, w, ow, n);
    }
    assert ShowsWith(g, w, ow, fs);
  }

  /** Like `Pads`, except that the indirect block of `n` may have changed in words at and after
      number `from`. */
  ghost predicate PadsBut(g: Geometry, v: Vol, w: Vol, ow: Owner, n: nat, from: nat) {
    && Shape(g, v) && Shape(g, w) && n < g.totalInodes && v.inodeBits[n] && BlocksFor(v.inodes[n].size) > 10
    && (forall m :: 0 <= m < g.totalInodes && v.inodeBits[m] ==> w.inodeBits[m] && w.inodes[m] == v.inodes[m])
    && (forall b :: b in ow && b < |v.data| && b < |v.blockBits| ==> w.blockBits[b])
    && var x := v.inodes[n].indirect;
       && (forall b :: b in ow && b != x && b < |v.data| ==> w.data[b] == v.data[b])
       && (x < |v.data| ==> forall j: nat :: j < 1024 && j < from ==> Word(w.data[x], j) == Word(v.data[x], j))
  }

  lemma PadsButSlot(g: Geometry, v: Vol, w: Vol, ow: Owner, n: nat, from: nat, k: nat)
    requires Sound(g, v, ow) && PadsBut(g, v, w, ow, n, from) && HasSlot(v.inodes[n], k)
    requires k < 10 || k - 10 < from || k == 1034
    ensures SlotBlock(w.data, v.inodes[n], k) == SlotBlock(v.data, v.inodes[n], k)
    ensures Claimed(g, v.data, ow, n, v.inodes[n], k)
    ensures k != 1034 ==> w.data[SlotBlock(v.data, v.inodes[n], k)] == v.data[SlotBlock(v.data, v.inodes[n], k)]
    ensures w.blockBits[SlotBlock(v.data, v.inodes[n], k)]
  {
    SlotKept(g, v, ow, n, k);
    IndirectInRange(g, v, ow, n);
  }

  lemma PadsButOther(g: Geometry, v: Vol, w: Vol, ow: Owner, n: nat, from: nat, m: nat)
    requires Sound(g, v, ow) && PadsBut(g, v, w, ow, n, from) && m != n && m < g.totalInodes && v.inodeBits[m]
    ensures Intact(g, w, ow, m) && Content(w.data, w.inodes[m]) == Content(v.data, v.inodes[m])
  {
    var i := v.inodes[m];
    assert InodeSound(g, v.data, ow, m, i);
    IndirectInRange(g, v, ow, n);
    forall b | b in ow && ow[b].inode == m ensures b < |v.data| && w.data[b] == v.data[b] {
      InodeBlocks(g, v, ow, b);
    }
    InodeFrame(g, v.data, w.data, ow, ow, m, i);
    forall k: nat | HasSlot(i, k) ensures Claimed(g, w.data, ow, m, i, k) && Allocated(g, w, SlotBlock(w.data, i, k)) {
      SlotKept(g, v, ow, m, k);
      SlotFrame(g, v.data, w.data, ow, m, i, k);
    }
  }

  /** A pointer already stored past the end of the file is not seen. */
  lemma PendingPointerShows(g: Geometry, v: Vol, w: Vol, ow: Owner, n: nat)
    requires Sound(g, v, ow) && n < g.totalInodes && v.inodeBits[n] && BlocksFor(v.inodes[n].size) > 10
    requires PadsBut(g, v, w, ow, n, BlocksFor(v.inodes[n].size) - 10)
    ensures Shows(g, w, Files(v))
  {
    var fs, i, from := Files(v), v.inodes[n], BlocksFor(v.inodes[n].size) - 10;
    forall k: nat | HasSlot(i, k) ensures Claimed(g, w.data, ow, n, i, k) && Allocated(g, w, SlotBlock(w.data, i, k)) {
      PadsButSlot(g, v, w, ow, n, from, k);
    }
    assert InodeSound(g, v.data, ow, n, i);
    assert Content(w.data, i) == Content(v.data, i) by {
      forall j: nat | j < i.size ensures ByteAt(w.data, i, j) == ByteAt(v.data, i, j) {
        PadsButSlot(g, v, w, ow, n, from, j / 4096);
      }
    }
    forall m | m in fs
      ensures Intact(g, w, ow, m) && fs[m].mode == w.inodes[m].mode && fs[m].content == Content(w.data, w.inodes[m])
    {
      if m != n { PadsButOther(g, v, w, ow, n, from, m); }
    }
    assert ShowsWith(g, w, ow, fs);
  }

  /** Pointers of the file already cleared inside its old size leave every other file as it was. */
  lemma ClearedTailShows(g: Geometry, v: Vol, ow: Owner, n: nat, size: u32)
    requires ShrinkPre(g, v, ow, n, size) && BlocksFor(size) > 10
    ensures var w := v.(data := ShrunkData(v.data, v.inodes[n], size));
            Shows(g, w, Files(v)[n := File(v.inodes[n].mode, v.inodes[n].links, Content(w.data, v.inodes[n]))])
  {
    var i, w := v.inodes[n], v.(data := ShrunkData(v.data, v.inodes[n], size));
    var fs := Files(v)[n := File(i.mode, i.links, Content(w.data, i))];
    var from := BlocksFor(size) - 10;
    IndirectInRange(g, v, ow, n);
    forall j: nat | j < 1024 ensures Word(w.data[i.indirect], j) ==
      if from <= j < BlocksFor(i.size) - 10 then 0 else Word(v.data[i.indirect], j) {
      WordOfClearWords(v.data[i.indirect], from, BlocksFor(i.size) - 10, j);
    }
    assert PadsBut(g, v, w, ow, n, from) by {
      forall b | b in ow ensures v.blockBits[b] { InodeBlocks(g, v, ow, b); }
    }
    assert InodeSound(g, v.data, ow, n, i);
    forall k: nat | HasSlot(i, k) && SlotBlock(w.data, i, k) != 0
      ensures Claimed(g, w.data, ow, n, i, k) && Allocated(g, w, SlotBlock(w.data, i, k))
    {
      PadsButSlot(g, v, w, ow, n, from, k);
    }
    forall m | m in fs
      ensures Intact(g, w, ow, m) && fs[m].mode == w.inodes[m].mode && fs[m].content == Content(w.data, w.inodes[m])
    {
      if m != n { PadsButOther(g, v, w, ow, n, from, m); }
    }
    assert ShowsWith(g, w, ow, fs);
  }
}
