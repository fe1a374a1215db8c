/** Reading, writing and truncating the bytes of an inode. */
module FileOps {
  import opened Bytes
  import opened Layout
  import opened Volume
  import opened BlockOps
  import opened Crash
  import opened Errno
  import opened Mounted

  /** `w` differs from `v` only in blocks that are free in `v` and in their bits. */
  ghost predicate OnlyFree(g: Geometry, v: Vol, w: Vol) {
    && Shape(g, v) && Shape(g, w)
    && w.inodeBits == v.inodeBits && w.inodes == v.inodes
    && (forall b :: 0 <= b < |v.blockBits| && v.blockBits[b] ==> w.blockBits[b])
    && (forall b :: 0 <= b < |v.data| && !Free(g, v, b) ==> w.data[b] == v.data[b])
  }

  ghost predicate Room(g: Geometry, v: Vol, two: bool) {
    exists b, c :: Free(g, v, b) && Free(g, v, c) && (two ==> b != c)
  }

  /** The block writes since `from` left the files `fs`, or those of `fs'`, or those of `fs''`. */
  ghost predicate ShownSince(g: Geometry, h: seq<Vol>, from: nat, fs: map<nat, File>, fs': map<nat, File>,
                             fs'': map<nat, File>) {
    forall j :: from <= j < |h| ==> Shows(g, h[j], fs) || Shows(g, h[j], fs') || Shows(g, h[j], fs'')
  }

  lemma OnlyFreeShows(g: Geometry, v: Vol, w: Vol, ow: Owner)
    requires Sound(g, v, ow) && OnlyFree(g, v, w)
    ensures Shows(g, w, Files(v))
  {
    forall b | b in ow ensures g.dataStart <= b < g.totalBlocks && !Free(g, v, b) {
      InodeBlocks(g, v, ow, b);
    }
    PaddedShows(g, v, w, ow);
  }

  lemma OnlyFreeSound(g: Geometry, v: Vol, w: Vol, ow: Owner)
    requires Sound(g, v, ow) && OnlyFree(g, v, w) && w.blockBits == v.blockBits && g.totalInodes > 0
    ensures Sound(g, w, ow) && Files(w) == Files(v)
  {
    forall b | b in ow ensures g.dataStart <= b < g.totalBlocks && !Free(g, v, b) {
      InodeBlocks(g, v, ow, b);
    }
    UnownedWrites(g, v, w.data, ow);
    assert w == v.(data := w.data);
  }

  /** Allocates the new data block, and before it the indirect block when the file needs its
      first one; if the second allocation fails the first is undone. */
  method TakeBlocks(m: Mount, two: bool) returns (st: int, b: nat, c: nat)
    requires m.Valid()
    modifies m`io, m`aux, m`disk, m`vol, m`history
    ensures m.Valid() && OnlyFree(m.g, old(m.vol), m.vol)
    ensures m.vol.inodeBits == old(m.vol).inodeBits && m.vol.inodes == old(m.vol).inodes
    ensures st == 0 || st == ENOSPC
    ensures st == 0 <==> Room(m.g, old(m.vol), two)
    ensures st == 0 ==>
              && Free(m.g, old(m.vol), b) && (if two then Free(m.g, old(m.vol), c) && c != b else c == 0)
              && m.vol.blockBits ==
                 (if two then old(m.vol).blockBits[c := true][b := true] else old(m.vol).blockBits[b := true])
              && (two ==> m.vol.data[c] == ZERO_BLOCK)
    ensures st == 0 ==> forall x :: 0 <= x < |m.vol.data| && x != b && (two ==> x != c) ==>
        m.vol.data[x] == old(m.vol).data[x]
    ensures st != 0 ==> m.vol.blockBits == old(m.vol).blockBits
    ensures old(m.history) <= m.history
    ensures forall j :: |old(m.history)| <= j < |m.history| ==> OnlyFree(m.g, old(m.vol), m.history[j])
  {
    hide Mount.Valid, Represents;
    ValidFacts(m);
    b, c := 0, 0;
    if two {
      st, c := m.AllocateBlock();
      if st < 0 {
        return;
      }
    }
    label L:
    ghost var v := m.vol;
    st, b := m.AllocateBlock();
    if st < 0 {
      if two {
        assert forall x :: Free(m.g, old(m.vol), x) ==> x == c by {
          forall x | Free(m.g, old(m.vol), x) ensures x == c {
            assert !Free(m.g, v, x);
          }
        }
        var _ := m.FreeBlock(c);
        assert m.vol.blockBits == old(m.vol).blockBits;
      }
      return;
    }
    assert Free(m.g, old(m.vol), b);
    assert two ==> Free(m.g, old(m.vol), c) && b != c;
    assert Room(m.g, old(m.vol), two);
  }

  // ---------- writing one chunk ----------

  ghost predicate ChunkPre(g: Geometry, v: Vol, ow: Owner, n: nat, inode: Inode, offset: nat, source: seq<byte>) {
    && Sound(g, v, ow) && n < g.totalInodes && v.inodeBits[n]
    && inode == v.inodes[n].(links := inode.links) && inode.links != 0
    && offset <= inode.size && 0 < |source| && offset % 4096 + |source| <= 4096
    && (inode.mode == MODE_DIRECTORY ==> (offset + |source|) % 64 == 0)
  }

  /** The files once `source` is in place; the new link count only reaches the disk with a new size. */
  ghost function ChunkFiles(v: Vol, n: nat, inode: Inode, offset: nat, source: seq<byte>): (fs: map<nat, File>)
    requires n < |v.inodes| && offset <= v.inodes[n].size
  {
    Files(v)[n := File(inode.mode, if offset + |source| > v.inodes[n].size then inode.links else v.inodes[n].links,
                       Written(Content(v.data, v.inodes[n]), offset, source))]
  }

  /** The files after the bytes are stored and before the new size is. */
  ghost function HalfFiles(v: Vol, n: nat, offset: nat, source: seq<byte>): (fs: map<nat, File>)
    requires n < |v.inodes| && offset <= v.inodes[n].size
  {
    Files(v)[n := File(v.inodes[n].mode, v.inodes[n].links,
                       Written(Content(v.data, v.inodes[n]), offset, source)[..v.inodes[n].size])]
  }

  ghost predicate ChunkDone(g: Geometry, v: Vol, w: Vol, ow: Owner, n: nat, inode: Inode, inode': Inode,
                            offset: nat, source: seq<byte>)
    requires n < |v.inodes| && offset <= v.inodes[n].size
  {
    && Sound(g, w, ow) && w.inodeBits == v.inodeBits
    && n < |w.inodes| && inode' == w.inodes[n].(links := inode.links)
    && Files(w) == ChunkFiles(v, n, inode, offset, source)
  }

  ghost predicate ChunkUndone(g: Geometry, v: Vol, w: Vol, ow: Owner) {
    && Sound(g, w, ow) && w.inodeBits == v.inodeBits && w.inodes == v.inodes && w.blockBits == v.blockBits
    && Files(w) == Files(v)
  }

  /** The slot of an existing block passes every check on the way to that block. */
  lemma SlotReadable(g: Geometry, v: Vol, ow: Owner, n: nat, k: nat)
    requires Sound(g, v, ow) && n < g.totalInodes && v.inodeBits[n] && k < BlocksFor(v.inodes[n].size)
    ensures k < 1034 && Allocated(g, v, SlotBlock(v.data, v.inodes[n], k))
    ensures k >= 10 ==> Allocated(g, v, v.inodes[n].indirect)
    ensures Shape(g, v) && RecordOK(v.inodes[n]) && PointersOK(v.inodes[n])
  {
    assert InodeSound(g, v.data, ow, n, v.inodes[n]);
    SlotKept(g, v, ow, n, k);
    if k >= 10 {
      IndirectInRange(g, v, ow, n);
      SlotKept(g, v, ow, n, 1034);
    }
  }

  /** The volume `w` after the bytes are stored, and `w'` after the new size is stored too. */
  lemma InPlaceStates(g: Geometry, v: Vol, ow: Owner, n: nat, inode: Inode, offset: nat, source: seq<byte>, b: nat)
    returns (w: Vol, w': Vol)
    requires ChunkPre(g, v, ow, n, inode, offset, source) && offset / 4096 < BlocksFor(inode.size)
    requires b == SlotBlock(v.data, inode, offset / 4096)
    ensures inode.reserved == 0 && Allocated(g, v, b) && b < |v.data|
    ensures w == v.(data := v.data[b := Splice(v.data[b], offset % 4096, source)])
    ensures Shows(g, w, HalfFiles(v, n, offset, source))
    ensures offset + |source| <= inode.size ==> ChunkDone(g, v, w, ow, n, inode, inode, offset, source)
    ensures offset + |source| > inode.size ==>
              && offset + |source| <= MAX_FILE_SIZE && PointersOK(inode.(size := offset + |source|))
              && w' == w.(inodes := w.inodes[n := inode.(size := offset + |source|)])
              && ChunkDone(g, v, w', ow, n, inode, inode.(size := offset + |source|), offset, source)
              && Shows(g, w', ChunkFiles(v, n, inode, offset, source))
  {
    hide Sound, Shows, Files, Content;
    SlotReadable(g, v, ow, n, offset / 4096);
    var i, end := v.inodes[n], offset + |source|;
    Overwrite(g, v, ow, n, offset, source, i.size, i.links);
    w := Overwritten(v, n, offset, source, i.size, i.links);
    assert w.inodes == v.inodes;
    w' := w;
    SoundShows(g, w, ow);
    var new' := Written(Content(v.data, i), offset, source);
    if end > i.size {
      Overwrite(g, v, ow, n, offset, source, end, inode.links);
      w' := Overwritten(v, n, offset, source, end, inode.links);
      SoundShows(g, w', ow);
      assert new'[..end] == new';
    } else {
      assert new'[..i.size] == new';
    }
  }

  method WriteInPlace(m: Mount, n: nat, inode: Inode, offset: nat, source: seq<byte>, ghost ow: Owner)
    returns (st: int, inode': Inode)
    requires m.Valid() && ChunkPre(m.g, m.vol, ow, n, inode, offset, source)
    requires offset / 4096 < BlocksFor(inode.size)
    modifies m`io, m`disk, m`vol, m`history
    ensures m.Valid() && st == 0
    ensures ChunkDone(m.g, old(m.vol), m.vol, ow, n, inode, inode', offset, source)
    ensures old(m.history) <= m.history
    ensures ShownSince(m.g, m.history, |old(m.history)|, Files(old(m.vol)),
                       HalfFiles(old(m.vol), n, offset, source), ChunkFiles(old(m.vol), n, inode, offset, source))
  {
    hide Sound, Shows, Files, ChunkDone, Content, Written;
    SlotReadable(m.g, m.vol, ow, n, offset / 4096);
    var b;
    inode' := inode;
    st, b := m.InodeBlockAt(inode, offset / 4096);
    ghost var w, w' := InPlaceStates(m.g, m.vol, ow, n, inode, offset, source, b);
    st, m.io := m.ReadDataBlock(b);
    m.io := Splice(m.io, offset % 4096, source);
    st := m.WriteDataBlock(b, m.io);
    var end := offset + |source|;
    if end > inode.size {
      inode' := inode.(size := end);
      st := m.WriteInode(n, inode');
    }
  }

  /** The blocks that `TakeBlocks` handed out for a file about to grow. */
  ghost predicate Taken(g: Geometry, v: Vol, w: Vol, n: nat, b: nat, c: nat) {
    && OnlyFree(g, v, w) && n < |v.inodes| && w.inodeBits == v.inodeBits && w.inodes == v.inodes
    && Free(g, v, b)
    && var two := BlocksFor(v.inodes[n].size) == 10;
       && (if two then Free(g, v, c) && c != b else c == 0)
       && w.blockBits == (if two then v.blockBits[c := true][b := true] else v.blockBits[b := true])
       && (two ==> w.data[c] == ZERO_BLOCK)
       && (forall x :: 0 <= x < |w.data| && x != b && (two ==> x != c) ==> w.data[x] == v.data[x])
  }

  /** A file that grows by a block ends on a block boundary. */
  lemma GrowthAtEnd(g: Geometry, v: Vol, ow: Owner, n: nat, inode: Inode, offset: nat, source: seq<byte>)
    requires ChunkPre(g, v, ow, n, inode, offset, source) && offset / 4096 >= BlocksFor(inode.size)
    ensures offset == inode.size == 4096 * BlocksFor(inode.size) && offset / 4096 == BlocksFor(inode.size) <= 1034
    ensures offset % 4096 == 0 && |source| <= 4096
    ensures RecordOK(v.inodes[n]) && PointersOK(v.inodes[n]) && Shape(g, v) && inode.size == v.inodes[n].size
    ensures BlocksFor(inode.size) > 10 ==> g.dataStart <= inode.indirect < g.totalBlocks && !Free(g, v, inode.indirect)
    ensures inode.reserved == 0 && (inode.indirect == 0 <==> BlocksFor(inode.size) <= 10)
  {
    assert InodeSound(g, v.data, ow, n, v.inodes[n]);
    if BlocksFor(inode.size) > 10 {
      IndirectInRange(g, v, ow, n);
      SlotKept(g, v, ow, n, 1034);
    }
  }

  lemma TakenOnlyFree(g: Geometry, v: Vol, w: Vol, n: nat, b: nat, c: nat, x: Block, y: Block)
    requires Taken(g, v, w, n, b, c)
    ensures OnlyFree(g, v, w.(data := w.data[b := x]))
    ensures BlocksFor(v.inodes[n].size) == 10 ==> OnlyFree(g, v, w.(data := w.data[b := x][c := y]))
  {
  }

  /** Storing the new pointer in an indirect block that is already in use is not seen yet. */
  lemma PointerStored(g: Geometry, v: Vol, w: Vol, ow: Owner, n: nat, b: u32, c: nat, x: Block)
    requires Sound(g, v, ow) && n < g.totalInodes && v.inodeBits[n] && Taken(g, v, w, n, b, c)
    requires 10 < BlocksFor(v.inodes[n].size) < 1034
    ensures v.inodes[n].indirect < |v.data|
    ensures var z, y := BlocksFor(v.inodes[n].size) - 10, v.inodes[n].indirect;
            Shows(g, w.(data := w.data[b := x][y := SetWord(v.data[y], z, b)]), Files(v))
  {
    IndirectInRange(g, v, ow, n);
    SlotKept(g, v, ow, n, 1034);
    var z, y := BlocksFor(v.inodes[n].size) - 10, v.inodes[n].indirect;
    var u := w.(data := w.data[b := x][y := SetWord(v.data[y], z, b)]);
    forall q | q in ow ensures g.dataStart <= q < g.totalBlocks && !Free(g, v, q) && v.blockBits[q] {
      InodeBlocks(g, v, ow, q);
    }
    forall j: nat | j < 1024 && j < z ensures Word(u.data[y], j) == Word(v.data[y], j) {
      WordOfSetWord(v.data[y], z, b, j);
    }
    PendingPointerShows(g, v, u, ow, n);
  }

  /** After the inode is written the new block belongs to the file. */
  lemma BlockAttached(g: Geometry, v: Vol, w: Vol, ow: Owner, n: nat, inode: Inode, offset: nat, source: seq<byte>,
                      b: u32, c: u32, u: Vol) returns (ow': Owner)
    requires g.Valid() && ChunkPre(g, v, ow, n, inode, offset, source) && offset / 4096 >= BlocksFor(inode.size)
    requires BlocksFor(inode.size) < 1034 && Taken(g, v, w, n, b, c) && inode.size <= MAX_FILE_SIZE
    requires u.blockBits == w.blockBits && u.inodeBits == v.inodeBits
    requires |source| <= 4096 && c < |v.data|
    requires u.inodes == v.inodes[n := AttachedInode(v.inodes[n], b, c, source, inode.links)]
    requires u.data == AttachedData(v.data, v.inodes[n], b, c, source)
    ensures ChunkDone(g, v, u, ow', n, inode, u.inodes[n], offset, source)
    ensures Shows(g, u, ChunkFiles(v, n, inode, offset, source))
  {
    hide Sound, Shows, Files, Content, InodeSound;
    GrowthAtEnd(g, v, ow, n, inode, offset, source);
    assert AttachPre(g, v, ow, n, b, c, source);
    Attach(g, v, ow, n, b, c, source, inode.links);
    ow' := AttachedOwner(ow, n, v.inodes[n], b, c);
    assert u == Attached(v, n, b, c, source, inode.links);
    SoundShows(g, u, ow');
    assert Written(Content(v.data, v.inodes[n]), offset, source) == Content(v.data, v.inodes[n]) + source;
  }

  lemma AttachedDataIs(g: Geometry, v: Vol, w: Vol, n: nat, b: u32, c: u32, source: seq<byte>)
    requires Taken(g, v, w, n, b, c) && |source| <= 4096 && c < |v.data| && g.dataStart > 0
    ensures var i, x := v.inodes[n], Splice(ZERO_BLOCK, 0, source);
            var k := BlocksFor(i.size);
            && (k < 10 ==> w.data[b := x] == AttachedData(v.data, i, b, c, source))
            && (k == 10 ==> w.data[b := x][c := SetWord(ZERO_BLOCK, 0, b)] == AttachedData(v.data, i, b, c, source))
            && (10 < k < 1034 && i.indirect < |v.data| ==>
                  w.data[b := x][i.indirect := SetWord(v.data[i.indirect], k - 10, b)] ==
                    AttachedData(v.data, i, b, c, source))
  {
  }

  lemma AttachedPointers(i: Inode, b: u32, c: u32, source: seq<byte>, links: u16)
    requires PointersOK(i) && i.size == 4096 * BlocksFor(i.size) && 0 < |source| <= 4096 && BlocksFor(i.size) < 1034
    requires b != 0 && (BlocksFor(i.size) == 10 ==> c != 0)
    ensures PointersOK(AttachedInode(i, b, c, source, links))
  {
  }

  lemma TakenUndone(g: Geometry, v: Vol, w: Vol, n: nat, b: nat, c: nat, x: Block)
    requires Taken(g, v, w, n, b, c) && BlocksFor(v.inodes[n].size) != 10
    ensures var u := w.(data := w.data[b := x], blockBits := w.blockBits[b := false]);
            OnlyFree(g, v, u) && u.blockBits == v.blockBits
  {
    var u := w.(data := w.data[b := x], blockBits := w.blockBits[b := false]);
    assert u.blockBits == v.blockBits;
  }

  lemma Undone(g: Geometry, v: Vol, w: Vol, ow: Owner)
    requires g.Valid() && Sound(g, v, ow) && OnlyFree(g, v, w) && w.blockBits == v.blockBits
    ensures ChunkUndone(g, v, w, ow)
  {
    OnlyFreeSound(g, v, w, ow);
  }

  lemma ValidFacts(m: Mount)
    requires m.Valid()
    ensures m.g.Valid() && Shape(m.g, m.vol)
  {
  }

  /** Links the new block `b`, filled with `x`, to the file's indirect block. */
  method StorePointer(m: Mount, n: nat, indirect: u32, k: nat, ghost ow: Owner, ghost v: Vol, ghost w: Vol,
                      b: u32, ghost c: nat, ghost x: Block)
    requires m.Valid() && Sound(m.g, v, ow) && n < m.g.totalInodes && v.inodeBits[n] && Taken(m.g, v, w, n, b, c)
    requires m.vol == w.(data := w.data[b := x]) && 10 <= k == BlocksFor(v.inodes[n].size) < 1034
    requires indirect == if k == 10 then c else v.inodes[n].indirect
    modifies m`aux, m`disk, m`vol, m`history
    ensures m.Valid() && indirect < |v.data|
    ensures var word := SetWord(if k == 10 then ZERO_BLOCK else v.data[indirect], k - 10, b);
            m.vol == w.(data := w.data[b := x][indirect := word])
    ensures m.history == old(m.history) + [m.vol] && Shows(m.g, m.vol, Files(v))
  {
    hide Sound, Shows, Files, Content, OnlyFree, Mount.Valid, SetWord, Word;
    IndirectSafe(m.g, v, w, ow, n, b, c);
    var st;
    st, m.aux := m.ReadDataBlock(indirect);
    m.aux := SetWord(m.aux, k - 10, b);
    st := m.WriteDataBlock(indirect, m.aux);
    if k == 10 {
      TakenOnlyFree(m.g, v, w, n, b, c, x, SetWord(ZERO_BLOCK, 0, b));
      OnlyFreeShows(m.g, v, m.vol, ow);
    } else {
      PointerStored(m.g, v, w, ow, n, b, c, x);
    }
  }

  lemma IndirectSafe(g: Geometry, v: Vol, w: Vol, ow: Owner, n: nat, b: nat, c: nat)
    requires Sound(g, v, ow) && n < g.totalInodes && v.inodeBits[n] && Taken(g, v, w, n, b, c)
    ensures |w.data| == |v.data| == g.totalBlocks && g.dataStart <= b < g.totalBlocks
    ensures BlocksFor(v.inodes[n].size) == 10 ==> g.dataStart <= c < g.totalBlocks
    ensures BlocksFor(v.inodes[n].size) > 10 ==>
        g.dataStart <= v.inodes[n].indirect < g.totalBlocks && v.inodes[n].indirect != b
  {
    if BlocksFor(v.inodes[n].size) > 10 {
      IndirectInRange(g, v, ow, n);
      SlotKept(g, v, ow, n, 1034);
    }
  }

  /** Fills the new block, links it to the file and stores the file's new size. */
  method StoreNewBlock(m: Mount, n: nat, inode: Inode, offset: nat, source: seq<byte>, ghost ow: Owner,
                       ghost v: Vol, b: nat, c: nat)
    returns (st: int, inode': Inode, ghost ow': Owner)
    requires m.Valid() && ChunkPre(m.g, v, ow, n, inode, offset, source)
    requires offset / 4096 >= BlocksFor(inode.size) && Taken(m.g, v, m.vol, n, b, c)
    modifies m`io, m`aux, m`disk, m`vol, m`history
    ensures m.Valid()
    ensures st == if inode.size < MAX_FILE_SIZE then 0 else EIO
    ensures st == 0 ==> ChunkDone(m.g, v, m.vol, ow', n, inode, inode', offset, source)
    ensures st != 0 ==> inode' == inode && ow' == ow && ChunkUndone(m.g, v, m.vol, ow)
    ensures old(m.history) <= m.history
    ensures ShownSince(m.g, m.history, |old(m.history)|, Files(v), Files(v), ChunkFiles(v, n, inode, offset, source))
    ensures st != 0 ==> OldOrNew(m.g, m.history, |old(m.history)|, Files(v), Files(v))
  {
    hide Sound, Shows, Files, Content, ChunkDone, ChunkUndone, OnlyFree, AttachedData, Written, RecordOK, Mount.Valid,
         PointersOK, ChunkFiles, SetWord, Splice, Word;
    ValidFacts(m);
    ghost var g, w := m.g, m.vol;
    GrowthAtEnd(g, v, ow, n, inode, offset, source);
    var k := offset / 4096;
    inode', ow' := if k == 10 then inode.(indirect := c) else inode, ow;
    m.io := Splice(ZERO_BLOCK, offset % 4096, source);
    st := m.WriteDataBlock(b, m.io);
    TakenOnlyFree(g, v, w, n, b, c, m.io, SetWord(ZERO_BLOCK, 0, b));
    OnlyFreeShows(g, v, m.vol, ow);
    if k < 10 {
      inode' := inode'.(direct := inode'.direct[k := b]);
    } else if k - 10 >= 1024 {
      ghost var x := m.io;
      st := m.FreeBlock(b);
      TakenUndone(g, v, w, n, b, c, x);
      OnlyFreeShows(g, v, m.vol, ow);
      Undone(g, v, m.vol, ow);
      return EIO, inode, ow;
    } else {
      StorePointer(m, n, inode'.indirect, k, ow, v, w, b, c, m.io);
    }
    inode' := inode'.(size := offset + |source|);
    AttachedDataIs(g, v, w, n, b, c, source);
    AttachedPointers(v.inodes[n], b, c, source, inode.links);
    assert inode' == AttachedInode(v.inodes[n], b, c, source, inode.links);
    st := m.WriteInode(n, inode');
    ow' := BlockAttached(g, v, w, ow, n, inode, offset, source, b, c, m.vol);
  }

  method WriteNewBlock(m: Mount, n: nat, inode: Inode, offset: nat, source: seq<byte>, ghost ow: Owner)
    returns (st: int, inode': Inode, ghost ow': Owner)
    requires m.Valid() && ChunkPre(m.g, m.vol, ow, n, inode, offset, source)
    requires offset / 4096 >= BlocksFor(inode.size)
    modifies m`io, m`aux, m`disk, m`vol, m`history
    ensures m.Valid()
    ensures st == if !Room(m.g, old(m.vol), BlocksFor(inode.size) == 10) then ENOSPC
                  else if inode.size < MAX_FILE_SIZE then 0 else EIO
    ensures st == 0 ==> ChunkDone(m.g, old(m.vol), m.vol, ow', n, inode, inode', offset, source)
    ensures st != 0 ==> inode' == inode && ow' == ow && ChunkUndone(m.g, old(m.vol), m.vol, ow)
    ensures old(m.history) <= m.history
    ensures ShownSince(m.g, m.history, |old(m.history)|, Files(old(m.vol)),
                       HalfFiles(old(m.vol), n, offset, source), ChunkFiles(old(m.vol), n, inode, offset, source))
    ensures st != 0 ==> OldOrNew(m.g, m.history, |old(m.history)|, Files(old(m.vol)), Files(m.vol))
  {
    hide Sound, Shows, Files, Content, ChunkDone, ChunkUndone, OnlyFree, AttachedData, Written, RecordOK;
    ghost var g, v, h := m.g, m.vol, m.history;
    GrowthAtEnd(g, v, ow, n, inode, offset, source);
    var k := offset / 4096;
    var two := k >= 10 && inode.indirect == 0;
    var b, c;
    inode', ow' := inode, ow;
    st, b, c := TakeBlocks(m, two);
    forall j | |h| <= j < |m.history| ensures Shows(g, m.history[j], Files(v)) {
      OnlyFreeShows(g, v, m.history[j], ow);
    }
    if st < 0 {
      Undone(g, v, m.vol, ow);
      UndoneFiles(g, v, m.vol, ow);
      return;
    }
    st, inode', ow' := StoreNewBlock(m, n, inode, offset, source, ow, v, b, c);
    if st != 0 { UndoneFiles(g, v, m.vol, ow); }
  }

  lemma UndoneFiles(g: Geometry, v: Vol, w: Vol, ow: Owner)
    requires ChunkUndone(g, v, w, ow)
    ensures Files(w) == Files(v)
  {
  }

  /** What stops a chunk: growing needs one or two free blocks and room below the size limit. */
  ghost function ChunkStatus(g: Geometry, v: Vol, inode: Inode, offset: nat): (st: int) {
    if offset / 4096 < BlocksFor(inode.size) then 0
    else if !Room(g, v, BlocksFor(inode.size) == 10) then ENOSPC
    else if inode.size < MAX_FILE_SIZE then 0
    else EIO
  }

  /** Writes bytes that lie within one block, at most one block past the last. */
  method WriteChunk(m: Mount, n: nat, inode: Inode, offset: nat, source: seq<byte>, ghost ow: Owner)
    returns (st: int, inode': Inode, ghost ow': Owner)
    requires m.Valid() && ChunkPre(m.g, m.vol, ow, n, inode, offset, source)
    modifies m`io, m`aux, m`disk, m`vol, m`history
    ensures m.Valid()
    ensures st == ChunkStatus(m.g, old(m.vol), inode, offset)
    ensures st == 0 ==> ChunkDone(m.g, old(m.vol), m.vol, ow', n, inode, inode', offset, source)
    ensures st != 0 ==> inode' == inode && ow' == ow && ChunkUndone(m.g, old(m.vol), m.vol, ow)
    ensures old(m.history) <= m.history
    ensures ShownSince(m.g, m.history, |old(m.history)|, Files(old(m.vol)),
                       HalfFiles(old(m.vol), n, offset, source), ChunkFiles(old(m.vol), n, inode, offset, source))
    ensures st != 0 ==> OldOrNew(m.g, m.history, |old(m.history)|, Files(old(m.vol)), Files(m.vol))
  {
    hide Sound, Shows, Files, Content, ChunkDone, ChunkUndone, Room;
    if offset / 4096 < BlocksFor(inode.size) {
      st, inode' := WriteInPlace(m, n, inode, offset, source, ow);
      ow' := ow;
    } else {
      st, inode', ow' := WriteNewBlock(m, n, inode, offset, source, ow);
    }
  }

  // ---------- whole writes ----------

  /** `w` shows the files `fs`, except that the bytes of `n` may be others. */
  ghost predicate ShowsBut(g: Geometry, w: Vol, fs: map<nat, File>, n: nat) {
    n in fs && exists f: File :: f.mode == fs[n].mode && Shows(g, w, fs[n := f])
  }

  ghost predicate OthersShownSince(g: Geometry, h: seq<Vol>, from: nat, fs: map<nat, File>, n: nat) {
    forall j :: from <= j < |h| ==> ShowsBut(g, h[j], fs, n)
  }

  lemma ChunkShowsOthers(g: Geometry, v: Vol, h: seq<Vol>, from: nat, fs: map<nat, File>, n: nat, inode: Inode,
                         offset: nat, source: seq<byte>)
    requires n < |v.inodes| && n < |v.inodeBits| && offset <= v.inodes[n].size && v.inodeBits[n]
    requires ShownSince(g, h, from, Files(v), HalfFiles(v, n, offset, source), ChunkFiles(v, n, inode, offset, source))
    requires n in fs && fs[n].mode == v.inodes[n].mode == inode.mode && Files(v) == fs[n := Files(v)[n]]
    ensures OthersShownSince(g, h, from, fs, n)
  {
    hide Shows, Content;
    forall j | from <= j < |h| ensures ShowsBut(g, h[j], fs, n) {
      var f := if Shows(g, h[j], Files(v)) then Files(v)
               else if Shows(g, h[j], HalfFiles(v, n, offset, source)) then HalfFiles(v, n, offset, source)
               else ChunkFiles(v, n, inode, offset, source);
      assert f == fs[n := f[n]];
    }
  }

  lemma WrittenTwice(s: seq<byte>, o: nat, t: seq<byte>, k: nat, k': nat)
    requires o <= |s| && k <= k' <= |t|
    ensures Written(Written(s, o, t[..k]), o + k, t[k..k']) == Written(s, o, t[..k'])
  {
  }

  /** `w` is `v` with the bytes of the regular file `n` replaced by `s`. */
  ghost predicate Holds(g: Geometry, v: Vol, w: Vol, ow: Owner, n: nat, s: seq<byte>) {
    && Sound(g, w, ow) && n < g.totalInodes && n < |v.inodes| <= |v.inodeBits| && v.inodeBits[n]
    && v.inodes[n].mode == MODE_REGULAR
    && w.inodeBits == v.inodeBits
    && Files(w) == Files(v)[n := File(v.inodes[n].mode, v.inodes[n].links, s)]
  }

  lemma HoldsFacts(g: Geometry, v: Vol, w: Vol, ow: Owner, n: nat, s: seq<byte>)
    requires Holds(g, v, w, ow, n, s)
    ensures Shape(g, w) && w.inodeBits[n] && w.inodes[n].mode == MODE_REGULAR && w.inodes[n].links == v.inodes[n].links
    ensures w.inodes[n].size == |s| <= MAX_FILE_SIZE && Content(w.data, w.inodes[n]) == s && w.inodes[n].links != 0
    ensures n in Files(v) && Files(v)[n].mode == MODE_REGULAR && Files(w) == Files(v)[n := Files(w)[n]]
  {
    assert Files(w)[n] == File(v.inodes[n].mode, v.inodes[n].links, s);
    assert InodeSound(g, w.data, ow, n, w.inodes[n]);
  }

  lemma HoldsAtFirst(g: Geometry, v: Vol, ow: Owner, n: nat)
    requires Sound(g, v, ow) && n < g.totalInodes && v.inodeBits[n] && v.inodes[n].mode == MODE_REGULAR
    ensures Holds(g, v, v, ow, n, Content(v.data, v.inodes[n]))
  {
  }

  lemma HoldsNext(g: Geometry, v: Vol, w: Vol, w': Vol, ow: Owner, ow': Owner, n: nat, s: seq<byte>,
                  inode': Inode, offset: nat, source: seq<byte>)
    requires Holds(g, v, w, ow, n, s) && offset <= |s|
    requires n < |w.inodes| <= |w.inodeBits| && offset <= w.inodes[n].size
    requires ChunkDone(g, w, w', ow', n, w.inodes[n], inode', offset, source)
    ensures n < |w'.inodes| && inode' == w'.inodes[n] && Holds(g, v, w', ow', n, Written(s, offset, source))
  {
    HoldsFacts(g, v, w, ow, n, s);
    hide Sound, Content;
    assert Files(w') == Files(v)[n := File(v.inodes[n].mode, v.inodes[n].links, Written(s, offset, source))];
    assert w'.inodes[n].links == w.inodes[n].links by {
      assert n in Files(w') && Files(w')[n].links == w'.inodes[n].links;
    }
  }

  lemma NothingShown(g: Geometry, h: seq<Vol>, fs: map<nat, File>, n: nat)
    ensures OthersShownSince(g, h, |h|, fs, n)
  {
  }

  lemma OthersShownOn(g: Geometry, h: seq<Vol>, h': seq<Vol>, from: nat, mid: nat, fs: map<nat, File>, n: nat)
    requires h <= h' && mid == |h| && OthersShownSince(g, h, from, fs, n) && OthersShownSince(g, h', mid, fs, n)
    ensures OthersShownSince(g, h', from, fs, n)
  {
  }

  lemma HoldsChunkPre(g: Geometry, v: Vol, w: Vol, ow: Owner, n: nat, s: seq<byte>, offset: nat, source: seq<byte>)
    requires Holds(g, v, w, ow, n, s)
    requires offset <= |s| && 0 < |source| && offset % 4096 + |source| <= 4096
    ensures n < |w.inodes| && ChunkPre(g, w, ow, n, w.inodes[n], offset, source)
  {
    HoldsFacts(g, v, w, ow, n, s);
  }

  /** A chunk that fails below the size limit fails for lack of space, and changes no file. */
  lemma HoldsAfterFailure(g: Geometry, v: Vol, w: Vol, u: Vol, ow: Owner, n: nat, s: seq<byte>, offset: nat)
    requires Holds(g, v, w, ow, n, s) && ChunkUndone(g, w, u, ow) && n < |w.inodes|
    requires offset <= |s| && offset < MAX_FILE_SIZE && ChunkStatus(g, w, w.inodes[n], offset) != 0
    ensures Holds(g, v, u, ow, n, s)
    ensures ChunkStatus(g, w, w.inodes[n], offset) == ENOSPC && !Room(g, u, BlocksFor(offset) == 10)
  {
    HoldsFacts(g, v, w, ow, n, s);
    assert offset == |s| && BlocksFor(offset) == BlocksFor(w.inodes[n].size);
    assert forall b :: Free(g, w, b) == Free(g, u, b);
  }

  /** The write loop: chunk after chunk until the data or the free space ends. */
  method WriteLoop(m: Mount, n: nat, inode: Inode, offset: nat, source: seq<byte>, ghost ow: Owner)
    returns (st: int, completed: nat, ghost ow': Owner)
    requires m.Valid() && Sound(m.g, m.vol, ow) && n < m.g.totalInodes && m.vol.inodeBits[n]
    requires inode == m.vol.inodes[n] && inode.mode == MODE_REGULAR
    requires offset <= inode.size && offset + |source| <= MAX_FILE_SIZE
    modifies m`io, m`aux, m`disk, m`vol, m`history
    ensures m.Valid() && completed <= |source|
    ensures Holds(m.g, old(m.vol), m.vol, ow', n, Written(Content(old(m.vol).data, inode), offset, source[..completed]))
    ensures st == 0 || st == ENOSPC
    ensures st == 0 <==> completed == |source|
    ensures st == ENOSPC ==> !Room(m.g, m.vol, BlocksFor(offset + completed) == 10)
    ensures old(m.history) <= m.history
    ensures OthersShownSince(m.g, m.history, |old(m.history)|, Files(old(m.vol)), n)
  {
    hide Sound, Shows, Files, Content, Room, Holds, ShownSince, HalfFiles, ChunkFiles, ChunkDone, ChunkUndone,
         Mount.Valid, OthersShownSince, ChunkPre;
    ghost var g, v, h := m.g, m.vol, m.history;
    ghost var s := Content(v.data, inode);
    var cur := inode;
    completed, st, ow' := 0, 0, ow;
    HoldsAtFirst(g, v, ow, n);
    assert Written(s, offset, source[..0]) == s;
    NothingShown(g, h, Files(v), n);
    while completed < |source|
      invariant completed <= |source| && st == 0
      invariant m.Valid() && h <= m.history
      invariant Holds(g, v, m.vol, ow', n, Written(s, offset, source[..completed]))
      invariant n < |m.vol.inodes| && cur == m.vol.inodes[n]
      invariant OthersShownSince(g, m.history, |h|, Files(v), n)
    {
      var position := offset + completed;
      var chunk := 4096 - position % 4096;
      if chunk > |source| - completed {
        chunk := |source| - completed;
      }
      var bytes := source[completed..completed + chunk];
      ghost var t, w, hm, own := Written(s, offset, source[..completed]), m.vol, m.history, ow';
      HoldsFacts(g, v, w, own, n, t);
      HoldsChunkPre(g, v, w, own, n, t, position, bytes);
      st, cur, ow' := WriteChunk(m, n, cur, position, bytes, own);
      ChunkShowsOthers(g, w, m.history, |hm|, Files(v), n, w.inodes[n], position, bytes);
      OthersShownOn(g, hm, m.history, |h|, |hm|, Files(v), n);
      if st < 0 {
        HoldsAfterFailure(g, v, w, m.vol, own, n, t, position);
        return;
      }
      HoldsNext(g, v, w, m.vol, own, ow', n, t, cur, position, bytes);
      WrittenTwice(s, offset, source, completed, completed + chunk);
      completed := completed + chunk;
    }
  }

  /** Why a write is refused before anything is stored. */
  function WriteError(g: Geometry, v: Vol, n: nat, offset: nat, length: nat): (st: int)
    requires Shape(g, v)
  {
    if offset > MAX_FILE_SIZE || length > MAX_FILE_SIZE - offset then EINVAL
    else if ReadStatus(g, v, n) != 0 then ReadStatus(g, v, n)
    else if v.inodes[n].mode == MODE_DIRECTORY then EISDIR
    else if offset > v.inodes[n].size then EINVAL
    else 0
  }

  /** Writes as much of `source` as the volume has room for and returns how much that was. */
  method Write(m: Mount, n: nat, offset: nat, source: seq<byte>, ghost ow: Owner) returns (r: int, ghost ow': Owner)
    requires m.Valid() && Sound(m.g, m.vol, ow)
    modifies m`io, m`aux, m`disk, m`vol, m`history
    ensures m.Valid()
    ensures WriteError(m.g, old(m.vol), n, offset, |source|) != 0 ==>
              r == WriteError(m.g, old(m.vol), n, offset, |source|) && m.vol == old(m.vol)
                && m.history == old(m.history) && ow' == ow
    ensures WriteError(m.g, old(m.vol), n, offset, |source|) == 0 ==>
              && (r == ENOSPC || 0 <= r <= |source|)
              && Holds(m.g, old(m.vol), m.vol, ow', n,
                       Written(Content(old(m.vol).data, old(m.vol).inodes[n]), offset,
                         source[..if r < 0 then 0 else r]))
              && (r < |source| ==> !Room(m.g, m.vol, BlocksFor(offset + if r < 0 then 0 else r) == 10))
              && (r == 0 ==> source == [])
              && old(m.history) <= m.history
              && OthersShownSince(m.g, m.history, |old(m.history)|, Files(old(m.vol)), n)
  {
    hide Shows, Files, Content, Room, OthersShownSince, PointersOK, Written, InodesSound, OwnersExact, BitsExact,
         InodePadding;
    ow' := ow;
    if offset > MAX_FILE_SIZE || |source| > MAX_FILE_SIZE - offset {
      return EINVAL, ow;
    }
    var inode;
    r, inode := m.ReadInode(n);
    if r < 0 {
      return;
    }
    if inode.mode == MODE_DIRECTORY {
      return EISDIR, ow;
    }
    if offset > inode.size {
      return EINVAL, ow;
    }
    var completed;
    r, completed, ow' := WriteLoop(m, n, inode, offset, source, ow);
    if r == 0 || completed > 0 {
      r := completed;
    }
  }

  // ---------- reading ----------

  function ReadLength(size: nat, offset: nat, length: nat): (k: nat)
    ensures offset >= size ==> k == 0
    ensures offset < size ==> offset + k <= size && k <= length && (k == length || offset + k == size)
  {
    if offset >= size then 0 else if length > size - offset then size - offset else length
  }

  /** A stretch of the file inside one block is the same stretch of that block. */
  lemma BlockSlice(g: Geometry, v: Vol, ow: Owner, n: nat, o: nat, k: nat)
    requires Sound(g, v, ow) && n < g.totalInodes && v.inodeBits[n]
    requires o + k <= v.inodes[n].size && o % 4096 + k <= 4096 && 0 < k
    ensures var b := SlotBlock(v.data, v.inodes[n], o / 4096);
            b < |v.data| && Content(v.data, v.inodes[n])[o..o + k] == v.data[b][o % 4096..o % 4096 + k]
  {
    SlotKept(g, v, ow, n, o / 4096);
    var i := v.inodes[n];
    var b, s := SlotBlock(v.data, i, o / 4096), Content(v.data, i);
    forall j | o <= j < o + k ensures s[j] == v.data[b][o % 4096 + (j - o)] {
      assert s[j] == ByteAt(v.data, i, j);
      assert j / 4096 == o / 4096 && j % 4096 == o % 4096 + (j - o);
    }
  }

  lemma SliceGrows(s: seq<byte>, from: nat, k: nat, more: nat)
    requires from + k + more <= |s|
    ensures s[from..from + k] + s[from + k..from + k + more] == s[from..from + k + more]
  {
  }

  /** Reads part of one block of a file. */
  method ReadChunk(m: Mount, n: nat, inode: Inode, position: nat, chunk: nat, ghost ow: Owner)
    returns (bytes: seq<byte>)
    requires m.Valid() && Sound(m.g, m.vol, ow) && n < m.g.totalInodes && m.vol.inodeBits[n] && inode == m.vol.inodes[n]
    requires position + chunk <= inode.size && chunk > 0 && position % 4096 + chunk <= 4096
    modifies m`io
    ensures bytes == Content(m.vol.data, inode)[position..position + chunk]
  {
    hide Files, Content, PointersOK, InodesSound, OwnersExact, BitsExact, InodePadding;
    SlotReadable(m.g, m.vol, ow, n, position / 4096);
    BlockSlice(m.g, m.vol, ow, n, position, chunk);
    var r, b := m.InodeBlockAt(inode, position / 4096);
    r, m.io := m.ReadDataBlock(b);
    bytes := m.io[position % 4096..position % 4096 + chunk];
  }

  /** Reads up to `length` bytes; past the end of the file there are none. */
  method Read(m: Mount, n: nat, offset: nat, length: nat, ghost ow: Owner) returns (r: int, bytes: seq<byte>)
    requires m.Valid() && Sound(m.g, m.vol, ow)
    modifies m`io
    ensures r == if ReadStatus(m.g, m.vol, n) != 0 then ReadStatus(m.g, m.vol, n)
                 else if m.vol.inodes[n].mode == MODE_DIRECTORY then EISDIR
                 else ReadLength(m.vol.inodes[n].size, offset, length)
    ensures r >= 0 ==> |bytes| == r && (r > 0 ==> bytes == Content(m.vol.data, m.vol.inodes[n])[offset..offset + r])
  {
    hide Files, Content, PointersOK, InodesSound, OwnersExact, BitsExact, InodePadding;
    bytes := [];
    var inode;
    r, inode := m.ReadInode(n);
    if r < 0 {
      return;
    }
    if inode.mode == MODE_DIRECTORY {
      return EISDIR, bytes;
    }
    if offset >= inode.size || length == 0 {
      return 0, bytes;
    }
    var wanted := if length > inode.size - offset then inode.size - offset else length;
    var completed := 0;
    ghost var s := Content(m.vol.data, inode);
    while completed < wanted
      invariant 0 <= completed <= wanted && |bytes| == completed
      invariant bytes == s[offset..offset + completed]
    {
      var position := offset + completed;
      var chunk := 4096 - position % 4096;
      if chunk > wanted - completed {
        chunk := wanted - completed;
      }
      var part := ReadChunk(m, n, inode, position, chunk, ow);
      bytes := bytes + part;
      SliceGrows(s, offset, completed, chunk);
      completed := completed + chunk;
    }
    r := completed;
  }

  // ---------- giving blocks back ----------

  /** `w` is `v` with some of the bits in `s` cleared. */
  ghost predicate Thinned(v: Vol, w: Vol, s: set<nat>) {
    && w == v.(blockBits := w.blockBits) && |w.blockBits| == |v.blockBits|
    && forall b :: 0 <= b < |v.blockBits| && v.blockBits[b] && b !in s ==> w.blockBits[b]
  }

  ghost predicate ThinnedSince(v: Vol, s: set<nat>, h: seq<Vol>, from: nat) {
    forall j :: from <= j < |h| ==> Thinned(v, h[j], s)
  }

  /** All slots of `inode` from `lo` on name data blocks, and `cmp` is its indirect block. */
  ghost predicate Releasable(g: Geometry, data: seq<Block>, inode: Inode, lo: nat, cmp: Block) {
    && lo <= BlocksFor(inode.size) <= 1034
    && (BlocksFor(inode.size) > 10 ==>
       g.dataStart <= inode.indirect < g.totalBlocks == |data| && cmp == data[inode.indirect])
    && forall k: nat :: lo <= k < BlocksFor(inode.size) ==> g.dataStart <= SlotBlock(data, inode, k) < g.totalBlocks
  }

  lemma ClearedOneMore(v: Vol, w: Vol, s: set<nat>, b: nat, all: set<nat>)
    requires w == v.(blockBits := ClearBits(v.blockBits, s)) && b < |v.blockBits| && s <= all && b in all
    ensures w.(blockBits := w.blockBits[b := false]) == v.(blockBits := ClearBits(v.blockBits, s + {b}))
    ensures Thinned(v, w.(blockBits := w.blockBits[b := false]), all)
  {
    assert w.blockBits[b := false] == ClearBits(v.blockBits, s + {b});
  }

  lemma SlotRangeNext(data: seq<Block>, i: Inode, lo: nat, k: nat)
    requires lo <= k
    ensures SlotRange(data, i, lo, k + 1) == SlotRange(data, i, lo, k) + {SlotBlock(data, i, k) as nat}
  {
  }

  /** Frees the blocks of slots `lo` and up in order, the indirect block last. */
  method FreeSlotsFrom(m: Mount, inode: Inode, lo: nat, ghost data: seq<Block>)
    requires m.Valid() && Releasable(m.g, data, inode, lo, m.cmp)
    modifies m`io, m`disk, m`vol, m`history
    ensures m.Valid()
    ensures m.vol == old(m.vol).(blockBits := ClearBits(old(m.vol).blockBits, SlotsFrom(data, inode, lo)))
    ensures old(m.history) <= m.history
    ensures ThinnedSince(old(m.vol), SlotsFrom(data, inode, lo), m.history, |old(m.history)|)
  {
    hide ClearBits, Mount.Valid, SlotRange, Thinned;
    ValidFacts(m);
    ghost var v, all := m.vol, SlotsFrom(data, inode, lo);
    var blocks := BlocksFor(inode.size);
    var k := lo;
    NothingCleared(v, data, inode, lo);
    while k < blocks && k < 10
      invariant lo <= k <= blocks
      invariant m.Valid() && old(m.history) <= m.history
      invariant m.vol == v.(blockBits := ClearBits(v.blockBits, SlotRange(data, inode, lo, k)))
      invariant ThinnedSince(v, all, m.history, |old(m.history)|)
    {
      SlotRangeNext(data, inode, lo, k);
      SlotInAll(data, inode, lo, k);
      ClearedOneMore(v, m.vol, SlotRange(data, inode, lo, k), SlotBlock(data, inode, k), all);
      var _ := m.FreeBlock(inode.direct[k]);
      k := k + 1;
    }
    while k < blocks
      invariant lo <= k <= blocks && (k < blocks ==> k >= 10)
      invariant m.Valid() && old(m.history) <= m.history
      invariant m.vol == v.(blockBits := ClearBits(v.blockBits, SlotRange(data, inode, lo, k)))
      invariant ThinnedSince(v, all, m.history, |old(m.history)|)
    {
      SlotRangeNext(data, inode, lo, k);
      SlotInAll(data, inode, lo, k);
      ClearedOneMore(v, m.vol, SlotRange(data, inode, lo, k), SlotBlock(data, inode, k), all);
      var _ := m.FreeBlock(Word(m.cmp, k - 10));
      k := k + 1;
    }
    if blocks > 10 && lo <= 10 {
      SlotInAll(data, inode, lo, blocks);
      ClearedOneMore(v, m.vol, SlotRange(data, inode, lo, k), inode.indirect, all);
      var _ := m.FreeBlock(inode.indirect);
    } else {
      assert SlotRange(data, inode, lo, k) + {} == SlotRange(data, inode, lo, k);
    }
  }

  lemma NothingCleared(v: Vol, data: seq<Block>, i: Inode, lo: nat)
    ensures v == v.(blockBits := ClearBits(v.blockBits, SlotRange(data, i, lo, lo)))
  {
    assert v.blockBits == ClearBits(v.blockBits, SlotRange(data, i, lo, lo));
  }

  lemma SlotInAll(data: seq<Block>, i: Inode, lo: nat, k: nat)
    requires lo <= k <= BlocksFor(i.size)
    ensures SlotRange(data, i, lo, k) <= SlotsFrom(data, i, lo)
    ensures k < BlocksFor(i.size) ==> SlotBlock(data, i, k) as nat in SlotsFrom(data, i, lo)
  {
  }

  // ---------- truncating ----------

  function TruncateError(g: Geometry, v: Vol, n: nat, size: nat): (st: int)
    requires Shape(g, v)
  {
    if size > MAX_FILE_SIZE then EINVAL
    else if ReadStatus(g, v, n) != 0 then EIO
    else if v.inodes[n].mode == MODE_DIRECTORY then EISDIR
    else if size > v.inodes[n].size then EINVAL
    else 0
  }

  lemma ShrinkFacts(g: Geometry, v: Vol, ow: Owner, n: nat, size: u32)
    requires Sound(g, v, ow) && n < g.totalInodes && v.inodeBits[n] && v.inodes[n].mode == MODE_REGULAR
    requires size <= v.inodes[n].size
    ensures ShrinkPre(g, v, ow, n, size) && PointersOK(v.inodes[n]) && PointersOK(ShrunkInode(v.inodes[n], size))
    ensures v.inodes[n].reserved == 0 && BlocksFor(v.inodes[n].size) <= 1034
    ensures BlocksFor(v.inodes[n].size) > 10 ==> g.dataStart <= v.inodes[n].indirect < g.totalBlocks == |v.data|
    ensures BlocksFor(size) <= BlocksFor(v.inodes[n].size)
    ensures BlocksFor(v.inodes[n].size) > 10 ==>
              Releasable(g, v.data, v.inodes[n], BlocksFor(size), v.data[v.inodes[n].indirect])
    ensures BlocksFor(v.inodes[n].size) <= 10 ==> forall x :: Releasable(g, v.data, v.inodes[n], BlocksFor(size), x)
  {
    assert InodeSound(g, v.data, ow, n, v.inodes[n]);
    if BlocksFor(v.inodes[n].size) > 10 { IndirectInRange(g, v, ow, n); }
    forall k: nat | BlocksFor(size) <= k < BlocksFor(v.inodes[n].size)
      ensures g.dataStart <= SlotBlock(v.data, v.inodes[n], k) < g.totalBlocks
    {
      SlotKept(g, v, ow, n, k);
    }
  }

  ghost function Shortened(v: Vol, n: nat, size: u32): (w: Vol)
    requires n < |v.inodes| && size <= v.inodes[n].size <= MAX_FILE_SIZE
  {
    v.(data := ShrunkData(v.data, v.inodes[n], size), inodes := v.inodes[n := ShrunkInode(v.inodes[n], size)])
  }

  lemma ShortenedShows(g: Geometry, v: Vol, w: Vol, ow: Owner, n: nat, size: u32)
    requires ShrinkPre(g, v, ow, n, size)
    requires Thinned(Shortened(v, n, size), w, SlotsFrom(v.data, v.inodes[n], BlocksFor(size)))
    ensures ShowsBut(g, w, Files(v), n)
  {
    hide Content, InodesSound, OwnersExact, Shows, SlotsFrom, ShrunkInode, ShrunkData;
    var u, ow' := Shrunk(v, n, size), KeptOwners(ow, n, BlocksFor(size));
    Shrink(g, v, ow, n, size);
    FreedOwners(g, v, ow, n, BlocksFor(size));
    forall b | b in ow' ensures b < |v.blockBits| && v.blockBits[b] && b < |v.data| && w.blockBits[b] {
      InodeBlocks(g, v, ow, b);
    }
    PaddedShows(g, u, w, ow');
    assert n in Files(v);
    assert Files(u) == Files(v)[n := Files(u)[n]];
  }

  lemma ClearedTailShowsBut(g: Geometry, v: Vol, ow: Owner, n: nat, size: u32)
    requires ShrinkPre(g, v, ow, n, size) && BlocksFor(size) > 10
    ensures ShowsBut(g, v.(data := ShrunkData(v.data, v.inodes[n], size)), Files(v), n)
  {
    ClearedTailShows(g, v, ow, n, size);
    assert n in Files(v);
  }

  /** Clears the pointers past the new size, in the indirect block and then in the inode. */
  method ShortenRecord(m: Mount, n: nat, inode: Inode, size: u32, ghost ow: Owner)
    requires m.Valid() && Sound(m.g, m.vol, ow) && n < m.g.totalInodes && m.vol.inodeBits[n]
    requires inode == m.vol.inodes[n] && inode.mode == MODE_REGULAR && size < inode.size <= MAX_FILE_SIZE
    modifies m`io, m`aux, m`cmp, m`disk, m`vol, m`history
    ensures m.Valid() && m.vol == Shortened(old(m.vol), n, size)
    ensures Releasable(m.g, old(m.vol).data, inode, BlocksFor(size), m.cmp)
    ensures old(m.history) <= m.history
    ensures OthersShownSince(m.g, m.history, |old(m.history)|, Files(old(m.vol)), n)
  {
    hide Sound, Shows, Files, Content, Mount.Valid, RecordOK, ShowsBut, ClearWords;
    ValidFacts(m);
    ghost var g, v := m.g, m.vol;
    ShrinkFacts(g, v, ow, n, size);
    var oldBlocks, newBlocks, st := BlocksFor(inode.size), BlocksFor(size), 0;
    var short := inode;
    if inode.indirect != 0 {
      st, m.aux := m.ReadDataBlock(inode.indirect);
      m.cmp := m.aux;
    }
    if newBlocks > 10 {
      var index := newBlocks - 10;
      ClearNoWords(m.aux, index);
      while index < oldBlocks - 10
        invariant newBlocks - 10 <= index <= oldBlocks - 10
        invariant m.Valid() && m.vol == v && m.history == old(m.history)
        invariant m.cmp == v.data[inode.indirect] && m.aux == ClearWords(m.cmp, newBlocks - 10, index)
      {
        ClearOneWord(m.cmp, newBlocks - 10, index);
        m.aux := SetWord(m.aux, index, 0);
        index := index + 1;
      }
      st := m.WriteDataBlock(inode.indirect, m.aux);
      ClearedTailShowsBut(g, v, ow, n, size);
    } else {
      short := short.(indirect := 0);
    }
    var index := newBlocks;
    while index < oldBlocks && index < 10
      invariant newBlocks <= index <= oldBlocks
      invariant short == inode.(direct := short.direct, indirect := if newBlocks > 10 then inode.indirect else 0)
      invariant forall k :: 0 <= k < 10 ==> short.direct[k] == if newBlocks <= k < index then 0 else inode.direct[k]
    {
      short := short.(direct := short.direct[index := 0]);
      index := index + 1;
    }
    assert short.direct == ShrunkPointers(inode.direct, newBlocks);
    short := short.(size := size);
    assert short == ShrunkInode(inode, size);
    st := m.WriteInode(n, short);
    ThinnedBySelf(m.vol, SlotsFrom(v.data, inode, newBlocks));
    ShortenedShows(g, v, m.vol, ow, n, size);
  }

  lemma ClearNoWords(b: Block, lo: nat)
    requires lo <= 1024
    ensures ClearWords(b, lo, lo) == b
  {
  }

  lemma ClearOneWord(b: Block, lo: nat, hi: nat)
    requires lo <= hi < 1024
    ensures ClearWords(b, lo, hi + 1) == SetWord(ClearWords(b, lo, hi), hi, 0)
  {
  }

  lemma ThinnedBySelf(v: Vol, s: set<nat>)
    ensures Thinned(v, v, s)
  {
  }

  method Truncate(m: Mount, n: nat, size: nat, ghost ow: Owner) returns (st: int, ghost ow': Owner)
    requires m.Valid() && Sound(m.g, m.vol, ow)
    modifies m`io, m`aux, m`cmp, m`disk, m`vol, m`history
    ensures m.Valid() && st == TruncateError(m.g, old(m.vol), n, size)
    ensures st != 0 ==> m.vol == old(m.vol) && m.history == old(m.history) && ow' == ow
    ensures st == 0 ==>
              && Holds(m.g, old(m.vol), m.vol, ow', n, Content(old(m.vol).data, old(m.vol).inodes[n])[..size])
              && old(m.history) <= m.history
              && OthersShownSince(m.g, m.history, |old(m.history)|, Files(old(m.vol)), n)
  {
    hide Shows, Files, Content, Represents, PointersOK, InodesSound, OwnersExact, BitsExact, InodePadding, ShowsBut,
         Thinned, Holds, Shrunk, ShrunkData, ShrunkInode;
    ghost var g, v, h := m.g, m.vol, m.history;
    ValidFacts(m);
    ow' := ow;
    if size > MAX_FILE_SIZE {
      return EINVAL, ow;
    }
    var inode;
    st, inode := m.ReadInode(n);
    if st != 0 {
      return EIO, ow;
    }
    if inode.mode == MODE_DIRECTORY {
      return EISDIR, ow;
    }
    if size > inode.size {
      return EINVAL, ow;
    }
    if size == inode.size {
      HoldsAtFirst(g, v, ow, n);
      assert Content(v.data, inode)[..size] == Content(v.data, inode);
      return 0, ow;
    }
    ShrinkFacts(g, v, ow, n, size);
    ShortenRecord(m, n, inode, size, ow);
    ghost var hm := m.history;
    FreeSlotsFrom(m, inode, BlocksFor(size), v.data);
    forall j | |hm| <= j < |m.history| ensures ShowsBut(g, m.history[j], Files(v), n) {
      ShortenedShows(g, v, m.history[j], ow, n, size);
    }
    ow' := TruncateDone(g, v, m.vol, ow, n, size);
  }

  lemma TruncateDone(g: Geometry, v: Vol, w: Vol, ow: Owner, n: nat, size: u32) returns (ow': Owner)
    requires ShrinkPre(g, v, ow, n, size) && v.inodes[n].mode == MODE_REGULAR
    requires w == Shortened(v, n,
        size).(blockBits := ClearBits(v.blockBits, SlotsFrom(v.data, v.inodes[n], BlocksFor(size))))
    ensures Holds(g, v, w, ow', n, Content(v.data, v.inodes[n])[..size])
  {
    ow' := KeptOwners(ow, n, BlocksFor(size));
    Shrink(g, v, ow, n, size);
    assert w == Shrunk(v, n, size);
  }
}
