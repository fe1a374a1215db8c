/** User address spaces in physical memory: frames are taken, page tables written in place,
    and everything is returned in the end. */
module AddressSpaces {
  import opened Bytes
  import opened Frames
  import opened Paging

  /** The pool after all frames of `fs` were returned. */
  function GiveAll(p: Pool, fs: set<nat>): (q: Pool) {
    p.(used := seq(|p.used|, f requires 0 <= f < |p.used| => p.used[f] && f !in fs))
  }

  lemma GiveOneMore(p: Pool, fs: set<nat>, f: nat)
    requires PoolOK(p) && Taken(p, f) && f !in fs
    ensures Taken(GiveAll(p, fs), f) && Give(GiveAll(p, fs), f) == GiveAll(p, fs + {f})
  {
    assert Give(GiveAll(p, fs), f).used == GiveAll(p, fs + {f}).used;
  }

  lemma GiveNone(p: Pool)
    ensures GiveAll(p, {}) == p
  {
    assert GiveAll(p, {}).used == p.used;
  }

  /** The free frames after all frames of a space were returned. */
  lemma GiveAllFrees(p: Pool, fs: set<nat>)
    requires PoolOK(p) && forall f :: f in fs ==> Taken(p, f)
    ensures FreeFrames(GiveAll(p, fs)) == FreeFrames(p) + fs
  {
  }

  /** Only frames in `ow` changed. */
  ghost predicate KeepsOthers(tables: seq<Table>, tables': seq<Table>, ow: Uses) {
    |tables'| == |tables| && forall f: nat :: f < |tables| && f !in ow ==> tables'[f] == tables[f]
  }

  /** A space that owns none of the changed frames is as it was. */
  lemma OtherSpaceKept(pool: Pool, tables: seq<Table>, d: nat, ow: Uses, pool': Pool, tables': seq<Table>,
                       changed: Uses)
    requires SpaceOK(pool, tables, d, ow) && KeepsOthers(tables, tables', changed) && ow.Keys !! changed.Keys
    requires PoolOK(pool') && |pool'.used| == |pool.used| && forall f :: f in ow ==> Taken(pool', f)
    ensures SpaceOK(pool', tables', d, ow)
    ensures forall v: nat :: v < 786432 ==> Lookup(tables', d, v) == Lookup(tables, d, v)
  {
    hide Present, Writable, User, FrameOf;
    forall i | 0 <= i < 768
      ensures TableFine(pool', tables', d, ow, i) && TableOf(tables', d, i) == TableOf(tables, d, i) {
      assert TableFine(pool, tables, d, ow, i);
    }
    forall v: nat | v < 786432 ensures Lookup(tables', d, v) == Lookup(tables, d, v) && PageFine(tables', d, ow, v) {
      assert PageFine(tables, d, ow, v) && TableFine(pool, tables, d, ow, v / 1024);
    }
    forall f | f in ow ensures UseFine(pool', tables', d, ow, f) { assert UseFine(pool, tables, d, ow, f); }
  }

  /** An address of the user half, page aligned. */
  predicate UserPage(va: u32) { va < 0xC000_0000 && va % 4096 == 0 }

  class Memory {
    var pool: Pool
    var free: nat
    var tables: seq<Table>

    ghost predicate Valid()
      reads this
    {
      PoolOK(pool) && |tables| == |pool.used| && free == |FreeFrames(pool)|
    }

    constructor (pool: Pool, free: nat, tables: seq<Table>)
      requires PoolOK(pool) && |tables| == |pool.used| && free == |FreeFrames(pool)|
      ensures Valid() && this.pool == pool && this.free == free && this.tables == tables
    {
      this.pool, this.free, this.tables := pool, free, tables;
    }

    // ---------- frames ----------

    /** Takes the lowest free frame; 0 if there is none. */
    method PmmAlloc() returns (pa: u32)
      requires Valid()
      modifies `pool, `free
      ensures Valid()
      ensures if FreeFrames(old(pool)) == {} then pa == 0 && pool == old(pool) && free == old(free)
              else && pa % 4096 == 0 && pa > 0 && IsFree(old(pool), pa / 4096) && pool == Take(old(pool), pa / 4096)
                   && free == old(free) - 1 && forall f :: f in FreeFrames(old(pool)) ==> pa / 4096 <= f
    {
      for page := 0 to |pool.used|
        invariant pool == old(pool) && free == old(free) && forall f: nat :: f < page ==> !IsFree(pool, f)
      {
        if pool.allocatable[page] && !pool.used[page] {
          TakeCount(pool, page);
          assert page in FreeFrames(pool);
          pool, free := Take(pool, page), free - 1;
          return 4096 * page;
        }
      }
      assert FreeFrames(pool) == {};
      return 0;
    }

    method PmmFree(pa: u32) returns (ok: bool)
      requires Valid()
      modifies `pool, `free
      ensures Valid() && (ok <==> pa % 4096 == 0 && Taken(old(pool), pa / 4096))
      ensures if ok then pool == Give(old(pool), pa / 4096) && free == old(free) + 1
              else pool == old(pool) && free == old(free)
    {
      if pa % 4096 != 0 {
        return false;
      }
      var page := pa / 4096;
      if page >= |pool.used| || !pool.allocatable[page] || !pool.used[page] {
        return false;
      }
      GiveCount(pool, page);
      pool, free := Give(pool, page), free + 1;
      return true;
    }

    // ---------- windows ----------

    /** Both windows on page tables lie in the same otherwise unused part of the kernel half, so the
        first one that is mapped takes a frame for a page table; 0 if there is none. */
    method OpenWindow() returns (w: nat)
      requires Valid()
      modifies `pool, `free
      ensures Valid()
      ensures if old(free) == 0 then w == 0 && pool == old(pool) && free == 0
              else w > 0 && IsFree(old(pool), w) && pool == Take(old(pool), w) && free == old(free) - 1
    {
      NoneFree(pool);
      var pa := PmmAlloc();
      w := pa / 4096;
    }

    /** Unmapping the last window returns that frame. */
    method CloseWindow(w: nat)
      requires Valid() && Taken(pool, w)
      modifies `pool, `free
      ensures Valid() && pool == Give(old(pool), w) && free == old(free) + 1
    {
      var ok := PmmFree(4096 * w);
    }

    // ---------- spaces ----------

    /** Fills a new directory: the user half is empty, the kernel half is copied. */
    method FillDirectory(d: nat, kernel: Table)
      requires d < |tables| <= 0x10_0000
      modifies `tables
      ensures |tables| == |old(tables)| && (forall f :: 0 <= f < |tables| && f != d ==> tables[f] == old(tables)[f])
      ensures forall k :: 0 <= k < 1024 ==>
                tables[d][k] == if k == 1023 then 4096 * d + 3 else if 768 <= k && k != 834 then kernel[k]
                  else 0
    {
      tables := tables[d := ZeroTable()];
      for index := 768 to 1023
        invariant |tables| == |old(tables)|
        invariant forall f :: 0 <= f < |tables| && f != d ==> tables[f] == old(tables)[f]
        invariant forall k :: 0 <= k < 1024 ==> tables[d][k] == if 768 <= k < index && k != 834 then kernel[k] else 0
      {
        if index != 834 {
          tables := SetEntry(tables, d, index, kernel[index]);
        }
      }
      tables := SetEntry(tables, d, 1023, Entry(d, true, false));
    }

    /** A new space, if there is a frame for it and one for the window. */
    method Create(kernel: Table) returns (ok: bool, d: nat)
      requires Valid()
      modifies this
      ensures Valid() && (ok <==> old(free) >= 2)
      ensures if ok then
                && IsFree(old(pool), d) && pool == Take(old(pool), d) && free == old(free) - 1
                && SpaceOK(pool, tables, d, map[d := Directory])
                && (forall v: nat :: v < 786432 ==> Lookup(tables, d, v) == Unmapped)
                && (forall k :: 768 <= k < 1023 && k != 834 ==> tables[d][k] == kernel[k])
                   && tables[d][1023] == 4096 * d + 3
                && (forall f :: 0 <= f < |tables| && f != d ==> tables[f] == old(tables)[f])
              else pool == old(pool) && free == old(free) && tables == old(tables)
    {
      hide SpaceOK, Lookup, Entry;
      ghost var p0 := pool;
      NoneFree(pool);
      var pa := PmmAlloc();
      if pa == 0 {
        return false, 0;
      }
      d := pa / 4096;
      TakeGive(p0, d);
      var w := OpenWindow();
      if w == 0 {
        var freed := PmmFree(pa);
        return false, 0;
      }
      FillDirectory(d, kernel);
      TakeGive(Take(p0, d), w);
      CloseWindow(w);
      EmptySpace(pool, tables, d);
      ok := true;
    }

    /** Maps one page through the windows, taking a frame for the page table if there is none yet. */
    method MapInside(d: nat, va: u32, pa: u32, writable: bool, ghost ow: Uses) returns (ok: bool, ghost ow': Uses)
      requires Valid() && SpaceOK(pool, tables, d, ow)
      requires pa % 4096 == 0 && pa > 0 ==> Taken(pool, pa / 4096) && pa / 4096 !in ow
      modifies this
      ensures Valid() && SpaceOK(pool, tables, d, ow')
      ensures ok <==> && va < 0xC000_0000 && va % 4096 == 0 && pa % 4096 == 0 && pa > 0
                      && Lookup(old(tables), d, va / 4096) == Unmapped
                      && (Present(old(tables)[d][va / 4096 / 1024]) || FreeFrames(old(pool)) != {})
      ensures if ok then
                && (forall w: nat :: w < 786432 ==>
                      Lookup(tables, d, w) ==
                        if w == va / 4096 then Mapped(pa / 4096, writable) else Lookup(old(tables), d, w))
                && pa / 4096 in ow' && ow'[pa / 4096] == Page(va / 4096) && ow.Keys <= ow'.Keys
                   && free + |ow'| == old(free) + |ow| + 1
                && (forall f :: f in ow' ==> f in ow || f == pa / 4096 || IsFree(old(pool), f))
                && (forall f :: Taken(old(pool), f) ==> Taken(pool, f)) && KeepsOthers(old(tables), tables, ow')
              else pool == old(pool) && free == old(free) && tables == old(tables) && ow' == ow
    {
      hide SpaceOK, Lookup, TableOf, FrameOf, Entry, PoolOK;
      ow' := ow;
      if va >= 0xC000_0000 || va % 4096 != 0 || pa % 4096 != 0 || pa == 0 {
        return false, ow;
      }
      ghost var v := va / 4096;
      DirectoryInRange(pool, tables, d, ow);
      var i, j, f := va / 4096 / 1024, va / 4096 % 1024, pa / 4096;
      if !Present(tables[d][i]) {
        NoTable(tables, d, v);
        var table := PmmAlloc();
        if table == 0 {
          return false, ow;
        }
        var t := table / 4096;
        ghost var p0, t0 := old(pool), old(tables);
        TableAdded(p0, t0, d, ow, v, t, f, writable);
        forall w: nat | w < 786432 ensures Lookup(WithTable(t0, d, i, t, j, Entry(f, writable, true)), d, w) ==
                                           if w == v then Mapped(f, writable) else Lookup(t0, d, w)
        {
          WithTableLookup(p0, t0, d, ow, v, t, f, writable, w);
        }
        tables := tables[t := ZeroTable()];
        tables := SetEntry(tables, d, i, Entry(t, true, true));
        FreshTableEmpty(t0, d, i, t, j);  // so the kernel's check for an occupied entry passes
        tables := SetEntry(tables, t, j, Entry(f, writable, true));
        ow' := ow[t := PageTable(i)][f := Page(v)];
        TwoMore(ow, t, f, i, v);
        return true, ow';
      }
      TablesApart(pool, tables, d, ow, i, i);
      TableTaken(pool, tables, d, ow, i);
      var t := FrameOf(tables[d][i]);
      LookupIs(tables, d, v);
      if Present(tables[t][j]) {
        return false, ow;
      }
      PutPage(pool, tables, d, ow, v, f, writable);
      tables := SetEntry(tables, t, j, Entry(f, writable, true));
      ow' := ow[f := Page(v)];
      ok := true;
    }

    /** Maps one page. The caller hands over a frame that it has taken from the pool. */
    method Map(d: nat, va: u32, pa: u32, writable: bool, ghost ow: Uses) returns (ok: bool, ghost ow': Uses)
      requires Valid() && SpaceOK(pool, tables, d, ow)
      requires pa % 4096 == 0 && pa > 0 ==> Taken(pool, pa / 4096) && pa / 4096 !in ow
      modifies this
      ensures Valid() && SpaceOK(pool, tables, d, ow') && d < |old(tables)|
      ensures ok <==> && va < 0xC000_0000 && va % 4096 == 0 && pa % 4096 == 0 && pa > 0
                      && Lookup(old(tables), d, va / 4096) == Unmapped
                      && old(free) >= if Present(old(tables)[d][va / 4096 / 1024]) then 1 else 2
      ensures if ok then
                && (forall w: nat :: w < 786432 ==>
                      Lookup(tables, d, w) ==
                        if w == va / 4096 then Mapped(pa / 4096, writable) else Lookup(old(tables), d, w))
                && pa / 4096 in ow' && ow'[pa / 4096] == Page(va / 4096) && ow.Keys <= ow'.Keys
                && free + |ow'| == old(free) + |ow| + 1
                && (forall f :: f in ow' ==> f in ow || f == pa / 4096 || IsFree(old(pool), f))
                && (forall f :: Taken(old(pool), f) ==> Taken(pool, f)) && KeepsOthers(old(tables), tables, ow')
              else pool == old(pool) && free == old(free) && tables == old(tables) && ow' == ow
    {
      hide SpaceOK, Lookup, PoolOK, KeepsOthers, Present;
      ow' := ow;
      DirectoryInRange(pool, tables, d, ow);
      if !UserPage(va) || pa % 4096 != 0 || pa == 0 {
        return false, ow;
      }
      ghost var p0 := pool;
      var w := OpenWindow();
      if w == 0 {
        return false, ow;
      }
      TakeKeeps(p0, tables, d, ow, w);
      NoneFree(pool);
      TakeGive(p0, w);
      ok, ow' := MapInside(d, va, pa, writable, ow);
      GiveKeeps(pool, tables, d, ow', w);
      ghost var p1 := pool;
      CloseWindow(w);
      forall f | Taken(p0, f) ensures Taken(pool, f) { StillTaken(p0, p1, w, f); }
    }

    /** Changes whether a mapped page is writable. */
    method ProtectInside(d: nat, va: u32, flags: u32, ghost ow: Uses) returns (ok: bool)
      requires Valid() && SpaceOK(pool, tables, d, ow)
      modifies `tables
      ensures Valid() && SpaceOK(pool, tables, d, ow)
      ensures ok <==> && va < 0xC000_0000 && va % 4096 == 0 && (flags == 0 || flags == 2)
                      && Lookup(old(tables), d, va / 4096).Mapped?
      ensures if ok then
                forall w: nat :: w < 786432 ==>
                  Lookup(tables, d, w) ==
                    if w == va / 4096 then Lookup(old(tables), d, w).(writable := flags == 2)
                    else Lookup(old(tables), d, w)
              else tables == old(tables)
    {
      hide SpaceOK, Lookup, TableOf, FrameOf, Entry, PoolOK;
      if va >= 0xC000_0000 || va % 4096 != 0 || (flags != 0 && flags != 2) {
        return false;
      }
      ghost var v := va / 4096;
      DirectoryInRange(pool, tables, d, ow);
      var i, j := va / 4096 / 1024, va / 4096 % 1024;
      if !Present(tables[d][i]) {
        NoTable(tables, d, v);
        return false;
      }
      TablesApart(pool, tables, d, ow, i, i);
      TableTaken(pool, tables, d, ow, i);
      var t := FrameOf(tables[d][i]);
      LookupIs(tables, d, v);
      var entry := tables[t][j];
      if !Present(entry) {
        return false;
      }
      ChangePage(pool, tables, d, ow, v, flags == 2);
      tables := SetEntry(tables, t, j, Entry(FrameOf(entry), flags == 2, true));
      ok := true;
    }

    method Protect(d: nat, va: u32, flags: u32, ghost ow: Uses) returns (ok: bool)
      requires Valid() && SpaceOK(pool, tables, d, ow)
      modifies this
      ensures Valid() && SpaceOK(pool, tables, d, ow) && pool == old(pool) && free == old(free)
      ensures ok <==> && va < 0xC000_0000 && va % 4096 == 0 && (flags == 0 || flags == 2)
                      && Lookup(old(tables), d, va / 4096).Mapped? && free > 0
      ensures if ok then
                forall w: nat :: w < 786432 ==>
                  var was := Lookup(old(tables), d, w);
                  Lookup(tables, d, w) == if w == va / 4096 then was.(writable := flags == 2) else was
              else tables == old(tables)
    {
      hide SpaceOK, Lookup, PoolOK;
      if !UserPage(va) || (flags != 0 && flags != 2) {
        return false;
      }
      ghost var p0 := pool;
      var w := OpenWindow();
      if w == 0 {
        return false;
      }
      TakeKeeps(p0, tables, d, ow, w);
      TakeGive(p0, w);
      ok := ProtectInside(d, va, flags, ow);
      GiveKeeps(pool, tables, d, ow, w);
      CloseWindow(w);
    }

    /** Unmaps one page through the windows; a page table that becomes empty is returned to the
        pool, the page itself goes back to the caller. */
    method UnmapInside(d: nat, va: u32, ghost ow: Uses) returns (ok: bool, pa: u32, ghost ow': Uses)
      requires Valid() && SpaceOK(pool, tables, d, ow)
      modifies this
      ensures Valid() && SpaceOK(pool, tables, d, ow')
      ensures ok <==> va < 0xC000_0000 && va % 4096 == 0 && Lookup(old(tables), d, va / 4096).Mapped?
      ensures if ok then
                && pa == 4096 * Lookup(old(tables), d, va / 4096).frame && Taken(pool, pa / 4096) && pa / 4096 in ow
                   && pa / 4096 !in ow'
                && (forall w: nat :: w < 786432 ==>
                   Lookup(tables, d, w) == if w == va / 4096 then Unmapped else Lookup(old(tables), d, w))
                && ow'.Keys <= ow.Keys && free + |ow'| + 1 == old(free) + |ow| && KeepsOthers(old(tables), tables, ow)
                && (forall f :: Taken(old(pool), f) && f !in ow ==> Taken(pool, f))
              else pool == old(pool) && free == old(free) && tables == old(tables) && ow' == ow
    {
      hide SpaceOK, Lookup, TableOf, FrameOf, PoolOK, LastPage;
      ow', pa := ow, 0;
      if va >= 0xC000_0000 || va % 4096 != 0 {
        return false, 0, ow;
      }
      ghost var v := va / 4096;
      DirectoryInRange(pool, tables, d, ow);
      var i, j := va / 4096 / 1024, va / 4096 % 1024;
      if !Present(tables[d][i]) {
        NoTable(tables, d, v);
        return false, 0, ow;
      }
      TablesApart(pool, tables, d, ow, i, i);
      TableTaken(pool, tables, d, ow, i);
      var t := FrameOf(tables[d][i]);
      LookupIs(tables, d, v);
      var entry := tables[t][j];
      if !Present(entry) {
        return false, 0, ow;
      }
      ghost var t0 := tables;
      MappedFrame(pool, tables, d, ow, v);
      tables := SetEntry(tables, t, j, 0);
      var empty := IsEmpty(tables[t]);
      pa := 4096 * FrameOf(entry);
      if empty {
        LastOne(pool, t0, d, ow, v);
        tables := SetEntry(tables, d, i, 0);
        var freed := PmmFree(4096 * t);
        ow' := ow - {t, FrameOf(entry)};
        TwoLess(ow, t, FrameOf(entry));
      } else {
        var k :| 0 <= k < 1024 && Present(tables[t][k]);
        DropPage(pool, t0, d, ow, v, k);
        ow' := ow - {FrameOf(entry)};
      }
      ok := true;
    }

    method Unmap(d: nat, va: u32, ghost ow: Uses) returns (ok: bool, pa: u32, ghost ow': Uses)
      requires Valid() && SpaceOK(pool, tables, d, ow)
      modifies this
      ensures Valid() && SpaceOK(pool, tables, d, ow')
      ensures ok <==> va < 0xC000_0000 && va % 4096 == 0 && Lookup(old(tables), d, va / 4096).Mapped? && old(free) > 0
      ensures if ok then
                && pa == 4096 * Lookup(old(tables), d, va / 4096).frame
                && Taken(pool, pa / 4096) && pa / 4096 in ow && pa / 4096 !in ow'
                && (forall w: nat :: w < 786432 ==>
                      Lookup(tables, d, w) == if w == va / 4096 then Unmapped else Lookup(old(tables), d, w))
                && ow'.Keys <= ow.Keys && free + |ow'| + 1 == old(free) + |ow| && KeepsOthers(old(tables), tables, ow)
              else pool == old(pool) && free == old(free) && tables == old(tables) && ow' == ow
    {
      hide SpaceOK, Lookup, PoolOK, KeepsOthers;
      pa, ow' := 0, ow;
      if !UserPage(va) {
        return false, 0, ow;
      }
      ghost var p0 := pool;
      var w := OpenWindow();
      if w == 0 {
        return false, 0, ow;
      }
      TakeKeeps(p0, tables, d, ow, w);
      TakeGive(p0, w);
      ok, pa, ow' := UnmapInside(d, va, ow);
      GiveKeeps(pool, tables, d, ow', w);
      CloseWindow(w);
    }

    /** What a user address translates to, read through the windows. */
    method QueryInside(d: nat, va: u32, ghost ow: Uses) returns (ok: bool, pa: u32, writable: bool, user: bool)
      requires Valid() && SpaceOK(pool, tables, d, ow)
      ensures ok <==> va < 0xC000_0000 && Lookup(tables, d, va / 4096).Mapped?
      ensures ok ==> && pa == 4096 * Lookup(tables, d, va / 4096).frame + va % 4096
                     && writable == Lookup(tables, d, va / 4096).writable && user
    {
      hide SpaceOK, Lookup, TableOf, PoolOK;
      if va >= 0xC000_0000 {
        return false, 0, false, false;
      }
      ghost var v := va / 4096;
      DirectoryInRange(pool, tables, d, ow);
      var i, j := va / 4096 / 1024, va / 4096 % 1024;
      var pde := tables[d][i];
      if !Present(pde) {
        NoTable(tables, d, v);
        return false, 0, false, false;
      }
      TablesApart(pool, tables, d, ow, i, i);
      TableTaken(pool, tables, d, ow, i);
      LookupIs(tables, d, v);
      var entry := tables[FrameOf(pde)][j];
      if !Present(entry) {
        return false, 0, false, false;
      }
      EntryFlags(pool, tables, d, ow, v);
      return true, 4096 * FrameOf(entry) + va % 4096, Writable(entry) && Writable(pde), User(entry) && User(pde);
    }

    method Query(d: nat, va: u32, ghost ow: Uses) returns (ok: bool, pa: u32, writable: bool, user: bool)
      requires Valid() && SpaceOK(pool, tables, d, ow)
      modifies `pool, `free
      ensures Valid() && pool == old(pool) && free == old(free)
      ensures ok <==> va < 0xC000_0000 && Lookup(tables, d, va / 4096).Mapped? && free > 0
      ensures ok ==> && pa == 4096 * Lookup(tables, d, va / 4096).frame + va % 4096
                     && writable == Lookup(tables, d, va / 4096).writable && user
    {
      hide SpaceOK, Lookup, PoolOK;
      if va >= 0xC000_0000 {
        return false, 0, false, false;
      }
      ghost var p0 := pool;
      var w := OpenWindow();
      if w == 0 {
        return false, 0, false, false;
      }
      TakeKeeps(p0, tables, d, ow, w);
      TakeGive(p0, w);
      ok, pa, writable, user := QueryInside(d, va, ow);
      CloseWindow(w);
    }

    /** Returns the pages of table `i`, which is cleared, and then the table itself. */
    method DestroyTable(d: nat, i: nat, t: nat, ghost p0: Pool, ghost t0: seq<Table>, ghost ow: Uses)
      requires Valid() && SpaceOK(p0, t0, d, ow) && i < 768 && Present(t0[d][i])
      requires t == FrameOf(t0[d][i]) < |tables| == |t0|
      requires pool == GiveAll(p0, Done(ow, i, 0)) && tables[t] == t0[t]
      modifies this
      ensures Valid() && pool == GiveAll(p0, Done(ow, i + 1, 0))
      ensures free == old(free) + |Done(ow, i + 1, 0)| - |Done(ow, i, 0)|
      ensures |tables| == |t0| && forall f :: 0 <= f < |tables| && f != t ==> tables[f] == old(tables)[f]
    {
      hide SpaceOK, Lookup, TableOf, FrameOf, PoolOK, Done, GiveAll;
      DirectoryInRange(p0, t0, d, ow);
      TablesApart(p0, t0, d, ow, i, i);
      TableTaken(p0, t0, d, ow, i);
      for j := 0 to 1024
        invariant Valid() && pool == GiveAll(p0, Done(ow, i, j))
        invariant free == old(free) + |Done(ow, i, j)| - |Done(ow, i, 0)|
        invariant |tables| == |t0| && forall f :: 0 <= f < |tables| && f != t ==> tables[f] == old(tables)[f]
        invariant forall k :: j <= k < 1024 ==> tables[t][k] == t0[t][k]
      {
        DoneStep(p0, t0, d, ow, i, j);
        if Present(tables[t][j]) {
          var frame := FrameOf(tables[t][j]);
          tables := SetEntry(tables, t, j, 0);
          GiveOneMore(p0, Done(ow, i, j), frame);
          var ok := PmmFree(4096 * frame);
        }
      }
      DoneTable(p0, t0, d, ow, i);
      GiveOneMore(p0, Done(ow, i, 1024), t);
      var ok := PmmFree(4096 * t);
    }

    method DestroyTables(d: nat, ghost ow: Uses)
      requires Valid() && SpaceOK(pool, tables, d, ow)
      modifies this
      ensures Valid() && pool == GiveAll(old(pool), Done(ow, 768, 0)) && free == old(free) + |Done(ow, 768, 0)|
      ensures KeepsOthers(old(tables), tables, ow)
    {
      hide SpaceOK, Lookup, TableOf, FrameOf, PoolOK, Done, GiveAll, Remaining, KeepsOthers, FreeFrames, Taken;
      ghost var p0, t0 := pool, tables;
      DirectoryInRange(p0, t0, d, ow);
      NothingDone(p0, ow);
      NothingChanged(t0, d, ow);
      for i := 0 to 768
        invariant Valid() && pool == GiveAll(p0, Done(ow, i, 0)) && free == old(free) + |Done(ow, i, 0)|
        invariant KeepsOthers(t0, tables, ow) && Remaining(t0, tables, d, i)
      {
        RemainingAt(t0, tables, d, ow, i);
        if Present(tables[d][i]) {
          TableTaken(p0, t0, d, ow, i);
          ghost var t1 := tables;
          DestroyTable(d, i, FrameOf(tables[d][i]), p0, t0, ow);
          RemainingStep(p0, t0, d, ow, i, t1, tables);
          tables := SetEntry(tables, d, i, 0);
        } else {
          NothingThere(p0, t0, d, ow, i);
          RemainingSkip(t0, tables, d, i);
        }
      }
    }

    /** Opens the windows, returns all pages and tables, and closes the windows. */
    method ReturnTables(d: nat, ghost ow: Uses) returns (ok: bool)
      requires Valid() && SpaceOK(pool, tables, d, ow)
      modifies this
      ensures Valid() && (ok <==> old(free) > 0)
      ensures if ok then && pool == GiveAll(old(pool), Done(ow, 768, 0)) && free == old(free) + |Done(ow, 768, 0)|
                         && KeepsOthers(old(tables), tables, ow)
              else pool == old(pool) && free == old(free) && tables == old(tables)
    {
      hide SpaceOK, PoolOK, Done, GiveAll, KeepsOthers;
      ghost var p0 := pool;
      var w := OpenWindow();
      if w == 0 {
        return false;
      }
      TakeKeeps(p0, tables, d, ow, w);
      DestroyTables(d, ow);
      DoneOwned(ow, w);
      GiveBack(p0, Done(ow, 768, 0), w);
      CloseWindow(w);
      ok := true;
    }

    /** Returns all frames of a space that is not the active one, if there is one for the window. */
    method Destroy(d: nat, active: nat, ghost ow: Uses) returns (ok: bool)
      requires Valid() && SpaceOK(pool, tables, d, ow)
      modifies this
      ensures Valid() && (ok <==> d != active && old(free) > 0)
      ensures if ok then && pool == GiveAll(old(pool), ow.Keys) && FreeFrames(pool) == FreeFrames(old(pool)) + ow.Keys
                         && free == old(free) + |ow| && KeepsOthers(old(tables), tables, ow)
              else pool == old(pool) && free == old(free) && tables == old(tables)
    {
      hide SpaceOK, PoolOK, Done, GiveAll, KeepsOthers, Taken;
      if d == active {
        return false;
      }
      ghost var p0, t0 := pool, tables;
      DirectoryInRange(p0, t0, d, ow);
      ok := ReturnTables(d, ow);
      if !ok {
        return false;
      }
      AllDone(p0, t0, d, ow);
      GiveOneMore(p0, Done(ow, 768, 0), d);
      var freed := PmmFree(4096 * d);
      forall f | f in ow ensures Taken(p0, f) { OwnedTaken(p0, t0, d, ow, f); }
      GiveAllFrees(p0, ow.Keys);
      ok := true;
    }
  }

  lemma DoneOwned(ow: Uses, w: nat)
    requires w !in ow
    ensures w !in Done(ow, 768, 0)
  {
  }

  lemma NoneFree(p: Pool)
    ensures FreeFrames(p) == {} <==> |FreeFrames(p)| == 0
  {
  }

  lemma StillTaken(p: Pool, q: Pool, w: nat, f: nat)
    requires IsFree(p, w) && Taken(p, f) && w < |q.used|
    requires Taken(Take(p, w), f) ==> Taken(q, f)
    ensures Taken(Give(q, w), f)
  {
  }

  /** A frame taken and returned leaves the pool as it was. */
  lemma TakeGive(p: Pool, w: nat)
    requires IsFree(p, w)
    ensures Give(Take(p, w), w) == p && Taken(Take(p, w), w)
  {
    assert Give(Take(p, w), w).used == p.used;
  }

  lemma GiveBack(p: Pool, fs: set<nat>, w: nat)
    requires PoolOK(p) && IsFree(p, w) && w !in fs
    ensures Taken(GiveAll(Take(p, w), fs), w) && Give(GiveAll(Take(p, w), fs), w) == GiveAll(p, fs)
  {
    assert Give(GiveAll(Take(p, w), fs), w).used == GiveAll(p, fs).used;
  }

  /** What a process may do with its space: map a new page, unmap and free one, change its access. */
  datatype Request = MapNew(va: u32, writable: bool) | UnmapFree(va: u32) | ChangeAccess(va: u32, flags: u32)

  method UseSpace(m: Memory, d: nat, request: Request, ghost ow: Uses) returns (ghost ow': Uses)
    requires m.Valid() && SpaceOK(m.pool, m.tables, d, ow)
    modifies m
    ensures m.Valid() && SpaceOK(m.pool, m.tables, d, ow') && m.free + |ow'| == old(m.free) + |ow|
  {
    hide SpaceOK, Lookup, PoolOK, GiveAll, UserPage, Present;
    ow' := ow;
    match request
    case MapNew(va, writable) =>
      ghost var p0 := m.pool;
      var pa := m.PmmAlloc();
      if pa != 0 {
        TakeKeeps(p0, m.tables, d, ow, pa / 4096);
        var mapped;
        mapped, ow' := m.Map(d, va, pa, writable, ow);
        if !mapped {
          GiveKeeps(m.pool, m.tables, d, ow, pa / 4096);
          var freed := m.PmmFree(pa);
        }
      }
    case UnmapFree(va) =>
      var unmapped, pa;
      unmapped, pa, ow' := m.Unmap(d, va, ow);
      if unmapped {
        GiveKeeps(m.pool, m.tables, d, ow', pa / 4096);
        var freed := m.PmmFree(pa);
      }
    case ChangeAccess(va, flags) =>
      var ok := m.Protect(d, va, flags, ow);
  }

  /** Whatever is done with a space in between, creating and destroying it leaves the pool as it
      was; the space can be destroyed exactly if a frame is left for the window. */
  method CreateUseDestroy(m: Memory, kernel: Table, requests: seq<Request>) returns (created: bool, destroyed: bool)
    requires m.Valid()
    modifies m
    ensures m.Valid() && (created <==> old(m.free) >= 2)
    ensures destroyed ==> created
    ensures destroyed || !created ==> m.free == old(m.free)
    ensures created && !destroyed ==> m.free == 0
  {
    hide SpaceOK, Lookup, PoolOK, GiveAll, UserPage, Present;
    var d;
    destroyed := false;
    created, d := m.Create(kernel);
    if !created {
      return;
    }
    ghost var ow: Uses := map[d := Directory];
    for i := 0 to |requests|
      invariant m.Valid() && SpaceOK(m.pool, m.tables, d, ow) && m.free + |ow| == old(m.free)
    {
      ow := UseSpace(m, d, requests[i], ow);
    }
    DirectoryNotZero(m.pool, m.tables, d, ow);
    destroyed := m.Destroy(d, 0, ow);
  }

  lemma TakeKeeps(pool: Pool, tables: seq<Table>, d: nat, ow: Uses, f: nat)
    requires SpaceOK(pool, tables, d, ow) && IsFree(pool, f)
    ensures f !in ow && Taken(Take(pool, f), f) && SpaceOK(Take(pool, f), tables, d, ow)
  {
    OwnedTaken(pool, tables, d, ow, f);
    TakeCount(pool, f);
    forall g | g in ow ensures Taken(Take(pool, f), g) { OwnedTaken(pool, tables, d, ow, g); }
    OtherSpaceKept(pool, tables, d, ow, Take(pool, f), tables, map[]);
  }

  lemma GiveKeeps(pool: Pool, tables: seq<Table>, d: nat, ow: Uses, f: nat)
    requires SpaceOK(pool, tables, d, ow) && Taken(pool, f) && f !in ow
    ensures SpaceOK(Give(pool, f), tables, d, ow)
  {
    GiveCount(pool, f);
    forall g | g in ow ensures Taken(Give(pool, f), g) { OwnedTaken(pool, tables, d, ow, g); }
    OtherSpaceKept(pool, tables, d, ow, Give(pool, f), tables, map[]);
  }

  lemma DirectoryNotZero(pool: Pool, tables: seq<Table>, d: nat, ow: Uses)
    requires SpaceOK(pool, tables, d, ow)
    ensures d > 0
  {
    DirectoryInRange(pool, tables, d, ow);
  }

  // ---------- destroying a space ----------

  /** Directory entries from `i` on, and their tables, are still as they were. */
  ghost predicate Remaining(t0: seq<Table>, tables: seq<Table>, d: nat, i: nat) {
    && d < |t0| == |tables| && (forall k :: i <= k < 768 ==> tables[d][k] == t0[d][k])
    && forall k :: i <= k < 768 && Present(t0[d][k]) && FrameOf(t0[d][k]) < |t0| ==>
       tables[FrameOf(t0[d][k])] == t0[FrameOf(t0[d][k])]
  }

  lemma NothingChanged(t0: seq<Table>, d: nat, ow: Uses)
    requires d < |t0|
    ensures Remaining(t0, t0, d, 0) && KeepsOthers(t0, t0, ow)
  {
  }

  lemma RemainingAt(t0: seq<Table>, tables: seq<Table>, d: nat, ow: Uses, i: nat)
    requires Remaining(t0, tables, d, i) && KeepsOthers(t0, tables, ow) && i < 768
    ensures d < |tables| == |t0| && tables[d][i] == t0[d][i]
    ensures Present(t0[d][i]) && FrameOf(t0[d][i]) < |t0| ==> tables[FrameOf(t0[d][i])] == t0[FrameOf(t0[d][i])]
  {
  }

  lemma RemainingSkip(t0: seq<Table>, tables: seq<Table>, d: nat, i: nat)
    requires Remaining(t0, tables, d, i)
    ensures Remaining(t0, tables, d, i + 1)
  {
  }

  lemma RemainingStep(pool: Pool, t0: seq<Table>, d: nat, ow: Uses, i: nat, t1: seq<Table>, t2: seq<Table>)
    requires SpaceOK(pool, t0, d, ow) && i < 768 && Present(t0[d][i]) && Remaining(t0, t1, d, i)
    requires KeepsOthers(t0, t1, ow)
    requires |t2| == |t1| && forall f :: 0 <= f < |t1| && f != FrameOf(t0[d][i]) ==> t2[f] == t1[f]
    ensures Remaining(t0, SetEntry(t2, d, i, 0), d, i + 1) && KeepsOthers(t0, SetEntry(t2, d, i, 0), ow)
  {
    hide SpaceOK, FrameOf;
    DirectoryInRange(pool, t0, d, ow);
    TablesApart(pool, t0, d, ow, i, i);
    forall k | i < k < 768 && Present(t0[d][k])
      ensures FrameOf(t0[d][k]) != FrameOf(t0[d][i]) && FrameOf(t0[d][k]) != d {
      TablesApart(pool, t0, d, ow, k, i);
    }
  }

  predicate UseDone(u: Use, i: nat, j: nat) {
    match u
    case Directory => false
    case PageTable(k) => k < i
    case Page(v) => v < 1024 * i + j
  }

  /** The frames of tables and pages before entry `j` of table `i`. */
  ghost function Done(ow: Uses, i: nat, j: nat): (fs: set<nat>) {
    set f | f in ow && UseDone(ow[f], i, j)
  }

  lemma NothingDone(p: Pool, ow: Uses)
    ensures Done(ow, 0, 0) == {} && GiveAll(p, Done(ow, 0, 0)) == p
  {
    assert Done(ow, 0, 0) == {};
    GiveNone(p);
  }

  lemma DoneStep(pool: Pool, tables: seq<Table>, d: nat, ow: Uses, i: nat, j: nat)
    requires SpaceOK(pool, tables, d, ow) && i < 768 && j < 1024 && Present(tables[d][i])
    ensures TableOf(tables, d, i) == FrameOf(tables[d][i])
    ensures var e := tables[TableOf(tables, d, i)][j];
            if Present(e) then && FrameOf(e) in ow && Taken(pool, FrameOf(e)) && FrameOf(e) !in Done(ow, i, j)
                               && Done(ow, i, j + 1) == Done(ow, i, j) + {FrameOf(e)}
                                  && |Done(ow, i, j + 1)| == |Done(ow, i, j)| + 1
            else Done(ow, i, j + 1) == Done(ow, i, j)
  {
    hide FrameOf, Writable;
    var v := 1024 * i + j;
    assert v / 1024 == i && v % 1024 == j;
    TablesApart(pool, tables, d, ow, i, i);
    assert PageFine(tables, d, ow, v);
    var e := tables[TableOf(tables, d, i)][j];
    forall f | f in ow && ow[f] == Page(v)
      ensures Present(e) && f == FrameOf(e) { assert UseFine(pool, tables, d, ow, f); }
    if Present(e) {
      OwnedTaken(pool, tables, d, ow, FrameOf(e));
      assert Done(ow, i, j + 1) == Done(ow, i, j) + {FrameOf(e)};
    } else {
      assert Done(ow, i, j + 1) == Done(ow, i, j);
    }
  }

  lemma DoneTable(pool: Pool, tables: seq<Table>, d: nat, ow: Uses, i: nat)
    requires SpaceOK(pool, tables, d, ow) && i < 768 && Present(tables[d][i])
    ensures var t := FrameOf(tables[d][i]);
            && t in ow && t !in Done(ow, i, 1024) && Done(ow, i + 1, 0) == Done(ow, i, 1024) + {t}
            && |Done(ow, i + 1, 0)| == |Done(ow, i, 1024)| + 1
  {
    hide Lookup, Writable;
    TablesApart(pool, tables, d, ow, i, i);
    var t := FrameOf(tables[d][i]);
    forall f | f in ow && ow[f] == PageTable(i) ensures f == t { assert UseFine(pool, tables, d, ow, f); }
    assert Done(ow, i + 1, 0) == Done(ow, i, 1024) + {t};
  }

  lemma NothingThere(pool: Pool, tables: seq<Table>, d: nat, ow: Uses, i: nat)
    requires SpaceOK(pool, tables, d, ow) && i < 768 && !Present(tables[d][i])
    ensures Done(ow, i + 1, 0) == Done(ow, i, 0)
  {
    forall f | f in ow ensures UseDone(ow[f], i + 1, 0) == UseDone(ow[f], i, 0) {
      assert UseFine(pool, tables, d, ow, f);
    }
  }

  lemma AllDone(pool: Pool, tables: seq<Table>, d: nat, ow: Uses)
    requires SpaceOK(pool, tables, d, ow)
    ensures d !in Done(ow, 768, 0) && ow.Keys == Done(ow, 768, 0) + {d} && |ow| == |Done(ow, 768, 0)| + 1
  {
    forall f | f in ow && f != d ensures f in Done(ow, 768, 0) { assert UseFine(pool, tables, d, ow, f); }
    assert ow.Keys == Done(ow, 768, 0) + {d};
    assert |ow.Keys| == |ow|;
  }

  method IsEmpty(t: Table) returns (empty: bool)
    ensures empty <==> forall k :: 0 <= k < 1024 ==> !Present(t[k])
  {
    for index := 0 to 1024
      invariant forall k :: 0 <= k < index ==> !Present(t[k])
    {
      if Present(t[index]) {
        return false;
      }
    }
    return true;
  }

  lemma MappedFrame(pool: Pool, tables: seq<Table>, d: nat, ow: Uses, v: nat)
    requires SpaceOK(pool, tables, d, ow) && v < 786432 && Lookup(tables, d, v).Mapped?
    ensures var f := Lookup(tables, d, v).frame; f in ow && ow[f] == Page(v) && Taken(pool, f) && f < 0x10_0000
  {
    assert PageFine(tables, d, ow, v);
    OwnedTaken(pool, tables, d, ow, Lookup(tables, d, v).frame);
  }

  lemma EntryFlags(pool: Pool, tables: seq<Table>, d: nat, ow: Uses, v: nat)
    requires SpaceOK(pool, tables, d, ow) && v < 786432 && Lookup(tables, d, v).Mapped?
    ensures var pde, pte := tables[d][v / 1024], tables[TableOf(tables, d, v / 1024)][v % 1024];
            Writable(pde) && User(pde) && User(pte) && Writable(pte) == Lookup(tables, d, v).writable
  {
    assert PageFine(tables, d, ow, v) && TableFine(pool, tables, d, ow, v / 1024);
  }

  lemma OnlyPage(pool: Pool, tables: seq<Table>, d: nat, ow: Uses, v: nat)
    requires SpaceOK(pool, tables, d, ow) && v < 786432 && Lookup(tables, d, v).Mapped?
    ensures forall g :: g in ow && ow[g] == Page(v) ==> g == Lookup(tables, d, v).frame
  {
    forall g | g in ow && ow[g] == Page(v)
      ensures g == Lookup(tables, d, v).frame { assert UseFine(pool, tables, d, ow, g); }
  }

  lemma ChangePage(pool: Pool, tables: seq<Table>, d: nat, ow: Uses, v: nat, writable: bool)
    requires SpaceOK(pool, tables, d, ow) && v < 786432 && Lookup(tables, d, v).Mapped?
    ensures Lookup(tables, d, v).frame < 0x10_0000
    ensures var r := SetEntry(tables, TableOf(tables, d, v / 1024), v % 1024,
        Entry(Lookup(tables, d, v).frame, writable, true));
            && SpaceOK(pool, r, d, ow)
            && forall w: nat :: w < 786432 ==>
                 Lookup(r, d, w) == if w == v then Lookup(tables, d, v).(writable := writable) else Lookup(tables, d, w)
  {
    hide TableOf, FrameOf, Entry, SpaceOK, Lookup;
    DirectoryInRange(pool, tables, d, ow);
    MappedFrame(pool, tables, d, ow, v);
    OnlyPage(pool, tables, d, ow, v);
    HasTable(pool, tables, d, ow, v);
    var f := Lookup(tables, d, v).frame;
    EntryParts(f, writable, true);
    var e := Entry(f, writable, true);
    EntryWritten(pool, tables, d, ow, v, e, ow);
    var r := SetEntry(tables, TableOf(tables, d, v / 1024), v % 1024, e);
    forall w: nat | w < 786432
      ensures Lookup(r, d, w) == if w == v then Lookup(tables, d, v).(writable := writable) else Lookup(tables, d, w) {
      LookupAfter(pool, tables, d, ow, v, e, w);
    }
  }

  lemma HasTable(pool: Pool, tables: seq<Table>, d: nat, ow: Uses, v: nat)
    requires SpaceOK(pool, tables, d, ow) && v < 786432 && Lookup(tables, d, v).Mapped?
    ensures Present(tables[d][v / 1024])
  {
  }

  lemma DropPage(pool: Pool, tables: seq<Table>, d: nat, ow: Uses, v: nat, k: nat)
    requires SpaceOK(pool, tables, d, ow) && v < 786432 && Lookup(tables, d, v).Mapped? && k < 1024
    requires Present(SetEntry(tables, TableOf(tables, d, v / 1024), v % 1024, 0)[TableOf(tables, d, v / 1024)][k])
    ensures var r, f := SetEntry(tables, TableOf(tables, d, v / 1024), v % 1024, 0), Lookup(tables, d, v).frame;
            && SpaceOK(pool, r, d, ow - {f}) && |ow - {f}| + 1 == |ow|
            && forall w: nat :: w < 786432 ==> Lookup(r, d, w) == if w == v then Unmapped else Lookup(tables, d, w)
  {
    hide TableOf, FrameOf, SpaceOK, Lookup;
    DirectoryInRange(pool, tables, d, ow);
    MappedFrame(pool, tables, d, ow, v);
    OnlyPage(pool, tables, d, ow, v);
    HasTable(pool, tables, d, ow, v);
    var t, f := TableOf(tables, d, v / 1024), Lookup(tables, d, v).frame;
    assert k != v % 1024 && Present(tables[t][k]);
    OneLess(ow, f);
    EntryWritten(pool, tables, d, ow, v, 0, ow - {f});
    var r := SetEntry(tables, t, v % 1024, 0);
    forall w: nat | w < 786432 ensures Lookup(r, d, w) == if w == v then Unmapped else Lookup(tables, d, w) {
      LookupAfter(pool, tables, d, ow, v, 0, w);
    }
  }

  lemma OneLess(ow: Uses, f: nat)
    requires f in ow
    ensures |ow - {f}| + 1 == |ow|
  {
    assert (ow - {f}).Keys == ow.Keys - {f};
    assert |ow.Keys| == |ow| && |(ow - {f}).Keys| == |ow - {f}|;
  }

  lemma TwoLess(ow: Uses, t: nat, f: nat)
    requires t in ow && f in ow && t != f
    ensures |ow - {t, f}| + 2 == |ow|
  {
    assert (ow - {t, f}).Keys == ow.Keys - {t} - {f};
    assert |ow.Keys| == |ow| && |(ow - {t, f}).Keys| == |ow - {t, f}|;
  }

  lemma LastOne(pool: Pool, tables: seq<Table>, d: nat, ow: Uses, v: nat)
    requires SpaceOK(pool, tables, d, ow) && v < 786432 && Lookup(tables, d, v).Mapped?
    requires var t := TableOf(tables, d, v / 1024);
             forall k :: 0 <= k < 1024 ==> !Present(SetEntry(tables, t, v % 1024, 0)[t][k])
    ensures var t, f := TableOf(tables, d, v / 1024), Lookup(tables, d, v).frame;
            var r := WithoutTable(tables, d, v / 1024, t, v % 1024);
            && t in ow && f in ow && t != f && Taken(pool, t) && Taken(pool, f)
            && SpaceOK(Give(pool, t), r, d, ow - {t, f})
            && forall w: nat :: w < 786432 ==> Lookup(r, d, w) == if w == v then Unmapped else Lookup(tables, d, w)
  {
    hide FrameOf, SpaceOK, Lookup;
    DirectoryInRange(pool, tables, d, ow);
    var t, f := TableOf(tables, d, v / 1024), Lookup(tables, d, v).frame;
    var s := SetEntry(tables, t, v % 1024, 0);
    forall k | 0 <= k < 1024 && k != v % 1024 ensures !Present(tables[t][k]) { assert s[t][k] == tables[t][k]; }
    assert LastPage(pool, tables, d, ow, v);
    MappedFrame(pool, tables, d, ow, v);
    TableRemoved(pool, tables, d, ow, v);
    var r := WithoutTable(tables, d, v / 1024, t, v % 1024);
    forall w: nat | w < 786432 ensures Lookup(r, d, w) == if w == v then Unmapped else Lookup(tables, d, w) {
      LastPageLookup(pool, tables, d, ow, v, w);
    }
  }

  lemma EmptySpace(pool: Pool, tables: seq<Table>, d: nat)
    requires PoolOK(pool) && |tables| == |pool.used| && Taken(pool, d)
    requires forall k :: 0 <= k < 768 ==> tables[d][k] == 0
    ensures SpaceOK(pool, tables, d, map[d := Directory])
    ensures forall v: nat :: v < 786432 ==> Lookup(tables, d, v) == Unmapped
  {
    var ow: Uses := map[d := Directory];
    forall i | 0 <= i < 768 ensures TableFine(pool, tables, d, ow, i) { }
    forall v: nat | v < 786432 ensures Lookup(tables, d, v) == Unmapped && PageFine(tables, d, ow, v) { }
    forall f | f in ow ensures UseFine(pool, tables, d, ow, f) { }
  }

  lemma DirectoryInRange(pool: Pool, tables: seq<Table>, d: nat, ow: Uses)
    requires SpaceOK(pool, tables, d, ow)
    ensures PoolOK(pool) && d < |tables| == |pool.used| <= 0x10_0000 && Taken(pool, d) && d in ow
  {
    OwnedTaken(pool, tables, d, ow, d);
  }

  lemma NoTable(tables: seq<Table>, d: nat, v: nat)
    requires d < |tables| && v < 786432 && !Present(tables[d][v / 1024])
    ensures Lookup(tables, d, v) == Unmapped
  {
  }

  lemma LookupIs(tables: seq<Table>, d: nat, v: nat)
    requires d < |tables| && v < 786432 && TableOf(tables, d, v / 1024) != 0
    ensures var e := tables[TableOf(tables, d, v / 1024)][v % 1024];
            Lookup(tables, d, v) == if Present(e) then Mapped(FrameOf(e), Writable(e)) else Unmapped
  {
  }

  lemma FreshTableEmpty(tables: seq<Table>, d: nat, i: nat, t: nat, j: nat)
    requires d < |tables| && i < 1024 && t < |tables| && t < 0x10_0000 && j < 1024 && t != d
    ensures !Present(SetEntry(tables[t := ZeroTable()], d, i, Entry(t, true, true))[t][j])
  {
  }

  lemma TwoMore(ow: Uses, t: nat, f: nat, i: nat, v: nat)
    requires t !in ow && f !in ow && t != f
    ensures |ow[t := PageTable(i)][f := Page(v)]| == |ow| + 2
  {
    var a := ow[t := PageTable(i)];
    assert a.Keys == ow.Keys + {t} && a[f := Page(v)].Keys == a.Keys + {f};
    assert |a.Keys| == |a| && |ow.Keys| == |ow| && |a[f := Page(v)].Keys| == |a[f := Page(v)]|;
  }

  lemma OneMore(ow: Uses, f: nat, u: Use)
    requires f !in ow
    ensures |ow[f := u]| == |ow| + 1
  {
    assert ow[f := u].Keys == ow.Keys + {f};
    assert |ow.Keys| == |ow| && |ow[f := u].Keys| == |ow[f := u]|;
  }

  lemma TableTaken(pool: Pool, tables: seq<Table>, d: nat, ow: Uses, i: nat)
    requires SpaceOK(pool, tables, d, ow) && i < 768 && Present(tables[d][i])
    ensures Taken(pool, FrameOf(tables[d][i])) && FrameOf(tables[d][i]) < |tables|
  {
    assert TableFine(pool, tables, d, ow, i);
  }

  /** A page is put into an existing table. */
  lemma PutPage(pool: Pool, tables: seq<Table>, d: nat, ow: Uses, v: nat, f: nat, writable: bool)
    requires SpaceOK(pool, tables, d, ow) && v < 786432 && Present(tables[d][v / 1024])
    requires Lookup(tables, d, v) == Unmapped
    requires Taken(pool, f) && f !in ow
    ensures f < 0x10_0000
    ensures var r := SetEntry(tables, TableOf(tables, d, v / 1024), v % 1024, Entry(f, writable, true));
            && SpaceOK(pool, r, d, ow[f := Page(v)]) && |ow[f := Page(v)]| == |ow| + 1
            && forall w: nat :: w < 786432 ==>
               Lookup(r, d, w) == if w == v then Mapped(f, writable) else Lookup(tables, d, w)
  {
    hide Lookup, TableOf, FrameOf, Entry;
    DirectoryInRange(pool, tables, d, ow);
    EntryParts(f, writable, true);
    var e := Entry(f, writable, true);
    forall g | g in ow ensures ow[g] != Page(v) { assert UseFine(pool, tables, d, ow, g); }
    OneMore(ow, f, Page(v));
    EntryWritten(pool, tables, d, ow, v, e, ow[f := Page(v)]);
    var r := SetEntry(tables, TableOf(tables, d, v / 1024), v % 1024, e);
    forall w: nat | w < 786432 ensures Lookup(r, d, w) == if w == v then Mapped(f, writable) else Lookup(tables, d, w) {
      LookupAfter(pool, tables, d, ow, v, e, w);
    }
  }
}
