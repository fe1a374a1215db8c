/** Two-level page tables of a user address space, and who owns which frame. */
module Paging {
  import opened Bytes
  import opened Frames

  type Table = t: seq<u32> | |t| == 1024 witness seq(1024, _ => 0)

  function ZeroTable(): (t: Table)
    ensures forall j :: 0 <= j < 1024 ==> t[j] == 0
  {
    seq(1024, _ => 0)
  }

  // ---------- entries ----------

  function Entry(frame: nat, writable: bool, user: bool): (e: u32)
    requires frame < 0x10_0000
  {
    4096 * frame + 1 + (if writable then 2 else 0) + (if user then 4 else 0)
  }

  predicate Present(e: u32) { e % 2 == 1 }

  predicate Writable(e: u32) { e / 2 % 2 == 1 }

  predicate User(e: u32) { e / 4 % 2 == 1 }

  function FrameOf(e: u32): (f: nat) { e / 4096 }

  lemma EntryParts(frame: nat, writable: bool, user: bool)
    requires frame < 0x10_0000
    ensures var e := Entry(frame, writable, user);
            Present(e) && Writable(e) == writable && User(e) == user && FrameOf(e) == frame
  {
  }

  // ---------- what a space maps ----------

  datatype Mapping = Unmapped | Mapped(frame: nat, writable: bool)

  /** The table that maps page `v`; 0 if there is none. */
  function TableOf(tables: seq<Table>, d: nat, i: nat): (t: nat)
    requires d < |tables| && i < 1024
    ensures t < |tables|
  {
    if Present(tables[d][i]) && FrameOf(tables[d][i]) < |tables| then FrameOf(tables[d][i]) else 0
  }

  function Lookup(tables: seq<Table>, d: nat, v: nat): (m: Mapping)
    requires d < |tables| && v < 786432
  {
    var t := TableOf(tables, d, v / 1024);
    var e := tables[t][v % 1024];
    if t != 0 && Present(e) then Mapped(FrameOf(e), Writable(e)) else Unmapped
  }

  // ---------- ownership ----------

  /** What a frame is used for in an address space. */
  datatype Use = Directory | PageTable(i: nat) | Page(v: nat)

  type Uses = map<nat, Use>

  ghost predicate TableFine(pool: Pool, tables: seq<Table>, d: nat, ow: Uses, i: nat)
    requires d < |tables| && i < 768
  {
    Present(tables[d][i]) ==>
      var t := FrameOf(tables[d][i]);
      && Taken(pool, t) && t < |tables| && t in ow && ow[t] == PageTable(i)
      && Writable(tables[d][i]) && User(tables[d][i])
      && exists j :: 0 <= j < 1024 && Present(tables[t][j])
  }

  ghost predicate PageFine(tables: seq<Table>, d: nat, ow: Uses, v: nat)
    requires d < |tables| && v < 786432
  {
    var m := Lookup(tables, d, v);
    m.Mapped? ==> m.frame in ow && ow[m.frame] == Page(v) && User(tables[TableOf(tables, d, v / 1024)][v % 1024])
  }

  ghost predicate UseFine(pool: Pool, tables: seq<Table>, d: nat, ow: Uses, f: nat)
    requires d < |tables| && f in ow
  {
    && Taken(pool, f)
    && match ow[f]
       case Directory => f == d
       case PageTable(i) => i < 768 && TableOf(tables, d, i) == f
       case Page(v) => v < 786432 && Lookup(tables, d, v).Mapped? && Lookup(tables, d, v).frame == f
  }

  /** The frames in `ow` are exactly those of the space with directory `d`; each has one use, and
      no page table is empty. */
  ghost predicate SpaceOK(pool: Pool, tables: seq<Table>, d: nat, ow: Uses) {
    && PoolOK(pool) && |tables| == |pool.used| && d < |tables| && d in ow && ow[d] == Directory
    && (forall i {:trigger TableFine(pool, tables, d, ow, i)} :: 0 <= i < 768 ==> TableFine(pool, tables, d, ow, i))
    && (forall v {:trigger PageFine(tables, d, ow, v)} :: 0 <= v < 786432 ==> PageFine(tables, d, ow, v))
    && (forall f {:trigger UseFine(pool, tables, d, ow, f)} :: f in ow ==> UseFine(pool, tables, d, ow, f))
  }

  /** What the processor finds: bit 0 of an entry says present, bit 1 writable, bit 2 user, and the
      upper 20 bits are the frame. Directory entries of the user half allow everything, so the
      entries of the page tables decide. */
  lemma ProcessorWalk(pool: Pool, tables: seq<Table>, d: nat, ow: Uses, v: nat)
    requires SpaceOK(pool, tables, d, ow) && v < 786432
    ensures var pde := tables[d][v / 1024];
            match Lookup(tables, d, v)
            case Unmapped => pde % 2 == 0 || (pde / 4096 < |tables| && tables[pde / 4096][v % 1024] % 2 == 0)
            case Mapped(frame, writable) =>
              && pde % 8 == 7 && pde / 4096 < |tables|
              && var pte := tables[pde / 4096][v % 1024];
                 pte % 8 == (if writable then 7 else 5) && frame == pte / 4096
  {
    hide Present, Writable, User, FrameOf;
    assert TableFine(pool, tables, d, ow, v / 1024) && PageFine(tables, d, ow, v);
    var pde := tables[d][v / 1024];
    EntryBits(pde);
    if Present(pde) { EntryBits(tables[FrameOf(pde)][v % 1024]); }
  }

  lemma EntryBits(e: u32)
    ensures Present(e) <==> e % 2 == 1
    ensures Present(e) && User(e) ==> e % 8 == if Writable(e) then 7 else 5
    ensures FrameOf(e) == e / 4096
  {
    Assemble(e, e / 2, e / 4, e / 8, e % 2, e / 2 % 2, e / 4 % 2);
    Rest(e, e / 8, 4 * (e / 4 % 2) + 2 * (e / 2 % 2) + e % 2);
  }

  lemma Assemble(e: nat, h: nat, q: nat, o: nat, x: nat, y: nat, z: nat)
    requires e == 2 * h + x && h == 2 * q + y && q == 2 * o + z
    ensures e == 8 * o + (4 * z + 2 * y + x)
  {
  }

  lemma Rest(e: nat, o: nat, r: nat)
    requires e == 8 * o + r && r < 8
    ensures e % 8 == r
  {
  }

  // ---------- one entry changes ----------

  function SetEntry(tables: seq<Table>, t: nat, j: nat, e: u32): (r: seq<Table>)
    requires t < |tables| && j < 1024
    ensures |r| == |tables|
  {
    tables[t := tables[t][j := e]]
  }

  /** Tables of a space differ from its directory and from one another. */
  lemma TablesApart(pool: Pool, tables: seq<Table>, d: nat, ow: Uses, i: nat, k: nat)
    requires SpaceOK(pool, tables, d, ow) && i < 768 && k < 768 && Present(tables[d][i])
    ensures TableOf(tables, d, i) == FrameOf(tables[d][i]) != 0 && TableOf(tables, d, i) != d
    ensures TableOf(tables, d, k) == TableOf(tables, d, i) ==> k == i
    ensures TableOf(tables, d, i) in ow && ow[TableOf(tables, d, i)] == PageTable(i)
  {
    assert TableFine(pool, tables, d, ow, i) && TableFine(pool, tables, d, ow, k);
  }

  /** Writing one entry of one table changes the mapping of one page. */
  lemma LookupAfter(pool: Pool, tables: seq<Table>, d: nat, ow: Uses, v: nat, e: u32, w: nat)
    requires SpaceOK(pool, tables, d, ow) && v < 786432 && w < 786432 && Present(tables[d][v / 1024])
    ensures var t := TableOf(tables, d, v / 1024);
            Lookup(SetEntry(tables, t, v % 1024, e), d, w) ==
              if w == v then (if Present(e) then Mapped(FrameOf(e), Writable(e)) else Unmapped)
              else Lookup(tables, d, w)
    ensures TableOf(SetEntry(tables, TableOf(tables, d, v / 1024), v % 1024, e), d, w / 1024) ==
        TableOf(tables, d, w / 1024)
  {
    TablesApart(pool, tables, d, ow, v / 1024, w / 1024);
    assert v == v / 1024 * 1024 + v % 1024 && w == w / 1024 * 1024 + w % 1024;
  }

  /** A page table entry is written: the space stays in order if the new ownership accounts for it. */
  lemma EntryWritten(pool: Pool, tables: seq<Table>, d: nat, ow: Uses, v: nat, e: u32, ow': Uses)
    requires SpaceOK(pool, tables, d, ow) && v < 786432 && Present(tables[d][v / 1024])
    requires Present(e) ==> Taken(pool, FrameOf(e)) && FrameOf(e) in ow' && ow'[FrameOf(e)] == Page(v) && User(e)
    requires forall f :: f in ow' ==>
        (f in ow && ow'[f] == ow[f] && ow[f] != Page(v)) || (Present(e) && f == FrameOf(e) && ow'[f] == Page(v))
    requires forall f :: f in ow && ow[f] != Page(v) ==> f in ow' && ow'[f] == ow[f]
    requires Present(e) ||
             exists j :: 0 <= j < 1024 && j != v % 1024 && Present(tables[TableOf(tables, d, v / 1024)][j])
    ensures SpaceOK(pool, SetEntry(tables, TableOf(tables, d, v / 1024), v % 1024, e), d, ow')
  {
    hide Present, Writable, User, FrameOf, TableOf, Lookup, PoolOK, Taken;
    var t := TableOf(tables, d, v / 1024);
    var r := SetEntry(tables, t, v % 1024, e);
    TablesApart(pool, tables, d, ow, v / 1024, v / 1024);
    forall i | 0 <= i < 768 ensures TableFine(pool, r, d, ow', i) { TableKept(pool, tables, d, ow, v, e, ow', i); }
    forall w | 0 <= w < 786432 ensures PageFine(r, d, ow', w) {
      assert PageFine(tables, d, ow, w);
      LookupAfter(pool, tables, d, ow, v, e, w);
      if Lookup(tables, d, w).Mapped? || w == v { EntryAt(pool, tables, d, ow, v, e, w); }
    }
    forall f | f in ow' ensures UseFine(pool, r, d, ow', f) { UseKept(pool, tables, d, ow, v, e, ow', f); }
  }

  lemma EntryAt(pool: Pool, tables: seq<Table>, d: nat, ow: Uses, v: nat, e: u32, w: nat)
    requires SpaceOK(pool, tables, d, ow) && v < 786432 && w < 786432 && Present(tables[d][v / 1024])
    requires Lookup(tables, d, w).Mapped? || w == v
    ensures var t, u := TableOf(tables, d, v / 1024), TableOf(tables, d, w / 1024);
            SetEntry(tables, t, v % 1024, e)[u][w % 1024] == if w == v then e else tables[u][w % 1024]
  {
    TablesApart(pool, tables, d, ow, v / 1024, w / 1024);
    assert v == v / 1024 * 1024 + v % 1024 && w == w / 1024 * 1024 + w % 1024;
  }

  lemma TableKept(pool: Pool, tables: seq<Table>, d: nat, ow: Uses, v: nat, e: u32, ow': Uses, i: nat)
    requires SpaceOK(pool, tables, d, ow) && v < 786432 && Present(tables[d][v / 1024]) && i < 768
    requires forall f :: f in ow && ow[f] != Page(v) ==> f in ow' && ow'[f] == ow[f]
    requires Present(e) ||
             exists j :: 0 <= j < 1024 && j != v % 1024 && Present(tables[TableOf(tables, d, v / 1024)][j])
    ensures TableFine(pool, SetEntry(tables, TableOf(tables, d, v / 1024), v % 1024, e), d, ow', i)
  {
    hide Writable, User, FrameOf, PoolOK, Taken;
    var t := TableOf(tables, d, v / 1024);
    var r := SetEntry(tables, t, v % 1024, e);
    assert TableFine(pool, tables, d, ow, i);
    TablesApart(pool, tables, d, ow, v / 1024, i);
    if Present(tables[d][i]) {
      var u := FrameOf(tables[d][i]);
      TablesApart(pool, tables, d, ow, i, v / 1024);
      if u == t {
        var j := if Present(e) then v % 1024 else var j :| 0 <= j < 1024 && j != v % 1024 && Present(tables[t][j]); j;
        assert Present(r[u][j]);
      } else {
        var j :| 0 <= j < 1024 && Present(tables[u][j]);
        assert Present(r[u][j]);
      }
    }
  }

  lemma UseKept(pool: Pool, tables: seq<Table>, d: nat, ow: Uses, v: nat, e: u32, ow': Uses, f: nat)
    requires SpaceOK(pool, tables, d, ow) && v < 786432 && Present(tables[d][v / 1024]) && f in ow'
    requires Present(e) ==> Taken(pool, FrameOf(e))
    requires (f in ow && ow'[f] == ow[f] && ow[f] != Page(v)) || (Present(e) && f == FrameOf(e) && ow'[f] == Page(v))
    ensures UseFine(pool, SetEntry(tables, TableOf(tables, d, v / 1024), v % 1024, e), d, ow', f)
  {
    hide Present, Writable, User, FrameOf, PoolOK, Taken, Lookup;
    TablesApart(pool, tables, d, ow, v / 1024, v / 1024);
    if f in ow && ow'[f] == ow[f] && ow[f] != Page(v) {
      assert UseFine(pool, tables, d, ow, f);
      match ow[f]
      case Directory =>
      case PageTable(i) => DirectoryKept(pool, tables, d, ow, v, e, i);
      case Page(w) => LookupAfter(pool, tables, d, ow, v, e, w);
    } else {
      LookupAfter(pool, tables, d, ow, v, e, v);
    }
  }

  lemma DirectoryKept(pool: Pool, tables: seq<Table>, d: nat, ow: Uses, v: nat, e: u32, i: nat)
    requires SpaceOK(pool, tables, d, ow) && v < 786432 && Present(tables[d][v / 1024]) && i < 768
    ensures TableOf(SetEntry(tables, TableOf(tables, d, v / 1024), v % 1024, e), d, i) == TableOf(tables, d, i)
  {
    TablesApart(pool, tables, d, ow, v / 1024, i);
  }

  // ---------- tables come and go ----------

  /** The tables after frame `t` became the table for directory entry `i`, with one entry. */
  function WithTable(tables: seq<Table>, d: nat, i: nat, t: nat, j: nat, e: u32): (r: seq<Table>)
    requires d < |tables| && i < 1024 && t < |tables| && t < 0x10_0000 && j < 1024
  {
    SetEntry(SetEntry(tables[t := ZeroTable()], d, i, Entry(t, true, true)), t, j, e)
  }

  ghost predicate CanAddTable(pool: Pool, tables: seq<Table>, d: nat, ow: Uses, v: nat, t: nat, f: nat) {
    && SpaceOK(pool, tables, d, ow) && v < 786432 && !Present(tables[d][v / 1024])
    && IsFree(pool, t) && Taken(pool, f) && f !in ow
  }

  lemma OwnedTaken(pool: Pool, tables: seq<Table>, d: nat, ow: Uses, f: nat)
    requires SpaceOK(pool, tables, d, ow)
    ensures f in ow ==> Taken(pool, f)
  {
    assert f in ow ==> UseFine(pool, tables, d, ow, f);
  }

  lemma WithTableLookup(pool: Pool, tables: seq<Table>, d: nat, ow: Uses, v: nat, t: nat, f: nat, writable: bool,
                        w: nat)
    requires CanAddTable(pool, tables, d, ow, v, t, f) && w < 786432
    ensures t != d && t !in ow && t != f && Lookup(tables, d, v) == Unmapped
    ensures var r := WithTable(tables, d, v / 1024, t, v % 1024, Entry(f, writable, true));
            && Lookup(r, d, w) == (if w == v then Mapped(f, writable) else Lookup(tables, d, w))
            && TableOf(r, d, w / 1024) == (if w / 1024 == v / 1024 then t else TableOf(tables, d, w / 1024))
            && (Lookup(tables, d, w).Mapped? ==> r[TableOf(r, d, w / 1024)] == tables[TableOf(tables, d, w / 1024)])
            && (w == v ==> r[TableOf(r, d, w / 1024)][w % 1024] == Entry(f, writable, true))
  {
    hide Writable;
    var i, j := v / 1024, v % 1024;
    var r := WithTable(tables, d, i, t, j, Entry(f, writable, true));
    OwnedTaken(pool, tables, d, ow, d);
    OwnedTaken(pool, tables, d, ow, t);
    EntryParts(t, true, true);
    EntryParts(f, writable, true);
    assert TableFine(pool, tables, d, ow, w / 1024);
    assert v == i * 1024 + j && w == w / 1024 * 1024 + w % 1024;
  }

  lemma TableAdded(pool: Pool, tables: seq<Table>, d: nat, ow: Uses, v: nat, t: nat, f: nat, writable: bool)
    requires CanAddTable(pool, tables, d, ow, v, t, f)
    ensures t !in ow && t != f
    ensures SpaceOK(Take(pool, t), WithTable(tables, d, v / 1024, t, v % 1024, Entry(f, writable, true)), d,
                    ow[t := PageTable(v / 1024)][f := Page(v)])
  {
    hide Present, Writable, User, FrameOf, Lookup, TableOf, WithTable, Entry;
    var r, ow' := WithTable(tables, d, v / 1024, t, v % 1024, Entry(f, writable, true)),
      ow[t := PageTable(v / 1024)][f := Page(v)];
    TakeCount(pool, t);
    WithTableLookup(pool, tables, d, ow, v, t, f, writable, v);
    assert |r| == |tables| by { WithTableSize(tables, d, v / 1024, t, v % 1024, Entry(f, writable, true)); }
    forall i | 0 <= i < 768
      ensures TableFine(Take(pool, t), r, d, ow', i) { AddedTable(pool, tables, d, ow, v, t, f, writable, i); }
    forall w | 0 <= w < 786432 ensures PageFine(r, d, ow', w) {
      assert PageFine(tables, d, ow, w);
      WithTableLookup(pool, tables, d, ow, v, t, f, writable, w);
      EntryParts(f, writable, true);
    }
    forall g | g in ow'
      ensures UseFine(Take(pool, t), r, d, ow', g) { AddedUse(pool, tables, d, ow, v, t, f, writable, g); }
  }

  lemma WithTableSize(tables: seq<Table>, d: nat, i: nat, t: nat, j: nat, e: u32)
    requires d < |tables| && i < 1024 && t < |tables| && t < 0x10_0000 && j < 1024
    ensures |WithTable(tables, d, i, t, j, e)| == |tables|
  {
  }

  lemma AddedTable(pool: Pool, tables: seq<Table>, d: nat, ow: Uses, v: nat, t: nat, f: nat, writable: bool, i: nat)
    requires CanAddTable(pool, tables, d, ow, v, t, f) && i < 768 && t !in ow && t != f && t != d
    ensures TableFine(Take(pool, t), WithTable(tables, d, v / 1024, t, v % 1024, Entry(f, writable, true)), d,
                      ow[t := PageTable(v / 1024)][f := Page(v)], i)
  {
    hide Writable, User, FrameOf;
    var r := WithTable(tables, d, v / 1024, t, v % 1024, Entry(f, writable, true));
    assert TableFine(pool, tables, d, ow, i);
    EntryParts(t, true, true);
    EntryParts(f, writable, true);
    if i == v / 1024 {
      assert Present(r[t][v % 1024]);
    } else if Present(tables[d][i]) {
      var u := FrameOf(tables[d][i]);
      var j :| 0 <= j < 1024 && Present(tables[u][j]);
      assert Present(r[u][j]);
    }
  }

  lemma AddedUse(pool: Pool, tables: seq<Table>, d: nat, ow: Uses, v: nat, t: nat, f: nat, writable: bool, g: nat)
    requires CanAddTable(pool, tables, d, ow, v, t, f) && t !in ow && t != f && t != d && (g in ow || g == t || g == f)
    ensures UseFine(Take(pool, t), WithTable(tables, d, v / 1024, t, v % 1024, Entry(f, writable, true)), d,
                    ow[t := PageTable(v / 1024)][f := Page(v)], g)
  {
    hide Present, Writable, User, FrameOf, Lookup, TableOf, WithTable, Entry;
    TakeCount(pool, t);
    WithTableSize(tables, d, v / 1024, t, v % 1024, Entry(f, writable, true));
    WithTableLookup(pool, tables, d, ow, v, t, f, writable, v);
    if g in ow {
      assert UseFine(pool, tables, d, ow, g);
      match ow[g]
      case Directory =>
      case PageTable(i) =>
        WithTableLookup(pool, tables, d, ow, v, t, f, writable, 1024 * i);
        NotNewTable(pool, tables, d, ow, v, i, g);
      case Page(w) => WithTableLookup(pool, tables, d, ow, v, t, f, writable, w);
    }
  }

  lemma NotNewTable(pool: Pool, tables: seq<Table>, d: nat, ow: Uses, v: nat, i: nat, g: nat)
    requires SpaceOK(pool, tables, d, ow) && v < 786432 && !Present(tables[d][v / 1024])
    requires i < 768 && TableOf(tables, d, i) == g && Taken(pool, g)
    ensures i != v / 1024 && 1024 * i < 786432 && 1024 * i / 1024 == i
  {
  }

  /** The tables after the last page of table `i` was unmapped. */
  function WithoutTable(tables: seq<Table>, d: nat, i: nat, t: nat, j: nat): (r: seq<Table>)
    requires d < |tables| && i < 1024 && t < |tables| && j < 1024
    ensures |r| == |tables|
  {
    SetEntry(SetEntry(tables, t, j, 0), d, i, 0)
  }

  ghost predicate LastPage(pool: Pool, tables: seq<Table>, d: nat, ow: Uses, v: nat) {
    && SpaceOK(pool, tables, d, ow) && v < 786432 && Lookup(tables, d, v).Mapped?
    && forall j :: 0 <= j < 1024 && j != v % 1024 ==> !Present(tables[TableOf(tables, d, v / 1024)][j])
  }

  lemma LastPageLookup(pool: Pool, tables: seq<Table>, d: nat, ow: Uses, v: nat, w: nat)
    requires LastPage(pool, tables, d, ow, v) && w < 786432
    ensures var t := TableOf(tables, d, v / 1024);
            var r := WithoutTable(tables, d, v / 1024, t, v % 1024);
            && t != d && t != 0 && t in ow && ow[t] == PageTable(v / 1024) && Present(tables[d][v / 1024])
            && Lookup(r, d, w) == (if w / 1024 == v / 1024 then Unmapped else Lookup(tables, d, w))
            && (w / 1024 == v / 1024 && w != v ==> Lookup(tables, d, w) == Unmapped)
            && (w / 1024 != v / 1024 ==>
                  TableOf(r, d, w / 1024) == TableOf(tables, d, w / 1024)
                    && r[TableOf(r, d, w / 1024)] == tables[TableOf(tables, d, w / 1024)])
  {
    hide Writable, FrameOf;
    OwnedTaken(pool, tables, d, ow, d);
    TablesApart(pool, tables, d, ow, v / 1024, w / 1024);
    if Present(tables[d][w / 1024]) { TablesApart(pool, tables, d, ow, w / 1024, v / 1024); }
    assert v == v / 1024 * 1024 + v % 1024 && w == w / 1024 * 1024 + w % 1024;
  }

  lemma TableRemoved(pool: Pool, tables: seq<Table>, d: nat, ow: Uses, v: nat)
    requires LastPage(pool, tables, d, ow, v)
    ensures var t, f := TableOf(tables, d, v / 1024), Lookup(tables, d, v).frame;
            && t in ow && f in ow && t != f && Taken(pool, t)
            && SpaceOK(Give(pool, t), WithoutTable(tables, d, v / 1024, t, v % 1024), d, ow - {t, f})
  {
    hide Present, Writable, User, FrameOf, Lookup, TableOf, WithoutTable;
    var t, f := TableOf(tables, d, v / 1024), Lookup(tables, d, v).frame;
    var r, ow' := WithoutTable(tables, d, v / 1024, t, v % 1024), ow - {t, f};
    LastPageLookup(pool, tables, d, ow, v, v);
    OwnedTaken(pool, tables, d, ow, t);
    assert PageFine(tables, d, ow, v);
    GiveCount(pool, t);
    forall i | 0 <= i < 768 ensures TableFine(Give(pool, t), r, d, ow', i) { RemovedTable(pool, tables, d, ow, v, i); }
    forall w | 0 <= w < 786432 ensures PageFine(r, d, ow', w) {
      assert PageFine(tables, d, ow, w);
      LastPageLookup(pool, tables, d, ow, v, w);
    }
    forall g | g in ow' ensures UseFine(Give(pool, t), r, d, ow', g) { RemovedUse(pool, tables, d, ow, v, g); }
  }

  lemma RemovedTable(pool: Pool, tables: seq<Table>, d: nat, ow: Uses, v: nat, i: nat)
    requires LastPage(pool, tables, d, ow, v) && i < 768
    ensures var t, f := TableOf(tables, d, v / 1024), Lookup(tables, d, v).frame;
            TableFine(Give(pool, t), WithoutTable(tables, d, v / 1024, t, v % 1024), d, ow - {t, f}, i)
  {
    hide Writable, User, FrameOf;
    LastPageLookup(pool, tables, d, ow, v, v);
    assert TableFine(pool, tables, d, ow, i) && PageFine(tables, d, ow, v);
    var t := TableOf(tables, d, v / 1024);
    var r := WithoutTable(tables, d, v / 1024, t, v % 1024);
    TablesApart(pool, tables, d, ow, v / 1024, i);
    if i != v / 1024 && Present(tables[d][i]) {
      TablesApart(pool, tables, d, ow, i, v / 1024);
      var u := FrameOf(tables[d][i]);
      var j :| 0 <= j < 1024 && Present(tables[u][j]);
      assert r[u] == tables[u];
    }
  }

  lemma RemovedUse(pool: Pool, tables: seq<Table>, d: nat, ow: Uses, v: nat, g: nat)
    requires LastPage(pool, tables, d, ow, v) && g in ow && g != TableOf(tables, d, v / 1024)
    requires g != Lookup(tables, d, v).frame
    ensures var t, f := TableOf(tables, d, v / 1024), Lookup(tables, d, v).frame;
            UseFine(Give(pool, t), WithoutTable(tables, d, v / 1024, t, v % 1024), d, ow - {t, f}, g)
  {
    hide Present, Writable, User, FrameOf, Lookup, TableOf, WithoutTable;
    LastPageLookup(pool, tables, d, ow, v, v);
    OwnedTaken(pool, tables, d, ow, TableOf(tables, d, v / 1024));
    assert UseFine(pool, tables, d, ow, g);
    match ow[g]
    case Directory =>
    case PageTable(i) =>
      assert 1024 * i / 1024 == i;
      LastPageLookup(pool, tables, d, ow, v, 1024 * i);
    case Page(w) => LastPageLookup(pool, tables, d, ow, v, w);
  }
}
