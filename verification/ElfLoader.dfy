/** Loading an ELF image into a user address space. */
module ElfLoader {
  import opened Bytes
  import opened Errno
  import opened ElfFormat
  import opened Frames
  import opened Paging
  import opened AddressSpaces

  type Page = p: seq<byte> | |p| == 4096 witness Zeros(4096)

  /** What a program sees of one page. */
  datatype PageView = Absent | There(writable: bool, bytes: Page)

  function View(tables: seq<Table>, pages: seq<Page>, d: nat, v: nat): (x: PageView)
    requires d < |tables| && v < 786432
  {
    match Lookup(tables, d, v)
    case Unmapped => Absent
    case Mapped(f, w) => if f < |pages| then There(w, pages[f]) else Absent
  }

  /** A page that is there, at least with the wanted access; a new one is zero. */
  function Widen(x: PageView, writable: bool): (y: PageView) {
    if x.Absent? then There(writable, Zeros(4096)) else There(x.writable || writable, x.bytes)
  }

  // ---------- what loading a segment means ----------

  predicate TouchesPage(s: Segment, v: nat) {
    s.vaddr / 4096 <= v <= (s.vaddr + s.memSize - 1) / 4096
  }

  /** Page `v` after the first `k` file bytes of a segment were copied. */
  function Patched(bytes: Page, v: nat, image: seq<byte>, s: Segment, k: nat): (r: Page)
    requires s.offset + k <= |image|
    ensures forall o :: 0 <= o < 4096 ==>
              r[o] == if s.vaddr <= 4096 * v + o < s.vaddr + k then image[s.offset + (4096 * v + o - s.vaddr)]
                      else bytes[o]
  {
    seq(4096, o requires 0 <= o < 4096 =>
      if s.vaddr <= 4096 * v + o < s.vaddr + k then image[s.offset + (4096 * v + o - s.vaddr)] else bytes[o])
  }

  function Loaded(x: PageView, v: nat, image: seq<byte>, s: Segment, k: nat): (y: PageView)
    requires s.offset + k <= |image|
  {
    if !TouchesPage(s, v) then x
    else var w := Widen(x, WritableSegment(s)); There(w.writable, Patched(w.bytes, v, image, s, k))
  }

  /** Page `v` after the first `n` program headers. */
  ghost function Expected(image: seq<byte>, n: nat, v: nat): (x: PageView)
    requires ImageOK(image) && n <= Count(image)
  {
    if n == 0 then Absent
    else
      var s := Program(image, n - 1);
      assert SegmentOK(s, |image|);
      if Loads(s) then Loaded(Expected(image, n - 1, v), v, image, s, s.fileSize) else Expected(image, n - 1, v)
  }

  class Loader {
    const m: Memory
    var pages: seq<Page>

    constructor (m: Memory, pages: seq<Page>)
      ensures this.m == m && this.pages == pages
    {
      this.m, this.pages := m, pages;
    }

    ghost predicate Ready(d: nat, ow: Uses)
      reads this, m
    {
      m.Valid() && |pages| == |m.tables| && SpaceOK(m.pool, m.tables, d, ow) && d < |m.tables|
    }

    ghost function Sees(d: nat, v: nat): (x: PageView)
      reads this, m
      requires d < |m.tables| && v < 786432
    {
      View(m.tables, pages, d, v)
    }

    /** Zeroes a frame through the loader's own window, which takes a frame for a page table. */
    method ZeroPage(f: nat) returns (ok: bool)
      requires m.Valid() && |pages| == |m.tables| && f < |pages|
      modifies `pages, m`pool, m`free
      ensures m.Valid() && m.pool == old(m.pool) && m.free == old(m.free) && (ok <==> m.free > 0)
      ensures pages == if ok then old(pages)[f := Zeros(4096)] else old(pages)
    {
      ghost var p0 := m.pool;
      var w := m.OpenWindow();
      if w == 0 {
        return false;
      }
      TakeGive(p0, w);
      pages := pages[f := Zeros(4096)];
      m.CloseWindow(w);
      ok := true;
    }

    /** Copies bytes into a frame through that window. */
    method CopyToPage(f: nat, offset: nat, bytes: seq<byte>) returns (ok: bool)
      requires m.Valid() && |pages| == |m.tables| && f < |pages| && offset + |bytes| <= 4096
      modifies `pages, m`pool, m`free
      ensures m.Valid() && m.pool == old(m.pool) && m.free == old(m.free) && (ok <==> m.free > 0)
      ensures pages == if ok then old(pages)[f := Splice(old(pages)[f], offset, bytes)] else old(pages)
    {
      ghost var p0 := m.pool;
      var w := m.OpenWindow();
      if w == 0 {
        return false;
      }
      TakeGive(p0, w);
      pages := pages[f := Splice(pages[f], offset, bytes)];
      m.CloseWindow(w);
      ok := true;
    }

    method EnsureUserPage(d: nat, va: u32, writable: bool, ghost ow: Uses) returns (result: int, ghost ow': Uses)
      requires Ready(d, ow) && UserPage(va)
      modifies this, m
      ensures Ready(d, ow') && (result == 0 || (result == ENOMEM && m.free <= 2))
      ensures result == 0 ==> forall w: nat :: w < 786432 ==>
                Sees(d, w) == if w == va / 4096 then Widen(old(Sees(d, w)), writable) else old(Sees(d, w))
    {
      hide SpaceOK, Lookup, PoolOK;
      ow' := ow;
      ghost var p0, t0, g0 := m.pool, m.tables, pages;
      ghost var v := va / 4096;
      var ok, pa, isWritable, isUser := m.Query(d, va, ow);
      if ok {
        MappedFrame(p0, t0, d, ow, v);
        if writable && !isWritable {
          ok := m.Protect(d, va, 2, ow);
        }
        result := 0;
        return;
      }
      pa := m.PmmAlloc();
      if pa == 0 {
        return ENOMEM, ow;
      }
      ghost var f := pa / 4096;
      TakeKeeps(p0, t0, d, ow, f);
      ok := ZeroPage(pa / 4096);
      if ok {
        ok, ow' := m.Map(d, va, pa, writable, ow);
      }
      if !ok {
        GiveKeeps(m.pool, m.tables, d, ow, f);
        var freed := m.PmmFree(pa);
        return ENOMEM, ow;
      }
      forall w: nat | w < 786432
        ensures View(m.tables, pages, d, w) ==
            if w == v then Widen(View(t0, g0, d, w), writable) else View(t0, g0, d, w)
      {
        if w != v && Lookup(t0, d, w).Mapped? { MappedFrame(p0, t0, d, ow, w); OtherFrame(p0, t0, d, ow, w, f); }
      }
      result := 0;
    }

    /** Makes sure that all pages of a segment are there. */
    method MapSegment(d: nat, s: Segment, ghost ow: Uses) returns (result: int, ghost ow': Uses)
      requires Ready(d, ow) && Fits(s)
      modifies this, m
      ensures Ready(d, ow') && (result == 0 || (result == ENOMEM && m.free <= 2))
      ensures result == 0 ==> forall w: nat :: w < 786432 ==>
                Sees(d, w) == if TouchesPage(s, w) then Widen(old(Sees(d, w)), WritableSegment(s)) else old(Sees(d, w))
    {
      hide SpaceOK, Lookup, PoolOK, Memory.Valid, View, WritableSegment;
      ow' := ow;
      ghost var t0, g0 := m.tables, pages;
      var firstPage, lastPage := s.vaddr / 4096 * 4096, (s.vaddr + s.memSize - 1) / 4096 * 4096;
      var page := firstPage;
      while true
        invariant firstPage <= page <= lastPage && page % 4096 == 0
        invariant Ready(d, ow') && d < |t0|
        invariant forall w: nat :: w < 786432 ==>
                    Sees(d, w) == if firstPage <= 4096 * w < page then Widen(View(t0, g0, d, w), WritableSegment(s))
                                  else View(t0, g0, d, w)
        decreases lastPage - page
      {
        result, ow' := EnsureUserPage(d, page, WritableSegment(s), ow');
        if result < 0 {
          return;
        }
        if page == lastPage {
          break;
        }
        page := page + 4096;
      }
      result := 0;
    }

    /** Copies bytes to a user address, within one page that is there. */
    method CopyChunk(d: nat, cursor: nat, bytes: seq<byte>, ghost ow: Uses) returns (ok: bool)
      requires Ready(d, ow) && cursor < 0xC000_0000 && cursor % 4096 + |bytes| <= 4096 && Sees(d, cursor / 4096).There?
      modifies `pages, m`pool, m`free
      ensures Ready(d, ow) && m.pool == old(m.pool) && m.free == old(m.free) && (ok <==> m.free > 0)
      ensures ok ==> forall w: nat :: w < 786432 ==>
                var was := old(Sees(d, w));
                Sees(d, w) == if w == cursor / 4096 then There(was.writable, Splice(was.bytes, cursor % 4096, bytes))
                              else was
    {
      hide SpaceOK, Lookup, PoolOK, Memory.Valid, Splice;
      ghost var g0, v := pages, cursor / 4096;
      var pa, isWritable, isUser;
      ok, pa, isWritable, isUser := m.Query(d, cursor / 4096 * 4096, ow);
      if ok {
        MappedFrame(m.pool, m.tables, d, ow, v);
        ok := CopyToPage(pa / 4096, cursor % 4096, bytes);
        forall w: nat | w < 786432
          ensures View(m.tables, pages, d, w) ==
                  var was := View(m.tables, g0, d, w);
                  if w == v then There(was.writable, Splice(was.bytes, cursor % 4096, bytes)) else was
        {
          if Lookup(m.tables, d, w).Mapped? { OneFrameEach(m.pool, m.tables, d, ow, v, w); }
        }
      }
    }

    /** Copies the file part of a segment whose pages are there. */
    method CopySegment(d: nat, image: seq<byte>, s: Segment, ghost ow: Uses) returns (result: int)
      requires Ready(d, ow) && Fits(s) && s.fileSize <= s.memSize && s.offset + s.fileSize <= |image|
      requires forall w: nat :: w < 786432 && TouchesPage(s, w) ==> Sees(d, w).There?
      modifies `pages, m`pool, m`free
      ensures Ready(d, ow) && (result == 0 || (result == EIO && m.free == 0))
      ensures result == 0 ==> forall w: nat :: w < 786432 ==>
                var was := old(Sees(d, w));
                Sees(d, w) == if TouchesPage(s, w) then There(was.writable, Patched(was.bytes, w, image, s, s.fileSize))
                              else was
    {
      hide SpaceOK, Lookup, PoolOK, Memory.Valid, TouchesPage, Patched, Splice, Fits, View;
      ghost var g0 := pages;
      var cursor: nat, fileCursor: nat, remaining: nat := s.vaddr, s.offset, s.fileSize;
      forall w: nat | w < 786432 ensures View(m.tables, g0, d, w) == Copied(View(m.tables, g0, d, w), w, image, s, 0) {
        NothingCopied(View(m.tables, g0, d, w), w, image, s);
      }
      while remaining != 0
        invariant remaining <= s.fileSize && cursor == s.vaddr + (s.fileSize - remaining)
        invariant fileCursor == s.offset + (s.fileSize - remaining)
        invariant Ready(d, ow) && m.pool == old(m.pool) && m.free == old(m.free)
        invariant forall w: nat :: w < 786432 ==>
            Sees(d, w) == Copied(View(m.tables, g0, d, w), w, image, s, s.fileSize - remaining)
        decreases remaining
      {
        ghost var k := s.fileSize - remaining;
        var pageOffset := cursor % 4096;
        var chunk := 4096 - pageOffset;
        if chunk > remaining {
          chunk := remaining;
        }
        CursorPage(s, k);
        var ok := CopyChunk(d, cursor, image[fileCursor..fileCursor + chunk], ow);
        if !ok {
          return EIO;
        }
        forall w: nat | w < 786432
          ensures View(m.tables, pages, d, w) == Copied(View(m.tables, g0, d, w), w, image, s, k + chunk) {
          CopyStep(View(m.tables, g0, d, w), w, image, s, k, chunk);
        }
        cursor, fileCursor, remaining := cursor + chunk, fileCursor + chunk, remaining - chunk;
      }
      result := 0;
    }

    method LoadProgram(d: nat, image: seq<byte>, s: Segment, ghost ow: Uses) returns (result: int, ghost ow': Uses)
      requires Ready(d, ow) && Loads(s) && SegmentOK(s, |image|)
      modifies this, m
      ensures Ready(d, ow') && (result == 0 || (result == ENOMEM && m.free <= 2) || (result == EIO && m.free == 0))
      ensures result == 0 ==> forall w: nat :: w < 786432 ==>
          Sees(d, w) == Loaded(old(Sees(d, w)), w, image, s, s.fileSize)
    {
      hide SpaceOK, Lookup, PoolOK, Memory.Valid, TouchesPage, Patched, View, SegmentOK, Fits;
      SegmentFits(s, |image|);
      result, ow' := MapSegment(d, s, ow);
      if result == 0 {
        result := CopySegment(d, image, s, ow');
      }
    }

    /** Loads an image into a space without user pages. */
    method LoadImage(d: nat, image: seq<byte>, ghost ow: Uses) returns (result: int, entry: u32, ghost ow': Uses)
      requires Ready(d, ow) && forall w: nat :: w < 786432 ==> Lookup(m.tables, d, w) == Unmapped
      modifies this, m
      ensures Ready(d, ow')
      ensures result == 0 || (result == ENOMEM && m.free <= 2) || (result == EIO && m.free == 0) || result == ENOEXEC
      ensures result == ENOEXEC <==> !ImageOK(image)
      ensures result == 0 ==> entry == Le32(image, 24) && forall w: nat :: w < 786432 ==>
          Sees(d, w) == Expected(image, Count(image), w)
    {
      hide SpaceOK, Lookup, PoolOK, Memory.Valid, SegmentOK, Overlap, SegmentAt, Loaded, HeaderOK;
      ow' := ow;
      var ok;
      ok, entry := ValidateImage(image);
      if !ok {
        return ENOEXEC, 0, ow;
      }
      for index := 0 to Count(image)
        invariant Ready(d, ow')
        invariant forall w: nat :: w < 786432 ==> Sees(d, w) == Expected(image, index, w)
      {
        var program := Program(image, index);
        if Loads(program) {
          result, ow' := LoadProgram(d, image, program, ow');
          if result < 0 {
            return;
          }
        }
      }
      result := 0;
    }
  }

  /** The segment lies in the user half. */
  predicate Fits(s: Segment) { s.memSize > 0 && s.vaddr + s.memSize <= 0xC000_0000 }

  lemma SegmentFits(s: Segment, size: nat)
    requires Loads(s) && SegmentOK(s, size)
    ensures Fits(s) && s.fileSize <= s.memSize && s.offset + s.fileSize <= size
  {
    hide PowerOfTwo;
  }

  ghost function Copied(x: PageView, v: nat, image: seq<byte>, s: Segment, k: nat): (y: PageView)
    requires s.offset + k <= |image|
  {
    if TouchesPage(s, v) && x.There? then There(x.writable, Patched(x.bytes, v, image, s, k)) else x
  }

  lemma NothingCopied(x: PageView, v: nat, image: seq<byte>, s: Segment)
    requires s.offset <= |image|
    ensures Copied(x, v, image, s, 0) == x
  {
    if x.There? { assert Patched(x.bytes, v, image, s, 0) == x.bytes; }
  }

  lemma CursorPage(s: Segment, k: nat)
    requires Fits(s) && k < s.fileSize <= s.memSize
    ensures (s.vaddr + k) / 4096 < 786432 && TouchesPage(s, (s.vaddr + k) / 4096)
  {
  }

  /** One chunk ends at the end of its page, so it changes that page only. */
  lemma CopyStep(x: PageView, v: nat, image: seq<byte>, s: Segment, k: nat, chunk: nat)
    requires s.offset + k + chunk <= |image| && chunk > 0 && (s.vaddr + k) % 4096 + chunk <= 4096
    ensures var y := Copied(x, v, image, s, k);
            Copied(x, v, image, s, k + chunk) ==
              if v == (s.vaddr + k) / 4096 && TouchesPage(s, v) && y.There?
              then There(y.writable, Splice(y.bytes, (s.vaddr + k) % 4096, image[s.offset + k..s.offset + k + chunk]))
                else y
  {
    hide TouchesPage;
    var y, o, c := Copied(x, v, image, s, k), (s.vaddr + k) % 4096, (s.vaddr + k) / 4096;
    if TouchesPage(s, v) && x.There? {
      var q := Patched(x.bytes, v, image, s, k + chunk);
      if v == c {
        assert q == Splice(y.bytes, o, image[s.offset + k..s.offset + k + chunk]);
      } else {
        assert q == y.bytes;
      }
    }
  }

  lemma OneFrameEach(pool: Pool, tables: seq<Table>, d: nat, ow: Uses, v: nat, w: nat)
    requires SpaceOK(pool, tables, d, ow) && v < 786432 && w < 786432 && Lookup(tables, d, v).Mapped?
    requires Lookup(tables, d, w).Mapped?
    ensures Lookup(tables, d, v).frame == Lookup(tables, d, w).frame <==> v == w
    ensures Taken(pool, Lookup(tables, d, w).frame) && Lookup(tables, d, w).frame < |tables|
  {
    MappedFrame(pool, tables, d, ow, v);
    MappedFrame(pool, tables, d, ow, w);
  }

  lemma OtherFrame(pool: Pool, tables: seq<Table>, d: nat, ow: Uses, w: nat, f: nat)
    requires SpaceOK(pool, tables, d, ow) && w < 786432 && Lookup(tables, d, w).Mapped? && IsFree(pool, f)
    ensures Lookup(tables, d, w).frame != f
  {
    MappedFrame(pool, tables, d, ow, w);
  }

  // ---------- what the loaded program sees ----------

  /** Some segment among the first `n` touches page `v`. */
  ghost predicate Touched(image: seq<byte>, n: nat, v: nat, writableOnly: bool)
    requires ImageOK(image) && n <= Count(image)
  {
    exists i: nat :: i < n && Loads(Program(image, i)) && TouchesPage(Program(image, i), v)
      && (writableOnly ==> WritableSegment(Program(image, i)))
  }

  lemma TouchedOneMore(image: seq<byte>, n: nat, v: nat, writableOnly: bool)
    requires ImageOK(image) && n < Count(image)
    ensures Touched(image, n + 1, v, writableOnly) <==>
              || Touched(image, n, v, writableOnly)
              || (Loads(Program(image, n)) && TouchesPage(Program(image, n), v)
                && (writableOnly ==> WritableSegment(Program(image, n))))
  {
    hide HeaderOK, Program, Loads, TouchesPage, WritableSegment;
  }

  /** The mapped pages are exactly those that a segment touches, and a page is writable exactly
      when a writable segment touches it. */
  lemma {:induction false} PagesExact(image: seq<byte>, n: nat, v: nat)
    requires ImageOK(image) && n <= Count(image)
    ensures Expected(image, n, v).There? <==> Touched(image, n, v, false)
    ensures Expected(image, n, v).There? ==> (Expected(image, n, v).writable <==> Touched(image, n, v, true))
  {
    hide HeaderOK, SegmentOK, Overlap, SegmentAt, TouchesPage, WritableSegment, Patched, Touched;
    if n > 0 {
      PagesExact(image, n - 1, v);
      TouchedOneMore(image, n - 1, v, false);
      TouchedOneMore(image, n - 1, v, true);
      WritableTouches(image, n - 1, v);
    } else {
      NothingTouched(image, v);
    }
  }

  lemma NothingTouched(image: seq<byte>, v: nat)
    requires ImageOK(image)
    ensures !Touched(image, 0, v, false) && !Touched(image, 0, v, true)
  {
  }

  lemma WritableTouches(image: seq<byte>, n: nat, v: nat)
    requires ImageOK(image) && n <= Count(image)
    ensures Touched(image, n, v, true) ==> Touched(image, n, v, false)
  {
    hide HeaderOK, SegmentAt;
  }

  predicate InMemory(s: Segment, a: nat) { s.vaddr <= a < s.vaddr + s.memSize }

  lemma AddressTouches(s: Segment, a: nat)
    requires InMemory(s, a)
    ensures TouchesPage(s, a / 4096)
  {
  }

  /** An address that no segment with file bytes covers reads as zero. */
  lemma {:induction false} ZeroElsewhere(image: seq<byte>, n: nat, a: nat)
    requires ImageOK(image) && n <= Count(image) && Expected(image, n, a / 4096).There?
    requires forall i: nat :: i < n && Loads(Program(image, i)) ==>
        !(Program(image, i).vaddr <= a < Program(image, i).vaddr + Program(image, i).fileSize)
    ensures Expected(image, n, a / 4096).bytes[a % 4096] == 0
  {
    hide HeaderOK, SegmentOK, Overlap, SegmentAt, TouchesPage, WritableSegment;
    if n > 0 {
      assert a == 4096 * (a / 4096) + a % 4096;
      var x, s := Expected(image, n - 1, a / 4096), Program(image, n - 1);
      if x.There? { ZeroElsewhere(image, n - 1, a); }
      if Loads(s) { ProgramInside(image, n - 1); }
    }
  }

  lemma ProgramInside(image: seq<byte>, i: nat)
    requires ImageOK(image) && i < Count(image) && Loads(Program(image, i))
    ensures var s := Program(image, i); Fits(s) && s.fileSize <= s.memSize && s.offset + s.fileSize <= |image|
  {
    hide SegmentOK, SegmentAt, Overlap;
    SegmentFits(Program(image, i), |image|);
  }

  /** Later segments do not disturb what segment `i` put at address `a`. */
  lemma {:induction false} BytesLoaded(image: seq<byte>, n: nat, i: nat, k: nat)
    requires ImageOK(image) && i < n <= Count(image) && Loads(Program(image, i)) && k < Program(image, i).fileSize
    ensures var s := Program(image, i); var x := Expected(image, n, (s.vaddr + k) / 4096);
            s.offset + k < |image| && x.There? && x.bytes[(s.vaddr + k) % 4096] == image[s.offset + k]
  {
    hide HeaderOK, SegmentOK, Overlap, SegmentAt, TouchesPage, WritableSegment;
    ProgramInside(image, i);
    var s := Program(image, i);
    var a := s.vaddr + k;
    assert a == 4096 * (a / 4096) + a % 4096;
    AddressTouches(s, a);
    if n > i + 1 {
      BytesLoaded(image, n - 1, i, k);
      if Loads(Program(image, n - 1)) {
        ProgramInside(image, n - 1);
        SegmentsDisjoint(image, n - 1, i, a);
      }
    }
  }

  /** The whole segment: file bytes first, zeros after them, whatever other segments share its pages. */
  lemma SegmentInMemory(image: seq<byte>, i: nat, k: nat)
    requires ImageOK(image) && i < Count(image) && Loads(Program(image, i)) && k < Program(image, i).memSize
    ensures var s := Program(image, i); var x := Expected(image, Count(image), (s.vaddr + k) / 4096);
            && x.There? && s.offset + s.fileSize <= |image|
            && x.bytes[(s.vaddr + k) % 4096] == if k < s.fileSize then image[s.offset + k] else 0
  {
    hide HeaderOK, SegmentOK, Overlap, SegmentAt, TouchesPage, WritableSegment, Expected;
    ProgramInside(image, i);
    var s, n := Program(image, i), Count(image);
    var a := s.vaddr + k;
    AddressTouches(s, a);
    PagesExact(image, n, a / 4096);
    if k < s.fileSize {
      BytesLoaded(image, n, i, k);
    } else {
      forall j: nat | j < n && Loads(Program(image, j))
        ensures !(Program(image, j).vaddr <= a < Program(image, j).vaddr + Program(image, j).fileSize) {
        ProgramInside(image, j);
        if j < i { SegmentsDisjoint(image, i, j, a); }
        if i < j { SegmentsDisjoint(image, j, i, a); }
      }
      ZeroElsewhere(image, n, a);
    }
  }
}
