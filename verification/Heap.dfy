/** The heap in memory: headers linked by address, walked and changed in place. */
module Heap {
  import opened HeapModel

  const MAGIC: nat := 0x48454150
  const STATE_FREE: nat := 0x46524545
  const STATE_ALLOCATED: nat := 0x55534544

  /** `prev` and `next` are addresses, 0 standing for none. */
  datatype Header = Header(magic: nat, size: nat, prev: nat, next: nat, state: nat)

  function HeaderOf(bs: seq<Blk>, k: nat): (h: Header)
    requires k < |bs|
  {
    Header(MAGIC, bs[k].size, if k == 0 then 0 else Addr(bs, k - 1), if k + 1 == |bs| then 0 else Addr(bs, k + 1),
           if bs[k].free then STATE_FREE else STATE_ALLOCATED)
  }

  ghost predicate HeaderAt(mem: map<nat, Header>, bs: seq<Blk>, k: nat)
    requires k < |bs|
  {
    Addr(bs, k) in mem && mem[Addr(bs, k)] == HeaderOf(bs, k)
  }

  /** `mem` holds the headers of all blocks. */
  ghost predicate Holds(mem: map<nat, Header>, bs: seq<Blk>) {
    forall k: nat {:trigger HeaderAt(mem, bs, k)} :: k < |bs| ==> HeaderAt(mem, bs, k)
  }

  // ---------- splitting and merging in memory ----------

  ghost function SplitMem(mem: map<nat, Header>, bs: seq<Blk>, k: nat, size: nat): (m: map<nat, Header>)
    requires Holds(mem, bs) && k < |bs| && size + 32 <= bs[k].size
  {
    var a := Addr(bs, k);
    var new_ := a + 24 + size;
    assert HeaderAt(mem, bs, k);
    assert k + 1 < |bs| ==> HeaderAt(mem, bs, k + 1);
    var m1 := mem[new_ := Header(MAGIC, bs[k].size - size - 24, a, mem[a].next, STATE_FREE)];
    var m2 := if mem[a].next != 0 && mem[a].next in m1 then m1[mem[a].next := m1[mem[a].next].(prev := new_)] else m1;
    m2[a := mem[a].(next := new_, size := size)]
  }

  lemma SplitAddrs(bs: seq<Blk>, k: nat, size: nat, j: nat)
    requires k < |bs| && size + 32 <= bs[k].size && j < |Split(bs, k, size)|
    ensures Addr(Split(bs, k, size), j) ==
            if j <= k then Addr(bs, j) else if j == k + 1 then Addr(bs, k) + 24 + size else Addr(bs, j - 1)
  {
    var cs := Split(bs, k, size);
    if j <= k {
      AddrPrefix(bs, cs, j);
    } else {
      AddrPrefix(bs, cs, k);
      assert cs[k] == Blk(size, bs[k].free);
      if j > k + 1 {
        assert Addr(cs, k + 2) == Addr(cs, k + 1) + 24 + cs[k + 1].size;
        AddrSuffix(bs, cs, k + 1, k + 2, j - 1);
      }
    }
  }

  lemma SplitHeaders(bs: seq<Blk>, k: nat, size: nat, j: nat)
    requires k < |bs| && size + 32 <= bs[k].size && j < |Split(bs, k, size)|
    ensures var cs, new_ := Split(bs, k, size), Addr(bs, k) + 24 + size;
            HeaderOf(cs, j) ==
              if j < k then HeaderOf(bs, j)
              else if j == k then HeaderOf(bs, k).(next := new_, size := size)
              else if j == k + 1 then Header(MAGIC, bs[k].size - size - 24, Addr(bs, k), HeaderOf(bs, k).next,
                STATE_FREE)
              else if j == k + 2 then HeaderOf(bs, k + 1).(prev := new_)
              else HeaderOf(bs, j - 1)
  {
    hide Addr;
    var cs := Split(bs, k, size);
    SplitAddrs(bs, k, size, j);
    if j > 0 { SplitAddrs(bs, k, size, j - 1); }
    if j + 1 < |cs| { SplitAddrs(bs, k, size, j + 1); }
  }

  lemma SplitHolds(mem: map<nat, Header>, bs: seq<Blk>, k: nat, size: nat)
    requires Holds(mem, bs) && k < |bs| && size + 32 <= bs[k].size
    ensures Holds(SplitMem(mem, bs, k, size), Split(bs, k, size))
  {
    hide Addr, Holds;
    var m, cs := SplitMem(mem, bs, k, size), Split(bs, k, size);
    forall j: nat | j < |cs| ensures HeaderAt(m, cs, j) {
      SplitOne(mem, bs, k, size, j);
    }
    HoldsIf(m, cs);
  }

  lemma HoldsIf(m: map<nat, Header>, cs: seq<Blk>)
    requires forall j: nat :: j < |cs| ==> HeaderAt(m, cs, j)
    ensures Holds(m, cs)
  {
  }

  lemma SplitOne(mem: map<nat, Header>, bs: seq<Blk>, k: nat, size: nat, j: nat)
    requires Holds(mem, bs) && k < |bs| && size + 32 <= bs[k].size && j < |Split(bs, k, size)|
    ensures HeaderAt(SplitMem(mem, bs, k, size), Split(bs, k, size), j)
  {
    hide Addr;
    SplitAddrs(bs, k, size, j);
    SplitHeaders(bs, k, size, j);
    assert HeaderAt(mem, bs, k);
    var i := if j <= k then j else j - 1;
    assert HeaderAt(mem, bs, i);
    Positions(bs, k, size, i);
    if k + 1 < |bs| {
      assert HeaderAt(mem, bs, k + 1);
      Positions(bs, k, size, k + 1);
      Apart(bs, i, k + 1);
    }
    Apart(bs, i, k);
  }

  lemma Apart(bs: seq<Blk>, i: nat, j: nat)
    requires i < |bs| && j < |bs|
    ensures Addr(bs, i) == Addr(bs, j) <==> i == j
    ensures Addr(bs, i) > 0
  {
    if i < j { AddrGrows(bs, i, j); }
    if j < i { AddrGrows(bs, j, i); }
    AddrAbove(bs, i);
  }

  /** A header inside block `k` meets no other header. */
  lemma Positions(bs: seq<Blk>, k: nat, size: nat, i: nat)
    requires k < |bs| && size + 32 <= bs[k].size && i < |bs|
    ensures Addr(bs, i) != Addr(bs, k) + 24 + size
  {
    if i < k { AddrGrows(bs, i, k); }
    if k < i { AddrGrows(bs, k, i); }
  }

  ghost function MergeMem(mem: map<nat, Header>, bs: seq<Blk>, k: nat): (m: map<nat, Header>)
    requires Holds(mem, bs) && k + 1 < |bs|
  {
    var a, n := Addr(bs, k), Addr(bs, k + 1);
    assert HeaderAt(mem, bs, k) && HeaderAt(mem, bs, k + 1);
    assert k + 2 < |bs| ==> HeaderAt(mem, bs, k + 2);
    var m1 := mem[a := mem[a].(size := mem[a].size + 24 + mem[n].size, next := mem[n].next)];
    var m2 := if mem[n].next != 0 && mem[n].next in m1 then m1[mem[n].next := m1[mem[n].next].(prev := a)] else m1;
    m2[n := Header(0, 0, 0, 0, 0)]
  }

  lemma MergeAddrs(bs: seq<Blk>, k: nat, j: nat)
    requires k + 1 < |bs| && bs[k + 1].free && j < |MergeNext(bs, k)|
    ensures Addr(MergeNext(bs, k), j) == if j <= k then Addr(bs, j) else Addr(bs, j + 1)
  {
    var cs := MergeNext(bs, k);
    if j <= k {
      AddrPrefix(bs, cs, j);
    } else {
      AddrPrefix(bs, cs, k);
      assert Addr(bs, k + 2) == Addr(bs, k + 1) + 24 + bs[k + 1].size;
      assert bs[k + 2..] == cs[k + 1..];
      AddrSuffix(bs, cs, k + 2, k + 1, j + 1);
    }
  }

  lemma MergeHeaders(bs: seq<Blk>, k: nat, j: nat)
    requires k + 1 < |bs| && bs[k + 1].free && j < |MergeNext(bs, k)|
    ensures HeaderOf(MergeNext(bs, k), j) ==
              if j < k then HeaderOf(bs, j)
              else if j == k then HeaderOf(bs, k).(size := bs[k].size + 24 + bs[k + 1].size,
                next := HeaderOf(bs, k + 1).next)
              else if j == k + 1 then HeaderOf(bs, k + 2).(prev := Addr(bs, k))
              else HeaderOf(bs, j + 1)
  {
    hide Addr;
    var cs := MergeNext(bs, k);
    MergeAddrs(bs, k, j);
    if j > 0 { MergeAddrs(bs, k, j - 1); }
    if j + 1 < |cs| { MergeAddrs(bs, k, j + 1); }
  }

  lemma MergeOne(mem: map<nat, Header>, bs: seq<Blk>, k: nat, j: nat)
    requires Holds(mem, bs) && k + 1 < |bs| && bs[k + 1].free && j < |MergeNext(bs, k)|
    ensures HeaderAt(MergeMem(mem, bs, k), MergeNext(bs, k), j)
  {
    hide Addr;
    MergeAddrs(bs, k, j);
    MergeHeaders(bs, k, j);
    assert HeaderAt(mem, bs, k) && HeaderAt(mem, bs, k + 1);
    var i := if j <= k then j else j + 1;
    assert HeaderAt(mem, bs, i);
    Apart(bs, i, k);
    Apart(bs, i, k + 1);
    if k + 2 < |bs| {
      assert HeaderAt(mem, bs, k + 2);
      Apart(bs, i, k + 2);
    }
  }

  lemma MergeHolds(mem: map<nat, Header>, bs: seq<Blk>, k: nat)
    requires Holds(mem, bs) && k + 1 < |bs| && bs[k + 1].free
    ensures Holds(MergeMem(mem, bs, k), MergeNext(bs, k))
  {
    hide Addr, Holds;
    var m, cs := MergeMem(mem, bs, k), MergeNext(bs, k);
    forall j: nat | j < |cs| ensures HeaderAt(m, cs, j) { MergeOne(mem, bs, k, j); }
    HoldsIf(m, cs);
  }

  /** Changing the state of block `k`. */
  lemma MarkHolds(mem: map<nat, Header>, bs: seq<Blk>, k: nat, free: bool)
    requires Holds(mem, bs) && k < |bs|
    ensures var a := Addr(bs, k);
            && a in mem
            && Holds(mem[a := mem[a].(state := if free then STATE_FREE else STATE_ALLOCATED)],
               bs[k := bs[k].(free := free)])
            && forall j: nat :: j <= |bs| ==> Addr(bs[k := bs[k].(free := free)], j) == Addr(bs, j)
  {
    hide Addr;
    assert HeaderAt(mem, bs, k);
    var cs := bs[k := bs[k].(free := free)];
    forall j: nat | j <= |bs| ensures Addr(cs, j) == Addr(bs, j) { SameSizes(bs, cs, j); }
    var m := mem[Addr(bs, k) := mem[Addr(bs, k)].(state := if free then STATE_FREE else STATE_ALLOCATED)];
    forall j: nat | j < |cs| ensures HeaderAt(m, cs, j) {
      assert HeaderAt(mem, bs, j);
      Apart(bs, j, k);
    }
    HoldsIf(m, cs);
  }

  ghost function GrowMem(mem: map<nat, Header>, bs: seq<Blk>, bytes: nat): (m: map<nat, Header>)
    requires Holds(mem, bs) && bs != [] && bytes >= 24
  {
    var t, e := Addr(bs, |bs| - 1), Addr(bs, |bs|);
    assert HeaderAt(mem, bs, |bs| - 1);
    if bs[|bs| - 1].free then mem[t := mem[t].(size := mem[t].size + bytes)]
    else mem[e := Header(MAGIC, bytes - 24, t, 0, STATE_FREE)][t := mem[t].(next := e)]
  }

  lemma GrowAddrs(bs: seq<Blk>, bytes: nat, j: nat)
    requires bs != [] && bytes >= 24 && j < |Grow(bs, bytes)|
    ensures Addr(Grow(bs, bytes), j) == Addr(bs, j)
  {
    AddrPrefix(bs, Grow(bs, bytes), j);
  }

  lemma GrowHolds(mem: map<nat, Header>, bs: seq<Blk>, bytes: nat)
    requires Holds(mem, bs) && bs != [] && bytes >= 24
    ensures Holds(GrowMem(mem, bs, bytes), Grow(bs, bytes))
  {
    hide Addr;
    var m, cs, n := GrowMem(mem, bs, bytes), Grow(bs, bytes), |bs| - 1;
    assert HeaderAt(mem, bs, n);
    EndApart(bs);
    forall j: nat | j < |cs| ensures HeaderAt(m, cs, j) {
      GrowAddrs(bs, bytes, j);
      if j > 0 { GrowAddrs(bs, bytes, j - 1); }
      if j + 1 < |cs| { GrowAddrs(bs, bytes, j + 1); }
      if j < |bs| {
        assert HeaderAt(mem, bs, j);
        Apart(bs, j, n);
      }
    }
    HoldsIf(m, cs);
  }

  lemma EndApart(bs: seq<Blk>)
    requires bs != []
    ensures forall j: nat :: j < |bs| ==> Addr(bs, j) != Addr(bs, |bs|)
  {
    forall j: nat | j < |bs| ensures Addr(bs, j) != Addr(bs, |bs|) { AddrGrows(bs, j, |bs|); }
  }

  lemma {:induction false} AddrAligned(bs: seq<Blk>, k: nat)
    requires SizesOK(bs) && k <= |bs|
    ensures Addr(bs, k) % 8 == 0
  {
    if k > 0 { AddrAligned(bs, k - 1); }
  }

  ghost predicate Tiled(bs: seq<Blk>, pages: nat) {
    bs != [] && SizesOK(bs) && Addr(bs, |bs|) == START + 4096 * pages && 4096 * pages <= MAX_SIZE
  }

  /** What a walk over the headers relies on, block by block. */
  lemma BlockFacts(mem: map<nat, Header>, bs: seq<Blk>, pages: nat, k: nat)
    requires Tiled(bs, pages) && Holds(mem, bs) && k < |bs|
    ensures var a := Addr(bs, k);
            && a in mem && mem[a] == HeaderOf(bs, k) && START <= a && a + 24 + bs[k].size <= START + 4096 * pages
            && bs[k].size % 8 == 0 && bs[k].size > 0
            && (k + 1 < |bs| ==> Addr(bs, k + 1) == a + 24 + bs[k].size && Addr(bs, k + 1) in mem
                                 && mem[Addr(bs, k + 1)] == HeaderOf(bs, k + 1)
                                    && Addr(bs, k + 1) + 24 <= START + 4096 * pages)
            && (k + 1 == |bs| ==> a + 24 + bs[k].size == START + 4096 * pages)
            && (k > 0 ==> && START <= Addr(bs, k - 1) && Addr(bs, k - 1) + 24 + bs[k - 1].size == a
                          && Addr(bs, k - 1) in mem && mem[Addr(bs, k - 1)] == HeaderOf(bs, k - 1))
            && (k == 0 ==> a == START)
  {
    assert HeaderAt(mem, bs, k);
    AddrAbove(bs, k);
    AddrGrows(bs, k, |bs|);
    if k + 1 < |bs| { assert HeaderAt(mem, bs, k + 1); AddrGrows(bs, k + 1, |bs|); }
    if k > 0 { assert HeaderAt(mem, bs, k - 1); AddrAbove(bs, k - 1); }
  }

  class KernelHeap {
    var mem: map<nat, Header>
    var head: nat
    var end: nat
    var pages: nat
    ghost var blocks: seq<Blk>

    ghost predicate Walkable()
      reads this
    {
      head == START && end == START + 4096 * pages && Tiled(blocks, pages) && Holds(mem, blocks)
    }

    ghost predicate Valid()
      reads this
    {
      Walkable() && HeapOK(blocks, pages)
    }

    constructor ()
      ensures Valid() && blocks == [Blk(4072, true)] && pages == 1
    {
      mem := map[START := Header(MAGIC, 4072, 0, 0, STATE_FREE)];
      head, end, pages := START, START + 4096, 1;
      blocks := [Blk(4072, true)];
      new;
      assert HeaderAt(mem, blocks, 0);
    }

    /** All the consistency checks that would make the kernel panic; they never fail. */
    method ValidateBlock(a: nat, ghost k: nat) returns (ok: bool)
      requires Walkable() && k < |blocks| && a == Addr(blocks, k)
      ensures ok && a in mem && mem[a] == HeaderOf(blocks, k)
    {
      hide Addr, Holds, SizesOK;
      BlockFacts(mem, blocks, pages, k);
      var h := mem[a];
      var payload := a + 24;
      ok := START <= a <= end - 24 && h.magic == MAGIC && (h.state == STATE_FREE || h.state == STATE_ALLOCATED);
      ok := ok && h.size <= end - payload && h.size % 8 == 0;
      if h.next != 0 {
        ok := ok && payload + h.size <= end - 24 && h.next == payload + h.size && mem[h.next].prev == a;
      } else {
        ok := ok && payload + h.size == end;
      }
      if h.prev != 0 {
        var p := mem[h.prev];
        ok := ok && START <= h.prev <= a - 24 && p.magic == MAGIC && p.next == a && h.prev + 24 + p.size == a;
      } else {
        ok := ok && a == head;
      }
    }

    method HeapTail() returns (a: nat)
      requires Walkable()
      ensures a == Addr(blocks, |blocks| - 1) && a in mem && mem[a] == HeaderOf(blocks, |blocks| - 1)
    {
      hide Addr, Holds;
      a := head;
      ghost var k := 0;
      BlockFacts(mem, blocks, pages, 0);
      while mem[a].next != 0
        invariant k < |blocks| && a == Addr(blocks, k) && a in mem && mem[a] == HeaderOf(blocks, k)
        decreases |blocks| - k
      {
        var ok := ValidateBlock(a, k);
        BlockFacts(mem, blocks, pages, k);
        a, k := mem[a].next, k + 1;
      }
      var ok := ValidateBlock(a, k);
      BlockFacts(mem, blocks, pages, k);
    }

    /** The address of the first free block that is large enough, 0 if there is none. */
    method FindFirstFit(size: nat) returns (a: nat)
      requires Walkable()
      ensures var k := FirstFit(blocks, size, 0);
              if k < |blocks| then a == Addr(blocks, k) != 0 else a == 0
    {
      hide Addr, Holds;
      a := head;
      ghost var k := 0;
      BlockFacts(mem, blocks, pages, 0);
      while a != 0
        invariant k <= |blocks| && (if k < |blocks| then a == Addr(blocks, k) != 0 else a == 0)
        invariant FirstFit(blocks, size, 0) == FirstFit(blocks, size, k)
        decreases |blocks| - k
      {
        var ok := ValidateBlock(a, k);
        if mem[a].state == STATE_FREE && mem[a].size >= size {
          return;
        }
        BlockFacts(mem, blocks, pages, k);
        a, k := mem[a].next, k + 1;
      }
    }

    method SplitBlock(a: nat, size: nat, ghost k: nat)
      requires Walkable() && k < |blocks| && a == Addr(blocks, k) && 0 < size <= blocks[k].size && size % 8 == 0
      modifies `mem, `blocks
      ensures Walkable() && blocks == Split(old(blocks), k, size)
    {
      hide Addr, Holds;
      BlockFacts(mem, blocks, pages, k);
      var remaining := mem[a].size - size;
      if remaining < 32 {
        return;
      }
      ghost var m := SplitMem(mem, blocks, k, size);
      SplitHolds(mem, blocks, k, size);
      SplitTiled(blocks, pages, k, size);
      var newBlock, next := a + 24 + size, mem[a].next;
      Positions(blocks, k, size, k);
      if k + 1 < |blocks| { Positions(blocks, k, size, k + 1); }
      mem := mem[newBlock := Header(MAGIC, remaining - 24, a, next, STATE_FREE)];
      if next != 0 {
        mem := mem[next := mem[next].(prev := newBlock)];
      }
      mem := mem[a := mem[a].(next := newBlock, size := size)];
      blocks := Split(blocks, k, size);
      assert mem == m;
    }

    method MergeWithNext(a: nat, ghost k: nat)
      requires Walkable() && k < |blocks| && a == Addr(blocks, k)
      modifies `mem, `blocks
      ensures Walkable() && blocks == MergeNext(old(blocks), k)
    {
      hide Addr, Holds;
      var ok := ValidateBlock(a, k);
      BlockFacts(mem, blocks, pages, k);
      var next := mem[a].next;
      if next == 0 {
        return;
      }
      ok := ValidateBlock(next, k + 1);
      if mem[next].state != STATE_FREE {
        return;
      }
      ghost var m := MergeMem(mem, blocks, k);
      MergeHolds(mem, blocks, k);
      MergeTiled(blocks, pages, k);
      BlockFacts(mem, blocks, pages, k + 1);
      Apart(blocks, k, k + 1);
      if k + 2 < |blocks| { Apart(blocks, k, k + 2); Apart(blocks, k + 1, k + 2); }
      mem := mem[a := mem[a].(size := mem[a].size + 24 + mem[next].size, next := mem[next].next)];
      if mem[a].next != 0 {
        mem := mem[mem[a].next := mem[mem[a].next].(prev := a)];
      }
      mem := mem[next := Header(0, 0, 0, 0, 0)];
      blocks := MergeNext(blocks, k);
      assert mem == m;
    }

    /** Merges the free block `k` with its free neighbours. */
    method Coalesce(a: nat, ghost k: nat)
      requires Walkable() && k < |blocks| && a == Addr(blocks, k)
      modifies `mem, `blocks
      ensures Walkable()
      ensures var ds := MergeNext(old(blocks), k);
              blocks == if k > 0 && ds[k - 1].free then MergeNext(ds, k - 1) else ds
    {
      hide Addr, Holds, SizesOK;
      ghost var bs := blocks;
      MergeWithNext(a, k);
      MergePrefix(bs, k);
      BlockFacts(mem, blocks, pages, k);
      var prev := mem[a].prev;
      if prev != 0 {
        BlockFacts(mem, blocks, pages, k - 1);
        var ok := ValidateBlock(prev, k - 1);
        if mem[prev].state == STATE_FREE {
          MergeWithNext(prev, k - 1);
        }
      }
    }

    method MarkBlock(a: nat, free: bool, ghost k: nat)
      requires Walkable() && k < |blocks| && a == Addr(blocks, k)
      modifies `mem, `blocks
      ensures Walkable() && blocks == old(blocks)[k := old(blocks)[k].(free := free)] && a == Addr(blocks, k)
    {
      hide Addr, Holds;
      MarkHolds(mem, blocks, k, free);
      mem := mem[a := mem[a].(state := if free then STATE_FREE else STATE_ALLOCATED)];
      blocks := blocks[k := blocks[k].(free := free)];
    }

    /** Maps more pages so that the last block can hold `size` bytes. `granted` says whether the
        pages could be had; if not, nothing changes. */
    method GrowHeap(size: nat, granted: bool) returns (ok: bool)
      requires Valid() && size > 0
      modifies this
      ensures Valid()
      ensures var more := (Missing(old(blocks), size) + 4095) / 4096;
              && (ok <==> more == 0 || (more <= (MAX_SIZE - 4096 * old(pages)) / 4096 && granted))
              && (if ok && more > 0 then blocks == Grow(old(blocks), 4096 * more) && pages == old(pages) + more
                  else blocks == old(blocks) && pages == old(pages))
    {
      hide Addr, Holds, SizesOK;
      var tail := HeapTail();
      var free := mem[tail].state == STATE_FREE;
      var required := size;
      if free {
        if mem[tail].size >= size {
          return true;
        }
        required := required - mem[tail].size;
      } else {
        required := required + 24;
      }
      var pageCount := (required + 4095) / 4096;
      if pageCount > (MAX_SIZE - 4096 * pages) / 4096 || !granted {
        return false;
      }
      ghost var m := GrowMem(mem, blocks, 4096 * pageCount);
      GrowHolds(mem, blocks, 4096 * pageCount);
      GrowKeeps(blocks, pages, pageCount);
      GrowTiled(blocks, pages, pageCount);
      var oldEnd := end;
      end, pages := end + 4096 * pageCount, pages + pageCount;
      if free {
        mem := mem[tail := mem[tail].(size := mem[tail].size + 4096 * pageCount)];
      } else {
        EndApart(blocks);
        mem := mem[oldEnd := Header(MAGIC, 4096 * pageCount - 24, tail, 0, STATE_FREE)];
        mem := mem[tail := mem[tail].(next := oldEnd)];
      }
      blocks := Grow(blocks, 4096 * pageCount);
      assert mem == m;
      ok := true;
    }

    /** Splits block `k` and marks its first part as allocated. */
    method TakeBlock(a: nat, size: nat, ghost k: nat)
      requires Valid() && k < |blocks| && a == Addr(blocks, k) && blocks[k].free && 0 < size <= blocks[k].size
      requires size % 8 == 0
      modifies `mem, `blocks
      ensures Valid() && blocks == Allocate(old(blocks), k, size)
    {
      hide Addr, Holds, SizesOK;
      AllocateKeeps(blocks, pages, k, size);
      SplitAddr(blocks, k, size);
      SplitBlock(a, size, k);
      MarkBlock(a, false, k);
    }

    /** Allocates `size` bytes in the lowest free block that is large enough, after growing the
        heap if there is none; 0 means failure, which leaves the heap as it was. */
    method Kmalloc(size: nat, granted: bool) returns (p: nat)
      requires Valid() && size < 0x1_0000_0000
      modifies this
      ensures Valid()
      ensures MallocSpec(old(blocks), old(pages), size, granted, blocks, pages, p)
    {
      hide Addr, Holds, SizesOK, NoFreeNeighbours;
      if size == 0 || size > 0xFFFF_FFF8 {
        return 0;
      }
      var aligned := (size + 7) / 8 * 8;
      if aligned > MAX_SIZE - 24 {
        return 0;
      }
      ghost var bs := blocks;
      var a := FindFirstFit(aligned);
      if a == 0 {
        MissingPositive(blocks, aligned);
        var ok := GrowHeap(aligned, granted);
        if !ok {
          return 0;
        }
        GrowFits(bs, aligned, 4096 * ((Missing(bs, aligned) + 4095) / 4096));
        a := FindFirstFit(aligned);
      }
      TakeBlock(a, aligned, FirstFit(blocks, aligned, 0));
      p := a + 24;
    }

    /** True exactly for 0 and for the payload address of an allocated block, which is freed and
        merged with its free neighbours. */
    method Kfree(p: nat) returns (ok: bool)
      requires Valid()
      modifies `mem, `blocks
      ensures Valid()
      ensures FreeSpec(old(blocks), p, blocks, ok)
    {
      hide Addr, Holds, SizesOK, NoFreeNeighbours;
      if p == 0 {
        return true;
      }
      if p < START + 24 || p >= end || p % 8 != 0 {
        OutsideHeap(blocks, pages, p);
        return false;
      }
      var a := head;
      ghost var k := 0;
      BlockFacts(mem, blocks, pages, 0);
      while a != 0
        invariant k <= |blocks| && (if k < |blocks| then a == Addr(blocks, k) != 0 else a == 0)
        invariant forall j: nat :: j < k ==> Addr(blocks, j) + 24 != p
        invariant Valid() && blocks == old(blocks)
        decreases |blocks| - k
      {
        var valid := ValidateBlock(a, k);
        if a + 24 == p {
          OnlyBlock(blocks, k, p);
          if mem[a].state != STATE_ALLOCATED {
            return false;
          }
          ReleaseKeeps(blocks, pages, k);
          MarkBlock(a, true, k);
          Coalesce(a, k);
          assert AllocatedAt(old(blocks), p, k) && blocks == Release(old(blocks), k);
          return true;
        }
        BlockFacts(mem, blocks, pages, k);
        a, k := mem[a].next, k + 1;
      }
      return false;
    }
  }

  ghost predicate MallocSpec(bs: seq<Blk>, pages: nat, size: nat, granted: bool, cs: seq<Blk>, pages': nat, p: nat)
    requires bs != []
  {
    var aligned := (size + 7) / 8 * 8;
    var more := (Missing(bs, aligned) + 4095) / 4096;
    if size == 0 || size > 0xFFFF_FFF8 || aligned > MAX_SIZE - 24 then p == 0 && cs == bs && pages' == pages
    else if FirstFit(bs, aligned, 0) < |bs| then
      var k := FirstFit(bs, aligned, 0);
      p == Addr(bs, k) + 24 && cs == Allocate(bs, k, aligned) && pages' == pages
    else if more > (MAX_SIZE - 4096 * pages) / 4096 || !granted then p == 0 && cs == bs && pages' == pages
    else
      && 4096 * more >= 24 && pages' == pages + more
      && var gs := Grow(bs, 4096 * more);
         var k := FirstFit(gs, aligned, 0);
         k < |gs| && p == Addr(gs, k) + 24 && cs == Allocate(gs, k, aligned)
  }

  ghost predicate AllocatedAt(bs: seq<Blk>, p: nat, k: nat) { k < |bs| && !bs[k].free && Addr(bs, k) + 24 == p }

  ghost predicate FreeSpec(bs: seq<Blk>, p: nat, cs: seq<Blk>, ok: bool) {
    && (ok <==> p == 0 || exists k: nat :: AllocatedAt(bs, p, k))
    && (if ok && p != 0 then exists k: nat :: AllocatedAt(bs, p, k) && cs == Release(bs, k) else cs == bs)
  }

  lemma MergePrefix(bs: seq<Blk>, k: nat)
    requires k < |bs|
    ensures k < |MergeNext(bs, k)| && Addr(MergeNext(bs, k), k) == Addr(bs, k) && MergeNext(bs, k)[..k] == bs[..k]
  {
    AddrPrefix(bs, MergeNext(bs, k), k);
  }

  lemma GrowTiled(bs: seq<Blk>, pages: nat, more: nat)
    requires HeapOK(bs, pages) && more > 0 && 4096 * (pages + more) <= MAX_SIZE
    ensures Tiled(Grow(bs, 4096 * more), pages + more)
  {
    GrowKeeps(bs, pages, more);
  }

  lemma MissingPositive(bs: seq<Blk>, size: nat)
    requires bs != []
    ensures FirstFit(bs, size, 0) == |bs| ==> Missing(bs, size) > 0
  {
  }

  lemma OutsideHeap(bs: seq<Blk>, pages: nat, p: nat)
    requires HeapOK(bs, pages) && (p < START + 24 || p >= START + 4096 * pages || p % 8 != 0)
    ensures !exists k: nat :: AllocatedAt(bs, p, k)
  {
    forall k: nat ensures !AllocatedAt(bs, p, k) {
      if k < |bs| {
        AddrAbove(bs, k);
        AddrGrows(bs, k, |bs|);
        AddrAligned(bs, k);
      }
    }
  }

  lemma OnlyBlock(bs: seq<Blk>, k: nat, p: nat)
    requires k < |bs| && Addr(bs, k) + 24 == p
    ensures forall j: nat :: AllocatedAt(bs, p, j) <==> j == k && !bs[k].free
  {
    forall j: nat ensures AllocatedAt(bs, p, j) <==> j == k && !bs[k].free {
      if j < |bs| { Apart(bs, j, k); }
    }
  }

  /** What was just allocated without growth can be freed, and that restores the heap. */
  lemma MallocFree(bs: seq<Blk>, pages: nat, size: nat, granted: bool, cs: seq<Blk>, p: nat, ds: seq<Blk>, ok: bool)
    requires HeapOK(bs, pages) && MallocSpec(bs, pages, size, granted, cs, pages, p) && p != 0
    requires FreeSpec(cs, p, ds, ok)
    ensures ok && ds == bs
  {
    hide Addr;
    var aligned := (size + 7) / 8 * 8;
    var k := FirstFit(bs, aligned, 0);
    assert k < |bs| by { NoGrowth(bs, pages, size, granted, cs, p); }
    AllocateRelease(bs, pages, k, aligned);
    AllocatedBlock(bs, k, aligned);
    OnlyBlock(cs, k, p);
    assert AllocatedAt(cs, p, k);
  }

  lemma NoGrowth(bs: seq<Blk>, pages: nat, size: nat, granted: bool, cs: seq<Blk>, p: nat)
    requires HeapOK(bs, pages) && MallocSpec(bs, pages, size, granted, cs, pages, p) && p != 0
    ensures size > 0 && FirstFit(bs, (size + 7) / 8 * 8, 0) < |bs|
  {
    MissingPositive(bs, (size + 7) / 8 * 8);
  }

  lemma AllocatedBlock(bs: seq<Blk>, k: nat, size: nat)
    requires k < |bs| && size <= bs[k].size
    ensures var cs := Allocate(bs, k, size); k < |cs| && !cs[k].free && Addr(cs, k) == Addr(bs, k)
  {
    var cs := Allocate(bs, k, size);
    AddrPrefix(bs, cs, k);
  }

  lemma SplitTiled(bs: seq<Blk>, pages: nat, k: nat, size: nat)
    requires Tiled(bs, pages) && k < |bs| && 0 < size <= bs[k].size && size % 8 == 0
    ensures Tiled(Split(bs, k, size), pages)
  {
    hide Addr;
    SplitAddr(bs, k, size);
    var cs := Split(bs, k, size);
    forall i | 0 <= i < |cs| ensures cs[i].size > 0 && cs[i].size % 8 == 0 {
      if cs != bs && i > k + 1 { assert cs[i] == bs[i - 1]; }
    }
  }

  lemma MergeTiled(bs: seq<Blk>, pages: nat, k: nat)
    requires Tiled(bs, pages) && k < |bs|
    ensures Tiled(MergeNext(bs, k), pages)
  {
    hide Addr;
    MergeAddr(bs, k);
    var cs := MergeNext(bs, k);
    forall i | 0 <= i < |cs| ensures cs[i].size > 0 && cs[i].size % 8 == 0 {
      if cs != bs && i > k { assert cs[i] == bs[i + 1]; }
    }
  }
}
