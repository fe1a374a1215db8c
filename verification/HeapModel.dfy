/** The kernel heap as a list of blocks: first fit, splitting, coalescing and growth. */
module HeapModel {

  const START: nat := 0xD100_0000
  const MAX_SIZE: nat := 0x0100_0000

  datatype Blk = Blk(size: nat, free: bool)

  /** Address of the header of block `k`; a header takes 24 bytes. */
  function Addr(bs: seq<Blk>, k: nat): (a: nat)
    requires k <= |bs|
  {
    if k == 0 then START else Addr(bs, k - 1) + 24 + bs[k - 1].size
  }

  ghost predicate SizesOK(bs: seq<Blk>) {
    forall k :: 0 <= k < |bs| ==> bs[k].size > 0 && bs[k].size % 8 == 0
  }

  ghost predicate NoFreeNeighbours(bs: seq<Blk>) {
    forall k :: 0 <= k < |bs| - 1 ==> !(bs[k].free && bs[k + 1].free)
  }

  /** The blocks tile the mapped range, and free neighbours have been merged. */
  ghost predicate HeapOK(bs: seq<Blk>, pages: nat) {
    && bs != [] && SizesOK(bs) && NoFreeNeighbours(bs)
    && Addr(bs, |bs|) == START + 4096 * pages && 4096 * pages <= MAX_SIZE
  }

  // ---------- addresses ----------

  lemma {:induction false} AddrGrows(bs: seq<Blk>, i: nat, j: nat)
    requires i < j <= |bs|
    ensures Addr(bs, i) + 24 + bs[i].size <= Addr(bs, j)
  {
    if i + 1 < j { AddrGrows(bs, i, j - 1); }
  }

  lemma {:induction false} AddrAbove(bs: seq<Blk>, i: nat)
    requires i <= |bs|
    ensures Addr(bs, i) >= START
  {
    if i > 0 { AddrAbove(bs, i - 1); }
  }

  lemma {:induction false} AddrPrefix(bs: seq<Blk>, cs: seq<Blk>, k: nat)
    requires k <= |bs| && k <= |cs| && bs[..k] == cs[..k]
    ensures Addr(bs, k) == Addr(cs, k)
  {
    if k > 0 {
      assert bs[..k][..k - 1] == bs[..k - 1] && cs[..k][..k - 1] == cs[..k - 1];
      assert bs[..k][k - 1] == bs[k - 1] && cs[..k][k - 1] == cs[k - 1];
      AddrPrefix(bs, cs, k - 1);
    }
  }

  /** Blocks after a part that keeps its length in bytes keep their addresses. */
  lemma {:induction false} AddrSuffix(bs: seq<Blk>, cs: seq<Blk>, i: nat, j: nat, k: nat)
    requires i <= |bs| && j <= |cs| && bs[i..] == cs[j..] && Addr(bs, i) == Addr(cs, j) && i <= k <= |bs|
    ensures k - i + j <= |cs| && Addr(bs, k) == Addr(cs, k - i + j)
    decreases k
  {
    assert |bs| - i == |cs| - j;
    if k > i {
      AddrSuffix(bs, cs, i, j, k - 1);
      assert bs[i..][k - 1 - i] == bs[k - 1] && cs[j..][k - 1 - i] == cs[k - 1 - i + j];
    }
  }

  /** Payloads lie inside the heap and never overlap. */
  lemma PayloadsDisjoint(bs: seq<Blk>, pages: nat, i: nat, j: nat)
    requires HeapOK(bs, pages) && i < j < |bs|
    ensures START + 24 <= Addr(bs, i) + 24 && Addr(bs, i) + 24 + bs[i].size <= Addr(bs, j)
    ensures Addr(bs, j) + 24 + bs[j].size <= START + 4096 * pages
  {
    AddrAbove(bs, i);
    AddrGrows(bs, i, j);
    AddrGrows(bs, j, |bs|);
  }

  // ---------- allocation ----------

  /** The first free block of at least `size` bytes from block `k` on. */
  function FirstFit(bs: seq<Blk>, size: nat, k: nat): (i: nat)
    requires k <= |bs|
    ensures k <= i <= |bs| && (i < |bs| ==> bs[i].free && bs[i].size >= size)
    ensures forall j :: k <= j < i ==> !(bs[j].free && bs[j].size >= size)
    decreases |bs| - k
  {
    if k == |bs| || (bs[k].free && bs[k].size >= size) then k else FirstFit(bs, size, k + 1)
  }

  /** Cuts block `k` down to `size` bytes if the rest is large enough for a block. */
  function Split(bs: seq<Blk>, k: nat, size: nat): (cs: seq<Blk>)
    requires k < |bs| && size <= bs[k].size
  {
    if bs[k].size - size < 32 then bs
    else bs[..k] + [Blk(size, bs[k].free), Blk(bs[k].size - size - 24, true)] + bs[k + 1..]
  }

  function Allocate(bs: seq<Blk>, k: nat, size: nat): (cs: seq<Blk>)
    requires k < |bs| && size <= bs[k].size
  {
    Split(bs, k, size)[k := Split(bs, k, size)[k].(free := false)]
  }

  function MergeNext(bs: seq<Blk>, k: nat): (cs: seq<Blk>)
    requires k < |bs|
  {
    if k + 1 == |bs| || !bs[k + 1].free then bs
    else bs[..k] + [Blk(bs[k].size + 24 + bs[k + 1].size, bs[k].free)] + bs[k + 2..]
  }

  function Release(bs: seq<Blk>, k: nat): (cs: seq<Blk>)
    requires k < |bs|
  {
    var ds := MergeNext(bs[k := bs[k].(free := true)], k);
    if k > 0 && ds[k - 1].free then MergeNext(ds, k - 1) else ds
  }

  /** The list after `bytes` more bytes were mapped at its end. */
  function Grow(bs: seq<Blk>, bytes: nat): (cs: seq<Blk>)
    requires bs != [] && bytes >= 24
  {
    var n := |bs| - 1;
    if bs[n].free then bs[n := Blk(bs[n].size + bytes, true)] else bs + [Blk(bytes - 24, true)]
  }

  /** Bytes that must be mapped so that the last block can hold `size` bytes. */
  function Missing(bs: seq<Blk>, size: nat): (m: nat)
    requires bs != []
  {
    var last := bs[|bs| - 1];
    if last.free then (if last.size >= size then 0 else size - last.size) else size + 24
  }

  lemma SplitAddr(bs: seq<Blk>, k: nat, size: nat)
    requires k < |bs| && size <= bs[k].size
    ensures Addr(Split(bs, k, size), k) == Addr(bs, k)
    ensures Addr(Split(bs, k, size), |Split(bs, k, size)|) == Addr(bs, |bs|)
  {
    var cs := Split(bs, k, size);
    if cs != bs {
      AddrPrefix(bs, cs, k);
      assert bs[k + 1..] == cs[k + 2..];
      assert Addr(cs, k + 2) == Addr(cs, k + 1) + 24 + cs[k + 1].size;
      AddrSuffix(bs, cs, k + 1, k + 2, |bs|);
    }
  }

  lemma {:induction false} SameSizes(bs: seq<Blk>, cs: seq<Blk>, k: nat)
    requires |bs| == |cs| && k <= |bs| && forall i :: 0 <= i < |bs| ==> bs[i].size == cs[i].size
    ensures Addr(bs, k) == Addr(cs, k)
  {
    if k > 0 { SameSizes(bs, cs, k - 1); }
  }

  lemma AllocateKeeps(bs: seq<Blk>, pages: nat, k: nat, size: nat)
    requires HeapOK(bs, pages) && k < |bs| && bs[k].free && 0 < size <= bs[k].size && size % 8 == 0
    ensures HeapOK(Allocate(bs, k, size), pages)
  {
    var cs, ds := Split(bs, k, size), Allocate(bs, k, size);
    SplitAddr(bs, k, size);
    SameSizes(cs, ds, |cs|);
    assert SizesOK(ds) by {
      forall i | 0 <= i < |ds| ensures ds[i].size > 0 && ds[i].size % 8 == 0 {
        if cs != bs && i > k + 1 { assert ds[i] == bs[i - 1]; }
      }
    }
    assert NoFreeNeighbours(ds) by {
      forall i | 0 <= i < |ds| - 1 ensures !(ds[i].free && ds[i + 1].free) {
        if cs != bs && i >= k + 1 { assert ds[i + 1] == bs[i]; assert i > k + 1 ==> ds[i] == bs[i - 1]; }
      }
    }
  }

  lemma MergeAddr(bs: seq<Blk>, k: nat)
    requires k < |bs|
    ensures Addr(MergeNext(bs, k), |MergeNext(bs, k)|) == Addr(bs, |bs|)
  {
    var cs := MergeNext(bs, k);
    if cs != bs {
      AddrPrefix(bs, cs, k);
      assert bs[k + 2..] == cs[k + 1..];
      assert Addr(bs, k + 2) == Addr(bs, k + 1) + 24 + bs[k + 1].size;
      AddrSuffix(bs, cs, k + 2, k + 1, |bs|);
    }
  }

  /** At most the pairs that touch block `k` may both be free. */
  ghost predicate NoFreeNeighboursBut(bs: seq<Blk>, lo: int, hi: int) {
    forall i :: 0 <= i < |bs| - 1 && !(lo <= i < hi) ==> !(bs[i].free && bs[i + 1].free)
  }

  lemma MergeKeeps(bs: seq<Blk>, k: nat, lo: nat)
    requires k < |bs| && SizesOK(bs) && lo <= k && bs[k].free && NoFreeNeighboursBut(bs, lo, k + 1)
    ensures var cs := MergeNext(bs, k);
            && k < |cs| && cs[..k] == bs[..k] && cs[k].free
            && SizesOK(cs) && NoFreeNeighboursBut(cs, lo, k)
  {
    var cs := MergeNext(bs, k);
    if cs != bs {
      forall i | 0 <= i < |cs| ensures cs[i].size > 0 && cs[i].size % 8 == 0 {
        if i > k { assert cs[i] == bs[i + 1]; }
      }
      forall i | 0 <= i < |cs| - 1 && !(lo <= i < k) ensures !(cs[i].free && cs[i + 1].free) {
        if i >= k {
          assert cs[i + 1] == bs[i + 2] && !(bs[i + 1].free && bs[i + 2].free);
          assert i > k ==> cs[i] == bs[i + 1];
        }
      }
    }
  }

  lemma ReleaseKeeps(bs: seq<Blk>, pages: nat, k: nat)
    requires HeapOK(bs, pages) && k < |bs|
    ensures HeapOK(Release(bs, k), pages)
  {
    var as_ := bs[k := bs[k].(free := true)];
    SameSizes(bs, as_, |bs|);
    var ds := MergeNext(as_, k);
    MergeAddr(as_, k);
    MergeKeeps(as_, k, if k == 0 then 0 else k - 1);
    if k > 0 && ds[k - 1].free {
      MergeAddr(ds, k - 1);
      MergeKeeps(ds, k - 1, k - 1);
    }
  }

  /** Freeing a block right after it was allocated restores the list. */
  lemma AllocateRelease(bs: seq<Blk>, pages: nat, k: nat, size: nat)
    requires HeapOK(bs, pages) && k < |bs| && bs[k].free && 0 < size <= bs[k].size && size % 8 == 0
    ensures k < |Allocate(bs, k, size)| && Release(Allocate(bs, k, size), k) == bs
  {
    var cs, ds := Split(bs, k, size), Allocate(bs, k, size);
    assert k > 0 ==> ds[k - 1] == bs[k - 1] && !bs[k - 1].free;
    if cs != bs {
      assert ds[k + 2..] == bs[k + 1..];
      assert MergeNext(ds[k := ds[k].(free := true)], k) == bs;
    } else {
      assert ds[k := ds[k].(free := true)] == bs;
      assert k + 1 < |bs| ==> !(bs[k].free && bs[k + 1].free);
    }
  }

  lemma GrowAddr(bs: seq<Blk>, bytes: nat)
    requires bs != [] && bytes >= 24
    ensures Addr(Grow(bs, bytes), |Grow(bs, bytes)|) == Addr(bs, |bs|) + bytes
  {
    var cs, n := Grow(bs, bytes), |bs| - 1;
    if bs[n].free {
      AddrPrefix(bs, cs, n);
    } else {
      AddrPrefix(bs, cs, |bs|);
    }
  }

  lemma GrowShape(bs: seq<Blk>, bytes: nat)
    requires bs != [] && SizesOK(bs) && NoFreeNeighbours(bs) && bytes > 24 && bytes % 8 == 0
    ensures Grow(bs, bytes) != [] && SizesOK(Grow(bs, bytes)) && NoFreeNeighbours(Grow(bs, bytes))
  {
  }

  lemma GrowKeeps(bs: seq<Blk>, pages: nat, more: nat)
    requires HeapOK(bs, pages) && more > 0 && 4096 * (pages + more) <= MAX_SIZE
    ensures HeapOK(Grow(bs, 4096 * more), pages + more)
  {
    hide Addr, SizesOK, NoFreeNeighbours, Grow;
    var bytes := 4096 * more;
    assert bytes % 8 == 0;
    GrowAddr(bs, bytes);
    GrowShape(bs, bytes);
  }

  /** After growth the request fits. */
  lemma GrowFits(bs: seq<Blk>, size: nat, bytes: nat)
    requires bs != [] && bytes >= 24 && bytes >= Missing(bs, size)
    ensures FirstFit(Grow(bs, bytes), size, 0) < |Grow(bs, bytes)|
  {
    var cs := Grow(bs, bytes);
    assert cs[|cs| - 1].free && cs[|cs| - 1].size >= size;
  }
}
