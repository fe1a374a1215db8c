/** The heap as its callers see it: which address ranges are allocated. */
module HeapRanges {
  import opened HeapModel
  import opened Heap

  /** `n` bytes from address `p` on are allocated. */
  ghost predicate HasRange(bs: seq<Blk>, p: nat, n: nat) {
    exists k: nat :: AllocatedAt(bs, p, k) && bs[k].size == n
  }

  // ---------- the ranges determine the heap ----------

  /** Only one block begins at an address. */
  lemma AddrInjective(bs: seq<Blk>, j: nat, k: nat)
    requires j < |bs| && k < |bs| && Addr(bs, j) == Addr(bs, k)
    ensures j == k
  {
    if j < k { AddrGrows(bs, j, k); }
    if k < j { AddrGrows(bs, k, j); }
  }

  /** No block begins inside another one. */
  lemma NothingInside(bs: seq<Blk>, j: nat, k: nat)
    requires j < |bs| && k < |bs|
    ensures Addr(bs, j) <= Addr(bs, k) || Addr(bs, k) + 24 + bs[k].size <= Addr(bs, j)
  {
    if j < k { AddrGrows(bs, j, k); }
    if k < j { AddrGrows(bs, k, j); }
  }

  lemma AllocatedThere(bs: seq<Blk>, cs: seq<Blk>, k: nat) returns (j: nat)
    requires k < |bs| && !bs[k].free && forall p: nat, n: nat :: HasRange(bs, p, n) ==> HasRange(cs, p, n)
    ensures j < |cs| && !cs[j].free && Addr(cs, j) == Addr(bs, k) && cs[j].size == bs[k].size
  {
    hide Addr;
    var p := Addr(bs, k) + 24;
    assert AllocatedAt(bs, p, k);
    assert HasRange(bs, p, bs[k].size);
    j :| AllocatedAt(cs, p, j) && cs[j].size == bs[k].size;
  }

  ghost predicate SameRanges(bs: seq<Blk>, cs: seq<Blk>) {
    forall p: nat, n: nat :: HasRange(bs, p, n) <==> HasRange(cs, p, n)
  }

  /** A free block of `bs` at the same address as block `k` of `cs` is not the smaller one. */
  lemma NotSmaller(bs: seq<Blk>, cs: seq<Blk>, pages: nat, k: nat)
    requires HeapOK(bs, pages) && HeapOK(cs, pages) && SameRanges(bs, cs)
    requires k < |bs| && k < |cs| && Addr(bs, k) == Addr(cs, k) && bs[k].free && cs[k].free
    ensures bs[k].size >= cs[k].size
  {
    hide HasRange, SizesOK;
    AddrGrows(cs, k, |cs|);
    assert Addr(bs, k + 1) == Addr(bs, k) + 24 + bs[k].size;
    if k + 1 < |bs| {
      var j := AllocatedThere(bs, cs, k + 1);
      NothingInside(cs, j, k);
    }
  }

  lemma SameBlock(bs: seq<Blk>, cs: seq<Blk>, pages: nat, k: nat)
    requires HeapOK(bs, pages) && HeapOK(cs, pages) && SameRanges(bs, cs)
    requires k < |bs| && k < |cs| && Addr(bs, k) == Addr(cs, k)
    ensures bs[k] == cs[k]
  {
    hide HasRange, SizesOK, NoFreeNeighbours, Addr;
    if !bs[k].free {
      var j := AllocatedThere(bs, cs, k);
      AddrInjective(cs, j, k);
    } else if !cs[k].free {
      var j := AllocatedThere(cs, bs, k);
      AddrInjective(bs, j, k);
    } else {
      NotSmaller(bs, cs, pages, k);
      NotSmaller(cs, bs, pages, k);
    }
  }

  lemma {:induction false} SamePrefix(bs: seq<Blk>, cs: seq<Blk>, pages: nat, k: nat)
    requires HeapOK(bs, pages) && HeapOK(cs, pages) && SameRanges(bs, cs) && k <= |bs| && k <= |cs|
    ensures bs[..k] == cs[..k]
  {
    hide HasRange, SizesOK, NoFreeNeighbours, SameRanges;
    if k > 0 {
      SamePrefix(bs, cs, pages, k - 1);
      AddrPrefix(bs, cs, k - 1);
      SameBlock(bs, cs, pages, k - 1);
      assert bs[..k] == bs[..k - 1] + [bs[k - 1]] && cs[..k] == cs[..k - 1] + [cs[k - 1]];
    }
  }

  /** A heap of given size is determined by its allocated ranges: free space is merged as far as it
      can be, so nothing else can differ. */
  lemma RangesDetermine(bs: seq<Blk>, cs: seq<Blk>, pages: nat)
    requires HeapOK(bs, pages) && HeapOK(cs, pages) && SameRanges(bs, cs)
    ensures bs == cs
  {
    hide SizesOK, NoFreeNeighbours, SameRanges;
    var k := if |bs| <= |cs| then |bs| else |cs|;
    SamePrefix(bs, cs, pages, k);
    AddrPrefix(bs, cs, k);
    if k < |cs| { AddrGrows(cs, k, |cs|); }
    if k < |bs| { AddrGrows(bs, k, |bs|); }
  }

  // ---------- what the operations do to the ranges ----------

  lemma MergeRanges(bs: seq<Blk>, k: nat, p: nat, n: nat)
    requires k < |bs| && bs[k].free
    ensures HasRange(MergeNext(bs, k), p, n) <==> HasRange(bs, p, n)
  {
    var cs := MergeNext(bs, k);
    if cs != bs {
      forall j: nat | j <= k ensures Addr(cs, j) == Addr(bs, j) {
        assert cs[..j] == bs[..j];
        AddrPrefix(bs, cs, j);
      }
      assert Addr(bs, k + 2) == Addr(bs, k + 1) + 24 + bs[k + 1].size == Addr(cs, k + 1);
      forall j: nat | k + 2 <= j < |bs| ensures Addr(cs, j - 1) == Addr(bs, j) && cs[j - 1] == bs[j] {
        assert bs[k + 2..] == cs[k + 1..];
        AddrSuffix(bs, cs, k + 2, k + 1, j);
      }
      if HasRange(bs, p, n) {
        var j: nat :| AllocatedAt(bs, p, j) && bs[j].size == n;
        assert AllocatedAt(cs, p, if j < k then j else j - 1);
      }
      if HasRange(cs, p, n) {
        var j: nat :| AllocatedAt(cs, p, j) && cs[j].size == n;
        if j < k {
          assert AllocatedAt(bs, p, j);
        } else {
          assert Addr(cs, j) == Addr(bs, j + 1);
          assert AllocatedAt(bs, p, j + 1);
        }
      }
    }
  }

  lemma MarkRanges(bs: seq<Blk>, k: nat, p: nat, n: nat)
    requires k < |bs| && !bs[k].free
    ensures HasRange(bs[k := bs[k].(free := true)], p, n) <==> HasRange(bs, p, n) && p != Addr(bs, k) + 24
  {
    var cs := bs[k := bs[k].(free := true)];
    forall j: nat | j <= |bs| ensures Addr(cs, j) == Addr(bs, j) { SameSizes(bs, cs, j); }
    if HasRange(bs, p, n) {
      var j: nat :| AllocatedAt(bs, p, j) && bs[j].size == n;
      if j != k {
        assert AllocatedAt(cs, p, j);
        if Addr(bs, j) == Addr(bs, k) { AddrInjective(bs, j, k); }
      }
    }
    if HasRange(cs, p, n) {
      var j: nat :| AllocatedAt(cs, p, j) && cs[j].size == n;
      assert AllocatedAt(bs, p, j);
      if Addr(bs, j) == Addr(bs, k) { AddrInjective(bs, j, k); }
    }
  }

  lemma SplitRanges(bs: seq<Blk>, k: nat, size: nat, p: nat, n: nat)
    requires k < |bs| && bs[k].free && size <= bs[k].size
    ensures HasRange(Split(bs, k, size), p, n) <==> HasRange(bs, p, n)
  {
    hide HasRange;
    var cs := Split(bs, k, size);
    if cs != bs {
      assert MergeNext(cs, k) == bs by { assert cs[k + 2..] == bs[k + 1..] && cs[..k] == bs[..k]; }
      MergeRanges(cs, k, p, n);
    }
  }

  lemma AllocateRanges(bs: seq<Blk>, k: nat, size: nat, p: nat, n: nat)
    requires k < |bs| && bs[k].free && size <= bs[k].size
    ensures var given := if bs[k].size - size < 32 then bs[k].size else size;
            HasRange(Allocate(bs, k, size), p, n) <==> HasRange(bs, p, n) || (p == Addr(bs, k) + 24 && n == given)
  {
    hide Addr;
    var cs, ds := Split(bs, k, size), Allocate(bs, k, size);
    SplitAddr(bs, k, size);
    SplitRanges(bs, k, size, p, n);
    SameSizes(cs, ds, k);
    MarkRanges(ds, k, p, n);
    assert ds[k := ds[k].(free := true)] == cs;
    assert AllocatedAt(ds, Addr(bs, k) + 24, k);
    if HasRange(ds, p, n) && p == Addr(bs, k) + 24 {
      var j: nat :| AllocatedAt(ds, p, j) && ds[j].size == n;
      AddrInjective(ds, j, k);
    }
  }

  lemma ReleaseRanges(bs: seq<Blk>, k: nat, p: nat, n: nat)
    requires k < |bs| && !bs[k].free
    ensures HasRange(Release(bs, k), p, n) <==> HasRange(bs, p, n) && p != Addr(bs, k) + 24
  {
    hide HasRange;
    var as_ := bs[k := bs[k].(free := true)];
    var ds := MergeNext(as_, k);
    MarkRanges(bs, k, p, n);
    MergeRanges(as_, k, p, n);
    if k > 0 && ds[k - 1].free { MergeRanges(ds, k - 1, p, n); }
  }

  lemma GrowRanges(bs: seq<Blk>, bytes: nat, p: nat, n: nat)
    requires bs != [] && bytes >= 24
    ensures HasRange(Grow(bs, bytes), p, n) <==> HasRange(bs, p, n)
  {
    var cs := Grow(bs, bytes);
    forall j: nat | j < |bs| ensures Addr(cs, j) == Addr(bs, j) {
      assert cs[..j] == bs[..j];
      AddrPrefix(bs, cs, j);
    }
    if HasRange(bs, p, n) {
      var j: nat :| AllocatedAt(bs, p, j) && bs[j].size == n;
      assert AllocatedAt(cs, p, j);
    }
    if HasRange(cs, p, n) {
      var j: nat :| AllocatedAt(cs, p, j) && cs[j].size == n;
      assert AllocatedAt(bs, p, j);
    }
  }

  // ---------- kmalloc and kfree ----------

  lemma {:induction false} AddrAligned(bs: seq<Blk>, k: nat)
    requires SizesOK(bs) && k <= |bs|
    ensures Addr(bs, k) % 8 == 0
  {
    if k > 0 { AddrAligned(bs, k - 1); }
  }

  /** Fewer bytes than are mapped would not have made the request fit. */
  lemma GrowNoLess(bs: seq<Blk>, size: nat, bytes: nat)
    requires bs != [] && size > 0 && 24 <= bytes < Missing(bs, size) && FirstFit(bs, size, 0) == |bs|
    ensures FirstFit(Grow(bs, bytes), size, 0) == |Grow(bs, bytes)|
  {
    hide FirstFit;
    var cs := Grow(bs, bytes);
    assert forall i :: 0 <= i < |bs| - 1 ==> cs[i] == bs[i];
    assert !(bs[|bs| - 1].free && bs[|bs| - 1].size >= size);
  }

  /** Some free block can hold the bytes. */
  ghost predicate SomeFit(bs: seq<Blk>, size: nat) { exists k :: 0 <= k < |bs| && bs[k].free && bs[k].size >= size }

  /** With `n` more pages at the end some free block could hold the bytes. */
  ghost predicate FitsGrown(bs: seq<Blk>, size: nat, n: nat)
    requires bs != []
  {
    if n == 0 then SomeFit(bs, size) else SomeFit(Grow(bs, 4096 * n), size)
  }

  lemma FirstFitSome(bs: seq<Blk>, size: nat)
    ensures FirstFit(bs, size, 0) < |bs| <==> SomeFit(bs, size)
  {
    hide FirstFit;
  }

  /** The pages by which the heap grows are the fewest that make the request fit. */
  lemma GrowsByFewest(bs: seq<Blk>, size: nat, n: nat)
    requires bs != [] && size > 0 && !SomeFit(bs, size)
    ensures FitsGrown(bs, size, n) <==> n >= (Missing(bs, size) + 4095) / 4096
  {
    hide FirstFit, SomeFit, Grow;
    FirstFitSome(bs, size);
    var more := (Missing(bs, size) + 4095) / 4096;
    MissingPositive(bs, size);
    if n > 0 {
      FirstFitSome(Grow(bs, 4096 * n), size);
      if n >= more { GrowFits(bs, size, 4096 * n); } else { GrowNoLess(bs, size, 4096 * n); }
    }
  }

  /** What kmalloc does: it gives an aligned range of at least the requested and less than 40 bytes
      more, which adds to the allocated ranges and changes none of them; it takes the lowest free
      block that can hold it, or grows the heap by the fewest pages. */
  ghost predicate Given(bs: seq<Blk>, size: nat, cs: seq<Blk>, pages': nat, p: nat, n: nat) {
    && p % 8 == 0 && size <= n < size + 40 && 0xD100_0018 <= p && p + n <= 0xD100_0000 + 4096 * pages'
    && forall q: nat, x: nat :: HasRange(cs, q, x) <==> HasRange(bs, q, x) || (q == p && x == n)
  }

  /** No free block below the payload address `p` can hold `size` bytes, and the one there can. */
  ghost predicate Lowest(bs: seq<Blk>, size: nat, p: nat) {
    && (exists k: nat :: k < |bs| && bs[k].free && Addr(bs, k) + 24 == p && bs[k].size >= size)
    && forall k: nat :: k < |bs| && bs[k].free && bs[k].size >= size ==> p <= Addr(bs, k) + 24
  }

  lemma FirstIsLowest(bs: seq<Blk>, size: nat)
    requires FirstFit(bs, size, 0) < |bs|
    ensures Lowest(bs, size, Addr(bs, FirstFit(bs, size, 0)) + 24)
  {
    hide FirstFit;
    var f := FirstFit(bs, size, 0);
    forall k: nat | k < |bs| && bs[k].free && bs[k].size >= size ensures Addr(bs, f) <= Addr(bs, k) {
      if f < k { AddrGrows(bs, f, k); }
    }
  }

  lemma Gives(bs: seq<Blk>, pages: nat, k: nat, size: nat) returns (n: nat)
    requires HeapOK(bs, pages) && k < |bs| && bs[k].free && 0 < size && (size + 7) / 8 * 8 <= bs[k].size
    ensures Given(bs, size, Allocate(bs, k, (size + 7) / 8 * 8), pages, Addr(bs, k) + 24, n)
  {
    hide HasRange, Allocate;
    var aligned := (size + 7) / 8 * 8;
    n := if bs[k].size - aligned < 32 then bs[k].size else aligned;
    AddrAligned(bs, k);
    AddrAbove(bs, k);
    AddrGrows(bs, k, |bs|);
    forall q: nat, x: nat
      ensures HasRange(Allocate(bs, k, aligned), q, x) <==> HasRange(bs, q, x) || (q == Addr(bs, k) + 24 && x == n)
    {
      AllocateRanges(bs, k, aligned, q, x);
    }
  }

  /** All outcomes of kmalloc. */
  lemma MallocMeans(bs: seq<Blk>, pages: nat, size: nat, granted: bool, cs: seq<Blk>, pages': nat, p: nat)
    requires HeapOK(bs, pages) && MallocSpec(bs, pages, size, granted, cs, pages', p)
    ensures var aligned := (size + 7) / 8 * 8;
            if size == 0 || size > 0xFF_FFE8 then p == 0 && cs == bs && pages' == pages
            else if SomeFit(bs, aligned) then
              pages' == pages && Lowest(bs, aligned, p) && exists n :: Given(bs, size, cs, pages, p, n)
            else if p == 0 then
              cs == bs && pages' == pages && (granted ==> forall n :: FitsGrown(bs, aligned, n) ==> pages + n > 4096)
            else
              && granted && pages < pages' <= 4096 && FitsGrown(bs, aligned, pages' - pages)
              && (forall n :: 0 <= n < pages' - pages ==> !FitsGrown(bs, aligned, n))
              && exists n :: Given(bs, size, cs, pages', p, n)
  {
    hide FirstFit, SomeFit, Grow, Allocate, HeapOK, Given, Lowest, FitsGrown, Missing, Addr;
    var aligned := (size + 7) / 8 * 8;
    if 0 < size <= 0xFF_FFE8 {
      FirstFitSome(bs, aligned);
      if SomeFit(bs, aligned) {
        FirstIsLowest(bs, aligned);
        var n := Gives(bs, pages, FirstFit(bs, aligned, 0), size);
      } else {
        GrownOutcome(bs, pages, size, granted, cs, pages', p);
      }
    }
  }

  lemma GrownOutcome(bs: seq<Blk>, pages: nat, size: nat, granted: bool, cs: seq<Blk>, pages': nat, p: nat)
    requires HeapOK(bs, pages) && MallocSpec(bs, pages, size, granted, cs, pages', p) && 0 < size <= 0xFF_FFE8
    requires !SomeFit(bs, (size + 7) / 8 * 8)
    ensures var aligned := (size + 7) / 8 * 8;
            if p == 0 then
              cs == bs && pages' == pages && (granted ==> forall n :: FitsGrown(bs, aligned, n) ==> pages + n > 4096)
            else
              && granted && pages < pages' <= 4096 && FitsGrown(bs, aligned, pages' - pages)
              && (forall n :: 0 <= n < pages' - pages ==> !FitsGrown(bs, aligned, n))
              && exists n :: Given(bs, size, cs, pages', p, n)
  {
    hide FirstFit, SomeFit, Grow, Allocate, Given, FitsGrown, Missing, Addr, HasRange;
    var aligned := (size + 7) / 8 * 8;
    var more := (Missing(bs, aligned) + 4095) / 4096;
    FirstFitSome(bs, aligned);
    MissingPositive(bs, aligned);
    forall n: nat ensures FitsGrown(bs, aligned, n) <==> n >= more { GrowsByFewest(bs, aligned, n); }
    if more <= 4096 - pages && granted {
      var gs := Grow(bs, 4096 * more);
      GrowKeeps(bs, pages, more);
      var n := Gives(gs, pages', FirstFit(gs, aligned, 0), size);
      GivenGrown(bs, 4096 * more, size, cs, pages', p, n);
      assert p > 0 by { GivenAbove(bs, size, cs, pages', p, n); }
    }
  }

  lemma GivenAbove(bs: seq<Blk>, size: nat, cs: seq<Blk>, pages': nat, p: nat, n: nat)
    requires Given(bs, size, cs, pages', p, n)
    ensures p > 0
  {
  }

  lemma GivenGrown(bs: seq<Blk>, bytes: nat, size: nat, cs: seq<Blk>, pages': nat, p: nat, n: nat)
    requires bs != [] && bytes >= 24 && Given(Grow(bs, bytes), size, cs, pages', p, n)
    ensures Given(bs, size, cs, pages', p, n)
  {
    hide HasRange, Grow;
    forall q: nat, x: nat ensures HasRange(Grow(bs, bytes), q, x) <==> HasRange(bs, q, x) {
      GrowRanges(bs, bytes, q, x);
    }
  }

  /** What kfree does: the range at that address, and no other, is not allocated any more; it
      fails and changes nothing exactly if no range begins there. */
  lemma FreeMeans(bs: seq<Blk>, p: nat, cs: seq<Blk>, ok: bool)
    requires FreeSpec(bs, p, cs, ok)
    ensures ok <==> p == 0 || exists n: nat :: HasRange(bs, p, n)
    ensures !ok || p == 0 ==> cs == bs
    ensures ok && p != 0 ==> forall q: nat, x: nat :: HasRange(cs, q, x) <==> HasRange(bs, q, x) && q != p
  {
    hide Release, Addr;
    if k: nat :| AllocatedAt(bs, p, k) { assert HasRange(bs, p, bs[k].size); }
    if ok && p != 0 {
      var k: nat :| AllocatedAt(bs, p, k) && cs == Release(bs, k);
      forall q: nat, x: nat ensures HasRange(cs, q, x) <==> HasRange(bs, q, x) && q != p {
        ReleaseRanges(bs, k, q, x);
      }
    }
  }
}
