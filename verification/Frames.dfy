/** Physical page frames: which may be handed out, and the allocator that does so. */
module Frames {

  /** One flag per frame: whether it may ever be handed out, and whether it is in use. */
  datatype Pool = Pool(allocatable: seq<bool>, used: seq<bool>)

  predicate IsFree(p: Pool, f: nat) { f < |p.allocatable| && f < |p.used| && p.allocatable[f] && !p.used[f] }

  predicate Taken(p: Pool, f: nat) { f < |p.allocatable| && f < |p.used| && p.allocatable[f] && p.used[f] }

  /** Frame 0 is never handed out, so that address 0 can stand for failure. */
  ghost predicate PoolOK(p: Pool) { 0 < |p.allocatable| == |p.used| <= 0x10_0000 && !p.allocatable[0] }

  function FreeFrames(p: Pool): (fs: set<nat>)
    ensures forall f :: f in fs <==> IsFree(p, f)
  {
    set f: nat | f < |p.used| && IsFree(p, f)
  }

  function Take(p: Pool, f: nat): (q: Pool)
    requires f < |p.used|
  {
    p.(used := p.used[f := true])
  }

  function Give(p: Pool, f: nat): (q: Pool)
    requires f < |p.used|
  {
    p.(used := p.used[f := false])
  }

  lemma TakeCount(p: Pool, f: nat)
    requires PoolOK(p) && IsFree(p, f)
    ensures PoolOK(Take(p, f)) && FreeFrames(Take(p, f)) == FreeFrames(p) - {f}
    ensures |FreeFrames(p)| == |FreeFrames(Take(p, f))| + 1
    ensures Taken(Take(p, f), f)
  {
  }

  lemma GiveCount(p: Pool, f: nat)
    requires PoolOK(p) && Taken(p, f)
    ensures PoolOK(Give(p, f)) && FreeFrames(Give(p, f)) == FreeFrames(p) + {f}
    ensures |FreeFrames(Give(p, f))| == |FreeFrames(p)| + 1
  {
    assert FreeFrames(Give(p, f)) == FreeFrames(p) + {f};
  }

  // ---------- which frames may be handed out ----------

  /** An entry of the firmware's memory map; `base` and `length` are 64-bit numbers. */
  datatype Range = Range(base: nat, length: nat, usable: bool)

  /** End of a range, cut off at 4 GiB; a sum that overflows counts as beyond. */
  function End(base: nat, length: nat): (e: nat) {
    if base + length >= 0x1_0000_0000_0000_0000 || base + length > 0x1_0000_0000 then 0x1_0000_0000 else base + length
  }

  /** Frame `f` lies wholly inside the range. */
  predicate Inside(f: nat, base: nat, length: nat) {
    length > 0 && base <= 4096 * f && 4096 * f + 4096 <= End(base, length)
  }

  /** Frame `f` has a byte in common with the range. */
  predicate Touches(f: nat, base: nat, length: nat) {
    length > 0 && base < 4096 * f + 4096 && 4096 * f < End(base, length)
  }

  method RangeToPages(base: nat, length: nat) returns (ok: bool, first: nat, limit: nat)
    requires base < 0x1_0000_0000_0000_0000 && length < 0x1_0000_0000_0000_0000
    ensures ok ==> first < limit <= 0x10_0000
    ensures forall f: nat :: (ok && first <= f < limit) <==> Inside(f, base, length)
  {
    if length == 0 || base >= 0x1_0000_0000 {
      return false, 0, 0;
    }
    var end := (base + length) % 0x1_0000_0000_0000_0000;
    if end < base || end > 0x1_0000_0000 {
      end := 0x1_0000_0000;
    }
    if base > 0x1_0000_0000 - 4095 {
      return false, 0, 0;
    }
    var start := (base + 4095) / 4096 * 4096;
    end := end / 4096 * 4096;
    if start >= end {
      return false, 0, 0;
    }
    return true, start / 4096, end / 4096;
  }

  method ReservedPages(base: nat, length: nat) returns (first: nat, limit: nat)
    requires base < 0x1_0000_0000_0000_0000 && length < 0x1_0000_0000_0000_0000
    ensures limit <= 0x10_0000
    ensures forall f: nat :: first <= f < limit <==> Touches(f, base, length)
  {
    if length == 0 || base >= 0x1_0000_0000 {
      return 0, 0;
    }
    var end := (base + length) % 0x1_0000_0000_0000_0000;
    if end < base || end > 0x1_0000_0000 {
      end := 0x1_0000_0000;
    }
    first := base / 4096;
    if end == 0x1_0000_0000 {
      limit := 0x10_0000;
    } else {
      limit := (end + 4095) / 4096;
    }
  }

  /** Sets the flags of frames `first..limit`. */
  method Fill(flags: seq<bool>, first: nat, limit: nat, value: bool) returns (r: seq<bool>)
    requires limit <= |flags|
    ensures |r| == |flags| && forall f :: 0 <= f < |r| ==> r[f] == if first <= f < limit then value else flags[f]
  {
    r := flags;
    var page := first;
    while page < limit
      invariant |r| == |flags| && if first <= limit then first <= page <= limit else page == first
      invariant forall f :: 0 <= f < |r| ==> r[f] == if first <= f < page then value else flags[f]
    {
      r := r[page := value];
      page := page + 1;
    }
  }

  ghost predicate Wide(r: Range) { r.base < 0x1_0000_0000_0000_0000 && r.length < 0x1_0000_0000_0000_0000 }

  ghost predicate UsableBefore(entries: seq<Range>, n: nat, f: nat)
    requires n <= |entries|
  {
    exists i :: 0 <= i < n && entries[i].usable && Inside(f, entries[i].base, entries[i].length)
  }

  ghost predicate ReservedBefore(entries: seq<Range>, n: nat, f: nat)
    requires n <= |entries|
  {
    exists i :: 0 <= i < n && !entries[i].usable && Touches(f, entries[i].base, entries[i].length)
  }

  method MarkUsable(entries: seq<Range>) returns (allocatable: seq<bool>, maximum: nat)
    requires forall i :: 0 <= i < |entries| ==> Wide(entries[i])
    ensures |allocatable| == 0x10_0000 && maximum <= 0x10_0000
    ensures forall f: nat :: f < 0x10_0000 ==> (allocatable[f] <==> UsableBefore(entries, |entries|, f))
    ensures forall f: nat :: UsableBefore(entries, |entries|, f) ==> f < maximum
  {
    hide Inside, UsableBefore;
    forall f: nat ensures !UsableBefore(entries, 0, f) { NoneUsable(entries, f); }
    allocatable, maximum := seq(0x10_0000, _ => false), 0;
    for index := 0 to |entries|
      invariant |allocatable| == 0x10_0000 && maximum <= 0x10_0000
      invariant forall f: nat :: f < 0x10_0000 ==> (allocatable[f] <==> UsableBefore(entries, index, f))
      invariant forall f: nat :: UsableBefore(entries, index, f) ==> f < maximum
    {
      var e := entries[index];
      assert Wide(e);
      var ok, first, limit := RangeToPages(e.base, e.length);
      ghost var before := allocatable;
      if ok {
        if limit > maximum {
          maximum := limit;
        }
        if e.usable {
          allocatable := Fill(allocatable, first, limit, true);
        }
      }
      ghost var next := index + 1;
      forall f: nat
        ensures UsableBefore(entries, next, f) <==>
            UsableBefore(entries, index, f) || (e.usable && ok && first <= f < limit)
      {
        OneMoreUsable(entries, index, f);
      }
    }
  }

  lemma NoneUsable(entries: seq<Range>, f: nat)
    ensures !UsableBefore(entries, 0, f) && !ReservedBefore(entries, 0, f)
  {
  }

  lemma OneMoreUsable(entries: seq<Range>, n: nat, f: nat)
    requires n < |entries|
    ensures UsableBefore(entries, n + 1, f) <==>
              UsableBefore(entries, n, f) || (entries[n].usable && Inside(f, entries[n].base, entries[n].length))
  {
  }

  method MarkReserved(entries: seq<Range>, flags: seq<bool>) returns (allocatable: seq<bool>)
    requires (forall i :: 0 <= i < |entries| ==> Wide(entries[i])) && |flags| == 0x10_0000
    ensures |allocatable| == 0x10_0000
    ensures forall f: nat :: f < 0x10_0000 ==> (allocatable[f] <==> flags[f] && !ReservedBefore(entries, |entries|, f))
  {
    hide Touches;
    allocatable := flags;
    for index := 0 to |entries|
      invariant |allocatable| == 0x10_0000
      invariant forall f: nat :: f < 0x10_0000 ==> (allocatable[f] <==> flags[f] && !ReservedBefore(entries, index, f))
    {
      var e := entries[index];
      assert Wide(e);
      ghost var first, limit := 0, 0;
      if !e.usable {
        var a, b := ReservedPages(e.base, e.length);
        allocatable := Fill(allocatable, a, b, false);
        first, limit := a, b;
      }
      forall f: nat
        ensures ReservedBefore(entries, index + 1, f) <==>
            ReservedBefore(entries, index, f) || (!e.usable && first <= f < limit)
      {
        OneMoreReserved(entries, index, f);
      }
    }
  }

  lemma OneMoreReserved(entries: seq<Range>, n: nat, f: nat)
    requires n < |entries|
    ensures ReservedBefore(entries, n + 1, f) <==>
              ReservedBefore(entries, n, f) || (!entries[n].usable && Touches(f, entries[n].base, entries[n].length))
  {
  }

  /** A frame may be handed out if it lies inside usable memory, and outside everything reserved,
      the first megabyte and the kernel. */
  ghost predicate MayHandOut(entries: seq<Range>, kernelStart: nat, kernelEnd: nat, f: nat) {
    && UsableBefore(entries, |entries|, f) && !ReservedBefore(entries, |entries|, f)
    && f >= 256 && !(kernelStart < 4096 * f + 4096 && 4096 * f < kernelEnd)
  }

  /** Sets the pool up from the firmware's memory map; without a free frame the kernel panics. */
  method InitPool(entries: seq<Range>, kernelStart: nat, kernelEnd: nat) returns (ok: bool, p: Pool, free: nat)
    requires forall i :: 0 <= i < |entries| ==> Wide(entries[i])
    requires kernelStart < kernelEnd < 0x1_0000_0000
    ensures ok <==> exists f: nat :: MayHandOut(entries, kernelStart, kernelEnd, f)
    ensures forall f: nat :: IsFree(p, f) <==> MayHandOut(entries, kernelStart, kernelEnd, f)
    ensures free == |FreeFrames(p)| && (ok ==> PoolOK(p))
  {
    hide Touches, UsableBefore, ReservedBefore;
    var allocatable, maximum := MarkUsable(entries);
    allocatable := MarkReserved(entries, allocatable);
    allocatable := Fill(allocatable, 0, 256, false);
    var a, b := ReservedPages(kernelStart, kernelEnd - kernelStart);
    allocatable := Fill(allocatable, a, b, false);
    forall f: nat ensures (a <= f < b) == (kernelStart < 4096 * f + 4096 && 4096 * f < kernelEnd) {
      KernelTouches(f, kernelStart, kernelEnd);
    }
    p := Pool(allocatable[..maximum], seq(maximum, f requires 0 <= f < maximum => !allocatable[f]));
    free := CountFree(p);
    ok := maximum > 0 && free > 0;
    if free > 0 {
      var f :| f in FreeFrames(p);
      assert MayHandOut(entries, kernelStart, kernelEnd, f);
    }
    assert forall f: nat :: MayHandOut(entries, kernelStart, kernelEnd, f) ==> f in FreeFrames(p);
  }

  lemma KernelTouches(f: nat, kernelStart: nat, kernelEnd: nat)
    requires kernelStart < kernelEnd < 0x1_0000_0000
    ensures Touches(f, kernelStart, kernelEnd - kernelStart) == (kernelStart < 4096 * f + 4096 && 4096 * f < kernelEnd)
  {
  }

  method CountFree(p: Pool) returns (n: nat)
    requires |p.allocatable| == |p.used|
    ensures n == |FreeFrames(p)|
  {
    n := 0;
    for page := 0 to |p.used|
      invariant n == |set f: nat | f < page && IsFree(p, f)|
    {
      assert (set f: nat | f < page + 1 && IsFree(p, f)) == (set f: nat | f < page && IsFree(p, f)) + if IsFree(p, page)
          then {page} else {};
      if p.allocatable[page] && !p.used[page] {
        n := n + 1;
      }
    }
  }
}
