/** Executables told on the bytes of the file: which images are accepted, and what a program sees of
    a loaded one (chapters 4 and 5 of the System V gABI). */
module ElfImages {
  import opened Bytes
  import opened Crc32
  import opened ElfFormat
  import opened ElfLoader

  /** The table of program headers lies in the file. */
  ghost predicate HasPrograms(image: seq<byte>) {
    |image| >= 52 && Le32(image, 28) + 32 * Le16(image, 44) <= |image|
  }

  /** The word at offset `k` of program header `i`. */
  ghost function W(image: seq<byte>, i: nat, k: nat): (w: u32)
    requires HasPrograms(image) && i < Le16(image, 44) && k <= 28
  {
    Le32(image, Le32(image, 28) + 32 * i + k)
  }

  // ---------- which images are accepted ----------

  /** A loaded segment: file bytes inside the file, memory in the user half above the first page,
      readable or executable, and address and file offset alike modulo the alignment. */
  ghost predicate RangesFine(image: seq<byte>, i: nat)
    requires HasPrograms(image) && i < Le16(image, 44)
  {
    var offset, vaddr, fileSize, memSize := W(image, i, 4), W(image, i, 8), W(image, i, 16), W(image, i, 20);
    var flags, align := W(image, i, 24), W(image, i, 28);
    && fileSize <= memSize && offset + fileSize <= |image| && 4096 <= vaddr && vaddr + memSize <= 0xC000_0000
    && flags in {1, 3, 4, 5, 6, 7}
    && (align > 1 ==> (exists k: nat :: align == Pow2(k)) && (vaddr - offset) % align == 0)
  }

  ghost predicate ProgramFine(image: seq<byte>, i: nat)
    requires HasPrograms(image) && i < Le16(image, 44)
  {
    W(image, i, 0) == 1 ==> if W(image, i, 20) == 0 then W(image, i, 16) == 0 else RangesFine(image, i)
  }

  /** Segment `i` begins before the end of `j` and ends after the beginning of `j`. */
  ghost predicate Collide(image: seq<byte>, i: nat, j: nat)
    requires HasPrograms(image) && i < Le16(image, 44) && j < Le16(image, 44)
  {
    W(image, i, 8) < W(image, j, 8) + W(image, j, 20) && W(image, j, 8) < W(image, i, 8) + W(image, i, 20)
  }

  ghost predicate HoldsEntry(image: seq<byte>, i: nat)
    requires HasPrograms(image) && i < Le16(image, 44)
  {
    && W(image, i, 0) == 1 && W(image, i, 24) % 2 == 1
    && W(image, i, 8) <= Le32(image, 24) < W(image, i, 8) + W(image, i, 20)
  }

  ghost predicate Acceptable(image: seq<byte>) {
    && |image| >= 52 && image[..7] == [0x7F, 0x45, 0x4C, 0x46, 1, 1, 1]
    && Le16(image, 16) == 2 && Le16(image, 18) == 3 && Le32(image, 20) == 1
    && Le16(image, 40) == 52 && Le16(image, 42) == 32 && 1 <= Le16(image, 44) <= 32
    && HasPrograms(image)
    && (forall i: nat :: i < Le16(image, 44) ==> ProgramFine(image, i))
    && (forall i: nat, j: nat :: j < i < Le16(image, 44) ==>
          !(W(image, i, 0) == 1 && W(image, j, 0) == 1 && W(image, i, 20) > 0 && Collide(image, i, j)))
    && exists i: nat :: i < Le16(image, 44) && HoldsEntry(image, i)
  }

  lemma HeaderMeans(image: seq<byte>)
    ensures HeaderOK(image) <==>
              && |image| >= 52 && image[..7] == [0x7F, 0x45, 0x4C, 0x46, 1, 1, 1]
              && Le16(image, 16) == 2 && Le16(image, 18) == 3 && Le32(image, 20) == 1
              && Le16(image, 40) == 52 && Le16(image, 42) == 32 && 1 <= Le16(image, 44) <= 32 && HasPrograms(image)
  {
    hide Le16, Le32;
    if |image| >= 52 {
      var h := image[..7];
      assert h[0] == image[0] && h[1] == image[1] && h[2] == image[2] && h[3] == image[3] && h[4] == image[4]
             && h[5] == image[5] && h[6] == image[6];
    }
  }

  lemma ProgramWords(image: seq<byte>, i: nat)
    requires HeaderOK(image) && i < Count(image)
    ensures HasPrograms(image) && i < Le16(image, 44)
    ensures Program(image, i) == Segment(W(image, i, 0), W(image, i, 4), W(image, i, 8), W(image, i, 16),
                                         W(image, i, 20), W(image, i, 24), W(image, i, 28))
  {
    hide Le16, Le32;
  }

  lemma {:induction false} PowersOfTwo(a: nat)
    ensures PowerOfTwo(a) <==> exists k: nat :: a == Pow2(k)
  {
    if a == 1 {
      assert Pow2(0) == 1;
    } else if a == 0 {
      forall k: nat ensures a != Pow2(k) { PowPositive(k); }
    } else if a % 2 == 1 {
      forall k: nat ensures a != Pow2(k) { if k > 0 { assert Pow2(k) == 2 * Pow2(k - 1); } }
    } else {
      PowersOfTwo(a / 2);
      if PowerOfTwo(a / 2) {
        var k: nat :| a / 2 == Pow2(k);
        assert a == Pow2(k + 1);
      }
      if k: nat :| a == Pow2(k) {
        assert k > 0 && a / 2 == Pow2(k - 1);
        assert exists j: nat :: a / 2 == Pow2(j);
      }
    }
  }

  /** The difference modulo 2^32 is the difference modulo a smaller power of two. */
  lemma AlignmentMeans(x: int, k: nat)
    requires Pow2(k) < 0x1_0000_0000
    ensures Pow2(k) > 0 && x % 0x1_0000_0000 % Pow2(k) == x % Pow2(k)
  {
    hide Pow2;
    PowPositive(k);
    Powers();
    if k > 32 { PowMonotone(32, k); }
    PowAdd(k, 32 - k);
    WholeTimes(x, Pow2(k), Pow2(32 - k), x / 0x1_0000_0000);
    ModMultiple(x % 0x1_0000_0000, Pow2(k), Pow2(32 - k) * (x / 0x1_0000_0000));
  }

  lemma WholeTimes(x: int, a: nat, b: nat, q: int)
    requires a * b == 0x1_0000_0000 && q == x / 0x1_0000_0000
    ensures x == x % 0x1_0000_0000 + a * (b * q)
  {
    assert a * (b * q) == (a * b) * q;
  }

  lemma {:induction false} PowMonotone(j: nat, k: nat)
    requires j <= k
    ensures Pow2(j) <= Pow2(k)
  {
    if j < k { PowMonotone(j, k - 1); }
  }

  lemma ModMultiple(x: int, a: nat, q: int)
    requires a > 0
    ensures (x + a * q) % a == x % a
  {
    var y := x + a * q;
    var r, s, u, w := y % a, x % a, y / a, x / a;
    assert y == a * u + r && x == a * w + s;
    Distributes(a, w, q, u);
    Multiples(a, w + q - u);
  }

  lemma Distributes(a: int, w: int, q: int, u: int)
    ensures a * w + a * q - a * u == a * (w + q - u)
  {
  }

  lemma Multiples(a: nat, m: int)
    ensures m >= 1 ==> a * m >= a
    ensures m <= -1 ==> a * m + a <= 0
  {
    if m >= 1 { MulLess(a, 1, m); }
    if m <= -1 {
      MulLess(a, 1, 0 - m);
      assert a * (0 - m) == 0 - a * m;
    }
  }

  lemma SegmentMeans(image: seq<byte>, i: nat)
    requires HeaderOK(image) && i < Count(image)
    ensures HasPrograms(image) && i < Le16(image, 44)
    ensures SegmentOK(Program(image, i), |image|) <==> ProgramFine(image, i)
  {
    hide Le16, Le32, SegmentAt, PowerOfTwo, Pow2, Program, HeaderOK, Count;
    ProgramWords(image, i);
    var s := Program(image, i);
    FlagsMean(s);
    PowersOfTwo(s.align);
    if k: nat :| s.align == Pow2(k) {
      AlignmentMeans(s.vaddr + 0x1_0000_0000 - s.offset, k);
      ModMultiple(s.vaddr - s.offset, Pow2(k), 1);
      AlignmentMeans(s.vaddr - s.offset, k);
      assert (s.vaddr + 0x1_0000_0000 - s.offset) % 0x1_0000_0000 == (s.vaddr - s.offset) % 0x1_0000_0000;
    }
  }

  lemma FlagsMean(s: Segment)
    ensures s.flags <= 7 && (Readable(s) || Executable(s)) <==> s.flags in {1, 3, 4, 5, 6, 7}
  {
  }

  /** Exactly these images are accepted. */
  lemma AcceptedImages(image: seq<byte>)
    ensures ImageOK(image) <==> Acceptable(image)
  {
    hide Le16, Le32, SegmentAt, PowerOfTwo, Pow2, HeaderOK, Program, Count, SegmentOK, ProgramFine, W, HasPrograms,
         EntryIn, HoldsEntry, Overlap, Collide, Loads;
    HeaderMeans(image);
    if HeaderOK(image) {
      CountMeans(image);
      forall i: nat | i < Count(image)
        ensures SegmentOK(Program(image, i), |image|) <==> ProgramFine(image, i)
        ensures EntryIn(Program(image, i), Le32(image, 24)) <==> HoldsEntry(image, i)
      {
        SegmentMeans(image, i);
        EntryMeans(image, i);
      }
      if forall i: nat :: i < Count(image) ==> SegmentOK(Program(image, i), |image|) {
        forall i: nat, j: nat | j < i < Count(image)
          ensures Loads(Program(image, i)) && Overlap(Program(image, i), Program(image, j)) <==>
                    W(image, i, 0) == 1 && W(image, j, 0) == 1 && W(image, i, 20) > 0 && Collide(image, i, j)
        {
          OverlapMeans(image, i, j);
        }
      }
    }
  }

  lemma CountMeans(image: seq<byte>)
    requires HeaderOK(image)
    ensures HasPrograms(image) && Count(image) == Le16(image, 44)
  {
    hide Le16, Le32;
  }

  lemma Headed(image: seq<byte>)
    requires ImageOK(image)
    ensures HeaderOK(image)
  {
  }

  lemma EntryMeans(image: seq<byte>, i: nat)
    requires HeaderOK(image) && i < Count(image)
    ensures HasPrograms(image) && i < Le16(image, 44)
    ensures EntryIn(Program(image, i), Le32(image, 24)) <==> HoldsEntry(image, i)
  {
    hide Le16, Le32, Program, HeaderOK, Count, W;
    ProgramWords(image, i);
  }

  lemma OverlapMeans(image: seq<byte>, i: nat, j: nat)
    requires HeaderOK(image) && i < Count(image) && j < Count(image)
    requires SegmentOK(Program(image, i), |image|) && SegmentOK(Program(image, j), |image|)
    ensures HasPrograms(image) && i < Le16(image, 44) && j < Le16(image, 44)
    ensures Loads(Program(image, i)) && Overlap(Program(image, i), Program(image, j)) <==>
              W(image, i, 0) == 1 && W(image, j, 0) == 1 && W(image, i, 20) > 0 && Collide(image, i, j)
  {
    hide Le16, Le32, Program, HeaderOK, Count, W, PowerOfTwo;
    ProgramWords(image, i);
    ProgramWords(image, j);
  }

  // ---------- what a loaded program sees ----------

  /** Segment `i` is loaded and address `a` lies in its memory. */
  ghost predicate Holds(image: seq<byte>, i: nat, a: nat)
    requires HasPrograms(image) && i < Le16(image, 44)
  {
    W(image, i, 0) == 1 && W(image, i, 8) <= a < W(image, i, 8) + W(image, i, 20)
  }

  /** Page `v` as the file describes it: it is there if a loaded segment has an address in it, it is
      writable if one of these has the flag 2, and every byte is the file's where a segment has file
      bytes and zero elsewhere. */
  ghost predicate AsDescribed(image: seq<byte>, v: nat, x: PageView)
    requires HasPrograms(image)
  {
    && (x.There? <==> exists i: nat, a: nat :: i < Le16(image, 44) && Holds(image, i, a) && a / 4096 == v)
    && (x.There? ==>
        && (x.writable <==> exists i: nat, a: nat ::
              i < Le16(image, 44) && Holds(image, i, a) && a / 4096 == v && W(image, i, 24) / 2 % 2 == 1)
        && forall o :: 0 <= o < 4096 ==> ByteDescribed(image, 4096 * v + o, x.bytes[o]))
  }

  /** What address `a` of a page that is there reads as. */
  ghost predicate ByteDescribed(image: seq<byte>, a: nat, b: byte)
    requires HasPrograms(image)
  {
    && (forall i: nat :: i < Le16(image, 44) && W(image, i, 0) == 1
                         && W(image, i, 8) <= a < W(image, i, 8) + W(image, i, 16) ==>
          W(image, i, 4) + (a - W(image, i, 8)) < |image| && b == image[W(image, i, 4) + (a - W(image, i, 8))])
    && ((forall i: nat :: i < Le16(image, 44) && W(image, i, 0) == 1 ==>
           !(W(image, i, 8) <= a < W(image, i, 8) + W(image, i, 16))) ==> b == 0)
  }

  lemma TouchesMeans(image: seq<byte>, i: nat, v: nat)
    requires ImageOK(image) && i < Count(image)
    ensures HasPrograms(image) && i < Le16(image, 44)
    ensures Loads(Program(image, i)) && TouchesPage(Program(image, i), v) <==>
              exists a: nat :: Holds(image, i, a) && a / 4096 == v
  {
    hide Le16, Le32, Program, HeaderOK, Count, W, SegmentOK, Overlap;
    ProgramWords(image, i);
    var s := Program(image, i);
    if Loads(s) && TouchesPage(s, v) {
      var a := if s.vaddr / 4096 == v then s.vaddr else 4096 * v;
      assert Holds(image, i, a) && a / 4096 == v;
    }
  }

  lemma TouchedMeans(image: seq<byte>, v: nat, writableOnly: bool)
    requires ImageOK(image)
    ensures HasPrograms(image)
    ensures Touched(image, Count(image), v, writableOnly) <==>
              exists i: nat, a: nat :: i < Le16(image, 44) && Holds(image, i, a) && a / 4096 == v
                && (writableOnly ==> W(image, i, 24) / 2 % 2 == 1)
  {
    hide Le16, Le32, Program, HeaderOK, Count, W, SegmentOK, Overlap, TouchesPage, Loads, Holds;
    CountMeans(image);
    forall i: nat | i < Count(image)
      ensures Loads(Program(image, i)) && TouchesPage(Program(image, i), v) <==>
                exists a: nat :: Holds(image, i, a) && a / 4096 == v
      ensures WritableSegment(Program(image, i)) <==> W(image, i, 24) / 2 % 2 == 1
    {
      TouchesMeans(image, i, v);
      ProgramWords(image, i);
    }
    if Touched(image, Count(image), v, writableOnly) {
      var i: nat :| i < Count(image) && Loads(Program(image, i)) && TouchesPage(Program(image, i), v)
                    && (writableOnly ==> WritableSegment(Program(image, i)));
      var a: nat :| Holds(image, i, a) && a / 4096 == v;
      assert i < Le16(image, 44);
    }
    if i: nat, a: nat :| i < Le16(image, 44) && Holds(image, i, a) && a / 4096 == v
                         && (writableOnly ==> W(image, i, 24) / 2 % 2 == 1) {
      assert i < Count(image);
      assert Loads(Program(image, i)) && TouchesPage(Program(image, i), v);
    }
  }

  lemma ByteMeans(image: seq<byte>, v: nat, o: nat)
    requires ImageOK(image) && o < 4096 && Expected(image, Count(image), v).There?
    ensures HasPrograms(image)
    ensures ByteDescribed(image, 4096 * v + o, Expected(image, Count(image), v).bytes[o])
  {
    hide Le16, Le32, Program, HeaderOK, Count, W, SegmentOK, Overlap, Expected, HasPrograms, Loads, ImageOK;
    Headed(image);
    CountMeans(image);
    var a := 4096 * v + o;
    forall i: nat | i < Count(image) && W(image, i, 0) == 1 && W(image, i, 8) <= a < W(image, i, 8) + W(image, i, 16)
      ensures W(image, i, 4) + (a - W(image, i, 8)) < |image|
      ensures Expected(image, Count(image), v).bytes[o] == image[W(image, i, 4) + (a - W(image, i, 8))]
    {
      ProgramWords(image, i);
      LoadedSize(image, i);
      BytesLoaded(image, Count(image), i, a - W(image, i, 8));
    }
    if forall i: nat :: i < Count(image) && W(image, i, 0) == 1 ==>
         !(W(image, i, 8) <= a < W(image, i, 8) + W(image, i, 16)) {
      forall i: nat | i < Count(image) && Loads(Program(image, i))
        ensures !(Program(image, i).vaddr <= a < Program(image, i).vaddr + Program(image, i).fileSize)
      {
        ProgramWords(image, i);
        LoadsKind(image, i);
      }
      ZeroElsewhere(image, Count(image), a);
    }
  }

  lemma LoadsKind(image: seq<byte>, i: nat)
    requires HeaderOK(image) && i < Count(image) && Loads(Program(image, i))
    ensures Program(image, i).kind == 1
  {
  }

  lemma LoadedSize(image: seq<byte>, i: nat)
    requires ImageOK(image) && i < Count(image) && Program(image, i).kind == 1 && Program(image, i).fileSize > 0
    ensures Loads(Program(image, i))
  {
    hide HeaderOK, Program, Count, PowerOfTwo;
    assert SegmentOK(Program(image, i), |image|);
  }

  /** After loading an accepted image every page is as the file describes it. */
  lemma LoadedAsDescribed(image: seq<byte>, v: nat)
    requires ImageOK(image)
    ensures HasPrograms(image) && AsDescribed(image, v, Expected(image, Count(image), v))
  {
    hide Le16, Le32, Program, HeaderOK, Count, W, SegmentOK, Overlap, Expected, HasPrograms, Touched, ByteDescribed,
         Holds, ImageOK;
    Headed(image);
    CountMeans(image);
    PagesExact(image, Count(image), v);
    TouchedMeans(image, v, false);
    TouchedMeans(image, v, true);
    if Expected(image, Count(image), v).There? {
      forall o | 0 <= o < 4096 ensures ByteDescribed(image, 4096 * v + o, Expected(image, Count(image), v).bytes[o]) {
        ByteMeans(image, v, o);
      }
    }
  }
}
