/** ELF executables: the checks made before anything is loaded. */
module ElfFormat {
  import opened Bytes

  /** A program header (chapter 5 of the System V gABI). */
  datatype Segment = Segment(kind: u32, offset: u32, vaddr: u32, fileSize: u32, memSize: u32, flags: u32, align: u32)

  function SegmentAt(image: seq<byte>, o: nat): (s: Segment)
    requires o + 32 <= |image|
  {
    Segment(Le32(image, o), Le32(image, o + 4), Le32(image, o + 8), Le32(image, o + 16), Le32(image, o + 20),
            Le32(image, o + 24), Le32(image, o + 28))
  }

  predicate Executable(s: Segment) { s.flags % 2 == 1 }

  predicate WritableSegment(s: Segment) { s.flags / 2 % 2 == 1 }

  predicate Readable(s: Segment) { s.flags / 4 % 2 == 1 }

  /** The segment puts bytes into memory. */
  predicate Loads(s: Segment) { s.kind == 1 && s.memSize > 0 }

  predicate PowerOfTwo(a: nat) {
    a == 1 || (a > 0 && a % 2 == 0 && PowerOfTwo(a / 2))
  }

  predicate Within(limit: nat, offset: nat, length: nat) { offset <= limit && length <= limit - offset }

  predicate SegmentOK(s: Segment, imageSize: nat) {
    s.kind != 1 ||
    (if s.memSize == 0 then s.fileSize == 0
     else
       && s.fileSize <= s.memSize && Within(imageSize, s.offset, s.fileSize)
       && 4096 <= s.vaddr < 0xC000_0000 && s.memSize <= 0xC000_0000 - s.vaddr && s.flags <= 7
       && (Readable(s) || Executable(s))
       && (s.align > 1 ==> PowerOfTwo(s.align) && (s.vaddr + 0x1_0000_0000 - s.offset) % 0x1_0000_0000 % s.align == 0))
  }

  predicate Overlap(a: Segment, b: Segment) {
    a.kind == 1 && b.kind == 1 && a.vaddr < (b.vaddr + b.memSize) % 0x1_0000_0000
      && b.vaddr < (a.vaddr + a.memSize) % 0x1_0000_0000
  }

  predicate HeaderOK(image: seq<byte>) {
    && |image| >= 52
    && image[0] == 0x7F && image[1] == 0x45 && image[2] == 0x4C && image[3] == 0x46
    && image[4] == 1 && image[5] == 1 && image[6] == 1
    && Le16(image, 16) == 2 && Le16(image, 18) == 3 && Le32(image, 20) == 1
    && Le16(image, 40) == 52 && Le16(image, 42) == 32 && 0 < Le16(image, 44) <= 32
    && Within(|image|, Le32(image, 28), Le16(image, 44) * 32)
  }

  function Count(image: seq<byte>): (n: nat)
    requires HeaderOK(image)
  {
    Le16(image, 44)
  }

  function Program(image: seq<byte>, i: nat): (s: Segment)
    requires HeaderOK(image) && i < Count(image)
  {
    SegmentAt(image, Le32(image, 28) + 32 * i)
  }

  predicate EntryIn(s: Segment, entry: u32) {
    Loads(s) && Executable(s) && s.vaddr <= entry < s.vaddr + s.memSize
  }

  /** What makes an image loadable: sound segments that do not overlap, and an entry point in an
      executable one. */
  ghost predicate ImageOK(image: seq<byte>) {
    && HeaderOK(image)
    && (forall i: nat :: i < Count(image) ==> SegmentOK(Program(image, i), |image|))
    && (forall i: nat, j: nat :: j < i < Count(image) && Loads(Program(image, i)) ==>
       !Overlap(Program(image, i), Program(image, j)))
    && exists i: nat :: i < Count(image) && EntryIn(Program(image, i), Le32(image, 24))
  }

  method ValidateImage(image: seq<byte>) returns (ok: bool, entry: u32)
    ensures ok <==> ImageOK(image)
    ensures ok ==> entry == Le32(image, 24)
  {
    hide SegmentOK, Overlap, SegmentAt;
    entry := 0;
    if !HeaderOK(image) {
      return false, 0;
    }
    entry := Le32(image, 24);
    var hasLoad, entryExecutable := false, false;
    for index := 0 to Count(image)
      invariant forall i: nat :: i < index ==> SegmentOK(Program(image, i), |image|)
      invariant forall i: nat, j: nat :: j < i < index && Loads(Program(image, i)) ==>
          !Overlap(Program(image, i), Program(image, j))
      invariant hasLoad <==> exists i: nat :: i < index && Loads(Program(image, i))
      invariant entryExecutable <==> exists i: nat :: i < index && EntryIn(Program(image, i), entry)
    {
      var program := Program(image, index);
      if !SegmentOK(program, |image|) {
        return false, 0;
      }
      if Loads(program) {
        hasLoad := true;
        if Executable(program) && entry >= program.vaddr && entry - program.vaddr < program.memSize {
          entryExecutable := true;
        }
        for previous := 0 to index
          invariant forall j: nat :: j < previous ==> !Overlap(program, Program(image, j))
        {
          if Overlap(program, Program(image, previous)) {
            return false, 0;
          }
        }
      }
    }
    return hasLoad && entryExecutable, entry;
  }

  lemma Apart(s: Segment, t: Segment, size: nat, a: nat)
    requires SegmentOK(s, size) && SegmentOK(t, size) && Loads(s) && Loads(t) && !Overlap(s, t)
    ensures !(s.vaddr <= a < s.vaddr + s.memSize && t.vaddr <= a < t.vaddr + t.memSize)
  {
    hide PowerOfTwo, Readable, Executable;
  }

  /** Segments that are loaded from an accepted image occupy disjoint addresses. */
  lemma SegmentsDisjoint(image: seq<byte>, i: nat, j: nat, a: nat)
    requires ImageOK(image) && j < i < Count(image) && Loads(Program(image, i)) && Loads(Program(image, j))
    ensures var s, t := Program(image, i), Program(image, j);
            !(s.vaddr <= a < s.vaddr + s.memSize && t.vaddr <= a < t.vaddr + t.memSize)
  {
    hide SegmentOK, Overlap, SegmentAt, Loads;
    Apart(Program(image, i), Program(image, j), |image|, a);
  }
}
