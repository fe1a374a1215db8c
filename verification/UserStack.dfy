/** The first page of a new process's stack: its arguments, laid out so that the program finds
    argc and argv. */
module UserStack {
  import opened Bytes

  /** A C string without its terminating NUL. */
  type Text = s: seq<byte> | forall i :: 0 <= i < |s| ==> s[i] != 0

  /** Where the stack page appears in the process. */
  const STACK: nat := 0xBFFF_F000

  /** Bytes taken by the strings from argument `i` on, with their NULs. */
  function Suffix(argv: seq<Text>, i: nat): (n: nat)
    requires i <= |argv|
    decreases |argv| - i
  {
    if i == |argv| then 0 else |argv[i]| + 1 + Suffix(argv, i + 1)
  }

  /** What the kernel accepts: 1 to 16 arguments of less than 256 bytes each that fit into the page. */
  ghost predicate Acceptable(argv: seq<Text>) {
    && 0 < |argv| <= 16 && (forall i :: 0 <= i < |argv| ==> |argv[i]| < 256)
    && Suffix(argv, 0) + 4 * (|argv| + 2) + 3 <= 4096
  }

  lemma {:induction false} SuffixShrinks(argv: seq<Text>, i: nat, j: nat)
    requires i < j <= |argv|
    ensures Suffix(argv, j) + |argv[i]| + 1 <= Suffix(argv, i)
    decreases j - i
  {
    if i + 1 < j { SuffixShrinks(argv, i + 1, j); }
  }

  lemma {:induction false} SuffixBound(argv: seq<Text>, i: nat)
    requires i <= |argv| <= 16 && forall j :: 0 <= j < |argv| ==> |argv[j]| < 256
    ensures Suffix(argv, i) <= 256 * (|argv| - i) <= 4096
    decreases |argv| - i
  {
    if i < |argv| { SuffixBound(argv, i + 1); }
  }

  /** `s` and its NUL stand at offset `o`. */
  ghost predicate TextAt(page: seq<byte>, o: nat, s: Text) {
    o + |s| < |page| && page[o..o + |s|] == s && page[o + |s|] == 0
  }

  /** Sums the lengths, and checks the limits on the way. */
  method Measure(argv: seq<Text>) returns (ok: bool, bytes: nat)
    ensures ok <==> 0 < |argv| <= 16 && forall i :: 0 <= i < |argv| ==> |argv[i]| < 256
    ensures ok ==> bytes == Suffix(argv, 0)
  {
    bytes := 0;
    if argv == [] {
      return false, 0;
    }
    var count := 0;
    while count < |argv|
      invariant count <= |argv| && count <= 16 && forall i :: 0 <= i < count ==> |argv[i]| < 256
      invariant bytes + Suffix(argv, count) == Suffix(argv, 0) && bytes <= 256 * count
    {
      var length := |argv[count]|;
      if count >= 16 || length >= 256 || length + 1 > 4096 - bytes {
        return false, 0;
      }
      bytes := bytes + length + 1;
      count := count + 1;
    }
    ok := true;
  }

  /** Copies one string with its NUL. */
  method PutText(page: array<byte>, o: nat, s: Text)
    requires page.Length == 4096 && o + |s| < 4096
    modifies page
    ensures TextAt(page[..], o, s)
    ensures forall k :: 0 <= k < 4096 && !(o <= k <= o + |s|) ==> page[k] == old(page[k])
  {
    for c := 0 to |s|
      invariant forall k :: 0 <= k < 4096 ==> page[k] == if o <= k < o + c then s[k - o] else old(page[k])
    {
      page[o + c] := s[c];
    }
    page[o + |s|] := 0;
    assert page[..][o..o + |s|] == s;
  }

  method PutWord(page: array<byte>, o: nat, w: u32)
    requires page.Length == 4096 && o + 4 <= 4096
    modifies page
    ensures Le32(page[..], o) == w
    ensures forall k :: 0 <= k < 4096 && !(o <= k < o + 4) ==> page[k] == old(page[k])
  {
    var bytes := Le32Bytes(w);
    page[o], page[o + 1], page[o + 2], page[o + 3] := bytes[0], bytes[1], bytes[2], bytes[3];
    assert page[..][o..o + 4] == bytes[0..4];
    Le32Local(page[..], o, bytes, 0);
  }

  /** The strings from argument `from` on stand at the end of the page. */
  ghost predicate Texts(page: seq<byte>, argv: seq<Text>, from: nat) {
    forall i :: from <= i < |argv| ==> Suffix(argv, i) <= 4096 && TextAt(page, 4096 - Suffix(argv, i), argv[i])
  }

  lemma OneTextMore(p: seq<byte>, q: seq<byte>, argv: seq<Text>, i: nat)
    requires |p| == |q| == 4096 && i < |argv| && Texts(p, argv, i + 1) && Suffix(argv, i) <= 4096
    requires TextAt(q, 4096 - Suffix(argv, i), argv[i])
    requires forall k :: 4096 - Suffix(argv, i) + |argv[i]| < k < 4096 ==> q[k] == p[k]
    ensures Texts(q, argv, i)
  {
    hide TextAt;
    forall j | i <= j < |argv| ensures Suffix(argv, j) <= 4096 && TextAt(q, 4096 - Suffix(argv, j), argv[j]) {
      if j > i {
        SuffixShrinks(argv, i, j);
        TextKept(p, q, 4096 - Suffix(argv, j), argv[j], 4096 - Suffix(argv, i) + |argv[i]| + 1);
      }
    }
  }

  /** The strings, last one first, from the end of the page downwards. */
  method PutTexts(page: array<byte>, argv: seq<Text>) returns (cursor: nat, addresses: seq<u32>)
    requires page.Length == 4096 && Acceptable(argv)
    modifies page
    ensures cursor == 4096 - Suffix(argv, 0) && Texts(page[..], argv, 0)
    ensures |addresses| == |argv| && forall i :: 0 <= i < |argv| ==> addresses[i] == STACK + 4096 - Suffix(argv, i)
    ensures forall k :: 0 <= k < cursor ==> page[k] == old(page[k])
  {
    hide TextAt, Texts;
    cursor, addresses := 4096, [];
    NoTexts(page[..], argv);
    var index := |argv|;
    while index > 0
      invariant 0 <= index <= |argv| && Suffix(argv, index) <= 4096 && cursor == 4096 - Suffix(argv, index)
      invariant |addresses| == |argv| - index
      invariant forall i :: index <= i < |argv| ==> addresses[i - index] == STACK + 4096 - Suffix(argv, i)
      invariant Texts(page[..], argv, index)
      invariant forall k :: 0 <= k < cursor ==> page[k] == old(page[k])
    {
      var argument := index - 1;
      SuffixBound(argv, argument);
      cursor := cursor - (|argv[argument]| + 1);
      ghost var before, prior := page[..], addresses;
      PutText(page, cursor, argv[argument]);
      OneTextMore(before, page[..], argv, argument);
      addresses := [STACK + cursor] + addresses;
      forall i | argument <= i < |argv| ensures addresses[i - argument] == STACK + 4096 - Suffix(argv, i) {
        if i > argument { assert addresses[i - argument] == prior[i - index]; }
      }
      index := argument;
    }
  }

  lemma NoTexts(page: seq<byte>, argv: seq<Text>)
    ensures Texts(page, argv, |argv|)
  {
  }

  lemma TextKept(p: seq<byte>, q: seq<byte>, o: nat, s: Text, from: nat)
    requires TextAt(p, o, s) && |p| == |q| && from <= o && forall k :: from <= k < |p| ==> q[k] == p[k]
    ensures TextAt(q, o, s)
  {
    assert q[o..o + |s|] == p[o..o + |s|];
  }

  /** argc, the vector and its NULL from `top` on, and the strings it points to. */
  ghost predicate Laid(page: seq<byte>, top: nat, argv: seq<Text>) {
    && |page| == 4096 && top % 4 == 0 && top + 4 * (|argv| + 2) <= 4096
    && Le32(page, top) == |argv| && Le32(page, top + 4 * (|argv| + 1)) == 0
    && (forall i {:trigger PointerAt(page, top, i, argv[i])} :: 0 <= i < |argv| ==> PointerAt(page, top, i, argv[i]))
    && forall i {:trigger TextApart(page, top, argv, i)} :: 0 <= i < |argv| ==> TextApart(page, top, argv, i)
  }

  /** String `i` lies above the vector and ends before the next one, or before the end of the page. */
  ghost predicate TextApart(page: seq<byte>, top: nat, argv: seq<Text>, i: nat)
    requires top + 4 * (|argv| + 2) <= |page| && i < |argv|
  {
    var p := Le32(page, top + 4 * (i + 1));
    && STACK + top + 4 * (|argv| + 2) <= p
    && p + |argv[i]| + 1 <= if i + 1 < |argv| then Le32(page, top + 4 * (i + 2)) else STACK + 4096
  }

  ghost predicate PointerAt(page: seq<byte>, top: nat, i: nat, s: Text)
    requires top + 4 * (i + 2) <= |page|
  {
    var p := Le32(page, top + 4 * (i + 1));
    STACK <= p < STACK + 4096 && TextAt(page, p - STACK, s)
  }

  /** Words below the strings. */
  method PutVector(page: array<byte>, cursor: nat, argv: seq<Text>, addresses: seq<u32>)
    requires page.Length == 4096 && |addresses| == |argv| <= 16 && cursor + 4 * (|argv| + 2) <= 4096
    modifies page
    ensures Le32(page[..], cursor) == |argv| && Le32(page[..], cursor + 4 * (|argv| + 1)) == 0
    ensures forall i :: 0 <= i < |argv| ==> Le32(page[..], cursor + 4 * (i + 1)) == addresses[i]
    ensures forall k :: 0 <= k < 4096 && !(cursor <= k < cursor + 4 * (|argv| + 2)) ==> page[k] == old(page[k])
  {
    PutWord(page, cursor, |argv|);
    for index := 0 to |argv|
      invariant Le32(page[..], cursor) == |argv|
      invariant forall i :: 0 <= i < index ==> Le32(page[..], cursor + 4 * (i + 1)) == addresses[i]
      invariant forall k :: 0 <= k < 4096 && !(cursor <= k < cursor + 4 * (index + 1)) ==> page[k] == old(page[k])
    {
      ghost var before := page[..];
      PutWord(page, cursor + 4 * (index + 1), addresses[index]);
      WordsKept(before, page[..], cursor, index + 1);
    }
    ghost var before := page[..];
    PutWord(page, cursor + 4 * (|argv| + 1), 0);
    WordsKept(before, page[..], cursor, |argv| + 1);
  }

  lemma WordsKept(p: seq<byte>, q: seq<byte>, cursor: nat, n: nat)
    requires |p| == |q| && cursor + 4 * n <= |p| && forall k :: cursor <= k < cursor + 4 * n ==> q[k] == p[k]
    ensures forall i :: 0 <= i < n ==> Le32(q, cursor + 4 * i) == Le32(p, cursor + 4 * i)
  {
    forall i | 0 <= i < n ensures Le32(q, cursor + 4 * i) == Le32(p, cursor + 4 * i) { }
  }

  /** `mapped` tells whether there is a frame for the window through which the page is written. */
  method InitializeUserStack(page: array<byte>, argv: seq<Text>, mapped: bool) returns (ok: bool, stackTop: nat)
    requires page.Length == 4096
    modifies page
    ensures ok <==> Acceptable(argv) && mapped
    ensures ok ==> 0xBFFF_F000 <= stackTop && Laid(page[..], stackTop - 0xBFFF_F000, argv)
    ensures ok ==> forall k ::
              0 <= k < 4096 - Suffix(argv, 0) && !(0 <= k + 0xBFFF_F000 - stackTop < 4 * (|argv| + 2)) ==> page[k] == 0
    ensures !ok ==> page[..] == old(page[..])
  {
    hide Suffix, TextAt, Texts, Laid, Le32;
    stackTop := 0;
    var bytes;
    ok, bytes := Measure(argv);
    if !ok || bytes + 4 * (|argv| + 2) + 3 > 4096 || !mapped {
      return false, 0;
    }
    for index := 0 to 4096
      invariant forall k :: 0 <= k < index ==> page[k] == 0
    {
      page[index] := 0;
    }
    var cursor, addresses := PutTexts(page, argv);
    cursor := cursor / 4 * 4;
    cursor := cursor - 4 * (|argv| + 2);
    ghost var before := page[..];
    PutVector(page, cursor, argv, addresses);
    TextsPointedAt(before, page[..], cursor, argv);
    stackTop := STACK + cursor;
  }

  /** The vector below the strings points at them. */
  lemma TextsPointedAt(p: seq<byte>, q: seq<byte>, top: nat, argv: seq<Text>)
    requires |p| == |q| == 4096 && Acceptable(argv) && Texts(p, argv, 0)
    requires top % 4 == 0 && top + 4 * (|argv| + 2) <= 4096 - Suffix(argv, 0)
    requires Le32(q, top) == |argv| && Le32(q, top + 4 * (|argv| + 1)) == 0
    requires forall i :: 0 <= i < |argv| ==> Le32(q, top + 4 * (i + 1)) == STACK + 4096 - Suffix(argv, i)
    requires forall k :: top + 4 * (|argv| + 2) <= k < 4096 ==> q[k] == p[k]
    ensures Laid(q, top, argv)
  {
    hide Suffix, TextAt, Texts, Le32;
    forall i | 0 <= i < |argv| ensures PointerAt(q, top, i, argv[i]) {
      SuffixInside(argv, i);
      TextIn(p, argv, i);
      TextKept(p, q, 4096 - Suffix(argv, i), argv[i], top + 4 * (|argv| + 2));
    }
    forall i | 0 <= i < |argv| ensures TextApart(q, top, argv, i) {
      SuffixInside(argv, i);
      SuffixShrinks(argv, i, i + 1);
      assert i + 1 < |argv| ==> Le32(q, top + 4 * (i + 1 + 1)) == STACK + 4096 - Suffix(argv, i + 1);
    }
  }

  lemma TextIn(page: seq<byte>, argv: seq<Text>, i: nat)
    requires Texts(page, argv, 0) && i < |argv|
    ensures Suffix(argv, i) <= 4096 && TextAt(page, 4096 - Suffix(argv, i), argv[i])
  {
  }

  lemma SuffixInside(argv: seq<Text>, i: nat)
    requires i < |argv|
    ensures 0 < Suffix(argv, i) <= Suffix(argv, 0)
  {
    if i > 0 { SuffixShrinks(argv, 0, i); }
  }

  // ---------- reading it back ----------

  /** The string at offset `o`, up to a NUL or the end of the page. */
  function ReadText(page: seq<byte>, o: nat): (s: seq<byte>)
    decreases |page| - o
  {
    if o >= |page| || page[o] == 0 then [] else [page[o]] + ReadText(page, o + 1)
  }

  /** What a program finds from its initial stack pointer on. */
  function ReadArguments(page: seq<byte>, top: nat, n: nat): (argv: seq<seq<byte>>)
    requires top + 4 * (n + 1) <= |page|
  {
    if n == 0 then [] else
      var p := Le32(page, top + 4 * n);
      ReadArguments(page, top, n - 1) + [if p >= STACK then ReadText(page, p - STACK) else []]
  }

  lemma {:induction false} ReadBackText(page: seq<byte>, o: nat, s: Text)
    requires TextAt(page, o, s)
    ensures ReadText(page, o) == s
    decreases |s|
  {
    assert s == page[o..o + |s|];
    if s != [] {
      assert page[o + 1..o + |s|] == s[1..];
      ReadBackText(page, o + 1, s[1..]);
    }
  }

  /** The program reads exactly the arguments it was given. */
  lemma {:induction false} ReadBack(page: seq<byte>, top: nat, argv: seq<Text>, n: nat)
    requires Laid(page, top, argv) && n <= |argv|
    ensures ReadArguments(page, top, n) == argv[..n]
  {
    hide TextAt, Le32, ReadText;
    if n > 0 {
      ReadBack(page, top, argv, n - 1);
      assert PointerAt(page, top, n - 1, argv[n - 1]);
      ReadBackText(page, Le32(page, top + 4 * n) - STACK, argv[n - 1]);
      assert argv[..n] == argv[..n - 1] + [argv[n - 1]];
    }
  }
}
