/** How the shell splits a line into words: quotes, escapes, and the in-place parser. */
module ShellWords {
  import opened Bytes

  const SPACE: byte := 0x20
  const TAB: byte := 0x09
  const QUOTE: byte := 0x27
  const DOUBLE: byte := 0x22
  const BACKSLASH: byte := 0x5C

  /** A line or word without NULs. */
  type Text = s: seq<byte> | forall i :: 0 <= i < |s| ==> s[i] != 0

  predicate Separator(c: byte) { c == SPACE || c == TAB }

  // ---------- what a line means ----------

  datatype WordResult = Word(text: Text, rest: Text) | BadWord

  function Prepend(c: byte, r: WordResult): (r': WordResult)
    requires c != 0
  {
    if r.BadWord? then r else Word([c] + r.text, r.rest)
  }

  /** The first word of `s`, inside the given quotes (0 for none), and what follows it. */
  function ReadWord(s: Text, quote: byte): (r: WordResult)
    ensures r.Word? ==> |r.text| + |r.rest| <= |s| && (r.rest != [] ==> Separator(r.rest[0]))
  {
    if s == [] then (if quote != 0 then BadWord else Word([], []))
    else if quote != 0 then
      if s[0] == quote then ReadWord(s[1..], 0)
      else if quote == DOUBLE && s[0] == BACKSLASH
           then (if |s| == 1 then BadWord else Prepend(s[1], ReadWord(s[2..], quote)))
      else Prepend(s[0], ReadWord(s[1..], quote))
    else if Separator(s[0]) then Word([], s)
    else if s[0] == QUOTE || s[0] == DOUBLE then ReadWord(s[1..], s[0])
    else if s[0] == BACKSLASH then (if |s| == 1 then BadWord else Prepend(s[1], ReadWord(s[2..], 0)))
    else Prepend(s[0], ReadWord(s[1..], 0))
  }

  function Skip(s: Text): (r: Text)
    ensures |r| <= |s| && (r != [] ==> !Separator(r[0])) && (s != [] && Separator(s[0]) ==> |r| < |s|)
  {
    if s != [] && Separator(s[0]) then Skip(s[1..]) else s
  }

  datatype LineResult = Words(words: seq<Text>) | BadLine

  /** The words of `s`, when `count` came before; there may be 16 in all. */
  function Tokens(s: Text, count: nat): (r: LineResult)
    decreases |s|
  {
    var t := Skip(s);
    if t == [] then Words([])
    else if count >= 16 then BadLine
    else match ReadWord(t, 0)
      case BadWord => BadLine
      case Word(text, rest) =>
        match Tokens(Skip(rest), count + 1)
        case BadLine => BadLine
        case Words(more) => Words([text] + more)
  }

  // ---------- quoting ----------

  /** A word between single quotes; a single quote in it becomes `'\''`. */
  function QuoteBody(w: Text): (q: Text) {
    if w == [] then []
    else (if w[0] == QUOTE then [QUOTE, BACKSLASH, QUOTE, QUOTE] else [w[0]]) + QuoteBody(w[1..])
  }

  function Quoted(w: Text): (q: Text) { [QUOTE] + (QuoteBody(w) + [QUOTE]) }

  function QuotedLine(ws: seq<Text>): (s: Text) {
    if ws == [] then [] else Quoted(ws[0]) + (if |ws| == 1 then [] else [SPACE] + QuotedLine(ws[1..]))
  }

  /** `rest` ends a word that stands before it. */
  predicate Ends(rest: Text) { rest == [] || Separator(rest[0]) }

  lemma EscapedQuoteReads(s: Text)
    ensures ReadWord([QUOTE, BACKSLASH, QUOTE, QUOTE] + s, QUOTE) == Prepend(QUOTE, ReadWord(s, QUOTE))
  {
    var a: Text := [QUOTE, BACKSLASH, QUOTE, QUOTE] + s;
    assert a[1..][2..] == [QUOTE] + s && a[1..][1] == QUOTE && ([QUOTE] + s)[1..] == s;
    assert ReadWord([QUOTE] + s, 0) == ReadWord(s, QUOTE);
    assert ReadWord(a[1..], 0) == Prepend(QUOTE, ReadWord([QUOTE] + s, 0));
  }

  lemma {:induction false} QuoteBodyReads(w: Text, rest: Text)
    requires Ends(rest)
    ensures ReadWord(QuoteBody(w) + ([QUOTE] + rest), QUOTE) == Word(w, rest)
  {
    var tail: Text := [QUOTE] + rest;
    if w == [] {
      assert QuoteBody(w) + tail == tail && tail[1..] == rest;
      assert ReadWord(rest, 0) == Word([], rest);
    } else {
      QuoteBodyReads(w[1..], rest);
      QuoteBodySplit(w, tail);
      var more: Text := QuoteBody(w[1..]) + tail;
      if w[0] == QUOTE { EscapedQuoteReads(more); } else { PlainReads(w[0], more); }
    }
  }

  lemma QuoteBodySplit(w: Text, tail: Text)
    requires w != []
    ensures w == [w[0]] + w[1..]
    ensures QuoteBody(w) + tail ==
        (if w[0] == QUOTE then [QUOTE, BACKSLASH, QUOTE, QUOTE] else [w[0]]) + (QuoteBody(w[1..]) + tail)
  {
  }

  lemma PlainReads(c: byte, s: Text)
    requires c != QUOTE && c != 0
    ensures ReadWord([c] + s, QUOTE) == Prepend(c, ReadWord(s, QUOTE))
  {
    assert ([c] + s)[1..] == s;
  }

  lemma QuotedReads(w: Text, rest: Text)
    requires Ends(rest)
    ensures ReadWord(Quoted(w) + rest, 0) == Word(w, rest)
  {
    QuoteBodyReads(w, rest);
    assert (Quoted(w) + rest)[1..] == QuoteBody(w) + ([QUOTE] + rest);
  }

  /** Quoting up to 16 words and parsing the line gives the words back. */
  lemma {:induction false} QuotedLineReads(ws: seq<Text>, count: nat)
    requires count + |ws| <= 16
    ensures Tokens(QuotedLine(ws), count) == Words(ws)
  {
    hide ReadWord, QuoteBody;
    if ws != [] {
      var rest: Text := if |ws| == 1 then [] else [SPACE] + QuotedLine(ws[1..]);
      QuotedReads(ws[0], rest);
      QuotedLineReads(ws[1..], count + 1);
      if |ws| > 1 {
        assert rest[1..] == QuotedLine(ws[1..]);
        SkipSpace(QuotedLine(ws[1..]));
      }
      SkipAgain(rest, count + 1);
      assert ws == [ws[0]] + ws[1..];
    }
  }

  lemma SkipSpace(s: Text)
    ensures Skip([SPACE] + s) == Skip(s)
  {
    assert ([SPACE] + s)[1..] == s;
  }

  lemma SkipAgain(s: Text, count: nat)
    ensures Tokens(Skip(s), count) == Tokens(s, count)
  {
    assert Skip(Skip(s)) == Skip(s);
  }

  // ---------- the in-place parser ----------

  function PrependAll(done: Text, r: WordResult): (r': WordResult) {
    if r.BadWord? then r else Word(done + r.text, r.rest)
  }

  lemma PrependOne(done: Text, c: byte, r: WordResult)
    requires c != 0
    ensures PrependAll(done, Prepend(c, r)) == PrependAll(done + [c], r)
  {
    if r.Word? { assert done + ([c] + r.text) == done + [c] + r.text; }
  }

  ghost predicate LineOK(line: seq<byte>, read: nat, n: nat) {
    read <= n < |line| && line[n] == 0 && forall i :: read <= i < n ==> line[i] != 0
  }

  /** The characters of `done` were written from `target` on, and the line from `read` on is still
      what it was: the write cursor never overtakes the read cursor. */
  ghost predicate Going(was: seq<byte>, now: seq<byte>, target: nat, read: nat, write: nat, n: nat, done: Text) {
    && |was| == |now| && target <= write <= read && LineOK(now, read, n) && now[target..write] == done
    && forall k :: 0 <= k < |now| && (k < target || k >= read) ==> now[k] == was[k]
  }

  /** The unread part of the line. */
  ghost function UnreadText(line: seq<byte>, read: nat, n: nat): (s: Text) {
    if LineOK(line, read, n) then line[read..n] else []
  }

  lemma GoingFacts(was: seq<byte>, now: seq<byte>, target: nat, read: nat, write: nat, n: nat, done: Text)
    requires Going(was, now, target, read, write, n, done)
    ensures write <= read <= n < |now| && (now[read] == 0 <==> read == n)
    ensures read < n ==> Going(was, now, target, read + 1, write, n, done)
    ensures read == n ==> UnreadText(now, read, n) == []
    ensures read < n ==>
              var u := UnreadText(now, read, n);
              && u != [] && u[0] == now[read] && u[1..] == UnreadText(now, read + 1, n)
                 && (|u| == 1 <==> now[read + 1] == 0)
              && (|u| > 1 ==> u[1] == now[read + 1] && u[2..] == UnreadText(now, read + 2, n))
  {
  }

  lemma PutDown(was: seq<byte>, now: seq<byte>, target: nat, read: nat, write: nat, n: nat, done: Text, c: byte)
    requires Going(was, now, target, read, write, n, done) && read < n && c != 0
    ensures Going(was, now[write := c], target, read + 1, write + 1, n, done + [c])
    ensures UnreadText(now[write := c], read + 1, n) == UnreadText(now, read + 1, n)
  {
    assert now[write := c][target..write + 1] == now[target..write] + [c];
    assert now[write := c][read + 1..n] == now[read + 1..n];
  }

  datatype Progress = Continue | Stop | Fail

  /** One turn of the loop: handles the character under the read cursor. */
  method ReadStep(line: array<byte>, read: nat, write: nat, quote: byte, ghost was: seq<byte>, ghost target: nat,
                  ghost n: nat, ghost done: Text)
    returns (p: Progress, read': nat, write': nat, quote': byte, ghost done': Text)
    requires read < n && Going(was, line[..], target, read, write, n, done)
    modifies line
    ensures var r := ReadWord(UnreadText(old(line[..]), read, n), quote);
            match p
            case Continue =>
              && read < read' <= n && Going(was, line[..], target, read', write', n, done')
              && PrependAll(done, r) == PrependAll(done', ReadWord(UnreadText(line[..], read', n), quote'))
            case Stop => quote == 0 && line[..] == old(line[..]) && r == Word([], UnreadText(line[..], read, n))
            case Fail => r == BadWord
  {
    hide ReadWord, Going, Separator, UnreadText;
    ghost var now := line[..];
    GoingFacts(was, now, target, read, write, n, done);
    read', write', quote', done' := read, write, quote, done;
    var character := line[read];
    WordStep(UnreadText(now, read, n), quote);
    if quote != 0 && character == quote {
      quote', read' := 0, read + 1;
      return Continue, read', write', quote', done';
    }
    if quote == 0 && Separator(character) {
      return Stop, read', write', quote', done';
    }
    if quote == 0 && (character == QUOTE || character == DOUBLE) {
      quote', read' := character, read + 1;
      return Continue, read', write', quote', done';
    }
    if character == BACKSLASH && (quote == DOUBLE || quote == 0) {
      read' := read + 1;
      if line[read'] == 0 {
        return Fail, read', write', quote', done';
      }
      GoingFacts(was, now, target, read', write, n, done);
      character := line[read'];
    }
    PrependOne(done, character, ReadWord(UnreadText(now, read' + 1, n), quote));
    PutDown(was, now, target, read', write, n, done, character);
    line[write] := character;
    assert line[..] == now[write := character];
    done', write', read' := done + [character], write + 1, read' + 1;
    GoingFacts(was, line[..], target, read', write', n, done');
    p := Continue;
  }

  /** Reads one word, writing its characters over what was read before. */
  method ReadWordInPlace(line: array<byte>, start: nat, target: nat, ghost n: nat)
    returns (ok: bool, read: nat, write: nat)
    requires LineOK(line[..], start, n) && target <= start
    modifies line
    ensures var r := ReadWord(UnreadText(old(line[..]), start, n), 0);
            && (ok <==> r.Word?)
            && (ok ==> && start <= read <= n && Going(old(line[..]), line[..], target, read, write, n, r.text)
                       && UnreadText(line[..], read, n) == r.rest)
  {
    hide ReadWord, Going, UnreadText;
    read, write := start, target;
    var quote: byte := 0;
    ghost var done: Text, was := [], line[..];
    StartGoing(was, target, start, n);
    GoingFacts(was, was, target, start, target, n, []);
    while line[read] != 0
      invariant start <= read <= n < line.Length && Going(was, line[..], target, read, write, n, done)
      invariant ReadWord(UnreadText(was, start, n), 0) ==
          PrependAll(done, ReadWord(UnreadText(line[..], read, n), quote))
      decreases n - read
    {
      GoingFacts(was, line[..], target, read, write, n, done);
      var p, read', write', quote';
      ghost var done';
      p, read', write', quote', done' := ReadStep(line, read, write, quote, was, target, n, done);
      if p == Fail {
        return false, read, write;
      }
      if p == Stop {
        break;
      }
      read, write, quote, done := read', write', quote', done';
    }
    GoingFacts(was, line[..], target, read, write, n, done);
    WordStep(UnreadText(line[..], read, n), quote);
    assert done + [] == done;
    ok := quote == 0;
  }

  lemma StartGoing(line: seq<byte>, target: nat, start: nat, n: nat)
    requires LineOK(line, start, n) && target <= start
    ensures Going(line, line, target, start, target, n, [])
    ensures forall r :: PrependAll([], r) == r
  {
  }

  lemma WordStep(s: Text, quote: byte)
    ensures ReadWord(s, quote) ==
      if s == [] then (if quote != 0 then BadWord else Word([], []))
      else if quote != 0 && s[0] == quote then ReadWord(s[1..], 0)
      else if quote == 0 && Separator(s[0]) then Word([], s)
      else if quote == 0 && (s[0] == QUOTE || s[0] == DOUBLE) then ReadWord(s[1..], s[0])
      else if s[0] == BACKSLASH && (quote == DOUBLE || quote == 0) then
        (if |s| == 1 then BadWord else Prepend(s[1], ReadWord(s[2..], quote)))
      else Prepend(s[0], ReadWord(s[1..], quote))
  {
  }

  /** `s` stands at `o`, followed by a NUL. */
  ghost predicate TextAt(line: seq<byte>, o: nat, s: Text) {
    o + |s| < |line| && line[o..o + |s|] == s && line[o + |s|] == 0
  }

  ghost predicate AllAt(line: seq<byte>, starts: seq<nat>, words: seq<Text>, below: nat) {
    |starts| == |words| && forall k :: 0 <= k < |words| ==>
      TextAt(line, starts[k], words[k]) && starts[k] + |words[k]| < below
  }

  lemma AllKept(p: seq<byte>, q: seq<byte>, starts: seq<nat>, words: seq<Text>, below: nat)
    requires AllAt(p, starts, words, below) && |p| == |q| && below <= |p| && forall k :: 0 <= k < below ==> q[k] == p[k]
    ensures AllAt(q, starts, words, below)
  {
    forall k | 0 <= k < |words| ensures TextAt(q, starts[k], words[k]) {
      assert q[starts[k]..starts[k] + |words[k]|] == p[starts[k]..starts[k] + |words[k]|];
    }
  }

  method SkipSeparators(line: array<byte>, start: nat, ghost n: nat) returns (read: nat)
    requires LineOK(line[..], start, n)
    ensures start <= read <= n && LineOK(line[..], read, n)
    ensures UnreadText(line[..], read, n) == Skip(UnreadText(line[..], start, n))
    ensures start < n && Separator(line[start]) ==> start < read
  {
    read := start;
    while Separator(line[read])
      invariant start <= read <= n && LineOK(line[..], read, n)
      invariant Skip(UnreadText(line[..], start, n)) == Skip(UnreadText(line[..], read, n))
      invariant read == start || read > start
      decreases n - read
    {
      SkipStep(line[..], read, n);
      read := read + 1;
    }
    SkipDone(line[..], read, n);
  }

  lemma SkipStep(line: seq<byte>, read: nat, n: nat)
    requires LineOK(line, read, n) && Separator(line[read])
    ensures read < n && LineOK(line, read + 1, n)
    ensures Skip(UnreadText(line, read, n)) == Skip(UnreadText(line, read + 1, n))
  {
    assert UnreadText(line, read, n)[1..] == UnreadText(line, read + 1, n);
  }

  lemma SkipDone(line: seq<byte>, read: nat, n: nat)
    requires LineOK(line, read, n) && !Separator(line[read])
    ensures Skip(UnreadText(line, read, n)) == UnreadText(line, read, n)
  {
  }

  lemma WordShortens(s: Text)
    requires s != [] && !Separator(s[0]) && ReadWord(s, 0).Word?
    ensures |ReadWord(s, 0).rest| < |s|
  {
  }

  lemma UnreadSize(line: seq<byte>, read: nat, n: nat)
    requires LineOK(line, read, n)
    ensures |UnreadText(line, read, n)| == n - read && (line[read] == 0 <==> read == n)
    ensures read < n ==> UnreadText(line, read, n)[0] == line[read]
  {
  }

  /** Writing a NUL before the read cursor, or at the end of the line, leaves the unread part alone. */
  lemma Terminate(was: seq<byte>, now: seq<byte>, target: nat, read: nat, write: nat, n: nat, word: Text, read': nat)
    requires Going(was, now, target, read, write, n, word) && read <= read' <= n && LineOK(now, read', n)
    requires (write < read' || read' == n)
    ensures var q := now[write := 0];
            && LineOK(q, read', n) && UnreadText(q, read', n) == UnreadText(now, read', n)
            && TextAt(q, target, word) && write == target + |word| && forall k :: 0 <= k < target ==> q[k] == was[k]
  {
    var q := now[write := 0];
    assert q[target..write] == now[target..write];
    assert q[read'..n] == now[read'..n];
  }

  /** Reads one word, the separators after it, and ends the word with a NUL. */
  method ParseWord(line: array<byte>, start: nat, target: nat, ghost n: nat)
    returns (ok: bool, read: nat, write: nat, ghost word: Text)
    requires LineOK(line[..], start, n) && target <= start < n && !Separator(line[start])
    modifies line
    ensures var r := ReadWord(UnreadText(old(line[..]), start, n), 0);
            && (ok <==> r.Word?)
            && (ok ==> && start < read && LineOK(line[..], read, n) && UnreadText(line[..], read, n) == Skip(r.rest)
                       && word == r.text && TextAt(line[..], target, word) && write == target + |word| + 1
                       && (write <= read || (read == n && write == n + 1))
                       && forall k :: 0 <= k < target ==> line[k] == old(line[k]))
  {
    hide ReadWord, Going, UnreadText, Skip, TextAt, LineOK, Separator;
    ghost var was := line[..];
    LineEnd(was, start, n);
    assert !Separator(was[start]);
    UnreadSize(was, start, n);
    word := [];
    ok, read, write := ReadWordInPlace(line, start, target, n);
    if !ok {
      return;
    }
    WordShortens(UnreadText(was, start, n));
    word := ReadWord(UnreadText(was, start, n), 0).text;
    ghost var r1, now := read, line[..];
    GoingFacts(was, now, target, read, write, n, word);
    GoingLine(was, now, target, read, write, n, word);
    UnreadSize(now, read, n);
    read := SkipSeparators(line, read, n);
    LineEnd(now, read, n);
    Terminate(was, now, target, r1, write, n, word, read);
    line[write] := 0;
    assert line[..] == now[write := 0];
    write := write + 1;
  }

  lemma GoingLine(was: seq<byte>, now: seq<byte>, target: nat, read: nat, write: nat, n: nat, done: Text)
    requires Going(was, now, target, read, write, n, done)
    ensures LineOK(now, read, n)
  {
  }

  lemma LineEnd(line: seq<byte>, read: nat, n: nat)
    requires LineOK(line, read, n)
    ensures read <= n < |line|
  {
  }

  /** What is parsed when `words` came before. */
  function Rejoin(words: seq<Text>, r: LineResult): (r': LineResult) {
    if r.BadLine? then r else Words(words + r.words)
  }

  lemma TokensStep(s: Text, count: nat, words: seq<Text>)
    requires Skip(s) == s
    ensures s == [] ==> Tokens(s, count) == Words([])
    ensures s != [] && count >= 16 ==> Tokens(s, count) == BadLine
    ensures s != [] && count < 16 ==>
              var r := ReadWord(s, 0);
              if r.BadWord? then Tokens(s, count) == BadLine
              else Rejoin(words, Tokens(s, count)) == Rejoin(words + [r.text], Tokens(Skip(r.rest), count + 1))
  {
    hide ReadWord, Skip;
    if s != [] && count < 16 && ReadWord(s, 0).Word? {
      var r, more := ReadWord(s, 0), Tokens(Skip(ReadWord(s, 0).rest), count + 1);
      if more.Words? { assert words + ([r.text] + more.words) == words + [r.text] + more.words; }
    }
  }

  lemma OneWordMore(p: seq<byte>, q: seq<byte>, starts: seq<nat>, words: seq<Text>, write: nat, word: Text)
    requires AllAt(p, starts, words, write) && |p| == |q| && TextAt(q, write, word) && forall k :: 0 <= k < write ==>
        q[k] == p[k]
    ensures AllAt(q, starts + [write], words + [word], write + |word| + 1)
  {
    AllKept(p, q, starts, words, write);
  }

  /** Splits a line in place: afterwards the words stand in the same buffer, each with its NUL. */
  method ParseLine(line: array<byte>, ghost n: nat) returns (ok: bool, starts: seq<nat>)
    requires LineOK(line[..], 0, n)
    modifies line
    ensures var r := Tokens(UnreadText(old(line[..]), 0, n), 0);
            (ok <==> r.Words?) && (ok ==> AllAt(line[..], starts, r.words, line.Length))
  {
    hide ReadWord, Going, UnreadText, Skip, AllAt, Tokens, LineOK;
    starts := [];
    ghost var words: seq<Text>, s := [], UnreadText(line[..], 0, n);
    var write: nat := 0;
    LineEnd(line[..], 0, n);
    SkipAgain(s, 0);
    NoWords(line[..]);
    var read := SkipSeparators(line, 0, n);
    LineEnd(line[..], read, n);
    SkipTwice(s);
    assert Rejoin([], Tokens(s, 0)) == Tokens(s, 0);
    while line[read] != 0
      invariant read <= n < line.Length && LineOK(line[..], read, n) && (write <= read || (read == n && write == n + 1))
      invariant |starts| == |words| <= 16 && AllAt(line[..], starts, words, write)
      invariant var u := UnreadText(line[..], read, n);
                && Skip(u) == u && Tokens(s, 0) == Rejoin(words, Tokens(u, |words|))
      decreases n - read
    {
      ghost var now, u := line[..], UnreadText(line[..], read, n);
      UnreadSize(now, read, n);
      TokensStep(u, |words|, words);
      SkipFirst(u);
      if |starts| >= 16 {
        return false, starts;
      }
      var target := write;
      ghost var word;
      ok, read, write, word := ParseWord(line, read, write, n);
      if !ok {
        return;
      }
      OneWordMore(now, line[..], starts, words, target, word);
      LineEnd(line[..], read, n);
      SkipTwice(ReadWord(u, 0).rest);
      starts, words := starts + [target], words + [word];
    }
    UnreadSize(line[..], read, n);
    TokensStep(UnreadText(line[..], read, n), |words|, words);
    assert words + [] == words;
    AllBelow(line[..], starts, words, write);
    ok := true;
  }

  lemma NoWords(line: seq<byte>)
    ensures AllAt(line, [], [], 0)
  {
  }

  lemma SkipTwice(s: Text)
    ensures Skip(Skip(s)) == Skip(s)
  {
  }

  lemma SkipFirst(s: Text)
    requires Skip(s) == s && s != []
    ensures !Separator(s[0])
  {
  }

  lemma AllBelow(line: seq<byte>, starts: seq<nat>, words: seq<Text>, below: nat)
    requires AllAt(line, starts, words, below)
    ensures AllAt(line, starts, words, |line|)
  {
  }
}
