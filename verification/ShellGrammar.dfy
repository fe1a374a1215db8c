/** The shell's lines as a grammar: which lines are accepted, and what their words are. */
module ShellGrammar {
  import opened Bytes
  import opened ShellWords

  // ---------- words ----------

  /** A byte between double quotes, written as it is or after a backslash. */
  datatype Item = Raw(c: byte) | Behind(c: byte)

  /** Part of a word: a bare byte, one after a backslash, or a string between quotes. */
  datatype Piece = Bare(c: byte) | Escaped(c: byte) | Single(text: seq<byte>) | Double(items: seq<Item>)

  ghost predicate ItemFine(i: Item) { if i.Raw? then i.c !in {0, 0x22, 0x5C} else i.c != 0 }

  ghost predicate PieceFine(p: Piece) {
    match p
    case Bare(c) => c !in {0, 0x20, 0x09, 0x22, 0x27, 0x5C}
    case Escaped(c) => c != 0
    case Single(text) => forall i :: 0 <= i < |text| ==> text[i] !in {0, 0x27}
    case Double(items) => forall i :: 0 <= i < |items| ==> ItemFine(items[i])
  }

  ghost predicate Fine(ps: seq<Piece>) { forall i :: 0 <= i < |ps| ==> PieceFine(ps[i]) }

  function ItemBytes(xs: seq<Item>): (s: seq<byte>) {
    if xs == [] then [] else (if xs[0].Raw? then [xs[0].c] else [0x5C, xs[0].c]) + ItemBytes(xs[1..])
  }

  function ItemText(xs: seq<Item>): (s: seq<byte>) {
    if xs == [] then [] else [xs[0].c] + ItemText(xs[1..])
  }

  /** How a piece is written. */
  function Bytes1(p: Piece): (s: seq<byte>) {
    match p
    case Bare(c) => [c]
    case Escaped(c) => [0x5C, c]
    case Single(text) => [0x27] + (text + [0x27])
    case Double(items) => [0x22] + (ItemBytes(items) + [0x22])
  }

  /** What it stands for. */
  function Text1(p: Piece): (s: seq<byte>) {
    match p
    case Bare(c) => [c]
    case Escaped(c) => [c]
    case Single(text) => text
    case Double(items) => ItemText(items)
  }

  function Spelling(ps: seq<Piece>): (s: seq<byte>) { if ps == [] then [] else Bytes1(ps[0]) + Spelling(ps[1..]) }

  function Meaning(ps: seq<Piece>): (s: seq<byte>) { if ps == [] then [] else Text1(ps[0]) + Meaning(ps[1..]) }

  // ---------- what is written is read ----------

  ghost predicate NoNul(s: seq<byte>) { forall i :: 0 <= i < |s| ==> s[i] != 0 }


  /** A byte that stands for itself, outside of quotes (0) or inside. */
  ghost predicate Itself(c: byte, quote: byte) {
    && c != 0
    && if quote == 0 then c !in {0x20, 0x09, 0x22, 0x27, 0x5C}
       else if quote == 0x22 then c !in {0x22, 0x5C} else quote == 0x27 && c != 0x27
  }

  lemma ItselfReads(c: byte, s: Text, quote: byte)
    requires Itself(c, quote)
    ensures ReadWord([c] + s, quote) == Prepend(c, ReadWord(s, quote))
  {
    assert ([c] + s)[1..] == s;
  }

  lemma BackslashReads(c: byte, s: Text, quote: byte)
    requires c != 0 && quote in {0, 0x22}
    ensures ReadWord([0x5C, c] + s, quote) == Prepend(c, ReadWord(s, quote))
  {
    assert ([0x5C, c] + s)[2..] == s;
  }

  lemma QuoteReads(quote: byte, s: Text)
    requires quote in {0x22, 0x27}
    ensures ReadWord([quote] + s, 0) == ReadWord(s, quote) && ReadWord([quote] + s, quote) == ReadWord(s, 0)
  {
    assert ([quote] + s)[1..] == s;
  }

  lemma {:induction false} SingleReads(text: Text, rest: Text)
    requires 0x27 !in text
    ensures NoNul(text + ([0x27] + rest))
    ensures ReadWord(text + ([0x27] + rest), 0x27) == PrependAll(text, ReadWord(rest, 0))
  {
    hide ReadWord;
    if text == [] {
      assert text + ([0x27] + rest) == [0x27] + rest;
      QuoteReads(0x27, rest);
      PrependNothing(ReadWord(rest, 0));
    } else {
      assert text[0] in text;
      var c, t: Text := text[0], text[1..];
      var more: Text := t + ([0x27] + rest);
      SingleReads(t, rest);
      ItselfReads(c, more, 0x27);
      assert text + ([0x27] + rest) == [c] + more && text == [c] + t;
      PrependFirst(c, t, ReadWord(rest, 0));
    }
  }

  lemma PrependNothing(r: WordResult)
    ensures PrependAll([], r) == r
  {
    if r.Word? { assert [] + r.text == r.text; }
  }

  lemma PrependFirst(c: byte, t: Text, r: WordResult)
    requires c != 0
    ensures PrependAll([c] + t, r) == Prepend(c, PrependAll(t, r))
  {
    if r.Word? { assert ([c] + t) + r.text == [c] + (t + r.text); }
  }

  lemma {:induction false} DoubleReads(xs: seq<Item>, rest: Text)
    requires forall i :: 0 <= i < |xs| ==> ItemFine(xs[i])
    ensures NoNul(ItemBytes(xs) + ([0x22] + rest)) && NoNul(ItemText(xs))
    ensures ReadWord(ItemBytes(xs) + ([0x22] + rest), 0x22) == PrependAll(ItemText(xs), ReadWord(rest, 0))
  {
    hide ReadWord;
    if xs == [] {
      assert ItemBytes(xs) + ([0x22] + rest) == [0x22] + rest;
      QuoteReads(0x22, rest);
      PrependNothing(ReadWord(rest, 0));
    } else {
      DoubleReads(xs[1..], rest);
      var more: Text := ItemBytes(xs[1..]) + ([0x22] + rest);
      var c, t: Text := xs[0].c, ItemText(xs[1..]);
      assert ItemFine(xs[0]);
      if xs[0].Raw? {
        ItselfReads(c, more, 0x22);
        assert ItemBytes(xs) + ([0x22] + rest) == [c] + more;
      } else {
        BackslashReads(c, more, 0x22);
        assert ItemBytes(xs) + ([0x22] + rest) == [0x5C, c] + more;
      }
      PrependFirst(c, t, ReadWord(rest, 0));
    }
  }

  lemma PieceReads(p: Piece, rest: Text)
    requires PieceFine(p)
    ensures NoNul(Bytes1(p) + rest) && NoNul(Text1(p))
    ensures ReadWord(Bytes1(p) + rest, 0) == PrependAll(Text1(p), ReadWord(rest, 0))
  {
    hide ReadWord, ItemBytes, ItemText;
    match p
    case Bare(c) => ItselfReads(c, rest, 0);
    case Escaped(c) => BackslashReads(c, rest, 0);
    case Single(text) =>
      SingleReads(text, rest);
      QuoteReads(0x27, text + ([0x27] + rest));
      assert Bytes1(p) + rest == [0x27] + (text + ([0x27] + rest));
    case Double(items) =>
      DoubleReads(items, rest);
      QuoteReads(0x22, ItemBytes(items) + ([0x22] + rest));
      assert Bytes1(p) + rest == [0x22] + (ItemBytes(items) + ([0x22] + rest));
  }

  lemma {:induction false} WordReads(ps: seq<Piece>, rest: Text)
    requires Fine(ps) && (rest == [] || rest[0] in {0x20, 0x09})
    ensures NoNul(Spelling(ps) + rest) && NoNul(Meaning(ps))
    ensures ReadWord(Spelling(ps) + rest, 0) == Word(Meaning(ps), rest)
  {
    hide ReadWord, Bytes1, Text1, PieceFine;
    if ps == [] {
      assert Spelling(ps) + rest == rest;
      EndReads(rest);
    } else {
      WordReads(ps[1..], rest);
      var more: Text := Spelling(ps[1..]) + rest;
      PieceReads(ps[0], more);
      assert Spelling(ps) + rest == Bytes1(ps[0]) + more;
    }
  }

  lemma EndReads(rest: Text)
    requires rest == [] || rest[0] in {0x20, 0x09}
    ensures ReadWord(rest, 0) == Word([], rest)
  {
  }

  // ---------- what is read was written ----------

  /** `s` is a word written as `ps`, and `rest`. */
  ghost predicate Splits(s: seq<byte>, ps: seq<Piece>, text: seq<byte>, rest: seq<byte>) {
    Fine(ps) && s == Spelling(ps) + rest && text == Meaning(ps)
  }

  lemma Unfinished(quote: byte)
    ensures quote != 0 ==> ReadWord([], quote).BadWord?
    ensures quote in {0, 0x22} ==> ReadWord([0x5C], quote).BadWord?
  {
  }

  lemma {:induction false} WordWritten(s: Text) returns (ps: seq<Piece>)
    requires ReadWord(s, 0).Word?
    ensures Splits(s, ps, ReadWord(s, 0).text, ReadWord(s, 0).rest)
    decreases |s|
  {
    hide ReadWord, ItemBytes, ItemText, Splits;
    var rest := ReadWord(s, 0).rest;
    Unfinished(0);
    if s == [] || s[0] == 0x20 || s[0] == 0x09 {
      EndReads(s);
      NoPieces(s);
      ps := [];
    } else if s[0] == 0x27 {
      QuoteReads(0x27, s[1..]);
      assert s == [0x27] + s[1..];
      var text, tail;
      text, tail := SingleWritten(s[1..]);
      ps := WordWritten(tail);
      assert s == Bytes1(Single(text)) + tail;
      ps := OneMorePiece(Single(text), ps, s, tail, ReadWord(tail, 0).text, rest);
    } else if s[0] == 0x22 {
      QuoteReads(0x22, s[1..]);
      assert s == [0x22] + s[1..];
      var items, tail;
      items, tail := DoubleWritten(s[1..]);
      ps := WordWritten(tail);
      assert s == Bytes1(Double(items)) + tail;
      ps := OneMorePiece(Double(items), ps, s, tail, ReadWord(tail, 0).text, rest);
    } else if s[0] == 0x5C {
      assert |s| == 1 ==> s == [0x5C];
      BackslashReads(s[1], s[2..], 0);
      assert s == [0x5C, s[1]] + s[2..];
      ps := WordWritten(s[2..]);
      ps := OneMorePiece(Escaped(s[1]), ps, s, s[2..], ReadWord(s[2..], 0).text, rest);
    } else {
      ItselfReads(s[0], s[1..], 0);
      assert s == [s[0]] + s[1..];
      ps := WordWritten(s[1..]);
      ps := OneMorePiece(Bare(s[0]), ps, s, s[1..], ReadWord(s[1..], 0).text, rest);
    }
  }

  lemma NoPieces(s: Text)
    ensures Splits(s, [], [], s)
  {
    assert [] + s == s;
  }

  lemma OneMorePiece(p: Piece, ps: seq<Piece>, s: Text, tail: Text, text: Text, rest: Text) returns (qs: seq<Piece>)
    requires PieceFine(p) && Splits(tail, ps, text, rest) && s == Bytes1(p) + tail
    ensures Splits(s, qs, Text1(p) + text, rest)
  {
    hide Bytes1, Text1, PieceFine;
    qs := [p] + ps;
    assert qs[1..] == ps;
  }

  /** Inside single quotes: the text up to the closing one, and what follows. */
  lemma {:induction false} SingleWritten(s: Text) returns (text: Text, tail: Text)
    requires ReadWord(s, 0x27).Word?
    ensures PieceFine(Single(text)) && s == text + ([0x27] + tail)
    ensures ReadWord(s, 0x27) == PrependAll(text, ReadWord(tail, 0))
    decreases |s|
  {
    hide ReadWord;
    Unfinished(0x27);
    var c, t: Text := s[0], s[1..];
    assert s == [c] + t;
    if c == 0x27 {
      QuoteReads(0x27, t);
      text, tail := [], t;
      PrependNothing(ReadWord(tail, 0));
    } else {
      ItselfReads(c, t, 0x27);
      var more: Text;
      more, tail := SingleWritten(t);
      text := [c] + more;
      PrependFirst(c, more, ReadWord(tail, 0));
    }
  }

  /** The same for double quotes. */
  lemma {:induction false} DoubleWritten(s: Text) returns (items: seq<Item>, tail: Text)
    requires ReadWord(s, 0x22).Word?
    ensures PieceFine(Double(items)) && s == ItemBytes(items) + ([0x22] + tail) && NoNul(ItemText(items))
    ensures ReadWord(s, 0x22) == PrependAll(ItemText(items), ReadWord(tail, 0))
    decreases |s|
  {
    hide ReadWord;
    Unfinished(0x22);
    var c, t: Text := s[0], s[1..];
    assert s == [c] + t;
    if c == 0x22 {
      QuoteReads(0x22, t);
      items, tail := [], t;
      PrependNothing(ReadWord(tail, 0));
      assert ItemBytes([]) + s == s;
    } else if c == 0x5C {
      assert |s| == 1 ==> s == [0x5C];
      BackslashReads(s[1], s[2..], 0x22);
      assert s == [0x5C, s[1]] + s[2..];
      var more;
      more, tail := DoubleWritten(s[2..]);
      items := OneMoreItem(Behind(s[1]), more);
      PrependFirst(s[1], ItemText(more), ReadWord(tail, 0));
    } else {
      ItselfReads(c, t, 0x22);
      var more;
      more, tail := DoubleWritten(t);
      items := OneMoreItem(Raw(c), more);
      PrependFirst(c, ItemText(more), ReadWord(tail, 0));
    }
  }

  lemma OneMoreItem(x: Item, xs: seq<Item>) returns (ys: seq<Item>)
    requires ItemFine(x) && PieceFine(Double(xs))
    ensures PieceFine(Double(ys)) && ItemText(ys) == [x.c] + ItemText(xs)
    ensures ItemBytes(ys) == (if x.Raw? then [x.c] else [0x5C, x.c]) + ItemBytes(xs)
  {
    ys := [x] + xs;
    assert ys[1..] == xs;
  }

  // ---------- lines ----------

  /** A word with the separators before it. */
  datatype Token = Token(gap: seq<byte>, pieces: seq<Piece>)

  ghost predicate Blank(s: seq<byte>) { forall i :: 0 <= i < |s| ==> s[i] in {0x20, 0x09} }

  ghost predicate TokenFine(t: Token) { Blank(t.gap) && t.pieces != [] && Fine(t.pieces) }

  /** Words stand apart: only the first one may begin without a separator before it. */
  ghost predicate LineFine(ts: seq<Token>) {
    (forall i :: 0 <= i < |ts| ==> TokenFine(ts[i])) && forall i :: 1 <= i < |ts| ==> ts[i].gap != []
  }

  function Line(ts: seq<Token>, end: seq<byte>): (s: seq<byte>) {
    if ts == [] then end else ts[0].gap + (Spelling(ts[0].pieces) + Line(ts[1..], end))
  }

  function LineWords(ts: seq<Token>): (ws: seq<seq<byte>>) {
    if ts == [] then [] else [Meaning(ts[0].pieces)] + LineWords(ts[1..])
  }

  lemma {:induction false} SkipBlank(gap: seq<byte>, s: Text)
    requires Blank(gap)
    ensures NoNul(gap + s) && Skip(gap + s) == Skip(s)
  {
    if gap == [] {
      assert gap + s == s;
    } else {
      SkipBlank(gap[1..], s);
      assert (gap + s)[1..] == gap[1..] + s;
    }
  }

  lemma {:induction false} SpellingStarts(ps: seq<Piece>, rest: Text)
    requires ps != [] && Fine(ps)
    ensures Spelling(ps) != [] && Spelling(ps)[0] !in {0x20, 0x09}
  {
    assert PieceFine(ps[0]);
  }

  lemma SkipDone(s: Text)
    requires s == [] || s[0] !in {0x20, 0x09}
    ensures Skip(s) == s
  {
  }

  lemma {:induction false} SkipTwice(s: Text)
    ensures Skip(Skip(s)) == Skip(s)
  {
    SkipEnds(s);
    SkipDone(Skip(s));
  }

  lemma SkipEnds(s: Text)
    ensures Skip(s) == [] || Skip(s)[0] !in {0x20, 0x09}
  {
  }

  lemma TokensSkip(s: Text, count: nat)
    ensures Tokens(Skip(s), count) == Tokens(s, count)
  {
    hide Skip, ReadWord;
    SkipTwice(s);
  }

  /** A line of at most 16 words written by the grammar is read as these words. */
  lemma {:induction false} LineReads(ts: seq<Token>, end: seq<byte>, count: nat)
    requires LineFine(ts) && Blank(end) && count <= 16
    ensures NoNul(Line(ts, end))
    ensures var r := Tokens(Line(ts, end), count);
            if count + |ts| <= 16 then r.Words? && r.words == LineWords(ts) else r == BadLine
    decreases |ts|
  {
    hide ReadWord, Skip, Spelling, Meaning, Fine, Blank;
    if ts == [] {
      OnlyBlank(end);
    } else {
      var t, more := ts[0], ts[1..];
      assert TokenFine(t);
      assert LineFine(more);
      LineReads(more, end, if count < 16 then count + 1 else count);
      var rest: Text := Line(more, end);
      RestStarts(more, end);
      WordReads(t.pieces, rest);
      var u: Text := Spelling(t.pieces) + rest;
      SkipBlank(t.gap, u);
      SpellingStarts(t.pieces, rest);
      SkipDone(u);
      assert Line(ts, end) == t.gap + u;
      TokensSkip(rest, count + 1);
    }
  }

  lemma OnlyBlank(end: seq<byte>)
    requires Blank(end)
    ensures NoNul(end) && Skip(end) == []
  {
    SkipBlank(end, []);
    assert end + [] == end;
  }

  lemma RestStarts(ts: seq<Token>, end: seq<byte>)
    requires Blank(end) && LineFine(ts) && (ts != [] ==> ts[0].gap != [])
    ensures Line(ts, end) == [] || Line(ts, end)[0] in {0x20, 0x09}
  {
    if ts != [] { assert TokenFine(ts[0]); }
  }

  lemma {:induction false} SkipSplits(s: Text) returns (gap: seq<byte>)
    ensures Blank(gap) && s == gap + Skip(s) && (s != [] && s[0] in {0x20, 0x09} ==> gap != [])
  {
    if s != [] && Separator(s[0]) {
      gap := SkipSplits(s[1..]);
      gap := [s[0]] + gap;
    } else {
      gap := [];
    }
  }

  /** Every line that is accepted was written by the grammar, with at most 16 words. */
  lemma {:induction false} LineWritten(s: Text, count: nat) returns (ts: seq<Token>, end: seq<byte>)
    requires Tokens(s, count).Words?
    ensures LineFine(ts) && Blank(end) && s == Line(ts, end) && LineWords(ts) == Tokens(s, count).words
    ensures count <= 16 ==> count + |ts| <= 16
    ensures s != [] && s[0] in {0x20, 0x09} && ts != [] ==> ts[0].gap != []
    decreases |s|
  {
    hide ReadWord, Skip, Spelling, Meaning, Fine, Blank;
    var gap := SkipSplits(s);
    var t := Skip(s);
    if t == [] {
      ts, end := [], gap;
      assert gap + t == gap;
    } else {
      var ps := WordWritten(t);
      var rest := ReadWord(t, 0).rest;
      TokensSkip(rest, count + 1);
      ts, end := LineWritten(rest, count + 1);
      RestGap(t);
      SkipEnds(s);
      PiecesThere(t, ps, rest);
      ts := OneMoreToken(Token(gap, ps), ts);
    }
  }

  lemma RestGap(t: Text)
    requires ReadWord(t, 0).Word?
    ensures var rest := ReadWord(t, 0).rest; rest == [] || rest[0] in {0x20, 0x09}
  {
  }

  lemma PiecesThere(t: Text, ps: seq<Piece>, rest: Text)
    requires t != [] && t[0] !in {0x20, 0x09} && t == Spelling(ps) + rest && (rest == [] || rest[0] in {0x20, 0x09})
    ensures ps != []
  {
  }

  lemma OneMoreToken(t: Token, ts: seq<Token>) returns (us: seq<Token>)
    requires TokenFine(t) && LineFine(ts) && (ts != [] ==> ts[0].gap != [])
    ensures us == [t] + ts && LineFine(us) && us[1..] == ts
  {
    us := [t] + ts;
    assert us[1..] == ts;
  }

  ghost predicate WrittenAs(s: Text, ts: seq<Token>, end: seq<byte>) {
    LineFine(ts) && Blank(end) && s == Line(ts, end)
  }

  /** The accepted lines are exactly those of the grammar with at most 16 words, and their words are
      what the grammar says. */
  lemma LineMeans(s: Text, ws: seq<Text>)
    ensures Tokens(s, 0) == Words(ws) <==> exists ts, end :: WrittenAs(s, ts, end) && |ts| <= 16 && ws == LineWords(ts)
  {
    hide Tokens, LineFine, Blank, Line, LineWords;
    if Tokens(s, 0) == Words(ws) {
      var ts, end := LineWritten(s, 0);
      assert WrittenAs(s, ts, end);
    }
    forall ts, end | WrittenAs(s, ts, end) && |ts| <= 16 && ws == LineWords(ts) ensures Tokens(s, 0) == Words(ws) {
      LineReads(ts, end, 0);
    }
  }
}
