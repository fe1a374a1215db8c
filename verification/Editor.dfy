/** The line editor: a byte buffer edited in place, seen as a list of lines. */
module Editor {
  import opened Bytes

  const NEWLINE: byte := 0x0A

  // ---------- lines ----------

  predicate OneLine(s: seq<byte>) { forall i :: 0 <= i < |s| ==> s[i] != NEWLINE }

  /** Number of bytes before the first newline. */
  function UpToNewline(s: seq<byte>): (n: nat)
    ensures n <= |s| && (n < |s| ==> s[n] == NEWLINE) && forall i :: 0 <= i < n ==> s[i] != NEWLINE
  {
    if s == [] || s[0] == NEWLINE then 0 else 1 + UpToNewline(s[1..])
  }

  /** The lines of a text; the last one may lack its newline. */
  function Lines(s: seq<byte>): (ls: seq<seq<byte>>)
    decreases |s|
  {
    if s == [] then []
    else
      var n := UpToNewline(s);
      [s[..n]] + (if n < |s| then Lines(s[n + 1..]) else [])
  }

  predicate Terminated(s: seq<byte>) { s == [] || s[|s| - 1] == NEWLINE }

  lemma UpToIs(s: seq<byte>, n: nat)
    requires n <= |s| && (n < |s| ==> s[n] == NEWLINE) && forall i :: 0 <= i < n ==> s[i] != NEWLINE
    ensures UpToNewline(s) == n
  {
  }

  /** A first line, its newline, and the rest. */
  lemma LinesFirst(a: seq<byte>, b: seq<byte>)
    requires OneLine(a)
    ensures Lines(a + ([NEWLINE] + b)) == [a] + Lines(b)
  {
    var s := a + ([NEWLINE] + b);
    UpToIs(s, |a|);
    assert s[..|a|] == a && s[|a| + 1..] == b;
  }

  lemma LinesLast(a: seq<byte>)
    requires OneLine(a)
    ensures Lines(a) == if a == [] then [] else [a]
  {
    UpToIs(a, |a|);
    assert a[..|a|] == a;
  }

  lemma NoLines()
    ensures Lines([]) == []
  {
  }

  /** A terminated text starts with a line, its newline and a terminated rest. */
  lemma TerminatedStart(s: seq<byte>) returns (line: seq<byte>, rest: seq<byte>)
    requires Terminated(s) && s != []
    ensures OneLine(line) && Terminated(rest) && s == line + ([NEWLINE] + rest)
  {
    var n := UpToNewline(s);
    line, rest := s[..n], s[n + 1..];
  }

  /** Lines of a text that is cut after a newline. */
  lemma {:induction false} LinesSplit(a: seq<byte>, b: seq<byte>)
    requires Terminated(a)
    ensures Lines(a + b) == Lines(a) + Lines(b)
    decreases |a|
  {
    hide Lines;
    if a == [] {
      NoLines();
      assert a + b == b;
    } else {
      var l, rest := TerminatedStart(a);
      assert a + b == l + ([NEWLINE] + (rest + b));
      LinesFirst(l, rest);
      LinesFirst(l, rest + b);
      LinesSplit(rest, b);
      assert [l] + (Lines(rest) + Lines(b)) == [l] + Lines(rest) + Lines(b);
    }
  }

  /** Where a line stands: `before` it only whole lines, and after it a newline or nothing. */
  ghost predicate LineAt(s: seq<byte>, number: nat, start: nat, end: nat) {
    && 0 < number && start <= end <= |s| && start < |s|
    && Terminated(s[..start]) && |Lines(s[..start])| == number - 1
    && OneLine(s[start..end]) && (end < |s| ==> s[end] == NEWLINE)
  }

  /** What a located line means for the list of lines. */
  lemma LineAtMeans(s: seq<byte>, number: nat, start: nat, end: nat)
    requires LineAt(s, number, start, end)
    ensures number <= |Lines(s)| && Lines(s)[number - 1] == s[start..end] && Lines(s[..start]) == Lines(s)[..number - 1]
    ensures end < |s| ==> Lines(s[end + 1..]) == Lines(s)[number..]
    ensures end == |s| ==> number == |Lines(s)| && start < end
  {
    hide Lines;
    var a, l := s[..start], s[start..end];
    if end < |s| {
      var b := s[end + 1..];
      assert s == a + (l + ([NEWLINE] + b));
      LinesSplit(a, l + ([NEWLINE] + b));
      LinesFirst(l, b);
      assert Lines(s) == Lines(a) + ([l] + Lines(b));
    } else {
      assert s == a + l;
      LinesSplit(a, l);
      LinesLast(l);
    }
  }

  /** Scanning past a line that starts after whole lines. */
  lemma PastLine(s: seq<byte>, start: nat, end: nat)
    requires start <= end <= |s| && Terminated(s[..start]) && OneLine(s[start..end])
    requires end < |s| ==> s[end] == NEWLINE
    ensures end == |s| ==> |Lines(s)| == |Lines(s[..start])| + (if start < end then 1 else 0)
    ensures end < |s| ==> Terminated(s[..end + 1]) && |Lines(s[..end + 1])| == |Lines(s[..start])| + 1
    ensures end < |s| ==> |Lines(s)| == |Lines(s[..start])| + 1 + |Lines(s[end + 1..])|
  {
    hide Lines;
    var a, l := s[..start], s[start..end];
    if end == |s| {
      assert s == a + l;
      LinesSplit(a, l);
      LinesLast(l);
    } else {
      NoLines();
      assert s[..end + 1] == a + (l + ([NEWLINE] + []));
      LinesSplit(a, l + ([NEWLINE] + []));
      LinesFirst(l, []);
      assert s == s[..end + 1] + s[end + 1..];
      LinesSplit(s[..end + 1], s[end + 1..]);
    }
  }

  // ---------- the edits ----------

  lemma AppendMeans(s: seq<byte>, t: seq<byte>)
    requires OneLine(t)
    ensures Lines(s + (if Terminated(s) then t + [NEWLINE] else [NEWLINE] + t + [NEWLINE])) == Lines(s) + [t]
  {
    hide Lines;
    assert t + [NEWLINE] == t + ([NEWLINE] + []);
    LinesFirst(t, []);
    NoLines();
    if Terminated(s) {
      LinesSplit(s, t + [NEWLINE]);
    } else {
      assert s + ([NEWLINE] + t + [NEWLINE]) == (s + [NEWLINE]) + (t + [NEWLINE]);
      LinesSplit(s + [NEWLINE], t + [NEWLINE]);
      TerminateLast(s);
    }
  }

  /** A missing last newline may be added without changing the lines. */
  lemma {:induction false} TerminateLast(s: seq<byte>)
    requires !Terminated(s)
    ensures Lines(s + [NEWLINE]) == Lines(s)
    decreases |s|
  {
    hide Lines;
    var n := UpToNewline(s);
    if n == |s| {
      NoLines();
      assert s + [NEWLINE] == s + ([NEWLINE] + []);
      LinesFirst(s, []);
      LinesLast(s);
    } else {
      var l, rest := s[..n], s[n + 1..];
      assert s == l + ([NEWLINE] + rest) && s + [NEWLINE] == l + ([NEWLINE] + (rest + [NEWLINE]));
      LinesFirst(l, rest);
      LinesFirst(l, rest + [NEWLINE]);
      TerminateLast(rest);
    }
  }

  lemma InsertMeans(s: seq<byte>, number: nat, start: nat, end: nat, t: seq<byte>)
    requires LineAt(s, number, start, end) && OneLine(t)
    ensures number <= |Lines(s)|
    ensures Lines(s[..start] + (t + [NEWLINE]) + s[start..]) == Lines(s)[..number - 1] + [t] + Lines(s)[number - 1..]
  {
    hide Lines;
    LineAtMeans(s, number, start, end);
    var a, b := s[..start], s[start..];
    assert a + (t + [NEWLINE]) + b == a + (t + ([NEWLINE] + b));
    LinesSplit(a, t + ([NEWLINE] + b));
    LinesFirst(t, b);
    assert s == a + b;
    LinesSplit(a, b);
  }

  lemma DeleteMeans(s: seq<byte>, number: nat, start: nat, end: nat)
    requires LineAt(s, number, start, end)
    ensures number <= |Lines(s)|
    ensures Lines(s[..start] + s[if end < |s| then end + 1 else end..]) == Lines(s)[..number - 1] + Lines(s)[number..]
  {
    hide Lines;
    LineAtMeans(s, number, start, end);
    LinesSplit(s[..start], s[if end < |s| then end + 1 else end..]);
    if end == |s| { NoLines(); }
  }

  /** Replacing a line by another one, except that an unterminated last line vanishes when it is
      replaced by nothing. */
  lemma ReplaceMeans(s: seq<byte>, number: nat, start: nat, end: nat, t: seq<byte>)
    requires LineAt(s, number, start, end) && OneLine(t)
    ensures number <= |Lines(s)|
    ensures Lines(s[..start] + t + s[end..]) ==
            if t == [] && end == |s| then Lines(s)[..number - 1] else Lines(s)[number - 1 := t]
  {
    hide Lines;
    LineAtMeans(s, number, start, end);
    var a := s[..start];
    if end < |s| {
      assert a + t + s[end..] == a + (t + ([NEWLINE] + s[end + 1..]));
      LinesSplit(a, t + ([NEWLINE] + s[end + 1..]));
      LinesFirst(t, s[end + 1..]);
    } else {
      assert a + t + s[end..] == a + t;
      LinesSplit(a, t);
      LinesLast(t);
    }
  }

  /** In the text "a" replacing line 1 by nothing removes it; in "a" with a newline an empty line stays. */
  lemma EmptyReplacement()
    ensures LineAt([0x61], 1, 0, 1) && Lines(Spliced([0x61], 0, 1, [])) == []
    ensures LineAt([0x61, NEWLINE], 1, 0, 1) && Lines(Spliced([0x61, NEWLINE], 0, 1, [])) == [[]]
  {
    var open: seq<byte>, closed: seq<byte> := [0x61], [0x61, NEWLINE];
    assert open[..0] == [] && closed[..0] == [];
    NoLines();
    LinesLast(open);
    LinesFirst(open, []);
    assert closed == open + ([NEWLINE] + []);
    assert LineAt(open, 1, 0, 1) && LineAt(closed, 1, 0, 1);
    ReplaceMeans(open, 1, 0, 1, []);
    ReplaceMeans(closed, 1, 0, 1, []);
  }

  /** What the end of a text is after some bytes of it were replaced. */
  lemma EndAfter(s: seq<byte>, start: nat, end: nat, t: seq<byte>)
    requires start <= end <= |s|
    ensures Terminated(Spliced(s, start, end, t)) <==>
              if end < |s| then Terminated(s) else if t != [] then t[|t| - 1] == NEWLINE else Terminated(s[..start])
  {
  }

  lemma DeletedLast(s: seq<byte>, number: nat, start: nat, end: nat)
    requires LineAt(s, number, start, end)
    ensures (if end < |s| then end + 1 else end) == |s| <==> number == |Lines(s)|
  {
    hide Lines;
    LineAtMeans(s, number, start, end);
    if end < |s| {
      NoLines();
      if number == |Lines(s)| { NoLinesOnlyEmpty(s[end + 1..]); }
    }
  }

  // ---------- lines and texts ----------

  /** The text of a list of lines, each followed by a newline. */
  function Joined(ls: seq<seq<byte>>): (s: seq<byte>) {
    if ls == [] then [] else ls[0] + ([0x0A] + Joined(ls[1..]))
  }

  lemma {:induction false} LinesOfJoined(ls: seq<seq<byte>>)
    requires forall i :: 0 <= i < |ls| ==> 0x0A !in ls[i]
    ensures Lines(Joined(ls)) == ls && Terminated(Joined(ls))
  {
    hide Lines;
    if ls == [] {
      NoLines();
    } else {
      LinesOfJoined(ls[1..]);
      forall i | 0 <= i < |ls[0]| ensures ls[0][i] != NEWLINE { assert ls[0][i] in ls[0]; }
      LinesFirst(ls[0], Joined(ls[1..]));
    }
  }

  /** A text is its lines, each with its newline, except that the last one may lack it. */
  lemma {:induction false} JoinedLines(s: seq<byte>)
    ensures Joined(Lines(s)) == if Terminated(s) then s else s + [0x0A]
    decreases |s|
  {
    hide Lines, UpToNewline, Joined;
    if s == [] {
      NoLines();
      JoinedFirst([], []);
    } else {
      var n := UpToNewline(s);
      FirstLine(s);
      if n < |s| {
        var l, rest := s[..n], s[n + 1..];
        JoinedLines(rest);
        assert s == l + ([0x0A] + rest);
        LinesFirst(l, rest);
        JoinedFirst(l, Lines(rest));
        assert rest == [] || s[|s| - 1] == rest[|rest| - 1];
        assert l + ([0x0A] + (rest + [0x0A])) == s + [0x0A];
      } else {
        assert s[..n] == s;
        LinesLast(s);
        JoinedFirst(s, []);
        assert s + ([0x0A] + []) == s + [0x0A];
      }
    }
  }

  lemma FirstLine(s: seq<byte>)
    ensures OneLine(s[..UpToNewline(s)])
  {
    hide UpToNewline;
  }

  lemma JoinedFirst(l: seq<byte>, ls: seq<seq<byte>>)
    ensures Joined([]) == []
    ensures Joined([l] + ls) == l + ([0x0A] + Joined(ls)) && Joined([l]) == l + ([0x0A] + [])
  {
    assert ([l] + ls)[1..] == ls && [l][1..] == [];
  }

  /** A located line reaches the end of the text exactly when it is the unterminated last one. */
  lemma LastLine(s: seq<byte>, number: nat, start: nat, end: nat)
    requires LineAt(s, number, start, end)
    ensures end == |s| <==> number == |Lines(s)| && !Terminated(s)
  {
    hide Lines;
    LineAtMeans(s, number, start, end);
    if end == |s| {
      assert s[|s| - 1] == s[start..end][|s| - 1 - start];
    } else if number == |Lines(s)| {
      assert Lines(s)[number..] == [];
      NoLinesOnlyEmpty(s[end + 1..]);
    }
  }

  lemma NoLinesOnlyEmpty(s: seq<byte>)
    ensures Lines(s) == [] ==> s == []
  {
  }

  // ---------- scanning ----------

  lemma OneMoreByte(s: seq<byte>, c: byte)
    ensures |Lines(s + [c])| == |Lines(s)| + (if Terminated(s) then 1 else 0)
  {
    hide Lines;
    if Terminated(s) {
      LinesSplit(s, [c]);
      OneByte(c);
    } else {
      UnterminatedGrows(s, c);
    }
  }

  lemma OneByte(c: byte)
    ensures |Lines([c])| == 1
  {
    if c == NEWLINE {
      LinesFirst([], []);
      assert [] + ([NEWLINE] + []) == [c];
    } else {
      LinesLast([c]);
    }
  }

  /** A text is its terminated part and a last line without newline. */
  function LastStart(s: seq<byte>): (n: nat)
    ensures n <= |s| && Terminated(s[..n]) && OneLine(s[n..])
  {
    if Terminated(s) then assert s[..|s|] == s; |s|
    else
      var n := LastStart(s[..|s| - 1]);
      assert s[..|s| - 1][..n] == s[..n] && s[n..] == s[..|s| - 1][n..] + [s[|s| - 1]];
      n
  }

  lemma UnterminatedGrows(s: seq<byte>, c: byte)
    requires !Terminated(s)
    ensures |Lines(s + [c])| == |Lines(s)|
  {
    hide Lines;
    if c == NEWLINE {
      TerminateLast(s);
    } else {
      var n := LastStart(s);
      var a, l := s[..n], s[n..];
      assert s == a + l && s + [c] == a + (l + [c]);
      LinesSplit(a, l);
      LinesSplit(a, l + [c]);
      LinesLast(l);
      LinesLast(l + [c]);
      assert s[..|s|] == s;
    }
  }

  /** The number of lines is what a scan counts: newlines, and one more for an unterminated end. */
  function Newlines(s: seq<byte>): (n: nat) {
    if s == [] then 0 else Newlines(s[..|s| - 1]) + (if s[|s| - 1] == NEWLINE then 1 else 0)
  }

  lemma {:induction false} CountedLines(s: seq<byte>)
    ensures |Lines(s)| == Newlines(s) + (if Terminated(s) then 0 else 1)
  {
    hide Lines;
    if s == [] {
      NoLines();
    } else {
      var t := s[..|s| - 1];
      CountedLines(t);
      OneMoreByte(t, s[|s| - 1]);
      assert t + [s[|s| - 1]] == s;
    }
  }

  // ---------- the buffer ----------

  const BUFFER_CAPACITY: nat := 32768
  const PAYLOAD_CAPACITY: nat := 258

  /** What is left of a text when `s[start..end]` becomes `t`. */
  function Spliced(s: seq<byte>, start: nat, end: nat, t: seq<byte>): (r: seq<byte>)
    requires start <= end <= |s|
  {
    s[..start] + t + s[end..]
  }

  /** The bytes of an added line: its newline after it, and one before it if asked for. */
  function Payload(leading: bool, text: seq<byte>): (r: seq<byte>) {
    (if leading then [NEWLINE] else []) + text + [NEWLINE]
  }

  class TextBuffer {
    const buffer: array<byte>
    var length: nat

    ghost predicate Valid()
      reads this
    {
      buffer.Length == BUFFER_CAPACITY && length <= BUFFER_CAPACITY
    }

    function Text(): (s: seq<byte>)
      requires Valid()
      reads this, buffer
    {
      buffer[..length]
    }

    constructor ()
      ensures Valid() && fresh(buffer) && Text() == []
    {
      buffer := new byte[BUFFER_CAPACITY];
      length := 0;
    }

    method LineCount() returns (count: nat)
      requires Valid()
      ensures count == |Lines(Text())|
    {
      hide Lines;
      count := 0;
      CountedLines(Text());
      if length == 0 { return; }
      for index := 0 to length
        invariant count == Newlines(buffer[..index])
      {
        assert buffer[..index + 1][..index] == buffer[..index];
        if buffer[index] == NEWLINE { count := count + 1; }
      }
      if buffer[length - 1] != NEWLINE { count := count + 1; }
    }

    /** Moves to the next newline or the end of the text. */
    method SkipLine(position: nat) returns (end: nat)
      requires Valid() && position <= length
      ensures position <= end <= length && OneLine(buffer[position..end])
      ensures end < length ==> buffer[end] == NEWLINE
    {
      end := position;
      while end < length && buffer[end] != NEWLINE
        invariant position <= end <= length && OneLine(buffer[position..end])
      {
        end := end + 1;
      }
    }

    method LineBounds(number: nat) returns (found: bool, start: nat, contentEnd: nat, fullEnd: nat)
      requires Valid()
      ensures found <==> 1 <= number <= |Lines(Text())|
      ensures found ==> LineAt(Text(), number, start, contentEnd)
      ensures found ==> fullEnd == if contentEnd < length then contentEnd + 1 else contentEnd
    {
      hide Lines;
      var current, position: nat := 1, 0;
      found, start, contentEnd, fullEnd := false, 0, 0, 0;
      NoLines();
      if number == 0 || length == 0 { return; }
      while current < number
        invariant current <= number && position <= length
        invariant Terminated(Text()[..position]) && |Lines(Text()[..position])| == current - 1
      {
        var end := SkipLine(position);
        assert Text()[position..end] == buffer[position..end];
        PastLine(Text(), position, end);
        if end == length { return; }
        position, current := end + 1, current + 1;
      }
      if position >= length {
        assert Text()[..position] == Text();
        return;
      }
      start := position;
      contentEnd := SkipLine(position);
      fullEnd := if contentEnd < length then contentEnd + 1 else contentEnd;
      found := true;
      assert Text()[start..contentEnd] == buffer[start..contentEnd];
      LineAtMeans(Text(), number, start, contentEnd);
    }

    /** Moves the bytes of `[end, length)` so that they start at `target`, in an order that does not
        overwrite unread ones. */
    method MoveTail(end: nat, target: nat)
      requires Valid() && end <= length && target + (length - end) <= BUFFER_CAPACITY
      modifies buffer
      ensures forall k :: 0 <= k < end && k < target ==> buffer[k] == old(buffer[k])
      ensures buffer[target..target + (length - end)] == old(buffer[end..length])
    {
      var tail := length - end;
      ghost var was := buffer[..];
      if target > end {
        for index := tail downto 0
          invariant forall k :: 0 <= k < target + index ==> buffer[k] == was[k]
          invariant forall k :: target + index <= k < target + tail ==> buffer[k] == was[k - target + end]
        {
          buffer[target + index] := buffer[end + index];
        }
      } else {
        for index := 0 to tail
          invariant forall k :: 0 <= k < target || end + index <= k < length ==> buffer[k] == was[k]
          invariant forall k :: target <= k < target + index ==> buffer[k] == was[k - target + end]
        {
          buffer[target + index] := buffer[end + index];
        }
      }
    }

    method PutBytes(start: nat, bytes: seq<byte>)
      requires start + |bytes| <= buffer.Length
      modifies buffer
      ensures buffer[..start] == old(buffer[..start]) && buffer[start..start + |bytes|] == bytes
      ensures buffer[start + |bytes|..] == old(buffer[start + |bytes|..])
    {
      for index := 0 to |bytes|
        invariant forall k :: 0 <= k < start || start + |bytes| <= k < buffer.Length ==> buffer[k] == old(buffer[k])
        invariant forall k :: start <= k < start + index ==> buffer[k] == bytes[k - start]
      {
        buffer[start + index] := bytes[index];
      }
    }

    /** Replaces `[start, end)` of the text if the result fits, and changes nothing otherwise. */
    method ReplaceRange(start: nat, end: nat, replacement: seq<byte>) returns (ok: bool)
      requires Valid()
      modifies this`length, buffer
      ensures Valid()
      ensures ok <==> start <= end <= old(length) && old(length) - (end - start) + |replacement| <= BUFFER_CAPACITY
      ensures ok ==> Text() == Spliced(old(Text()), start, end, replacement)
      ensures !ok ==> Text() == old(Text())
    {
      if start > end || end > length { return false; }
      var removed := end - start;
      if |replacement| > BUFFER_CAPACITY - (length - removed) { return false; }
      ghost var was := Text();
      var target := start + |replacement|;
      MoveTail(end, target);
      assert buffer[..start] == was[..start];
      PutBytes(start, replacement);
      length := length - removed + |replacement|;
      assert buffer[..length] == buffer[..start] + buffer[start..target] + buffer[target..length];
      return true;
    }

    method BuildLinePayload(leading: bool, text: seq<byte>) returns (ok: bool, payload: array<byte>, size: nat)
      ensures ok <==> |text| + (if leading then 2 else 1) <= PAYLOAD_CAPACITY
      ensures fresh(payload) && payload.Length == PAYLOAD_CAPACITY && size <= PAYLOAD_CAPACITY
      ensures ok ==> payload[..size] == Payload(leading, text)
    {
      payload, size := new byte[PAYLOAD_CAPACITY], 0;
      if |text| + (if leading then 2 else 1) > PAYLOAD_CAPACITY { return false, payload, size; }
      if leading {
        payload[size] := NEWLINE;
        size := size + 1;
      }
      ghost var first := payload[..size];
      for index := 0 to |text|
        invariant size == |first| + index && payload[..size] == first + text[..index]
      {
        payload[size] := text[index];
        size := size + 1;
      }
      assert text[..|text|] == text;
      payload[size] := NEWLINE;
      size := size + 1;
      return true, payload, size;
    }

    /** Adds a line at the end. */
    method AppendLine(text: seq<byte>) returns (ok: bool)
      requires Valid()
      modifies this`length, buffer
      ensures Valid()
      ensures ok <==>
              var extra := if Terminated(old(Text())) then 1 else 2;
              |text| + extra <= 258 && old(length) + |text| + extra <= 32768
      ensures ok && OneLine(text) ==> Lines(Text()) == old(Lines(Text())) + [text] && Terminated(Text())
      ensures !ok ==> Text() == old(Text())
    {
      hide Lines;
      ghost var was := Text();
      var separator := length > 0 && buffer[length - 1] != NEWLINE;
      var built, payload, size := BuildLinePayload(separator, text);
      if !built { return false; }
      ok := ReplaceRange(length, length, payload[..size]);
      if ok && OneLine(text) {
        AppendMeans(was, text);
        assert Text() == was + Payload(separator, text);
        assert [] + text + [NEWLINE] == text + [NEWLINE];
      }
    }

    /** Adds a line before line `number`, or at the end when there is no such line yet. */
    method InsertLine(number: nat, text: seq<byte>) returns (ok: bool)
      requires Valid()
      modifies this`length, buffer
      ensures Valid()
      ensures ok <==>
              && 1 <= number <= |Lines(old(Text()))| + 1
              && var extra := if number <= |Lines(old(Text()))| || Terminated(old(Text())) then 1 else 2;
                 |text| + extra <= 258 && old(length) + |text| + extra <= 32768
      ensures ok && OneLine(text) ==>
                && Lines(Text()) == old(Lines(Text()))[..number - 1] + [text] + old(Lines(Text()))[number - 1..]
                && (Terminated(Text()) <==> Terminated(old(Text())) || number > |Lines(old(Text()))|)
      ensures !ok ==> Text() == old(Text())
    {
      hide Lines;
      ghost var was := Text();
      var count := LineCount();
      if number == count + 1 {
        ok := AppendLine(text);
        assert Lines(was)[..count] + [text] + Lines(was)[count..] == Lines(was) + [text];
        return;
      }
      var found, start, contentEnd, fullEnd := LineBounds(number);
      if number == 0 || number > count || !found { return false; }
      var built, payload, size := BuildLinePayload(false, text);
      if !built { return false; }
      ok := ReplaceRange(start, start, payload[..size]);
      if ok && OneLine(text) {
        InsertMeans(was, number, start, contentEnd, text);
        assert Text()[|Text()| - 1] == was[|was| - 1];
        assert [] + text + [NEWLINE] == text + [NEWLINE];
      }
    }

    /** Replaces a line, except that an unterminated last line replaced by nothing is removed. */
    method ReplaceLine(number: nat, text: seq<byte>) returns (ok: bool)
      requires Valid()
      modifies this`length, buffer
      ensures Valid()
      ensures ok <==>
              && 1 <= number <= |Lines(old(Text()))|
              && old(length) - |Lines(old(Text()))[number - 1]| + |text| <= 32768
      ensures ok && OneLine(text) ==>
                var lines := old(Lines(Text()));
                var vanishes := text == [] && number == |lines| && !Terminated(old(Text()));
                && Lines(Text()) == (if vanishes then lines[..number - 1] else lines[number - 1 := text])
                && (Terminated(Text()) <==> Terminated(old(Text())) || vanishes)
      ensures !ok ==> Text() == old(Text())
    {
      hide Lines;
      ghost var was := Text();
      var found, start, contentEnd, fullEnd := LineBounds(number);
      if !found { return false; }
      LineAtMeans(was, number, start, contentEnd);
      ok := ReplaceRange(start, contentEnd, text);
      if ok && OneLine(text) {
        ReplaceMeans(was, number, start, contentEnd, text);
        LastLine(was, number, start, contentEnd);
        EndAfter(was, start, contentEnd, text);
      }
    }

    method DeleteLine(number: nat) returns (ok: bool)
      requires Valid()
      modifies this`length, buffer
      ensures Valid()
      ensures ok <==> 1 <= number <= |Lines(old(Text()))|
      ensures ok ==>
                && Lines(Text()) == old(Lines(Text()))[..number - 1] + old(Lines(Text()))[number..]
                && (Terminated(Text()) <==> Terminated(old(Text())) || number == |Lines(old(Text()))|)
      ensures !ok ==> Text() == old(Text())
    {
      hide Lines;
      ghost var was := Text();
      var found, start, contentEnd, fullEnd := LineBounds(number);
      if !found { return false; }
      ok := ReplaceRange(start, fullEnd, []);
      DeleteMeans(was, number, start, contentEnd);
      LastLine(was, number, start, contentEnd);
      DeletedLast(was, number, start, contentEnd);
      EndAfter(was, start, fullEnd, []);
      assert Spliced(was, start, fullEnd, []) == was[..start] + was[fullEnd..];
    }
  }
}
