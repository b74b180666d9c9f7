/** The parser of INI text: what one call recognises, and the in-place search for the
    next entry proved against it. */
module IniParse {
  import opened Common
  import opened IniText
  import opened IniBuffer

  /** What one call of the parser finds.  Dangling: a multi-line value whose closing tag
      follows at once; Aborted: the same with an empty tag, which ends the parse. */
  datatype Token = EndOfData | Header(name: string) | Pair(key: string, value: string) | Dangling(key: string) | Aborted

  datatype Mark = None | At(offset: nat)

  /** One call: its token, the characters used, and where the name of a section line
      without ']' began, if such a line was skipped: the parser has by then already
      moved its section pointer there. */
  datatype Step = Step(token: Token, used: nat, torn: Mark)

  /** A step that began n characters further on; `torn` was met before it. */
  function Resume(n: nat, torn: Mark, st: Step): Step {
    Step(st.token, n + st.used, if st.torn.At? then At(n + st.torn.offset) else torn)
  }

  function After(n: nat, st: Step): Step {
    Resume(n, None, st)
  }

  /** Length of a comment at the front of s: comment lines and, if allowed, the blank
      lines between them. */
  function CommentUsed(s: string, allowBlank: bool): (n: nat)
    ensures n <= |s|
    ensures s != "" && IsComment(s[0]) ==> 0 < n
    decreases |s|
  {
    if s == "" then 0
    else if IsComment(s[0]) then
      var e := Span(s, NewLine);
      var n := e + NewLineLen(s[e..]);
      if e == |s| then e else n + CommentUsed(s[n..], allowBlank)
    else if allowBlank then
      var k := Span(s, NotSpace);
      if 0 < k < |s| && IsComment(s[k]) then k + CommentUsed(s[k..], true) else 0
    else 0
  }

  predicate IsMultiLineTag(value: string) {
    "<<<" <= value
  }

  /** The next entry of the unread text s. */
  function Next(s: string, cfg: Config): (st: Step)
    ensures st.used <= |s|
    ensures !st.token.EndOfData? ==> 0 < st.used
    decreases |s|, 1
  {
    var b := Span(s, NotSpace);
    if b == |s| then Step(EndOfData, b, None) else After(b, NextAt(s[b..], cfg))
  }

  function NextAt(t: string, cfg: Config): (st: Step)
    requires t != "" && !IsSpace(t[0])
    ensures 0 < st.used <= |t|
    decreases |t|, 0
  {
    if IsComment(t[0]) then
      var c := CommentUsed(t, true);
      After(c, Next(t[c..], cfg))
    else if t[0] == '[' then
      var i := 1 + Span(t[1..], NotSpace);
      var p := i + Span(t[i..], BracketOrNewLine);
      if p == |t| || t[p] != ']' then Resume(p, At(i), Next(t[p..], cfg))
      else Step(Header(TrimRight(t[i..p])), p + 1 + Span(t[p + 1..], NewLine), None)
    else
      var n := Span(t, EqualsOrNewLine);
      if n == |t| || t[n] != '=' then After(n, Next(t[n..], cfg))
      else if n == 0 then
        var e := Span(t, NewLine);
        After(e, Next(t[e..], cfg))
      else ReadPair(t, n, cfg)
  }

  /** A line "key = value": `n` is the place of the '='. */
  function ReadPair(t: string, n: nat, cfg: Config): (st: Step)
    requires n < |t|
    ensures 0 < st.used <= |t|
  {
    KeyStep(TrimRight(t[..n]), n, ReadValue(t[n..], cfg))
  }

  function KeyStep(key: string, n: nat, r: Value): (st: Step)
    ensures st.used == n + r.used
  {
    var token := match r.found
      case Text(value) => Pair(key, value)
      case RunsOn => Dangling(key)
      case NoLine => Aborted;
    Step(token, n + r.used, None)
  }

  datatype Found = Text(value: string) | RunsOn | NoLine

  datatype Value = Value(found: Found, used: nat)

  /** The value behind the '=' that t begins with, on its line or in the lines below it. */
  function ReadValue(t: string, cfg: Config): (r: Value)
    requires t != ""
    ensures 0 < r.used <= |t|
  {
    var v := 1 + Span(t[1..], NotBlank);
    var e := v + Span(t[v..], NewLine);
    var next := e + NewLineLen(t[e..]);
    var value := TrimRight(t[v..e]);
    if cfg.multiLine && IsMultiLineTag(value) then
      var r := ReadBlock(t[next..], value[3..], cfg);
      Value(r.found, next + r.used)
    else Value(Text(value), next)
  }

  /** The value in the lines of a block. */
  function ReadBlock(s: string, tag: string, cfg: Config): (r: Value)
    ensures r.used <= |s|
  {
    var b := ScanBlock(s, tag, cfg.caseSensitive);
    if b.lines != [] then Value(Text(BlockValue(b)), b.used)
    else if Span(s, NewLine) > 0 then Value(RunsOn, b.used)
    else Value(NoLine, 0)
  }

  // ----- in place ---------------------------------------------------------------------

  lemma SliceOfSlice(s: seq<char>, lo: nat, hi: nat, i: nat, j: nat)
    requires lo <= i <= j <= hi <= |s|
    ensures s[lo..hi][i - lo..j - lo] == s[i..j]
    ensures j == hi ==> s[lo..hi][i - lo..] == s[i..hi]
  {
    forall k | 0 <= k < j - i ensures s[lo..hi][i - lo..j - lo][k] == s[i..j][k] {
      assert s[lo..hi][i - lo..j - lo][k] == s[lo..hi][i - lo + k];
    }
  }

  lemma CommentUnfold(s: string, allowBlank: bool, e: nat, next: nat, k: nat)
    requires e == Span(s, NewLine) && next == e + NewLineLen(s[e..]) && k == Span(s, NotSpace)
    ensures CommentUsed(s, allowBlank) ==
            if s != "" && IsComment(s[0]) then
              if e == |s| then e else next + CommentUsed(s[next..], allowBlank)
            else if allowBlank && 0 < k < |s| && IsComment(s[k]) then k + CommentUsed(s[k..], true)
            else 0
  {
    hide Span, NewLineLen, IsComment;
  }

  /** The length of a comment, one line or one run of blanks at a time. */
  lemma CommentStep(orig: seq<char>, cur: nat, end: nat, allowBlank: bool, e: nat, next: nat, k: nat)
    requires cur <= end <= |orig|
    requires e == cur + Span(orig[cur..end], NewLine) && next == e + NewLineLen(orig[e..end])
    requires k == cur + Span(orig[cur..end], NotSpace)
    ensures CommentUsed(orig[cur..end], allowBlank) ==
            if cur < end && IsComment(orig[cur]) then
              if e == end then e - cur else next - cur + CommentUsed(orig[next..end], allowBlank)
            else if allowBlank && cur < k < end && IsComment(orig[k]) then k - cur + CommentUsed(orig[k..end], true)
            else 0
  {
    hide *;
    SliceOfSlice(orig, cur, end, e, end);
    SliceOfSlice(orig, cur, end, k, end);
    SliceOfSlice(orig, cur, end, next, end);
    CommentUnfold(orig[cur..end], allowBlank, e - cur, next - cur, k - cur);
  }

  /** Looks ahead over white space and counts the newlines in it. */
  method CountBlankLines(a: array<char>, pos: nat, ghost orig: seq<char>, ghost end: nat) returns (next: nat, newLines: nat)
    requires Unread(a, orig, pos, end)
    ensures next == pos + Span(orig[pos..end], NotSpace) <= end
    ensures newLines <= next - pos
  {
    next, newLines := pos, 0;
    while IsSpace(a[next])
      invariant pos <= next <= end && newLines <= next - pos
      invariant forall i | pos <= i < next :: IsSpace(orig[i])
      decreases end - next
    {
      if IsNewLineChar(a[next]) {
        newLines := newLines + 1;
        next := SkipNewLine(a, next, orig, end);
      } else {
        next := next + 1;
      }
    }
    SpanIs(orig[pos..end], NotSpace, next - pos);
  }

  method PutNewLines(a: array<char>, dataLine: nat, newLines: nat, cursor: nat, ghost orig: seq<char>, ghost end: nat) returns (dataLine': nat)
    requires dataLine + newLines <= cursor && Unread(a, orig, cursor, end)
    modifies a
    ensures dataLine' == dataLine + newLines
    ensures Below(a, dataLine) && Unread(a, orig, cursor, end)
  {
    dataLine' := dataLine;
    for i := 0 to newLines
      invariant dataLine' == dataLine + i
      invariant Below(a, dataLine) && Unread(a, orig, cursor, end)
    {
      a[dataLine'] := '\n';
      dataLine' := dataLine' + 1;
    }
  }

  /** Moves one comment line down; `last` if the data ends with it. */
  method TakeCommentLine(a: array<char>, dataLine: nat, cursor: nat, ghost orig: seq<char>, ghost end: nat)
    returns (last: bool, dataLine': nat, cursor': nat)
    requires dataLine <= cursor < end && Unread(a, orig, cursor, end) && IsComment(orig[cursor])
    modifies a
    ensures Unread(a, orig, cursor', end) && Below(a, dataLine)
    ensures var e := cursor + Span(orig[cursor..end], NewLine);
            if last then cursor' == e == end else cursor' == e + NewLineLen(orig[e..end]) && e < end
    ensures cursor < cursor' && (!last ==> dataLine < dataLine' <= cursor')
  {
    hide Span, NewLineLen;
    var e, endOfLine := TakeLine(a, dataLine, cursor, orig, end);
    if endOfLine == NUL {
      return true, dataLine, e;
    }
    a[e] := endOfLine;
    cursor' := SkipNewLine(a, e, orig, end);
    a[dataLine + e - cursor] := '\n';
    return false, dataLine + e - cursor + 1, cursor';
  }

  /** Loads a comment in place: comment lines are moved together like the lines of a
      block; nothing behind the comment changes. */
  method LoadComment(a: array<char>, pos: nat, allowBlank: bool, ghost orig: seq<char>, ghost end: nat)
    returns (ok: bool, cursor: nat)
    requires Unread(a, orig, pos, end)
    modifies a
    ensures Unread(a, orig, cursor, end) && Below(a, pos)
    ensures cursor == pos + CommentUsed(orig[pos..end], allowBlank)
    ensures ok <==> pos < cursor
  {
    hide Span, NewLineLen, CommentUsed;
    var dataLine: nat := pos;
    cursor := pos;
    while true
      invariant pos <= dataLine <= cursor && Unread(a, orig, cursor, end) && Below(a, pos)
      invariant dataLine == pos ==> cursor == pos || IsComment(orig[cursor])
      invariant CommentUsed(orig[pos..end], allowBlank) == cursor - pos + CommentUsed(orig[cursor..end], allowBlank)
      decreases end - cursor
    {
      CommentAt(orig, cursor, end, allowBlank);
      if !IsComment(a[cursor]) {
        if allowBlank {
          var next, newLines := CountBlankLines(a, cursor, orig, end);
          if IsComment(a[next]) {
            dataLine := PutNewLines(a, dataLine, newLines, next, orig, end);
            cursor := next;
            continue;
          }
        }
        break;
      }
      var last;
      last, dataLine, cursor := TakeCommentLine(a, dataLine, cursor, orig, end);
      if last {
        return true, cursor;
      }
    }
    ok := pos != cursor;
    if ok {
      a[dataLine - 1] := NUL;
    }
  }

  lemma CommentAt(orig: seq<char>, cur: nat, end: nat, allowBlank: bool)
    requires cur <= end <= |orig|
    ensures var e := cur + Span(orig[cur..end], NewLine);
            var next := e + NewLineLen(orig[e..end]);
            var k := cur + Span(orig[cur..end], NotSpace);
            CommentUsed(orig[cur..end], allowBlank) ==
            if cur < end && IsComment(orig[cur]) then
              if e == end then e - cur else next - cur + CommentUsed(orig[next..end], allowBlank)
            else if allowBlank && cur < k < end && IsComment(orig[k]) then k - cur + CommentUsed(orig[k..end], true)
            else 0
  {
    hide *;
    var e := cur + Span(orig[cur..end], NewLine);
    CommentStep(orig, cur, end, allowBlank, e, e + NewLineLen(orig[e..end]), cur + Span(orig[cur..end], NotSpace));
  }

  /** Cuts trailing white space off the string from start to stop, and terminates it. */
  method TrimEnd(a: array<char>, start: nat, stop: nat, ghost orig: seq<char>) returns (trail: nat)
    requires start <= stop < a.Length == |orig|
    requires forall i | start <= i < stop :: a[i] == orig[i]
    modifies a
    ensures trail == start + |TrimRight(orig[start..stop])| <= stop
    ensures CString(a, start, TrimRight(orig[start..stop]))
    ensures forall i | 0 <= i < a.Length && i != trail :: a[i] == old(a[i])
  {
    trail := stop;
    while trail > start && IsSpace(a[trail - 1])
      invariant start <= trail <= stop
      invariant TrimRight(orig[start..stop]) == TrimRight(orig[start..trail])
    {
      assert orig[start..trail][..trail - start - 1] == orig[start..trail - 1];
      trail := trail - 1;
    }
    a[trail] := NUL;
  }

  /** The name that ends before position p is terminated, the rest of its line skipped. */
  method EndName(a: array<char>, section: nat, p: nat, ghost orig: seq<char>, ghost end: nat) returns (cursor: nat)
    requires section <= p < end && Unread(a, orig, section, end)
    modifies a
    ensures cursor == p + 1 + Span(orig[p + 1..end], NewLine) <= end
    ensures CString(a, section, TrimRight(orig[section..p])) && Inside(section, TrimRight(orig[section..p]), cursor, end)
    ensures Unread(a, orig, cursor, end) && Below(a, section)
  {
    hide Span, TrimRight;
    var trail := TrimEnd(a, section, p, orig);
    cursor := Advance(a, p + 1, NewLine, orig, end);
    assert section + |TrimRight(orig[section..p])| == trail < cursor;
  }

  /** A section line: the name is trimmed and terminated, the rest of the line skipped. */
  method ReadHeader(a: array<char>, pos: nat, ghost orig: seq<char>, ghost end: nat)
    returns (ok: bool, section: nat, cursor: nat)
    requires Unread(a, orig, pos, end) && pos < end && orig[pos] == '['
    modifies a
    ensures section == pos + 1 + Span(orig[pos + 1..end], NotSpace) <= end
    ensures var p := section + Span(orig[section..end], BracketOrNewLine);
            && (ok <==> p < end && orig[p] == ']')
            && cursor == (if ok then p + 1 + Span(orig[p + 1..end], NewLine) else p)
            && (ok ==> CString(a, section, TrimRight(orig[section..p])) && Inside(section, TrimRight(orig[section..p]), cursor, end))
    ensures pos < cursor && Unread(a, orig, cursor, end) && Below(a, pos)
  {
    hide Span, TrimRight;
    section := Advance(a, pos + 1, NotSpace, orig, end);
    cursor := Advance(a, section, BracketOrNewLine, orig, end);
    ok := a[cursor] == ']';
    if ok {
      cursor := EndName(a, section, cursor, orig, end);
    }
  }

  /** The key of a line; a line without '=' or without a key is skipped. */
  method ReadKey(a: array<char>, pos: nat, ghost orig: seq<char>, ghost end: nat) returns (ok: bool, cursor: nat)
    requires Unread(a, orig, pos, end) && pos < end && !IsSpace(orig[pos])
    modifies a
    ensures var n := pos + Span(orig[pos..end], EqualsOrNewLine);
            && (ok <==> pos < n < end && orig[n] == '=')
            && cursor == (if n == pos then pos + Span(orig[pos..end], NewLine) else n)
            && (ok ==> CString(a, pos, TrimRight(orig[pos..n])) && pos + |TrimRight(orig[pos..n])| <= n && Unread(a, orig, n + 1, end))
            && (!ok ==> Unread(a, orig, cursor, end))
    ensures pos < cursor <= end && Below(a, pos)
  {
    hide Span, TrimRight;
    cursor := Advance(a, pos, EqualsOrNewLine, orig, end);
    ghost var n := cursor;
    SpanStops(orig[pos..end], EqualsOrNewLine);
    SpanStops(orig[pos..end], NewLine);
    if a[cursor] != '=' {
      return false, cursor;
    }
    if cursor == pos {
      cursor := Advance(a, cursor, NewLine, orig, end);
      return false, cursor;
    }
    var trail := TrimEnd(a, pos, cursor, orig);
    return true, cursor;
  }

  lemma SpanStops(s: string, cls: CharClass)
    ensures var n := Span(s, cls); n <= |s| && (n < |s| ==> Stops(cls, s[n])) && (s != "" && !Stops(cls, s[0]) ==> 0 < n)
  {
  }

  /** The value on the rest of the line with the '=' at n. */
  method ReadLineValue(a: array<char>, n: nat, ghost orig: seq<char>, ghost end: nat) returns (value: nat, trail: nat, cursor: nat)
    requires n < end && Unread(a, orig, n + 1, end)
    modifies a
    ensures value == n + 1 + Span(orig[n + 1..end], NotBlank) <= end
    ensures var e := value + Span(orig[value..end], NewLine);
            var text := TrimRight(orig[value..e]);
            && cursor == e + NewLineLen(orig[e..end]) && trail == value + |text|
            && CString(a, value, text) && Inside(value, text, cursor, end)
    ensures Unread(a, orig, cursor, end) && Below(a, n + 1)
  {
    hide Span, TrimRight, NewLineLen;
    value := Advance(a, n + 1, NotBlank, orig, end);
    var e := Advance(a, value, NewLine, orig, end);
    cursor := e;
    if a[e] != NUL {
      cursor := SkipNewLine(a, e, orig, end);
    }
    NoNewLineAtEnd(orig[e..end]);
    trail := TrimEnd(a, value, e, orig);
  }

  lemma NoNewLineAtEnd(s: string)
    ensures s == "" ==> NewLineLen(s) == 0
  {
  }

  /** The value in the lines of a block at pos. */
  method TakeBlock(a: array<char>, pos: nat, tag: string, cfg: Config, ghost orig: seq<char>, ghost end: nat) returns (ok: bool, cursor: nat)
    requires 0 < pos && Unread(a, orig, pos, end)
    modifies a
    ensures TookValue(a, ReadBlock(orig[pos..end], tag, cfg), pos, ok, pos, cursor, orig, end)
    ensures Below(a, pos - 1)
  {
    hide Span, ScanBlock, JoinLines;
    ok, cursor := LoadMultiLineText(a, pos, tag, cfg.caseSensitive, orig, end);
  }

  /** What the buffer holds after a value that began at pos was taken. */
  ghost predicate TookValue(a: array<char>, r: Value, pos: nat, ok: bool, value: nat, cursor: nat, orig: seq<char>, end: nat)
    reads a
  {
    && (ok <==> !r.found.NoLine?)
    && (ok ==> cursor == pos + r.used && Unread(a, orig, cursor, end))
    && (r.found.Text? ==> CString(a, value, r.found.value) && Inside(value, r.found.value, cursor, end))
  }

  /** The value of the line with the '=' at n, taken from the lines below it if it opens
      a multi-line block. */
  method TakeValue(a: array<char>, n: nat, cfg: Config, ghost orig: seq<char>, ghost end: nat) returns (ok: bool, value: nat, cursor: nat)
    requires n < end && Unread(a, orig, n + 1, end)
    modifies a
    ensures TookValue(a, ReadValue(orig[n..end], cfg), n, ok, value, cursor, orig, end)
    ensures n < value && Below(a, n + 1)
  {
    hide Span, TrimRight, NewLineLen, ReadBlock;
    var trail;
    value, trail, cursor := ReadLineValue(a, n, orig, end);
    var text := a[value..trail];
    ghost var e := value + Span(orig[value..end], NewLine);
    assert text == TrimRight(orig[value..e]);
    ValueAt(orig, n, end, cfg, value, e, cursor);
    ok := true;
    if cfg.multiLine && IsMultiLineTag(text) {
      value := cursor;
      ok, cursor := TakeBlock(a, cursor, text[3..], cfg, orig, end);
    }
  }

  lemma ValueUnfold(t: string, cfg: Config, v: nat, e: nat, next: nat)
    requires t != "" && v == 1 + Span(t[1..], NotBlank)
    requires e == v + Span(t[v..], NewLine) && next == e + NewLineLen(t[e..])
    ensures var value := TrimRight(t[v..e]);
            ReadValue(t, cfg) ==
            if cfg.multiLine && IsMultiLineTag(value) then
              var r := ReadBlock(t[next..], value[3..], cfg); Value(r.found, next + r.used)
            else Value(Text(value), next)
  {
    hide Span, TrimRight, NewLineLen, ReadBlock;
  }

  lemma ValueAt(orig: seq<char>, n: nat, end: nat, cfg: Config, v: nat, e: nat, next: nat)
    requires n < end <= |orig|
    requires v == n + 1 + Span(orig[n + 1..end], NotBlank)
    requires e == v + Span(orig[v..end], NewLine) && next == e + NewLineLen(orig[e..end])
    ensures var value := TrimRight(orig[v..e]);
            ReadValue(orig[n..end], cfg) ==
            if cfg.multiLine && IsMultiLineTag(value) then
              var r := ReadBlock(orig[next..end], value[3..], cfg); Value(r.found, next - n + r.used)
            else Value(Text(value), next - n)
  {
    hide *;
    SliceOfSlice(orig, n, end, n + 1, end);
    SliceOfSlice(orig, n, end, v, end);
    SliceOfSlice(orig, n, end, e, end);
    SliceOfSlice(orig, n, end, next, end);
    SliceOfSlice(orig, n, end, v, e);
    ValueUnfold(orig[n..end], cfg, v - n, e - n, next - n);
  }

  // ----- the next entry ---------------------------------------------------------------

  lemma NextFromBlank(orig: seq<char>, pos: nat, c: nat, end: nat, cfg: Config)
    requires pos <= end <= |orig| && c == pos + Span(orig[pos..end], NotSpace)
    ensures Next(orig[pos..end], cfg) ==
            if c == end then Step(EndOfData, c - pos, None) else After(c - pos, NextAt(orig[c..end], cfg))
  {
    hide *;
    SliceOfSlice(orig, pos, end, c, end);
    NextUnfold(orig[pos..end], c - pos, cfg);
  }

  lemma NextUnfold(s: string, c: nat, cfg: Config)
    requires c == Span(s, NotSpace)
    ensures Next(s, cfg) == if c == |s| then Step(EndOfData, c, None) else After(c, NextAt(s[c..], cfg))
  {
    hide NextAt, After;
  }

  lemma NextAtComment(orig: seq<char>, c: nat, d: nat, end: nat, cfg: Config)
    requires c < end <= |orig| && IsComment(orig[c]) && d == c + CommentUsed(orig[c..end], true)
    ensures NextAt(orig[c..end], cfg) == After(d - c, Next(orig[d..end], cfg))
  {
    hide Span, NewLineLen, CommentUsed, ReadPair, TrimRight;
    SliceOfSlice(orig, c, end, d, end);
  }

  lemma NextAtHeader(orig: seq<char>, c: nat, i: nat, p: nat, end: nat, cfg: Config)
    requires c < end <= |orig| && orig[c] == '[' && i == c + 1 + Span(orig[c + 1..end], NotSpace)
    requires p == i + Span(orig[i..end], BracketOrNewLine)
    ensures NextAt(orig[c..end], cfg) ==
            if p == end || orig[p] != ']' then Resume(p - c, At(i - c), Next(orig[p..end], cfg))
            else Step(Header(TrimRight(orig[i..p])), p + 1 + Span(orig[p + 1..end], NewLine) - c, None)
  {
    hide *;
    var t := orig[c..end];
    assert t[1..] == orig[c + 1..end] by { SliceOfSlice(orig, c, end, c + 1, end); }
    assert t[i - c..] == orig[i..end] by { SliceOfSlice(orig, c, end, i, end); }
    assert t[i - c..p - c] == orig[i..p] by { SliceOfSlice(orig, c, end, i, p); }
    assert t[p - c..] == orig[p..end] by { SliceOfSlice(orig, c, end, p, end); }
    if p < end {
      assert t[p - c + 1..] == orig[p + 1..end] by { SliceOfSlice(orig, c, end, p + 1, end); }
    }
    HeaderUnfold(t, i - c, p - c, cfg);
  }

  lemma HeaderUnfold(t: string, i: nat, p: nat, cfg: Config)
    requires t != "" && t[0] == '[' && i == 1 + Span(t[1..], NotSpace) && p == i + Span(t[i..], BracketOrNewLine)
    ensures NextAt(t, cfg) ==
            if p == |t| || t[p] != ']' then Resume(p, At(i), Next(t[p..], cfg))
            else Step(Header(TrimRight(t[i..p])), p + 1 + Span(t[p + 1..], NewLine), None)
  {
    hide Span, NewLineLen, CommentUsed, ReadPair, TrimRight, Resume;
  }

  lemma KeyUnfold(t: string, n: nat, cfg: Config)
    requires t != "" && !IsComment(t[0]) && t[0] != '[' && !IsSpace(t[0]) && n == Span(t, EqualsOrNewLine)
    ensures var skip := if n == 0 then Span(t, NewLine) else n;
            NextAt(t, cfg) ==
            if 0 < n < |t| && t[n] == '=' then KeyStep(TrimRight(t[..n]), n, ReadValue(t[n..], cfg))
            else After(skip, Next(t[skip..], cfg))
  {
    hide Span, NewLineLen, CommentUsed, TrimRight, ReadValue, KeyStep, After, Next, IsComment;
    SpanStops(t, EqualsOrNewLine);
  }

  lemma NextAtKey(orig: seq<char>, c: nat, n: nat, end: nat, cfg: Config)
    requires c < end <= |orig| && !IsComment(orig[c]) && orig[c] != '[' && !IsSpace(orig[c])
    requires n == c + Span(orig[c..end], EqualsOrNewLine)
    ensures var skip := if n == c then c + Span(orig[c..end], NewLine) else n;
            NextAt(orig[c..end], cfg) ==
            if c < n < end && orig[n] == '=' then KeyStep(TrimRight(orig[c..n]), n - c, ReadValue(orig[n..end], cfg))
            else After(skip - c, Next(orig[skip..end], cfg))
  {
    hide *;
    KeyUnfold(orig[c..end], n - c, cfg);
    SliceOfSlice(orig, c, end, n, end);
    SliceOfSlice(orig, c, end, c, n);
    var e := c + Span(orig[c..end], NewLine);
    SliceOfSlice(orig, c, end, e, end);
  }

  lemma ResumeTwice(n: nat, m: nat, torn: Mark, torn': Mark, st: Step)
    ensures Resume(n, torn, Resume(m, torn', st)) == Resume(n + m, if torn'.At? then At(n + torn'.offset) else torn, st)
  {
  }

  /** Where the parser's section pointer stands after a step that began at pos. */
  function SectionAfter(torn: Mark, pos: nat, section: Mark): Mark {
    if torn.At? then At(pos + torn.offset) else section
  }

  /** What one call leaves in the buffer: the strings of its token, terminated, at the
      pointers it returns. */
  ghost predicate Entered(a: array<char>, st: Step, pos: nat, before: Mark, section: Mark, key: Mark, value: Mark, cursor: nat, end: nat)
    reads a
  {
    match st.token
    case EndOfData | Aborted => true
    case Header(name) =>
      && key == value == None && section.At? && pos < section.offset
      && CString(a, section.offset, name) && Inside(section.offset, name, cursor, end)
    case Pair(k, v) =>
      && key.At? && value.At? && section == SectionAfter(st.torn, pos, before)
      && pos <= key.offset < value.offset
      && CString(a, key.offset, k) && Inside(key.offset, k, cursor, end)
      && CString(a, value.offset, v) && Inside(value.offset, v, cursor, end)
    case Dangling(k) =>
      && key.At? && value.At? && section == SectionAfter(st.torn, pos, before)
      && pos <= key.offset && CString(a, key.offset, k) && Inside(key.offset, k, cursor, end)
  }

  lemma EnteredLater(a: array<char>, st: Step, pos: nat, c: nat, torn: Mark, before: Mark, now: Mark, section: Mark, key: Mark, value: Mark, cursor: nat, end: nat)
    requires pos <= c && st.torn == None && (st.token.Header? || now == SectionAfter(torn, pos, before))
    requires Entered(a, st, c, now, section, key, value, cursor, end)
    ensures Entered(a, Resume(c - pos, torn, st), pos, before, section, key, value, cursor, end)
  {
    hide CString, Inside;
  }

  lemma EnteredNothing(a: array<char>, st: Step, pos: nat, before: Mark, section: Mark, key: Mark, value: Mark, cursor: nat, end: nat)
    requires st.token.EndOfData?
    ensures Entered(a, st, pos, before, section, key, value, cursor, end)
  {
  }

  /** One step at a section line. */
  method TakeHeader(a: array<char>, pos: nat, cfg: Config, ghost orig: seq<char>, ghost end: nat)
    returns (ok: bool, section: nat, cursor: nat)
    requires Unread(a, orig, pos, end) && pos < end && orig[pos] == '['
    modifies a
    ensures pos < cursor && Unread(a, orig, cursor, end) && Below(a, pos)
    ensures var st := NextAt(orig[pos..end], cfg);
            if ok then cursor == pos + st.used && st.torn == None && st.token.Header? && Entered(a, st, pos, None, At(section), None, None, cursor, end)
            else pos <= section && st == Resume(cursor - pos, At(section - pos), Next(orig[cursor..end], cfg))
  {
    hide Span, TrimRight, Next, NextAt, CString, Inside;
    ok, section, cursor := ReadHeader(a, pos, orig, end);
    NextAtHeader(orig, pos, section, section + Span(orig[section..end], BracketOrNewLine), end, cfg);
  }

  /** One step at any other line. */
  method TakePair(a: array<char>, pos: nat, section: Mark, cfg: Config, ghost orig: seq<char>, ghost end: nat)
    returns (skipped: bool, found: bool, cursor: nat, key: Mark, value: Mark)
    requires Unread(a, orig, pos, end) && pos < end
    requires !IsComment(orig[pos]) && orig[pos] != '[' && !IsSpace(orig[pos])
    modifies a
    ensures var st := NextAt(orig[pos..end], cfg);
            if skipped then !found && pos < cursor && Unread(a, orig, cursor, end) && st == After(cursor - pos, Next(orig[cursor..end], cfg))
            else
              && st.torn == None && !st.token.EndOfData? && !st.token.Header?
              && (found <==> !st.token.Aborted?)
              && (found ==> cursor == pos + st.used && Unread(a, orig, cursor, end))
              && Entered(a, st, pos, section, section, key, value, cursor, end)
    ensures Below(a, pos)
  {
    hide Span, TrimRight, Next, NextAt, ReadValue, IsComment, IsSpace, After;
    key, value, found := None, None, false;
    var ok;
    ok, cursor := ReadKey(a, pos, orig, end);
    ghost var n := pos + Span(orig[pos..end], EqualsOrNewLine);
    NextAtKey(orig, pos, n, end, cfg);
    if !ok {
      skipped := true;
    } else {
      skipped := false;
      key := At(pos);
      var v;
      found, v, cursor := TakeValue(a, cursor, cfg, orig, end);
      value := At(v);
    }
  }

  /** One step at the first character that is not white space. */
  method TakeStep(a: array<char>, pos: nat, section: Mark, cfg: Config, ghost orig: seq<char>, ghost end: nat)
    returns (skipped: bool, found: bool, cursor: nat, section': Mark, key: Mark, value: Mark, ghost torn: Mark)
    requires Unread(a, orig, pos, end) && pos < end && !IsSpace(orig[pos])
    modifies a
    ensures var st := NextAt(orig[pos..end], cfg);
            if skipped then
              && !found && pos < cursor && Unread(a, orig, cursor, end) && section' == SectionAfter(torn, pos, section)
              && st == Resume(cursor - pos, torn, Next(orig[cursor..end], cfg))
            else
              && st.torn == None && !st.token.EndOfData?
              && (found <==> !st.token.Aborted?)
              && (found ==> cursor == pos + st.used && Unread(a, orig, cursor, end))
              && Entered(a, st, pos, section, section', key, value, cursor, end)
    ensures Below(a, pos)
  {
    hide Span, Next, NextAt, CommentUsed, Resume, CString, Inside;
    skipped, found, section', key, value, torn := true, false, section, None, None, None;
    if IsComment(a[pos]) {
      var ok;
      ok, cursor := LoadComment(a, pos, true, orig, end);
      NextAtComment(orig, pos, cursor, end, cfg);
    } else if a[pos] == '[' {
      var name;
      found, name, cursor := TakeHeader(a, pos, cfg, orig, end);
      section', skipped, torn := At(name), !found, At(name - pos);
    } else {
      skipped, found, cursor, key, value := TakePair(a, pos, section, cfg, orig, end);
    }
  }

  /** Finds the next entry in place. */
  method FindEntry(a: array<char>, pos: nat, section: Mark, cfg: Config, ghost orig: seq<char>, ghost end: nat)
    returns (found: bool, cursor: nat, section': Mark, key: Mark, value: Mark)
    requires Unread(a, orig, pos, end)
    modifies a
    ensures var st := Next(orig[pos..end], cfg);
            && (found <==> !st.token.EndOfData? && !st.token.Aborted?)
            && (found ==> cursor == pos + st.used && Unread(a, orig, cursor, end))
            && Entered(a, st, pos, section, section', key, value, cursor, end)
    ensures Below(a, if pos == end then a.Length else pos)
  {
    hide Span, Next, NextAt, CommentUsed, Entered;
    found, cursor, section', key, value := false, pos, section, None, None;
    ghost var torn := None;
    ghost var first := Next(orig[pos..end], cfg);
    while a[cursor] != NUL
      invariant pos <= cursor && Unread(a, orig, cursor, end) && Below(a, pos)
      invariant !found && section' == SectionAfter(torn, pos, section)
      invariant first == Resume(cursor - pos, torn, Next(orig[cursor..end], cfg))
      invariant cursor == pos ==> Below(a, a.Length)
      decreases end - cursor
    {
      var c := Advance(a, cursor, NotSpace, orig, end);
      NextFromBlank(orig, cursor, c, end, cfg);
      if a[c] == NUL {
        cursor := c;
        EnteredNothing(a, first, pos, section, section', key, value, cursor, end);
        return;
      }
      ghost var st := NextAt(orig[c..end], cfg);
      ResumeTwice(cursor - pos, c - cursor, torn, None, st);
      ghost var before, torn' := section', None;
      var skipped;
      skipped, found, cursor, section', key, value, torn' := TakeStep(a, c, section', cfg, orig, end);
      if !skipped {
        EnteredLater(a, st, pos, c, torn, section, before, section', key, value, cursor, end);
        return;
      }
      ResumeTwice(c - pos, cursor - c, torn, torn', Next(orig[cursor..end], cfg));
      torn := if torn'.At? then At(c - pos + torn'.offset) else torn;
    }
    NextFromBlank(orig, cursor, cursor, end, cfg);
    EnteredNothing(a, first, pos, section, section', key, value, cursor, end);
  }
}
