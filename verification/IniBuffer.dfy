/** The parser's work on its buffer: strings are terminated in place, and the lines of a
    multi-line value are moved down until they follow each other. */
module IniBuffer {
  import opened Common
  import opened IniText

  /** The unread part of the buffer, from pos to its terminating NUL at end, is as in
      `orig`, the buffer before parsing. */
  ghost predicate Unread(a: array<char>, orig: seq<char>, pos: nat, end: nat)
    reads a
  {
    && pos <= end < a.Length == |orig|
    && orig[end] == NUL
    && (forall i | pos <= i < end :: orig[i] != NUL)
    && (forall i | pos <= i < a.Length :: a[i] == orig[i])
  }

  /** A NUL-terminated string starts at `at`. */
  ghost predicate CString(a: array<char>, at: nat, s: string)
    reads a
  {
    && at + |s| < a.Length
    && (forall i | at <= i < at + |s| :: a[i] == s[i - at])
    && a[at + |s|] == NUL
  }

  /** A string with its terminator lies below the cursor, or ends the buffer. */
  predicate Inside(at: nat, s: string, cursor: nat, end: nat) {
    at + |s| < cursor || at + |s| <= cursor == end
  }

  /** The buffer below `to` is as it was. */
  twostate predicate Below(a: array<char>, to: nat)
    reads a
  {
    forall i | 0 <= i < to && i < a.Length :: a[i] == old(a[i])
  }

  /** Moves on to the first character of the class, or to the terminating NUL. */
  method Advance(a: array<char>, pos: nat, cls: CharClass, ghost orig: seq<char>, ghost end: nat) returns (p: nat)
    requires Unread(a, orig, pos, end)
    ensures p == pos + Span(orig[pos..end], cls) <= end
  {
    p := pos;
    while a[p] != NUL && !Stops(cls, a[p])
      invariant pos <= p <= end
      invariant forall i | pos <= i < p :: !Stops(cls, orig[i])
      decreases end - p
    {
      p := p + 1;
    }
    SpanIs(orig[pos..end], cls, p - pos);
  }

  /** Skips one newline, "\r\n" counting as one. */
  method SkipNewLine(a: array<char>, pos: nat, ghost orig: seq<char>, ghost end: nat) returns (p: nat)
    requires Unread(a, orig, pos, end) && pos < end
    ensures pos < p == pos + NewLineLen(orig[pos..end]) <= end
  {
    p := if a[pos] == '\r' && a[pos + 1] == '\n' then pos + 2 else pos + 1;
  }

  /** Finds the end of the line at `cursor`, moves the line down to dataLine if there is
      a gap, and terminates it. */
  method TakeLine(a: array<char>, dataLine: nat, cursor: nat, ghost orig: seq<char>, ghost end: nat) returns (e: nat, endOfLine: char)
    requires dataLine <= cursor && Unread(a, orig, cursor, end)
    modifies a
    ensures e == cursor + Span(orig[cursor..end], NewLine) <= end
    ensures endOfLine == orig[e] && a[e] == NUL
    ensures Below(a, dataLine)
    ensures forall i | dataLine <= i < dataLine + e - cursor :: a[i] == orig[i - dataLine + cursor]
    ensures a[dataLine + e - cursor] == NUL
    ensures forall i | e < i < a.Length :: a[i] == orig[i]
  {
    e := Advance(a, cursor, NewLine, orig, end);
    if dataLine < cursor {
      forall i | dataLine <= i < dataLine + e - cursor {
        a[i] := a[i - dataLine + cursor];
      }
      a[dataLine + e - cursor] := NUL;
    }
    endOfLine := a[e];
    a[e] := NUL;
  }

  function Prefixed(done: seq<string>, n: nat, b: Block): Block {
    Block(done + b.lines, b.found, n + b.used)
  }

  lemma PrefixedMore(done: seq<string>, more: seq<string>, k: nat, n: nat, b: Block)
    ensures Prefixed(done, k, Prefixed(more, n, b)) == Prefixed(done + more, k + n, b)
    ensures Prefixed(done, k, Block([], true, n)) == Block(done, true, k + n)
  {
    assert done + (more + b.lines) == done + more + b.lines;
    assert done + [] == done;
  }

  /** One line of a block, as the scanner sees it. */
  lemma ScanNextLine(orig: seq<char>, pos: nat, cur: nat, end: nat, e: nat, done: seq<string>, tag: string, cs: bool)
    requires pos <= cur <= end <= |orig| && e == cur + Span(orig[cur..end], NewLine)
    requires ScanBlock(orig[pos..end], tag, cs) == Prefixed(done, cur - pos, ScanBlock(orig[cur..end], tag, cs))
    ensures var line := orig[cur..e];
            var next := e + NewLineLen(orig[e..end]);
            ScanBlock(orig[pos..end], tag, cs) ==
            if Same(cs, line, tag) then Block(done, true, next - pos)
            else if e == end then Block(done + [line], false, e - pos)
            else Prefixed(done + [line], next - pos, ScanBlock(orig[next..end], tag, cs))
  {
    hide Span, NewLineLen, Same, ScanBlock;
    var rest := orig[cur..end];
    var n := e - cur + NewLineLen(orig[e..end]);
    assert rest[..e - cur] == orig[cur..e] && rest[e - cur..] == orig[e..end] && rest[n..] == orig[cur + n..end];
    ScanStep(rest, tag, cs, e - cur, n);
    PrefixedMore(done, [orig[cur..e]], cur - pos, n, ScanBlock(orig[cur + n..end], tag, cs));
  }

  /** State of the loop over the lines of a block: the lines so far stand, each ended by
      a single '\n', between pos and dataLine; from the cursor on nothing has changed. */
  ghost predicate Compacted(a: array<char>, orig: seq<char>, pos: nat, end: nat, dataLine: nat, cur: nat, done: seq<string>)
    reads a
  {
    && pos <= dataLine <= cur <= end
    && Unread(a, orig, cur, end)
    && |PrintLines(done, "\n")| == dataLine - pos
    && (forall i | pos <= i < dataLine :: a[i] == PrintLines(done, "\n")[i - pos])
    && (done == [] ==> cur == dataLine == pos)
    && (done != [] ==> pos < dataLine)
  }

  /** Behind a line that is not the last: one '\n' ends it. */
  method EndLine(a: array<char>, pos: nat, dataLine: nat, cursor: nat, e: nat, endOfLine: char,
                 ghost orig: seq<char>, ghost end: nat, ghost done: seq<string>)
    returns (dataLine': nat, cursor': nat)
    requires pos <= dataLine <= cursor <= e < end < a.Length == |orig|
    requires orig[end] == NUL && endOfLine == orig[e] && forall i | cursor <= i < end :: orig[i] != NUL
    requires |PrintLines(done, "\n")| == dataLine - pos
    requires forall i | pos <= i < dataLine :: a[i] == PrintLines(done, "\n")[i - pos]
    requires forall i | dataLine <= i < dataLine + e - cursor :: a[i] == orig[i - dataLine + cursor]
    requires forall i | e < i < a.Length :: a[i] == orig[i]
    modifies a
    ensures cursor' == e + NewLineLen(orig[e..end]) && cursor < cursor'
    ensures Compacted(a, orig, pos, end, dataLine', cursor', done + [orig[cursor..e]])
    ensures Below(a, pos)
  {
    hide NewLineLen, PrintLines;
    PrintLinesSnoc(done, orig[cursor..e], "\n");
    var next := dataLine + e - cursor;
    a[e] := endOfLine;
    cursor' := SkipNewLine(a, e, orig, end);
    a[next] := '\n';
    dataLine' := next + 1;
  }

  /** At the tag line: terminates the text before it and moves past the line. */
  method EndBlock(a: array<char>, dataLine: nat, e: nat, endOfLine: char, ghost orig: seq<char>, ghost end: nat) returns (cursor: nat)
    requires 0 < dataLine <= e <= end < a.Length == |orig|
    requires orig[end] == NUL && endOfLine == orig[e] && forall i | e <= i < end :: orig[i] != NUL
    requires forall i | e < i < a.Length :: a[i] == orig[i]
    requires a[e] == NUL
    modifies a
    ensures cursor == e + NewLineLen(orig[e..end]) && Unread(a, orig, cursor, end)
    ensures a[dataLine - 1] == NUL && a[e] == orig[e]
    ensures forall i | 0 <= i < a.Length && i != dataLine - 1 && i != e :: a[i] == old(a[i])
  {
    a[dataLine - 1] := NUL;
    cursor := e;
    if endOfLine != NUL {
      a[e] := endOfLine;
      cursor := SkipNewLine(a, e, orig, end);
    }
  }

  /** The value of the block, once its tag line was found at a place other than pos. */
  method CloseBlock(a: array<char>, pos: nat, dataLine: nat, cursor: nat, e: nat, endOfLine: char,
                    ghost orig: seq<char>, ghost end: nat, ghost done: seq<string>)
    returns (cursor': nat)
    requires 0 < pos <= dataLine <= cursor <= e <= end < a.Length == |orig|
    requires orig[end] == NUL && endOfLine == orig[e] && forall i | cursor <= i < end :: orig[i] != NUL
    requires |PrintLines(done, "\n")| == dataLine - pos
    requires forall i | pos <= i < dataLine :: a[i] == PrintLines(done, "\n")[i - pos]
    requires forall i | dataLine <= i < dataLine + e - cursor :: a[i] == orig[i - dataLine + cursor]
    requires forall i | e < i < a.Length :: a[i] == orig[i]
    requires a[e] == NUL && (done == [] <==> dataLine == pos) && (done == [] ==> cursor == pos)
    modifies a
    ensures cursor' == e + NewLineLen(orig[e..end]) && Unread(a, orig, cursor', end)
    ensures done != [] ==> CString(a, pos, JoinLines(done)) && Inside(pos, JoinLines(done), cursor', end) && Below(a, pos)
    ensures done == [] ==> a[pos - 1] == NUL && Below(a, pos - 1) && Unread(a, orig, pos, end)
  {
    hide PrintLines, JoinLines, NewLineLen;
    cursor' := EndBlock(a, dataLine, e, endOfLine, orig, end);
    if done != [] {
      JoinedAndEnded(done);
    }
  }

  /** A last line without newline ends the value where it stands. */
  lemma LastLineEnds(a: array<char>, orig: seq<char>, pos: nat, end: nat, dataLine: nat, cursor: nat, e: nat, done: seq<string>)
    requires pos <= dataLine <= cursor <= e <= end < a.Length == |orig|
    requires |PrintLines(done, "\n")| == dataLine - pos
    requires forall i | pos <= i < dataLine :: a[i] == PrintLines(done, "\n")[i - pos]
    requires forall i | dataLine <= i < dataLine + e - cursor :: a[i] == orig[i - dataLine + cursor]
    requires a[dataLine + e - cursor] == NUL
    ensures CString(a, pos, JoinLines(done + [orig[cursor..e]])) && (e == end ==> Inside(pos, JoinLines(done + [orig[cursor..e]]), e, end))
  {
    hide PrintLines, JoinLines;
    JoinSnoc(done, orig[cursor..e]);
  }

  /** Loads a multi-line value.  Its lines are compacted to pos and terminated; the
      cursor moves past the tag line (or to the end) and nothing behind it changes.
      Fails if the very first line is empty and is the tag; if the first line is a
      non-empty tag, the value is left pointing at that line. */
  method LoadMultiLineText(a: array<char>, pos: nat, tag: string, cs: bool, ghost orig: seq<char>, ghost end: nat)
    returns (ok: bool, cursor: nat)
    requires 0 < pos && Unread(a, orig, pos, end)
    modifies a
    ensures var b := ScanBlock(orig[pos..end], tag, cs);
            && (ok <==> b.lines != [] || Span(orig[pos..end], NewLine) > 0)
            && (ok ==> cursor == pos + b.used && Unread(a, orig, cursor, end))
            && (b.lines != [] ==> ok && CString(a, pos, BlockValue(b)) && Inside(pos, BlockValue(b), cursor, end) && Below(a, pos))
            && (b.lines == [] && ok ==> a[pos - 1] == NUL && Unread(a, orig, pos, end))
    ensures Below(a, pos - 1)
  {
    hide ScanBlock, Span, NewLineLen, Same, PrintLines, JoinLines;
    var dataLine: nat := pos;
    cursor := pos;
    ghost var done: seq<string> := [];
    NothingYet(a, orig, pos, end, tag, cs);
    while true
      invariant Compacted(a, orig, pos, end, dataLine, cursor, done)
      invariant ScanBlock(orig[pos..end], tag, cs) == Prefixed(done, cursor - pos, ScanBlock(orig[cursor..end], tag, cs))
      invariant Below(a, pos)
      decreases end - cursor
    {
      var e, endOfLine := TakeLine(a, dataLine, cursor, orig, end);
      ghost var line := orig[cursor..e];
      ScanNextLine(orig, pos, cursor, end, e, done, tag, cs);
      var shown := a[dataLine..dataLine + e - cursor];
      assert shown == line;
      if Same(cs, shown, tag) {
        if pos == e {
          return false, e;
        }
        cursor := CloseBlock(a, pos, dataLine, cursor, e, endOfLine, orig, end, done);
        return true, cursor;
      }
      if endOfLine == NUL {
        LastLineEnds(a, orig, pos, end, dataLine, cursor, e, done);
        return true, e;
      }
      dataLine, cursor := EndLine(a, pos, dataLine, cursor, e, endOfLine, orig, end, done);
      done := done + [line];
    }
  }

  lemma NothingYet(a: array<char>, orig: seq<char>, pos: nat, end: nat, tag: string, cs: bool)
    requires Unread(a, orig, pos, end)
    ensures Compacted(a, orig, pos, end, pos, pos, [])
    ensures ScanBlock(orig[pos..end], tag, cs) == Prefixed([], 0, ScanBlock(orig[pos..end], tag, cs))
  {
  }
}
