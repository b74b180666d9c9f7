/** The text of an INI file: character classes, string order, lines, and what one call
    of the parser recognises at the front of the unread text. */
module IniText {

  import opened Common

  predicate IsSpace(c: char) {
    c == ' ' || c == '\t' || c == '\r' || c == '\n'
  }

  predicate IsComment(c: char) {
    c == ';' || c == '#'
  }

  predicate IsNewLineChar(c: char) {
    c == '\n' || c == '\r'
  }

  /** Settings of a parser or printer: the string comparison, whether multi-line values
      are allowed, blanks around '=', and the platform's newline. */
  datatype Config = Config(caseSensitive: bool, multiLine: bool, spaces: bool, nl: string) {
    predicate Valid() {
      nl == "\n" || nl == "\r\n"
    }
  }

  // ----- string order -----------------------------------------------------------------

  function Locase(c: char): char {
    if 'A' <= c <= 'Z' then c - 'A' + 'a' else c
  }

  function Fold(cs: bool, c: char): char {
    if cs then c else Locase(c)
  }

  /** The generic less-than: by the first differing character, a proper prefix first. */
  function IsLess(cs: bool, a: string, b: string): bool {
    if a == "" || b == "" then b != ""
    else if Fold(cs, a[0]) != Fold(cs, b[0]) then Fold(cs, a[0]) < Fold(cs, b[0])
    else IsLess(cs, a[1..], b[1..])
  }

  /** Neither string is less than the other. */
  predicate Same(cs: bool, a: string, b: string) {
    !IsLess(cs, a, b) && !IsLess(cs, b, a)
  }

  function Folded(cs: bool, a: string): string {
    seq(|a|, i requires 0 <= i < |a| => Fold(cs, a[i]))
  }

  /** Strings compare equal exactly when they agree after folding the case. */
  lemma {:induction false} SameIffFolded(cs: bool, a: string, b: string)
    ensures Same(cs, a, b) <==> Folded(cs, a) == Folded(cs, b)
  {
    if a != "" && b != "" {
      SameIffFolded(cs, a[1..], b[1..]);
      assert Folded(cs, a)[0] == Fold(cs, a[0]) && Folded(cs, a)[1..] == Folded(cs, a[1..]);
      assert Folded(cs, b)[0] == Fold(cs, b[0]) && Folded(cs, b)[1..] == Folded(cs, b[1..]);
      assert Folded(cs, a) == [Fold(cs, a[0])] + Folded(cs, a[1..]);
      assert Folded(cs, b) == [Fold(cs, b[0])] + Folded(cs, b[1..]);
    } else if a == "" && b != "" {
      assert |Folded(cs, b)| == |b|;
    } else if a != "" && b == "" {
      assert |Folded(cs, a)| == |a|;
    }
  }

  /** The letters of the two cases, and nothing else, are taken for the same where case is
      ignored. */
  lemma SameLetters(a: char, b: char)
    ensures Fold(true, a) == Fold(true, b) <==> a == b
    ensures Fold(false, a) == Fold(false, b) <==>
              || a == b
              || ('A' <= a <= 'Z' && b as int == a as int + 32)
              || ('A' <= b <= 'Z' && a as int == b as int + 32)
  {
  }

  /** One string is less than another if it is smaller where they first differ, or ends
      there. */
  lemma {:induction false} LessIff(cs: bool, a: string, b: string)
    ensures IsLess(cs, a, b) <==>
              exists k :: 0 <= k <= |a| && k < |b| && Folded(cs, a)[..k] == Folded(cs, b)[..k]
                          && (k == |a| || Fold(cs, a[k]) < Fold(cs, b[k]))
  {
    if a == "" || b == "" {
      if b != "" {
        assert Folded(cs, a)[..0] == Folded(cs, b)[..0];
      }
    } else {
      FoldedTail(cs, a);
      FoldedTail(cs, b);
      if Fold(cs, a[0]) == Fold(cs, b[0]) {
        LessIff(cs, a[1..], b[1..]);
        LessShift(cs, a, b);
      } else {
        assert Folded(cs, a)[..0] == Folded(cs, b)[..0];
        forall k | 0 < k <= |a| && k < |b| ensures Folded(cs, a)[..k] != Folded(cs, b)[..k] {
          assert Folded(cs, a)[..k][0] == Fold(cs, a[0]) && Folded(cs, b)[..k][0] == Fold(cs, b[0]);
        }
      }
    }
  }

  lemma FoldedTail(cs: bool, a: string)
    requires a != ""
    ensures Folded(cs, a) == [Fold(cs, a[0])] + Folded(cs, a[1..])
  {
  }

  /** The place where two strings differ moves along with them. */
  lemma LessShift(cs: bool, a: string, b: string)
    requires a != "" && b != "" && Fold(cs, a[0]) == Fold(cs, b[0])
    ensures var a1, b1 := a[1..], b[1..];
            (exists k :: 0 <= k <= |a1| && k < |b1| && Folded(cs, a1)[..k] == Folded(cs, b1)[..k]
                         && (k == |a1| || Fold(cs, a1[k]) < Fold(cs, b1[k])))
            <==> (exists k :: 0 <= k <= |a| && k < |b| && Folded(cs, a)[..k] == Folded(cs, b)[..k]
                              && (k == |a| || Fold(cs, a[k]) < Fold(cs, b[k])))
  {
    var a1, b1 := a[1..], b[1..];
    FoldedTail(cs, a);
    FoldedTail(cs, b);
    forall k | 0 <= k <= |a1| && k <= |b1| ensures Folded(cs, a1)[..k] == Folded(cs, b1)[..k] <==> Folded(cs, a)[..k + 1] == Folded(cs, b)[..k + 1] {
      assert Folded(cs, a)[..k + 1] == [Fold(cs, a[0])] + Folded(cs, a1)[..k];
      assert Folded(cs, b)[..k + 1] == [Fold(cs, b[0])] + Folded(cs, b1)[..k];
      if Folded(cs, a)[..k + 1] == Folded(cs, b)[..k + 1] {
        assert Folded(cs, a1)[..k] == Folded(cs, a)[..k + 1][1..] && Folded(cs, b1)[..k] == Folded(cs, b)[..k + 1][1..];
      }
    }
    if k :| 0 <= k <= |a1| && k < |b1| && Folded(cs, a1)[..k] == Folded(cs, b1)[..k] && (k == |a1| || Fold(cs, a1[k]) < Fold(cs, b1[k])) {
      assert Folded(cs, a)[..k + 1] == Folded(cs, b)[..k + 1];
    }
    if k :| 0 <= k <= |a| && k < |b| && Folded(cs, a)[..k] == Folded(cs, b)[..k] && (k == |a| || Fold(cs, a[k]) < Fold(cs, b[k])) {
      assert k > 0;
      assert Folded(cs, a1)[..k - 1] == Folded(cs, b1)[..k - 1];
    }
  }

  lemma SameSelf(cs: bool, a: string)
    ensures Same(cs, a, a)
  {
    SameIffFolded(cs, a, a);
  }

  lemma {:induction false} LessAsymmetric(cs: bool, a: string, b: string)
    requires IsLess(cs, a, b)
    ensures !IsLess(cs, b, a)
  {
    if a != "" && b != "" && Fold(cs, a[0]) == Fold(cs, b[0]) {
      LessAsymmetric(cs, a[1..], b[1..]);
    }
  }

  lemma {:induction false} LessTransitive(cs: bool, a: string, b: string, c: string)
    requires IsLess(cs, a, b) && IsLess(cs, b, c)
    ensures IsLess(cs, a, c)
  {
    if a != "" && b != "" && c != "" && Fold(cs, a[0]) == Fold(cs, b[0]) == Fold(cs, c[0]) {
      LessTransitive(cs, a[1..], b[1..], c[1..]);
    }
  }

  /** The order does not see differences that Same ignores. */
  lemma {:induction false} LessRespectsSame(cs: bool, a: string, a': string, b: string)
    requires Same(cs, a, a')
    ensures IsLess(cs, a, b) == IsLess(cs, a', b) && IsLess(cs, b, a) == IsLess(cs, b, a')
  {
    if a != "" && a' != "" && b != "" && Fold(cs, a[0]) == Fold(cs, b[0]) {
      LessRespectsSame(cs, a[1..], a'[1..], b[1..]);
    }
  }

  // ----- spans and lines --------------------------------------------------------------

  datatype CharClass = NewLine | NotSpace | NotBlank | BracketOrNewLine | EqualsOrNewLine

  predicate Stops(cls: CharClass, c: char) {
    match cls
    case NewLine => IsNewLineChar(c)
    case NotSpace => !IsSpace(c)
    case NotBlank => IsNewLineChar(c) || !IsSpace(c)
    case BracketOrNewLine => c == ']' || IsNewLineChar(c)
    case EqualsOrNewLine => c == '=' || IsNewLineChar(c)
  }

  /** Characters before the first one of the class, or the whole length. */
  function Span(s: string, cls: CharClass): (n: nat)
    ensures n <= |s|
    ensures forall i | 0 <= i < n :: !Stops(cls, s[i])
    ensures n < |s| ==> Stops(cls, s[n])
  {
    if s == "" || Stops(cls, s[0]) then 0 else 1 + Span(s[1..], cls)
  }

  lemma SpanIs(s: string, cls: CharClass, n: nat)
    requires n <= |s|
    requires forall i | 0 <= i < n :: !Stops(cls, s[i])
    requires n < |s| ==> Stops(cls, s[n])
    ensures Span(s, cls) == n
  {
  }

  /** Length of the newline at the front of s: "\r\n" counts as one newline. */
  function NewLineLen(s: string): (n: nat)
    ensures n <= |s|
    ensures s != "" ==> 0 < n
  {
    if s == "" then 0
    else if s[0] == '\r' && |s| > 1 && s[1] == '\n' then 2
    else 1
  }

  function TrimRight(s: string): (r: string)
    ensures |r| <= |s| && r == s[..|r|]
    ensures r != "" ==> !IsSpace(r[|r| - 1])
    ensures forall i | |r| <= i < |s| :: IsSpace(s[i])
  {
    if s != "" && IsSpace(s[|s| - 1]) then TrimRight(s[..|s| - 1]) else s
  }

  /** Lines separated by '\n'; there is always at least one. */
  function SplitLines(text: string): (r: seq<string>)
    ensures r != []
  {
    if text == "" then [""]
    else if text[0] == '\n' then [""] + SplitLines(text[1..])
    else
      var rest := SplitLines(text[1..]);
      [[text[0]] + rest[0]] + rest[1..]
  }

  function JoinLines(lines: seq<string>): string {
    if lines == [] then ""
    else if |lines| == 1 then lines[0]
    else lines[0] + "\n" + JoinLines(lines[1..])
  }

  lemma JoinCons(line: string, rest: seq<string>)
    ensures JoinLines([line] + rest) == if rest == [] then line else line + "\n" + JoinLines(rest)
  {
    assert ([line] + rest)[1..] == rest;
  }

  lemma {:induction false} JoinSplit(text: string)
    ensures JoinLines(SplitLines(text)) == text
  {
    hide JoinLines;
    if text == "" {
      JoinCons("", []);
      assert SplitLines(text) == [""] + [];
    } else {
      JoinSplit(text[1..]);
      var rest := SplitLines(text[1..]);
      assert rest == [rest[0]] + rest[1..];
      JoinCons(rest[0], rest[1..]);
      JoinCons("", rest);
      JoinCons([text[0]] + rest[0], rest[1..]);
      assert text == [text[0]] + text[1..];
    }
  }

  /** Every line followed by a newline is the joined text and one more newline. */
  lemma {:induction false} JoinedAndEnded(lines: seq<string>)
    requires lines != []
    ensures PrintLines(lines, "\n") == JoinLines(lines) + "\n"
  {
    if |lines| > 1 {
      JoinedAndEnded(lines[1..]);
    } else {
      assert lines == [lines[0]];
      assert PrintLines(lines[1..], "\n") == "";
    }
  }

  lemma {:induction false} PrintLinesSnoc(lines: seq<string>, line: string, nl: string)
    ensures PrintLines(lines + [line], nl) == PrintLines(lines, nl) + line + nl
  {
    if lines == [] {
      assert lines + [line] == [line];
      assert PrintLines([line], nl) == line + nl + PrintLines([], nl);
    } else {
      PrintLinesSnoc(lines[1..], line, nl);
      assert (lines + [line])[1..] == lines[1..] + [line];
    }
  }

  /** A last line without a newline. */
  lemma JoinSnoc(lines: seq<string>, line: string)
    ensures JoinLines(lines + [line]) == PrintLines(lines, "\n") + line
  {
    JoinedAndEnded(lines + [line]);
    PrintLinesSnoc(lines, line, "\n");
    var joined, shown := JoinLines(lines + [line]), PrintLines(lines, "\n") + line;
    assert joined + "\n" == shown + "\n";
    assert joined == (joined + "\n")[..|joined|] && shown == (shown + "\n")[..|shown|];
  }

  // ----- multi-line blocks ------------------------------------------------------------

  /** A multi-line block at the front of the unread text: its lines up to the tag line,
      whether the tag line was found, and the characters used. */
  datatype Block = Block(lines: seq<string>, found: bool, used: nat)

  function ScanBlock(s: string, tag: string, cs: bool): (b: Block)
    ensures b.used <= |s|
    decreases |s|
  {
    var e := Span(s, NewLine);
    if Same(cs, s[..e], tag) then Block([], true, e + NewLineLen(s[e..]))
    else if e == |s| then Block([s[..e]], false, e)
    else
      var n := e + NewLineLen(s[e..]);
      var rest := ScanBlock(s[n..], tag, cs);
      Block([s[..e]] + rest.lines, rest.found, n + rest.used)
  }

  /** A text printed line by line. */
  function PrintLines(lines: seq<string>, nl: string): string {
    if lines == [] then "" else lines[0] + nl + PrintLines(lines[1..], nl)
  }

  /** What OutputMultiLineText writes: nothing at all for an empty text. */
  function PrintText(text: string, nl: string): string {
    if text == "" then "" else PrintLines(SplitLines(text), nl)
  }

  /** Text the printer can reproduce between the opening and the closing tag. */
  predicate BlockText(text: string, tag: string, cs: bool) {
    && (forall i | 0 <= i < |text| :: text[i] != '\r')
    && (forall i | 0 <= i < |SplitLines(text)| :: !Same(cs, SplitLines(text)[i], tag))
  }

  predicate OneLine(s: string) {
    forall i | 0 <= i < |s| :: !IsNewLineChar(s[i])
  }

  lemma {:induction false} SplitLinesAreLines(text: string)
    requires forall i | 0 <= i < |text| :: text[i] != '\r'
    ensures forall k | 0 <= k < |SplitLines(text)| :: OneLine(SplitLines(text)[k])
  {
    if text != "" {
      SplitLinesAreLines(text[1..]);
      var rest := SplitLines(text[1..]);
      if text[0] != '\n' {
        assert OneLine(rest[0]);
      }
    }
  }

  /** A line, a newline, and whatever follows. */
  lemma LineThenRest(line: string, nl: string, rest: string)
    requires OneLine(line) && (nl == "\n" || nl == "\r\n")
    ensures var s := line + nl + rest;
            && Span(s, NewLine) == |line|
            && s[..|line|] == line
            && NewLineLen(s[|line|..]) == |nl|
            && s[|line| + |nl|..] == rest
  {
    var s := line + nl + rest;
    SpanIs(s, NewLine, |line|);
    assert s[|line|..] == nl + rest;
  }

  lemma ScanTagLine(close: string, tag: string, cs: bool, nl: string, rest: string)
    requires OneLine(close) && Same(cs, close, tag) && (nl == "\n" || nl == "\r\n")
    ensures ScanBlock(close + nl + rest, tag, cs) == Block([], true, |close| + |nl|)
  {
    LineThenRest(close, nl, rest);
  }

  lemma ScanTextLine(line: string, tag: string, cs: bool, nl: string, rest: string)
    requires OneLine(line) && !Same(cs, line, tag) && (nl == "\n" || nl == "\r\n")
    ensures var r := ScanBlock(rest, tag, cs);
            ScanBlock(line + nl + rest, tag, cs) == Block([line] + r.lines, r.found, |line| + |nl| + r.used)
  {
    hide *;
    LineThenRest(line, nl, rest);
    ScanStep(line + nl + rest, tag, cs, |line|, |line| + |nl|);
  }

  /** The scanner, one line at a time. */
  lemma ScanStep(s: string, tag: string, cs: bool, e: nat, n: nat)
    requires e == Span(s, NewLine) && n == e + NewLineLen(s[e..])
    ensures ScanBlock(s, tag, cs) ==
            if Same(cs, s[..e], tag) then Block([], true, n)
            else if e == |s| then Block([s[..e]], false, e)
            else
              var r := ScanBlock(s[n..], tag, cs);
              Block([s[..e]] + r.lines, r.found, n + r.used)
  {
    hide Same, Span, NewLineLen;
  }

  /** Printed lines up to the first that compares equal to the tag. */
  lemma {:induction false} ScanPrintedLines(lines: seq<string>, close: string, tag: string, cs: bool, nl: string, rest: string)
    requires nl == "\n" || nl == "\r\n"
    requires OneLine(close) && Same(cs, close, tag)
    requires forall k | 0 <= k < |lines| :: OneLine(lines[k]) && !Same(cs, lines[k], tag)
    ensures ScanBlock(PrintLines(lines, nl) + close + nl + rest, tag, cs)
            == Block(lines, true, |PrintLines(lines, nl)| + |close| + |nl|)
  {
    hide Same, ScanBlock, OneLine;
    if lines == [] {
      assert PrintLines(lines, nl) + close + nl + rest == close + nl + rest;
      ScanTagLine(close, tag, cs, nl, rest);
    } else {
      var tail := PrintLines(lines[1..], nl) + close + nl + rest;
      assert PrintLines(lines, nl) + close + nl + rest == lines[0] + nl + tail;
      ScanPrintedLines(lines[1..], close, tag, cs, nl, rest);
      ScanTextLine(lines[0], tag, cs, nl, tail);
      assert lines == [lines[0]] + lines[1..];
    }
  }

  /** The value a multi-line block stands for, if its text comes out terminated. */
  function BlockValue(b: Block): (r: string)
    requires b.lines != []
  {
    JoinLines(b.lines)
  }

  predicate ReadsBack(b: Block, text: string) {
    b.lines != [] && BlockValue(b) == text
  }

  /** No line that was read holds a newline character. */
  lemma {:induction false} ScannedLinesAreLines(s: string, tag: string, cs: bool)
    ensures AllLines(ScanBlock(s, tag, cs).lines)
    decreases |s|
  {
    hide Same, NewLineLen, ScanBlock;
    var e := Span(s, NewLine);
    var n := e + NewLineLen(s[e..]);
    ScanStep(s, tag, cs, e, n);
    assert OneLine(s[..e]);
    if !Same(cs, s[..e], tag) && e < |s| {
      ScannedLinesAreLines(s[n..], tag, cs);
    }
  }

  predicate AllLines(lines: seq<string>) {
    forall k | 0 <= k < |lines| :: OneLine(lines[k])
  }

  lemma {:induction false} JoinedWithoutReturn(lines: seq<string>)
    requires AllLines(lines)
    ensures '\r' !in JoinLines(lines)
  {
    if lines != [] {
      assert OneLine(lines[0]);
      if |lines| > 1 {
        JoinedWithoutReturn(lines[1..]);
      }
    }
  }

  lemma {:induction false} PrintedIsLonger(lines: seq<string>, k: nat)
    requires k < |lines|
    ensures |PrintLines(lines[..k], "\n")| < |PrintLines(lines, "\n")|
  {
    if k > 0 {
      PrintedIsLonger(lines[1..], k - 1);
      assert lines[..k][1..] == lines[1..][..k - 1];
    }
  }

  lemma {:induction false} PrintLinesSplit(lines: seq<string>, k: nat, nl: string)
    requires k <= |lines|
    ensures PrintLines(lines, nl) == PrintLines(lines[..k], nl) + PrintLines(lines[k..], nl)
  {
    if k == 0 {
      assert lines[..k] == [] && lines[k..] == lines;
    } else {
      PrintLinesSplit(lines[1..], k - 1, nl);
      assert lines[..k][1..] == lines[1..][..k - 1] && lines[1..][k - 1..] == lines[k..];
    }
  }

  /** A text with a line that compares equal to the tag is cut there. */
  lemma CutAtTagLine(text: string, k: nat, tag: string, cs: bool, nl: string, rest: string)
    requires nl == "\n" || nl == "\r\n"
    requires forall i | 0 <= i < |text| :: text[i] != '\r'
    requires text != "" && k < |SplitLines(text)| && Same(cs, SplitLines(text)[k], tag)
    requires forall i | 0 <= i < k :: !Same(cs, SplitLines(text)[i], tag)
    ensures !ReadsBack(ScanBlock(PrintText(text, nl) + tag + nl + rest, tag, cs), text)
  {
    hide Same, ScanBlock, OneLine, PrintLines, SplitLines, JoinLines;
    var lines := SplitLines(text);
    SplitLinesAreLines(text);
    var after := PrintLines(lines[k + 1..], nl) + tag + nl + rest;
    PrintLinesSplit(lines, k, nl);
    PrintLinesCons(lines[k..], nl);
    assert lines[k..][1..] == lines[k + 1..];
    assert PrintText(text, nl) + tag + nl + rest == PrintLines(lines[..k], nl) + lines[k] + nl + after;
    ScanPrintedLines(lines[..k], lines[k], tag, cs, nl, after);
    if k > 0 {
      JoinSplit(text);
      JoinedAndEnded(lines);
      JoinedAndEnded(lines[..k]);
      PrintedIsLonger(lines, k);
    }
  }

  lemma PrintLinesCons(lines: seq<string>, nl: string)
    requires lines != []
    ensures PrintLines(lines, nl) == lines[0] + nl + PrintLines(lines[1..], nl)
  {
  }

  /** Round trip of multi-line text: what the printer writes between the tags is read
      back as the same text if and only if the text is not empty, holds no '\r', and has
      no line that compares equal to the tag.  (For an empty text the closing tag
      follows at once and no line is left to hold the value.) */
  lemma MultiLineRoundTrip(text: string, tag: string, cs: bool, nl: string, rest: string)
    requires (nl == "\n" || nl == "\r\n") && OneLine(tag)
    ensures var s := PrintText(text, nl) + tag + nl + rest;
            var b := ScanBlock(s, tag, cs);
            && (ReadsBack(b, text) <==> text != "" && BlockText(text, tag, cs))
            && (ReadsBack(b, text) ==> b.found && b.used == |PrintText(text, nl)| + |tag| + |nl|)
  {
    hide Same, ScanBlock, OneLine, PrintLines, SplitLines, JoinLines;
    var s := PrintText(text, nl) + tag + nl + rest;
    SameSelf(cs, tag);
    if text == "" {
      PrintLinesNone(nl);
      ScanPrintedLines([], tag, tag, cs, nl, rest);
      assert PrintLines([], nl) + tag + nl + rest == s;
    } else if '\r' in text {
      ScannedLinesAreLines(s, tag, cs);
      JoinedWithoutReturn(ScanBlock(s, tag, cs).lines);
    } else if k :| 0 <= k < |SplitLines(text)| && Same(cs, SplitLines(text)[k], tag) {
      var first := FirstTagLine(SplitLines(text), tag, cs);
      CutAtTagLine(text, first, tag, cs, nl, rest);
    } else {
      SplitLinesAreLines(text);
      ScanPrintedLines(SplitLines(text), tag, tag, cs, nl, rest);
      JoinSplit(text);
    }
  }

  lemma PrintLinesNone(nl: string)
    ensures PrintLines([], nl) == ""
  {
  }

  function FirstTagLine(lines: seq<string>, tag: string, cs: bool): (k: nat)
    requires exists k :: 0 <= k < |lines| && Same(cs, lines[k], tag)
    ensures k < |lines| && Same(cs, lines[k], tag)
    ensures forall i | 0 <= i < k :: !Same(cs, lines[i], tag)
  {
    if Same(cs, lines[0], tag) then 0 else 1 + FirstTagLine(lines[1..], tag, cs)
  }
}
