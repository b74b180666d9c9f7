/** An INI text read line by line: what each line means by itself, and the proof that the
    parser, which runs on over the whole text, finds exactly that. */
module IniLines {
  import opened IniText
  import opened IniBuffer
  import opened IniParse
  import opened IniLoad
  import P = IniPrint
  import R = IniRoundTrip

  // ----- what a line means ------------------------------------------------------------

  predicate IsLine(s: string) {
    forall i | 0 <= i < |s| :: s[i] != '\n' && s[i] != '\r'
  }

  function Blanks(s: string): (n: nat)
    ensures n <= |s| && (forall i | 0 <= i < n :: s[i] == ' ' || s[i] == '\t')
    ensures n < |s| ==> s[n] != ' ' && s[n] != '\t'
  {
    if s != "" && (s[0] == ' ' || s[0] == '\t') then 1 + Blanks(s[1..]) else 0
  }

  function Unindented(s: string): string {
    s[Blanks(s)..]
  }

  function WithoutTail(s: string): string {
    if s != "" && (s[|s| - 1] == ' ' || s[|s| - 1] == '\t') then WithoutTail(s[..|s| - 1]) else s
  }

  /** Characters before the first c, or the whole length. */
  function UpTo(s: string, c: char): (n: nat)
    ensures n <= |s| && (forall i | 0 <= i < n :: s[i] != c)
    ensures n < |s| ==> s[n] == c
  {
    if s == "" || s[0] == c then 0 else 1 + UpTo(s[1..], c)
  }

  datatype Line = Skipped | Opens(name: string) | Broken | Sets(key: string, value: string)

  /** Blank lines, lines that begin with ';' or '#', and lines without '=' or without a key
      are skipped; a line that begins with '[' opens the section named up to ']', or breaks
      it off if there is no ']'; any other line sets a key. */
  function Meaning(line: string): Line {
    var l := Unindented(line);
    if l == "" || l[0] == ';' || l[0] == '#' then Skipped
    else if l[0] == '[' then
      var inner := Unindented(l[1..]);
      var n := UpTo(inner, ']');
      if n == |inner| then Broken else Opens(WithoutTail(inner[..n]))
    else
      var n := UpTo(l, '=');
      if n == |l| || n == 0 then Skipped else Sets(WithoutTail(l[..n]), WithoutTail(Unindented(l[n + 1..])))
  }

  function LinesRead(lines: seq<string>, section: SectionName): seq<Item> {
    if lines == [] then []
    else
      match Meaning(lines[0])
      case Skipped => LinesRead(lines[1..], section)
      case Opens(name) => [Item(Named(name), Header(name))] + LinesRead(lines[1..], Named(name))
      case Broken => LinesRead(lines[1..], Torn)
      case Sets(key, value) => [Item(section, Pair(key, value))] + LinesRead(lines[1..], section)
  }

  function Joined(lines: seq<string>, nl: string): string {
    if lines == [] then "" else if |lines| == 1 then lines[0] else lines[0] + (nl + Joined(lines[1..], nl))
  }

  predicate IsNl(nl: string) {
    nl == "\n" || nl == "\r" || nl == "\r\n"
  }

  /** The text behind a line: nothing, or the newline and the other lines. */
  function Behind(lines: seq<string>, nl: string): string
    requires lines != []
  {
    if |lines| == 1 then "" else nl + Joined(lines[1..], nl)
  }

  /** A line that stands by itself: not a '[' with only blanks behind it, which makes the
      parser look for the name on the following lines, and no multi-line value. */
  predicate Alone(line: string, cfg: Config) {
    && IsLine(line)
    && (Unindented(line) != "" && Unindented(line)[0] == '[' ==> Unindented(Unindented(line)[1..]) != "")
    && (cfg.multiLine && Meaning(line).Sets? ==> !("<<<" <= Meaning(line).value))
  }

  predicate AllAlone(lines: seq<string>, cfg: Config) {
    forall i | 0 <= i < |lines| :: Alone(lines[i], cfg)
  }

  // ----- steps and entries ------------------------------------------------------------

  /** A step that only begins k characters further on finds the entries found from there. */
  lemma ItemsAfter(s: string, k: nat, cfg: Config, section: SectionName)
    requires k <= |s| && Next(s, cfg) == After(k, Next(s[k..], cfg))
    ensures Items(s, cfg, section) == Items(s[k..], cfg, section)
  {
    hide Next;
    var st := Next(s[k..], cfg);
    assert s[k..][st.used..] == s[k + st.used..];
  }

  /** Likewise one that lost the section on the way. */
  lemma ItemsTorn(s: string, k: nat, at: nat, cfg: Config, section: SectionName)
    requires k <= |s| && Next(s, cfg) == Resume(k, At(at), Next(s[k..], cfg))
    ensures Items(s, cfg, section) == Items(s[k..], cfg, Torn)
  {
    hide Next;
    var st := Next(s[k..], cfg);
    assert s[k..][st.used..] == s[k + st.used..];
  }

  // ----- comments ---------------------------------------------------------------------

  lemma CommentStarts(s: string, cfg: Config)
    requires s != "" && IsComment(s[0])
    ensures CommentUsed(s, true) <= |s| && Next(s, cfg) == After(CommentUsed(s, true), Next(s[CommentUsed(s, true)..], cfg))
  {
    hide CommentUsed, NextAt;
    SpanIs(s, NotSpace, 0);
    NextUnfold(s, 0, cfg);
    assert s[0..] == s && s[0..|s|] == s;
    NextAtComment(s, 0, CommentUsed(s, true), |s|, cfg);
    assert s[CommentUsed(s, true)..|s|] == s[CommentUsed(s, true)..];
  }

  /** The entries are the same with or without the comment that the parser takes first. */
  lemma CommentSkipped(s: string, cfg: Config, section: SectionName)
    ensures CommentUsed(s, true) <= |s| && Items(s[CommentUsed(s, true)..], cfg, section) == Items(s, cfg, section)
  {
    hide CommentUsed, Next, Items, Span, NewLineLen;
    var e, k := Span(s, NewLine), Span(s, NotSpace);
    CommentUnfold(s, true, e, e + NewLineLen(s[e..]), k);
    if s != "" && IsComment(s[0]) {
      CommentStarts(s, cfg);
      ItemsAfter(s, CommentUsed(s, true), cfg, section);
    } else if 0 < k < |s| && IsComment(s[k]) {
      var t := s[k..];
      assert s == s[..k] + t;
      R.BlanksSkipped(s[..k], t, cfg, section);
      CommentStarts(t, cfg);
      ItemsAfter(t, CommentUsed(t, true), cfg, section);
      assert s[k + CommentUsed(t, true)..] == t[CommentUsed(t, true)..];
    } else {
      assert s[0..] == s;
    }
  }

  predicate Ends(rest: string) {
    rest == "" || rest[0] == '\n' || rest[0] == '\r'
  }

  lemma NewLineSkipped(rest: string, cfg: Config, section: SectionName)
    requires Ends(rest)
    ensures Items(rest[NewLineLen(rest)..], cfg, section) == Items(rest, cfg, section)
  {
    hide Items;
    var n := NewLineLen(rest);
    assert rest == rest[..n] + rest[n..];
    R.BlanksSkipped(rest[..n], rest[n..], cfg, section);
  }

  /** A line that begins with ';' or '#' is not seen, whatever stands behind it. */
  lemma CommentLine(line: string, rest: string, cfg: Config, section: SectionName)
    requires IsLine(line) && line != "" && (line[0] == ';' || line[0] == '#') && Ends(rest)
    ensures Items(line + rest, cfg, section) == Items(rest, cfg, section)
  {
    hide CommentUsed, Next, Items, Span, NewLineLen;
    var t := line + rest;
    var c := CommentUsed(t, true);
    SpanIs(t, NewLine, |line|);
    P.Cut(line, rest);
    var n := NewLineLen(rest);
    CommentUnfold(t, true, |line|, |line| + n, Span(t, NotSpace));
    CommentStarts(t, cfg);
    ItemsAfter(t, c, cfg, section);
    if rest == "" {
      assert t[c..] == rest;
    } else {
      var u := rest[n..];
      assert t[|line| + n..] == u;
      CommentSkipped(u, cfg, section);
      assert t[c..] == u[CommentUsed(u, true)..];
      NewLineSkipped(rest, cfg, section);
    }
  }

  lemma FrontLine(s: string)
    ensures IsLine(s[..Span(s, NewLine)]) && Ends(s[Span(s, NewLine)..])
    ensures s != "" && IsComment(s[0]) ==> var line := s[..Span(s, NewLine)]; line != "" && (line[0] == ';' || line[0] == '#')
  {
  }

  /** So it is with the comment at the front of a file: what is loaded behind it is what
      the whole text holds. */
  lemma {:induction false} FileCommentSkipped(s: string, cfg: Config, section: SectionName)
    ensures CommentUsed(s, false) <= |s| && Items(s[CommentUsed(s, false)..], cfg, section) == Items(s, cfg, section)
    decreases |s|
  {
    hide CommentUsed, Next, Items, Span, NewLineLen;
    var e := Span(s, NewLine);
    var n := e + NewLineLen(s[e..]);
    CommentUnfold(s, false, e, n, Span(s, NotSpace));
    if s != "" && IsComment(s[0]) {
      var line, rest := s[..e], s[e..];
      assert s == line + rest;
      FrontLine(s);
      CommentLine(line, rest, cfg, section);
      if e == |s| {
        assert s[e..] == rest;
      } else {
        NewLineSkipped(rest, cfg, section);
        assert s[n..] == rest[NewLineLen(rest)..];
        FileCommentSkipped(s[n..], cfg, section);
        assert s[n + CommentUsed(s[n..], false)..] == s[n..][CommentUsed(s[n..], false)..];
      }
    } else {
      assert s[0..] == s;
    }
  }

  // ----- one line ---------------------------------------------------------------------

  lemma {:induction false} TailsAgree(s: string)
    requires IsLine(s)
    ensures TrimRight(s) == WithoutTail(s)
  {
    if s != "" && IsSpace(s[|s| - 1]) {
      TailsAgree(s[..|s| - 1]);
    }
  }

  /** The front of a line without its blanks, as the parser reaches it. */
  lemma AtLine(l: string, rest: string, cfg: Config)
    requires IsLine(l) && l != "" && Blanks(l) == 0 && Ends(rest)
    ensures !IsSpace((l + rest)[0]) && Next(l + rest, cfg) == NextAt(l + rest, cfg)
  {
    hide NextAt;
    SpanIs(l + rest, NotSpace, 0);
    NextUnfold(l + rest, 0, cfg);
    assert (l + rest)[0..] == l + rest;
  }

  lemma SpanOfLine(x: string, rest: string, cls: CharClass, n: nat)
    requires IsLine(x) && Ends(rest) && n <= |x| && (forall i | 0 <= i < n :: !Stops(cls, x[i]))
    requires if n < |x| then Stops(cls, x[n]) else cls != NotSpace
    ensures Span(x + rest, cls) == n
  {
    hide Span;
    SpanIs(x + rest, cls, n);
  }

  lemma Parts(l: string, rest: string, i: nat)
    requires i <= |l|
    ensures (l + rest)[i..] == l[i..] + rest && (l + rest)[..i] == l[..i]
  {
  }

  lemma LineSpan(x: string, rest: string)
    requires IsLine(x) && Ends(rest)
    ensures Span(x + rest, NewLine) == |x|
  {
    SpanOfLine(x, rest, NewLine, |x|);
  }

  lemma BlankSpan(x: string, rest: string)
    requires IsLine(x) && Ends(rest)
    ensures Span(x + rest, NotBlank) == Blanks(x)
    ensures Blanks(x) < |x| ==> Span(x + rest, NotSpace) == Blanks(x)
  {
    SpanOfLine(x, rest, NotBlank, Blanks(x));
    if Blanks(x) < |x| {
      SpanOfLine(x, rest, NotSpace, Blanks(x));
    }
  }

  lemma CharSpan(x: string, rest: string)
    requires IsLine(x) && Ends(rest)
    ensures Span(x + rest, BracketOrNewLine) == UpTo(x, ']') && Span(x + rest, EqualsOrNewLine) == UpTo(x, '=')
  {
    SpanOfLine(x, rest, BracketOrNewLine, UpTo(x, ']'));
    SpanOfLine(x, rest, EqualsOrNewLine, UpTo(x, '='));
  }

  lemma SliceIsLine(l: string, i: nat, j: nat)
    requires i <= j <= |l| && IsLine(l)
    ensures IsLine(l[i..j]) && IsLine(l[i..]) && IsLine(l[..j])
  {
  }

  /** The parts of a section line that the parser looks at. */
  lemma HeaderParts(l: string, rest: string, s: string, b: nat, n: nat)
    requires 1 + b + n <= |l| && s == l + rest && Ends(rest)
    ensures var p := 1 + b + n;
            && s[1..] == l[1..] + rest && s[1 + b..] == l[1 + b..] + rest && s[1 + b..p] == l[1 + b..p]
            && (p < |l| ==> s[p] == l[p] && s[p + 1..] == l[p + 1..] + rest)
            && (p == |l| ==> s[p..] == rest && (rest != "" ==> s[p] != ']'))
  {
  }

  lemma HeaderSpans(l: string, rest: string, s: string, b: nat, n: nat)
    requires IsLine(l) && |l| > 0 && Ends(rest) && s == l + rest
    requires b == Blanks(l[1..]) && 1 + b < |l| && n == UpTo(l[1 + b..], ']')
    ensures 1 + b + n <= |l| && Span(s[1..], NotSpace) == b && Span(s[1 + b..], BracketOrNewLine) == n
    ensures 1 + b + n < |l| ==> Span(s[2 + b + n..], NewLine) == |l| - 2 - b - n
  {
    hide Span, IsLine, Ends, Blanks, UpTo;
    HeaderParts(l, rest, s, b, n);
    SliceIsLine(l, 1, |l|);
    SliceIsLine(l, 1 + b, |l|);
    BlankSpan(l[1..], rest);
    CharSpan(l[1 + b..], rest);
    if 1 + b + n < |l| {
      SliceIsLine(l, 2 + b + n, |l|);
      LineSpan(l[2 + b + n..], rest);
    }
  }

  lemma BracketAt(l: string, i: nat, n: nat)
    requires i <= |l| && n == UpTo(l[i..], ']') && i + n < |l|
    ensures l[i + n] == ']'
  {
  }

  lemma OpenHeader(l: string, rest: string, s: string, cfg: Config, b: nat, n: nat)
    requires IsLine(l) && l != "" && l[0] == '[' && Ends(rest) && s == l + rest
    requires b == Blanks(l[1..]) && 1 + b < |l| && n == UpTo(l[1 + b..], ']') && 1 + b + n == |l|
    ensures |l| <= |s| && Next(s, cfg) == Resume(|l|, At(1 + b), Next(s[|l|..], cfg))
  {
    NotIndented(l);
    hide *;
    AtLine(l, rest, cfg);
    HeaderSpans(l, rest, s, b, n);
    HeaderParts(l, rest, s, b, n);
    assert s != "" && s[0] == '[';
    HeaderUnfold(s, 1 + b, |l|, cfg);
  }

  lemma ClosedHeader(l: string, rest: string, s: string, cfg: Config, b: nat, n: nat)
    requires IsLine(l) && l != "" && l[0] == '[' && Ends(rest) && s == l + rest
    requires b == Blanks(l[1..]) && 1 + b < |l| && n == UpTo(l[1 + b..], ']') && 1 + b + n < |l|
    ensures |l| <= |s| && Next(s, cfg) == Step(Header(TrimRight(s[1 + b..1 + b + n])), |l|, None)
  {
    NotIndented(l);
    hide *;
    AtLine(l, rest, cfg);
    HeaderSpans(l, rest, s, b, n);
    HeaderParts(l, rest, s, b, n);
    BracketAt(l, 1 + b, n);
    assert s != "" && s[0] == '[' && s[1 + b + n] == ']';
    HeaderUnfold(s, 1 + b, 1 + b + n, cfg);
  }

  lemma HeaderNext(l: string, rest: string, cfg: Config, b: nat, n: nat)
    requires IsLine(l) && l != "" && l[0] == '[' && Ends(rest) && b == Blanks(l[1..]) && 1 + b < |l|
    requires n == UpTo(l[1 + b..], ']')
    ensures 1 + b + n <= |l|
    ensures 1 + b + n == |l| ==> Next(l + rest, cfg) == Resume(|l|, At(1 + b), Next((l + rest)[|l|..], cfg))
    ensures 1 + b + n < |l| ==> Next(l + rest, cfg) == Step(Header(WithoutTail(l[1 + b..1 + b + n])), |l|, None)
  {
    hide *;
    var p := 1 + b + n;
    HeaderSpans(l, rest, l + rest, b, n);
    if p == |l| {
      OpenHeader(l, rest, l + rest, cfg, b, n);
    } else {
      ClosedHeader(l, rest, l + rest, cfg, b, n);
      HeaderParts(l, rest, l + rest, b, n);
      SliceIsLine(l, 1 + b, p);
      TailsAgree(l[1 + b..p]);
    }
  }

  lemma NotIndented(l: string)
    requires l != "" && l[0] != ' ' && l[0] != '\t'
    ensures Blanks(l) == 0
  {
  }

  lemma Slices(l: string, b: nat, n: nat)
    requires 1 + b + n <= |l|
    ensures l[1..][b..] == l[1 + b..] && l[1 + b..][..n] == l[1 + b..1 + b + n]
  {
  }

  lemma HeaderLine(l: string, rest: string, cfg: Config, section: SectionName)
    requires IsLine(l) && l != "" && l[0] == '[' && Ends(rest) && Unindented(l[1..]) != ""
    ensures var inner := Unindented(l[1..]);
            var n := UpTo(inner, ']');
            Items(l + rest, cfg, section)
            == if n == |inner| then Items(rest, cfg, Torn)
               else [Item(Named(WithoutTail(inner[..n])), Header(WithoutTail(inner[..n])))] + Items(rest, cfg, Named(WithoutTail(inner[..n])))
  {
    hide Items, Next, WithoutTail, Resume, Blanks, UpTo;
    var b := Blanks(l[1..]);
    Slices(l, b, 0);
    var n := UpTo(l[1 + b..], ']');
    Slices(l, b, n);
    HeaderNext(l, rest, cfg, b, n);
    P.Cut(l, rest);
    if 1 + b + n == |l| {
      ItemsTorn(l + rest, |l|, 1 + b, cfg, section);
    } else {
      R.ItemsStep(l, rest, Header(WithoutTail(l[1 + b..1 + b + n])), cfg, section);
    }
  }

  lemma KeyUnfold(s: string, n: nat, e: nat, cfg: Config)
    requires s != "" && !IsSpace(s[0]) && !IsComment(s[0]) && s[0] != '[' && n == Span(s, EqualsOrNewLine) && e == Span(s, NewLine)
    ensures NextAt(s, cfg) ==
            if n == |s| || s[n] != '=' then After(n, Next(s[n..], cfg))
            else if n == 0 then After(e, Next(s[e..], cfg))
            else KeyStep(TrimRight(s[..n]), n, ReadValue(s[n..], cfg))
  {
    hide Span, TrimRight, ReadValue, CommentUsed, After, KeyStep, Next;
  }

  lemma ReadValueIs(t: string, v: nat, e: nat, cfg: Config)
    requires t != "" && v == 1 + Span(t[1..], NotBlank) && e == v + Span(t[v..], NewLine)
    requires cfg.multiLine ==> !IsMultiLineTag(TrimRight(t[v..e]))
    ensures ReadValue(t, cfg) == Value(Text(TrimRight(t[v..e])), e + NewLineLen(t[e..]))
  {
    hide Span, TrimRight, ReadBlock, NewLineLen, IsMultiLineTag;
  }

  lemma ValueSlices(x: string, rest: string, b: nat)
    requires b <= |x|
    ensures var t := "=" + (x + rest);
            t[1..] == x + rest && t[1 + b..] == x[b..] + rest && t[1 + b..1 + |x|] == x[b..] && t[1 + |x|..] == rest
  {
    var t := "=" + (x + rest);
    assert t[1 + b..] == (x + rest)[b..];
    Parts(x, rest, b);
    assert t[1 + |x|..] == (x + rest)[|x|..];
    P.Cut(x, rest);
  }

  /** Where the value of a line begins and ends. */
  lemma ValueSpans(x: string, rest: string, t: string, b: nat)
    requires IsLine(x) && Ends(rest) && b == Blanks(x) && t == "=" + (x + rest)
    ensures |t| > 0 && Span(t[1..], NotBlank) == b && 1 + b <= |t| && Span(t[1 + b..], NewLine) == |x| - b
    ensures 1 + |x| <= |t| && t[1 + b..1 + |x|] == x[b..] && t[1 + |x|..] == rest
  {
    hide Span, IsLine, Ends;
    ValueSlices(x, rest, b);
    SliceIsLine(x, b, |x|);
    BlankSpan(x, rest);
    LineSpan(x[b..], rest);
  }

  lemma ValueAt(x: string, rest: string, t: string, b: nat, value: string, cfg: Config)
    requires IsLine(x) && Ends(rest) && b == Blanks(x) && t == "=" + (x + rest) && value == x[b..]
    requires cfg.multiLine ==> !IsMultiLineTag(TrimRight(value))
    ensures ReadValue(t, cfg) == Value(Text(TrimRight(value)), 1 + |x| + NewLineLen(rest))
  {
    hide *;
    ValueSpans(x, rest, t, b);
    ReadValueIs(t, 1 + b, 1 + |x|, cfg);
  }

  lemma ValueOfLine(x: string, rest: string, cfg: Config)
    requires IsLine(x) && Ends(rest) && (cfg.multiLine ==> !("<<<" <= WithoutTail(Unindented(x))))
    ensures ReadValue("=" + (x + rest), cfg) == Value(Text(WithoutTail(Unindented(x))), 1 + |x| + NewLineLen(rest))
  {
    hide ReadValue, WithoutTail, TrimRight, NewLineLen, Blanks;
    var value := x[Blanks(x)..];
    TailsAgree(value);
    ValueAt(x, rest, "=" + (x + rest), Blanks(x), value, cfg);
  }

  lemma KeyNext(l: string, rest: string, cfg: Config, n: nat)
    requires IsLine(l) && l != "" && Blanks(l) == 0 && l[0] != ';' && l[0] != '#' && l[0] != '[' && Ends(rest) && n == UpTo(l, '=')
    requires cfg.multiLine && 0 < n < |l| ==> !("<<<" <= WithoutTail(Unindented(l[n + 1..])))
    ensures n == |l| || n == 0 ==> Next(l + rest, cfg) == After(|l|, Next((l + rest)[|l|..], cfg))
    ensures 0 < n < |l| ==>
      Next(l + rest, cfg) == Step(Pair(WithoutTail(l[..n]), WithoutTail(Unindented(l[n + 1..]))), |l| + NewLineLen(rest), None)
  {
    hide Next, NextAt, Span, TrimRight, WithoutTail, ReadValue, Unindented, NewLineLen, Blanks, UpTo;
    var s := l + rest;
    AtLine(l, rest, cfg);
    CharSpan(l, rest);
    LineSpan(l, rest);
    KeyUnfold(s, n, |l|, cfg);
    if 0 < n < |l| {
      var x := l[n + 1..];
      Parts(l, rest, n);
      KeySlices(l, rest, n);
      ValueOfLine(x, rest, cfg);
      TailsAgree(l[..n]);
    } else {
      assert n == |l| && rest != "" ==> s[n] == rest[0];
    }
  }

  lemma KeySlices(l: string, rest: string, n: nat)
    requires n < |l| && l[n] == '='
    ensures (l + rest)[n..] == "=" + (l[n + 1..] + rest)
  {
  }

  lemma KeyLine(l: string, rest: string, cfg: Config, section: SectionName)
    requires IsLine(l) && l != "" && Blanks(l) == 0 && l[0] != ';' && l[0] != '#' && l[0] != '[' && Ends(rest)
    requires var n := UpTo(l, '=');
             cfg.multiLine && 0 < n < |l| ==> !("<<<" <= WithoutTail(Unindented(l[n + 1..])))
    ensures var n := UpTo(l, '=');
            Items(l + rest, cfg, section)
            == if n == |l| || n == 0 then Items(rest, cfg, section)
               else [Item(section, Pair(WithoutTail(l[..n]), WithoutTail(Unindented(l[n + 1..]))))] + Items(rest, cfg, section)
  {
    hide Items, Next, WithoutTail, Unindented, NewLineLen, Blanks, UpTo;
    var n := UpTo(l, '=');
    KeyNext(l, rest, cfg, n);
    P.Cut(l, rest);
    if n == |l| || n == 0 {
      ItemsAfter(l + rest, |l|, cfg, section);
    } else {
      var k := NewLineLen(rest);
      SplitRest(l, rest, k);
      R.ItemsStep(l + rest[..k], rest[k..], Pair(WithoutTail(l[..n]), WithoutTail(Unindented(l[n + 1..]))), cfg, section);
      NewLineSkipped(rest, cfg, section);
    }
  }

  lemma SplitRest(l: string, rest: string, k: nat)
    requires k <= |rest|
    ensures l + rest == (l + rest[..k]) + rest[k..] && |l + rest[..k]| == |l| + k
  {
    assert rest == rest[..k] + rest[k..];
  }

  function LineRead(line: string, rest: string, cfg: Config, section: SectionName): seq<Item> {
    match Meaning(line)
    case Skipped => Items(rest, cfg, section)
    case Opens(name) => [Item(Named(name), Header(name))] + Items(rest, cfg, Named(name))
    case Broken => Items(rest, cfg, Torn)
    case Sets(key, value) => [Item(section, Pair(key, value))] + Items(rest, cfg, section)
  }

  lemma MeaningOf(line: string)
    ensures var l := Unindented(line);
            && (l == "" || (l != "" && (l[0] == ';' || l[0] == '#')) ==> Meaning(line) == Skipped)
            && (l != "" && l[0] == '[' ==>
                  var inner := Unindented(l[1..]);
                  Meaning(line) == if UpTo(inner, ']') == |inner| then Broken else Opens(WithoutTail(inner[..UpTo(inner, ']')])))
            && (l != "" && l[0] != ';' && l[0] != '#' && l[0] != '[' ==>
                  var n := UpTo(l, '=');
                  Meaning(line) == if n == |l| || n == 0 then Skipped else Sets(WithoutTail(l[..n]), WithoutTail(Unindented(l[n + 1..]))))
  {
    hide WithoutTail, Unindented, UpTo;
  }

  lemma UnindentedIs(line: string)
    requires IsLine(line)
    ensures var b, l := Blanks(line), Unindented(line);
            && b <= |line| && IsLine(l) && l == line[b..] && (forall i | 0 <= i < b :: IsSpace(line[..b][i]))
            && (l != "" ==> Blanks(l) == 0)
  {
    hide Blanks;
    if Unindented(line) != "" {
      NotIndented(Unindented(line));
    }
  }

  lemma JoinBlanks(line: string, rest: string, b: nat)
    requires b <= |line|
    ensures line + rest == line[..b] + (line[b..] + rest) && "" + rest == rest
  {
  }

  /** The parser finds in a line what it means, and goes on behind it. */
  lemma LineIsRead(line: string, rest: string, cfg: Config, section: SectionName)
    requires Alone(line, cfg) && Ends(rest)
    ensures Items(line + rest, cfg, section) == LineRead(line, rest, cfg, section)
  {
    hide Items, WithoutTail, Meaning, Unindented, UpTo, Blanks, IsSpace;
    var b, l := Blanks(line), Unindented(line);
    UnindentedIs(line);
    MeaningOf(line);
    JoinBlanks(line, rest, b);
    R.BlanksSkipped(line[..b], l + rest, cfg, section);
    if l == "" {
    } else if l[0] == ';' || l[0] == '#' {
      CommentLine(l, rest, cfg, section);
    } else if l[0] == '[' {
      HeaderLine(l, rest, cfg, section);
    } else {
      KeyLine(l, rest, cfg, section);
    }
  }

  // ----- the whole text ---------------------------------------------------------------

  lemma JoinedIs(lines: seq<string>, nl: string)
    requires lines != [] && IsNl(nl)
    ensures Joined(lines, nl) == lines[0] + Behind(lines, nl) && Ends(Behind(lines, nl))
  {
    if |lines| == 1 {
      assert lines[0] + "" == lines[0];
    }
  }

  /** THE PARSER READS LINE BY LINE.  A text whose lines stand by themselves, with any kind
      of newline between them, holds exactly what its lines mean one after the other. */
  lemma {:induction false} ReadsLineByLine(lines: seq<string>, nl: string, cfg: Config, section: SectionName)
    requires AllAlone(lines, cfg) && IsNl(nl)
    ensures Items(Joined(lines, nl), cfg, section) == LinesRead(lines, section)
  {
    hide Items, Meaning, Alone;
    if lines == [] {
      R.NothingToRead(cfg, section);
    } else {
      var rest := Behind(lines, nl);
      JoinedIs(lines, nl);
      LineIsRead(lines[0], rest, cfg, section);
      forall next: SectionName ensures Items(rest, cfg, next) == LinesRead(lines[1..], next) {
        BehindIsRead(lines, nl, cfg, next);
        ReadsLineByLine(lines[1..], nl, cfg, next);
      }
    }
  }

  lemma BehindIsRead(lines: seq<string>, nl: string, cfg: Config, section: SectionName)
    requires lines != [] && IsNl(nl)
    ensures Items(Behind(lines, nl), cfg, section) == Items(Joined(lines[1..], nl), cfg, section)
  {
    hide Items;
    if |lines| > 1 {
      R.BlanksSkipped(nl, Joined(lines[1..], nl), cfg, section);
    }
  }

  /** It does not always: a '[' at the end of a line takes the name from the next one. */
  lemma BracketReachesOn(cfg: Config)
    ensures Items("[" + ("\n" + "a]"), cfg, Named("")) == [Item(Named("a"), Header("a"))]
    ensures LinesRead(["[", "a]"], Named("")) == []
  {
    hide Items, Next, NextAt;
    LinesApart();
    NameBelow(cfg);
    R.NothingToRead(cfg, Named("a"));
    var s := "[" + ("\n" + "a]");
    assert s + "" == s;
    R.ItemsStep(s, "", Header("a"), cfg, Named(""));
  }

  lemma LinesApart()
    ensures LinesRead(["[", "a]"], Named("")) == []
  {
    assert Unindented("[")[1..] == "" && UpTo("a]", '=') == 2;
    assert ["[", "a]"][1..] == ["a]"];
    assert Meaning("[") == Broken && Meaning("a]") == Skipped;
  }

  lemma NameBelow(cfg: Config)
    ensures Next("[" + ("\n" + "a]"), cfg) == Step(Header("a"), 4, None)
  {
    hide Next, NextAt, Span, TrimRight;
    var s := "[" + ("\n" + "a]");
    AtLine("[", "\n" + "a]", cfg);
    assert s[1..] == "\na]" && s[2..] == "a]" && s[4..] == "" && s[2..3] == "a";
    SpanIs(s[1..], NotSpace, 1);
    SpanIs(s[2..], BracketOrNewLine, 1);
    SpanIs(s[4..], NewLine, 0);
    HeaderUnfold(s, 2, 3, cfg);
    P.TrimsBlanks("a", "");
    assert "a" + "" == "a";
  }

  // ----- comments among entries -------------------------------------------------------

  /** A comment line behind the entries of a printed section changes nothing, whatever
      follows it on the next line or if it is the last one. */
  lemma CommentInText(section: P.SectionText, line: string, nl: string, rest: string, cfg: Config, before: SectionName)
    requires cfg.Valid() && R.PrintablePairs(section.pairs, cfg)
    requires R.PrintableName(section.name) || (section.name == "" && before == Named(""))
    requires IsLine(line) && line != "" && (line[0] == ';' || line[0] == '#') && (IsNl(nl) || (nl == "" && rest == ""))
    ensures var front := P.PrintHeader(section.name, cfg) + P.PrintPairs(section.pairs, cfg);
            Items(front + (line + (nl + rest)), cfg, before) == Items(front + rest, cfg, before)
  {
    NewLineEnds(nl, rest);
    hide *;
    R.SectionReadBack(section, line + (nl + rest), cfg, before);
    R.SectionReadBack(section, rest, cfg, before);
    CommentLine(line, nl + rest, cfg, Named(section.name));
    R.BlanksSkipped(nl, rest, cfg, Named(section.name));
  }

  lemma NewLineEnds(nl: string, rest: string)
    requires IsNl(nl) || (nl == "" && rest == "")
    ensures Ends(nl + rest) && forall i | 0 <= i < |nl| :: IsSpace(nl[i])
  {
  }

  predicate CommentLines(lines: seq<string>) {
    forall i | 0 <= i < |lines| :: IsLine(lines[i]) && lines[i] != "" && (lines[i][0] == ';' || lines[i][0] == '#')
  }

  lemma CommentMeaning(line: string)
    requires line != "" && (line[0] == ';' || line[0] == '#')
    ensures Meaning(line) == Skipped && Unindented(line) == line
  {
    NotIndented(line);
    assert line[0..] == line;
  }

  /** A text of comment lines holds nothing. */
  lemma OnlyComments(lines: seq<string>, nl: string, cfg: Config, section: SectionName)
    requires CommentLines(lines) && IsNl(nl)
    ensures Items(Joined(lines, nl), cfg, section) == []
  {
    hide Items, Meaning, Unindented;
    forall i | 0 <= i < |lines| ensures Alone(lines[i], cfg) && Meaning(lines[i]) == Skipped {
      CommentMeaning(lines[i]);
    }
    ReadsLineByLine(lines, nl, cfg, section);
    SkippedLines(lines, section);
  }

  lemma {:induction false} SkippedLines(lines: seq<string>, section: SectionName)
    requires forall i | 0 <= i < |lines| :: Meaning(lines[i]) == Skipped
    ensures LinesRead(lines, section) == []
  {
    hide Meaning;
    if lines != [] {
      assert forall i | 0 <= i < |lines[1..]| :: lines[1..][i] == lines[i + 1];
      SkippedLines(lines[1..], section);
    }
  }

  /** The loading loop in these terms: the pointers it records lead to what the lines of
      the buffer mean, one after the other. */
  method LoadLines(a: array<char>, cfg: Config, ghost lines: seq<string>, ghost nl: string, ghost end: nat) returns (records: seq<Record>)
    requires Unread(a, a[..], 0, end) && a[..end] == Joined(lines, nl)
    requires AllAlone(lines, cfg) && IsNl(nl)
    modifies a
    ensures AllStand(a, records, LinesRead(lines, Named("")), end, end)
  {
    hide Items, CommentUsed, Stands, LinesRead, Joined, AllAlone;
    ghost var text := a[..][..end];
    assert text == a[..end];
    FileCommentSkipped(text, cfg, Named(""));
    ReadsLineByLine(lines, nl, cfg, Named(""));
    records := LoadData(a, cfg, end);
  }

  // ----- blocks that end at once ------------------------------------------------------

  lemma EmptyBlock(tag: string, rest: string, cfg: Config)
    requires cfg.Valid() && OneLine(tag)
    ensures ReadBlock(tag + cfg.nl + rest, tag, cfg).found == if tag == "" then NoLine else RunsOn
  {
    hide Same, Span, NewLineLen, ScanBlock, OneLine;
    var s := tag + cfg.nl + rest;
    LineThenRest(tag, cfg.nl, rest);
    ScanStep(s, tag, cfg.caseSensitive, |tag|, |tag| + |cfg.nl|);
    SameSelf(cfg.caseSensitive, tag);
    assert s[..|tag|] == tag;
  }

  /** A block that its tag ends at once has no text: with an empty tag the parser stops
      there for good; with any other the key is found, and its value runs on. */
  lemma BlockEndsAtOnce(key: string, tag: string, rest: string, cfg: Config, section: SectionName)
    requires cfg.Valid() && cfg.multiLine && P.PrintableKey(key) && OneLine(tag) && !P.IsMultiLineData("<<<" + tag)
    ensures var text := key + P.Gap(cfg) + ("=" + (P.Gap(cfg) + (("<<<" + tag) + cfg.nl + (tag + cfg.nl + rest))));
            if tag == "" then Items(text, cfg, section) == []
            else Items(text, cfg, section) != [] && Items(text, cfg, section)[0] == Item(section, Dangling(key))
  {
    hide Next, ReadValue, ReadBlock, OneLine, P.PrintableKey, P.IsMultiLineData;
    var line, below := "<<<" + tag, tag + cfg.nl + rest;
    assert line[3..] == tag && IsMultiLineTag(line);
    P.LineReadBack(line, below, cfg);
    EmptyBlock(tag, rest, cfg);
    P.KeyReadBack(key, P.Gap(cfg) + (line + cfg.nl + below), cfg);
  }
}
