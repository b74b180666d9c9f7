/** Saving: the printer of a whole document, and the proof that the parser reads a
    printed document back. */
module IniPrint {
  import opened IniText
  import opened IniParse
  import opened IniLoad

  const TAG := "END_OF_TEXT"

  /** Data that needs the multi-line form: white space at an end, or a newline inside. */
  predicate IsMultiLineData(value: string) {
    && value != ""
    && (IsSpace(value[0]) || IsSpace(value[|value| - 1]) || exists i :: 0 <= i < |value| && IsNewLineChar(value[i]))
  }

  function Gap(cfg: Config): string {
    if cfg.spaces then " " else ""
  }

  datatype KeyValue = KeyValue(key: string, value: string)

  datatype SectionText = SectionText(name: string, pairs: seq<KeyValue>)

  function PrintValue(value: string, cfg: Config): string {
    if cfg.multiLine && IsMultiLineData(value) then "<<<" + TAG + cfg.nl + PrintText(value, cfg.nl) + TAG else value
  }

  function PrintPair(pair: KeyValue, cfg: Config): string {
    pair.key + Gap(cfg) + "=" + Gap(cfg) + PrintValue(pair.value, cfg) + cfg.nl
  }

  function PrintPairs(pairs: seq<KeyValue>, cfg: Config): string {
    if pairs == [] then "" else PrintPair(pairs[0], cfg) + PrintPairs(pairs[1..], cfg)
  }

  function PrintHeader(name: string, cfg: Config): string {
    if name == "" then "" else "[" + name + "]" + cfg.nl
  }

  function PrintDoc(doc: seq<SectionText>, cfg: Config): string {
    if doc == [] then ""
    else
      var here := PrintHeader(doc[0].name, cfg) + PrintPairs(doc[0].pairs, cfg);
      if |doc| == 1 then here else here + cfg.nl + cfg.nl + PrintDoc(doc[1..], cfg)
  }

  /** What a saved key looks like, with a plain value and with one that needs a block. */
  lemma PrintedKey(key: string, value: string, cfg: Config)
    ensures !IsMultiLineData(value) ==> PrintPair(KeyValue(key, value), cfg) == key + (if cfg.spaces then " = " else "=") + value + cfg.nl
    ensures cfg.multiLine && IsMultiLineData(value) ==>
              PrintPair(KeyValue(key, value), cfg)
              == key + (if cfg.spaces then " = " else "=") + ("<<<END_OF_TEXT" + cfg.nl + PrintText(value, cfg.nl) + "END_OF_TEXT") + cfg.nl
  {
    hide PrintText, IsMultiLineData;
    assert "<<<" + TAG == "<<<END_OF_TEXT";
    KeyAndEquals(key, cfg);
  }

  lemma KeyAndEquals(key: string, cfg: Config)
    ensures key + Gap(cfg) + "=" + Gap(cfg) == key + if cfg.spaces then " = " else "="
  {
  }

  /** And two sections: a header each, and two newlines between them. */
  lemma PrintedSections(s: string, t: string, cfg: Config)
    requires s != "" && t != ""
    ensures PrintDoc([SectionText(s, []), SectionText(t, [])], cfg) == "[" + s + "]" + cfg.nl + cfg.nl + cfg.nl + ("[" + t + "]" + cfg.nl)
  {
    var doc := [SectionText(s, []), SectionText(t, [])];
    assert doc[1..] == [SectionText(t, [])];
    assert PrintPairs([], cfg) == "";
    NothingBehind(PrintHeader(s, cfg));
    NothingBehind(PrintHeader(t, cfg));
  }

  lemma NothingBehind(s: string)
    ensures s + "" == s
  {
  }

  // ----- one value --------------------------------------------------------------------

  predicate PrintableKey(key: string) {
    && key != "" && !IsComment(key[0]) && key[0] != '[' && !IsSpace(key[0]) && !IsSpace(key[|key| - 1])
    && forall i | 0 <= i < |key| :: !Stops(EqualsOrNewLine, key[i])
  }

  predicate PrintableValue(value: string, cfg: Config) {
    if !IsMultiLineData(value) then !(cfg.multiLine && IsMultiLineTag(value))
    else cfg.multiLine && BlockText(value, TAG, cfg.caseSensitive)
  }

  lemma {:induction false} TrimsBlanks(s: string, blanks: string)
    requires s == "" || !IsSpace(s[|s| - 1])
    requires forall i | 0 <= i < |blanks| :: IsSpace(blanks[i])
    ensures TrimRight(s + blanks) == s
  {
    if blanks == "" {
      assert s + blanks == s;
    } else {
      TrimsBlanks(s, blanks[..|blanks| - 1]);
      assert (s + blanks)[..|s + blanks| - 1] == s + blanks[..|blanks| - 1];
    }
  }

  lemma KeyParts(s: string, name: string, tail: string, key: string)
    requires PrintableKey(key) && s == name + tail && (name == key || name == key + " ")
    requires tail != "" && tail[0] == '='
    ensures Span(s, NotSpace) == 0 && Span(s, EqualsOrNewLine) == |name|
    ensures !IsSpace(s[0]) && !IsComment(s[0]) && s[0] != '['
    ensures s[..|name|] == name && s[|name|..] == tail
  {
    hide Span;
    SpanIs(s, NotSpace, 0);
    SpanIs(s, EqualsOrNewLine, |name|);
  }

  /** The printed line of a pair, seen by the parser: its key, and what is behind it. */
  lemma KeyReadBack(key: string, tail: string, cfg: Config)
    requires PrintableKey(key)
    ensures Next(key + Gap(cfg) + ("=" + tail), cfg) == KeyStep(key, |key| + |Gap(cfg)|, ReadValue("=" + tail, cfg))
  {
    hide TrimRight, ReadValue, Span, KeyStep, Next;
    var name := key + Gap(cfg);
    assert name == key || name == key + " ";
    KeyParts(name + ("=" + tail), name, "=" + tail, key);
    TrimsBlanks(key, Gap(cfg));
    KeyLineUnfold(name + ("=" + tail), |name|, cfg);
  }

  lemma KeyLineUnfold(s: string, n: nat, cfg: Config)
    requires s != "" && !IsSpace(s[0]) && !IsComment(s[0]) && s[0] != '[' && Span(s, NotSpace) == 0
    requires n == Span(s, EqualsOrNewLine) && 0 < n < |s| && s[n] == '='
    ensures Next(s, cfg) == KeyStep(TrimRight(s[..n]), n, ReadValue(s[n..], cfg))
  {
    hide TrimRight, ReadValue, Span, NewLineLen, KeyStep, CommentUsed;
    NextUnfold(s, 0, cfg);
    assert s[0..] == s;
  }

  lemma PlainLine(line: string)
    requires !IsMultiLineData(line)
    ensures OneLine(line) && (line == "" || (!IsSpace(line[0]) && !IsSpace(line[|line| - 1])))
  {
  }

  lemma GapThenLine(gap: string, line: string, nl: string, rest: string)
    requires gap == "" || gap == " "
    requires nl == "\n" || nl == "\r\n"
    requires line == "" || !IsSpace(line[0])
    ensures Span(gap + (line + nl + rest), NotBlank) == |gap|
  {
    hide Span;
    var s := gap + (line + nl + rest);
    assert s[|gap|] == (line + nl)[0];
    SpanIs(s, NotBlank, |gap|);
  }

  /** The parts of a value's line, from its '=' on. */
  lemma LineParts(t: string, gap: string, below: string, line: string, nl: string, rest: string)
    requires gap == "" || gap == " "
    requires nl == "\n" || nl == "\r\n"
    requires OneLine(line) && (line == "" || !IsSpace(line[0]))
    requires below == line + nl + rest && t != "" && t[1..] == gap + below
    ensures var v := 1 + |gap|;
            var e := v + |line|;
            && e + |nl| <= |t|
            && Span(t[1..], NotBlank) == |gap| && Span(t[v..], NewLine) == |line| && NewLineLen(t[e..]) == |nl|
            && t[v..e] == line && t[e + |nl|..] == rest
  {
    hide *;
    Cut(gap, below);
    assert t[1 + |gap|..] == t[1..][|gap|..];
    GapThenLine(gap, line, nl, rest);
    LineThenRest(line, nl, rest);
    TailOfTail(t, 1 + |gap|, below, |line|, |line| + |nl|);
  }

  lemma NothingToTrim(line: string)
    requires line == "" || !IsSpace(line[|line| - 1])
    ensures TrimRight(line) == line
  {
    TrimsBlanks(line, "");
    NothingBehind(line);
  }

  /** A value on one line. */
  lemma LineReadBack(line: string, rest: string, cfg: Config)
    requires cfg.Valid() && !IsMultiLineData(line)
    ensures var r := ReadBlock(rest, line[if |line| < 3 then 0 else 3..], cfg);
            var next := 1 + |Gap(cfg)| + |line| + |cfg.nl|;
            ReadValue("=" + (Gap(cfg) + (line + cfg.nl + rest)), cfg) ==
            if cfg.multiLine && IsMultiLineTag(line) then Value(r.found, next + r.used)
            else Value(Text(line), next)
  {
    hide Span, TrimRight, NewLineLen, ReadBlock, ReadValue, IsMultiLineData, IsMultiLineTag, OneLine;
    PlainLine(line);
    var below := line + cfg.nl + rest;
    var t := "=" + (Gap(cfg) + below);
    Cut("=", Gap(cfg) + below);
    LineParts(t, Gap(cfg), below, line, cfg.nl, rest);
    NothingToTrim(line);
    var v := 1 + |Gap(cfg)|;
    LineValue(t, cfg, v, v + |line|, v + |line| + |cfg.nl|, line, rest);
  }

  lemma LineValue(t: string, cfg: Config, v: nat, e: nat, next: nat, line: string, rest: string)
    requires t != "" && v == 1 + Span(t[1..], NotBlank) && e == v + Span(t[v..], NewLine) && next == e + NewLineLen(t[e..])
    requires t[v..e] == line == TrimRight(line) && t[next..] == rest
    ensures var r := ReadBlock(rest, line[if |line| < 3 then 0 else 3..], cfg);
            ReadValue(t, cfg) ==
            if cfg.multiLine && IsMultiLineTag(line) then Value(r.found, next + r.used) else Value(Text(line), next)
  {
    hide Span, TrimRight, NewLineLen, ReadBlock, ReadValue, ScanBlock;
    ValueUnfold(t, cfg, v, e, next);
  }

  lemma Cut(front: string, back: string)
    ensures (front + back)[..|front|] == front && (front + back)[|front|..] == back
  {
  }

  lemma TailOfTail(t: string, v: nat, below: string, e: nat, n: nat)
    requires v <= |t| && t[v..] == below && e <= n <= |below|
    ensures t[v..v + e] == below[..e] && t[v + e..] == below[e..] && t[v + n..] == below[n..]
  {
  }

  /** What the parser takes from one line never needs the multi-line form. */
  lemma LineValueIsPlain(t: string, cfg: Config)
    requires t != "" && !cfg.multiLine
    ensures var r := ReadValue(t, cfg); r.found.Text? && !IsMultiLineData(r.found.value)
  {
    hide NewLineLen, ReadValue, TrimRight, Span, IsMultiLineData;
    var v := 1 + Span(t[1..], NotBlank);
    var e := v + Span(t[v..], NewLine);
    ValueUnfold(t, cfg, v, e, e + NewLineLen(t[e..]));
    assert v < |t| ==> t[1..][v - 1] == t[v];
    assert t[v..e] == t[v..][..e - v];
    StrippedIsPlain(t[v..], e - v);
  }

  lemma StrippedIsPlain(s: string, e: nat)
    requires e <= |s| && (s != "" ==> Stops(NotBlank, s[0])) && forall i | 0 <= i < e :: !IsNewLineChar(s[i])
    ensures !IsMultiLineData(TrimRight(s[..e]))
  {
    hide TrimRight;
  }

  /** A multi-line value between its tags. */
  lemma BlockReadBack(value: string, rest: string, cfg: Config)
    requires cfg.Valid() && cfg.multiLine && IsMultiLineData(value)
    ensures var r := ReadValue("=" + (Gap(cfg) + (PrintValue(value, cfg) + cfg.nl + rest)), cfg);
            var printed := 1 + |Gap(cfg)| + |PrintValue(value, cfg)| + |cfg.nl|;
            if BlockText(value, TAG, cfg.caseSensitive) then r == Value(Text(value), printed) else r.found != Text(value)
  {
    hide ReadValue, PrintText, BlockText, ScanBlock, Span;
    var open := "<<<" + TAG;
    var block := PrintText(value, cfg.nl) + TAG + cfg.nl + rest;
    assert PrintValue(value, cfg) + cfg.nl + rest == open + cfg.nl + block;
    OpensBlock(open);
    LineReadBack(open, block, cfg);
    MultiLineRoundTrip(value, TAG, cfg.caseSensitive, cfg.nl, rest);
  }

  lemma OpensBlock(open: string)
    requires open == "<<<" + TAG
    ensures IsMultiLineTag(open) && !IsMultiLineData(open) && open[3..] == TAG && OneLine(TAG)
  {
  }

  lemma PairText(key: string, gap: string, value: string, nl: string, rest: string)
    ensures (key + gap + "=" + gap + value + nl) + rest == key + gap + ("=" + (gap + (value + nl + rest)))
  {
  }

  /** A printed pair, seen by the parser. */
  lemma PairStep(pair: KeyValue, rest: string, cfg: Config)
    requires PrintableKey(pair.key)
    ensures Next(PrintPair(pair, cfg) + rest, cfg)
            == KeyStep(pair.key, |pair.key| + |Gap(cfg)|, ReadValue("=" + (Gap(cfg) + (PrintValue(pair.value, cfg) + cfg.nl + rest)), cfg))
  {
    hide ReadValue, Next, KeyStep, PrintableKey, Gap, PrintValue;
    PairText(pair.key, Gap(cfg), PrintValue(pair.value, cfg), cfg.nl, rest);
    KeyReadBack(pair.key, Gap(cfg) + (PrintValue(pair.value, cfg) + cfg.nl + rest), cfg);
  }

  /** A printable pair is read back, whatever follows it. */
  lemma PairReadBack(pair: KeyValue, rest: string, cfg: Config)
    requires cfg.Valid() && PrintableKey(pair.key) && PrintableValue(pair.value, cfg)
    ensures Next(PrintPair(pair, cfg) + rest, cfg) == Step(Pair(pair.key, pair.value), |PrintPair(pair, cfg)|, None)
  {
    hide IsMultiLineData, ReadValue, PrintText, BlockText, Next, IsMultiLineTag, PrintableKey;
    PairStep(pair, rest, cfg);
    if IsMultiLineData(pair.value) {
      BlockReadBack(pair.value, rest, cfg);
    } else {
      LineReadBack(pair.value, rest, cfg);
    }
  }

  /** A value that is not printable is not read back at the end of the file. */
  lemma UnprintableIsLost(pair: KeyValue, cfg: Config)
    requires cfg.Valid() && PrintableKey(pair.key) && !PrintableValue(pair.value, cfg)
    ensures Next(PrintPair(pair, cfg) + "", cfg).token != Pair(pair.key, pair.value)
  {
    hide IsMultiLineData, ReadValue, PrintText, BlockText, Next, PrintableKey, ReadBlock;
    PairStep(pair, "", cfg);
    if !IsMultiLineData(pair.value) {
      LineReadBack(pair.value, "", cfg);
      NothingBelow(pair.value[3..], cfg);
    } else if cfg.multiLine {
      BlockReadBack(pair.value, "", cfg);
    } else {
      LineValueIsPlain("=" + (Gap(cfg) + (PrintValue(pair.value, cfg) + cfg.nl + "")), cfg);
    }
  }

  /** A printed pair is read back, whatever follows it, if and only if its value is
      printable: with multi-line values enabled, a plain value that does not begin with
      "<<<", or a text without '\r' and without a line comparing equal to the tag; with
      them disabled, a plain value. */
  lemma PairReadBackIff(pair: KeyValue, cfg: Config)
    requires cfg.Valid() && PrintableKey(pair.key)
    ensures PrintableValue(pair.value, cfg) <==>
            forall rest :: Next(PrintPair(pair, cfg) + rest, cfg).token == Pair(pair.key, pair.value)
  {
    hide *;
    if PrintableValue(pair.value, cfg) {
      forall rest ensures Next(PrintPair(pair, cfg) + rest, cfg).token == Pair(pair.key, pair.value) {
        PairReadBack(pair, rest, cfg);
      }
    } else {
      UnprintableIsLost(pair, cfg);
    }
  }

  lemma NothingBelow(tag: string, cfg: Config)
    ensures var r := ReadBlock("", tag, cfg); r.found == NoLine || r.found == Text("")
  {
    hide Same;
  }
}
