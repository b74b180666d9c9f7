/** Saving a document and loading it again. */
module IniRoundTrip {
  import opened Common
  import opened IniText
  import opened IniBuffer
  import opened IniParse
  import opened IniLoad
  import opened IniPrint

  predicate PrintableName(name: string) {
    && name != "" && !IsSpace(name[0]) && !IsSpace(name[|name| - 1])
    && forall i | 0 <= i < |name| :: !Stops(BracketOrNewLine, name[i])
  }

  predicate PrintablePairs(pairs: seq<KeyValue>, cfg: Config) {
    forall i | 0 <= i < |pairs| :: PrintableKey(pairs[i].key) && PrintableValue(pairs[i].value, cfg)
  }

  /** Only the first section may be without a name. */
  predicate PrintableDoc(doc: seq<SectionText>, cfg: Config) {
    forall i | 0 <= i < |doc| ::
      && ((i == 0 && doc[i].name == "") || PrintableName(doc[i].name))
      && PrintablePairs(doc[i].pairs, cfg)
  }

  // ----- the entries of a document ----------------------------------------------------

  function PairItems(pairs: seq<KeyValue>, name: string): seq<Item> {
    seq(|pairs|, i requires 0 <= i < |pairs| => Item(Named(name), Pair(pairs[i].key, pairs[i].value)))
  }

  function HeaderItems(name: string): seq<Item> {
    if name == "" then [] else [Item(Named(name), Header(name))]
  }

  /** The entries of a document: each section's header, then its pairs. */
  function DocItems(doc: seq<SectionText>): seq<Item> {
    if doc == [] then []
    else HeaderItems(doc[0].name) + PairItems(doc[0].pairs, doc[0].name) + DocItems(doc[1..])
  }

  // ----- reading back -----------------------------------------------------------------

  lemma ItemsStep(front: string, rest: string, token: Token, cfg: Config, section: SectionName)
    requires Next(front + rest, cfg) == Step(token, |front|, None) && (token.Pair? || token.Header?)
    ensures var here := SectionOf(Step(token, |front|, None), section);
            Items(front + rest, cfg, section) == [Item(here, token)] + Items(rest, cfg, here)
  {
    hide Next, SectionOf;
    Cut(front, rest);
  }

  lemma {:induction false} PairsReadBack(pairs: seq<KeyValue>, rest: string, cfg: Config, name: string)
    requires cfg.Valid() && PrintablePairs(pairs, cfg)
    ensures Items(PrintPairs(pairs, cfg) + rest, cfg, Named(name)) == PairItems(pairs, name) + Items(rest, cfg, Named(name))
  {
    hide Items, PrintPair, Next, PrintableKey, PrintableValue;
    if pairs == [] {
      assert PrintPairs(pairs, cfg) + rest == rest;
      assert PairItems(pairs, name) + Items(rest, cfg, Named(name)) == Items(rest, cfg, Named(name));
    } else {
      var tail := PrintPairs(pairs[1..], cfg) + rest;
      assert PrintPairs(pairs, cfg) + rest == PrintPair(pairs[0], cfg) + tail;
      PairReadBack(pairs[0], tail, cfg);
      ItemsStep(PrintPair(pairs[0], cfg), tail, Pair(pairs[0].key, pairs[0].value), cfg, Named(name));
      PairsReadBack(pairs[1..], rest, cfg, name);
      assert PairItems(pairs, name) == [Item(Named(name), Pair(pairs[0].key, pairs[0].value))] + PairItems(pairs[1..], name);
    }
  }

  lemma HeaderStep(name: string, rest: string, cfg: Config)
    requires PrintableName(name) && (rest == "" || IsNewLineChar(rest[0]))
    ensures Next("[" + name + "]" + rest, cfg) == Step(Header(name), |"[" + name + "]"|, None)
  {
    hide Span, TrimRight, Next, NextAt, CommentUsed;
    var s := "[" + name + "]" + rest;
    var p := 1 + |name|;
    SpanIs(s, NotSpace, 0);
    NextUnfold(s, 0, cfg);
    assert s[0..] == s && s[1..] == name + "]" + rest && s[p + 1..] == rest;
    SpanIs(s[1..], NotSpace, 0);
    SpanIs(s[1..], BracketOrNewLine, |name|);
    SpanIs(rest, NewLine, 0);
    assert s[1..p] == name;
    TrimsBlanks(name, "");
    assert name + "" == name;
    HeaderUnfold(s, 1, p, cfg);
  }

  /** White space between entries is skipped. */
  lemma BlanksSkipped(blanks: string, rest: string, cfg: Config, section: SectionName)
    requires forall i | 0 <= i < |blanks| :: IsSpace(blanks[i])
    ensures Items(blanks + rest, cfg, section) == Items(rest, cfg, section)
  {
    hide Span, NextAt, Next;
    var s := blanks + rest;
    var b := Span(rest, NotSpace);
    SpanOfBlanks(blanks, rest);
    NextUnfold(rest, b, cfg);
    NextUnfold(s, |blanks| + b, cfg);
    assert s[|blanks| + b..] == rest[b..];
    var n := Next(rest, cfg).used;
    assert s[|blanks| + n..] == rest[n..];
  }

  lemma SpanOfBlanks(blanks: string, rest: string)
    requires forall i | 0 <= i < |blanks| :: IsSpace(blanks[i])
    ensures Span(blanks + rest, NotSpace) == |blanks| + Span(rest, NotSpace)
  {
    hide Span;
    SpanIs(blanks + rest, NotSpace, |blanks| + Span(rest, NotSpace));
  }

  lemma HeaderReadBack(name: string, rest: string, cfg: Config, section: SectionName)
    requires cfg.Valid() && (PrintableName(name) || (name == "" && section == Named("")))
    ensures Items(PrintHeader(name, cfg) + rest, cfg, section) == HeaderItems(name) + Items(rest, cfg, Named(name))
  {
    hide Items, Next;
    if name == "" {
      assert PrintHeader(name, cfg) + rest == rest;
      assert HeaderItems(name) + Items(rest, cfg, Named(name)) == Items(rest, cfg, Named(name));
    } else {
      var front := "[" + name + "]";
      assert PrintHeader(name, cfg) + rest == front + (cfg.nl + rest);
      HeaderStep(name, cfg.nl + rest, cfg);
      ItemsStep(front, cfg.nl + rest, Header(name), cfg, section);
      BlanksSkipped(cfg.nl, rest, cfg, Named(name));
    }
  }

  lemma SectionReadBack(section: SectionText, rest: string, cfg: Config, before: SectionName)
    requires cfg.Valid() && PrintablePairs(section.pairs, cfg)
    requires PrintableName(section.name) || (section.name == "" && before == Named(""))
    ensures Items(PrintHeader(section.name, cfg) + PrintPairs(section.pairs, cfg) + rest, cfg, before)
            == HeaderItems(section.name) + PairItems(section.pairs, section.name) + Items(rest, cfg, Named(section.name))
  {
    hide *;
    var header, pairs := PrintHeader(section.name, cfg), PrintPairs(section.pairs, cfg);
    assert header + pairs + rest == header + (pairs + rest);
    HeaderReadBack(section.name, pairs + rest, cfg, before);
    PairsReadBack(section.pairs, rest, cfg, section.name);
    assert HeaderItems(section.name) + (PairItems(section.pairs, section.name) + Items(rest, cfg, Named(section.name)))
        == HeaderItems(section.name) + PairItems(section.pairs, section.name) + Items(rest, cfg, Named(section.name));
  }

  lemma NothingToRead(cfg: Config, section: SectionName)
    ensures Items("", cfg, section) == []
  {
  }

  /** A printed document is read back entry by entry. */
  lemma {:induction false} DocReadBack(doc: seq<SectionText>, cfg: Config, before: SectionName)
    requires cfg.Valid() && PrintableDoc(doc, cfg) && (doc != [] && doc[0].name == "" ==> before == Named(""))
    ensures Items(PrintDoc(doc, cfg), cfg, before) == DocItems(doc)
  {
    hide Items, PrintHeader, PrintPairs, PrintableName, PrintablePairs, HeaderItems, PairItems;
    NothingToRead(cfg, before);
    if doc != [] {
      var here := PrintHeader(doc[0].name, cfg) + PrintPairs(doc[0].pairs, cfg);
      var name := Named(doc[0].name);
      if |doc| == 1 {
        assert here + "" == here;
        SectionReadBack(doc[0], "", cfg, before);
        NothingToRead(cfg, name);
        assert DocItems(doc[1..]) == [];
      } else {
        var rest := cfg.nl + cfg.nl + PrintDoc(doc[1..], cfg);
        assert PrintDoc(doc, cfg) == here + rest;
        SectionReadBack(doc[0], rest, cfg, before);
        BlanksSkipped(cfg.nl + cfg.nl, PrintDoc(doc[1..], cfg), cfg, name);
        NamesAreNotEmpty(doc, 1, cfg);
        DocReadBack(doc[1..], cfg, name);
      }
    }
  }

  lemma NamesAreNotEmpty(doc: seq<SectionText>, i: nat, cfg: Config)
    requires PrintableDoc(doc, cfg) && 0 < i < |doc|
    ensures doc[i].name != ""
  {
  }

  /** A printed document does not begin with a comment. */
  lemma NoFileComment(doc: seq<SectionText>, cfg: Config)
    requires cfg.Valid() && PrintableDoc(doc, cfg)
    ensures CommentUsed(PrintDoc(doc, cfg), false) == 0
  {
    hide PrintableName, PrintableValue, PrintValue, Span, NewLineLen;
    if doc != [] && doc[0].name == "" && doc[0].pairs != [] {
      var pair := doc[0].pairs[0];
      assert PrintableKey(pair.key);
      assert PrintPairs(doc[0].pairs, cfg)[0] == pair.key[0];
      assert PrintDoc(doc, cfg)[0] == pair.key[0];
    }
  }

  // ----- the program ------------------------------------------------------------------

  lemma Assoc(a: string, b: string, c: string)
    ensures (a + b) + c == a + (b + c)
  {
  }

  /** Writes a text line by line, each line ended by the platform's newline. */
  method OutputMultiLineText(text: string, cfg: Config) returns (out: string)
    ensures out == PrintText(text, cfg.nl)
  {
    hide SplitLines, PrintLines;
    out := "";
    var at := 0;
    var more := text != "";
    assert text[0..] == text && forall s: string :: "" + s == s;
    while more
      invariant at <= |text|
      invariant more ==> PrintText(text, cfg.nl) == out + PrintLines(SplitLines(text[at..]), cfg.nl)
      invariant !more ==> PrintText(text, cfg.nl) == out
      decreases |text| - at, more
    {
      var e := at;
      while e < |text| && text[e] != '\n'
        invariant at <= e <= |text|
        invariant forall i | at <= i < e :: text[i] != '\n'
      {
        e := e + 1;
      }
      LineOfText(text, at, e, out, cfg.nl);
      out := out + (text[at..e] + cfg.nl);
      more := e < |text|;
      at := if more then e + 1 else at;
    }
  }

  lemma LineOfText(text: string, at: nat, e: nat, out: string, nl: string)
    requires at <= e <= |text| && (forall i | at <= i < e :: text[i] != '\n') && (e < |text| ==> text[e] == '\n')
    ensures out + PrintLines(SplitLines(text[at..]), nl) ==
            if e == |text| then out + (text[at..e] + nl) else out + (text[at..e] + nl) + PrintLines(SplitLines(text[e + 1..]), nl)
  {
    hide SplitLines, PrintLines;
    var s := text[at..];
    var line := text[at..e] + nl;
    SplitFirstLine(s, e - at);
    assert s[..e - at] == text[at..e];
    PrintLinesCons(SplitLines(s), nl);
    if e == |text| {
      PrintLinesNone(nl);
      assert line + "" == line;
    } else {
      assert s[e - at + 1..] == text[e + 1..];
      Assoc(out, line, PrintLines(SplitLines(text[e + 1..]), nl));
    }
  }

  lemma {:induction false} SplitFirstLine(s: string, e: nat)
    requires e <= |s| && (forall i | 0 <= i < e :: s[i] != '\n') && (e < |s| ==> s[e] == '\n')
    ensures SplitLines(s)[0] == s[..e]
    ensures SplitLines(s)[1..] == if e == |s| then [] else SplitLines(s[e + 1..])
  {
    if e > 0 {
      SplitFirstLine(s[1..], e - 1);
      assert s[1..][..e - 1] == s[1..e] && [s[0]] + s[1..e] == s[..e];
      assert e < |s| ==> s[1..][e..] == s[e + 1..];
    }
  }

  /** Writes a key and its value. */
  method SavePair(pair: KeyValue, cfg: Config) returns (out: string)
    ensures out == PrintPair(pair, cfg)
  {
    hide PrintText, IsMultiLineData;
    out := pair.key + (if cfg.spaces then " = " else "=");
    assert out == pair.key + Gap(cfg) + "=" + Gap(cfg);
    if cfg.multiLine && IsMultiLineData(pair.value) {
      var text := OutputMultiLineText(pair.value, cfg);
      out := out + ("<<<" + "END_OF_TEXT" + cfg.nl + text + "END_OF_TEXT");
    } else {
      out := out + pair.value;
    }
    out := out + cfg.nl;
  }

  /** Writes a section: its header, unless it has no name, then its keys with their values. */
  method SaveSection(section: SectionText, cfg: Config) returns (out: string)
    ensures out == PrintHeader(section.name, cfg) + PrintPairs(section.pairs, cfg)
  {
    hide PrintPair, PrintPairs;
    out := if section.name != "" then "[" + section.name + "]" + cfg.nl else "";
    ghost var header := out;
    assert section.pairs[0..] == section.pairs;
    for i := 0 to |section.pairs|
      invariant header + PrintPairs(section.pairs, cfg) == out + PrintPairs(section.pairs[i..], cfg)
    {
      var line := SavePair(section.pairs[i], cfg);
      PrintPairsFrom(section.pairs, i, cfg);
      Assoc(out, line, PrintPairs(section.pairs[i + 1..], cfg));
      out := out + line;
    }
    PrintPairsFrom(section.pairs, |section.pairs|, cfg);
  }

  lemma PrintPairsFrom(pairs: seq<KeyValue>, i: nat, cfg: Config)
    requires i <= |pairs|
    ensures PrintPairs(pairs[i..], cfg) == if i == |pairs| then "" else PrintPair(pairs[i], cfg) + PrintPairs(pairs[i + 1..], cfg)
  {
    hide PrintPair;
    assert i < |pairs| ==> pairs[i..][1..] == pairs[i + 1..];
  }

  /** What is still to be written before section i. */
  function StillToPrint(doc: seq<SectionText>, i: nat, cfg: Config): string
    requires i <= |doc|
  {
    if i == |doc| then "" else if i > 0 then (cfg.nl + cfg.nl) + PrintDoc(doc[i..], cfg) else PrintDoc(doc, cfg)
  }

  /** Writes the sections in the order given. */
  method Save(doc: seq<SectionText>, cfg: Config) returns (out: string)
    ensures out == PrintDoc(doc, cfg)
  {
    hide PrintPairs, PrintDoc, PrintHeader, StillToPrint;
    out := "";
    var needNewLine := false;
    BeforeAndAfter(doc, cfg);
    for i := 0 to |doc|
      invariant needNewLine == (i > 0)
      invariant PrintDoc(doc, cfg) == out + StillToPrint(doc, i, cfg)
    {
      ghost var before := out;
      if needNewLine {
        out := out + (cfg.nl + cfg.nl);
      }
      ghost var gap := out;
      var section := SaveSection(doc[i], cfg);
      out := out + section;
      needNewLine := true;
      SectionPrinted(doc, i, cfg, before, gap, section);
    }
  }

  lemma BeforeAndAfter(doc: seq<SectionText>, cfg: Config)
    ensures PrintDoc(doc, cfg) == "" + StillToPrint(doc, 0, cfg)
    ensures forall s: string :: s + StillToPrint(doc, |doc|, cfg) == s
  {
    assert forall s: string :: s + "" == s;
  }

  lemma SectionPrinted(doc: seq<SectionText>, i: nat, cfg: Config, before: string, gap: string, section: string)
    requires i < |doc| && gap == (if i > 0 then before + (cfg.nl + cfg.nl) else before)
    requires section == PrintHeader(doc[i].name, cfg) + PrintPairs(doc[i].pairs, cfg)
    ensures before + StillToPrint(doc, i, cfg) == gap + section + StillToPrint(doc, i + 1, cfg)
  {
    hide PrintPairs, PrintHeader;
    var after := StillToPrint(doc, i + 1, cfg);
    assert doc[0..] == doc;
    PrintDocFrom(doc, i, cfg, section);
    Assoc(gap, section, after);
    if i > 0 {
      Assoc(before, cfg.nl + cfg.nl, section + after);
    }
  }

  lemma PrintDocFrom(doc: seq<SectionText>, i: nat, cfg: Config, section: string)
    requires i < |doc| && section == PrintHeader(doc[i].name, cfg) + PrintPairs(doc[i].pairs, cfg)
    ensures PrintDoc(doc[i..], cfg) == section + StillToPrint(doc, i + 1, cfg)
  {
    hide PrintPairs, PrintHeader;
    var rest := doc[i..];
    assert rest[0] == doc[i] && rest[1..] == doc[i + 1..];
    if |rest| == 1 {
      assert section + "" == section;
    } else {
      assert section + cfg.nl + cfg.nl + PrintDoc(rest[1..], cfg) == section + ((cfg.nl + cfg.nl) + PrintDoc(rest[1..], cfg));
    }
  }

  predicate WithoutNul(s: string) {
    NUL !in s
  }

  /** The round trip in the program's terms: a document is saved, the text is put into a
      buffer, and the loading loop takes the buffer apart; the pointers it records lead
      to exactly the names, keys and values of the document, in the same order. */
  method SaveThenLoad(doc: seq<SectionText>, cfg: Config) returns (a: array<char>, records: seq<Record>)
    requires cfg.Valid() && PrintableDoc(doc, cfg) && WithoutNul(PrintDoc(doc, cfg))
    ensures a.Length == |PrintDoc(doc, cfg)| + 1
    ensures AllStand(a, records, DocItems(doc), |PrintDoc(doc, cfg)|, |PrintDoc(doc, cfg)|)
  {
    hide PrintDoc, PrintableDoc, Items, CommentUsed, Stands;
    var text := Save(doc, cfg);
    a := new char[|text| + 1](i requires 0 <= i <= |text| => if i < |text| then text[i] else NUL);
    assert a[..][..|text|] == text && text[0..] == text;
    NoFileComment(doc, cfg);
    DocReadBack(doc, cfg, Named(""));
    records := LoadData(a, cfg, |text|);
  }
}
