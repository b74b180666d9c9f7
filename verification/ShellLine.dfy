/** The shell's line parser: a line is split at '|', '<' and '>', each piece is trimmed in
    its buffer and becomes a program with its redirection and pipe flags. */
module ShellLine {

  import opened Common

  const BUFFER_SIZE: nat := 256

  datatype Program = Program(
    command: string, argument: string,
    redirectionIn: bool, redirectionOut: bool, pipeIn: bool, pipeOut: bool, file: bool,
    handle: Handle, pipeInHandle: Handle, pipeOutHandle: Handle,
    redirectionInHandle: Handle, redirectionOutHandle: Handle)

  predicate IsOp(c: char) {
    c == '|' || c == '<' || c == '>'
  }

  predicate IsLetter(c: char) {
    'A' <= c <= 'Z' || 'a' <= c <= 'z'
  }

  // ----- trimming ---------------------------------------------------------------------

  predicate Blank(s: string) {
    forall i | 0 <= i < |s| :: s[i] == ' '
  }

  /** Blanks at the front. */
  function Lead(s: string): (n: nat)
    ensures n <= |s| && forall i | 0 <= i < n :: s[i] == ' '
    ensures n < |s| ==> s[n] != ' '
  {
    if s != "" && s[0] == ' ' then 1 + Lead(s[1..]) else 0
  }

  function CutBlanks(s: string): (r: string) {
    s[Lead(s)..]
  }

  function DropBlanks(s: string): (r: string)
    ensures r <= s && Blank(s[|r|..])
    ensures r != "" ==> r[|r| - 1] != ' '
  {
    if s != "" && s[|s| - 1] == ' ' then DropBlanks(s[..|s| - 1]) else s
  }

  /** A C string in a buffer. */
  ghost predicate Holds(a: array<char>, s: string)
    reads a
  {
    && |s| < a.Length && a[|s|] == NUL
    && forall i | 0 <= i < |s| :: a[i] == s[i] && s[i] != NUL
  }

  /** Moves the string to the front of its buffer and clears the places it leaves. */
  method RemoveLeadingWhitespace(line: array<char>, ghost s: string)
    requires Holds(line, s)
    modifies line
    ensures Holds(line, CutBlanks(s))
    ensures forall i | |CutBlanks(s)| <= i <= |s| :: line[i] == NUL
    ensures forall i | |s| < i < line.Length :: line[i] == old(line[i])
  {
    var indexLine: nat, indexBuffer: nat := 0, 0;
    while line[indexLine] == ' '
      invariant indexLine <= |s|
      invariant forall i | 0 <= i < indexLine :: s[i] == ' '
      decreases |s| - indexLine
    {
      indexLine := indexLine + 1;
    }
    assert indexLine == Lead(s);
    ghost var skipped, trimmed := indexLine, s[indexLine..];
    while line[indexLine] != NUL
      invariant skipped <= indexLine <= |s| && indexBuffer == indexLine - skipped
      invariant forall i | 0 <= i < indexBuffer :: line[i] == trimmed[i]
      invariant forall i | indexLine <= i < line.Length :: line[i] == old(line[i])
      decreases |s| - indexLine
    {
      line[indexBuffer] := line[indexLine];
      indexLine := indexLine + 1;
      indexBuffer := indexBuffer + 1;
    }
    while indexBuffer < indexLine
      invariant |trimmed| <= indexBuffer <= indexLine == |s|
      invariant forall i | 0 <= i < |trimmed| :: line[i] == trimmed[i]
      invariant forall i | |trimmed| <= i < indexBuffer :: line[i] == NUL
      invariant forall i | indexLine <= i < line.Length :: line[i] == old(line[i])
    {
      line[indexBuffer] := NUL;
      indexBuffer := indexBuffer + 1;
    }
  }

  /** Clears the blanks at the end.  The loop has no lower bound of its own: it needs a
      character that is not blank to stop at. */
  method RemoveTrailingWhitespace(line: array<char>, ghost s: string)
    requires Holds(line, s) && !Blank(s)
    modifies line
    ensures Holds(line, DropBlanks(s))
    ensures forall i | |s| < i < line.Length :: line[i] == old(line[i])
  {
    var index: int := 0;
    while line[index] != NUL
      invariant 0 <= index <= |s|
      decreases |s| - index
    {
      index := index + 1;
    }
    index := index - 1;
    assert s[..index + 1] == s;
    while line[index] == ' '
      invariant -1 <= index < |s|
      invariant DropBlanks(s) == DropBlanks(s[..index + 1])
      invariant forall i | index < i < |s| :: s[i] == ' ' && line[i] == NUL
      invariant line[|s|] == NUL
      invariant forall i | 0 <= i <= index :: line[i] == s[i]
      invariant forall i | |s| < i < line.Length :: line[i] == old(line[i])
      invariant 0 <= index
      decreases index
    {
      assert s[..index + 1][..index] == s[..index];
      line[index] := NUL;
      index := index - 1;
      StillNotBlank(s, index);
    }
  }

  lemma StillNotBlank(s: string, index: int)
    requires -1 <= index < |s| && !Blank(s) && forall i | index < i < |s| :: s[i] == ' '
    ensures 0 <= index
  {
  }

  function Trim(s: string): (r: string) {
    DropBlanks(CutBlanks(s))
  }

  /** Trimming takes blanks off the ends and nothing else. */
  lemma TrimmedParts(s: string)
    requires !Blank(s)
    ensures var t, n := Trim(s), Lead(s);
            && n + |t| <= |s| && s[n..n + |t|] == t && Blank(s[..n]) && Blank(s[n + |t|..])
            && t != "" && t[0] != ' ' && t[|t| - 1] != ' '
  {
    hide DropBlanks, Lead;
    var left, t, n := CutBlanks(s), Trim(s), Lead(s);
    assert s[n + |t|..] == left[|t|..];
  }

  // ----- splitting --------------------------------------------------------------------

  /** A piece of the line and the operator that ends it, NUL at the end of the line. */
  datatype Piece = Piece(text: string, op: char)

  /** The next operator, or the end of the line. */
  function NextOp(line: string): (e: nat)
    ensures e <= |line| && forall i | 0 <= i < e :: !IsOp(line[i])
    ensures e < |line| ==> IsOp(line[e])
  {
    if line == "" || IsOp(line[0]) then 0 else 1 + NextOp(line[1..])
  }

  lemma NextOpIs(line: string, e: nat)
    requires e <= |line| && (forall i | 0 <= i < e :: !IsOp(line[i])) && (e < |line| ==> IsOp(line[e]))
    ensures NextOp(line) == e
  {
  }

  function Pieces(line: string): seq<Piece>
    decreases |line|
  {
    if line == "" then []
    else
      var e := NextOp(line);
      if e == |line| then [Piece(line, NUL)] else [Piece(line[..e], line[e])] + Pieces(line[e + 1..])
  }

  function Glue(pieces: seq<Piece>): string {
    if pieces == [] then ""
    else pieces[0].text + (if pieces[0].op == NUL then "" else [pieces[0].op]) + Glue(pieces[1..])
  }

  predicate ProperPiece(piece: Piece, last: bool) {
    && (forall i | 0 <= i < |piece.text| :: !IsOp(piece.text[i]))
    && (IsOp(piece.op) || (piece.op == NUL && last && piece.text != ""))
  }

  /** Pieces hold no operator and each is ended by one; only the last may instead end
      with the line, and then it is not empty. */
  predicate ProperPieces(pieces: seq<Piece>) {
    forall k | 0 <= k < |pieces| :: ProperPiece(pieces[k], k == |pieces| - 1)
  }

  /** A line is split at every '|', '<' and '>'. */
  lemma SplitsAt(text: string, op: char, rest: string)
    requires forall i | 0 <= i < |text| :: text[i] != '|' && text[i] != '<' && text[i] != '>'
    requires op == '|' || op == '<' || op == '>'
    ensures Pieces(text + [op] + rest) == [Piece(text, op)] + Pieces(rest)
    ensures text != "" ==> Pieces(text) == [Piece(text, NUL)]
  {
    var line := text + [op] + rest;
    NextOpIs(line, |text|);
    NextOpIs(text, |text|);
    assert line[..|text|] == text && line[|text| + 1..] == rest;
  }

  /** Splitting loses nothing. */
  lemma {:induction false} GluedPieces(line: string)
    ensures ProperPieces(Pieces(line)) && Glue(Pieces(line)) == line
    decreases |line|
  {
    hide ProperPiece, Glue, Pieces;
    GlueNone();
    PiecesStep(line);
    if line != "" {
      var e := NextOp(line);
      PieceIsProper(line, e);
      if e == |line| {
        GlueCons(Piece(line, NUL), []);
        assert [Piece(line, NUL)] + [] == [Piece(line, NUL)];
      } else {
        GluedPieces(line[e + 1..]);
        GlueCons(Piece(line[..e], line[e]), Pieces(line[e + 1..]));
        assert line == line[..e] + [line[e]] + line[e + 1..];
      }
    }
  }

  lemma PiecesStep(line: string)
    ensures var e := NextOp(line);
            Pieces(line) == if line == "" then [] else if e == |line| then [Piece(line, NUL)]
                            else [Piece(line[..e], line[e])] + Pieces(line[e + 1..])
  {
    hide NextOp;
  }

  lemma PieceIsProper(line: string, e: nat)
    requires e == NextOp(line) && line != ""
    ensures ProperPiece(Piece(line[..e], if e == |line| then NUL else line[e]), true)
    ensures e < |line| ==> ProperPiece(Piece(line[..e], line[e]), false)
    ensures line[..|line|] == line
  {
  }

  lemma GlueNone()
    ensures Glue([]) == "" && forall s: string :: s + "" == s
  {
  }

  lemma GlueCons(first: Piece, rest: seq<Piece>)
    ensures Glue([first] + rest) == first.text + (if first.op == NUL then "" else [first.op]) + Glue(rest)
  {
    assert ([first] + rest)[1..] == rest;
  }

  /** And it is the only way to split a line: proper pieces are found again. */
  lemma {:induction false} PiecesOfGlued(pieces: seq<Piece>)
    requires ProperPieces(pieces)
    ensures Pieces(Glue(pieces)) == pieces
  {
    hide ProperPiece, Glue;
    GlueNone();
    if pieces != [] {
      var first, rest := pieces[0], pieces[1..];
      assert pieces == [first] + rest;
      assert ProperPieces(rest);
      PiecesOfGlued(rest);
      GlueCons(first, rest);
      assert ProperPiece(first, rest == []);
      FirstPiece(first, Glue(rest), rest == []);
    }
  }

  /** The first piece of a glued line. */
  lemma FirstPiece(first: Piece, rest: string, last: bool)
    requires ProperPiece(first, last) && (last ==> rest == "")
    ensures Pieces(first.text + (if first.op == NUL then "" else [first.op]) + rest) == [first] + Pieces(rest)
  {
    if first.op == NUL {
      assert first.text + "" + rest == first.text;
      NextOpIs(first.text, |first.text|);
    } else {
      var line := first.text + [first.op] + rest;
      NextOpIs(line, |first.text|);
      assert line[..|first.text|] == first.text && line[|first.text| + 1..] == rest;
    }
  }

  function OpsIn(line: string): (n: nat) {
    if line == "" then 0 else (if IsOp(line[0]) then 1 else 0) + OpsIn(line[1..])
  }

  predicate EndsWithOp(line: string) {
    line != "" && IsOp(line[|line| - 1])
  }

  /** Number of programs: the operators and one more, unless nothing follows the last
      operator. */
  lemma {:induction false} PieceCount(line: string)
    ensures |Pieces(line)| == OpsIn(line) + 1 - (if line == "" || EndsWithOp(line) then 1 else 0)
    decreases |line|
  {
    var e := NextOp(line);
    if line != "" {
      OpsBefore(line, e);
      if e < |line| {
        PieceCount(line[e + 1..]);
      }
    }
  }

  lemma {:induction false} OpsBefore(line: string, e: nat)
    requires e <= |line| && forall i | 0 <= i < e :: !IsOp(line[i])
    ensures OpsIn(line) == OpsIn(line[e..])
    ensures e < |line| && IsOp(line[e]) ==> OpsIn(line) == 1 + OpsIn(line[e + 1..])
  {
    if e == 0 {
      assert line[0..] == line;
    } else {
      OpsBefore(line[1..], e - 1);
      assert line[1..][e - 1..] == line[e..];
      assert e < |line| ==> line[1..][e..] == line[e + 1..];
    }
  }

  /** Counts the commands of a line. */
  method CountCommands(line: string) returns (count: nat)
    ensures count == OpsIn(line) + 1
    ensures |Pieces(line)| == count - (if line == "" || EndsWithOp(line) then 1 else 0)
  {
    count := 1;
    var index := 0;
    assert line[0..] == line;
    while index < |line|
      invariant index <= |line|
      invariant OpsIn(line) + 1 == count + OpsIn(line[index..])
    {
      assert line[index..][1..] == line[index + 1..];
      if IsOp(line[index]) {
        count := count + 1;
      }
      index := index + 1;
    }
    PieceCount(line);
  }

  // ----- commands ---------------------------------------------------------------------

  function Letters(s: string): (n: nat)
    ensures n <= |s| && forall i | 0 <= i < n :: IsLetter(s[i])
    ensures n < |s| ==> !IsLetter(s[n])
  {
    if s != "" && IsLetter(s[0]) then 1 + Letters(s[1..]) else 0
  }

  const NO_PROGRAM := Program("", "", false, false, false, false, false,
                              INVALID_HANDLE, INVALID_HANDLE, INVALID_HANDLE, INVALID_HANDLE, INVALID_HANDLE)

  /** The program of a piece between two operators. */
  function ProgramOf(text: string, left: char, right: char): Program {
    var t := Trim(text);
    var file := left == '<' || left == '>';
    NO_PROGRAM.(
      command := if file then t else t[..Letters(t)],
      argument := if file then "" else CutBlanks(t[Letters(t)..]),
      redirectionIn := file || right == '<', redirectionOut := right == '>',
      pipeIn := left == '|', pipeOut := right == '|', file := file)
  }

  /** The letters of the two cases, by their codes. */
  predicate IsAlpha(code: int) {
    65 <= code <= 90 || 97 <= code <= 122
  }

  /** Nothing of a command is lost but blanks: all letters at its front, then its argument. */
  lemma CommandKeepsText(text: string, left: char, right: char)
    requires !Blank(text)
    ensures var p, t := ProgramOf(text, left, right), Trim(text);
            if p.file then p.command == t
            else
              && |p.command| + |p.argument| <= |t|
              && t[..|p.command|] == p.command && t[|t| - |p.argument|..] == p.argument
              && (forall i | 0 <= i < |p.command| :: IsAlpha(t[i] as int))
              && (|p.command| < |t| ==> !IsAlpha(t[|p.command|] as int))
              && Blank(t[|p.command|..|t| - |p.argument|])
              && (p.argument != "" ==> p.argument[0] != ' ' && p.argument[|p.argument| - 1] != ' ')
  {
    hide DropBlanks, CutBlanks, Letters;
    TrimmedParts(text);
    SuffixTrimmed(Trim(text), Letters(Trim(text)));
  }

  lemma SuffixTrimmed(t: string, n: nat)
    requires n <= |t|
    ensures var a := CutBlanks(t[n..]);
            && n + |a| <= |t| && t[|t| - |a|..] == a && Blank(t[n..|t| - |a|])
            && (a != "" ==> a[0] != ' ' && a[|a| - 1] == t[|t| - 1])
  {
    var s := t[n..];
    assert t[n + Lead(s)..] == s[Lead(s)..];
    assert forall i | n <= i < n + Lead(s) :: t[i] == s[i - n];
  }

  /** Copies the string out of its buffer. */
  method ReadString(a: array<char>, ghost s: string) returns (r: string)
    requires Holds(a, s)
    ensures r == s
  {
    var n := 0;
    while a[n] != NUL
      invariant n <= |s|
      decreases |s| - n
    {
      n := n + 1;
    }
    r := a[..n];
  }

  /** Copies the letters at the front of the command. */
  method TakeLetters(command: array<char>, ghost t: string) returns (index: nat, name: string)
    requires Holds(command, t) && |t| < BUFFER_SIZE
    ensures index == Letters(t) && name == t[..index]
  {
    var commandResult := new char[BUFFER_SIZE](_ => NUL);
    index := 0;
    while IsLetter(command[index])
      invariant index <= |t|
      invariant forall i | 0 <= i < index :: IsLetter(t[i]) && commandResult[i] == t[i]
      decreases |t| - index
    {
      commandResult[index] := command[index];
      index := index + 1;
    }
    LettersAre(t, index);
    commandResult[index] := NUL;
    name := ReadString(commandResult, t[..index]);
  }

  /** Copies what follows the letters, without its leading blanks. */
  method TakeArgument(command: array<char>, n: nat, ghost t: string) returns (argument: string)
    requires Holds(command, t) && |t| < BUFFER_SIZE && n <= |t|
    ensures argument == CutBlanks(t[n..])
  {
    var argumentResult := new char[BUFFER_SIZE](_ => NUL);
    var index, indexArg := n, 0;
    while command[index] != NUL
      invariant n <= index <= |t| && indexArg == index - n
      invariant forall i | 0 <= i < indexArg :: argumentResult[i] == t[n + i]
      decreases |t| - index
    {
      argumentResult[indexArg] := command[index];
      index := index + 1;
      indexArg := indexArg + 1;
    }
    argumentResult[indexArg] := NUL;
    RemoveLeadingWhitespace(argumentResult, t[n..]);
    argument := ReadString(argumentResult, CutBlanks(t[n..]));
  }

  lemma LettersAre(t: string, n: nat)
    requires n <= |t| && (forall i | 0 <= i < n :: IsLetter(t[i])) && (n < |t| ==> !IsLetter(t[n]))
    ensures Letters(t) == n
  {
  }

  /** Trims a command in its buffer. */
  method RemoveWhitespace(command: array<char>, ghost s: string)
    requires Holds(command, s) && !Blank(s)
    modifies command
    ensures Holds(command, Trim(s))
  {
    RemoveLeadingWhitespace(command, s);
    TrimmedParts(s);
    assert CutBlanks(s)[0] != ' ';
    RemoveTrailingWhitespace(command, CutBlanks(s));
  }

  /** Turns one piece into a program; the piece is trimmed in its buffer. */
  method ProcessCommand(command: array<char>, left: char, right: char, ghost s: string) returns (p: Program)
    requires Holds(command, s) && !Blank(s) && |s| < BUFFER_SIZE
    modifies command
    ensures p == ProgramOf(s, left, right)
  {
    hide DropBlanks, CutBlanks, Letters;
    TrimmedParts(s);
    RemoveWhitespace(command, s);
    p := NO_PROGRAM;
    if left == '|' {
      p := p.(pipeIn := true);
    }
    if right == '|' {
      p := p.(pipeOut := true);
    }
    if right == '<' {
      p := p.(redirectionIn := true);
    }
    if right == '>' {
      p := p.(redirectionOut := true);
    }
    if left == '>' {
      var whole := ReadString(command, Trim(s));
      return p.(redirectionIn := true, command := whole, file := true);
    }
    if left == '<' {
      var whole := ReadString(command, Trim(s));
      return p.(redirectionIn := true, command := whole, file := true);
    }
    var n, name := TakeLetters(command, Trim(s));
    p := p.(command := name);
    var argument := TakeArgument(command, n, Trim(s));
    p := p.(argument := argument);
  }

  // ----- the line ---------------------------------------------------------------------

  function LeftOp(pieces: seq<Piece>, i: nat): char
    requires i <= |pieces|
  {
    if i == 0 then NUL else pieces[i - 1].op
  }

  function ProgramsOf(pieces: seq<Piece>): seq<Program> {
    seq(|pieces|, i requires 0 <= i < |pieces| => ProgramOf(pieces[i].text, LeftOp(pieces, i), pieces[i].op))
  }

  /** What the parser can take: no piece is blank or longer than its buffer. */
  predicate Acceptable(pieces: seq<Piece>) {
    forall i | 0 <= i < |pieces| :: !Blank(pieces[i].text) && |pieces[i].text| < BUFFER_SIZE
  }

  method FindPipeOrRedirect(index: nat, line: string) returns (e: nat)
    requires index <= |line|
    ensures e == index + NextOp(line[index..])
  {
    e := index;
    while e < |line|
      invariant index <= e <= |line|
      invariant forall i | index <= i < e :: !IsOp(line[i])
    {
      if IsOp(line[e]) {
        break;
      }
      e := e + 1;
    }
    NextOpIs(line[index..], e - index);
  }

  /** Splits a line into programs. */
  method ProcessLine(line: string) returns (programs: seq<Program>)
    requires NUL !in line && Acceptable(Pieces(line))
    ensures programs == ProgramsOf(Pieces(line))
  {
    hide NextOp, Pieces, ProgramOf, Blank;
    var indexLine := 0;
    var left, right := NUL, NUL;
    var command := new char[BUFFER_SIZE](_ => NUL);
    programs := [];
    ghost var done: seq<Piece> := [];
    assert line[0..] == line && [] + Pieces(line) == Pieces(line);
    while indexLine < |line|
      invariant indexLine <= |line| && (indexLine == 0 <==> done == [])
      invariant Pieces(line) == done + Pieces(line[indexLine..])
      invariant right == LeftOp(done, |done|)
      invariant programs == ProgramsOf(done)
    {
      left := if indexLine == 0 then NUL else right;
      var e := FindPipeOrRedirect(indexLine, line);
      ghost var piece := PieceAt(line, indexLine, e);
      NextPiece(line, indexLine, e, done);
      var indexCmd := 0;
      ghost var start := indexLine;
      while indexLine < e
        invariant start <= indexLine <= e && indexCmd == indexLine - start
        invariant forall i | 0 <= i < indexCmd :: command[i] == piece.text[i]
      {
        command[indexCmd] := line[indexLine];
        indexCmd := indexCmd + 1;
        indexLine := indexLine + 1;
      }
      command[indexCmd] := NUL;
      if indexLine < |line| {
        right := line[indexLine];
        indexLine := indexLine + 1;
      } else {
        right := NUL;
      }
      var program := ProcessCommand(command, left, right, piece.text);
      programs := programs + [program];
      ProgramsGrow(done, piece);
      done := done + [piece];
    }
    PiecesStep(line[indexLine..]);
  }

  function PieceAt(line: string, from: nat, e: nat): Piece
    requires from <= e <= |line|
  {
    Piece(line[from..e], if e == |line| then NUL else line[e])
  }

  lemma NextPiece(line: string, from: nat, e: nat, done: seq<Piece>)
    requires from < |line| && e == from + NextOp(line[from..]) && Pieces(line) == done + Pieces(line[from..])
    requires Acceptable(Pieces(line))
    ensures var piece := PieceAt(line, from, e);
            && Pieces(line) == done + [piece] + Pieces(line[if e == |line| then e else e + 1..])
            && !Blank(piece.text) && |piece.text| < BUFFER_SIZE
  {
    hide NextOp, Pieces, Blank;
    var rest := line[from..];
    var piece := PieceAt(line, from, e);
    PiecesStep(rest);
    PiecesStep("");
    assert rest[..e - from] == piece.text;
    if e < |line| {
      assert rest[e - from + 1..] == line[e + 1..];
    } else {
      assert line[e..] == "" && rest == piece.text;
    }
    assert Pieces(line)[|done|] == piece;
  }

  lemma ProgramsGrow(done: seq<Piece>, piece: Piece)
    ensures ProgramsOf(done + [piece]) == ProgramsOf(done) + [ProgramOf(piece.text, LeftOp(done, |done|), piece.op)]
  {
    hide ProgramOf;
  }

  // ----- neighbours -------------------------------------------------------------------

  predicate Fresh(p: Program) {
    p.handle == p.pipeInHandle == p.pipeOutHandle == p.redirectionInHandle == p.redirectionOutHandle == INVALID_HANDLE
  }

  /** Between neighbours stands one operator, and both know it: a pipe out of the one is a
      pipe into the other, otherwise the other is a file; the one the operator follows
      carries its flag, a file always the flag for input as well. */
  predicate Neighbours(p: Program, q: Program) {
    && (q.pipeIn <==> p.pipeOut)
    && (q.file <==> !p.pipeOut)
    && (p.pipeOut ==> !p.redirectionOut && (!p.file ==> !p.redirectionIn))
    && (!p.pipeOut && !p.redirectionOut ==> p.redirectionIn)
    && (!p.file && p.redirectionOut ==> !p.redirectionIn)
    && (p.file ==> p.redirectionIn)
  }

  /** A list of programs as a line gives it. */
  predicate Chained(programs: seq<Program>) {
    && (programs != [] ==> !programs[0].file && !programs[0].pipeIn)
    && (forall i | 0 <= i < |programs| :: Fresh(programs[i]))
    && (forall i | 0 < i < |programs| :: Neighbours(programs[i - 1], programs[i]))
  }

  lemma LineIsChained(line: string)
    ensures Chained(ProgramsOf(Pieces(line)))
  {
    hide Pieces, Trim, CutBlanks, Letters;
    GluedPieces(line);
    var pieces := Pieces(line);
    forall i | 0 < i < |pieces| ensures Neighbours(ProgramsOf(pieces)[i - 1], ProgramsOf(pieces)[i]) {
      assert ProperPiece(pieces[i - 1], false);
    }
  }

  /** The flags are the operators of the line: the one behind a program decides whether
      it is piped on or redirected, the one before it whether it is a file or piped into. */
  lemma FlagsAreOperators(line: string, i: nat)
    requires i < |Pieces(line)|
    ensures var pieces := Pieces(line);
            var p, left, right := ProgramsOf(pieces)[i], LeftOp(pieces, i), pieces[i].op;
            && (p.pipeOut <==> right == '|') && (p.redirectionOut <==> right == '>')
            && (p.pipeIn <==> left == '|') && (p.file <==> left == '<' || left == '>')
            && (p.redirectionIn <==> p.file || right == '<')
            && (i == 0 ==> !p.file && !p.pipeIn)
            && (right == NUL ==> i == |pieces| - 1 && !EndsWithOp(line))
  {
    hide Pieces, Trim, CutBlanks, Letters;
    GluedPieces(line);
    var pieces := Pieces(line);
    assert ProperPiece(pieces[i], i == |pieces| - 1);
    if pieces[i].op == NUL {
      LastPieceEndsLine(pieces);
    }
  }

  lemma {:induction false} LastPieceEndsLine(pieces: seq<Piece>)
    requires ProperPieces(pieces) && pieces != [] && pieces[|pieces| - 1].op == NUL
    ensures !EndsWithOp(Glue(pieces))
  {
    var first := pieces[0];
    assert ProperPiece(first, |pieces| == 1);
    if |pieces| == 1 {
      assert pieces[1..] == [];
      assert Glue(pieces) == first.text;
    } else {
      assert ProperPieces(pieces[1..]);
      LastPieceEndsLine(pieces[1..]);
      NotEmptyGlue(pieces[1..]);
      assert Glue(pieces)[|Glue(pieces)| - 1] == Glue(pieces[1..])[|Glue(pieces[1..])| - 1];
    }
  }

  lemma NotEmptyGlue(pieces: seq<Piece>)
    requires ProperPieces(pieces) && pieces != []
    ensures Glue(pieces) != ""
  {
    assert ProperPiece(pieces[0], |pieces| == 1);
  }
}
