/** Resolving a path against the directory a process is in. */
module Paths {

  const SEPARATOR: char := '\\'
  const ROOT := "C:"

  // ----- splitting and joining --------------------------------------------------------

  /** The first separator, or the length. */
  function Find(s: string): (n: nat)
    ensures n <= |s| && (forall i | 0 <= i < n :: s[i] != SEPARATOR) && (n < |s| ==> s[n] == SEPARATOR)
  {
    if s == "" || s[0] == SEPARATOR then 0 else 1 + Find(s[1..])
  }

  lemma FindIs(s: string, n: nat)
    requires n <= |s| && (forall i | 0 <= i < n :: s[i] != SEPARATOR) && (n < |s| ==> s[n] == SEPARATOR)
    ensures Find(s) == n
  {
  }

  /** Everything between separators, the last part as well if it is empty. */
  function Split(s: string): (parts: seq<string>)
    ensures parts != []
    decreases |s|
  {
    var n := Find(s);
    if n == |s| then [s] else [s[..n]] + Split(s[n + 1..])
  }

  /** The parts of a directory: an empty last part is dropped. */
  function Components(s: string): seq<string> {
    var parts := Split(s);
    if parts[|parts| - 1] == "" then parts[..|parts| - 1] else parts
  }

  function Join(parts: seq<string>): string
    requires parts != []
  {
    if |parts| == 1 then parts[0] else parts[0] + [SEPARATOR] + Join(parts[1..])
  }

  /** A resolved path; a drive alone keeps a separator behind it. */
  function Show(parts: seq<string>): string
    requires parts != []
  {
    if |parts| == 1 then parts[0] + [SEPARATOR] else Join(parts)
  }

  predicate Plain(part: string) {
    SEPARATOR !in part
  }

  predicate AllPlain(parts: seq<string>) {
    forall i | 0 <= i < |parts| :: Plain(parts[i])
  }

  lemma {:induction false} SplitIsPlain(s: string)
    ensures AllPlain(Split(s))
    decreases |s|
  {
    if Find(s) < |s| {
      SplitIsPlain(s[Find(s) + 1..]);
    }
  }

  lemma FirstPart(part: string, rest: string)
    requires Plain(part)
    ensures Split(part + [SEPARATOR] + rest) == [part] + Split(rest)
  {
    var s := part + [SEPARATOR] + rest;
    FindIs(s, |part|);
    assert s[..|part|] == part && s[|part| + 1..] == rest;
  }

  lemma {:induction false} JoinThenSplit(parts: seq<string>)
    requires parts != [] && AllPlain(parts)
    ensures Split(Join(parts)) == parts
  {
    hide Split;
    if |parts| == 1 {
      OnePart(parts[0]);
      assert parts == [parts[0]];
    } else {
      assert AllPlain(parts[1..]);
      JoinThenSplit(parts[1..]);
      assert Plain(parts[0]);
      FirstPart(parts[0], Join(parts[1..]));
      assert parts == [parts[0]] + parts[1..];
    }
  }

  lemma OnePart(part: string)
    requires Plain(part)
    ensures Split(part) == [part]
  {
    FindIs(part, |part|);
  }

  lemma {:induction false} SplitThenJoin(s: string)
    ensures Join(Split(s)) == s
    decreases |s|
  {
    hide Split, Join;
    var n := Find(s);
    SplitUnfold(s);
    if n < |s| {
      SplitThenJoin(s[n + 1..]);
      JoinCons(s[..n], Split(s[n + 1..]));
      assert s == s[..n] + [SEPARATOR] + s[n + 1..];
    } else {
      JoinOne(s);
    }
  }

  lemma JoinCons(first: string, rest: seq<string>)
    requires rest != []
    ensures Join([first] + rest) == first + [SEPARATOR] + Join(rest)
  {
    assert ([first] + rest)[1..] == rest;
  }

  lemma JoinOne(part: string)
    ensures Join([part]) == part
  {
  }

  /** Splitting a joined path gives the parts of both. */
  lemma {:induction false} SplitJoined(r1: string, r2: string)
    ensures Split(r1 + [SEPARATOR] + r2) == Split(r1) + Split(r2)
    decreases |r1|
  {
    hide Split, Find;
    var n := Find(r1);
    SplitUnfold(r1);
    assert Plain(r1[..n]) by { assert forall i | 0 <= i < n :: r1[i] != SEPARATOR; }
    if n == |r1| {
      assert r1[..n] == r1;
      FirstPart(r1, r2);
    } else {
      var tail := r1[n + 1..];
      assert r1 + [SEPARATOR] + r2 == r1[..n] + [SEPARATOR] + (tail + [SEPARATOR] + r2);
      FirstPart(r1[..n], tail + [SEPARATOR] + r2);
      SplitJoined(tail, r2);
      assert [r1[..n]] + (Split(tail) + Split(r2)) == [r1[..n]] + Split(tail) + Split(r2);
    }
  }

  lemma SplitUnfold(s: string)
    ensures var n := Find(s); Split(s) == if n == |s| then [s] else [s[..n]] + Split(s[n + 1..])
  {
    hide Find;
  }

  // ----- resolving --------------------------------------------------------------------

  /** One part of the relative path, taken from where the walk stands. */
  function Enter(abs: seq<string>, part: string): (r: seq<string>)
    ensures r != []
  {
    var next := if part == ".." then (if abs == [] then [] else abs[..|abs| - 1]) else if part == "." then abs else abs + [part];
    if next == [] then [ROOT] else next
  }

  function Walk(abs: seq<string>, rel: seq<string>): seq<string>
    decreases |rel|
  {
    if rel == [] then abs else Walk(Enter(abs, rel[0]), rel[1..])
  }

  /** Where `rel` leads from the directory `abs`. */
  function Target(abs: string, rel: string): (parts: seq<string>)
    ensures parts != []
  {
    WalkGoesSomewhere(Components(abs), Split(rel));
    Walk(Components(abs), Split(rel))
  }

  function Resolve(abs: string, rel: string): string {
    Show(Target(abs, rel))
  }

  lemma {:induction false} WalkGoesSomewhere(abs: seq<string>, rel: seq<string>)
    ensures abs != [] || rel != [] ==> Walk(abs, rel) != []
    decreases |rel|
  {
    if rel != [] {
      WalkGoesSomewhere(Enter(abs, rel[0]), rel[1..]);
    }
  }

  lemma {:induction false} WalkTwice(abs: seq<string>, first: seq<string>, second: seq<string>)
    ensures Walk(abs, first + second) == Walk(Walk(abs, first), second)
    decreases |first|
  {
    if first == [] {
      assert first + second == second;
    } else {
      WalkTwice(Enter(abs, first[0]), first[1..], second);
      assert (first + second)[1..] == first[1..] + second;
    }
  }

  /** A path below C: stays below C:, whatever the relative path climbs, and holds no
      step that has not been taken. */
  lemma {:induction false} WalkStaysRooted(abs: seq<string>, rel: seq<string>)
    requires abs != [] && abs[0] == ROOT && forall i | 0 <= i < |abs| :: abs[i] != "." && abs[i] != ".."
    ensures var r := Walk(abs, rel);
            r != [] && r[0] == ROOT && forall i | 0 <= i < |r| :: r[i] != "." && r[i] != ".."
    decreases |rel|
  {
    if rel != [] {
      WalkStaysRooted(Enter(abs, rel[0]), rel[1..]);
    }
  }

  lemma {:induction false} WalkIsPlain(abs: seq<string>, rel: seq<string>)
    requires AllPlain(abs) && AllPlain(rel)
    ensures AllPlain(Walk(abs, rel))
    decreases |rel|
  {
    if rel != [] {
      assert Plain(rel[0]);
      WalkIsPlain(Enter(abs, rel[0]), rel[1..]);
    }
  }

  lemma TargetIsPlain(abs: string, rel: string)
    ensures AllPlain(Target(abs, rel))
  {
    SplitIsPlain(abs);
    SplitIsPlain(rel);
    WalkIsPlain(Components(abs), Split(rel));
  }

  /** Whether a resolved path can be read back: a path of several parts whose last part
      is empty is shown with nothing behind its last separator. */
  predicate ReadsBack(parts: seq<string>)
    requires parts != []
  {
    |parts| == 1 || parts[|parts| - 1] != ""
  }

  lemma ShownComponents(parts: seq<string>)
    requires parts != [] && AllPlain(parts)
    ensures Components(Show(parts)) == if ReadsBack(parts) then parts else parts[..|parts| - 1]
  {
    hide Split, Join;
    if |parts| == 1 {
      assert Plain(parts[0]);
      assert parts[0] + [SEPARATOR] + "" == parts[0] + [SEPARATOR];
      FirstPart(parts[0], "");
      OnePart("");
      assert ([parts[0]] + [""])[..1] == parts;
    } else {
      JoinThenSplit(parts);
    }
  }

  /** What is left of a relative path read from its end: the last name that no step up
      cancels, or only steps up. */
  datatype Survivor = Name(part: string) | Up(steps: nat)

  function Survives(rel: seq<string>, ups: nat): Survivor
    decreases |rel|
  {
    if rel == [] then Up(ups)
    else
      var last, before := rel[|rel| - 1], rel[..|rel| - 1];
      if last == ".." then Survives(before, ups + 1)
      else if last == "." then Survives(before, ups)
      else if ups > 0 then Survives(before, ups - 1)
      else Name(last)
  }

  function Popped(parts: seq<string>, ups: nat): seq<string> {
    if ups == 0 then parts else if ups >= |parts| then [ROOT] else parts[..|parts| - ups]
  }

  /** Walking forward ends where reading backward says. */
  lemma {:induction false} SurvivorIsLast(abs: seq<string>, rel: seq<string>, ups: nat)
    requires abs != []
    ensures var r := Popped(Walk(abs, rel), ups);
            match Survives(rel, ups)
            case Name(part) => |r| >= 2 && r[|r| - 1] == part
            case Up(n) => r == Popped(abs, n)
    decreases |rel|
  {
    if rel != [] {
      var last, before := rel[|rel| - 1], rel[..|rel| - 1];
      var w := Walk(abs, before);
      assert rel == before + [last];
      WalkTwice(abs, before, [last]);
      assert [last][1..] == [] && Walk(abs, rel) == Enter(w, last);
      WalkGoesSomewhere(abs, before);
      if last == ".." {
        SurvivorIsLast(abs, before, ups + 1);
      } else if last == "." {
        SurvivorIsLast(abs, before, ups);
      } else if ups > 0 {
        SurvivorIsLast(abs, before, ups - 1);
        assert Popped(w + [last], ups) == Popped(w, ups - 1);
      }
    }
  }

  /** Read off the two paths, before resolving anything: the part that r1 leads to has a
      name, or it is the only part.  (A directory without parts begins with the first
      step of the relative path.) */
  predicate LeadsToName(abs: string, r1: string) {
    var parts, rel := Components(abs), Split(r1);
    if parts == [] then NameLeft(Enter([], rel[0]), rel[1..]) else NameLeft(parts, rel)
  }

  predicate NameLeft(parts: seq<string>, rel: seq<string>) {
    match Survives(rel, 0)
    case Name(part) => part != ""
    case Up(n) => n + 1 >= |parts| || parts[|parts| - 1 - n] != ""
  }

  lemma LeadsToNameIff(abs: string, r1: string)
    ensures LeadsToName(abs, r1) <==> ReadsBack(Target(abs, r1))
  {
    hide Split, Components, Survives;
    var parts, rel := Components(abs), Split(r1);
    if parts == [] {
      SurvivorIsLast(Enter([], rel[0]), rel[1..], 0);
    } else {
      SurvivorIsLast(parts, rel, 0);
    }
  }

  /** Resolving step by step: going to r1 and from there to r2 is going to r1\r2, for
      every r2, if and only if r1 leads to a part with a name or to a single part. */
  lemma ResolveComposesIff(abs: string, r1: string)
    ensures LeadsToName(abs, r1) <==>
            forall r2 :: Resolve(abs, r1 + [SEPARATOR] + r2) == Resolve(Resolve(abs, r1), r2)
  {
    hide Split, Components, Target, Show, LeadsToName;
    LeadsToNameIff(abs, r1);
    var c := Target(abs, r1);
    TargetIsPlain(abs, r1);
    ShownComponents(c);
    if ReadsBack(c) {
      forall r2 ensures Resolve(abs, r1 + [SEPARATOR] + r2) == Resolve(Resolve(abs, r1), r2) {
        TargetJoined(abs, r1, r2);
        TargetFrom(Resolve(abs, r1), r2);
      }
    } else {
      ComposingLosesPart(abs, r1, "x");
    }
  }

  /** Otherwise any name that is entered next finds itself one part too high. */
  lemma ComposingLosesPart(abs: string, r1: string, name: string)
    requires !ReadsBack(Target(abs, r1)) && Plain(name) && name != "." && name != ".."
    ensures Resolve(abs, r1 + [SEPARATOR] + name) != Resolve(Resolve(abs, r1), name)
  {
    hide Split, Components, Target, Show;
    var c := Target(abs, r1);
    var d := c[..|c| - 1];
    TargetIsPlain(abs, r1);
    ShownComponents(c);
    TargetJoined(abs, r1, name);
    TargetFrom(Resolve(abs, r1), name);
    OnePart(name);
    assert c == d + [""] && c + [name] == d + ["", name];
    EnterOne(c, name);
    EnterOne(d, name);
    ShownLonger(d, name);
  }

  lemma EnterOne(abs: seq<string>, part: string)
    requires part != "." && part != ".."
    ensures Walk(abs, [part]) == abs + [part]
  {
    assert [part][1..] == [];
  }

  lemma TargetFrom(abs: string, rel: string)
    ensures Target(abs, rel) == Walk(Components(abs), Split(rel))
  {
  }

  lemma TargetJoined(abs: string, r1: string, r2: string)
    ensures Target(abs, r1 + [SEPARATOR] + r2) == Walk(Target(abs, r1), Split(r2))
  {
    SplitJoined(r1, r2);
    WalkTwice(Components(abs), Split(r1), Split(r2));
  }

  lemma {:induction false} JoinLast(parts: seq<string>, last: string)
    requires parts != []
    ensures |Join(parts + [last])| == |Join(parts)| + 1 + |last|
  {
    if |parts| == 1 {
      assert (parts + [last])[1..] == [last];
    } else {
      JoinLast(parts[1..], last);
      assert (parts + [last])[1..] == parts[1..] + [last];
    }
  }

  lemma ShownLonger(d: seq<string>, x: string)
    requires d != []
    ensures Show(d + ["", x]) != Show(d + [x])
  {
    hide Join;
    JoinLast(d, x);
    JoinLast(d, "");
    JoinLast(d + [""], x);
    assert d + [""] + [x] == d + ["", x];
  }

  /** It does fail, for a relative path that ends in a separator: from the root, going to
      "a\" and then to "x" is not going to "a\\x". */
  lemma TrailingSeparatorFails()
    ensures !LeadsToName("C:\\", "a\\")
    ensures Resolve("C:\\", "a\\" + [SEPARATOR] + "x") != Resolve(Resolve("C:\\", "a\\"), "x")
  {
    hide Split, Walk, Join;
    assert "C:" + [SEPARATOR] + "" == "C:\\" && "a" + [SEPARATOR] + "" == "a\\";
    FirstPart("C:", "");
    FirstPart("a", "");
    OnePart("");
    var rel := ["a", ""];
    assert Split("a\\") == rel && Split("C:\\") == ["C:", ""];
    assert Components("C:\\") == ["C:"];
    assert rel[|rel| - 1] == "" && Survives(rel, 0) == Name("");
    LeadsToNameIff("C:\\", "a\\");
    ComposingLosesPart("C:\\", "a\\", "x");
  }

  predicate WithoutEmpty(parts: seq<string>) {
    "" !in parts
  }

  /** In particular, when neither path has an empty part. */
  lemma ResolveComposes(abs: string, r1: string, r2: string)
    requires WithoutEmpty(Components(abs)) && WithoutEmpty(Split(r1))
    ensures Resolve(abs, r1 + [SEPARATOR] + r2) == Resolve(Resolve(abs, r1), r2)
  {
    hide Resolve, Split, Components;
    WalkWithoutEmpty(Components(abs), Split(r1));
    TargetFrom(abs, r1);
    LeadsToNameIff(abs, r1);
    ResolveComposesIff(abs, r1);
  }

  lemma {:induction false} WalkWithoutEmpty(abs: seq<string>, rel: seq<string>)
    requires WithoutEmpty(abs) && WithoutEmpty(rel)
    ensures WithoutEmpty(Walk(abs, rel))
    decreases |rel|
  {
    if rel != [] {
      WalkWithoutEmpty(Enter(abs, rel[0]), rel[1..]);
    }
  }

  predicate Named(part: string) {
    part != "." && part != ".."
  }

  /** Parts that are names are entered one below the other. */
  lemma {:induction false} NamesDescend(abs: seq<string>, parts: seq<string>)
    requires forall i | 0 <= i < |parts| :: Named(parts[i])
    ensures Walk(abs, parts) == if parts == [] then abs else abs + parts
    decreases |parts|
  {
    if parts != [] {
      assert Named(parts[0]);
      NamesDescend(abs + [parts[0]], parts[1..]);
      assert abs + [parts[0]] + parts[1..] == abs + parts;
    }
  }

  /** Going down into a name and up again leads back; staying leads nowhere else. */
  lemma DownAndUp(abs: string, rel: string, name: string)
    requires Plain(name) && Named(name)
    ensures Target(abs, rel + [SEPARATOR] + (name + [SEPARATOR] + "..")) == Target(abs, rel)
    ensures Target(abs, rel + [SEPARATOR] + ".") == Target(abs, rel)
  {
    hide Split, Target;
    var here := Target(abs, rel);
    FirstPart(name, "..");
    OnePart("..");
    OnePart(".");
    TargetJoined(abs, rel, name + [SEPARATOR] + "..");
    TargetJoined(abs, rel, ".");
    WalkTwice(here, [name], [".."]);
    EnterOne(here, name);
    assert Enter(here + [name], "..") == here;
    assert Walk(here + [name], [".."]) == Walk(here, [".."][1..]);
    assert Walk(here, ["."]) == Walk(here, ["."][1..]);
  }

  /** Staying below C:, for paths as they are written. */
  lemma ResolveStaysRooted(abs: string, rel: string)
    requires var parts := Components(abs); parts != [] && parts[0] == ROOT && "." !in parts && ".." !in parts
    ensures var parts := Target(abs, rel); parts[0] == ROOT && "." !in parts && ".." !in parts
  {
    WalkStaysRooted(Components(abs), Split(rel));
  }

  /** The drive keeps its separator, any other directory has none: a name entered from the
      root stands behind it, and stepping up from there leads back to the root as it is
      written. */
  lemma DownFromRoot(name: string)
    requires Plain(name) && Named(name) && name != ""
    ensures Resolve("C:\\", name) == "C:\\" + name && Resolve("C:\\" + name, "..") == "C:\\"
    ensures Resolve("C:\\", ".") == "C:\\" == Resolve("C:\\", "..")
  {
    hide Split, Walk;
    RootParts(name);
    OnePart(name);
    OnePart("..");
    OnePart(".");
    var root, below := ["C:"], ["C:", name];
    assert below[..1] == root && root[..0] == [] && root + [name] == below && below[1..] == [name];
    WalkOne(root, name);
    WalkOne(below, "..");
    WalkOne(root, "..");
    WalkOne(root, ".");
    assert Join(below) == "C:" + [SEPARATOR] + Join([name]);
  }

  lemma WalkOne(abs: seq<string>, part: string)
    ensures Walk(abs, [part]) == Enter(abs, part)
  {
    assert [part][1..] == [];
    assert Walk(Enter(abs, part), []) == Enter(abs, part);
  }

  lemma RootParts(name: string)
    requires Plain(name) && name != ""
    ensures Components("C:\\") == ["C:"] && Components("C:\\" + name) == ["C:", name]
    ensures "C:" + [SEPARATOR] == "C:\\" && "C:" + [SEPARATOR] + name == "C:\\" + name
  {
    hide Split;
    assert "C:" + [SEPARATOR] + "" == "C:\\" && "C:" + [SEPARATOR] + name == "C:\\" + name;
    FirstPart("C:", "");
    FirstPart("C:", name);
    OnePart("");
    OnePart(name);
  }

  // ----- the program ------------------------------------------------------------------

  /** The parts of a path before its last separator, and what is left behind it. */
  method CutParts(path: string) returns (parts: seq<string>, rest: string)
    ensures Split(path) == parts + [rest] && Plain(rest)
  {
    hide Split;
    parts, rest := [], path;
    assert Split(path) == [] + Split(path);
    var pos := FindSeparator(rest);
    while pos < |rest|
      invariant pos == Find(rest) && Split(path) == parts + Split(rest)
      decreases |rest|
    {
      SplitUnfold(rest);
      parts := parts + [rest[..pos]];
      rest := rest[pos + 1..];
      pos := FindSeparator(rest);
    }
    SplitUnfold(rest);
    assert forall i | 0 <= i < |rest| :: rest[i] != SEPARATOR;
  }

  method FindSeparator(s: string) returns (pos: nat)
    ensures pos == Find(s)
  {
    pos := 0;
    while pos < |s| && s[pos] != SEPARATOR
      invariant pos <= |s| && forall i | 0 <= i < pos :: s[i] != SEPARATOR
    {
      pos := pos + 1;
    }
    FindIs(s, pos);
  }

  /** Applies the parts of the relative path one after another. */
  method Compose(start: seq<string>, rel: seq<string>) returns (abs: seq<string>)
    requires rel != [] && (start != [] || rel[0] != "..")
    ensures abs != [] && abs == Walk(start, rel)
  {
    hide Walk;
    abs := start;
    assert rel[0..] == rel;
    for i := 0 to |rel|
      invariant Walk(start, rel) == Walk(abs, rel[i..])
      invariant if i == 0 then abs == start else abs != []
    {
      WalkStep(abs, rel, i);
      ghost var before := abs;
      if rel[i] == ".." {
        abs := abs[..|abs| - 1];
      } else if rel[i] == "." {
      } else {
        abs := abs + [rel[i]];
      }
      if |abs| <= 0 {
        abs := abs + [ROOT];
      }
      assert abs == Enter(before, rel[i]);
    }
    WalkStep(abs, rel, |rel|);
  }

  lemma WalkStep(abs: seq<string>, rel: seq<string>, i: nat)
    requires i <= |rel|
    ensures Walk(abs, rel[i..]) == if i == |rel| then abs else Walk(Enter(abs, rel[i]), rel[i + 1..])
  {
    assert i < |rel| ==> rel[i..][1..] == rel[i + 1..];
  }

  /** Writes the parts with a separator between them. */
  method Write(abs: seq<string>) returns (result: string)
    requires abs != []
    ensures result == Show(abs)
  {
    hide Join;
    result := "";
    assert abs[0..] == abs && "" + Join(abs) == Join(abs);
    for i := 0 to |abs| - 1
      invariant Join(abs) == result + Join(abs[i..])
      invariant i == 0 ==> result == ""
    {
      JoinStep(abs, i);
      assert result + (abs[i] + [SEPARATOR] + Join(abs[i + 1..])) == result + (abs[i] + [SEPARATOR]) + Join(abs[i + 1..]);
      result := result + (abs[i] + [SEPARATOR]);
    }
    JoinStep(abs, |abs| - 1);
    if |abs| == 1 {
      result := result + (abs[|abs| - 1] + [SEPARATOR]);
    } else {
      result := result + abs[|abs| - 1];
    }
  }

  /** Resolves `relPath` against the directory `absPath`.  A first step up takes a part off
      the directory without looking, so there has to be one. */
  method ParsePath(absPath: string, relPath: string) returns (result: string)
    requires Components(absPath) != [] || Split(relPath)[0] != ".."
    ensures result == Resolve(absPath, relPath)
  {
    hide Split, Walk, Show;
    var abs, last := CutParts(absPath);
    assert (abs + [last])[..|abs|] == abs;
    if last != "" {
      abs := abs + [last];
    }
    var rel, rest := CutParts(relPath);
    abs := Compose(abs, rel + [rest]);
    result := Write(abs);
  }

  lemma JoinStep(parts: seq<string>, i: nat)
    requires i < |parts|
    ensures Join(parts[i..]) == if i + 1 == |parts| then parts[i] else parts[i] + [SEPARATOR] + Join(parts[i + 1..])
  {
    assert i + 1 < |parts| ==> parts[i..][1..] == parts[i + 1..];
  }
}
