/** What the shell's backward walk over the programs does with the ends of the pipes: a
    stack of handles that is popped once for every program that writes to a pipe and once
    for every program that reads from one.  Next to its position the walk keeps an index;
    built-in commands, which the shell handles itself, are skipped without moving it. */
module ShellWiring {
  import opened Common
  import opened ShellLine

  datatype PipeEnds = PipeEnds(read: Handle, write: Handle)

  datatype Outcome = Done(handle: Handle) | Failed

  /** What the kernel answers: the ends of the k-th pipe, the file named by the program at
      a position, the process created for the program at a position, and which of n
      processes has finished when n are waited for. */
  datatype Env = Env(pipe: nat -> PipeEnds, open: nat -> Outcome, create: nat -> Outcome, signal: nat -> nat,
                     stdIn: Handle, stdOut: Handle)

  /** The pipes behind the programs before position i. */
  function Rank(ps: seq<Program>, i: nat): (k: nat)
    requires i <= |ps|
  {
    if i == 0 then 0 else Rank(ps, i - 1) + (if ps[i - 1].pipeOut then 1 else 0)
  }

  /** The ends of the first k pipes as they are pushed: of each pipe, the writing end first. */
  function Ends(env: Env, k: nat): seq<Handle> {
    if k == 0 then [] else Ends(env, k - 1) + [env.pipe(k - 1).write, env.pipe(k - 1).read]
  }

  /** The end at place j of that stack. */
  function EndAt(env: Env, j: int): Handle {
    if j < 0 then INVALID_HANDLE else if j % 2 == 0 then env.pipe(j / 2).write else env.pipe(j / 2).read
  }

  lemma {:induction false} EndsAre(env: Env, k: nat)
    ensures |Ends(env, k)| == 2 * k
    ensures forall j | 0 <= j < 2 * k :: Ends(env, k)[j] == EndAt(env, j)
  {
    if k > 0 {
      EndsAre(env, k - 1);
      assert EndAt(env, 2 * (k - 1)) == env.pipe(k - 1).write && EndAt(env, 2 * (k - 1) + 1) == env.pipe(k - 1).read;
    }
  }

  // ----- the walk ---------------------------------------------------------------------

  predicate IsBuiltin(p: Program) {
    p.command == "cd" || (p.command == "echo" && (p.argument == "on" || p.argument == "off"))
  }

  /** A process is created for the program. */
  predicate Runs(p: Program) {
    !p.file && !IsBuiltin(p)
  }

  function One(b: bool): nat {
    if b then 1 else 0
  }

  function Builtins(ps: seq<Program>, i: nat): (k: nat)
    requires i <= |ps|
    ensures k <= |ps| - i
    ensures k > 0 <==> exists j :: i <= j < |ps| && IsBuiltin(ps[j])
    decreases |ps| - i
  {
    if i == |ps| then 0 else Builtins(ps, i + 1) + One(IsBuiltin(ps[i]))
  }

  /** Where the index stands when the walk is at position i. */
  function Index(ps: seq<Program>, i: nat): (x: nat)
    requires i < |ps|
    ensures i <= x < |ps|
  {
    i + Builtins(ps, i + 1)
  }

  /** The program at i pops a writing end: it is piped on, or reads a file and the program
      behind the index is piped on. */
  predicate TakesOut(ps: seq<Program>, i: nat)
    requires i < |ps|
    decreases |ps| - i
  {
    var x := Index(ps, i);
    && Runs(ps[i]) && x + 1 < |ps|
    && (ps[i].pipeOut || (ps[i].redirectionIn && x + 2 < |ps| && (ps[x + 1].pipeOut || TakesOut(ps, x + 1))))
  }

  predicate TakesIn(ps: seq<Program>, i: nat)
    requires i < |ps|
  {
    Runs(ps[i]) && ps[i].pipeIn
  }

  function Ins(ps: seq<Program>, i: nat): (k: nat)
    requires i <= |ps|
    decreases |ps| - i
  {
    if i == |ps| then 0 else Ins(ps, i + 1) + One(TakesIn(ps, i))
  }

  function Outs(ps: seq<Program>, i: nat): (k: nat)
    requires i <= |ps|
    decreases |ps| - i
  {
    if i == |ps| then 0 else Outs(ps, i + 1) + One(TakesOut(ps, i))
  }

  /** Ends left on the stack when the programs from i on have been handled. */
  function Left(ps: seq<Program>, i: nat): int
    requires i <= |ps|
  {
    2 * Rank(ps, |ps|) - Ins(ps, i) - Outs(ps, i)
  }

  // ----- the stack never runs out -----------------------------------------------------

  function Commands(ps: seq<Program>, i: nat): (k: nat)
    requires i <= |ps|
    ensures k == 0 <==> forall j | i <= j < |ps| :: ps[j].file
    decreases |ps| - i
  {
    if i == |ps| then 0 else Commands(ps, i + 1) + One(!ps[i].file)
  }

  function BuiltinCommands(ps: seq<Program>, i: nat): (k: nat)
    requires i <= |ps|
    ensures k > 0 <==> exists j :: i <= j < |ps| && !ps[j].file && IsBuiltin(ps[j])
    decreases |ps| - i
  {
    if i == |ps| then 0 else BuiltinCommands(ps, i + 1) + One(!ps[i].file && IsBuiltin(ps[i]))
  }

  /** The last command writes to no pipe. */
  lemma LastTakesNoOut(ps: seq<Program>, i: nat)
    requires Chained(ps) && i < |ps| && Commands(ps, i + 1) == 0
    ensures !TakesOut(ps, i)
  {
    var x := Index(ps, i);
    assert i + 1 < |ps| ==> Neighbours(ps[i], ps[i + 1]);
    assert x + 2 < |ps| ==> Neighbours(ps[x + 1], ps[x + 2]);
  }

  lemma {:induction false} OutsAtMost(ps: seq<Program>, i: nat)
    requires Chained(ps) && i <= |ps|
    ensures Outs(ps, i) <= (if Commands(ps, i) == 0 then 0 else Commands(ps, i) - 1)
    decreases |ps| - i
  {
    if i < |ps| {
      OutsAtMost(ps, i + 1);
      if Commands(ps, i + 1) == 0 {
        LastTakesNoOut(ps, i);
      }
    }
  }

  lemma {:induction false} InsAre(ps: seq<Program>, i: nat)
    requires Chained(ps) && 0 < i <= |ps|
    ensures Ins(ps, i) == Commands(ps, i) - BuiltinCommands(ps, i)
    ensures Commands(ps, i) == Rank(ps, |ps| - 1) - Rank(ps, i - 1)
    decreases |ps| - i
  {
    if i < |ps| {
      assert Neighbours(ps[i - 1], ps[i]);
      InsAre(ps, i + 1);
    }
  }

  lemma {:induction false} LeftShrinks(ps: seq<Program>, i: nat, j: nat)
    requires i <= j <= |ps|
    ensures Left(ps, i) <= Left(ps, j)
    decreases j - i
  {
    if i < j {
      LeftShrinks(ps, i + 1, j);
    }
  }

  /** What every line leaves on the stack: at least one end for every built-in behind the
      first command, and at least one if the first command is a built-in that is piped on. */
  lemma LeftAtLeast(ps: seq<Program>)
    requires Chained(ps)
    ensures 0 <= Left(ps, 0)
    ensures ps != [] ==> BuiltinCommands(ps, 1) <= Left(ps, 0)
    ensures ps != [] && IsBuiltin(ps[0]) && Commands(ps, 1) > 0 ==> 0 < Left(ps, 0)
  {
    if ps != [] {
      InsAre(ps, 1);
      OutsAtMost(ps, 0);
      OutsAtMost(ps, 1);
    }
  }

  /** Before the program at i pops, the stack holds what it pops, whatever the line. */
  lemma EnoughLeft(ps: seq<Program>, i: nat)
    requires Chained(ps) && i < |ps|
    ensures 0 <= Left(ps, i)
    ensures Left(ps, i + 1) == Left(ps, i) + One(TakesIn(ps, i)) + One(TakesOut(ps, i))
  {
    LeftAtLeast(ps);
    LeftShrinks(ps, 0, i);
  }

  // ----- what is intended -------------------------------------------------------------

  /** A program before a file that is piped on writes to the file's pipe itself. */
  predicate WritesForFile(ps: seq<Program>, i: nat)
    requires i < |ps|
  {
    ps[i].redirectionIn && i + 2 < |ps| && ps[i + 1].pipeOut
  }

  /** The program at i is meant to write to a pipe. */
  predicate WritesToPipe(ps: seq<Program>, i: nat)
    requires i < |ps|
  {
    i + 1 < |ps| && (ps[i].pipeOut || WritesForFile(ps, i))
  }

  /** The pipe it is meant to write to. */
  function PipeOf(ps: seq<Program>, i: nat): nat
    requires i < |ps|
  {
    Rank(ps, if ps[i].pipeOut then i else i + 1)
  }

  /** A program writes to the pipe behind position i: the one at i itself or, if that is
      a file, the one before it, which must be a command that reads the file. */
  predicate Connected(ps: seq<Program>, i: nat)
    requires i < |ps|
  {
    i + 1 < |ps| && (!ps[i].file || (i > 0 && !ps[i - 1].file && ps[i - 1].redirectionIn))
  }

  predicate Connectable(ps: seq<Program>) {
    forall i | 0 <= i < |ps| && ps[i].pipeOut :: Connected(ps, i)
  }

  predicate NoBuiltin(ps: seq<Program>) {
    forall i | 0 <= i < |ps| :: !IsBuiltin(ps[i])
  }

  /** No built-in stands in a pipe: there is none, or the line is one built-in command
      with at most files behind it. */
  predicate BuiltinsAlone(ps: seq<Program>) {
    NoBuiltin(ps) || (ps != [] && IsBuiltin(ps[0]) && forall j | 0 < j < |ps| :: ps[j].file)
  }

  // ----- plain lines ------------------------------------------------------------------

  /** Without built-ins the index is the position, and a program pops as intended. */
  lemma PlainTakes(ps: seq<Program>, i: nat)
    requires Chained(ps) && NoBuiltin(ps) && i < |ps|
    ensures Index(ps, i) == i
    ensures TakesOut(ps, i) <==> !ps[i].file && WritesToPipe(ps, i)
    ensures TakesIn(ps, i) <==> ps[i].pipeIn
  {
    assert Builtins(ps, i + 1) == 0;
    assert i + 1 < |ps| ==> Neighbours(ps[i], ps[i + 1]);
    assert i > 0 ==> Neighbours(ps[i - 1], ps[i]);
  }

  /** Pipes from position i on that have a program to write to them. */
  function ConnectedPipes(ps: seq<Program>, i: nat): (k: nat)
    requires i <= |ps|
    decreases |ps| - i
  {
    if i == |ps| then 0 else ConnectedPipes(ps, i + 1) + One(ps[i].pipeOut && Connected(ps, i))
  }

  lemma {:induction false} OutsAreConnected(ps: seq<Program>, i: nat)
    requires Chained(ps) && NoBuiltin(ps) && i < |ps|
    ensures Outs(ps, i) == ConnectedPipes(ps, i + 1) + One(ps[i].pipeOut && Connected(ps, i) && !ps[i].file)
    decreases |ps| - i
  {
    hide TakesOut, Chained, NoBuiltin;
    PlainTakes(ps, i);
    if i + 1 < |ps| {
      NextTo(ps, i);
      OutsAreConnected(ps, i + 1);
    }
  }

  lemma NextTo(ps: seq<Program>, i: nat)
    requires Chained(ps) && i + 1 < |ps|
    ensures Neighbours(ps[i], ps[i + 1])
  {
  }

  lemma {:induction false} ConnectedAtMost(ps: seq<Program>, i: nat)
    requires i <= |ps|
    ensures ConnectedPipes(ps, i) <= Rank(ps, |ps|) - Rank(ps, i)
    ensures ConnectedPipes(ps, i) == Rank(ps, |ps|) - Rank(ps, i) <==>
            forall j | i <= j < |ps| && ps[j].pipeOut :: Connected(ps, j)
    decreases |ps| - i
  {
    if i < |ps| {
      ConnectedAtMost(ps, i + 1);
    }
  }

  /** Without built-ins the stack is empty in the end if and only if the line is
      connectable: no '|' at its end, and none behind a file but where a command reads
      that file. */
  lemma LeftIff(ps: seq<Program>)
    requires Chained(ps) && NoBuiltin(ps)
    ensures Left(ps, 0) == 0 <==> Connectable(ps)
  {
    hide TakesOut;
    if ps != [] {
      OutsAreConnected(ps, 0);
      InsAre(ps, 1);
      assert BuiltinCommands(ps, 1) == 0;
      ConnectedAtMost(ps, 0);
    }
  }

  /** How high the stack of a connectable line without built-ins stands at position i. */
  function Height(ps: seq<Program>, i: nat): nat
    requires i <= |ps|
  {
    if i < |ps| && ps[i].file && ps[i].pipeOut then 2 * Rank(ps, i) + 1
    else if 0 < i < |ps| && ps[i - 1].pipeOut then 2 * Rank(ps, i - 1) + 1
    else 2 * Rank(ps, i)
  }

  /** One program of a connectable line: it finds the writing end of its own pipe on top
      of the stack, and then the reading end of the pipe before it. */
  lemma HeightStep(ps: seq<Program>, i: nat)
    requires Chained(ps) && NoBuiltin(ps) && Connectable(ps) && i < |ps|
    ensures Height(ps, i + 1) == Height(ps, i) + One(TakesIn(ps, i)) + One(TakesOut(ps, i))
    ensures TakesOut(ps, i) ==> Height(ps, i + 1) - 1 == 2 * PipeOf(ps, i)
    ensures TakesIn(ps, i) ==> i > 0 && Height(ps, i) == 2 * Rank(ps, i - 1) + 1
  {
    hide TakesOut, TakesIn, Chained, NoBuiltin, Connectable, Connected, Index;
    PlainTakes(ps, i);
    ConnectableAt(ps, i);
    ConnectableAt(ps, if i + 1 < |ps| then i + 1 else i);
  }

  lemma ConnectableAt(ps: seq<Program>, i: nat)
    requires Chained(ps) && Connectable(ps) && i < |ps|
    ensures i == 0 ==> !ps[i].file && !ps[i].pipeIn
    ensures i > 0 ==> Neighbours(ps[i - 1], ps[i])
    ensures ps[i].pipeOut ==> i + 1 < |ps| && (ps[i].file ==> i > 0 && !ps[i - 1].file && ps[i - 1].redirectionIn)
  {
    assert i > 0 ==> Neighbours(ps[i - 1], ps[i]);
    assert ps[i].pipeOut ==> Connected(ps, i);
  }

  lemma {:induction false} LeftIsHeight(ps: seq<Program>, i: nat)
    requires Chained(ps) && NoBuiltin(ps) && Connectable(ps) && i <= |ps|
    ensures Left(ps, i) == Height(ps, i)
    decreases |ps| - i
  {
    hide TakesOut, TakesIn;
    if i < |ps| {
      hide Chained, NoBuiltin, Connectable, Height;
      LeftIsHeight(ps, i + 1);
      HeightStep(ps, i);
    }
  }

  /** The ends that a program of a connectable line pops are its own. */
  lemma PopsItsOwn(ps: seq<Program>, i: nat, env: Env)
    requires Chained(ps) && NoBuiltin(ps) && Connectable(ps) && i < |ps|
    ensures TakesOut(ps, i) ==> EndAt(env, Left(ps, i + 1) - 1) == env.pipe(PipeOf(ps, i)).write
    ensures TakesIn(ps, i) ==> i > 0 && EndAt(env, Left(ps, i)) == env.pipe(Rank(ps, i - 1)).read
  {
    hide TakesOut, TakesIn, Height, Left, Chained, NoBuiltin, Connectable, Rank;
    LeftIsHeight(ps, i);
    LeftIsHeight(ps, i + 1);
    HeightStep(ps, i);
  }

  /** In a connectable line every pipe has one writer and one reader: for a pipe behind
      position q the program after it reads, and one program before it writes. */
  lemma OneWriterOneReader(ps: seq<Program>, q: nat)
    requires Chained(ps) && NoBuiltin(ps) && Connectable(ps) && q < |ps| && ps[q].pipeOut
    ensures q + 1 < |ps| && TakesIn(ps, q + 1)
    ensures var w := if ps[q].file then q - 1 else q; 0 <= w && TakesOut(ps, w) && PipeOf(ps, w) == Rank(ps, q)
    ensures forall i | 0 <= i < |ps| && TakesOut(ps, i) && PipeOf(ps, i) == Rank(ps, q) :: i == if ps[q].file then q - 1 else q
    ensures forall i | 0 < i < |ps| && TakesIn(ps, i) && Rank(ps, i - 1) == Rank(ps, q) :: i == q + 1
  {
    hide TakesOut, TakesIn, Chained, NoBuiltin, Neighbours, WritesToPipe, PipeOf, Rank;
    assert Connected(ps, q);
    NextTo(ps, q);
    ConnectedWriter(ps, q);
    PipeInAgrees(ps[q], ps[q + 1]);
    PlainTakes(ps, q + 1);
    forall i | 0 <= i < |ps| && TakesOut(ps, i) && PipeOf(ps, i) == Rank(ps, q)
      ensures i == if ps[q].file then q - 1 else q
    {
      OnlyWriter(ps, q, i);
    }
    forall i | 0 < i < |ps| && TakesIn(ps, i) && Rank(ps, i - 1) == Rank(ps, q) ensures i == q + 1 {
      PlainTakes(ps, i);
      NextTo(ps, i - 1);
      PipeInAgrees(ps[i - 1], ps[i]);
      RankInjective(ps, i - 1, q);
    }
  }

  lemma PipeInAgrees(p: Program, next: Program)
    requires Neighbours(p, next)
    ensures p.pipeOut == next.pipeIn
  {
  }

  lemma ConnectedWriter(ps: seq<Program>, q: nat)
    requires Chained(ps) && NoBuiltin(ps) && q < |ps| && ps[q].pipeOut && Connected(ps, q)
    ensures var w := if ps[q].file then q - 1 else q; 0 <= w && TakesOut(ps, w) && PipeOf(ps, w) == Rank(ps, q)
  {
    hide TakesOut, Chained, NoBuiltin;
    NextTo(ps, q);
    if ps[q].file {
      NextTo(ps, q - 1);
    }
    PlainTakes(ps, if ps[q].file then q - 1 else q);
  }

  lemma OnlyWriter(ps: seq<Program>, q: nat, i: nat)
    requires Chained(ps) && NoBuiltin(ps) && q < |ps| && ps[q].pipeOut
    requires i < |ps| && TakesOut(ps, i) && PipeOf(ps, i) == Rank(ps, q)
    ensures i == if ps[q].file then q - 1 else q
  {
    hide TakesOut, Chained, NoBuiltin;
    PlainTakes(ps, i);
    NextTo(ps, i);
    RankInjective(ps, if ps[i].pipeOut then i else i + 1, q);
  }

  lemma RankInjective(ps: seq<Program>, i: nat, j: nat)
    requires i < |ps| && j < |ps| && ps[i].pipeOut && ps[j].pipeOut && Rank(ps, i) == Rank(ps, j)
    ensures i == j
  {
    if i < j {
      RankLess(ps, i, j);
    } else if j < i {
      RankLess(ps, j, i);
    }
  }

  lemma {:induction false} RankLess(ps: seq<Program>, i: nat, j: nat)
    requires i < j <= |ps| && ps[i].pipeOut
    ensures Rank(ps, i) < Rank(ps, j)
    decreases j - i
  {
    if i + 1 < j {
      RankLess(ps, i, j - 1);
    }
  }

  // ----- each program -----------------------------------------------------------------

  function OpenedAt(env: Env, i: nat): Handle {
    if env.open(i).Done? then env.open(i).handle else INVALID_HANDLE
  }

  /** The program at i once it was started: the ends it popped, the files opened behind
      the index, and the pipe flag it may take over from there. */
  function Started(ps: seq<Program>, i: nat, env: Env, process: Handle): Program
    requires i < |ps|
  {
    var x := Index(ps, i);
    ps[i].(handle := process,
           pipeOut := ps[i].pipeOut || TakesOut(ps, i),
           pipeOutHandle := if TakesOut(ps, i) then EndAt(env, Left(ps, i + 1) - 1) else INVALID_HANDLE,
           pipeInHandle := if TakesIn(ps, i) then EndAt(env, Left(ps, i)) else INVALID_HANDLE,
           redirectionInHandle := if ps[i].redirectionIn && x + 1 < |ps| then OpenedAt(env, x + 1) else INVALID_HANDLE,
           redirectionOutHandle := if ps[i].redirectionOut && x + 1 < |ps| then OpenedAt(env, x + 1) else INVALID_HANDLE)
  }

  /** The program at i as the line means it: the ends of the pipes next to it, the file
      right behind it. */
  function Meant(ps: seq<Program>, i: nat, env: Env, process: Handle): Program
    requires i < |ps|
  {
    ps[i].(handle := process,
           pipeOut := ps[i].pipeOut || WritesToPipe(ps, i),
           pipeOutHandle := if WritesToPipe(ps, i) then env.pipe(PipeOf(ps, i)).write else INVALID_HANDLE,
           pipeInHandle := if ps[i].pipeIn && i > 0 then env.pipe(Rank(ps, i - 1)).read else INVALID_HANDLE,
           redirectionInHandle := if ps[i].redirectionIn && i + 1 < |ps| then OpenedAt(env, i + 1) else INVALID_HANDLE,
           redirectionOutHandle := if ps[i].redirectionOut && i + 1 < |ps| then OpenedAt(env, i + 1) else INVALID_HANDLE)
  }

  lemma PlainStarted(ps: seq<Program>, i: nat, env: Env, process: Handle)
    requires Chained(ps) && NoBuiltin(ps) && Connectable(ps) && i < |ps| && Runs(ps[i])
    ensures Started(ps, i, env, process) == Meant(ps, i, env, process)
  {
    hide TakesOut, Left, Chained, NoBuiltin, Connectable, Index, WritesToPipe;
    PlainTakes(ps, i);
    PopsItsOwn(ps, i, env);
  }

  /** A file named like a built-in moves the index of the command before it. */
  lemma SkippedFileIsMissed(ps: seq<Program>, f: nat) returns (s: nat, env: Env)
    requires Chained(ps) && f < |ps| && ps[f].file && IsBuiltin(ps[f])
    requires BuiltinCommands(ps, 0) == 0
    ensures s < |ps| && Runs(ps[s]) && forall process :: Started(ps, s, env, process) != Meant(ps, s, env, process)
  {
    s := f;
    while ps[s].file
      invariant s <= f && forall j | s < j <= f :: ps[j].file
      decreases s
    {
      s := s - 1;
    }
    assert Builtins(ps, s + 1) > 0;
    assert Neighbours(ps[s], ps[s + 1]);
    env := Env(_ => PipeEnds(0, 0), j => if j == s + 1 then Done(0) else Done(1), _ => Failed, _ => 0, 0, 0);
  }

  lemma {:induction false} NoPipes(ps: seq<Program>, i: nat)
    requires i <= |ps|
    ensures Rank(ps, i) == 0 <==> forall j | 0 <= j < i :: !ps[j].pipeOut
  {
    if i > 0 {
      NoPipes(ps, i - 1);
    }
  }

  lemma {:induction false} NothingRuns(ps: seq<Program>, i: nat)
    requires i <= |ps| && forall j | i <= j < |ps| :: !Runs(ps[j])
    ensures Left(ps, i) == 2 * Rank(ps, |ps|)
    decreases |ps| - i
  {
    if i < |ps| {
      NothingRuns(ps, i + 1);
    }
  }

  /** A line that is one built-in, with at most files behind it. */
  lemma BuiltinAlone(ps: seq<Program>)
    requires Chained(ps) && ps != [] && IsBuiltin(ps[0]) && forall j | 0 < j < |ps| :: ps[j].file
    ensures Left(ps, 0) == 0 <==> Connectable(ps)
    ensures forall j | 0 <= j < |ps| :: !Runs(ps[j])
  {
    NothingRuns(ps, 0);
    NoPipes(ps, |ps|);
    forall q | 0 <= q < |ps| && ps[q].pipeOut ensures !Connected(ps, q) {
      assert q + 1 < |ps| ==> Neighbours(ps[q], ps[q + 1]);
    }
  }

  /** THE WIRING.  The walk hands out every end of every pipe, and starts every program
      with the ends and the file meant for it whatever the kernel answers, if and only if
      the line is connectable and no built-in stands in a pipe. */
  lemma WiredIff(ps: seq<Program>)
    requires Chained(ps)
    ensures Connectable(ps) && BuiltinsAlone(ps) <==>
              && Left(ps, 0) == 0
              && forall env: Env, i, process | 0 <= i < |ps| && Runs(ps[i]) :: Started(ps, i, env, process) == Meant(ps, i, env, process)
  {
    hide Chained, Left, Started, Meant, Connectable;
    if NoBuiltin(ps) {
      LeftIff(ps);
      if Connectable(ps) {
        forall env: Env, i, process | 0 <= i < |ps| && Runs(ps[i]) ensures Started(ps, i, env, process) == Meant(ps, i, env, process) {
          PlainStarted(ps, i, env, process);
        }
      }
    } else if BuiltinsAlone(ps) {
      BuiltinAlone(ps);
    } else {
      FirstIsCommand(ps);
      LeftAtLeast(ps);
      var f :| 0 <= f < |ps| && IsBuiltin(ps[f]);
      if BuiltinCommands(ps, 0) == 0 {
        var s, env := SkippedFileIsMissed(ps, f);
        assert Started(ps, s, env, 0) != Meant(ps, s, env, 0);
      }
    }
  }

  /** Where no built-in stands in a pipe, the stack is emptied exactly for connectable lines. */
  lemma AloneLeftIff(ps: seq<Program>)
    requires Chained(ps) && BuiltinsAlone(ps)
    ensures Left(ps, 0) == 0 <==> Connectable(ps)
  {
    hide Left, Connectable, Chained;
    if NoBuiltin(ps) {
      LeftIff(ps);
    } else {
      BuiltinAlone(ps);
    }
  }

  lemma FirstIsCommand(ps: seq<Program>)
    requires Chained(ps) && ps != []
    ensures !ps[0].file
  {
  }

  /** A line that ends a redirection to a file with a pipe is not connectable:
      "a > f | b" starts b on a pipe nobody writes to. */
  lemma OutputFileIsNotConnected(a: string, f: string, b: string)
    ensures !Connectable(ProgramsOf([Piece(a, '>'), Piece(f, '|'), Piece(b, NUL)]))
  {
    var ps := ProgramsOf([Piece(a, '>'), Piece(f, '|'), Piece(b, NUL)]);
    assert ps[1].pipeOut && !Connected(ps, 1);
  }

  /** Nor does a pipe into a built-in work, although the line is connectable: for
      "a | cd" the walk takes a for the last program, starts it on the shell's output and
      leaves both ends on the stack. */
  lemma PipeIntoBuiltin(a: string)
    ensures var ps := ProgramsOf([Piece(a, '|'), Piece("cd", NUL)]);
            Connectable(ps) && !BuiltinsAlone(ps) && !TakesOut(ps, 0) && Left(ps, 0) == 2
  {
    hide ProgramOf;
    var ps := ProgramsOf([Piece(a, '|'), Piece("cd", NUL)]);
    PipedIntoCd(a);
    assert Builtins(ps, 1) == 1 + Builtins(ps, 2);
    assert Rank(ps, 2) == 1 + Rank(ps, 0);
    assert Ins(ps, 1) == Ins(ps, 2) && Outs(ps, 1) == Outs(ps, 2);
  }

  lemma PipedIntoCd(a: string)
    ensures var p, q := ProgramOf(a, NUL, '|'), ProgramOf("cd", '|', NUL);
            p.pipeOut && !p.file && !p.pipeIn && IsBuiltin(q) && !q.file && !q.pipeOut
  {
    assert Trim("cd") == "cd" && Letters("cd") == 2;
  }

  /** The program at a position reads from its pipe, its file or the shell's input. */
  function StageIn(p: Program, hasNext: bool, env: Env): Handle {
    if p.pipeIn then p.pipeInHandle else if p.redirectionIn && hasNext then p.redirectionInHandle else env.stdIn
  }

  /** And writes to its pipe, its file or the shell's output. */
  function StageOut(p: Program, hasNext: bool, piped: bool, env: Env): Handle {
    if piped then p.pipeOutHandle else if p.redirectionOut && hasNext then p.redirectionOutHandle else env.stdOut
  }

  /** One call that creates a process. */
  datatype Start = Start(position: nat, input: Handle, output: Handle)

  function StartAt(ps: seq<Program>, i: nat, env: Env): Start
    requires i < |ps|
  {
    var p := Started(ps, i, env, INVALID_HANDLE);
    var hasNext := Index(ps, i) + 1 < |ps|;
    Start(i, StageIn(p, hasNext, env), StageOut(p, hasNext, TakesOut(ps, i), env))
  }

  function Starts(ps: seq<Program>, i: nat, env: Env): seq<Start>
    requires i <= |ps|
    decreases |ps| - i
  {
    if i == |ps| then []
    else if Runs(ps[i]) then Starts(ps, i + 1, env) + [StartAt(ps, i, env)]
    else Starts(ps, i + 1, env)
  }

  /** What the program at i of a plain line is to read: the pipe before it, the file behind
      its '<', or the shell's input. */
  function MeantInput(ps: seq<Program>, i: nat, env: Env): Handle
    requires i < |ps|
  {
    if i > 0 && ps[i - 1].pipeOut then env.pipe(Rank(ps, i - 1)).read
    else if i + 1 < |ps| && ps[i].redirectionIn then OpenedAt(env, i + 1)
    else env.stdIn
  }

  /** And to write: its pipe, which may stand behind the file it reads, the file behind its
      '>', or the shell's output. */
  function MeantOutput(ps: seq<Program>, i: nat, env: Env): Handle
    requires i < |ps|
  {
    if i + 1 < |ps| && ps[i].pipeOut then env.pipe(Rank(ps, i)).write
    else if i + 1 < |ps| && ps[i].redirectionIn && ps[i + 1].pipeOut then env.pipe(Rank(ps, i + 1)).write
    else if i + 1 < |ps| && ps[i].redirectionOut then OpenedAt(env, i + 1)
    else env.stdOut
  }

  lemma StartMeant(ps: seq<Program>, i: nat, env: Env)
    requires Chained(ps) && NoBuiltin(ps) && Connectable(ps) && i < |ps| && Runs(ps[i])
    ensures StartAt(ps, i, env) == Start(i, MeantInput(ps, i, env), MeantOutput(ps, i, env))
  {
    hide TakesOut, Left, NoBuiltin, Index, Rank, EndAt;
    PlainStarted(ps, i, env, INVALID_HANDLE);
    PlainTakes(ps, i);
    if i > 0 {
      NextTo(ps, i - 1);
    }
    if i + 1 < |ps| {
      NextTo(ps, i);
      assert ps[i + 1].pipeOut ==> Connected(ps, i + 1);
    }
    assert ps[i].pipeOut ==> Connected(ps, i);
  }

  /** These processes were created with the handles they are to read from and to write to. */
  predicate AsMeant(ps: seq<Program>, started: seq<Start>, env: Env) {
    forall s | s in started ::
      && s.position < |ps| && Runs(ps[s.position])
      && s.input == MeantInput(ps, s.position, env) && s.output == MeantOutput(ps, s.position, env)
  }

  /** So is every process of a connectable line without built-ins. */
  lemma {:induction false} ProcessHandles(ps: seq<Program>, first: nat, env: Env)
    requires Chained(ps) && NoBuiltin(ps) && Connectable(ps) && first <= |ps|
    ensures AsMeant(ps, Starts(ps, first, env), env)
    decreases |ps| - first
  {
    hide StartAt, MeantInput, MeantOutput, Chained, NoBuiltin, Connectable;
    if first < |ps| {
      ProcessHandles(ps, first + 1, env);
      if Runs(ps[first]) {
        StartMeant(ps, first, env);
      }
    }
  }

  /** Commands that are piped one into the next, and nothing else. */
  predicate Pipeline(ps: seq<Program>) {
    ps != [] && forall i | 0 <= i < |ps| ::
      && !ps[i].file && !IsBuiltin(ps[i]) && !ps[i].redirectionIn && !ps[i].redirectionOut
      && (ps[i].pipeOut <==> i + 1 < |ps|)
  }

  lemma {:induction false} PipelineRank(ps: seq<Program>, i: nat)
    requires Pipeline(ps) && i < |ps|
    ensures Rank(ps, i) == i
  {
    if i > 0 {
      PipelineRank(ps, i - 1);
    }
  }

  /** The process of program i: they are created from the last to the first. */
  function StartOf(started: seq<Start>, i: nat): Start
    requires i < |started|
  {
    started[|started| - 1 - i]
  }

  lemma {:induction false} PipelineStarts(ps: seq<Program>, first: nat, env: Env, i: nat)
    requires Pipeline(ps) && first <= i < |ps|
    ensures |Starts(ps, first, env)| == |ps| - first && Starts(ps, first, env)[|ps| - 1 - i] == StartAt(ps, i, env)
    decreases |ps| - first
  {
    hide StartAt;
    if first + 1 < |ps| {
      PipelineStarts(ps, first + 1, env, if i == first then first + 1 else i);
    } else {
      assert Starts(ps, |ps|, env) == [];
    }
  }

  lemma PipelineStart(ps: seq<Program>, env: Env, i: nat)
    requires Chained(ps) && Pipeline(ps) && i < |ps|
    ensures |Starts(ps, 0, env)| == |ps|
    ensures StartOf(Starts(ps, 0, env), i) == Start(i, if i == 0 then env.stdIn else env.pipe(i - 1).read,
                                                    if i + 1 == |ps| then env.stdOut else env.pipe(i).write)
  {
    hide Chained, Starts, StartAt, Connectable, NoBuiltin;
    assert Connectable(ps) && NoBuiltin(ps) by { PipelineIsPlain(ps); }
    PipelineStarts(ps, 0, env, i);
    StartMeant(ps, i, env);
    PipelineRank(ps, i);
    if i > 0 {
      PipelineRank(ps, i - 1);
    }
  }

  lemma PipelineIsPlain(ps: seq<Program>)
    requires Pipeline(ps)
    ensures Connectable(ps) && NoBuiltin(ps)
  {
  }

  /** In a | b | ... | z the processes are created from the last to the first; a reads the
      shell's input, z writes the shell's output, and what one writes is the pipe that the
      next one reads. */
  lemma PipelineHandles(ps: seq<Program>, env: Env)
    requires Chained(ps) && Pipeline(ps)
    ensures var n, started := |ps|, Starts(ps, 0, env);
            && |started| == n && (forall i | 0 <= i < n :: StartOf(started, i).position == i)
            && StartOf(started, 0).input == env.stdIn && StartOf(started, n - 1).output == env.stdOut
            && forall i | 0 <= i < n - 1 ::
                 StartOf(started, i).output == env.pipe(i).write && StartOf(started, i + 1).input == env.pipe(i).read
  {
    hide Chained, Starts, StartOf;
    var n, started := |ps|, Starts(ps, 0, env);
    PipelineStart(ps, env, 0);
    PipelineStart(ps, env, n - 1);
    forall i | 0 <= i < n ensures StartOf(started, i).position == i {
      PipelineStart(ps, env, i);
    }
    forall i | 0 <= i < n - 1 ensures StartOf(started, i).output == env.pipe(i).write && StartOf(started, i + 1).input == env.pipe(i).read {
      PipelineStart(ps, env, i);
      PipelineStart(ps, env, i + 1);
    }
  }

  // ----- built-ins in the text of a line ----------------------------------------------

  /** A word stands at the end of t, with nothing but blanks, and at least one, between it
      and position `from`. */
  predicate WordAfter(t: string, from: nat, word: string) {
    && from + |word| < |t| && t[|t| - |word|..] == word
    && forall i | from <= i < |t| - |word| :: t[i] == ' '
  }

  /** How a built-in is written: cd and anything that is not a letter, or echo and then on
      or off.  A file is taken for one if it is called cd. */
  predicate BuiltinText(t: string, file: bool) {
    if file then t == "cd"
    else
      || (|t| >= 2 && t[0] == 'c' && t[1] == 'd' && (|t| > 2 ==> !IsAlpha(t[2] as int)))
      || (|t| >= 4 && t[..4] == "echo" && (WordAfter(t, 4, "on") || WordAfter(t, 4, "off")))
  }

  lemma LeadIs(s: string, n: nat)
    requires n < |s| && s[n] != ' ' && forall i | 0 <= i < n :: s[i] == ' '
    ensures CutBlanks(s) == s[n..]
  {
    hide Blank;
  }

  lemma ArgumentIs(t: string, from: nat, word: string)
    requires from < |t| && t[from] == ' ' && word != "" && word[0] != ' '
    ensures CutBlanks(t[from..]) == word <==> WordAfter(t, from, word)
  {
    hide CutBlanks;
    SuffixTrimmed(t, from);
    if WordAfter(t, from, word) {
      var s, n := t[from..], |t| - |word| - from;
      assert s[n..] == t[|t| - |word|..];
      assert s[n] == t[|t| - |word|..][0];
      LeadIs(s, n);
    }
    if CutBlanks(t[from..]) == word {
      BlankBetween(t, from, |t| - |word|);
      assert t[|t| - |word|] == word[0];
    }
  }

  lemma BlankBetween(t: string, from: nat, to: nat)
    requires from <= to <= |t| && Blank(t[from..to])
    ensures forall i | from <= i < to :: t[i] == ' '
  {
    forall i | from <= i < to ensures t[i] == ' ' {
      assert t[from..to][i - from] == ' ';
    }
  }

  lemma CommandIs(t: string, word: string)
    requires forall i | 0 <= i < |word| :: IsLetter(word[i])
    ensures t[..Letters(t)] == word <==> |word| <= |t| && t[..|word|] == word && (|word| < |t| ==> !IsLetter(t[|word|]))
  {
    hide Letters, IsLetter;
    if |word| <= |t| && t[..|word|] == word && (|word| < |t| ==> !IsLetter(t[|word|])) {
      forall i | 0 <= i < |word| ensures IsLetter(t[i]) {
        assert t[i] == word[i];
      }
      LettersAre(t, |word|);
    }
  }

  /** Which programs the walk passes over, read off the text of their piece. */
  lemma BuiltinIff(text: string, left: char, right: char)
    ensures IsBuiltin(ProgramOf(text, left, right)) <==> BuiltinText(Trim(text), ProgramOf(text, left, right).file)
  {
    hide Trim, Letters, CutBlanks, WordAfter;
    var t := Trim(text);
    CommandIs(t, "cd");
    CommandIs(t, "echo");
    if |t| > 4 && t[4] == ' ' {
      ArgumentIs(t, 4, "on");
      ArgumentIs(t, 4, "off");
    }
    NoWord(t, "on");
    NoWord(t, "off");
    NoArgument(t, "on");
    NoArgument(t, "off");
  }

  lemma NoWord(t: string, word: string)
    ensures WordAfter(t, 4, word) ==> |t| > 4 && t[4] == ' '
  {
  }

  lemma NoArgument(t: string, word: string)
    requires word != "" && IsLetter(word[0])
    ensures |t| >= 4 && CutBlanks(t[4..]) == word && (|t| > 4 ==> !IsLetter(t[4])) ==> |t| > 4 && t[4] == ' '
  {
    if |t| > 4 && t[4] != ' ' {
      LeadIs(t[4..], 0);
    }
  }

  /** A line of one command: unless it is a built-in, one process is created, on the input
      and the output of the shell. */
  lemma OneCommand(line: string, env: Env)
    requires line != "" && forall i | 0 <= i < |line| :: line[i] != '|' && line[i] != '<' && line[i] != '>'
    ensures Starts(ProgramsOf(Pieces(line)), 0, env) == if BuiltinText(Trim(line), false) then [] else [Start(0, env.stdIn, env.stdOut)]
  {
    hide ProgramOf, Trim, BuiltinText, IsBuiltin;
    assert Pieces(line) == [Piece(line, NUL)];
    var ps := ProgramsOf(Pieces(line));
    assert ps == [ProgramOf(line, NUL, NUL)];
    BuiltinIff(line, NUL, NUL);
    PlainFlags(line);
    assert Starts(ps, 1, env) == [];
    assert Index(ps, 0) == 0;
  }

  lemma PlainFlags(line: string)
    ensures var p := ProgramOf(line, NUL, NUL); !p.file && !p.pipeIn && !p.pipeOut && !p.redirectionIn && !p.redirectionOut
  {
  }

  /** The file behind the index can be opened, if the program at i is redirected to it. */
  predicate FilesOpen(ps: seq<Program>, i: nat, env: Env)
    requires i < |ps|
  {
    var x := Index(ps, i);
    x + 1 < |ps| && (ps[i].redirectionIn || ps[i].redirectionOut) ==> env.open(x + 1).Done?
  }

  /** Nothing the program at i asks for fails. */
  predicate Succeeds(ps: seq<Program>, i: nat, env: Env)
    requires i < |ps|
  {
    !Runs(ps[i]) || (FilesOpen(ps, i, env) && env.create(i).Done?)
  }
}
