/** Running a line: the pipes are made, the programs started from the last to the first,
    and the processes reaped one by one. */
module ShellRun {
  import opened Common
  import opened ShellLine
  import opened ShellWiring
  import opened ShellReap

  method CountPipes(programs: seq<Program>) returns (count: nat)
    ensures count == Rank(programs, |programs|)
  {
    count := 0;
    for i := 0 to |programs|
      invariant count == Rank(programs, i)
    {
      if programs[i].pipeOut {
        count := count + 1;
      }
    }
  }

  /** What has become of the program at j once the walk is past it. */
  function Handled(ps: seq<Program>, j: nat, env: Env): Program
    requires j < |ps|
  {
    if Runs(ps[j]) then Started(ps, j, env, if env.create(j).Done? then env.create(j).handle else INVALID_HANDLE) else ps[j]
  }

  /** The programs from i on are handled, and only those have processes. */
  ghost predicate StartedFrom(programs: seq<Program>, ps: seq<Program>, i: nat, env: Env) {
    && |programs| == |ps| && i <= |ps|
    && (forall j | 0 <= j < i :: programs[j].handle == INVALID_HANDLE)
    && (forall j | i <= j < |ps| :: programs[j] == Handled(ps, j, env))
    && (forall j | i <= j < |ps| && Runs(ps[j]) :: env.create(j).Done?)
  }

  /** Handles of the programs started from i on, in the order they were started. */
  function Processes(ps: seq<Program>, i: nat, env: Env): seq<Handle>
    requires i <= |ps|
    decreases |ps| - i
  {
    if i == |ps| then []
    else if Runs(ps[i]) && env.create(i).Done? then Processes(ps, i + 1, env) + [env.create(i).handle]
    else Processes(ps, i + 1, env)
  }

  /** What is closed for a program that could not be created: the ends it has popped (and
      no handle at all in place of an end it should have popped). */
  function GivenBack(ps: seq<Program>, i: nat, env: Env): seq<Handle>
    requires i < |ps|
  {
    var p := Started(ps, i, env, INVALID_HANDLE);
    (if p.pipeIn then [p.pipeInHandle] else []) + (if p.pipeOut then [p.pipeOutHandle] else [])
  }

  /** Ends left on the stack when the walk stopped at program first - 1, or did not stop:
      a program whose file does not open pops nothing. */
  function LeftOver(ps: seq<Program>, first: nat, env: Env): int
    requires first <= |ps|
  {
    if first > 0 && FilesOpen(ps, first - 1, env) then Left(ps, first - 1) else Left(ps, first)
  }

  function GivenBackAt(ps: seq<Program>, first: nat, env: Env): seq<Handle>
    requires first <= |ps|
  {
    if first > 0 && FilesOpen(ps, first - 1, env) then GivenBack(ps, first - 1, env) else []
  }

  /** One line being executed: the programs, the stack of pipe ends, the processes to
      wait for, and what was asked of the kernel so far. */
  class Execution {
    var programs: seq<Program>
    var pipes: seq<Handle>
    var active: seq<Handle>
    var started: seq<Start>
    var closed: seq<Handle>
    var reaped: seq<Handle>

    constructor (line: seq<Program>)
      ensures programs == line && pipes == active == closed == reaped == [] && started == []
    {
      programs, pipes, active, started, closed, reaped := line, [], [], [], [], [];
    }

    /** Makes a pipe for every program that is piped on. */
    method CreatePipes(env: Env)
      requires pipes == []
      modifies this`pipes
      ensures pipes == Ends(env, Rank(programs, |programs|))
    {
      var count := CountPipes(programs);
      for i := 0 to count
        invariant pipes == Ends(env, i)
      {
        pipes := pipes + [env.pipe(i).write];
        pipes := pipes + [env.pipe(i).read];
      }
    }

    method CloseHandle(handle: Handle)
      modifies this`closed
      ensures closed == old(closed) + [handle]
    {
      closed := closed + [handle];
    }

    /** Takes the last handle off the stack. */
    method PopPipe() returns (handle: Handle)
      requires pipes != []
      modifies this`pipes
      ensures pipes == old(pipes)[..|old(pipes)| - 1] && handle == old(pipes)[|old(pipes)| - 1]
    {
      handle := pipes[|pipes| - 1];
      pipes := pipes[..|pipes| - 1];
    }

    /** The stack still holds the first ends pushed, as many as are left. */
    ghost predicate Holds(ps: seq<Program>, left: int, env: Env)
      reads this
    {
      |pipes| == left && forall j | 0 <= j < |pipes| :: pipes[j] == EndAt(env, j)
    }

    /** The walk has come down to position i. */
    ghost predicate Underway(ps: seq<Program>, i: nat, env: Env)
      reads this
    {
      && i <= |ps| && StartedFrom(programs, ps, i, env)
      && (forall j | 0 <= j < i :: programs[j] == ps[j])
      && Holds(ps, Left(ps, i), env)
      && active == Processes(ps, i, env) && started == Starts(ps, i, env)
    }

    /** Opens the file behind the index for a program that is redirected to it. */
    method OpenRedirections(i: nat, index: nat, env: Env) returns (ok: bool, p: Program, input: Handle, output: Handle)
      requires i < |programs| && index + 1 < |programs|
      ensures ok <==> (programs[i].redirectionIn || programs[i].redirectionOut ==> env.open(index + 1).Done?)
      ensures var q := programs[i];
              ok ==>
                && p == q.(pipeOut := q.pipeOut || (q.redirectionIn && index + 2 < |programs| && programs[index + 1].pipeOut),
                           redirectionInHandle := if q.redirectionIn then OpenedAt(env, index + 1) else q.redirectionInHandle,
                           redirectionOutHandle := if q.redirectionOut then OpenedAt(env, index + 1) else q.redirectionOutHandle)
                && input == (if q.redirectionIn then OpenedAt(env, index + 1) else env.stdIn)
                && output == (if q.redirectionOut then OpenedAt(env, index + 1) else env.stdOut)
    {
      p, input, output := programs[i], env.stdIn, env.stdOut;
      if p.redirectionIn {
        var file := env.open(index + 1);
        if file.Failed? {
          return false, p, input, output;
        }
        input := file.handle;
        p := p.(redirectionInHandle := input);
        if programs[index + 1].pipeOut && |programs| > index + 2 {
          p := p.(pipeOut := true);
        }
      }
      if p.redirectionOut {
        var file := env.open(index + 1);
        if file.Failed? {
          return false, p, input, output;
        }
        output := file.handle;
        p := p.(redirectionOutHandle := output);
      }
      return true, p, input, output;
    }

    /** Gives the program at i its files and its ends of pipes. */
    method Wire(i: nat, index: nat, env: Env, ghost ps: seq<Program>) returns (ok: bool, p: Program, input: Handle, output: Handle)
      requires Chained(ps) && i < |ps| && Runs(ps[i]) && Underway(ps, i + 1, env) && index == Index(ps, i)
      modifies this`pipes
      ensures ok <==> FilesOpen(ps, i, env)
      ensures if ok then Holds(ps, Left(ps, i), env) else pipes == old(pipes)
      ensures ok ==> p == Started(ps, i, env, INVALID_HANDLE) && Start(i, input, output) == StartAt(ps, i, env)
    {
      hide Left, Chained, Index, TakesOut, EndAt;
      EnoughLeft(ps, i);
      FreshInside(ps, i);
      p, input, output := programs[i], env.stdIn, env.stdOut;
      ghost var taken := TakesOut(ps, i);
      TakesOutNow(ps, i, programs, env);
      if index != |programs| - 1 {
        ok, p, input, output := OpenRedirections(i, index, env);
        if !ok {
          return;
        }
        if p.pipeOut {
          output := PopPipe();
          p := p.(pipeOutHandle := output);
        }
      }
      if p.pipeIn {
        input := PopPipe();
        p := p.(pipeInHandle := input);
      }
      return true, p, input, output;
    }

    /** Starts the program at i; if it cannot be created, closes the ends it was given. */
    method StartProgram(i: nat, index: nat, env: Env, ghost ps: seq<Program>) returns (ok: bool)
      requires Chained(ps) && i < |ps| && Runs(ps[i]) && Underway(ps, i + 1, env) && index == Index(ps, i)
      modifies this`programs, this`pipes, this`active, this`started, this`closed
      ensures ok <==> Succeeds(ps, i, env)
      ensures ok ==> Underway(ps, i, env) && closed == old(closed)
      ensures |programs| == |ps| && forall j | 0 <= j < i :: programs[j] == ps[j]
      ensures !ok ==> active == Processes(ps, i + 1, env) && started == Starts(ps, i + 1, env) && StartedFrom(programs, ps, i + 1, env)
      ensures !ok ==> Holds(ps, LeftOver(ps, i + 1, env), env) && closed == old(closed) + GivenBackAt(ps, i + 1, env)
    {
      hide Left, Chained, Index, TakesOut, EndAt;
      FreshInside(ps, i);
      var p, input, output;
      ok, p, input, output := Wire(i, index, env, ps);
      if !ok {
        return;
      }
      var process := env.create(i);
      if process.Failed? {
        if p.pipeIn {
          CloseHandle(p.pipeInHandle);
        }
        if p.pipeOut {
          CloseHandle(p.pipeOutHandle);
        }
        programs := programs[i := p];
        return false;
      }
      p := p.(handle := process.handle);
      programs := programs[i := p];
      active := active + [process.handle];
      started := started + [Start(i, input, output)];
    }

    lemma BeginsWalk(env: Env, ps: seq<Program>)
      requires Chained(ps) && programs == ps && pipes == Ends(env, Rank(ps, |ps|)) && active == [] && started == []
      ensures Underway(ps, |ps|, env)
    {
      hide Left, EndAt, Chained;
      EndsAre(env, Rank(ps, |ps|));
      NothingPopped(ps);
      NoneStarted(ps, env);
    }

    lemma WalkDone(env: Env, ps: seq<Program>)
      requires Underway(ps, 0, env)
      ensures Holds(ps, LeftOver(ps, 0, env), env) && GivenBackAt(ps, 0, env) == [] && closed + [] == closed
      ensures active == Processes(ps, 0, env) && started == Starts(ps, 0, env) && StartedFrom(programs, ps, 0, env)
    {
    }

    lemma PassesOver(i: nat, env: Env, ps: seq<Program>)
      requires Chained(ps) && i < |ps| && !Runs(ps[i]) && Underway(ps, i + 1, env)
      ensures Underway(ps, i, env)
    {
      hide Left, EndAt, Chained, Started, Runs;
      Skipped(ps, i, env);
      FreshInside(ps, i);
    }

    /** Starts the programs from the last to the first, until one fails.  Built-ins are
        skipped, and the index stays where it is. */
    method StartPrograms(env: Env, ghost ps: seq<Program>) returns (ghost first: nat)
      requires Chained(ps) && programs == ps && pipes == Ends(env, Rank(ps, |ps|))
      requires active == [] && started == []
      modifies this`programs, this`pipes, this`active, this`started, this`closed
      ensures first <= |ps| && (forall j | first <= j < |ps| :: Succeeds(ps, j, env))
      ensures first > 0 ==> !Succeeds(ps, first - 1, env)
      ensures active == Processes(ps, first, env) && started == Starts(ps, first, env) && StartedFrom(programs, ps, first, env)
      ensures Holds(ps, LeftOver(ps, first, env), env) && closed == old(closed) + GivenBackAt(ps, first, env)
    {
      hide Chained, Index, Underway, Holds, StartedFrom, Left, LeftOver, GivenBackAt, FilesOpen;
      BeginsWalk(env, ps);
      NothingPopped(ps);
      var index := |programs| - 1;
      var position := |programs|;
      while position > 0
        invariant 0 <= position <= |ps| && Underway(ps, position, env)
        invariant |programs| == |ps| && forall j | 0 <= j < position :: programs[j] == ps[j]
        invariant position > 0 ==> index == Index(ps, position - 1)
        invariant forall j | position <= j < |ps| :: Succeeds(ps, j, env)
        invariant closed == old(closed)
      {
        position := position - 1;
        IndexMoves(ps, position);
        if IsBuiltin(programs[position]) {
          PassesOver(position, env, ps);
          continue;
        }
        if programs[position].file {
          PassesOver(position, env, ps);
          index := index - 1;
          continue;
        }
        var ok := StartProgram(position, index, env, ps);
        if !ok {
          return position + 1;
        }
        index := index - 1;
      }
      WalkDone(env, ps);
      first := 0;
    }

    /** Closes what a finished program was given. */
    method CloseProgram(p: Program)
      modifies this`closed
      ensures closed == old(closed) + Closings(p)
    {
      if p.pipeIn {
        CloseHandle(p.pipeInHandle);
      }
      if p.pipeOut {
        CloseHandle(p.pipeOutHandle);
      }
      if p.redirectionIn {
        CloseHandle(p.redirectionInHandle);
      }
      if p.redirectionOut {
        CloseHandle(p.redirectionOutHandle);
      }
    }

    /** The program a process was started for. */
    method FindProgram(handle: Handle) returns (index: nat)
      requires HasProgram(programs, handle)
      ensures index < |programs| && programs[index].handle == handle
    {
      index := 0;
      while programs[index].handle != handle
        invariant index < |programs| && forall j | 0 <= j < index :: programs[j].handle != handle
        decreases |programs| - index
      {
        index := index + 1;
      }
    }

    /** Waits for the processes until none is left.  Each is reaped once, in whatever
        order they finish, and for each the handles of its program are closed once. */
    method Reap(env: Env)
      requires Reapable(programs, active) && forall n: nat :: n > 0 ==> env.signal(n) < n
      modifies this`programs, this`active, this`closed, this`reaped
      ensures active == []
      ensures programs == Unreaped(old(programs), Live(old(active)))
      ensures multiset(reaped) == multiset(old(reaped)) + multiset(old(active))
      ensures multiset(closed) == multiset(old(closed)) + AllClosings(old(programs), Live(old(active)))
    {
      hide Closings, AllClosings, Unreaped, Live;
      while |active| > 0
        invariant Reapable(programs, active)
        invariant Unreaped(programs, Live(active)) == Unreaped(old(programs), Live(old(active)))
        invariant multiset(reaped) + multiset(active) == multiset(old(reaped)) + multiset(old(active))
        invariant multiset(closed) + AllClosings(programs, Live(active))
               == multiset(old(closed)) + AllClosings(old(programs), Live(old(active)))
        decreases |active|
      {
        var signal := env.signal(|active|);
        var index := FindProgram(active[signal]);
        ReapOne(programs, active, index, signal);
        assert active == active[..signal] + [active[signal]] + active[signal + 1..];
        reaped := reaped + [active[signal]];
        CloseProgram(programs[index]);
        programs := programs[..index] + programs[index + 1..];
        active := active[..signal] + active[signal + 1..];
      }
      NothingLive(programs);
    }

    /** Executes a line: makes the pipes, starts the programs from the last to the first
        and reaps those that were started.  Whatever fails, every end is closed exactly
        once or is still on the stack; which lines leave none there, and are wired as they
        are meant to be, is said by WiredIff.  What stays open after a failure are the ends
        on the stack and the file of a program that could not be created. */
    method ExecuteCommands(env: Env, ghost ps: seq<Program>) returns (ghost first: nat)
      requires Chained(ps) && programs == ps && pipes == active == closed == reaped == [] && started == []
      requires DistinctProcesses(ps, env) && forall n: nat :: n > 0 ==> env.signal(n) < n
      modifies this
      ensures first <= |ps| && (forall j | first <= j < |ps| :: Succeeds(ps, j, env))
      ensures first > 0 ==> !Succeeds(ps, first - 1, env)
      ensures active == [] && multiset(reaped) == multiset(Processes(ps, first, env))
      ensures forall p | p in programs :: p.handle == INVALID_HANDLE
      ensures started == Starts(ps, first, env)
      ensures Connectable(ps) && NoBuiltin(ps) ==> AsMeant(ps, started, env)
      ensures |pipes| == LeftOver(ps, first, env) && pipes <= Ends(env, Rank(ps, |ps|))
      ensures multiset(closed) + multiset(pipes)
              == multiset(Ends(env, Rank(ps, |ps|))) + AlsoClosedFrom(ps, first, env) + AlsoGivenBack(ps, first, env)
      ensures first == 0 && BuiltinsAlone(ps) ==> (pipes == [] <==> Connectable(ps))
    {
      hide Chained, Connectable, BuiltinsAlone, Reapable, AllClosings, FilesOpen, StartedFrom, Starts, Ends, EndAt, Left, LeftOver,
           GivenBackAt, Processes, Live, DistinctProcesses, AlsoClosedFrom, AlsoGivenBack, Started, Unreaped, NoBuiltin, AsMeant;
      CreatePipes(env);
      first := StartPrograms(env, ps);
      if Connectable(ps) && NoBuiltin(ps) {
        ProcessHandles(ps, first, env);
      }
      StackIsPrefix(ps, first, env, pipes);
      StartedIsReapable(programs, ps, first, env);
      NothingStays(programs, ps, first, env);
      EverythingClosed(programs, ps, first, env);
      GivenBackClosed(ps, first, env);
      ghost var given, all := multiset(closed), AllClosings(programs, Live(active));
      assert [] + GivenBackAt(ps, first, env) == GivenBackAt(ps, first, env);
      Reap(env);
      NothingLeftOver(ps, first, env);
      AddUp(given, all, multiset(pipes), multiset(EndsUpTo(ps, Left(ps, first), env)), multiset(Ends(env, Rank(ps, |ps|))),
            AlsoClosedFrom(ps, first, env), AlsoGivenBack(ps, first, env));
    }
  }

  // ----- the walk ---------------------------------------------------------------------

  lemma FreshInside(ps: seq<Program>, i: nat)
    requires Chained(ps) && i < |ps|
    ensures Fresh(ps[i])
  {
  }

  lemma NoneStarted(ps: seq<Program>, env: Env)
    requires Chained(ps)
    ensures StartedFrom(ps, ps, |ps|, env)
  {
    forall j | 0 <= j < |ps| ensures ps[j].handle == INVALID_HANDLE {
      assert Fresh(ps[j]);
    }
  }

  lemma NothingPopped(ps: seq<Program>)
    ensures Left(ps, |ps|) == 2 * Rank(ps, |ps|)
    ensures ps != [] ==> Index(ps, |ps| - 1) == |ps| - 1
  {
  }

  lemma IndexMoves(ps: seq<Program>, i: nat)
    requires i < |ps|
    ensures i > 0 ==> Index(ps, i - 1) == Index(ps, i) - (if IsBuiltin(ps[i]) then 0 else 1)
  {
  }

  /** The flags the walk looks at: those behind the index may have been set on the way. */
  lemma TakesOutNow(ps: seq<Program>, i: nat, programs: seq<Program>, env: Env)
    requires i < |ps| && Runs(ps[i]) && StartedFrom(programs, ps, i + 1, env)
    ensures var x := Index(ps, i);
            TakesOut(ps, i) <==> x + 1 < |ps| && (ps[i].pipeOut || (ps[i].redirectionIn && x + 2 < |ps| && programs[x + 1].pipeOut))
  {
    var x := Index(ps, i);
    if x + 1 < |ps| {
      assert programs[x + 1] == Handled(ps, x + 1, env);
      NotTaken(ps, x + 1);
    }
  }

  lemma NotTaken(ps: seq<Program>, i: nat)
    requires i < |ps|
    ensures !Runs(ps[i]) ==> !TakesOut(ps, i) && !TakesIn(ps, i)
  {
  }

  /** A file or a built-in leaves everything as it is. */
  lemma Skipped(ps: seq<Program>, i: nat, env: Env)
    requires Chained(ps) && i < |ps| && !Runs(ps[i])
    ensures Left(ps, i) == Left(ps, i + 1) && Handled(ps, i, env) == ps[i]
    ensures Starts(ps, i, env) == Starts(ps, i + 1, env) && Processes(ps, i, env) == Processes(ps, i + 1, env)
  {
    NotTaken(ps, i);
  }

  // ----- the processes ----------------------------------------------------------------

  predicate DistinctProcesses(ps: seq<Program>, env: Env) {
    && (forall i | 0 <= i < |ps| && env.create(i).Done? :: env.create(i).handle != INVALID_HANDLE)
    && (forall i, j | 0 <= i < j < |ps| && env.create(i).Done? && env.create(j).Done? :: env.create(i).handle != env.create(j).handle)
  }

  lemma {:induction false} ProcessAt(ps: seq<Program>, i: nat, env: Env, k: nat) returns (j: nat)
    requires i <= |ps| && k < |Processes(ps, i, env)|
    ensures i <= j < |ps| && Runs(ps[j]) && env.create(j) == Done(Processes(ps, i, env)[k])
    decreases |ps| - i
  {
    if k < |Processes(ps, i + 1, env)| {
      j := ProcessAt(ps, i + 1, env, k);
    } else {
      j := i;
    }
  }

  lemma {:induction false} ProcessesAre(ps: seq<Program>, i: nat, env: Env)
    requires i <= |ps| && DistinctProcesses(ps, env)
    ensures var hs := Processes(ps, i, env);
            && INVALID_HANDLE !in hs
            && (forall j | i <= j < |ps| && Runs(ps[j]) && env.create(j).Done? :: env.create(j).handle in hs)
            && (forall k, l | 0 <= k < l < |hs| :: hs[k] != hs[l])
    decreases |ps| - i
  {
    var hs := Processes(ps, i, env);
    if i < |ps| {
      ProcessesAre(ps, i + 1, env);
      forall k | 0 <= k < |Processes(ps, i + 1, env)| && env.create(i).Done? ensures hs[k] != env.create(i).handle {
        var j := ProcessAt(ps, i + 1, env, k);
      }
    }
  }

  lemma HandleOf(programs: seq<Program>, ps: seq<Program>, first: nat, env: Env, i: nat)
    requires Chained(ps) && StartedFrom(programs, ps, first, env) && i < |ps|
    ensures programs[i].handle == if i < first || !Runs(ps[i]) then INVALID_HANDLE else env.create(i).handle
    ensures i >= first && Runs(ps[i]) ==> env.create(i).Done?
  {
    assert Fresh(ps[i]);
    assert i >= first ==> programs[i] == Handled(ps, i, env);
  }

  lemma StartedIsReapable(programs: seq<Program>, ps: seq<Program>, first: nat, env: Env)
    requires Chained(ps) && StartedFrom(programs, ps, first, env) && DistinctProcesses(ps, env)
    ensures Reapable(programs, Processes(ps, first, env))
  {
    hide Processes, Chained, Live;
    var hs := Processes(ps, first, env);
    ProcessesAre(ps, first, env);
    forall k | 0 <= k < |hs| ensures HasProgram(programs, hs[k]) {
      var j := ProcessAt(ps, first, env, k);
      HandleOf(programs, ps, first, env, j);
    }
    forall i, j | 0 <= i < j < |programs| && programs[i].handle == programs[j].handle ensures programs[i].handle !in Live(hs) {
      HandleOf(programs, ps, first, env, i);
      HandleOf(programs, ps, first, env, j);
      LiveIs(hs, INVALID_HANDLE);
    }
  }

  lemma {:induction false} UnreapedIn(programs: seq<Program>, live: set<Handle>, p: Program)
    requires p in Unreaped(programs, live)
    ensures p in programs && p.handle !in live
  {
    if programs[0].handle in live || p != programs[0] {
      UnreapedIn(programs[1..], live, p);
    }
  }

  /** No program that is left in the list has a process. */
  lemma NothingStays(programs: seq<Program>, ps: seq<Program>, first: nat, env: Env)
    requires Chained(ps) && StartedFrom(programs, ps, first, env) && DistinctProcesses(ps, env)
    ensures forall p | p in Unreaped(programs, Live(Processes(ps, first, env))) :: p.handle == INVALID_HANDLE
  {
    hide Processes, Chained, Live, Unreaped;
    var hs := Processes(ps, first, env);
    ProcessesAre(ps, first, env);
    forall p | p in Unreaped(programs, Live(hs)) ensures p.handle == INVALID_HANDLE {
      UnreapedIn(programs, Live(hs), p);
      var i :| 0 <= i < |programs| && programs[i] == p;
      HandleOf(programs, ps, first, env, i);
      LiveIs(hs, p.handle);
    }
  }

  // ----- conservation of ends ---------------------------------------------------------

  /** The lowest `left` ends of the stack. */
  function EndsUpTo(ps: seq<Program>, left: int, env: Env): seq<Handle> {
    var all := Ends(env, Rank(ps, |ps|));
    if 0 <= left <= |all| then all[..left] else all
  }

  lemma UpTo(ps: seq<Program>, left: nat, more: nat, env: Env)
    requires left <= more <= left + 1 && more <= 2 * Rank(ps, |ps|)
    ensures EndsUpTo(ps, more, env) == EndsUpTo(ps, left, env) + (if left < more then [EndAt(env, left)] else [])
    ensures |EndsUpTo(ps, left, env)| == left
  {
    EndsAre(env, Rank(ps, |ps|));
  }

  /** What is closed beside the ends a program popped: its files, and no handle at all in
      place of an end it is flagged for but did not pop. */
  function AlsoClosed(ps: seq<Program>, i: nat, env: Env): multiset<Handle>
    requires i < |ps|
  {
    FilesOf(Started(ps, i, env, INVALID_HANDLE)) + NotPopped(ps, i)
  }

  function NotPopped(ps: seq<Program>, i: nat): multiset<Handle>
    requires i < |ps|
  {
    if ps[i].pipeOut && !TakesOut(ps, i) then multiset{INVALID_HANDLE} else multiset{}
  }

  function AlsoClosedFrom(ps: seq<Program>, i: nat, env: Env): multiset<Handle>
    requires i <= |ps|
    decreases |ps| - i
  {
    if i == |ps| then multiset{}
    else if Runs(ps[i]) then AlsoClosed(ps, i, env) + AlsoClosedFrom(ps, i + 1, env)
    else AlsoClosedFrom(ps, i + 1, env)
  }

  function AlsoGivenBack(ps: seq<Program>, first: nat, env: Env): multiset<Handle>
    requires first <= |ps|
  {
    if first > 0 && FilesOpen(ps, first - 1, env) then NotPopped(ps, first - 1) else multiset{}
  }

  /** The ends a program pops are those between two heights of the stack. */
  lemma PopsBetween(ps: seq<Program>, i: nat, env: Env)
    requires Chained(ps) && i < |ps|
    ensures 0 <= Left(ps, i) && Left(ps, i + 1) <= 2 * Rank(ps, |ps|)
    ensures EndsUpTo(ps, Left(ps, i + 1), env)
            == EndsUpTo(ps, Left(ps, i), env) + (if TakesIn(ps, i) then [EndAt(env, Left(ps, i))] else [])
               + (if TakesOut(ps, i) then [EndAt(env, Left(ps, i + 1) - 1)] else [])
  {
    hide TakesIn, TakesOut, EndAt, EndsUpTo, Chained;
    EnoughLeft(ps, i);
    LeftShrinks(ps, i + 1, |ps|);
    var mid := Left(ps, i) + One(TakesIn(ps, i));
    UpTo(ps, Left(ps, i), mid, env);
    UpTo(ps, mid, Left(ps, i + 1), env);
  }

  /** What is given back is what was taken off the stack. */
  lemma GivesBackPopped(ps: seq<Program>, i: nat, env: Env)
    requires Chained(ps) && i < |ps| && Runs(ps[i])
    ensures multiset(GivenBack(ps, i, env)) + multiset(EndsUpTo(ps, Left(ps, i), env))
            == multiset(EndsUpTo(ps, Left(ps, i + 1), env)) + NotPopped(ps, i)
  {
    hide TakesOut, EndAt, EndsUpTo, Left, Index, Chained;
    PopsBetween(ps, i, env);
    var taken := if TakesIn(ps, i) then [EndAt(env, Left(ps, i))] else [];
    var given := if TakesOut(ps, i) then [EndAt(env, Left(ps, i + 1) - 1)] else [];
    assert multiset(GivenBack(ps, i, env)) == multiset(taken) + (multiset(given) + NotPopped(ps, i));
  }

  function FilesOf(p: Program): multiset<Handle> {
    (if p.redirectionIn then multiset{p.redirectionInHandle} else multiset{})
    + (if p.redirectionOut then multiset{p.redirectionOutHandle} else multiset{})
  }

  lemma ClosingsParts(ps: seq<Program>, i: nat, env: Env, process: Handle)
    requires i < |ps|
    ensures multiset(Closings(Started(ps, i, env, process))) == multiset(GivenBack(ps, i, env)) + FilesOf(Started(ps, i, env, INVALID_HANDLE))
  {
    hide TakesOut, TakesIn, EndAt, Left, Index, Closings, FilesOf;
    SplitClosings(Started(ps, i, env, process));
    SameFiles(Started(ps, i, env, process), Started(ps, i, env, INVALID_HANDLE));
  }

  lemma SplitClosings(p: Program)
    ensures multiset(Closings(p)) == multiset((if p.pipeIn then [p.pipeInHandle] else []) + (if p.pipeOut then [p.pipeOutHandle] else [])) + FilesOf(p)
  {
    var ends := (if p.pipeIn then [p.pipeInHandle] else []) + (if p.pipeOut then [p.pipeOutHandle] else []);
    var files := (if p.redirectionIn then [p.redirectionInHandle] else []) + (if p.redirectionOut then [p.redirectionOutHandle] else []);
    assert Closings(p) == ends + files;
  }

  lemma SameFiles(p: Program, q: Program)
    requires p.redirectionIn == q.redirectionIn && p.redirectionInHandle == q.redirectionInHandle
    requires p.redirectionOut == q.redirectionOut && p.redirectionOutHandle == q.redirectionOutHandle
    ensures FilesOf(p) == FilesOf(q)
  {
  }

  /** What a program closes is what it took off the stack, and what is closed beside. */
  lemma StageClosings(ps: seq<Program>, i: nat, env: Env, process: Handle)
    requires Chained(ps) && i < |ps| && Runs(ps[i])
    ensures multiset(Closings(Started(ps, i, env, process))) + multiset(EndsUpTo(ps, Left(ps, i), env))
            == multiset(EndsUpTo(ps, Left(ps, i + 1), env)) + AlsoClosed(ps, i, env)
  {
    hide GivenBack, EndsUpTo, Left, Started, Chained, FilesOf, NotPopped, Closings;
    GivesBackPopped(ps, i, env);
    ClosingsParts(ps, i, env, process);
    AddUp(multiset(GivenBack(ps, i, env)), FilesOf(Started(ps, i, env, INVALID_HANDLE)), multiset(EndsUpTo(ps, Left(ps, i), env)),
          multiset{}, multiset{}, FilesOf(Started(ps, i, env, INVALID_HANDLE)),
          multiset(EndsUpTo(ps, Left(ps, i + 1), env)) + NotPopped(ps, i));
  }

  lemma Balance(all: multiset<Handle>, later: multiset<Handle>, here: multiset<Handle>,
                stack: multiset<Handle>, stack': multiset<Handle>, more: multiset<Handle>)
    requires all == here + later && here + stack == stack' + more
    ensures all + stack == later + stack' + more
  {
    assert here + later + stack == later + (here + stack);
    assert later + (stack' + more) == later + stack' + more;
  }

  lemma ClosingsFrom(programs: seq<Program>, i: nat, live: set<Handle>)
    requires i < |programs|
    ensures AllClosings(programs[i..], live) ==
            (if programs[i].handle in live then multiset(Closings(programs[i])) else multiset{}) + AllClosings(programs[i + 1..], live)
  {
    assert programs[i..][1..] == programs[i + 1..];
  }

  lemma ClosedAt(programs: seq<Program>, ps: seq<Program>, first: nat, i: nat, env: Env, live: set<Handle>)
    requires Chained(ps) && first <= i < |ps| && StartedFrom(programs, ps, first, env)
    requires live == Live(Processes(ps, first, env)) && DistinctProcesses(ps, env)
    ensures AllClosings(programs[i..], live) + multiset(EndsUpTo(ps, Left(ps, i), env))
            == AllClosings(programs[i + 1..], live) + multiset(EndsUpTo(ps, Left(ps, i + 1), env))
               + (if Runs(ps[i]) then AlsoClosed(ps, i, env) else multiset{})
  {
    hide EndsUpTo, Left, Chained, Closings, Started, AllClosings, AlsoClosed, Processes, Live, Runs;
    HandleOf(programs, ps, first, env, i);
    ProcessesAre(ps, first, env);
    LiveIs(Processes(ps, first, env), programs[i].handle);
    ClosingsFrom(programs, i, live);
    if Runs(ps[i]) {
      StageClosings(ps, i, env, env.create(i).handle);
      Balance(AllClosings(programs[i..], live), AllClosings(programs[i + 1..], live), multiset(Closings(programs[i])),
              multiset(EndsUpTo(ps, Left(ps, i), env)), multiset(EndsUpTo(ps, Left(ps, i + 1), env)), AlsoClosed(ps, i, env));
    } else {
      Skipped(ps, i, env);
    }
  }

  /** Conservation: what the programs from i on will have closed and what is still on the
      stack are together all the ends there are, and what is closed beside. */
  lemma {:induction false} EndsConserved(programs: seq<Program>, ps: seq<Program>, first: nat, i: nat, env: Env, live: set<Handle>)
    requires Chained(ps) && first <= i <= |ps| == |programs| && StartedFrom(programs, ps, first, env)
    requires live == Live(Processes(ps, first, env)) && DistinctProcesses(ps, env)
    ensures AllClosings(programs[i..], live) + multiset(EndsUpTo(ps, Left(ps, i), env))
            == multiset(Ends(env, Rank(ps, |ps|))) + AlsoClosedFrom(ps, i, env)
    decreases |ps| - i
  {
    hide EndsUpTo, Left, Chained, StartedFrom, Live, Processes, DistinctProcesses, AlsoClosed, Runs, AllClosings, Ends;
    if i == |ps| {
      AtTheEnd(programs, ps, env, live);
    } else {
      EndsConserved(programs, ps, first, i + 1, env, live);
      ClosedAt(programs, ps, first, i, env, live);
    }
  }

  lemma AtTheEnd(programs: seq<Program>, ps: seq<Program>, env: Env, live: set<Handle>)
    requires |programs| == |ps|
    ensures AllClosings(programs[|ps|..], live) == multiset{}
    ensures EndsUpTo(ps, Left(ps, |ps|), env) == Ends(env, Rank(ps, |ps|))
  {
    EndsAre(env, Rank(ps, |ps|));
  }

  lemma {:induction false} NothingClosed(programs: seq<Program>, live: set<Handle>)
    requires forall j | 0 <= j < |programs| :: programs[j].handle !in live
    ensures AllClosings(programs, live) == multiset{}
  {
    if programs != [] {
      NothingClosed(programs[1..], live);
    }
  }

  /** When the programs that were started are reaped, every end they popped is closed once. */
  lemma EverythingClosed(programs: seq<Program>, ps: seq<Program>, first: nat, env: Env)
    requires Chained(ps) && StartedFrom(programs, ps, first, env) && DistinctProcesses(ps, env)
    ensures AllClosings(programs, Live(Processes(ps, first, env))) + multiset(EndsUpTo(ps, Left(ps, first), env))
            == multiset(Ends(env, Rank(ps, |ps|))) + AlsoClosedFrom(ps, first, env)
  {
    hide EndsUpTo, Left, Chained, Live, Processes, DistinctProcesses, AllClosings, Ends, Handled, AlsoClosedFrom;
    var live := Live(Processes(ps, first, env));
    EndsConserved(programs, ps, first, first, env, live);
    ProcessesAre(ps, first, env);
    LiveIs(Processes(ps, first, env), INVALID_HANDLE);
    NothingClosed(programs[..first], live);
    JoinClosings(programs[..first], programs[first..], live);
    assert programs == programs[..first] + programs[first..];
  }

  /** So is every end that a program popped in vain. */
  lemma GivenBackClosed(ps: seq<Program>, first: nat, env: Env)
    requires Chained(ps) && first <= |ps| && (first > 0 ==> Runs(ps[first - 1]))
    ensures multiset(GivenBackAt(ps, first, env)) + multiset(EndsUpTo(ps, LeftOver(ps, first, env), env))
            == multiset(EndsUpTo(ps, Left(ps, first), env)) + AlsoGivenBack(ps, first, env)
  {
    hide EndsUpTo, Left, GivenBack, NotPopped, FilesOpen, Chained;
    if first > 0 && FilesOpen(ps, first - 1, env) {
      GivesBackPopped(ps, first - 1, env);
    }
  }

  lemma StackIsPrefix(ps: seq<Program>, first: nat, env: Env, pipes: seq<Handle>)
    requires Chained(ps) && first <= |ps| && |pipes| == LeftOver(ps, first, env)
    requires forall j | 0 <= j < |pipes| :: pipes[j] == EndAt(env, j)
    ensures pipes == EndsUpTo(ps, LeftOver(ps, first, env), env) && pipes <= Ends(env, Rank(ps, |ps|))
  {
    hide Left, EndAt, Chained;
    EndsAre(env, Rank(ps, |ps|));
    LeftShrinks(ps, first, |ps|);
    NothingPopped(ps);
    if first > 0 {
      LeftShrinks(ps, first - 1, |ps|);
    }
  }

  lemma NothingLeftOver(ps: seq<Program>, first: nat, env: Env)
    requires Chained(ps) && first <= |ps|
    ensures first == 0 && BuiltinsAlone(ps) ==> (LeftOver(ps, first, env) == 0 <==> Connectable(ps))
  {
    hide *;
    LeftOverAll(ps, env);
    if BuiltinsAlone(ps) {
      AloneLeftIff(ps);
    }
  }

  lemma LeftOverAll(ps: seq<Program>, env: Env)
    ensures LeftOver(ps, 0, env) == Left(ps, 0)
  {
  }

  lemma AddUp(given: multiset<Handle>, all: multiset<Handle>, pipes: multiset<Handle>, left: multiset<Handle>,
              ends: multiset<Handle>, beside: multiset<Handle>, more: multiset<Handle>)
    requires all + left == ends + beside && given + pipes == left + more
    ensures given + all + pipes == ends + beside + more
  {
    assert given + all + pipes == all + (given + pipes);
    assert all + (left + more) == (all + left) + more;
  }
}
