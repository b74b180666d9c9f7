/** Reaping: the processes of a line finish in any order; each is taken out of the list
    together with its program, and what the program was given is closed. */
module ShellReap {
  import opened Common
  import opened ShellLine

  /** What is closed for a program that has finished. */
  function Closings(p: Program): seq<Handle> {
    (if p.pipeIn then [p.pipeInHandle] else []) + (if p.pipeOut then [p.pipeOutHandle] else [])
    + (if p.redirectionIn then [p.redirectionInHandle] else []) + (if p.redirectionOut then [p.redirectionOutHandle] else [])
  }

  function ClosingsIf(p: Program, live: set<Handle>): multiset<Handle> {
    if p.handle in live then multiset(Closings(p)) else multiset{}
  }

  /** What is closed for all programs whose process is live. */
  function AllClosings(programs: seq<Program>, live: set<Handle>): multiset<Handle> {
    if programs == [] then multiset{} else ClosingsIf(programs[0], live) + AllClosings(programs[1..], live)
  }

  /** The programs that have no live process. */
  function Unreaped(programs: seq<Program>, live: set<Handle>): seq<Program> {
    if programs == [] then []
    else if programs[0].handle in live then Unreaped(programs[1..], live)
    else [programs[0]] + Unreaped(programs[1..], live)
  }

  function Live(active: seq<Handle>): set<Handle> {
    set k | 0 <= k < |active| :: active[k]
  }

  lemma LiveIs(active: seq<Handle>, h: Handle)
    ensures h in Live(active) <==> h in active
  {
  }

  ghost predicate HasProgram(programs: seq<Program>, process: Handle) {
    exists j :: 0 <= j < |programs| && programs[j].handle == process
  }

  /** Every live process belongs to exactly one program. */
  ghost predicate Reapable(programs: seq<Program>, active: seq<Handle>) {
    && (forall k, l | 0 <= k < l < |active| :: active[k] != active[l])
    && (forall k | 0 <= k < |active| :: HasProgram(programs, active[k]))
    && (forall i, j | 0 <= i < j < |programs| && programs[i].handle == programs[j].handle :: programs[i].handle !in Live(active))
  }

  lemma {:induction false} JoinClosings(a: seq<Program>, b: seq<Program>, live: set<Handle>)
    ensures AllClosings(a + b, live) == AllClosings(a, live) + AllClosings(b, live)
  {
    hide ClosingsIf;
    if a == [] {
      assert a + b == b;
    } else {
      JoinClosings(a[1..], b, live);
      assert (a + b)[1..] == a[1..] + b;
    }
  }

  lemma {:induction false} JoinUnreaped(a: seq<Program>, b: seq<Program>, live: set<Handle>)
    ensures Unreaped(a + b, live) == Unreaped(a, live) + Unreaped(b, live)
  {
    if a == [] {
      assert a + b == b;
    } else {
      JoinUnreaped(a[1..], b, live);
      assert (a + b)[1..] == a[1..] + b;
    }
  }

  /** A program in the middle of the list. */
  lemma SplitAtProgram(programs: seq<Program>, j: nat, live: set<Handle>)
    requires j < |programs| && programs[j].handle in live
    ensures AllClosings(programs, live) == AllClosings(programs[..j], live) + AllClosings(programs[j + 1..], live) + multiset(Closings(programs[j]))
    ensures Unreaped(programs, live) == Unreaped(programs[..j], live) + Unreaped(programs[j + 1..], live)
  {
    hide Closings;
    assert programs == programs[..j] + programs[j..] && programs[j..][1..] == programs[j + 1..];
    JoinClosings(programs[..j], programs[j..], live);
    JoinUnreaped(programs[..j], programs[j..], live);
  }

  lemma {:induction false} OthersUnaffected(programs: seq<Program>, live: set<Handle>, h: Handle)
    requires forall j | 0 <= j < |programs| :: programs[j].handle != h
    ensures AllClosings(programs, live) == AllClosings(programs, live - {h})
    ensures Unreaped(programs, live) == Unreaped(programs, live - {h})
  {
    if programs != [] {
      OthersUnaffected(programs[1..], live, h);
    }
  }

  /** One round: taking the program of a finished process out of the list, and the
      process out of the live ones, leaves exactly that program's handles closed. */
  lemma ReapOne(programs: seq<Program>, active: seq<Handle>, j: nat, k: nat)
    requires Reapable(programs, active) && j < |programs| && k < |active| && programs[j].handle == active[k]
    ensures var programs', active' := programs[..j] + programs[j + 1..], active[..k] + active[k + 1..];
            && Reapable(programs', active')
            && Live(active') == Live(active) - {active[k]}
            && AllClosings(programs, Live(active)) == AllClosings(programs', Live(active')) + multiset(Closings(programs[j]))
            && Unreaped(programs, Live(active)) == Unreaped(programs', Live(active'))
  {
    hide Closings, AllClosings, Unreaped;
    var h, live := active[k], Live(active);
    LiveWithout(active, k);
    ReapableWithout(programs, active, j, k);
    HandleOnce(programs, active, j, k);
    hide Reapable, Live;
    SplitAtProgram(programs, j, live);
    JoinClosings(programs[..j], programs[j + 1..], live - {h});
    JoinUnreaped(programs[..j], programs[j + 1..], live - {h});
    OthersUnaffected(programs[..j], live, h);
    OthersUnaffected(programs[j + 1..], live, h);
  }

  lemma HandleOnce(programs: seq<Program>, active: seq<Handle>, j: nat, k: nat)
    requires Reapable(programs, active) && j < |programs| && k < |active| && programs[j].handle == active[k]
    ensures active[k] in Live(active)
    ensures forall i | 0 <= i < |programs| && i != j :: programs[i].handle != active[k]
  {
  }

  lemma LiveWithout(active: seq<Handle>, k: nat)
    requires k < |active| && forall i, j | 0 <= i < j < |active| :: active[i] != active[j]
    ensures Live(active[..k] + active[k + 1..]) == Live(active) - {active[k]}
  {
    var rest := active[..k] + active[k + 1..];
    forall i | 0 <= i < |active| && i != k ensures active[i] in Live(rest) {
      assert active[i] == rest[if i < k then i else i - 1];
    }
    forall i | 0 <= i < |rest| ensures rest[i] in Live(active) && rest[i] != active[k] {
      assert rest[i] == active[if i < k then i else i + 1];
    }
  }

  lemma ReapableWithout(programs: seq<Program>, active: seq<Handle>, j: nat, k: nat)
    requires Reapable(programs, active) && j < |programs| && k < |active| && programs[j].handle == active[k]
    ensures Reapable(programs[..j] + programs[j + 1..], active[..k] + active[k + 1..])
  {
    var programs', active' := programs[..j] + programs[j + 1..], active[..k] + active[k + 1..];
    LiveWithout(active, k);
    forall l | 0 <= l < |active'| ensures HasProgram(programs', active'[l]) {
      var l' := if l < k then l else l + 1;
      assert active'[l] == active[l'] && HasProgram(programs, active[l']);
      var i :| 0 <= i < |programs| && programs[i].handle == active[l'];
      assert programs'[if i < j then i else i - 1] == programs[i];
    }
  }

  lemma {:induction false} NothingLive(programs: seq<Program>)
    ensures Live([]) == {} && AllClosings(programs, Live([])) == multiset{} && Unreaped(programs, Live([])) == programs
  {
    hide Closings;
    if programs != [] {
      NothingLive(programs[1..]);
    }
  }
}
