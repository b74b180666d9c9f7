/** Waiting for a process: one thread waits for any of a list of processes while each of
    them ends.  Every step is one access to shared memory; the steps of the waiting thread
    and of the ending processes interleave in any order. */
module Wait {

  /** Where an ending process stands.  `left` counts the entries of its listener list it
      has still to visit, all of them the waiting thread's one listener. */
  datatype ChildPc =
    | Runs              // its program is running
    | NoHandle          // its handle is removed
    | StateSet          // its state is set to terminated
    | Visits(left: nat) // holds the lock of its list; about to look whether the listener was notified
    | Sees(left: nat)   // it was not: about to mark it
    | Marks(left: nat)  // marked it: about to leave its own handle
    | Names(left: nat)  // left its handle: about to count up the semaphore
    | Cleared           // list cleared, about to release the lock
    | Gone

  datatype Owner = Nobody | Process | Waiter

  /** A process: `met` remembers whether it found the listener when it took its lock. */
  datatype Child = Child(pc: ChildPc, terminated: bool, resolves: bool, lock: Owner, entries: nat, met: bool)

  /** Why the waiting thread stops waiting. */
  datatype Why = Dead(at: nat) | Woken(who: int)

  /** Where the waiting thread stands in waitFor. */
  datatype WaiterPc =
    | Resolve(i: nat)   // about to resolve handle i, or done with all
    | Check(i: nat)     // about to look at the state of process i
    | AddLock(i: nat)
    | AddPush(i: nat)
    | AddUnlock(i: nat)
    | Sleep             // about to take one from the semaphore
    | ReadNotifier
    | Clean(k: nat, upto: nat, why: Why)   // removes the listener from processes k to upto
    | Erase(k: nat, upto: nat, why: Why)
    | CleanUnlock(k: nat, upto: nat, why: Why)
    | Find(why: Why)    // the listener is deleted
    | Returned(index: int)

  /** The listener: a semaphore, whether it was notified, and by whom. */
  datatype Listener = Listener(count: nat, notified: bool, notifier: int, deleted: bool)

  datatype State = State(
    handles: seq<nat>, children: seq<Child>, waiter: WaiterPc, listener: Listener,
    notifies: nat, waits: nat)

  const NO_HANDLE := -1

  predicate Init(s: State) {
    && (forall i | 0 <= i < |s.handles| :: s.handles[i] < |s.children|)
    && (forall c | 0 <= c < |s.children| :: s.children[c] == Child(Runs, false, true, Nobody, 0, false))
    && s.waiter == Resolve(0) && s.listener == Listener(0, false, NO_HANDLE, false)
    && s.notifies == s.waits == 0
  }

  predicate Proper(s: State) {
    && (forall i | 0 <= i < |s.handles| :: s.handles[i] < |s.children|)
    && match s.waiter
       case Check(i) => i < |s.handles|
       case AddLock(i) => i < |s.handles|
       case AddPush(i) => i < |s.handles|
       case AddUnlock(i) => i < |s.handles|
       case Resolve(i) => i <= |s.handles|
       case Clean(k, upto, why) => k <= upto <= |s.handles|
       case Erase(k, upto, why) => k < upto <= |s.handles|
       case CleanUnlock(k, upto, why) => k < upto <= |s.handles|
       case _ => true
  }

  function SetChild(s: State, c: nat, child: Child): State
    requires c < |s.children|
  {
    s.(children := s.children[c := child])
  }

  // ----- steps ------------------------------------------------------------------------

  /** The step process c can take: it ends, then notifies whoever listens. */
  predicate ChildCan(s: State, c: nat) {
    && c < |s.children| && s.children[c].pc != Gone
    && (s.children[c].pc == StateSet ==> s.children[c].lock == Nobody)
  }

  /** What a step changes: the process, the listener, and how often it was notified. */
  datatype Move = Move(child: Child, listener: Listener, notifies: nat)

  function ChildMove(c: nat, p: Child, l: Listener): Move {
    match p.pc
    case Runs => Move(p.(pc := NoHandle, resolves := false), l, 0)
    case NoHandle => Move(p.(pc := StateSet, terminated := true), l, 0)
    case StateSet => Move(p.(pc := Visits(p.entries), lock := Process, met := p.entries > 0), l, 0)
    case Visits(n) =>
      if n == 0 then Move(p.(pc := Cleared, entries := 0), l, 0)
      else if l.notified then Move(p.(pc := Visits(n - 1)), l, 0)
      else Move(p.(pc := Sees(n)), l, 0)
    case Sees(n) => Move(p.(pc := Marks(n)), l.(notified := true), 0)
    case Marks(n) => Move(p.(pc := Names(n)), l.(notifier := c), 0)
    case Names(n) => Move(p.(pc := Visits(if n == 0 then 0 else n - 1)), l.(count := l.count + 1), 1)
    case Cleared => Move(p.(pc := Gone, lock := Nobody), l, 0)
    case Gone => Move(p, l, 0)
  }

  function ChildStep(s: State, c: nat): State
    requires ChildCan(s, c)
  {
    var m := ChildMove(c, s.children[c], s.listener);
    SetChild(s, c, m.child).(listener := m.listener, notifies := s.notifies + m.notifies)
  }

  /** A running process may call exit, which already sets its state. */
  predicate ExitCan(s: State, c: nat) {
    c < |s.children| && s.children[c].pc == Runs
  }

  function ExitStep(s: State, c: nat): State
    requires ExitCan(s, c)
  {
    SetChild(s, c, s.children[c].(terminated := true))
  }

  /** The last position of a handle in the list, or -1. */
  function LastOf(handles: seq<nat>, h: int): (i: int)
    ensures -1 <= i < |handles|
    ensures i >= 0 ==> handles[i] == h
    ensures i == -1 ==> forall j | 0 <= j < |handles| :: handles[j] != h
  {
    if handles == [] then -1
    else if handles[|handles| - 1] == h then |handles| - 1
    else LastOf(handles[..|handles| - 1], h)
  }

  /** If the notifier is in the list more than once, its last place is returned. */
  lemma {:induction false} LastOfIsLast(handles: seq<nat>, h: int, j: nat)
    requires LastOf(handles, h) < j < |handles|
    ensures handles[j] != h
  {
    if j < |handles| - 1 {
      LastOfIsLast(handles[..|handles| - 1], h, j);
    }
  }

  predicate WaiterCan(s: State) {
    && Proper(s)
    && match s.waiter
       case AddLock(i) => s.children[s.handles[i]].lock == Nobody
       case Clean(k, upto, why) => k < upto ==> s.children[s.handles[k]].lock == Nobody
       case Sleep => s.listener.count > 0
       case Returned(_) => false
       case _ => true
  }

  function WaiterStep(s: State): State
    requires WaiterCan(s)
  {
    match s.waiter
    case Resolve(i) =>
      if i == |s.handles| then s.(waiter := Sleep)
      else if !s.children[s.handles[i]].resolves then s.(waiter := Clean(0, i, Dead(i)))
      else s.(waiter := Check(i))
    case Check(i) =>
      if s.children[s.handles[i]].terminated then s.(waiter := Clean(0, i, Dead(i))) else s.(waiter := AddLock(i))
    case AddLock(i) =>
      var c := s.handles[i];
      SetChild(s, c, s.children[c].(lock := Waiter)).(waiter := AddPush(i))
    case AddPush(i) =>
      var c := s.handles[i];
      SetChild(s, c, s.children[c].(entries := s.children[c].entries + 1)).(waiter := AddUnlock(i))
    case AddUnlock(i) =>
      var c := s.handles[i];
      SetChild(s, c, s.children[c].(lock := Nobody)).(waiter := Resolve(i + 1))
    case Sleep =>
      s.(waiter := ReadNotifier, waits := s.waits + 1,
         listener := s.listener.(count := if s.listener.count == 0 then 0 else s.listener.count - 1))
    case ReadNotifier => s.(waiter := Clean(0, |s.handles|, Woken(s.listener.notifier)))
    case Clean(k, upto, why) =>
      if k == upto then s.(waiter := Find(why), listener := s.listener.(deleted := true))
      else
        var c := s.handles[k];
        SetChild(s, c, s.children[c].(lock := Waiter)).(waiter := Erase(k, upto, why))
    case Erase(k, upto, why) =>
      var c := s.handles[k];
      SetChild(s, c, s.children[c].(entries := 0)).(waiter := CleanUnlock(k, upto, why))
    case CleanUnlock(k, upto, why) =>
      var c := s.handles[k];
      SetChild(s, c, s.children[c].(lock := Nobody)).(waiter := Clean(k + 1, upto, why))
    case Find(why) =>
      s.(waiter := Returned(match why case Dead(at) => at case Woken(who) => LastOf(s.handles, who)))
    case Returned(_) => s
  }

  /** One step of anyone. */
  ghost predicate Next(s: State, s': State) {
    || (WaiterCan(s) && s' == WaiterStep(s))
    || (exists c :: ChildCan(s, c) && s' == ChildStep(s, c))
    || (exists c :: ExitCan(s, c) && s' == ExitStep(s, c))
  }

  ghost predicate IsRun(run: seq<State>) {
    |run| > 0 && Init(run[0]) && forall i | 0 < i < |run| :: Next(run[i - 1], run[i])
  }

  // ----- invariants -------------------------------------------------------------------

  predicate InSection(pc: ChildPc) {
    pc.Visits? || pc.Sees? || pc.Marks? || pc.Names? || pc.Cleared?
  }

  /** Touching the listener. */
  predicate Touches(pc: ChildPc) {
    (pc.Visits? && pc.left > 0) || pc.Sees? || pc.Marks? || pc.Names?
  }

  /** A process's own fields agree with where it stands. */
  predicate ChildOk(p: Child) {
    && (p.resolves <==> p.pc == Runs)
    && (!(p.pc == Runs || p.pc == NoHandle) ==> p.terminated)
    && (InSection(p.pc) <==> p.lock == Process)
    && (p.pc.Visits? || p.pc.Sees? || p.pc.Marks? || p.pc.Names? ==>
          p.pc.left <= p.entries && (p.met <==> p.entries > 0) && (!p.pc.Visits? ==> p.pc.left > 0))
    && (p.pc == Cleared ==> p.entries == 0)
    && (p.met ==> InSection(p.pc) || p.pc == Gone)
  }

  predicate ChildrenOk(s: State) {
    forall c | 0 <= c < |s.children| :: ChildOk(s.children[c])
  }

  /** The list whose lock the waiting thread holds. */
  function Held(s: State): int
    requires Proper(s)
  {
    match s.waiter
    case AddPush(i) => s.handles[i]
    case AddUnlock(i) => s.handles[i]
    case Erase(k, _, _) => s.handles[k]
    case CleanUnlock(k, _, _) => s.handles[k]
    case _ => -1
  }

  predicate LocksOk(s: State)
    requires Proper(s)
  {
    forall c | 0 <= c < |s.children| :: s.children[c].lock == Waiter <==> c == Held(s)
  }

  /** The positions whose processes may have the listener in their lists. */
  function From(s: State): nat {
    match s.waiter
    case Clean(k, _, _) => k
    case Erase(k, _, _) => k
    case CleanUnlock(k, _, _) => k + 1
    case _ => 0
  }

  function To(s: State): nat {
    match s.waiter
    case Resolve(i) => i
    case Check(i) => i
    case AddLock(i) => i
    case AddPush(i) => i
    case AddUnlock(i) => i + 1
    case Sleep => |s.handles|
    case ReadNotifier => |s.handles|
    case Clean(_, upto, _) => upto
    case Erase(_, upto, _) => upto
    case CleanUnlock(_, upto, _) => upto
    case _ => 0
  }

  predicate MayList(s: State, c: nat) {
    exists j :: From(s) <= j < To(s) && j < |s.handles| && s.handles[j] == c
  }

  predicate EntriesOk(s: State)
    requires Proper(s)
  {
    && (forall c | 0 <= c < |s.children| && s.children[c].entries > 0 :: MayList(s, c))
    && (s.listener.deleted <==> s.waiter.Find? || s.waiter.Returned?)
  }

  /** A handle that is in the list and whose process is dead. */
  predicate DeadHandle(s: State, h: int) {
    && h in s.handles && 0 <= h < |s.children|
    && (!s.children[h].resolves || s.children[h].terminated)
  }

  predicate NotifierOk(s: State) {
    && (s.listener.notifier != NO_HANDLE ==> DeadHandle(s, s.listener.notifier) && s.children[s.listener.notifier].met)
    && (s.notifies > 0 ==> s.listener.notifier != NO_HANDLE)
    && (forall c | 0 <= c < |s.children| && s.children[c].pc.Names? :: s.listener.notifier != NO_HANDLE)
  }

  predicate AfterSleep(s: State) {
    s.waiter.ReadNotifier? || ((s.waiter.Clean? || s.waiter.Erase? || s.waiter.CleanUnlock? || s.waiter.Find?) && s.waiter.why.Woken?)
  }

  predicate CountOk(s: State) {
    && s.notifies == s.listener.count + s.waits
    && (AfterSleep(s) ==> s.waits > 0)
    && (s.waiter.Resolve? || s.waiter.Check? || s.waiter.AddLock? || s.waiter.AddPush? || s.waiter.AddUnlock? || s.waiter.Sleep? ==> s.waits == 0)
  }

  predicate WhyOk(s: State, why: Why) {
    match why
    case Dead(at) => at < |s.handles| && DeadHandle(s, s.handles[at])
    case Woken(who) => DeadHandle(s, who)
  }

  predicate ResultOk(s: State) {
    match s.waiter
    case Clean(_, _, why) => WhyOk(s, why)
    case Erase(_, _, why) => WhyOk(s, why)
    case CleanUnlock(_, _, why) => WhyOk(s, why)
    case Find(why) => WhyOk(s, why)
    case Returned(index) => 0 <= index < |s.handles| && DeadHandle(s, s.handles[index])
    case _ => true
  }

  /** Whoever met the listener and is past it leaves it notified; whoever notified it
      counts it up. */
  predicate MetOk(s: State) {
    && (forall c | 0 <= c < |s.children| && s.children[c].met && PastFirst(s.children[c]) :: s.listener.notified)
    && (s.listener.notified ==> s.notifies > 0 || SomeoneNotifies(s))
  }

  predicate SomeoneNotifies(s: State) {
    exists c :: 0 <= c < |s.children| && Notifying(s.children[c].pc)
  }

  predicate PastFirst(p: Child) {
    p.pc.Cleared? || p.pc.Gone? || p.pc.Marks? || p.pc.Names? || (p.pc.Visits? && p.pc.left < p.entries)
  }

  predicate Notifying(pc: ChildPc) {
    pc.Marks? || pc.Names?
  }

  predicate Inv(s: State) {
    Proper(s) && ChildrenOk(s) && LocksOk(s) && EntriesOk(s) && NotifierOk(s) && CountOk(s) && ResultOk(s) && MetOk(s)
  }

  // ----- every step keeps them --------------------------------------------------------

  lemma InitInv(s: State)
    requires Init(s)
    ensures Inv(s)
  {
  }

  /** What a step of a process does to itself and to the listener. */
  lemma ChildMoves(c: nat, p: Child, l: Listener)
    requires ChildOk(p) && (p.pc == StateSet ==> p.lock == Nobody)
    ensures var m := ChildMove(c, p, l);
            && ChildOk(m.child)
            && (m.child.lock == Waiter <==> p.lock == Waiter)
            && (m.child.entries > 0 ==> p.entries > 0)
            && (p.terminated ==> m.child.terminated) && (!p.resolves ==> !m.child.resolves) && (p.met ==> m.child.met)
            && (m.child.met ==> p.met || p.pc == StateSet)
            && m.listener.deleted == l.deleted
            && (m.listener.notifier == l.notifier || (m.listener.notifier == c && p.pc.Marks? && p.terminated && p.met && p.entries > 0))
            && (m.child.pc.Names? ==> m.listener.notifier == c)
            && m.listener.count == l.count + m.notifies && (m.notifies > 0 ==> p.pc.Names?)
            && (l.notified ==> m.listener.notified) && (m.listener.notified && !l.notified ==> m.child.pc.Marks?)
            && (m.child.met && PastFirst(m.child) ==> m.listener.notified || (p.met && PastFirst(p)))
            && (Notifying(p.pc) ==> Notifying(m.child.pc) || m.notifies > 0)
  {
  }

  lemma ChildKeepsProper(s: State, c: nat)
    requires Proper(s) && ChildCan(s, c)
    ensures Proper(ChildStep(s, c))
  {
  }

  lemma ChildKeepsChildren(s: State, c: nat)
    requires Proper(s) && ChildrenOk(s) && ChildCan(s, c) && Proper(ChildStep(s, c))
    ensures ChildrenOk(ChildStep(s, c))
  {
    hide ChildMove, ChildOk;
    ChildMoves(c, s.children[c], s.listener);
  }

  lemma ChildKeepsLocks(s: State, c: nat)
    requires Proper(s) && ChildrenOk(s) && LocksOk(s) && ChildCan(s, c) && Proper(ChildStep(s, c))
    ensures LocksOk(ChildStep(s, c))
  {
    hide ChildMove, ChildOk;
    ChildMoves(c, s.children[c], s.listener);
  }

  lemma ChildKeepsEntries(s: State, c: nat)
    requires Proper(s) && ChildrenOk(s) && EntriesOk(s) && ChildCan(s, c) && Proper(ChildStep(s, c))
    ensures EntriesOk(ChildStep(s, c))
  {
    hide ChildMove, ChildOk;
    ChildMoves(c, s.children[c], s.listener);
  }

  lemma ChildKeepsNotifier(s: State, c: nat)
    requires Proper(s) && ChildrenOk(s) && NotifierOk(s) && EntriesOk(s) && ChildCan(s, c) && Proper(ChildStep(s, c))
    ensures NotifierOk(ChildStep(s, c))
  {
    hide ChildMove, ChildOk;
    ChildMoves(c, s.children[c], s.listener);
  }

  lemma ChildKeepsCount(s: State, c: nat)
    requires Proper(s) && ChildrenOk(s) && CountOk(s) && ChildCan(s, c) && Proper(ChildStep(s, c))
    ensures CountOk(ChildStep(s, c))
  {
    hide ChildMove, ChildOk;
    ChildMoves(c, s.children[c], s.listener);
  }

  lemma ChildKeepsResult(s: State, c: nat)
    requires Proper(s) && ChildrenOk(s) && ResultOk(s) && ChildCan(s, c) && Proper(ChildStep(s, c))
    ensures ResultOk(ChildStep(s, c))
  {
    hide ChildMove, ChildOk;
    ChildMoves(c, s.children[c], s.listener);
  }

  lemma MarkingNotifies(pc: ChildPc)
    ensures pc.Marks? ==> Notifying(pc)
  {
  }

  lemma ChildKeepsMet(s: State, c: nat)
    requires Proper(s) && ChildrenOk(s) && MetOk(s) && ChildCan(s, c) && Proper(ChildStep(s, c))
    ensures MetOk(ChildStep(s, c))
  {
    hide ChildMove, ChildOk, PastFirst, Notifying;
    ChildMoves(c, s.children[c], s.listener);
    MarkingNotifies(ChildMove(c, s.children[c], s.listener).child.pc);
    var s' := ChildStep(s, c);
    if s.listener.notified && SomeoneNotifies(s) {
      var d :| 0 <= d < |s.children| && Notifying(s.children[d].pc);
      assert d != c ==> Notifying(s'.children[d].pc);
      assert d == c ==> Notifying(s'.children[c].pc) || s'.notifies > 0;
    }
    assert s'.listener.notified && !s.listener.notified ==> Notifying(s'.children[c].pc);
  }

  lemma ChildKeepsInv(s: State, c: nat)
    requires Inv(s) && ChildCan(s, c)
    ensures Inv(ChildStep(s, c))
  {
    hide ChildStep, ChildrenOk, LocksOk, EntriesOk, NotifierOk, CountOk, ResultOk, MetOk, Proper;
    ChildKeepsProper(s, c);
    ChildKeepsChildren(s, c);
    ChildKeepsLocks(s, c);
    ChildKeepsEntries(s, c);
    ChildKeepsNotifier(s, c);
    ChildKeepsCount(s, c);
    ChildKeepsResult(s, c);
    ChildKeepsMet(s, c);
  }

  lemma ExitKeepsProper(s: State, c: nat)
    requires Proper(s) && ExitCan(s, c)
    ensures Proper(ExitStep(s, c))
  {
  }

  lemma ExitKeepsChildren(s: State, c: nat)
    requires Inv(s) && ExitCan(s, c) && Proper(ExitStep(s, c))
    ensures ChildrenOk(ExitStep(s, c))
  {
  }

  lemma ExitKeepsLocks(s: State, c: nat)
    requires Inv(s) && ExitCan(s, c) && Proper(ExitStep(s, c))
    ensures LocksOk(ExitStep(s, c))
  {
  }

  lemma ExitKeepsEntries(s: State, c: nat)
    requires Inv(s) && ExitCan(s, c) && Proper(ExitStep(s, c))
    ensures EntriesOk(ExitStep(s, c))
  {
  }

  lemma ExitKeepsNotifier(s: State, c: nat)
    requires Inv(s) && ExitCan(s, c) && Proper(ExitStep(s, c))
    ensures NotifierOk(ExitStep(s, c))
  {
  }

  lemma ExitKeepsCount(s: State, c: nat)
    requires Inv(s) && ExitCan(s, c) && Proper(ExitStep(s, c))
    ensures CountOk(ExitStep(s, c))
  {
  }

  lemma ExitKeepsResult(s: State, c: nat)
    requires Inv(s) && ExitCan(s, c) && Proper(ExitStep(s, c))
    ensures ResultOk(ExitStep(s, c))
  {
  }

  lemma ExitKeepsMet(s: State, c: nat)
    requires Proper(s) && MetOk(s) && ExitCan(s, c) && Proper(ExitStep(s, c))
    ensures MetOk(ExitStep(s, c))
  {
    if s.listener.notified && SomeoneNotifies(s) {
      var d :| 0 <= d < |s.children| && Notifying(s.children[d].pc);
      assert Notifying(ExitStep(s, c).children[d].pc);
    }
  }

  lemma ExitKeepsInv(s: State, c: nat)
    requires Inv(s) && ExitCan(s, c)
    ensures Inv(ExitStep(s, c))
  {
    hide ExitStep, ChildrenOk, LocksOk, EntriesOk, NotifierOk, CountOk, ResultOk, MetOk, Proper;
    ExitKeepsProper(s, c);
    ExitKeepsChildren(s, c);
    ExitKeepsLocks(s, c);
    ExitKeepsEntries(s, c);
    ExitKeepsNotifier(s, c);
    ExitKeepsCount(s, c);
    ExitKeepsResult(s, c);
    ExitKeepsMet(s, c);
  }

  lemma WaiterKeepsProper(s: State)
    requires Proper(s) && WaiterCan(s)
    ensures Proper(WaiterStep(s))
  {
  }

  lemma WaiterKeepsChildren(s: State)
    requires Proper(s) && ChildrenOk(s) && LocksOk(s) && WaiterCan(s) && Proper(WaiterStep(s))
    ensures ChildrenOk(WaiterStep(s))
  {
  }

  lemma WaiterKeepsLocks(s: State)
    requires Proper(s) && LocksOk(s) && WaiterCan(s) && Proper(WaiterStep(s))
    ensures LocksOk(WaiterStep(s))
  {
  }

  lemma WaiterKeepsListed(s: State, c: nat)
    requires Proper(s) && WaiterCan(s) && c < |s.children| && s.children[c].entries > 0 && MayList(s, c)
    ensures |WaiterStep(s).children| == |s.children|
    ensures WaiterStep(s).children[c].entries > 0 ==> MayList(WaiterStep(s), c)
  {
    var j :| From(s) <= j < To(s) && j < |s.handles| && s.handles[j] == c;
    assert WaiterStep(s).handles[j] == c;
  }

  lemma WaiterLists(s: State, c: nat)
    requires Proper(s) && WaiterCan(s) && c < |s.children| && s.children[c].entries == 0
    ensures |WaiterStep(s).children| == |s.children|
    ensures WaiterStep(s).children[c].entries > 0 ==> MayList(WaiterStep(s), c)
  {
    if s.waiter.AddPush? {
      assert WaiterStep(s).handles[s.waiter.i] == s.handles[s.waiter.i];
    }
  }

  lemma WaiterKeepsEntries(s: State)
    requires Proper(s) && EntriesOk(s) && WaiterCan(s) && Proper(WaiterStep(s))
    ensures EntriesOk(WaiterStep(s))
  {
    hide MayList;
    var s' := WaiterStep(s);
    forall c | 0 <= c < |s'.children| && s'.children[c].entries > 0 ensures MayList(s', c) {
      if s.children[c].entries > 0 {
        WaiterKeepsListed(s, c);
      } else {
        WaiterLists(s, c);
      }
    }
  }

  lemma WaiterKeepsNotifier(s: State)
    requires Proper(s) && NotifierOk(s) && WaiterCan(s) && Proper(WaiterStep(s))
    ensures NotifierOk(WaiterStep(s))
  {
  }

  lemma WaiterKeepsCount(s: State)
    requires Proper(s) && CountOk(s) && WaiterCan(s) && Proper(WaiterStep(s))
    ensures CountOk(WaiterStep(s))
  {
  }

  lemma WaiterKeepsResult(s: State)
    requires Proper(s) && NotifierOk(s) && CountOk(s) && ResultOk(s) && WaiterCan(s) && Proper(WaiterStep(s))
    ensures ResultOk(WaiterStep(s))
  {
  }

  lemma WaiterKeepsMet(s: State)
    requires Proper(s) && MetOk(s) && LocksOk(s) && ChildrenOk(s) && WaiterCan(s) && Proper(WaiterStep(s))
    ensures MetOk(WaiterStep(s))
  {
    if s.listener.notified && SomeoneNotifies(s) {
      var d :| 0 <= d < |s.children| && Notifying(s.children[d].pc);
      assert Notifying(WaiterStep(s).children[d].pc);
    }
  }

  lemma WaiterKeepsInv(s: State)
    requires Inv(s) && WaiterCan(s)
    ensures Inv(WaiterStep(s))
  {
    hide WaiterStep, ChildrenOk, LocksOk, EntriesOk, NotifierOk, CountOk, ResultOk, MetOk, Proper;
    WaiterKeepsProper(s);
    WaiterKeepsChildren(s);
    WaiterKeepsLocks(s);
    WaiterKeepsEntries(s);
    WaiterKeepsNotifier(s);
    WaiterKeepsCount(s);
    WaiterKeepsResult(s);
    WaiterKeepsMet(s);
  }

  lemma NextKeepsInv(s: State, s': State)
    requires Inv(s) && Next(s, s')
    ensures Inv(s')
  {
    hide Inv, WaiterStep, ChildStep, ExitStep, WaiterCan, ChildCan, ExitCan;
    if WaiterCan(s) && s' == WaiterStep(s) {
      WaiterKeepsInv(s);
    } else if c :| ChildCan(s, c) && s' == ChildStep(s, c) {
      ChildKeepsInv(s, c);
    } else {
      var c :| ExitCan(s, c) && s' == ExitStep(s, c);
      ExitKeepsInv(s, c);
    }
  }

  lemma {:induction false} RunInv(run: seq<State>, i: nat)
    requires IsRun(run) && i < |run|
    ensures Inv(run[i])
  {
    hide Inv, Next, Init;
    if i == 0 {
      InitInv(run[0]);
    } else {
      RunInv(run, i - 1);
      NextKeepsInv(run[i - 1], run[i]);
    }
  }

  // ----- what holds over all runs -----------------------------------------------------

  /** When waiting returns an index, the handle there no longer resolves or its process
      is terminated. */
  lemma RunReturnsDead(run: seq<State>, i: nat)
    requires IsRun(run) && i < |run| && run[i].waiter.Returned?
    ensures var s := run[i];
            && 0 <= s.waiter.index < |s.handles| && s.handles[s.waiter.index] < |s.children|
            && (!s.children[s.handles[s.waiter.index]].resolves || s.children[s.handles[s.waiter.index]].terminated)
  {
    hide IsRun;
    RunInv(run, i);
  }

  /** The listener is deleted only when no process can reach it any more: it is in no
      list, and nobody is in the middle of notifying it. */
  lemma RunDeletesUnreachable(run: seq<State>, i: nat)
    requires IsRun(run) && i < |run| && run[i].listener.deleted
    ensures forall c | 0 <= c < |run[i].children| :: run[i].children[c].entries == 0 && !Touches(run[i].children[c].pc)
  {
    hide IsRun;
    RunInv(run, i);
    forall c | 0 <= c < |run[i].children| ensures run[i].children[c].entries == 0 && !Touches(run[i].children[c].pc) {
      assert ChildOk(run[i].children[c]);
      assert !MayList(run[i], c);
    }
  }

  /** Every wait on the semaphore takes what an earlier notification left. */
  lemma RunWaitsAreNotified(run: seq<State>, i: nat)
    requires IsRun(run) && i < |run|
    ensures run[i].notifies == run[i].waits + run[i].listener.count
    ensures AfterSleep(run[i]) ==> run[i].notifies > 0 && DeadHandle(run[i], run[i].listener.notifier)
  {
    hide IsRun;
    RunInv(run, i);
  }

  /** The lock of a list is held by one side at a time. */
  lemma RunExcludes(run: seq<State>, i: nat, c: nat)
    requires IsRun(run) && i < |run| && c < |run[i].children|
    ensures !(InSection(run[i].children[c].pc) && Proper(run[i]) && Held(run[i]) == c)
  {
    hide IsRun;
    RunInv(run, i);
    assert ChildOk(run[i].children[c]);
  }

  lemma {:induction false} RunStaysDead(run: seq<State>, i: nat, j: nat, c: nat)
    requires IsRun(run) && i <= j < |run| && c < |run[i].children|
    ensures |run[j].children| == |run[i].children|
    ensures run[i].children[c].terminated ==> run[j].children[c].terminated
    ensures !run[i].children[c].resolves ==> !run[j].children[c].resolves
    decreases j - i
  {
    hide Next, Init;
    if i < j {
      RunStaysDead(run, i, j - 1, c);
      NextStaysDead(run[j - 1], run[j], c);
    }
  }

  predicate StaysDead(p: Child, p': Child) {
    (p.terminated ==> p'.terminated) && (!p.resolves ==> !p'.resolves)
  }

  lemma ChildStaysDead(s: State, d: nat)
    requires ChildCan(s, d)
    ensures |ChildStep(s, d).children| == |s.children|
    ensures forall c | 0 <= c < |s.children| :: StaysDead(s.children[c], ChildStep(s, d).children[c])
  {
    assert StaysDead(s.children[d], ChildMove(d, s.children[d], s.listener).child);
    hide ChildMove;
  }

  lemma WaiterStaysDead(s: State)
    requires WaiterCan(s)
    ensures |WaiterStep(s).children| == |s.children|
    ensures forall c | 0 <= c < |s.children| :: StaysDead(s.children[c], WaiterStep(s).children[c])
  {
  }

  lemma NextStaysDead(s: State, s': State, c: nat)
    requires Next(s, s') && c < |s.children|
    ensures |s'.children| == |s.children| && StaysDead(s.children[c], s'.children[c])
  {
    hide WaiterStep, ChildStep, WaiterCan, ChildCan;
    if WaiterCan(s) && s' == WaiterStep(s) {
      WaiterStaysDead(s);
    } else if d :| ChildCan(s, d) && s' == ChildStep(s, d) {
      ChildStaysDead(s, d);
    }
  }

  // ----- what the waiting thread looks at ---------------------------------------------

  /** The step from s looks at entry k of the list: whether its handle resolves, and
      whether its process is terminated. */
  predicate Resolves(s: State, k: nat) {
    && s.waiter == Resolve(k) && k < |s.handles| && s.handles[k] < |s.children| && s.children[s.handles[k]].resolves
  }

  predicate FindsAlive(s: State, k: nat) {
    && s.waiter == Check(k) && k < |s.handles| && s.handles[k] < |s.children| && !s.children[s.handles[k]].terminated
  }

  ghost predicate LookedAt(run: seq<State>, i: nat, k: nat)
    requires i < |run|
  {
    && (exists a :: 0 <= a < i && Resolves(run[a], k))
    && (exists b :: 0 <= b < i && FindsAlive(run[b], k))
  }

  /** Entries of the list the waiting thread is past, while it still adds its listener. */
  function PastResolve(waiter: WaiterPc, n: nat): nat {
    match waiter
    case Resolve(i) => i
    case Check(i) => i + 1
    case AddLock(i) => i + 1
    case AddPush(i) => i + 1
    case AddUnlock(i) => i + 1
    case Sleep => n
    case _ => 0
  }

  function PastCheck(waiter: WaiterPc, n: nat): nat {
    match waiter
    case Resolve(i) => i
    case Check(i) => i
    case AddLock(i) => i + 1
    case AddPush(i) => i + 1
    case AddUnlock(i) => i + 1
    case Sleep => n
    case _ => 0
  }

  predicate GoesPast(s: State, s': State, k: nat) {
    && s'.handles == s.handles
    && (k < PastResolve(s'.waiter, |s.handles|) ==> k < PastResolve(s.waiter, |s.handles|) || Resolves(s, k))
    && (k < PastCheck(s'.waiter, |s.handles|) ==> k < PastCheck(s.waiter, |s.handles|) || FindsAlive(s, k))
  }

  lemma WaiterGoesPast(s: State, k: nat)
    requires WaiterCan(s) && k < |s.handles|
    ensures GoesPast(s, WaiterStep(s), k)
  {
  }

  lemma ChildGoesPast(s: State, c: nat, k: nat)
    requires ChildCan(s, c)
    ensures GoesPast(s, ChildStep(s, c), k)
  {
  }

  lemma NextGoesPast(s: State, s': State, k: nat)
    requires Next(s, s') && k < |s.handles|
    ensures GoesPast(s, s', k)
  {
    hide WaiterStep, ChildStep, WaiterCan, ChildCan, PastResolve, PastCheck, GoesPast, Resolves, FindsAlive;
    if WaiterCan(s) && s' == WaiterStep(s) {
      WaiterGoesPast(s, k);
    } else if c :| ChildCan(s, c) && s' == ChildStep(s, c) {
      ChildGoesPast(s, c, k);
    } else {
      var c :| ExitCan(s, c) && s' == ExitStep(s, c);
      ExitGoesPast(s, c, k);
    }
  }

  lemma ExitGoesPast(s: State, c: nat, k: nat)
    requires ExitCan(s, c)
    ensures GoesPast(s, ExitStep(s, c), k)
  {
  }

  lemma {:induction false} RunLooked(run: seq<State>, i: nat, k: nat)
    requires IsRun(run) && i < |run| && k < |run[0].handles|
    ensures run[i].handles == run[0].handles
    ensures k < PastResolve(run[i].waiter, |run[i].handles|) ==> exists a :: 0 <= a < i && Resolves(run[a], k)
    ensures k < PastCheck(run[i].waiter, |run[i].handles|) ==> exists b :: 0 <= b < i && FindsAlive(run[b], k)
  {
    hide Next, Resolves, FindsAlive;
    if i > 0 {
      RunLooked(run, i - 1, k);
      NextGoesPast(run[i - 1], run[i], k);
    }
  }

  /** The waiting thread goes to sleep only after it found, for every handle of the list in
      turn, that it resolves and that its process is not terminated. */
  lemma RunSleepsOnLiving(run: seq<State>, i: nat, k: nat)
    requires IsRun(run) && i < |run| && run[i].waiter.Sleep? && k < |run[i].handles|
    ensures LookedAt(run, i, k)
  {
    hide Next, Init, Resolves, FindsAlive;
    HandlesStay(run, i);
    RunLooked(run, i, k);
  }

  lemma {:induction false} HandlesStay(run: seq<State>, i: nat)
    requires IsRun(run) && i < |run|
    ensures run[i].handles == run[0].handles
  {
    hide Next, Init;
    if i > 0 {
      HandlesStay(run, i - 1);
      NextHandles(run[i - 1], run[i]);
    }
  }

  lemma NextHandles(s: State, s': State)
    requires Next(s, s')
    ensures s'.handles == s.handles
  {
  }

  /** The listener was notified, and nobody is in the middle of it. */
  predicate Settled(s: State) {
    s.listener.notified && forall c | 0 <= c < |s.children| :: !s.children[c].pc.Sees? && !Notifying(s.children[c].pc)
  }

  lemma ChildLeavesSettled(s: State, c: nat)
    requires ChildCan(s, c) && Settled(s)
    ensures Settled(ChildStep(s, c)) && ChildStep(s, c).notifies == s.notifies && ChildStep(s, c).listener.notifier == s.listener.notifier
  {
  }

  lemma WaiterLeavesSettled(s: State)
    requires WaiterCan(s) && Settled(s)
    ensures Settled(WaiterStep(s)) && WaiterStep(s).notifies == s.notifies && WaiterStep(s).listener.notifier == s.listener.notifier
  {
  }

  /** A process that comes to the listener after it was notified leaves it alone: in no
      run is it notified again, or by another. */
  lemma {:induction false} RunNotifiedOnce(run: seq<State>, i: nat, j: nat)
    requires IsRun(run) && i <= j < |run| && Settled(run[i])
    ensures Settled(run[j]) && run[j].notifies == run[i].notifies && run[j].listener.notifier == run[i].listener.notifier
    decreases j - i
  {
    hide Init, Settled, WaiterStep, ChildStep, WaiterCan, ChildCan;
    if i < j {
      RunNotifiedOnce(run, i, j - 1);
      var s, s' := run[j - 1], run[j];
      if WaiterCan(s) && s' == WaiterStep(s) {
        WaiterLeavesSettled(s);
      } else if c :| ChildCan(s, c) && s' == ChildStep(s, c) {
        ChildLeavesSettled(s, c);
      } else {
        var c :| ExitCan(s, c) && s' == ExitStep(s, c);
        ExitLeavesSettled(s, c);
      }
    }
  }

  lemma ExitLeavesSettled(s: State, c: nat)
    requires ExitCan(s, c) && Settled(s)
    ensures Settled(ExitStep(s, c)) && ExitStep(s, c).notifies == s.notifies && ExitStep(s, c).listener.notifier == s.listener.notifier
  {
  }

  // ----- where waiting can get stuck --------------------------------------------------

  ghost predicate Stuck(s: State) {
    !WaiterCan(s) && forall c: nat :: !ChildCan(s, c) && !ExitCan(s, c)
  }

  // The order of steps that decides it.

  /** Process c takes the lock of its list. */
  predicate TakesLock(s: State, s': State, c: nat) {
    c < |s.children| && c < |s'.children| && s.children[c].pc == StateSet && s'.children[c].pc.Visits?
  }

  /** The waiting thread puts its listener into the list of process c. */
  predicate Pushes(s: State, s': State, c: nat) {
    s.waiter.AddPush? && s'.waiter.AddUnlock? && s.waiter.i < |s.handles| && s.handles[s.waiter.i] == c
  }

  /** The waiting thread has not begun to take its listener back. */
  predicate Adding(waiter: WaiterPc) {
    waiter.Resolve? || waiter.Check? || waiter.AddLock? || waiter.AddPush? || waiter.AddUnlock? || waiter.Sleep?
  }

  predicate BeforeLock(pc: ChildPc) {
    pc == Runs || pc == NoHandle || pc == StateSet
  }

  /** What one step, taken before the listener is taken back, does to process c. */
  predicate StepOrder(s: State, s': State, c: nat) {
    && Adding(s.waiter) && c < |s.children| == |s'.children|
    && !(TakesLock(s, s', c) && Pushes(s, s', c))
    && (s'.children[c].met <==> if TakesLock(s, s', c) then s.children[c].entries > 0 else s.children[c].met)
    && (BeforeLock(s'.children[c].pc) ==>
          && BeforeLock(s.children[c].pc)
          && (s'.children[c].entries > 0 <==> s.children[c].entries > 0 || Pushes(s, s', c)))
  }

  lemma WaiterOrder(s: State, c: nat)
    requires WaiterCan(s) && c < |s.children| && Adding(WaiterStep(s).waiter)
    ensures StepOrder(s, WaiterStep(s), c)
  {
  }

  lemma ChildOrder(s: State, d: nat, c: nat)
    requires ChildCan(s, d) && c < |s.children| && Adding(s.waiter)
    ensures StepOrder(s, ChildStep(s, d), c)
  {
  }

  lemma ExitOrder(s: State, d: nat, c: nat)
    requires ExitCan(s, d) && c < |s.children| && Adding(s.waiter)
    ensures StepOrder(s, ExitStep(s, d), c)
  {
  }

  lemma NextOrder(s: State, s': State, c: nat)
    requires Next(s, s') && c < |s'.children| && Adding(s'.waiter)
    ensures StepOrder(s, s', c)
  {
    hide StepOrder;
    if WaiterCan(s) && s' == WaiterStep(s) {
      assert |s.children| == |s'.children|;
      WaiterOrder(s, c);
    } else if d :| ChildCan(s, d) && s' == ChildStep(s, d) {
      ChildOrder(s, d, c);
    } else {
      var d :| ExitCan(s, d) && s' == ExitStep(s, d);
      ExitOrder(s, d, c);
    }
  }

  /** The same two steps, by their place in a run. */
  predicate LocksAt(run: seq<State>, a: nat, c: nat) {
    a + 1 < |run| && TakesLock(run[a], run[a + 1], c)
  }

  predicate PushesAt(run: seq<State>, b: nat, c: nat) {
    b + 1 < |run| && Pushes(run[b], run[b + 1], c)
  }

  lemma RunStepOrder(run: seq<State>, i: nat, c: nat)
    requires IsRun(run) && 0 < i < |run| && c < |run[i].children| && Adding(run[i].waiter)
    ensures StepOrder(run[i - 1], run[i], c)
    ensures LocksAt(run, i - 1, c) <==> TakesLock(run[i - 1], run[i], c)
    ensures PushesAt(run, i - 1, c) <==> Pushes(run[i - 1], run[i], c)
  {
    hide Next, Pushes, TakesLock, Adding, StepOrder;
    NextOrder(run[i - 1], run[i], c);
  }

  /** Until process c takes its lock, its list holds the listener if and only if it was
      pushed. */
  lemma {:induction false} RunListed(run: seq<State>, i: nat, c: nat)
    requires IsRun(run) && i < |run| && c < |run[i].children|
    requires Adding(run[i].waiter) && BeforeLock(run[i].children[c].pc)
    ensures run[i].children[c].entries > 0 <==> exists b: nat :: b < i && PushesAt(run, b, c)
  {
    hide Next, Pushes, TakesLock, Adding, BeforeLock, PushesAt, LocksAt;
    if i > 0 {
      RunStepOrder(run, i, c);
      RunListed(run, i - 1, c);
    }
  }

  /** Process c met the listener if and only if the push came before it took its lock. */
  lemma {:induction false} RunMetIff(run: seq<State>, i: nat, c: nat)
    requires IsRun(run) && i < |run| && c < |run[i].children| && Adding(run[i].waiter)
    ensures run[i].children[c].met <==> exists a: nat, b: nat :: b < a < i && LocksAt(run, a, c) && PushesAt(run, b, c)
  {
    hide Next, Pushes, Adding, PushesAt, LocksAt, TakesLock;
    if i > 0 {
      RunStepOrder(run, i, c);
      RunMetIff(run, i - 1, c);
      if TakesLock(run[i - 1], run[i], c) {
        LockBegins(run[i - 1], run[i], c);
        RunListed(run, i - 1, c);
      }
    }
  }

  lemma LockBegins(s: State, s': State, c: nat)
    requires TakesLock(s, s', c)
    ensures BeforeLock(s.children[c].pc)
  {
  }

  /** Up to state i, every process that took the lock of its list did so before the
      waiting thread pushed its listener into that list. */
  ghost predicate LocksFirst(run: seq<State>, i: nat) {
    forall c: nat, a: nat, b: nat | a < i && b < i && LocksAt(run, a, c) && PushesAt(run, b, c) :: a < b
  }

  lemma RunLocksFirstIff(run: seq<State>, i: nat)
    requires IsRun(run) && i < |run| && Adding(run[i].waiter)
    ensures LocksFirst(run, i) <==> forall c | 0 <= c < |run[i].children| :: !run[i].children[c].met
  {
    hide IsRun, Adding, LocksAt, PushesAt;
    forall c: nat, a: nat, b: nat | a < i && b < i && LocksAt(run, a, c) && PushesAt(run, b, c)
      ensures c < |run[i].children| && a != b && (b < a ==> run[i].children[c].met)
    {
      LockedAndPushed(run, i, a, b, c);
    }
    forall c | 0 <= c < |run[i].children| && run[i].children[c].met ensures !LocksFirst(run, i) {
      RunMetIff(run, i, c);
    }
  }

  lemma LockedAndPushed(run: seq<State>, i: nat, a: nat, b: nat, c: nat)
    requires IsRun(run) && i < |run| && Adding(run[i].waiter)
    requires a < i && b < i && LocksAt(run, a, c) && PushesAt(run, b, c)
    ensures c < |run[i].children| && a != b && (b < a ==> run[i].children[c].met)
  {
    hide IsRun, Adding, PushesAt;
    RunStaysDead(run, a, i, c);
    RunMetIff(run, i, c);
    if a == b {
      NotBoth(run, a, c);
    }
  }

  /** Taking the lock and pushing are different steps. */
  lemma NotBoth(run: seq<State>, a: nat, c: nat)
    requires IsRun(run)
    ensures !(LocksAt(run, a, c) && PushesAt(run, a, c))
  {
    hide Next, Init;
    if LocksAt(run, a, c) && PushesAt(run, a, c) {
      RunStepOrder(run, a + 1, c);
    }
  }

  /** Nobody can take a step exactly when all processes are gone and the waiting thread
      has returned or sleeps for good; and it sleeps for good exactly when every process
      took the lock of its list before the listener was pushed into that list. */
  lemma RunStuckIff(run: seq<State>, i: nat)
    requires IsRun(run) && i < |run|
    ensures Stuck(run[i]) <==>
              && (forall c | 0 <= c < |run[i].children| :: run[i].children[c].pc == Gone)
              && (run[i].waiter.Returned? || (run[i].waiter.Sleep? && LocksFirst(run, i)))
  {
    hide IsRun, LocksFirst;
    RunInv(run, i);
    var s := run[i];
    if forall c | 0 <= c < |s.children| :: s.children[c].pc == Gone {
      AllGone(s);
      if s.waiter.Sleep? {
        RunLocksFirstIff(run, i);
      }
    } else {
      var c :| 0 <= c < |s.children| && s.children[c].pc != Gone;
      NotGone(s, c);
    }
  }

  /** A process that is not gone can go on, or waits for a lock the waiting thread holds. */
  lemma NotGone(s: State, c: nat)
    requires Inv(s) && c < |s.children| && s.children[c].pc != Gone
    ensures ChildCan(s, c) || WaiterCan(s)
  {
    hide EntriesOk, NotifierOk, CountOk, ResultOk, MetOk;
    assert ChildOk(s.children[c]);
    assert s.children[c].lock == Waiter <==> c == Held(s);
  }

  lemma AllGone(s: State)
    requires Inv(s) && forall c | 0 <= c < |s.children| :: s.children[c].pc == Gone
    ensures !WaiterCan(s) <==> s.waiter.Returned? || (s.waiter.Sleep? && forall c | 0 <= c < |s.children| :: !s.children[c].met)
  {
    hide EntriesOk, ResultOk;
    forall c | 0 <= c < |s.children| ensures s.children[c].lock != Process {
      assert ChildOk(s.children[c]);
    }
    assert !SomeoneNotifies(s);
    if s.waiter.Sleep? {
      assert (exists c :: 0 <= c < |s.children| && s.children[c].met) <==> s.notifies > 0;
    }
  }

  /** One process, the one waited for, and nothing notified yet. */
  function Pair(child: Child, waiter: WaiterPc): State {
    State([0], [child], waiter, Listener(0, false, NO_HANDLE, false), 0, 0)
  }

  const RUNNING := Child(Runs, false, true, Nobody, 0, false)
  const OVER := Child(Gone, true, false, Nobody, 0, false)

  /** It does happen: a process that ends between the look at its state and the moment
      the listener is added is never noticed. */
  lemma LostWakeup() returns (run: seq<State>)
    ensures IsRun(run) && run[0].handles == [0] && |run[0].children| == 1
    ensures Stuck(run[|run| - 1]) && run[|run| - 1].waiter.Sleep?
  {
    hide IsRun, WaiterCan, WaiterStep, ChildCan, ChildStep;
    run := Looks();
    run := Ends(run);
    run := Listens(run);
    SleepsForGood();
  }

  lemma Looks() returns (run: seq<State>)
    ensures IsRun(run) && run[0] == Pair(RUNNING, Resolve(0)) && run[|run| - 1] == Pair(RUNNING, AddLock(0))
  {
    run := [Pair(RUNNING, Resolve(0))];
    run := WaiterTakes(run, RUNNING, Resolve(0), RUNNING, Check(0));
    run := WaiterTakes(run, RUNNING, Check(0), RUNNING, AddLock(0));
  }

  lemma Ends(run: seq<State>) returns (run': seq<State>)
    requires IsRun(run) && run[|run| - 1] == Pair(RUNNING, AddLock(0))
    ensures IsRun(run') && run'[0] == run[0] && run'[|run'| - 1] == Pair(OVER, AddLock(0))
  {
    hide IsRun;
    var unlisted := RUNNING.(pc := NoHandle, resolves := false);
    var ended := unlisted.(pc := StateSet, terminated := true);
    var visiting := ended.(pc := Visits(0), lock := Process);
    var cleared := visiting.(pc := Cleared);
    run' := ProcessTakes(run, RUNNING, unlisted, AddLock(0));
    run' := ProcessTakes(run', unlisted, ended, AddLock(0));
    run' := ProcessTakes(run', ended, visiting, AddLock(0));
    run' := ProcessTakes(run', visiting, cleared, AddLock(0));
    run' := ProcessTakes(run', cleared, OVER, AddLock(0));
  }

  lemma Listens(run: seq<State>) returns (run': seq<State>)
    requires IsRun(run) && run[|run| - 1] == Pair(OVER, AddLock(0))
    ensures IsRun(run') && run'[0] == run[0] && run'[|run'| - 1] == Pair(OVER.(entries := 1), Sleep)
  {
    hide IsRun;
    run' := WaiterTakes(run, OVER, AddLock(0), OVER.(lock := Waiter), AddPush(0));
    run' := WaiterTakes(run', OVER.(lock := Waiter), AddPush(0), OVER.(lock := Waiter, entries := 1), AddUnlock(0));
    run' := WaiterTakes(run', OVER.(lock := Waiter, entries := 1), AddUnlock(0), OVER.(entries := 1), Resolve(1));
    run' := WaiterTakes(run', OVER.(entries := 1), Resolve(1), OVER.(entries := 1), Sleep);
  }

  lemma SleepsForGood()
    ensures Stuck(Pair(OVER.(entries := 1), Sleep))
  {
  }

  /** Nor is the process that waiting names always over: a call of exit sets its state while
      its program still runs, and waiting returns. */
  lemma StillRunning() returns (run: seq<State>)
    ensures IsRun(run) && run[0].handles == [0] && |run[0].children| == 1
    ensures run[|run| - 1].waiter == Returned(0) && |run[|run| - 1].children| == 1 && run[|run| - 1].children[0].pc == Runs
  {
    hide IsRun;
    var s := Pair(RUNNING, Resolve(0));
    var s1 := ExitStep(s, 0);
    run := [s, s1];
    RunsOn(run);
    var s2 := WaiterStep(s1);
    var s3 := WaiterStep(s2);
    var s4 := WaiterStep(s3);
    var s5 := WaiterStep(s4);
    run := WaiterGoes(run, s1, s2);
    run := WaiterGoes(run, s2, s3);
    run := WaiterGoes(run, s3, s4);
    run := WaiterGoes(run, s4, s5);
  }

  lemma RunsOn(run: seq<State>)
    requires |run| == 2 && Init(run[0]) && ExitCan(run[0], 0) && run[1] == ExitStep(run[0], 0)
    ensures IsRun(run)
  {
    hide Init, ExitCan, ExitStep;
  }

  lemma WaiterGoes(run: seq<State>, s: State, s': State) returns (run': seq<State>)
    requires IsRun(run) && run[|run| - 1] == s && WaiterCan(s) && s' == WaiterStep(s)
    ensures IsRun(run') && run'[0] == run[0] && run'[|run'| - 1] == s'
  {
    hide Init, WaiterCan, WaiterStep;
    run' := run + [s'];
  }

  /** One more step of the waiting thread, or of the process. */
  lemma WaiterTakes(run: seq<State>, child: Child, waiter: WaiterPc, child': Child, waiter': WaiterPc) returns (run': seq<State>)
    requires IsRun(run) && run[|run| - 1] == Pair(child, waiter)
    requires WaiterCan(Pair(child, waiter)) && WaiterStep(Pair(child, waiter)) == Pair(child', waiter')
    ensures IsRun(run') && run'[0] == run[0] && run'[|run'| - 1] == Pair(child', waiter')
  {
    hide Init, WaiterCan, WaiterStep, Pair;
    run' := run + [Pair(child', waiter')];
  }

  lemma ProcessTakes(run: seq<State>, child: Child, child': Child, waiter: WaiterPc) returns (run': seq<State>)
    requires IsRun(run) && run[|run| - 1] == Pair(child, waiter)
    requires ChildCan(Pair(child, waiter), 0) && ChildStep(Pair(child, waiter), 0) == Pair(child', waiter)
    ensures IsRun(run') && run'[0] == run[0] && run'[|run'| - 1] == Pair(child', waiter)
  {
    hide Init, ChildCan, ChildStep, Pair;
    run' := run + [Pair(child', waiter)];
  }
}
