/** The table of open handles: a new object gets the least free handle, and an object that
    is removed is closed.  Handles have 16 bits, and the search for a free one counts in
    them. */
module Handles {
  import opened Common

  datatype Opened<T> = Opened(handle: Handle, io: T)

  const MAX_HANDLES := 0x1_0000

  // ----- an ordered map ---------------------------------------------------------------

  predicate Ordered<T>(m: seq<Opened<T>>) {
    forall i, j | 0 <= i < j < |m| :: m[i].handle < m[j].handle
  }

  /** The place of a handle: behind all smaller ones. */
  function Place<T>(m: seq<Opened<T>>, h: Handle): (p: nat)
    ensures p <= |m| && (forall i | 0 <= i < p :: m[i].handle < h) && (p < |m| ==> m[p].handle >= h)
  {
    if m == [] || m[0].handle >= h then 0 else 1 + Place(m[1..], h)
  }

  function Lookup<T>(m: seq<Opened<T>>, h: Handle): Maybe<T> {
    var p := Place(m, h);
    if p < |m| && m[p].handle == h then Just(m[p].io) else Nothing
  }

  /** Inserts, unless the handle is there already. */
  function Emplace<T>(m: seq<Opened<T>>, h: Handle, io: T): seq<Opened<T>> {
    var p := Place(m, h);
    if p < |m| && m[p].handle == h then m else m[..p] + [Opened(h, io)] + m[p..]
  }

  function Erase<T>(m: seq<Opened<T>>, h: Handle): seq<Opened<T>> {
    var p := Place(m, h);
    if p < |m| && m[p].handle == h then m[..p] + m[p + 1..] else m
  }

  lemma PlaceIs<T>(m: seq<Opened<T>>, h: Handle, p: nat)
    requires Ordered(m) && p < |m| && m[p].handle == h
    ensures Place(m, h) == p && Lookup(m, h) == Just(m[p].io)
  {
  }

  lemma NotFound<T>(m: seq<Opened<T>>, h: Handle)
    requires forall i | 0 <= i < |m| :: m[i].handle != h
    ensures Lookup(m, h) == Nothing
  {
  }

  lemma EmplaceLookup<T>(m: seq<Opened<T>>, h: Handle, io: T, x: Handle)
    requires Ordered(m) && Lookup(m, h) == Nothing
    ensures Ordered(Emplace(m, h, io)) && |Emplace(m, h, io)| == |m| + 1
    ensures Lookup(Emplace(m, h, io), x) == if x == h then Just(io) else Lookup(m, x)
  {
    hide Place, Lookup;
    var p, r := Place(m, h), Emplace(m, h, io);
    assert p < |m| && m[p].handle == h ==> Lookup(m, h) != Nothing by { if p < |m| && m[p].handle == h { PlaceIs(m, h, p); } }
    assert forall i | p <= i < |m| :: m[i].handle > h;
    assert r[p] == Opened(h, io);
    if x == h {
      PlaceIs(r, h, p);
    } else if i :| 0 <= i < |m| && m[i].handle == x {
      var k := if i < p then i else i + 1;
      assert r[k] == m[i];
      PlaceIs(r, x, k);
      PlaceIs(m, x, i);
    } else {
      NotFound(m, x);
      NotFound(r, x);
    }
  }

  lemma EraseLookup<T>(m: seq<Opened<T>>, h: Handle, x: Handle)
    requires Ordered(m)
    ensures Ordered(Erase(m, h)) && Lookup(Erase(m, h), x) == if x == h then Nothing else Lookup(m, x)
  {
    hide Place, Lookup;
    var p, r := Place(m, h), Erase(m, h);
    if x != h && exists i :: 0 <= i < |m| && m[i].handle == x {
      var i :| 0 <= i < |m| && m[i].handle == x;
      var k := if i < p || r == m then i else i - 1;
      assert r[k] == m[i];
      PlaceIs(r, x, k);
      PlaceIs(m, x, i);
    } else {
      NotFound(r, x);
      if x != h {
        NotFound(m, x);
      }
    }
  }

  // ----- the least free handle --------------------------------------------------------

  predicate LeastFree<T>(m: seq<Opened<T>>, h: Handle) {
    Lookup(m, h) == Nothing && forall k: Handle | k < h :: Lookup(m, k) != Nothing
  }

  /** Where the search stops: at the first entry whose handle is not its position. */
  function Gap<T>(m: seq<Opened<T>>, i: nat): (g: nat)
    requires i <= |m|
    ensures i <= g <= |m| && (forall k | i <= k < g :: m[k].handle as int == k)
    ensures g < |m| ==> m[g].handle as int != g
    decreases |m| - i
  {
    if i < |m| && m[i].handle as int == i then Gap(m, i + 1) else i
  }

  /** The handle a new object gets. */
  function NewHandle<T>(m: seq<Opened<T>>): Handle {
    (Gap(m, 0) % MAX_HANDLES) as Handle
  }

  lemma {:induction false} HandlesGrow<T>(m: seq<Opened<T>>, i: nat)
    requires Ordered(m) && i < |m|
    ensures i <= m[i].handle as int < MAX_HANDLES - (|m| - 1 - i)
  {
    AtLeast(m, i);
    AtMost(m, i);
  }

  lemma {:induction false} AtLeast<T>(m: seq<Opened<T>>, i: nat)
    requires Ordered(m) && i < |m|
    ensures i <= m[i].handle as int
  {
    if i > 0 {
      AtLeast(m, i - 1);
    }
  }

  lemma {:induction false} AtMost<T>(m: seq<Opened<T>>, i: nat)
    requires Ordered(m) && i < |m|
    ensures m[i].handle as int + (|m| - 1 - i) <= m[|m| - 1].handle as int
    decreases |m| - i
  {
    if i + 1 < |m| {
      AtMost(m, i + 1);
    }
  }

  /** The search finds the least free handle if and only if there is a free one; in a full
      table it comes around to zero, which is taken. */
  lemma NewHandleIsLeastIff<T>(m: seq<Opened<T>>)
    requires Ordered(m)
    ensures |m| <= MAX_HANDLES
    ensures LeastFree(m, NewHandle(m)) <==> |m| < MAX_HANDLES
    ensures |m| == MAX_HANDLES ==> NewHandle(m) == 0 && forall h: Handle :: Lookup(m, h) != Nothing
  {
    hide Place, Lookup;
    var g := Gap(m, 0);
    if m != [] {
      HandlesGrow(m, 0);
    }
    if |m| < MAX_HANDLES {
      NoneAtGap(m);
    }
    forall k: Handle | k as int < g ensures Lookup(m, k) != Nothing {
      PlaceIs(m, k, k as int);
    }
    if |m| == MAX_HANDLES {
      if g < |m| {
        HandlesGrow(m, g);
      }
    }
  }

  lemma NoneAtGap<T>(m: seq<Opened<T>>)
    requires Ordered(m) && |m| < MAX_HANDLES
    ensures Gap(m, 0) < MAX_HANDLES && Lookup(m, Gap(m, 0) as Handle) == Nothing
  {
    hide Place, Lookup;
    var g := Gap(m, 0);
    forall i | 0 <= i < |m| ensures m[i].handle as int != g {
      if i >= g {
        AtLeast(m, g);
      }
    }
    NotFound(m, g as Handle);
  }

  /** An object is given the handle that means none if and only if all others are taken. */
  lemma InvalidGivenIff<T>(m: seq<Opened<T>>)
    requires Ordered(m)
    ensures NewHandle(m) == INVALID_HANDLE <==> |m| == MAX_HANDLES - 1 && Lookup(m, INVALID_HANDLE) == Nothing
  {
    hide Place, Lookup;
    var g := Gap(m, 0);
    NewHandleIsLeastIff(m);
    if |m| == MAX_HANDLES - 1 && Lookup(m, INVALID_HANDLE) == Nothing && g < |m| {
      AtLeast(m, g);
      AtMost(m, g);
      PlaceIs(m, m[|m| - 1].handle, |m| - 1);
      assert false;
    }
  }

  // ----- runs -------------------------------------------------------------------------

  /** The table, the objects closed so far, and those that found no handle. */
  datatype Table<T> = Table(live: seq<Opened<T>>, closed: seq<T>, lost: seq<T>)

  datatype Op<T> = Add(io: T) | Remove(handle: Handle)

  function AddTo<T>(t: Table<T>, io: T): Table<T> {
    var h := NewHandle(t.live);
    t.(live := Emplace(t.live, h, io), lost := t.lost + if Lookup(t.live, h) == Nothing then [] else [io])
  }

  function RemoveFrom<T>(t: Table<T>, h: Handle): Table<T> {
    var found := Lookup(t.live, h);
    if found.Nothing? then t else t.(live := Erase(t.live, h), closed := t.closed + [found.val])
  }

  function Apply<T>(t: Table<T>, op: Op<T>): Table<T> {
    match op
    case Add(io) => AddTo(t, io)
    case Remove(h) => RemoveFrom(t, h)
  }

  function Run<T>(t: Table<T>, ops: seq<Op<T>>): Table<T> {
    if ops == [] then t else Apply(Run(t, ops[..|ops| - 1]), ops[|ops| - 1])
  }

  /** What one operation does to what a handle leads to. */
  lemma ApplyLookup<T>(t: Table<T>, op: Op<T>, x: Handle)
    requires Ordered(t.live)
    ensures Ordered(Apply(t, op).live)
    ensures Lookup(Apply(t, op).live, x) ==
            if op.Add? && |t.live| < MAX_HANDLES && x == NewHandle(t.live) then Just(op.io)
            else if op.Remove? && x == op.handle then Nothing
            else Lookup(t.live, x)
  {
    hide Place, Lookup, Gap;
    NewHandleIsLeastIff(t.live);
    if op.Add? {
      if |t.live| < MAX_HANDLES {
        EmplaceLookup(t.live, NewHandle(t.live), op.io, x);
      } else {
        Taken(t.live, NewHandle(t.live), op.io);
      }
    } else {
      EraseLookup(t.live, op.handle, x);
    }
  }

  lemma Taken<T>(m: seq<Opened<T>>, h: Handle, io: T)
    requires Lookup(m, h) != Nothing
    ensures Emplace(m, h, io) == m
  {
  }

  lemma {:induction false} RunOrdered<T>(t: Table<T>, ops: seq<Op<T>>)
    requires Ordered(t.live)
    ensures Ordered(Run(t, ops).live)
  {
    hide Apply, Ordered;
    if ops != [] {
      RunOrdered(t, ops[..|ops| - 1]);
      ApplyLookup(Run(t, ops[..|ops| - 1]), ops[|ops| - 1], 0);
    }
  }

  /** An open handle leads to its object through every run that does not remove it. */
  lemma {:induction false} RunKeeps<T>(t: Table<T>, ops: seq<Op<T>>, h: Handle)
    requires Ordered(t.live) && Lookup(t.live, h) != Nothing && Remove(h) !in ops
    ensures Lookup(Run(t, ops).live, h) == Lookup(t.live, h)
  {
    hide Apply, Ordered, Lookup, Gap;
    if ops != [] {
      var before := Run(t, ops[..|ops| - 1]);
      RunOrdered(t, ops[..|ops| - 1]);
      RunKeeps(t, ops[..|ops| - 1], h);
      ApplyLookup(before, ops[|ops| - 1], h);
      NewHandleIsLeastIff(before.live);
    }
  }

  /** Live handles are distinct: the handle of an added object is not given to another
      while it is open, whatever happens in between, if and only if a handle is free then
      or the object's handle is not zero. */
  lemma RunDistinctIff<T>(t: Table<T>, a: T, ops: seq<Op<T>>)
    requires Ordered(t.live) && |t.live| < MAX_HANDLES
    requires Remove(NewHandle(t.live)) !in ops
    ensures var h, later := NewHandle(t.live), Run(AddTo(t, a), ops);
            && Lookup(later.live, h) == Just(a)
            && (NewHandle(later.live) != h <==> |later.live| < MAX_HANDLES || h != 0)
  {
    hide Lookup, Gap, Emplace;
    var h := NewHandle(t.live);
    ApplyLookup(t, Add(a), h);
    RunKeeps(AddTo(t, a), ops, h);
    RunOrdered(AddTo(t, a), ops);
    NewHandleIsLeastIff(Run(AddTo(t, a), ops).live);
  }

  function Ios<T>(m: seq<Opened<T>>): seq<T> {
    seq(|m|, i requires 0 <= i < |m| => m[i].io)
  }

  function AddedBy<T>(ops: seq<Op<T>>): seq<T> {
    if ops == [] then []
    else AddedBy(ops[..|ops| - 1]) + if ops[|ops| - 1].Add? then [ops[|ops| - 1].io] else []
  }

  /** Every object is in one place: open, closed or, added to a full table, lost. */
  function All<T>(t: Table<T>): multiset<T> {
    multiset(Ios(t.live)) + multiset(t.closed) + multiset(t.lost)
  }

  lemma IosSplit<T>(a: seq<Opened<T>>, e: Opened<T>, b: seq<Opened<T>>)
    ensures multiset(Ios(a + [e] + b)) == multiset(Ios(a + b)) + multiset{e.io}
  {
    assert Ios(a + [e] + b) == Ios(a) + [e.io] + Ios(b);
    assert Ios(a + b) == Ios(a) + Ios(b);
  }

  lemma EmplaceIos<T>(m: seq<Opened<T>>, h: Handle, io: T)
    ensures multiset(Ios(Emplace(m, h, io))) == multiset(Ios(m)) + if Lookup(m, h) == Nothing then multiset{io} else multiset{}
  {
    hide Ios;
    var p := Place(m, h);
    IosSplit(m[..p], Opened(h, io), m[p..]);
    assert m[..p] + m[p..] == m;
  }

  lemma EraseIos<T>(m: seq<Opened<T>>, h: Handle)
    requires Lookup(m, h).Just?
    ensures multiset(Ios(m)) == multiset(Ios(Erase(m, h))) + multiset{Lookup(m, h).val}
  {
    hide Ios;
    var p := Place(m, h);
    IosSplit(m[..p], m[p], m[p + 1..]);
    assert m[..p] + [m[p]] + m[p + 1..] == m;
  }

  lemma ApplyConserves<T>(t: Table<T>, op: Op<T>)
    ensures All(Apply(t, op)) == All(t) + if op.Add? then multiset{op.io} else multiset{}
  {
    hide Gap, Ios, Lookup, Emplace, Erase, NewHandle;
    if op.Add? {
      EmplaceIos(t.live, NewHandle(t.live), op.io);
    } else if Lookup(t.live, op.handle).Just? {
      EraseIos(t.live, op.handle);
    }
  }

  /** Conservation over all runs: what was there and what was added is open, closed once,
      or was added while no handle was free. */
  lemma {:induction false} RunConserves<T>(t: Table<T>, ops: seq<Op<T>>)
    ensures All(Run(t, ops)) == All(t) + multiset(AddedBy(ops))
  {
    hide Apply, All;
    if ops != [] {
      RunConserves(t, ops[..|ops| - 1]);
      ApplyConserves(Run(t, ops[..|ops| - 1]), ops[|ops| - 1]);
    }
  }

  // ----- the object -------------------------------------------------------------------

  class HandleTable<T(==)> {
    var openedHandles: seq<Opened<T>>
    var closed: seq<T>
    ghost var lost: seq<T>

    ghost predicate Valid()
      reads this
    {
      Ordered(openedHandles)
    }

    ghost function Contents(): Table<T>
      reads this
    {
      Table(openedHandles, closed, lost)
    }

    constructor ()
      ensures Valid() && Contents() == Table([], [], [])
    {
      openedHandles, closed, lost := [], [], [];
    }

    /** Gives an object the first handle that the ordered table skips. */
    method AddIoHandle(io: T) returns (result: Handle)
      requires Valid()
      modifies this
      ensures Valid() && Contents() == AddTo(old(Contents()), io) && result == NewHandle(old(openedHandles))
      ensures |old(openedHandles)| < MAX_HANDLES ==> LeastFree(old(openedHandles), result) && Lookup(openedHandles, result) == Just(io)
    {
      hide Lookup, Emplace, Gap;
      NewHandleIsLeastIff(openedHandles);
      ApplyLookup(Contents(), Add(io), NewHandle(openedHandles));
      result := 0;
      var i := 0;
      while i < |openedHandles| && openedHandles[i].handle == result
        invariant unchanged(this) && i <= |openedHandles| && result as int == i % MAX_HANDLES && Gap(openedHandles, 0) == Gap(openedHandles, i)
      {
        HandlesGrow(openedHandles, i);
        GapStep(openedHandles, i);
        result := if result == 0xFFFF then 0 else result + 1;
        i := i + 1;
      }
      GapHere(openedHandles, i);
      lost := lost + if Lookup(openedHandles, result) == Nothing then [] else [io];
      openedHandles := Emplace(openedHandles, result, io);
    }

    method GetIoHandle(handle: Handle) returns (io: Maybe<T>)
      requires Valid()
      ensures io == Lookup(openedHandles, handle)
    {
      var at := Place(openedHandles, handle);
      io := if at < |openedHandles| && openedHandles[at].handle == handle then Just(openedHandles[at].io) else Nothing;
    }

    /** Closes the object of a handle and takes it out of the table. */
    method RemoveIoHandle(handle: Handle)
      requires Valid()
      modifies this
      ensures Valid() && Contents() == RemoveFrom(old(Contents()), handle)
    {
      ApplyLookup(Contents(), Remove(handle), handle);
      var at := Place(openedHandles, handle);
      if at < |openedHandles| && openedHandles[at].handle == handle {
        closed := closed + [openedHandles[at].io];
        openedHandles := openedHandles[..at] + openedHandles[at + 1..];
      }
    }

    /** Removes the first handle only; so nothing stays open if and only if at most one
        was. */
    method RemoveAllIoHandles()
      requires Valid()
      modifies this
      ensures Valid()
      ensures Contents() == if old(openedHandles) == [] then old(Contents()) else RemoveFrom(old(Contents()), old(openedHandles)[0].handle)
      ensures openedHandles == [] <==> |old(openedHandles)| <= 1
    {
      if openedHandles != [] {
        closed := closed + [openedHandles[0].io];
        openedHandles := openedHandles[1..];
      }
    }
  }

  lemma GapStep<T>(m: seq<Opened<T>>, i: nat)
    requires i < |m| && m[i].handle as int == i
    ensures Gap(m, i) == Gap(m, i + 1)
  {
  }

  lemma GapHere<T>(m: seq<Opened<T>>, i: nat)
    requires i <= |m| && (i < |m| ==> m[i].handle as int != i)
    ensures Gap(m, i) == i
  {
  }
}
