/** The entries of an ordered map by name: those with one name, the first of every name,
    and the ranks that load order gives them. */
module IniNames {
  import opened IniText
  import opened IniOrder

  lemma SameSymmetric(cs: bool, a: string, b: string)
    ensures Same(cs, a, b) <==> Same(cs, b, a)
  {
  }

  lemma SameThrough(cs: bool, a: string, b: string, c: string)
    ensures Same(cs, b, c) ==> (Same(cs, a, b) <==> Same(cs, a, c))
    ensures Same(cs, a, b) ==> (Same(cs, a, c) <==> Same(cs, b, c))
  {
    hide IsLess;
    if Same(cs, b, c) {
      LessRespectsSame(cs, b, c, a);
    }
    if Same(cs, a, b) {
      LessRespectsSame(cs, a, b, c);
    }
  }

  // ----- the entries with one name ----------------------------------------------------

  /** The entries with a given name. */
  function Found<T>(m: seq<Named<T>>, cs: bool, x: string): seq<Named<T>> {
    if Lower(m, cs, x) <= Upper(m, cs, x) then m[Lower(m, cs, x)..Upper(m, cs, x)] else []
  }

  function Matching<T>(m: seq<Named<T>>, cs: bool, x: string): seq<Named<T>> {
    if m == [] then []
    else if Same(cs, m[0].item, x) then [m[0]] + Matching(m[1..], cs, x)
    else Matching(m[1..], cs, x)
  }

  lemma {:induction false} MatchingJoin<T>(a: seq<Named<T>>, b: seq<Named<T>>, cs: bool, x: string)
    ensures Matching(a + b, cs, x) == Matching(a, cs, x) + Matching(b, cs, x)
  {
    hide Same;
    if a == [] {
      assert a + b == b;
    } else {
      MatchingJoin(a[1..], b, cs, x);
      assert (a + b)[1..] == a[1..] + b;
    }
  }

  lemma {:induction false} MatchingAll<T>(m: seq<Named<T>>, cs: bool, x: string)
    ensures (forall i | 0 <= i < |m| :: Same(cs, m[i].item, x)) ==> Matching(m, cs, x) == m
    ensures (forall i | 0 <= i < |m| :: !Same(cs, m[i].item, x)) ==> Matching(m, cs, x) == []
  {
    hide Same;
    if m != [] {
      MatchingAll(m[1..], cs, x);
      assert m == [m[0]] + m[1..];
      assert forall i | 0 <= i < |m[1..]| :: m[1..][i] == m[i + 1];
    }
  }

  lemma MatchingNone<T>(m: seq<Named<T>>, cs: bool, x: string, lo: nat, hi: nat)
    requires lo <= hi <= |m| && forall i | lo <= i < hi :: !Same(cs, m[i].item, x)
    ensures Matching(m[lo..hi], cs, x) == []
  {
    hide Same, Matching;
    MatchingAll(m[lo..hi], cs, x);
  }

  lemma MatchingSplit<T>(m: seq<Named<T>>, cs: bool, x: string, k: nat)
    requires k <= |m|
    ensures Matching(m, cs, x) == Matching(m[0..k], cs, x) + Matching(m[k..|m|], cs, x)
  {
    hide Matching;
    assert m == m[0..k] + m[k..|m|];
    MatchingJoin(m[0..k], m[k..|m|], cs, x);
  }

  /** Searching by bounds finds all entries with the name. */
  lemma FoundIsMatching<T>(m: seq<Named<T>>, cs: bool, x: string)
    requires Sorted(m, cs)
    ensures Found(m, cs, x) == Matching(m, cs, x)
  {
    hide Same, Lower, Upper, Sorted, Matching;
    EqualRange(m, cs, x);
    var lo, hi := Lower(m, cs, x), Upper(m, cs, x);
    MatchingSplit(m, cs, x, hi);
    MatchingNone(m, cs, x, hi, |m|);
    var front := m[0..hi];
    MatchingSplit(front, cs, x, lo);
    MatchingNone(front, cs, x, 0, lo);
    assert front[lo..hi] == m[lo..hi];
    MatchingAll(m[lo..hi], cs, x);
  }

  /** A new entry comes behind the ones with its name and changes no other name's. */
  lemma InsertMatching<T>(m: seq<Named<T>>, cs: bool, e: Named<T>, x: string)
    requires Sorted(m, cs)
    ensures Matching(Insert(m, cs, e), cs, x) == Matching(m, cs, x) + (if Same(cs, e.item, x) then [e] else [])
  {
    hide Same, Upper, Sorted, Matching;
    var u := Upper(m, cs, e.item);
    assert m == m[..u] + m[u..] && m[..u] + [e] + m[u..] == m[..u] + ([e] + m[u..]);
    MatchingJoin(m[..u], m[u..], cs, x);
    MatchingJoin(m[..u], [e] + m[u..], cs, x);
    MatchingJoin([e], m[u..], cs, x);
    MatchingAll([e], cs, x);
    if Same(cs, e.item, x) {
      NoneAbove(m, cs, e, x);
    }
  }

  lemma NoneAbove<T>(m: seq<Named<T>>, cs: bool, e: Named<T>, x: string)
    requires Sorted(m, cs) && Same(cs, e.item, x)
    ensures Matching(m[Upper(m, cs, e.item)..], cs, x) == []
  {
    hide IsLess, Lower, Upper, Matching;
    EqualRange(m, cs, e.item);
    var u := Upper(m, cs, e.item);
    forall i | u <= i < |m| ensures !Same(cs, m[i].item, x) {
      LessRespectsSame(cs, e.item, x, m[i].item);
    }
    MatchingAll(m[u..], cs, x);
  }

  lemma {:induction false} MatchingSame<T>(m: seq<Named<T>>, cs: bool, x: string, y: string)
    requires Same(cs, x, y)
    ensures Matching(m, cs, x) == Matching(m, cs, y)
  {
    hide IsLess;
    if m != [] {
      LessRespectsSame(cs, x, y, m[0].item);
      MatchingSame(m[1..], cs, x, y);
    }
  }

  /** The entries with other names. */
  function Unmatching<T>(m: seq<Named<T>>, cs: bool, x: string): (r: seq<Named<T>>)
    ensures |r| <= |m|
  {
    if m == [] then []
    else if Same(cs, m[0].item, x) then Unmatching(m[1..], cs, x)
    else [m[0]] + Unmatching(m[1..], cs, x)
  }

  lemma {:induction false} UnmatchingIs<T>(m: seq<Named<T>>, cs: bool, x: string)
    ensures forall e | e in Unmatching(m, cs, x) :: e in m && !Same(cs, e.item, x)
    ensures forall e | e in m && !Same(cs, e.item, x) :: e in Unmatching(m, cs, x)
  {
    hide Same;
    if m != [] {
      UnmatchingIs(m[1..], cs, x);
    }
  }

  lemma {:induction false} UnmatchingAll<T>(m: seq<Named<T>>, cs: bool, x: string)
    requires Matching(m, cs, x) == []
    ensures Unmatching(m, cs, x) == m
  {
    hide Same;
    if m != [] {
      UnmatchingAll(m[1..], cs, x);
      assert m == [m[0]] + m[1..];
    }
  }

  lemma {:induction false} MatchingIs<T>(m: seq<Named<T>>, cs: bool, x: string)
    ensures forall e | e in Matching(m, cs, x) :: e in m && Same(cs, e.item, x)
    ensures forall e | e in m && Same(cs, e.item, x) :: e in Matching(m, cs, x)
  {
    hide Same;
    if m != [] {
      MatchingIs(m[1..], cs, x);
    }
  }

  lemma UnmatchingHead<T>(e: Named<T>, rest: seq<Named<T>>, cs: bool, x: string)
    ensures Unmatching([e] + rest, cs, x) == (if Same(cs, e.item, x) then [] else [e]) + Unmatching(rest, cs, x)
    ensures Matching([e] + rest, cs, x) == (if Same(cs, e.item, x) then [e] else []) + Matching(rest, cs, x)
  {
    hide Same;
    assert ([e] + rest)[1..] == rest;
  }

  lemma {:induction false} UnmatchingJoin<T>(a: seq<Named<T>>, e: Named<T>, cs: bool, x: string)
    ensures Unmatching(a + [e], cs, x) == Unmatching(a, cs, x) + if Same(cs, e.item, x) then [] else [e]
  {
    if a == [] {
      assert a + [e] == [e];
    } else {
      hide Same, Unmatching, Matching;
      var h, t := a[0], a[1..];
      assert a == [h] + t && a + [e] == [h] + (t + [e]);
      UnmatchingJoin(t, e, cs, x);
      UnmatchingHead(h, t, cs, x);
      UnmatchingHead(h, t + [e], cs, x);
    }
  }

  /** Leaving out one name leaves the entries with any other. */
  lemma {:induction false} MatchingOfUnmatching<T>(m: seq<Named<T>>, cs: bool, y: string, x: string)
    requires !Same(cs, y, x)
    ensures Matching(Unmatching(m, cs, y), cs, x) == Matching(m, cs, x)
  {
    hide Same;
    if m != [] {
      MatchingOfUnmatching(m[1..], cs, y, x);
      SameThrough(cs, m[0].item, y, x);
      if !Same(cs, m[0].item, y) {
        assert ([m[0]] + Unmatching(m[1..], cs, y))[1..] == Unmatching(m[1..], cs, y);
      }
    }
  }

  // ----- the first entry of every name ------------------------------------------------

  function Firsts<T>(m: seq<Named<T>>, cs: bool): seq<Named<T>>
    decreases |m|
  {
    if m == [] then [] else [m[0]] + Firsts(Unmatching(m[1..], cs, m[0].item), cs)
  }

  lemma {:induction false} FirstsWithin<T>(m: seq<Named<T>>, cs: bool)
    ensures forall e | e in Firsts(m, cs) :: e in m
    decreases |m|
  {
    hide Same;
    if m != [] {
      var rest := Unmatching(m[1..], cs, m[0].item);
      FirstsWithin(rest, cs);
      UnmatchingIs(m[1..], cs, m[0].item);
    }
  }

  lemma FirstsStep<T>(m: seq<Named<T>>, cs: bool, e: Named<T>)
    requires m != []
    ensures Firsts(m, cs) == [m[0]] + Firsts(Unmatching(m[1..], cs, m[0].item), cs)
    ensures Firsts(m + [e], cs) == [m[0]] + Firsts(Unmatching(m[1..] + [e], cs, m[0].item), cs)
    ensures Matching(m, cs, e.item) == [] <==> !Same(cs, m[0].item, e.item) && Matching(m[1..], cs, e.item) == []
  {
    hide Same;
    assert (m + [e])[1..] == m[1..] + [e] && (m + [e])[0] == m[0];
  }

  /** One more entry is a first one if and only if no entry before it has its name. */
  lemma {:induction false} FirstsSnoc<T>(m: seq<Named<T>>, cs: bool, e: Named<T>)
    ensures Firsts(m + [e], cs) == Firsts(m, cs) + if Matching(m, cs, e.item) == [] then [e] else []
    decreases |m|
  {
    if m == [] {
      assert m + [e] == [e];
    } else {
      hide Same, Firsts, Matching, Unmatching;
      var x, rest := m[0].item, Unmatching(m[1..], cs, m[0].item);
      FirstsStep(m, cs, e);
      UnmatchingJoin(m[1..], e, cs, x);
      SameSymmetric(cs, e.item, x);
      if Same(cs, e.item, x) {
        assert rest + [] == rest;
      } else {
        FirstsSnoc(rest, cs, e);
        MatchingOfUnmatching(m[1..], cs, x, e.item);
      }
    }
  }

  lemma {:induction false} FirstsApart<T>(m: seq<Named<T>>, cs: bool)
    requires Apart(m, cs)
    ensures Firsts(m, cs) == m
    decreases |m|
  {
    hide Same;
    if m != [] {
      assert forall i | 0 <= i < |m[1..]| :: m[1..][i] == m[i + 1];
      forall e | e in m[1..] ensures !Same(cs, e.item, m[0].item) {
        SameSymmetric(cs, m[0].item, e.item);
      }
      MatchingAll(m[1..], cs, m[0].item);
      UnmatchingAll(m[1..], cs, m[0].item);
      FirstsApart(m[1..], cs);
    }
  }

  // ----- load order and names ---------------------------------------------------------

  /** Load orders differ, and entries with one name stand in their load order. */
  predicate Ranked<T>(m: seq<Named<T>>, cs: bool) {
    forall i, j | 0 <= i < j < |m| ::
      m[i].order != m[j].order && (Same(cs, m[i].item, m[j].item) ==> m[i].order < m[j].order)
  }

  /** A list in load order, no two entries with the same. */
  predicate Ascends<T>(m: seq<Named<T>>) {
    forall i, j | 0 <= i < j < |m| :: m[i].order < m[j].order
  }

  lemma {:induction false} ByOrderIs<T>(m: seq<Named<T>>)
    requires Ascends(m)
    ensures ByOrder(m) == m
  {
    if m != [] {
      assert forall i | 0 <= i < |m[1..]| :: m[1..][i] == m[i + 1];
      ByOrderIs(m[1..]);
      assert m == [m[0]] + m[1..];
    }
  }

  lemma {:induction false} PlaceMatching<T>(e: Named<T>, m: seq<Named<T>>, cs: bool, x: string)
    requires InOrder(m)
    ensures Matching(Place(e, m), cs, x) == if Same(cs, e.item, x) then Place(e, Matching(m, cs, x)) else Matching(m, cs, x)
    ensures Unmatching(Place(e, m), cs, x) == if Same(cs, e.item, x) then Unmatching(m, cs, x) else Place(e, Unmatching(m, cs, x))
  {
    hide Same;
    if m != [] {
      if e.order <= m[0].order {
        assert ([e] + m)[1..] == m;
        PlacedFirst(e, m, cs, x);
      } else {
        assert forall i | 0 <= i < |m[1..]| :: m[1..][i] == m[i + 1];
        PlaceMatching(e, m[1..], cs, x);
        assert Place(e, m)[1..] == Place(e, m[1..]);
        assert ([m[0]] + Matching(m[1..], cs, x))[1..] == Matching(m[1..], cs, x);
        assert ([m[0]] + Unmatching(m[1..], cs, x))[1..] == Unmatching(m[1..], cs, x);
      }
    }
  }

  lemma PlacedFirst<T>(e: Named<T>, m: seq<Named<T>>, cs: bool, x: string)
    requires m != [] && InOrder(m) && e.order <= m[0].order
    ensures Place(e, Matching(m, cs, x)) == [e] + Matching(m, cs, x)
    ensures Place(e, Unmatching(m, cs, x)) == [e] + Unmatching(m, cs, x)
  {
    hide Same, Matching, Unmatching;
    MatchingIs(m, cs, x);
    UnmatchingIs(m, cs, x);
    var a, b := Matching(m, cs, x), Unmatching(m, cs, x);
    assert a != [] ==> a[0] in m;
    assert b != [] ==> b[0] in m;
  }

  /** Listing by load order and picking by name commute. */
  lemma {:induction false} ByOrderMatching<T>(m: seq<Named<T>>, cs: bool, x: string)
    ensures ByOrder(Matching(m, cs, x)) == Matching(ByOrder(m), cs, x)
    ensures ByOrder(Unmatching(m, cs, x)) == Unmatching(ByOrder(m), cs, x)
  {
    hide Same, Place;
    if m != [] {
      ByOrderMatching(m[1..], cs, x);
      ByOrderSorts(m[1..]);
      PlaceMatching(m[0], ByOrder(m[1..]), cs, x);
      assert ([m[0]] + Matching(m[1..], cs, x))[1..] == Matching(m[1..], cs, x);
      assert ([m[0]] + Unmatching(m[1..], cs, x))[1..] == Unmatching(m[1..], cs, x);
    }
  }

  lemma RankedTail<T>(m: seq<Named<T>>, cs: bool)
    requires m != []
    ensures Ranked(m, cs) <==>
              && Ranked(m[1..], cs)
              && forall e | e in m[1..] :: e.order != m[0].order && (Same(cs, m[0].item, e.item) ==> m[0].order < e.order)
  {
    hide Same;
    assert forall i | 0 <= i < |m[1..]| :: m[1..][i] == m[i + 1];
    assert forall i | 0 < i < |m| :: m[i] == m[1..][i - 1];
  }

  lemma {:induction false} RankedParts<T>(m: seq<Named<T>>, cs: bool, x: string)
    requires Ranked(m, cs)
    ensures Ranked(Matching(m, cs, x), cs) && Ascends(Matching(m, cs, x)) && Ranked(Unmatching(m, cs, x), cs)
  {
    hide Same, Ranked;
    if m != [] {
      RankedTail(m, cs);
      RankedParts(m[1..], cs, x);
      var a, b := Matching(m[1..], cs, x), Unmatching(m[1..], cs, x);
      MatchingIs(m[1..], cs, x);
      UnmatchingIs(m[1..], cs, x);
      RankedTail([m[0]] + a, cs);
      RankedTail([m[0]] + b, cs);
      assert ([m[0]] + a)[1..] == a && ([m[0]] + b)[1..] == b;
      if Same(cs, m[0].item, x) {
        forall e | e in a ensures m[0].order < e.order {
          SameSymmetric(cs, e.item, x);
          SameThrough(cs, m[0].item, x, e.item);
        }
      }
    } else {
      NothingRanked<T>(cs);
    }
  }

  lemma NothingRanked<T>(cs: bool)
    ensures Ranked<T>([], cs)
  {
  }

  /** The entries with one name stand in the map as they do in the load order. */
  lemma MatchingByOrder<T>(m: seq<Named<T>>, cs: bool, x: string)
    requires Ranked(m, cs)
    ensures Matching(ByOrder(m), cs, x) == Matching(m, cs, x)
  {
    hide Same, Matching, Ranked, ByOrder;
    ByOrderMatching(m, cs, x);
    RankedParts(m, cs, x);
    ByOrderIs(Matching(m, cs, x));
  }

  lemma {:induction false} UnmatchingCommutes<T>(m: seq<Named<T>>, cs: bool, x: string, y: string)
    ensures Unmatching(Unmatching(m, cs, x), cs, y) == Unmatching(Unmatching(m, cs, y), cs, x)
  {
    hide Same;
    if m != [] {
      UnmatchingCommutes(m[1..], cs, x, y);
      var a, b := Unmatching(m[1..], cs, x), Unmatching(m[1..], cs, y);
      assert ([m[0]] + a)[1..] == a && ([m[0]] + b)[1..] == b;
    }
  }

  lemma {:induction false} UnmatchingSame<T>(m: seq<Named<T>>, cs: bool, x: string, y: string)
    requires Same(cs, x, y)
    ensures Unmatching(m, cs, x) == Unmatching(m, cs, y)
  {
    hide Same;
    if m != [] {
      UnmatchingSame(m[1..], cs, x, y);
      SameThrough(cs, m[0].item, x, y);
    }
  }

  lemma {:induction false} UnmatchingTwice<T>(m: seq<Named<T>>, cs: bool, x: string)
    ensures Unmatching(Unmatching(m, cs, x), cs, x) == Unmatching(m, cs, x)
    ensures Matching(Unmatching(m, cs, x), cs, x) == []
  {
    hide Same;
    if m != [] {
      UnmatchingTwice(m[1..], cs, x);
      var a := Unmatching(m[1..], cs, x);
      assert ([m[0]] + a)[1..] == a;
    }
  }

  lemma FirstsHead<T>(e: Named<T>, rest: seq<Named<T>>, cs: bool)
    ensures Firsts([e] + rest, cs) == [e] + Firsts(Unmatching(rest, cs, e.item), cs)
  {
    hide Unmatching;
    assert ([e] + rest)[1..] == rest;
  }

  /** Leaving out a name leaves the first entries of the others. */
  lemma {:induction false} FirstsOfUnmatching<T>(m: seq<Named<T>>, cs: bool, x: string)
    ensures Unmatching(Firsts(m, cs), cs, x) == Firsts(Unmatching(m, cs, x), cs)
    decreases |m|
  {
    if m != [] {
      hide Same, Unmatching, Firsts;
      var e, y, tail := m[0], m[0].item, m[1..];
      var rest := Unmatching(tail, cs, y);
      assert m == [e] + tail;
      FirstsOfUnmatching(rest, cs, x);
      FirstsHead(e, tail, cs);
      UnmatchingHead(e, tail, cs, x);
      UnmatchingHead(e, Firsts(rest, cs), cs, x);
      if Same(cs, y, x) {
        UnmatchingSame(tail, cs, y, x);
        UnmatchingTwice(tail, cs, x);
        assert [] + Firsts(rest, cs) == Firsts(rest, cs) && [] + rest == rest;
      } else {
        UnmatchingCommutes(tail, cs, x, y);
        FirstsHead(e, Unmatching(tail, cs, x), cs);
      }
    }
  }

  /** The entry with the smallest load order is the only first one with its name. */
  lemma {:induction false} SmallestIsFirst<T>(m: seq<Named<T>>, cs: bool, b: Named<T>)
    requires Ranked(m, cs) && b in m && forall e | e in m :: b.order <= e.order
    ensures Matching(Firsts(m, cs), cs, b.item) == [b]
    decreases |m|
  {
    hide Same, Unmatching, Firsts, Ranked, Matching;
    var e, tail := m[0], m[1..];
    var rest := Unmatching(tail, cs, e.item);
    assert m == [e] + tail;
    FirstsHead(e, tail, cs);
    UnmatchingHead(e, Firsts(rest, cs), cs, b.item);
    RankedTail(m, cs);
    RankedParts(tail, cs, e.item);
    UnmatchingIs(tail, cs, e.item);
    FirstsWithin(rest, cs);
    if Same(cs, e.item, b.item) {
      assert b == e;
      MatchingAll(Firsts(rest, cs), cs, e.item);
    } else {
      assert b in tail by { if b == e { SameSelf(cs, b.item); } }
      SameSymmetric(cs, e.item, b.item);
      SmallestIsFirst(rest, cs, b);
    }
  }

  lemma RankedUnique<T>(m: seq<Named<T>>, cs: bool, a: Named<T>, b: Named<T>)
    requires Ranked(m, cs) && a in m && b in m && a.order == b.order
    ensures a == b
  {
    hide Same;
  }

  /** The first entries of a map, listed by load order, are the first entries of the
      listing. */
  lemma {:induction false} FirstsByOrder<T>(m: seq<Named<T>>, cs: bool)
    requires Ranked(m, cs)
    ensures ByOrder(Firsts(m, cs)) == Firsts(ByOrder(m), cs)
    decreases |m|
  {
    if m != [] {
      hide Same, Unmatching, Firsts, Ranked, Matching, ByOrder;
      var all := ByOrder(m);
      var firsts := ByOrder(Firsts(m, cs));
      ByOrderSorts(m);
      ByOrderSorts(Firsts(m, cs));
      var b := all[0];
      assert b in multiset(all);
      forall e | e in m ensures b.order <= e.order {
        assert e in multiset(all);
      }
      SmallestIsFirst(m, cs, b);
      SmallestLeads(m, cs, b);
      assert firsts[0] == b;
      FirstsOfUnmatching(m, cs, b.item);
      ByOrderMatching(Firsts(m, cs), cs, b.item);
      ByOrderMatching(m, cs, b.item);
      ByOrderOne(b);
      RankedParts(m, cs, b.item);
      SmallerWithout(m, cs, b);
      FirstsByOrder(Unmatching(m, cs, b.item), cs);
      SplitsOff(firsts, cs);
      assert all == [b] + all[1..];
      FirstsHead(b, all[1..], cs);
      SameSelf(cs, b.item);
      UnmatchingHead(b, all[1..], cs, b.item);
      assert [] + Unmatching(all[1..], cs, b.item) == Unmatching(all[1..], cs, b.item);
    }
  }

  lemma ByOrderOne<T>(b: Named<T>)
    ensures ByOrder([b]) == [b]
  {
  }

  lemma {:induction false} SmallerWithout<T>(m: seq<Named<T>>, cs: bool, b: Named<T>)
    requires b in m
    ensures |Unmatching(m, cs, b.item)| < |m|
  {
    hide Same;
    if m[0] == b {
      SameSelf(cs, b.item);
    } else {
      SmallerWithout(m[1..], cs, b);
    }
  }

  lemma SmallestLeads<T>(m: seq<Named<T>>, cs: bool, b: Named<T>)
    requires Ranked(m, cs) && b in m && forall e | e in m :: b.order <= e.order
    ensures ByOrder(Firsts(m, cs)) != [] && ByOrder(Firsts(m, cs))[0] == b
  {
    hide Same, Unmatching, Firsts, Ranked, Matching, ByOrder;
    var firsts := ByOrder(Firsts(m, cs));
    SmallestIsFirst(m, cs, b);
    MatchingIs(Firsts(m, cs), cs, b.item);
    assert b in Matching(Firsts(m, cs), cs, b.item);
    ByOrderSorts(Firsts(m, cs));
    assert b in multiset(firsts);
    var i :| 0 <= i < |firsts| && firsts[i] == b;
    assert firsts[0] in multiset(firsts);
    FirstsWithin(m, cs);
    RankedUnique(m, cs, firsts[0], b);
  }

  /** A list whose head is the only entry with its name. */
  lemma SplitsOff<T>(m: seq<Named<T>>, cs: bool)
    requires m != [] && Matching(m, cs, m[0].item) == [m[0]]
    ensures m == [m[0]] + Unmatching(m, cs, m[0].item)
  {
    hide Same, Unmatching, Matching;
    var x, tail := m[0].item, m[1..];
    assert m == [m[0]] + tail;
    SameSelf(cs, x);
    UnmatchingHead(m[0], tail, cs, x);
    var rest := Matching(tail, cs, x);
    assert |[m[0]] + rest| == 1 ==> rest == [];
    UnmatchingAll(tail, cs, x);
    assert [] + tail == tail;
  }
}
