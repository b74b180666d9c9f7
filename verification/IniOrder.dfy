/** Ordered maps of named entries: kept sorted by name under the comparator, searched by
    bounds, and listed by load order. */
module IniOrder {
  import opened IniText

  /** An entry: its name, its place in the load order, and what it holds. */
  datatype Named<T> = Named(item: string, order: nat, val: T)

  // ----- by name ----------------------------------------------------------------------

  predicate Sorted<T>(m: seq<Named<T>>, cs: bool) {
    forall i, j | 0 <= i < j < |m| :: !IsLess(cs, m[j].item, m[i].item)
  }

  /** No two entries have names that compare equal. */
  predicate Apart<T>(m: seq<Named<T>>, cs: bool) {
    forall i, j | 0 <= i < j < |m| :: !Same(cs, m[i].item, m[j].item)
  }

  /** The first entry that is not less than x. */
  function Lower<T>(m: seq<Named<T>>, cs: bool, x: string): (n: nat)
    ensures n <= |m| && forall i | 0 <= i < n :: IsLess(cs, m[i].item, x)
    ensures n < |m| ==> !IsLess(cs, m[n].item, x)
  {
    if m == [] || !IsLess(cs, m[0].item, x) then 0 else 1 + Lower(m[1..], cs, x)
  }

  /** The first entry that is greater than x. */
  function Upper<T>(m: seq<Named<T>>, cs: bool, x: string): (n: nat)
    ensures n <= |m| && forall i | 0 <= i < n :: !IsLess(cs, x, m[i].item)
    ensures n < |m| ==> IsLess(cs, x, m[n].item)
  {
    if m == [] || IsLess(cs, x, m[0].item) then 0 else 1 + Upper(m[1..], cs, x)
  }

  lemma NotLessTransitive(cs: bool, a: string, b: string, c: string)
    requires !IsLess(cs, b, a) && !IsLess(cs, c, b)
    ensures !IsLess(cs, c, a)
  {
    hide IsLess;
    if IsLess(cs, c, a) {
      if IsLess(cs, a, b) {
        LessTransitive(cs, c, a, b);
      } else {
        LessRespectsSame(cs, a, b, c);
      }
    }
  }

  /** Less, then not greater, is less. */
  lemma LessThenNotGreater(cs: bool, a: string, b: string, c: string)
    requires (IsLess(cs, a, b) && !IsLess(cs, c, b)) || (!IsLess(cs, b, a) && IsLess(cs, b, c))
    ensures IsLess(cs, a, c)
  {
    hide IsLess;
    if !IsLess(cs, a, c) {
      if IsLess(cs, a, b) && !IsLess(cs, c, b) {
        NotLessTransitive(cs, b, c, a);
      } else {
        NotLessTransitive(cs, c, a, b);
      }
    }
  }

  /** In a sorted map the names equal to x are those between the bounds. */
  lemma EqualRange<T>(m: seq<Named<T>>, cs: bool, x: string)
    requires Sorted(m, cs)
    ensures Lower(m, cs, x) <= Upper(m, cs, x)
    ensures forall i | 0 <= i < |m| :: Same(cs, m[i].item, x) <==> Lower(m, cs, x) <= i < Upper(m, cs, x)
    ensures forall i | Lower(m, cs, x) <= i < |m| :: !IsLess(cs, m[i].item, x)
    ensures forall i | Upper(m, cs, x) <= i < |m| :: IsLess(cs, x, m[i].item)
  {
    hide IsLess, Lower, Upper;
    var lo, hi := Lower(m, cs, x), Upper(m, cs, x);
    forall i | lo <= i < |m| ensures !IsLess(cs, m[i].item, x) {
      if i > lo {
        NotLessTransitive(cs, x, m[lo].item, m[i].item);
      }
    }
    forall i | hi <= i < |m| ensures IsLess(cs, x, m[i].item) {
      if i > hi {
        LessThenNotGreater(cs, x, m[hi].item, m[i].item);
      }
    }
    forall i | 0 <= i < lo ensures !IsLess(cs, x, m[i].item) {
      LessAsymmetric(cs, m[i].item, x);
    }
    assert lo <= hi;
  }

  /** New entries go behind those with an equal name. */
  function Insert<T>(m: seq<Named<T>>, cs: bool, e: Named<T>): seq<Named<T>> {
    var u := Upper(m, cs, e.item);
    m[..u] + [e] + m[u..]
  }

  lemma InsertSorted<T>(m: seq<Named<T>>, cs: bool, e: Named<T>)
    requires Sorted(m, cs)
    ensures Sorted(Insert(m, cs, e), cs)
    ensures Apart(m, cs) && Lower(m, cs, e.item) == Upper(m, cs, e.item) ==> Apart(Insert(m, cs, e), cs)
  {
    hide IsLess, Lower, Upper;
    EqualRange(m, cs, e.item);
    var u, r := Upper(m, cs, e.item), Insert(m, cs, e);
    forall i, j | 0 <= i < j < |r| ensures !IsLess(cs, r[j].item, r[i].item) {
      if i == u {
        assert r[j] == m[j - 1];
        LessAsymmetric(cs, e.item, m[j - 1].item);
      } else {
        assert j != u ==> r[j] == m[if j < u then j else j - 1];
        assert r[i] == m[if i < u then i else i - 1];
      }
    }
    if Apart(m, cs) && Lower(m, cs, e.item) == u {
      forall i, j | 0 <= i < j < |r| ensures !Same(cs, r[i].item, r[j].item) {
        assert j != u ==> r[j] == m[if j < u then j else j - 1];
        assert i != u ==> r[i] == m[if i < u then i else i - 1];
      }
    }
  }

  predicate HasName<T>(m: seq<Named<T>>, lo: nat, hi: nat, item: string)
    requires hi <= |m|
  {
    exists i :: lo <= i < hi && m[i].item == item
  }

  /** Taking entries out, or changing what they hold, keeps a map sorted. */
  lemma SubSorted<T>(m: seq<Named<T>>, cs: bool, lo: nat, hi: nat, mid: seq<Named<T>>)
    requires Sorted(m, cs) && lo <= hi <= |m| && Sorted(mid, cs)
    requires forall k | 0 <= k < |mid| :: HasName(m, lo, hi, mid[k].item)
    ensures Sorted(m[..lo] + mid + m[hi..], cs)
  {
    hide IsLess;
    var r := m[..lo] + mid + m[hi..];
    forall i, j | 0 <= i < j < |r| ensures !IsLess(cs, r[j].item, r[i].item) {
      var i' := SourceOf(m, lo, hi, mid, i);
      var j' := SourceOf(m, lo, hi, mid, j);
      if lo <= i && j < lo + |mid| {
        assert r[i] == mid[i - lo] && r[j] == mid[j - lo];
      }
    }
  }

  lemma SourceOf<T>(m: seq<Named<T>>, lo: nat, hi: nat, mid: seq<Named<T>>, i: nat) returns (i': nat)
    requires lo <= hi <= |m| && i < |m[..lo] + mid + m[hi..]|
    requires forall k | 0 <= k < |mid| :: HasName(m, lo, hi, mid[k].item)
    ensures i' < |m| && m[i'].item == (m[..lo] + mid + m[hi..])[i].item
    ensures if i < lo then i' == i else if i < lo + |mid| then lo <= i' < hi else i' == i - lo - |mid| + hi
  {
    if i < lo {
      i' := i;
    } else if i < lo + |mid| {
      assert (m[..lo] + mid + m[hi..])[i] == mid[i - lo];
      assert HasName(m, lo, hi, mid[i - lo].item);
      i' :| lo <= i' < hi && m[i'].item == mid[i - lo].item;
    } else {
      i' := i - lo - |mid| + hi;
    }
  }

  // ----- by load order ----------------------------------------------------------------

  function ByOrder<T>(m: seq<Named<T>>): (r: seq<Named<T>>)
    ensures |r| == |m|
  {
    if m == [] then [] else Place(m[0], ByOrder(m[1..]))
  }

  function Place<T>(e: Named<T>, m: seq<Named<T>>): (r: seq<Named<T>>)
    ensures |r| == |m| + 1
  {
    if m == [] || e.order <= m[0].order then [e] + m else [m[0]] + Place(e, m[1..])
  }

  predicate InOrder<T>(m: seq<Named<T>>) {
    forall i, j | 0 <= i < j < |m| :: m[i].order <= m[j].order
  }

  lemma {:induction false} PlaceKeepsAll<T>(e: Named<T>, m: seq<Named<T>>)
    ensures multiset(Place(e, m)) == multiset(m) + multiset{e}
  {
    if m != [] && e.order > m[0].order {
      PlaceKeepsAll(e, m[1..]);
      assert m == [m[0]] + m[1..];
    }
  }

  lemma {:induction false} PlaceSorted<T>(e: Named<T>, m: seq<Named<T>>)
    requires InOrder(m)
    ensures InOrder(Place(e, m))
  {
    if m != [] && e.order > m[0].order {
      PlaceSorted(e, m[1..]);
      PlaceKeepsAll(e, m[1..]);
      var rest := Place(e, m[1..]);
      forall k | 0 <= k < |rest| ensures m[0].order <= rest[k].order {
        assert rest[k] in multiset(rest);
        assert rest[k] == e || rest[k] in m[1..];
      }
    }
  }

  /** Listing by load order rearranges the entries, smallest order first. */
  lemma {:induction false} ByOrderSorts<T>(m: seq<Named<T>>)
    ensures multiset(ByOrder(m)) == multiset(m) && InOrder(ByOrder(m))
  {
    hide Place, InOrder;
    if m == [] {
      NothingInOrder<T>();
    } else {
      ByOrderSorts(m[1..]);
      PlaceSorted(m[0], ByOrder(m[1..]));
      PlaceKeepsAll(m[0], ByOrder(m[1..]));
      assert m == [m[0]] + m[1..];
    }
  }

  lemma NothingInOrder<T>()
    ensures InOrder<T>([])
  {
  }

  lemma {:induction false} PlaceLast<T>(e: Named<T>, m: seq<Named<T>>)
    requires forall i | 0 <= i < |m| :: m[i].order < e.order
    ensures Place(e, m) == m + [e]
  {
    if m != [] {
      PlaceLast(e, m[1..]);
    }
  }

  lemma {:induction false} PlaceBefore<T>(x: Named<T>, m: seq<Named<T>>, e: Named<T>)
    requires x.order < e.order
    ensures Place(x, m + [e]) == Place(x, m) + [e]
  {
    if m != [] {
      assert (m + [e])[1..] == m[1..] + [e];
      PlaceBefore(x, m[1..], e);
    }
  }

  /** The entry loaded last is listed last, wherever its name puts it. */
  lemma {:induction false} NewestIsLast<T>(m: seq<Named<T>>, i: nat, e: Named<T>)
    requires i <= |m| && forall k | 0 <= k < |m| :: m[k].order < e.order
    ensures ByOrder(m[..i] + [e] + m[i..]) == ByOrder(m) + [e]
    decreases |m|
  {
    if i == 0 {
      assert m[..0] + [e] + m[0..] == [e] + m;
      assert ([e] + m)[1..] == m;
      ByOrderSorts(m);
      forall k | 0 <= k < |m| ensures ByOrder(m)[k].order < e.order {
        assert ByOrder(m)[k] in multiset(ByOrder(m));
        assert ByOrder(m)[k] in m;
      }
      PlaceLast(e, ByOrder(m));
    } else {
      var r := m[..i] + [e] + m[i..];
      assert r[0] == m[0] && r[1..] == m[1..][..i - 1] + [e] + m[1..][i - 1..];
      NewestIsLast(m[1..], i - 1, e);
      PlaceBefore(m[0], ByOrder(m[1..]), e);
    }
  }
}
