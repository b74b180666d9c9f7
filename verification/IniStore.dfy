/** The store behind the parser: sections and keys kept in order of their names, the
    order in which they were loaded, adding and deleting. */
module IniStore {
  import opened Common
  import opened IniText
  import opened IniNames
  import opened IniOrder

  type Keys = seq<Named<string>>

  type Sections = seq<Named<Keys>>

  datatype Store = Store(data: Sections, order: nat)

  /** What holds of a store between calls: names in order, sections (and, unless keys may
      repeat, keys) with different names, no load order above the counter. */
  predicate KeysKept(keys: Keys, cs: bool, multi: bool, order: nat) {
    && Sorted(keys, cs) && (!multi ==> Apart(keys, cs))
    && forall i | 0 <= i < |keys| :: keys[i].order <= order
  }

  predicate WellKept(st: Store, cs: bool, multi: bool) {
    && Sorted(st.data, cs) && Apart(st.data, cs)
    && forall i | 0 <= i < |st.data| :: st.data[i].order <= st.order && KeysKept(st.data[i].val, cs, multi, st.order)
  }

  // ----- adding -----------------------------------------------------------------------

  function Smallest(entries: Keys, order: nat): (r: nat)
    ensures r <= order && forall i | 0 <= i < |entries| :: r <= entries[i].order
    ensures r == order || exists i :: 0 <= i < |entries| && r == entries[i].order
  {
    if entries == [] then order
    else
      var r := Smallest(entries[1..], order);
      if entries[0].order < r then entries[0].order else r
  }

  function AddKey(keys: Keys, cs: bool, multi: bool, key: string, value: string, force: bool, order: nat): Keys {
    var lo, hi := Lower(keys, cs, key), Upper(keys, cs, key);
    if lo >= hi || (multi && !force) then Insert(keys, cs, Named(key, order, value))
    else if multi then Insert(keys[..lo] + keys[hi..], cs, Named(key, Smallest(keys[lo..hi], order), value))
    else keys[lo := keys[lo].(val := value)]
  }

  function HasSection(st: Store, cs: bool, section: string): bool {
    Lower(st.data, cs, section) < Upper(st.data, cs, section)
  }

  function WithSection(st: Store, cs: bool, section: string): Store {
    if HasSection(st, cs, section) then st
    else Store(Insert(st.data, cs, Named(section, st.order + 1, [])), st.order + 1)
  }

  function KeysOf(st: Store, cs: bool, section: string): Keys {
    if HasSection(st, cs, section) then st.data[Lower(st.data, cs, section)].val else []
  }

  function SetKeys(st: Store, cs: bool, section: string, keys: Keys, order: nat): Store {
    var i := Lower(st.data, cs, section);
    if HasSection(st, cs, section) then Store(st.data[i := st.data[i].(val := keys)], order) else st
  }

  function AddTo(st: Store, cs: bool, multi: bool, section: string, entry: Maybe<(string, string)>, force: bool): Store {
    var withIt := WithSection(st, cs, section);
    if entry.Nothing? then withIt
    else
      var keys := AddKey(KeysOf(withIt, cs, section), cs, multi, entry.val.0, entry.val.1, force, withIt.order + 1);
      SetKeys(withIt, cs, section, keys, withIt.order + 1)
  }

  // ----- what adding does to a key's values --------------------------------------------

  /** What a key holds after adding to it: a further value if keys may repeat and nothing
      is forced, or if there was none; otherwise one value, in place of the old one or in
      place of all old ones with the smallest load order among them. */
  function Added(before: Keys, multi: bool, key: string, value: string, force: bool, order: nat): Keys {
    if before == [] || (multi && !force) then before + [Named(key, order, value)]
    else if multi then [Named(key, Smallest(before, order), value)]
    else before[0 := before[0].(val := value)]
  }

  /** Taking out all entries with a name. */
  lemma RemovedMatching(keys: Keys, cs: bool, key: string, x: string)
    requires Sorted(keys, cs)
    ensures var lo, hi := Lower(keys, cs, key), Upper(keys, cs, key);
            && lo <= hi && Sorted(keys[..lo] + keys[hi..], cs)
            && Matching(keys[..lo] + keys[hi..], cs, x) == if Same(cs, key, x) then [] else Matching(keys, cs, x)
  {
    hide IsLess, Lower, Upper, Matching, Sorted;
    EqualRange(keys, cs, key);
    var lo, hi := Lower(keys, cs, key), Upper(keys, cs, key);
    SubSorted(keys, cs, lo, hi, []) by { NothingSorted(cs); }
    assert keys[..lo] + [] + keys[hi..] == keys[..lo] + keys[hi..];
    var front := keys[0..hi];
    MatchingSplit(keys, cs, x, hi);
    MatchingSplit(front, cs, x, lo);
    MatchingJoin(keys[..lo], keys[hi..], cs, x);
    assert front[0..lo] == keys[..lo] && front[lo..|front|] == keys[lo..hi] && keys[hi..|keys|] == keys[hi..];
    forall i | 0 <= i < |keys| ensures Same(cs, key, x) ==> (Same(cs, keys[i].item, x) <==> lo <= i < hi)
      ensures !Same(cs, key, x) && lo <= i < hi ==> !Same(cs, keys[i].item, x) {
      SameThrough(cs, keys[i].item, key, x);
    }
    if Same(cs, key, x) {
      MatchingNone(keys, cs, x, 0, lo);
      MatchingNone(keys, cs, x, hi, |keys|);
    } else {
      MatchingNone(keys, cs, x, lo, hi);
    }
  }

  lemma NothingSorted(cs: bool)
    ensures Sorted<string>([], cs)
  {
  }

  lemma SplitAround(m: Keys, k: nat, e: Named<string>)
    requires k < |m|
    ensures m == m[0..k] + ([m[k]] + m[k + 1..]) && m[k := e] == m[0..k] + ([e] + m[k + 1..])
  {
  }

  lemma MatchingAt(a: Keys, e: Named<string>, b: Keys, cs: bool, x: string)
    ensures Matching(a + ([e] + b), cs, x)
            == Matching(a, cs, x) + ((if Same(cs, e.item, x) then [e] else []) + Matching(b, cs, x))
  {
    hide Same, Matching;
    MatchingJoin(a, [e] + b, cs, x);
    MatchingJoin([e], b, cs, x);
    MatchingAll([e], cs, x);
  }

  /** Changing what the first entry with a name holds. */
  lemma UpdatedMatching(keys: Keys, cs: bool, key: string, value: string, x: string)
    requires Sorted(keys, cs) && Lower(keys, cs, key) < Upper(keys, cs, key)
    ensures var lo := Lower(keys, cs, key);
            var before := Matching(keys, cs, x);
            Matching(keys[lo := keys[lo].(val := value)], cs, x)
            == if Same(cs, key, x) then (if before == [] then [] else before[0 := before[0].(val := value)]) else before
  {
    hide IsLess, Lower, Upper, Sorted, Matching;
    EqualRange(keys, cs, key);
    var lo := Lower(keys, cs, key);
    var e, rest := keys[lo], keys[lo + 1..];
    SplitAround(keys, lo, e.(val := value));
    MatchingAt(keys[0..lo], e, rest, cs, x);
    MatchingAt(keys[0..lo], e.(val := value), rest, cs, x);
    SameThrough(cs, e.item, key, x);
    if Same(cs, key, x) {
      forall i | 0 <= i < lo ensures !Same(cs, keys[i].item, x) {
        SameThrough(cs, keys[i].item, key, x);
      }
      MatchingNone(keys, cs, x, 0, lo);
    }
  }

  /** Adding changes exactly the values of that key. */
  lemma AddKeyValues(keys: Keys, cs: bool, multi: bool, key: string, value: string, force: bool, order: nat, x: string)
    requires Sorted(keys, cs)
    ensures Matching(AddKey(keys, cs, multi, key, value, force, order), cs, x)
            == if Same(cs, key, x) then Added(Matching(keys, cs, x), multi, key, value, force, order) else Matching(keys, cs, x)
  {
    hide IsLess, Lower, Upper, Sorted, Matching, Smallest, Insert;
    var lo, hi := Lower(keys, cs, key), Upper(keys, cs, key);
    FoundIsMatching(keys, cs, key);
    EqualRange(keys, cs, key);
    if Same(cs, key, x) {
      MatchingSame(keys, cs, key, x);
    }
    if lo >= hi || (multi && !force) {
      InsertMatching(keys, cs, Named(key, order, value), x);
    } else if multi {
      RemovedMatching(keys, cs, key, x);
      InsertMatching(keys[..lo] + keys[hi..], cs, Named(key, Smallest(keys[lo..hi], order), value), x);
    } else {
      UpdatedMatching(keys, cs, key, value, x);
    }
  }

  /** Forced on repeating keys, a value takes the place of all the values its key had: one
      entry is left, with the smallest load order of those it replaces. */
  lemma ForcedTakesSmallest(keys: Keys, cs: bool, key: string, value: string, order: nat)
    requires KeysKept(keys, cs, true, order) && Matching(keys, cs, key) != []
    ensures var before := Matching(keys, cs, key);
            var after := Matching(AddKey(keys, cs, true, key, value, true, order + 1), cs, key);
            && |after| == 1 && after[0].item == key && after[0].val == value
            && (forall i | 0 <= i < |before| :: after[0].order <= before[i].order)
            && (exists i :: 0 <= i < |before| && after[0].order == before[i].order)
  {
    hide IsLess, Lower, Upper, Smallest, Matching, AddKey;
    SameSelf(cs, key);
    AddKeyValues(keys, cs, true, key, value, true, order + 1, key);
    FoundIsMatching(keys, cs, key);
    var before := Matching(keys, cs, key);
    assert before[0] in keys;
    assert before[0].order <= order;
    assert Smallest(before, order + 1) <= before[0].order;
  }

  lemma InsertKept(keys: Keys, cs: bool, multi: bool, e: Named<string>, order: nat)
    requires KeysKept(keys, cs, multi, order) && e.order <= order
    requires multi || Lower(keys, cs, e.item) == Upper(keys, cs, e.item)
    ensures KeysKept(Insert(keys, cs, e), cs, multi, order)
  {
    hide IsLess, Lower, Upper, Sorted, Apart;
    InsertSorted(keys, cs, e);
  }

  lemma UpdateKept(keys: Keys, cs: bool, multi: bool, i: nat, value: string, order: nat)
    requires KeysKept(keys, cs, multi, order) && i < |keys|
    ensures KeysKept(keys[i := keys[i].(val := value)], cs, multi, order)
  {
    hide IsLess;
  }

  lemma RemoveKept(keys: Keys, cs: bool, multi: bool, key: string, order: nat)
    requires KeysKept(keys, cs, multi, order) && multi
    ensures Lower(keys, cs, key) <= Upper(keys, cs, key)
    ensures KeysKept(keys[..Lower(keys, cs, key)] + keys[Upper(keys, cs, key)..], cs, multi, order)
  {
    hide IsLess, Lower, Upper, Sorted, Apart, Matching;
    RemovedMatching(keys, cs, key, key);
  }

  lemma AddKeyKept(keys: Keys, cs: bool, multi: bool, key: string, value: string, force: bool, order: nat)
    requires KeysKept(keys, cs, multi, order)
    ensures KeysKept(AddKey(keys, cs, multi, key, value, force, order), cs, multi, order)
  {
    hide KeysKept, Insert, Lower, Upper, Smallest;
    var lo, hi := Lower(keys, cs, key), Upper(keys, cs, key);
    KeysSorted(keys, cs, multi, order);
    EqualRange(keys, cs, key);
    if lo >= hi || (multi && !force) {
      InsertKept(keys, cs, multi, Named(key, order, value), order);
    } else if multi {
      RemoveKept(keys, cs, multi, key, order);
      InsertKept(keys[..lo] + keys[hi..], cs, multi, Named(key, Smallest(keys[lo..hi], order), value), order);
    } else {
      UpdateKept(keys, cs, multi, lo, value, order);
    }
  }

  lemma KeysSorted(keys: Keys, cs: bool, multi: bool, order: nat)
    requires KeysKept(keys, cs, multi, order)
    ensures Sorted(keys, cs)
  {
  }

  lemma WithSectionKept(st: Store, cs: bool, multi: bool, section: string)
    requires WellKept(st, cs, multi)
    ensures WellKept(WithSection(st, cs, section), cs, multi) && HasSection(WithSection(st, cs, section), cs, section)
  {
    hide IsLess, Lower, Upper, Sorted, Apart, KeysKept, Insert;
    EqualRange(st.data, cs, section);
    if !HasSection(st, cs, section) {
      var e := Named(section, st.order + 1, []);
      var r := Insert(st.data, cs, e);
      InsertSorted(st.data, cs, e);
      NoKeysKept(cs, multi, st.order + 1);
      forall i | 0 <= i < |r| ensures r[i].order <= st.order + 1 && KeysKept(r[i].val, cs, multi, st.order + 1) {
        var k := InsertedAt(st.data, cs, e, i);
        if k < |st.data| {
          KeptLater(st.data[k].val, cs, multi, st.order, st.order + 1);
        }
      }
      InsertedIsFound(st.data, cs, e);
    }
  }

  /** Where an entry of a map with an insertion was before; the length if it is the new one. */
  lemma InsertedAt<T>(m: seq<Named<T>>, cs: bool, e: Named<T>, i: nat) returns (k: nat)
    requires i < |Insert(m, cs, e)|
    ensures if k < |m| then Insert(m, cs, e)[i] == m[k] else Insert(m, cs, e)[i] == e
  {
    hide IsLess, Upper;
    var u := Upper(m, cs, e.item);
    k := if i < u then i else if i == u then |m| else i - 1;
  }

  lemma InsertedIsFound<T>(m: seq<Named<T>>, cs: bool, e: Named<T>)
    requires Sorted(m, cs)
    ensures Lower(Insert(m, cs, e), cs, e.item) < Upper(Insert(m, cs, e), cs, e.item)
  {
    hide IsLess, Lower, Upper, Sorted;
    var u := Upper(m, cs, e.item);
    InsertSorted(m, cs, e);
    assert Insert(m, cs, e)[u] == e;
    EqualRange(Insert(m, cs, e), cs, e.item);
    SameSelf(cs, e.item);
  }

  lemma NoKeysKept(cs: bool, multi: bool, order: nat)
    ensures KeysKept([], cs, multi, order)
  {
  }

  lemma KeptLater(keys: Keys, cs: bool, multi: bool, order: nat, later: nat)
    requires KeysKept(keys, cs, multi, order) && order <= later
    ensures KeysKept(keys, cs, multi, later)
  {
  }

  lemma SetKeysKept(st: Store, cs: bool, multi: bool, section: string, keys: Keys, order: nat)
    requires WellKept(st, cs, multi) && st.order <= order && KeysKept(keys, cs, multi, order)
    ensures WellKept(SetKeys(st, cs, section, keys, order), cs, multi)
  {
    hide IsLess, Lower, Upper, KeysKept;
    forall i | 0 <= i < |st.data| ensures KeysKept(st.data[i].val, cs, multi, order) {
      KeptLater(st.data[i].val, cs, multi, st.order, order);
    }
  }

  lemma AddToKept(st: Store, cs: bool, multi: bool, section: string, entry: Maybe<(string, string)>, force: bool)
    requires WellKept(st, cs, multi)
    ensures WellKept(AddTo(st, cs, multi, section, entry, force), cs, multi)
  {
    hide WellKept, KeysKept, WithSection, SetKeys, AddKey;
    WithSectionKept(st, cs, multi, section);
    var withIt := WithSection(st, cs, section);
    if entry.Just? {
      KeysOfKept(withIt, cs, multi, section);
      var keys := KeysOf(withIt, cs, section);
      KeptLater(keys, cs, multi, withIt.order, withIt.order + 1);
      AddKeyKept(keys, cs, multi, entry.val.0, entry.val.1, force, withIt.order + 1);
      SetKeysKept(withIt, cs, multi, section, AddKey(keys, cs, multi, entry.val.0, entry.val.1, force, withIt.order + 1), withIt.order + 1);
    }
  }

  lemma KeysOfKept(st: Store, cs: bool, multi: bool, section: string)
    requires WellKept(st, cs, multi)
    ensures KeysKept(KeysOf(st, cs, section), cs, multi, st.order)
  {
    hide IsLess, Lower, Upper, KeysKept;
    NoKeysKept(cs, multi, st.order);
  }

  // ----- deleting ---------------------------------------------------------------------

  predicate Matches(value: Maybe<string>, cs: bool, v: string) {
    value.Just? ==> Same(cs, value.val, v)
  }

  /** The entries with other values than the one asked for. */
  function Others(m: Keys, cs: bool, value: Maybe<string>): Keys {
    if m == [] then []
    else if Matches(value, cs, m[0].val) then Others(m[1..], cs, value)
    else [m[0]] + Others(m[1..], cs, value)
  }

  function DeleteKey(keys: Keys, cs: bool, key: string, value: Maybe<string>): Keys {
    var lo, hi := Lower(keys, cs, key), Upper(keys, cs, key);
    if lo < hi then keys[..lo] + Others(keys[lo..hi], cs, value) + keys[hi..] else keys
  }

  function WithoutSection(st: Store, cs: bool, section: string): Store {
    var i := Lower(st.data, cs, section);
    if HasSection(st, cs, section) then Store(st.data[..i] + st.data[i + 1..], st.order) else st
  }

  /** The store after deleting, and whether anything was deleted. */
  function DeleteFrom(st: Store, cs: bool, section: string, key: Maybe<string>, value: Maybe<string>, removeEmpty: bool): (Store, bool) {
    if !HasSection(st, cs, section) then (st, false)
    else if key.Nothing? then (WithoutSection(st, cs, section), true)
    else
      var before := KeysOf(st, cs, section);
      var keys := DeleteKey(before, cs, key.val, value);
      if keys == before then (st, false)
      else if removeEmpty && keys == [] then (WithoutSection(st, cs, section), true)
      else (SetKeys(st, cs, section, keys, st.order), true)
  }

  lemma {:induction false} OthersAre(m: Keys, cs: bool, value: Maybe<string>)
    ensures |Others(m, cs, value)| <= |m|
    ensures forall e | e in Others(m, cs, value) :: e in m && !Matches(value, cs, e.val)
  {
    hide Matches;
    if m != [] {
      OthersAre(m[1..], cs, value);
    }
  }

  predicate Heads(e: Named<string>, rest: Keys, cs: bool) {
    forall k | 0 <= k < |rest| :: !IsLess(cs, rest[k].item, e.item)
  }

  predicate HeadsApart(e: Named<string>, rest: Keys, cs: bool) {
    forall k | 0 <= k < |rest| :: !Same(cs, e.item, rest[k].item)
  }

  lemma SortedTail(m: Keys, cs: bool)
    requires m != []
    ensures Sorted(m, cs) <==> Sorted(m[1..], cs) && Heads(m[0], m[1..], cs)
    ensures Apart(m, cs) <==> Apart(m[1..], cs) && HeadsApart(m[0], m[1..], cs)
  {
    hide IsLess, Same;
    assert forall k | 0 <= k < |m[1..]| :: m[1..][k] == m[k + 1];
    assert forall k | 0 < k < |m| :: m[k] == m[1..][k - 1];
  }

  lemma {:induction false} OthersSorted(m: Keys, cs: bool, value: Maybe<string>)
    requires Sorted(m, cs)
    ensures Sorted(Others(m, cs, value), cs)
    ensures Apart(m, cs) ==> Apart(Others(m, cs, value), cs)
  {
    hide Matches, IsLess, Same, Sorted, Apart;
    if m != [] {
      SortedTail(m, cs);
      OthersSorted(m[1..], cs, value);
      OthersAre(m[1..], cs, value);
      var rest := Others(m[1..], cs, value);
      forall k | 0 <= k < |rest| ensures !IsLess(cs, rest[k].item, m[0].item) && (Apart(m, cs) ==> !Same(cs, m[0].item, rest[k].item)) {
        assert rest[k] in m[1..];
      }
      SortedTail([m[0]] + rest, cs);
      assert ([m[0]] + rest)[1..] == rest;
    }
  }

  /** Deleting takes out of a key exactly the values asked for, and nothing else. */
  lemma DeleteKeyValues(keys: Keys, cs: bool, key: string, value: Maybe<string>, x: string)
    requires Sorted(keys, cs)
    ensures Matching(DeleteKey(keys, cs, key, value), cs, x)
            == if Same(cs, key, x) then Others(Matching(keys, cs, x), cs, value) else Matching(keys, cs, x)
  {
    hide IsLess, Same, Lower, Upper, Sorted, Matching, Others;
    var lo, hi := Lower(keys, cs, key), Upper(keys, cs, key);
    if Same(cs, key, x) {
      MatchingSame(keys, cs, key, x);
    }
    FoundIsMatching(keys, cs, key);
    if lo < hi {
      RemovedMatching(keys, cs, key, x);
      var mid := Others(keys[lo..hi], cs, value);
      MatchingJoin(keys[..lo] + mid, keys[hi..], cs, x);
      MatchingJoin(keys[..lo], mid, cs, x);
      MatchingJoin(keys[..lo], keys[hi..], cs, x);
      OthersMatching(keys, cs, key, value, x);
      if Same(cs, key, x) {
        EmptyEnds(Matching(keys[..lo], cs, x), Matching(keys[hi..], cs, x), mid);
      } else {
        assert Matching(keys[..lo], cs, x) + [] == Matching(keys[..lo], cs, x);
      }
    } else {
      OthersNone(cs, value);
    }
  }

  lemma OthersMatching(keys: Keys, cs: bool, key: string, value: Maybe<string>, x: string)
    requires Sorted(keys, cs) && Lower(keys, cs, key) < Upper(keys, cs, key)
    ensures var mid := Others(keys[Lower(keys, cs, key)..Upper(keys, cs, key)], cs, value);
            Matching(mid, cs, x) == if Same(cs, key, x) then mid else []
  {
    hide IsLess, Lower, Upper, Sorted, Matching, Others;
    EqualRange(keys, cs, key);
    var lo, hi := Lower(keys, cs, key), Upper(keys, cs, key);
    var mid := Others(keys[lo..hi], cs, value);
    OthersAre(keys[lo..hi], cs, value);
    forall k | 0 <= k < |mid| ensures Same(cs, mid[k].item, x) <==> Same(cs, key, x) {
      assert mid[k] in keys[lo..hi];
      var i :| 0 <= i < |keys[lo..hi]| && keys[lo..hi][i] == mid[k];
      assert Same(cs, keys[lo + i].item, key);
      SameThrough(cs, mid[k].item, key, x);
    }
    MatchingAll(mid, cs, x);
  }

  lemma EmptyEnds(a: Keys, b: Keys, mid: Keys)
    requires a + b == []
    ensures a + mid + b == mid
  {
    assert |a| == 0 && |b| == 0 by { assert |a + b| == 0; }
  }

  lemma OthersNone(cs: bool, value: Maybe<string>)
    ensures Others([], cs, value) == []
  {
  }

  /** The entries that stay are among those there were. */
  lemma OthersWithin(keys: Keys, cs: bool, value: Maybe<string>, lo: nat, hi: nat, order: nat)
    requires lo <= hi <= |keys| && forall i | 0 <= i < |keys| :: keys[i].order <= order
    ensures var mid := Others(keys[lo..hi], cs, value);
            forall k | 0 <= k < |mid| :: HasName(keys, lo, hi, mid[k].item) && mid[k].order <= order
  {
    hide Others;
    var mid := Others(keys[lo..hi], cs, value);
    OthersAre(keys[lo..hi], cs, value);
    forall k | 0 <= k < |mid| ensures HasName(keys, lo, hi, mid[k].item) && mid[k].order <= order {
      assert mid[k] in keys[lo..hi];
      var i :| 0 <= i < |keys[lo..hi]| && keys[lo..hi][i] == mid[k];
      assert keys[lo + i] == mid[k];
    }
  }

  lemma DeleteKeyKept(keys: Keys, cs: bool, multi: bool, key: string, value: Maybe<string>, order: nat)
    requires KeysKept(keys, cs, multi, order)
    ensures KeysKept(DeleteKey(keys, cs, key, value), cs, multi, order)
  {
    hide IsLess, Lower, Upper, Others, Same, Sorted, Apart, HasName;
    var lo, hi := Lower(keys, cs, key), Upper(keys, cs, key);
    if lo < hi {
      var mid := Others(keys[lo..hi], cs, value);
      SliceSorted(keys, cs, lo, hi);
      OthersSorted(keys[lo..hi], cs, value);
      OthersWithin(keys, cs, value, lo, hi, order);
      SubSorted(keys, cs, lo, hi, mid);
      if !multi {
        SubApart(keys, cs, lo, hi, mid);
      }
    }
  }

  lemma SliceSorted(m: Keys, cs: bool, lo: nat, hi: nat)
    requires lo <= hi <= |m| && Sorted(m, cs)
    ensures Sorted(m[lo..hi], cs) && (Apart(m, cs) ==> Apart(m[lo..hi], cs))
  {
    hide IsLess;
  }

  lemma SubApart(m: Keys, cs: bool, lo: nat, hi: nat, mid: Keys)
    requires Apart(m, cs) && lo <= hi <= |m| && Apart(mid, cs)
    requires forall k | 0 <= k < |mid| :: HasName(m, lo, hi, mid[k].item)
    ensures Apart(m[..lo] + mid + m[hi..], cs)
  {
    hide Same;
    var r := m[..lo] + mid + m[hi..];
    forall i, j | 0 <= i < j < |r| ensures !Same(cs, r[i].item, r[j].item) {
      var i' := SourceOf(m, lo, hi, mid, i);
      var j' := SourceOf(m, lo, hi, mid, j);
      if lo <= i && j < lo + |mid| {
        assert r[i] == mid[i - lo] && r[j] == mid[j - lo];
      }
    }
  }

  lemma WithoutSectionKept(st: Store, cs: bool, multi: bool, section: string)
    requires WellKept(st, cs, multi)
    ensures WellKept(WithoutSection(st, cs, section), cs, multi)
  {
    hide IsLess, Lower, Upper, KeysKept;
  }

  lemma DeleteFromKept(st: Store, cs: bool, multi: bool, section: string, key: Maybe<string>, value: Maybe<string>, removeEmpty: bool)
    requires WellKept(st, cs, multi)
    ensures WellKept(DeleteFrom(st, cs, section, key, value, removeEmpty).0, cs, multi)
  {
    hide WellKept, KeysKept, SetKeys, WithoutSection, DeleteKey, Lower, Upper;
    WithoutSectionKept(st, cs, multi, section);
    if key.Just? {
      KeysOfKept(st, cs, multi, section);
      DeleteKeyKept(KeysOf(st, cs, section), cs, multi, key.val, value, st.order);
      SetKeysKept(st, cs, multi, section, DeleteKey(KeysOf(st, cs, section), cs, key.val, value), st.order);
    }
  }

  // ----- the store as values of sections and keys ---------------------------------------

  /** The values of a key of a section. */
  function Values(st: Store, cs: bool, section: string, key: string): Keys {
    Matching(KeysOf(st, cs, section), cs, key)
  }

  lemma SectionAt(st: Store, cs: bool, multi: bool, section: string, i: nat)
    requires WellKept(st, cs, multi) && i < |st.data| && Same(cs, st.data[i].item, section)
    ensures HasSection(st, cs, section) && Lower(st.data, cs, section) == i
  {
    hide IsLess, Same, Lower, Upper, Sorted, KeysKept;
    EqualRange(st.data, cs, section);
    var lo := Lower(st.data, cs, section);
    SameThrough(cs, st.data[lo].item, section, st.data[i].item);
    SameSymmetric(cs, st.data[i].item, section);
    SameSymmetric(cs, st.data[i].item, st.data[lo].item);
  }

  predicate Carried(m: Sections, e: Named<Keys>) {
    exists j :: 0 <= j < |m| && m[j].item == e.item && m[j].val == e.val
  }

  /** Every section of m but one is found in m' with the same keys. */
  predicate CarriedOver(m: Sections, m': Sections, cs: bool, section: string) {
    forall i | 0 <= i < |m| && !Same(cs, m[i].item, section) :: Carried(m', m[i])
  }

  lemma KeysCarried(st: Store, st': Store, cs: bool, multi: bool, section: string, other: string)
    requires WellKept(st, cs, multi) && WellKept(st', cs, multi) && !Same(cs, section, other)
    requires CarriedOver(st.data, st'.data, cs, section) && HasSection(st, cs, other)
    ensures HasSection(st', cs, other) && KeysOf(st', cs, other) == KeysOf(st, cs, other)
  {
    hide IsLess, Same, Lower, Upper, Sorted, KeysKept, Apart;
    var i := Lower(st.data, cs, other);
    EqualRange(st.data, cs, other);
    SameThrough(cs, st.data[i].item, other, section);
    SameSymmetric(cs, other, section);
    assert Carried(st'.data, st.data[i]);
    var j :| 0 <= j < |st'.data| && st'.data[j].item == st.data[i].item && st'.data[j].val == st.data[i].val;
    SectionAt(st', cs, multi, other, j);
  }

  /** Stores that agree but for one section hold the same keys in the others. */
  lemma KeysOfOther(st: Store, st': Store, cs: bool, multi: bool, section: string, other: string)
    requires WellKept(st, cs, multi) && WellKept(st', cs, multi) && !Same(cs, section, other)
    requires CarriedOver(st.data, st'.data, cs, section) && CarriedOver(st'.data, st.data, cs, section)
    ensures KeysOf(st', cs, other) == KeysOf(st, cs, other)
  {
    hide WellKept, CarriedOver, Same, Lower, Upper;
    if HasSection(st, cs, other) {
      KeysCarried(st, st', cs, multi, section, other);
    } else if HasSection(st', cs, other) {
      KeysCarried(st', st, cs, multi, section, other);
    }
  }

  lemma KeysOfSame(st: Store, cs: bool, multi: bool, a: string, b: string)
    requires WellKept(st, cs, multi) && Same(cs, a, b)
    ensures KeysOf(st, cs, a) == KeysOf(st, cs, b) && HasSection(st, cs, a) == HasSection(st, cs, b)
  {
    hide IsLess, Same, Lower, Upper, Sorted, KeysKept, Apart;
    SameSymmetric(cs, a, b);
    if HasSection(st, cs, a) {
      HasAlso(st, cs, multi, a, b);
    } else if HasSection(st, cs, b) {
      HasAlso(st, cs, multi, b, a);
    }
  }

  lemma HasAlso(st: Store, cs: bool, multi: bool, a: string, b: string)
    requires WellKept(st, cs, multi) && Same(cs, a, b) && HasSection(st, cs, a)
    ensures HasSection(st, cs, b) && Lower(st.data, cs, b) == Lower(st.data, cs, a)
  {
    hide IsLess, Same, Lower, Upper, Sorted, KeysKept, Apart;
    EqualRange(st.data, cs, a);
    var i := Lower(st.data, cs, a);
    SameThrough(cs, st.data[i].item, a, b);
    SectionAt(st, cs, multi, b, i);
  }

  lemma InsertCarries(m: Sections, cs: bool, e: Named<Keys>)
    ensures CarriedOver(m, Insert(m, cs, e), cs, e.item) && CarriedOver(Insert(m, cs, e), m, cs, e.item)
  {
    hide IsLess, Same, Upper;
    var u, r := Upper(m, cs, e.item), Insert(m, cs, e);
    forall i | 0 <= i < |m| ensures Carried(r, m[i]) {
      assert r[if i < u then i else i + 1] == m[i];
    }
    SameSelf(cs, e.item);
    forall j | 0 <= j < |r| && j != u ensures Carried(m, r[j]) {
      assert r[j] == m[if j < u then j else j - 1];
    }
    assert r[u] == e;
  }

  lemma WithSectionKeys(st: Store, cs: bool, multi: bool, section: string, other: string)
    requires WellKept(st, cs, multi)
    ensures KeysOf(WithSection(st, cs, section), cs, other) == KeysOf(st, cs, other)
  {
    hide IsLess, Same, Lower, Upper, Sorted, KeysKept, Apart, CarriedOver;
    if !HasSection(st, cs, section) {
      WithSectionKept(st, cs, multi, section);
      var e, u := Named(section, st.order + 1, []), Upper(st.data, cs, section);
      var st' := WithSection(st, cs, section);
      if Same(cs, section, other) {
        KeysOfSame(st, cs, multi, section, other);
        assert st'.data[u] == e;
        SectionAt(st', cs, multi, other, u);
      } else {
        InsertCarries(st.data, cs, e);
        KeysOfOther(st, st', cs, multi, section, other);
      }
    }
  }

  lemma SetKeysKeys(st: Store, cs: bool, multi: bool, section: string, keys: Keys, order: nat, other: string)
    requires WellKept(st, cs, multi) && HasSection(st, cs, section) && st.order <= order && KeysKept(keys, cs, multi, order)
    ensures KeysOf(SetKeys(st, cs, section, keys, order), cs, other) == if Same(cs, section, other) then keys else KeysOf(st, cs, other)
  {
    hide IsLess, Same, Lower, Upper, Sorted, KeysKept, Apart;
    SetKeysKept(st, cs, multi, section, keys, order);
    var i, st' := Lower(st.data, cs, section), SetKeys(st, cs, section, keys, order);
    EqualRange(st.data, cs, section);
    SameThrough(cs, st.data[i].item, section, other);
    if Same(cs, section, other) {
      SectionAt(st', cs, multi, other, i);
    } else {
      forall k | 0 <= k < |st.data| && !Same(cs, st.data[k].item, section)
        ensures Carried(st'.data, st.data[k]) && Carried(st.data, st'.data[k])
      {
        assert st'.data[k] == st.data[k];
      }
      KeysOfOther(st, st', cs, multi, section, other);
    }
  }

  /** Adding an entry changes the values of that key of that section, and no others:
      names of sections and keys are taken as the comparator takes them. */
  lemma AddToValues(st: Store, cs: bool, multi: bool, section: string, entry: Maybe<(string, string)>, force: bool, s: string, k: string)
    requires WellKept(st, cs, multi)
    ensures Values(AddTo(st, cs, multi, section, entry, force), cs, s, k)
            == if entry.Just? && Same(cs, section, s) && Same(cs, entry.val.0, k)
               then Added(Values(st, cs, s, k), multi, entry.val.0, entry.val.1, force, WithSection(st, cs, section).order + 1)
               else Values(st, cs, s, k)
  {
    hide IsLess, Same, WellKept, KeysKept, WithSection, SetKeys, AddKey, Matching, KeysOf, HasSection;
    var withIt := WithSection(st, cs, section);
    WithSectionKept(st, cs, multi, section);
    WithSectionKeys(st, cs, multi, section, s);
    if entry.Just? {
      var keys := KeysOf(withIt, cs, section);
      KeysOfKept(withIt, cs, multi, section);
      KeptLater(keys, cs, multi, withIt.order, withIt.order + 1);
      AddKeyKept(keys, cs, multi, entry.val.0, entry.val.1, force, withIt.order + 1);
      SetKeysKeys(withIt, cs, multi, section, AddKey(keys, cs, multi, entry.val.0, entry.val.1, force, withIt.order + 1), withIt.order + 1, s);
      if Same(cs, section, s) {
        KeysOfSame(withIt, cs, multi, section, s);
        KeysSorted(keys, cs, multi, withIt.order);
        AddKeyValues(keys, cs, multi, entry.val.0, entry.val.1, force, withIt.order + 1, k);
      }
    }
  }

  lemma WithoutSectionKeys(st: Store, cs: bool, multi: bool, section: string, other: string)
    requires WellKept(st, cs, multi) && HasSection(st, cs, section)
    ensures KeysOf(WithoutSection(st, cs, section), cs, other) == if Same(cs, section, other) then [] else KeysOf(st, cs, other)
  {
    hide IsLess, Same, Lower, Upper, Sorted, KeysKept, Apart;
    WithoutSectionKept(st, cs, multi, section);
    var u, st' := Lower(st.data, cs, section), WithoutSection(st, cs, section);
    EqualRange(st.data, cs, section);
    if Same(cs, section, other) {
      if HasSection(st', cs, other) {
        SectionGone(st, cs, multi, section, other);
      }
    } else {
      forall i | 0 <= i < |st.data| && !Same(cs, st.data[i].item, section) ensures Carried(st'.data, st.data[i]) {
        assert st'.data[if i < u then i else i - 1] == st.data[i];
      }
      forall j | 0 <= j < |st'.data| ensures Carried(st.data, st'.data[j]) {
        assert st'.data[j] == st.data[if j < u then j else j + 1];
      }
      KeysOfOther(st, st', cs, multi, section, other);
    }
  }

  lemma SectionGone(st: Store, cs: bool, multi: bool, section: string, other: string)
    requires WellKept(st, cs, multi) && HasSection(st, cs, section) && Same(cs, section, other)
    ensures !HasSection(WithoutSection(st, cs, section), cs, other)
  {
    hide IsLess, Same, Lower, Upper, Sorted, KeysKept;
    WithoutSectionKept(st, cs, multi, section);
    var u, st' := Lower(st.data, cs, section), WithoutSection(st, cs, section);
    EqualRange(st.data, cs, section);
    EqualRange(st'.data, cs, other);
    if HasSection(st', cs, other) {
      var j := Lower(st'.data, cs, other);
      var i := if j < u then j else j + 1;
      SameSymmetric(cs, section, other);
      SameThrough(cs, st.data[i].item, other, section);
      SameThrough(cs, st.data[i].item, section, st.data[u].item);
      SameSymmetric(cs, st.data[u].item, section);
      SameSymmetric(cs, st.data[i].item, st.data[u].item);
    }
  }

  /** Of the entries of a key those stay, as often as they stood there, whose value differs
      from the one asked for, where case is ignored in more than the case of letters; all go
      if no value is given. */
  lemma {:induction false} StaysIff(m: Keys, cs: bool, value: Maybe<string>, e: Named<string>)
    ensures multiset(Others(m, cs, value))[e] == if value.Just? && Folded(cs, value.val) != Folded(cs, e.val) then multiset(m)[e] else 0
  {
    hide Same, Folded;
    if m != [] {
      StaysIff(m[1..], cs, value, e);
      assert m == [m[0]] + m[1..];
      if value.Just? {
        SameIffFolded(cs, value.val, m[0].val);
      }
    }
  }

  /** Deleting takes the values asked for out of that key of that section, or all values
      of the section, and leaves all others. */
  lemma DeleteFromValues(st: Store, cs: bool, multi: bool, section: string, key: Maybe<string>, value: Maybe<string>, removeEmpty: bool, s: string, k: string)
    requires WellKept(st, cs, multi)
    ensures Values(DeleteFrom(st, cs, section, key, value, removeEmpty).0, cs, s, k)
            == if !Same(cs, section, s) then Values(st, cs, s, k)
               else if key.Nothing? then []
               else if Same(cs, key.val, k) then Others(Values(st, cs, s, k), cs, value)
               else Values(st, cs, s, k)
  {
    hide IsLess, Same, WellKept, KeysKept, WithoutSection, SetKeys, DeleteKey, KeysOf, HasSection, Others;
    if Same(cs, section, s) {
      KeysOfSame(st, cs, multi, section, s);
    }
    var before := KeysOf(st, cs, section);
    KeysOfKept(st, cs, multi, section);
    KeysSorted(before, cs, multi, st.order);
    if !HasSection(st, cs, section) {
      NoKeys(st, cs, section);
      OthersNone(cs, value);
    } else {
      WithoutSectionKeys(st, cs, multi, section, s);
      if key.Just? {
        DeleteKeyValues(before, cs, key.val, value, k);
        DeleteKeyKept(before, cs, multi, key.val, value, st.order);
        SetKeysKeys(st, cs, multi, section, DeleteKey(before, cs, key.val, value), st.order, s);
      }
    }
  }

  lemma NoKeys(st: Store, cs: bool, section: string)
    requires !HasSection(st, cs, section)
    ensures KeysOf(st, cs, section) == []
  {
  }

  // ----- what deleting reports, and when a section goes ---------------------------------

  /** The values of a key that are asked for. */
  predicate Wanted(entries: Keys, cs: bool, value: Maybe<string>) {
    exists e :: e in entries && Matches(value, cs, e.val)
  }

  lemma {:induction false} OthersAll(m: Keys, cs: bool, value: Maybe<string>)
    ensures Others(m, cs, value) == m <==> !Wanted(m, cs, value)
    ensures Others(m, cs, value) == [] <==> forall e | e in m :: Matches(value, cs, e.val)
  {
    hide Matches;
    if m != [] {
      OthersAll(m[1..], cs, value);
      OthersAre(m[1..], cs, value);
      assert m == [m[0]] + m[1..];
    }
  }

  lemma DeleteKeyIs(keys: Keys, cs: bool, key: string, value: Maybe<string>)
    requires Sorted(keys, cs)
    ensures DeleteKey(keys, cs, key, value) == keys <==> !Wanted(Matching(keys, cs, key), cs, value)
    ensures DeleteKey(keys, cs, key, value) == [] <==> forall e | e in keys :: Same(cs, e.item, key) && Matches(value, cs, e.val)
  {
    hide IsLess, Same, Lower, Upper, Matches, Matching, Others, Sorted;
    var lo, hi := Lower(keys, cs, key), Upper(keys, cs, key);
    FoundIsMatching(keys, cs, key);
    EqualRange(keys, cs, key);
    var found := keys[lo..hi];
    assert Matching(keys, cs, key) == found;
    OthersAll(found, cs, value);
    if lo < hi {
      var left := Others(found, cs, value);
      OthersAre(found, cs, value);
      assert keys == keys[..lo] + found + keys[hi..];
      Between(keys[..lo], left, found, keys[hi..]);
      DeleteKeyEmpties(keys, cs, key, value, lo, hi);
    } else {
      assert keys != [] ==> keys[0] in keys && !Same(cs, keys[0].item, key);
    }
  }

  lemma Between(a: Keys, b: Keys, b': Keys, c: Keys)
    ensures a + b + c == a + b' + c <==> b == b'
  {
    if a + b + c == a + b' + c {
      assert |b| == |b'|;
      assert (a + b + c)[|a|..|a| + |b|] == b && (a + b' + c)[|a|..|a| + |b'|] == b';
    }
  }

  lemma DeleteKeyEmpties(keys: Keys, cs: bool, key: string, value: Maybe<string>, lo: nat, hi: nat)
    requires lo < hi <= |keys| && forall i | 0 <= i < |keys| :: Same(cs, keys[i].item, key) <==> lo <= i < hi
    ensures keys[..lo] + Others(keys[lo..hi], cs, value) + keys[hi..] == [] <==>
              forall e | e in keys :: Same(cs, e.item, key) && Matches(value, cs, e.val)
  {
    hide Same, Matches, Others;
    var found := keys[lo..hi];
    OthersAll(found, cs, value);
    if keys[..lo] + Others(found, cs, value) + keys[hi..] == [] {
      assert |keys[..lo]| == 0 && |keys[hi..]| == 0 && |Others(found, cs, value)| == 0;
      assert keys == found;
    }
    if forall e | e in keys :: Same(cs, e.item, key) && Matches(value, cs, e.val) {
      assert lo == 0 by { assert keys[0] in keys; }
      assert hi == |keys| by { assert keys[|keys| - 1] in keys; }
      assert found == keys;
    }
  }

  /** Deleting reports whether there was anything to delete. */
  lemma DeleteFromReports(st: Store, cs: bool, multi: bool, section: string, key: Maybe<string>, value: Maybe<string>, removeEmpty: bool)
    requires WellKept(st, cs, multi)
    ensures DeleteFrom(st, cs, section, key, value, removeEmpty).1 <==>
              HasSection(st, cs, section) && (key.Nothing? || Wanted(Values(st, cs, section, key.val), cs, value))
  {
    hide WellKept, HasSection, Wanted, Matching, DeleteKey, KeysKept;
    if key.Just? {
      KeysOfKept(st, cs, multi, section);
      KeysSorted(KeysOf(st, cs, section), cs, multi, st.order);
      DeleteKeyIs(KeysOf(st, cs, section), cs, key.val, value);
    }
  }

  /** A section goes when it is deleted as a whole or, where that is asked for, when the
      values deleted were all it had; every other section stays, also an empty one. */
  lemma DeleteFromSections(st: Store, cs: bool, multi: bool, section: string, key: Maybe<string>, value: Maybe<string>, removeEmpty: bool, s: string)
    requires WellKept(st, cs, multi)
    ensures var r := DeleteFrom(st, cs, section, key, value, removeEmpty);
            HasSection(r.0, cs, s) <==>
              && HasSection(st, cs, s)
              && !(Same(cs, section, s) && r.1
                   && (key.Nothing? || (removeEmpty && forall e | e in KeysOf(st, cs, section) :: Same(cs, e.item, key.val) && Matches(value, cs, e.val))))
  {
    hide WellKept, HasSection, Matching, DeleteKey, KeysKept, WithoutSection, SetKeys, Same, Matches;
    SectionsLeft(st, cs, multi, section, s);
    SameName(st, cs, multi, section, s);
    if key.Just? {
      KeysOfKept(st, cs, multi, section);
      KeysSorted(KeysOf(st, cs, section), cs, multi, st.order);
      DeleteKeyIs(KeysOf(st, cs, section), cs, key.val, value);
      DeleteKeyKept(KeysOf(st, cs, section), cs, multi, key.val, value, st.order);
      SectionsKept(st, cs, section, DeleteKey(KeysOf(st, cs, section), cs, key.val, value), s);
    }
  }

  lemma SameName(st: Store, cs: bool, multi: bool, a: string, b: string)
    requires WellKept(st, cs, multi)
    ensures Same(cs, a, b) ==> HasSection(st, cs, a) == HasSection(st, cs, b)
  {
    hide WellKept, HasSection, Same;
    if Same(cs, a, b) {
      KeysOfSame(st, cs, multi, a, b);
    }
  }

  lemma SectionsLeft(st: Store, cs: bool, multi: bool, section: string, s: string)
    requires WellKept(st, cs, multi)
    ensures HasSection(st, cs, section) ==>
              (HasSection(WithoutSection(st, cs, section), cs, s) <==> HasSection(st, cs, s) && !Same(cs, section, s))
  {
    hide Same, Lower, Upper, IsLess, KeysKept, Sorted, Apart;
    WithoutSectionKept(st, cs, multi, section);
    if HasSection(st, cs, section) {
      if Same(cs, section, s) {
        SectionGone(st, cs, multi, section, s);
      } else {
        OthersStay(st, cs, multi, section, s);
      }
    }
  }

  /** Leaving out a section carries all others over, and no new ones in. */
  lemma OthersStay(st: Store, cs: bool, multi: bool, section: string, s: string)
    requires WellKept(st, cs, multi) && HasSection(st, cs, section) && !Same(cs, section, s)
    ensures HasSection(WithoutSection(st, cs, section), cs, s) <==> HasSection(st, cs, s)
  {
    hide Same, Lower, Upper, IsLess, KeysKept, Sorted, Apart;
    WithoutSectionKept(st, cs, multi, section);
    var u, st' := Lower(st.data, cs, section), WithoutSection(st, cs, section);
    EqualRange(st.data, cs, section);
    forall i | 0 <= i < |st.data| && !Same(cs, st.data[i].item, section) ensures Carried(st'.data, st.data[i]) {
      assert st'.data[if i < u then i else i - 1] == st.data[i];
    }
    forall j | 0 <= j < |st'.data| ensures Carried(st.data, st'.data[j]) {
      assert st'.data[j] == st.data[if j < u then j else j + 1];
    }
    if HasSection(st, cs, s) {
      KeysCarried(st, st', cs, multi, section, s);
    }
    if HasSection(st', cs, s) {
      KeysCarried(st', st, cs, multi, section, s);
    }
  }

  lemma SectionsKept(st: Store, cs: bool, section: string, keys: Keys, s: string)
    ensures HasSection(SetKeys(st, cs, section, keys, st.order), cs, s) == HasSection(st, cs, s)
  {
    hide IsLess;
    SameBounds(st.data, SetKeys(st, cs, section, keys, st.order).data, cs, s);
  }

  lemma {:induction false} SameBounds(m: Sections, m': Sections, cs: bool, x: string)
    requires |m| == |m'| && forall i | 0 <= i < |m| :: m[i].item == m'[i].item
    ensures Lower(m, cs, x) == Lower(m', cs, x) && Upper(m, cs, x) == Upper(m', cs, x)
  {
    hide IsLess;
    if m != [] {
      assert forall i | 0 <= i < |m[1..]| :: m[1..][i] == m[i + 1] && m'[1..][i] == m'[i + 1];
      SameBounds(m[1..], m'[1..], cs, x);
    }
  }
}
