/** The object that is the store: its fields are changed in place, and every method is
    proved against what module IniStore says of its contents. */
module IniObject {
  import opened Common
  import opened IniText
  import opened IniNames
  import opened IniOrder
  import opened IniRank
  import opened IniStore

  // ----- counting ---------------------------------------------------------------------

  /** The names that occur, up to the comparator. */
  function NamesIn(keys: Keys, cs: bool): set<string> {
    set k | 0 <= k < |keys| :: Folded(cs, keys[k].item)
  }

  /** In a sorted section a key is new exactly when it is greater than the one before. */
  lemma NewNameIff(keys: Keys, cs: bool, i: nat, last: string)
    requires Sorted(keys, cs) && 0 < i < |keys| && Same(cs, last, keys[i - 1].item)
    ensures IsLess(cs, last, keys[i].item) <==> Folded(cs, keys[i].item) !in NamesIn(keys[..i], cs)
    ensures !IsLess(cs, last, keys[i].item) ==> Same(cs, last, keys[i].item)
  {
    hide IsLess, Folded;
    LessRespectsSame(cs, last, keys[i - 1].item, keys[i].item);
    var x := keys[i].item;
    if IsLess(cs, last, x) {
      forall j | 0 <= j < i ensures Folded(cs, keys[..i][j].item) != Folded(cs, x) {
        SameIffFolded(cs, keys[j].item, x);
        if j < i - 1 {
          LessThenNotGreater(cs, keys[j].item, keys[i - 1].item, x);
        }
      }
    } else {
      SameIffFolded(cs, keys[i - 1].item, x);
      assert keys[..i][i - 1] == keys[i - 1];
    }
  }

  lemma NamesGrow(keys: Keys, cs: bool, i: nat)
    requires i < |keys|
    ensures NamesIn(keys[..i + 1], cs) == NamesIn(keys[..i], cs) + {Folded(cs, keys[i].item)}
  {
    hide Folded;
    var a, b := keys[..i + 1], keys[..i];
    assert forall k | 0 <= k < i :: a[k] == b[k];
    assert a[i] == keys[i];
  }

  lemma ApartIsNew(keys: Keys, cs: bool, i: nat)
    requires Apart(keys, cs) && i < |keys|
    ensures Folded(cs, keys[i].item) !in NamesIn(keys[..i], cs)
  {
    hide Folded, IsLess;
    var before := keys[..i];
    forall j | 0 <= j < i ensures Folded(cs, before[j].item) != Folded(cs, keys[i].item) {
      SameIffFolded(cs, keys[j].item, keys[i].item);
    }
  }

  lemma {:induction false} ApartCount(keys: Keys, cs: bool, i: nat)
    requires Apart(keys, cs) && i <= |keys|
    ensures |NamesIn(keys[..i], cs)| == i
  {
    hide Folded, NamesIn, Apart, Lists;
    if i == 0 {
      NoNames(keys, cs);
    } else {
      ApartCount(keys, cs, i - 1);
      NamesGrow(keys, cs, i - 1);
      ApartIsNew(keys, cs, i - 1);
    }
  }

  predicate FirstAt(keys: Keys, cs: bool, i: nat)
    requires i < |keys|
  {
    forall j | 0 <= j < i :: !Same(cs, keys[j].item, keys[i].item)
  }

  predicate IsFirst(keys: Keys, cs: bool, e: Named<string>) {
    exists i :: 0 <= i < |keys| && keys[i] == e && FirstAt(keys, cs, i)
  }

  /** The list of names of a section: every name once, by its first entry. */
  predicate Lists(names: Keys, keys: Keys, cs: bool) {
    && NamesIn(names, cs) == NamesIn(keys, cs) && |names| == |NamesIn(keys, cs)|
    && forall k | 0 <= k < |names| :: IsFirst(keys, cs, names[k])
  }

  lemma NoNames(keys: Keys, cs: bool)
    ensures NamesIn(keys[..0], cs) == {} && Lists([], keys[..0], cs)
  {
  }

  lemma StillFirst(keys: Keys, cs: bool, i: nat, e: Named<string>)
    requires i < |keys| && IsFirst(keys[..i], cs, e)
    ensures IsFirst(keys[..i + 1], cs, e)
  {
    hide Same;
    var a, b := keys[..i], keys[..i + 1];
    var k :| 0 <= k < |a| && a[k] == e && FirstAt(a, cs, k);
    assert forall j | 0 <= j < i :: a[j] == b[j];
    assert b[k] == e && FirstAt(b, cs, k);
  }

  lemma NextName(names: Keys, keys: Keys, cs: bool, i: nat)
    requires i < |keys| && Lists(names, keys[..i], cs) && Folded(cs, keys[i].item) !in NamesIn(keys[..i], cs)
    ensures Lists(names + [keys[i]], keys[..i + 1], cs)
  {
    hide Same, Folded, NamesIn, IsFirst;
    var more := names + [keys[i]];
    NamesGrow(keys, cs, i);
    NamesGrow(more, cs, |names|);
    assert more[..|names|] == names && more[..|more|] == more;
    forall k | 0 <= k < |more| ensures IsFirst(keys[..i + 1], cs, more[k]) {
      if k < |names| {
        StillFirst(keys, cs, i, names[k]);
      } else {
        NewIsFirst(keys, cs, i);
      }
    }
  }

  lemma NewIsFirst(keys: Keys, cs: bool, i: nat)
    requires i < |keys| && Folded(cs, keys[i].item) !in NamesIn(keys[..i], cs)
    ensures IsFirst(keys[..i + 1], cs, keys[i])
  {
    hide Same, Folded;
    var a, b := keys[..i], keys[..i + 1];
    forall j | 0 <= j < i ensures !Same(cs, b[j].item, b[i].item) {
      assert a[j] == b[j];
      SameIffFolded(cs, b[j].item, b[i].item);
    }
    assert FirstAt(b, cs, i) && b[i] == keys[i];
  }

  lemma KnownName(names: Keys, keys: Keys, cs: bool, i: nat)
    requires i < |keys| && Lists(names, keys[..i], cs) && Folded(cs, keys[i].item) in NamesIn(keys[..i], cs)
    ensures Lists(names, keys[..i + 1], cs)
  {
    hide Same, Folded, NamesIn, IsFirst;
    NamesGrow(keys, cs, i);
    assert NamesIn(keys[..i], cs) + {Folded(cs, keys[i].item)} == NamesIn(keys[..i], cs);
    forall k | 0 <= k < |names| ensures IsFirst(keys[..i + 1], cs, names[k]) {
      StillFirst(keys, cs, i, names[k]);
    }
  }

  lemma {:induction false} SmallestSnoc(entries: Keys, e: Named<string>, order: nat)
    ensures Smallest(entries + [e], order) == if e.order < Smallest(entries, order) then e.order else Smallest(entries, order)
  {
    if entries == [] {
      assert (entries + [e])[1..] == [];
    } else {
      SmallestSnoc(entries[1..], e, order);
      assert (entries + [e])[1..] == entries[1..] + [e];
    }
  }

  lemma SmallestNone(keys: Keys, lo: nat, order: nat)
    requires lo <= |keys|
    ensures Smallest(keys[lo..lo], order) == order
  {
  }

  lemma OthersStep(keys: Keys, from: nat, to: nat, cs: bool, value: Maybe<string>)
    requires from < to <= |keys|
    ensures Others(keys[from..to], cs, value) ==
            if Matches(value, cs, keys[from].val) then Others(keys[from + 1..to], cs, value)
            else [keys[from]] + Others(keys[from + 1..to], cs, value)
  {
    assert keys[from..to][1..] == keys[from + 1..to];
  }

  lemma ApartIfSingle(keys: Keys, cs: bool, multi: bool, order: nat)
    requires KeysKept(keys, cs, multi, order) && (!multi || keys == [])
    ensures |NamesIn(keys, cs)| == |keys|
  {
    hide Same, NamesIn;
    assert keys[..|keys|] == keys;
    ApartCount(keys, cs, |keys|);
  }

  /** State of the walk over the entries of a key: those before `next` were looked at,
      and `kept` are the ones left of them. */
  ghost predicate Erasing(start: Keys, cs: bool, key: string, value: Maybe<string>, next: nat, kept: Keys, keys: Keys, deleted: bool) {
    var lo, hi := Lower(start, cs, key), Upper(start, cs, key);
    && lo <= next <= hi && |kept| <= next - lo
    && keys == start[..lo] + kept + start[next..]
    && Others(start[lo..hi], cs, value) == kept + Others(start[next..hi], cs, value)
    && (deleted <==> |kept| < next - lo)
    && (!deleted ==> kept == start[lo..next])
  }

  lemma NothingToErase(start: Keys, cs: bool, key: string, value: Maybe<string>)
    requires Lower(start, cs, key) >= Upper(start, cs, key)
    ensures DeleteKey(start, cs, key, value) == start
  {
  }

  lemma EraseStart(start: Keys, cs: bool, key: string, value: Maybe<string>)
    requires Lower(start, cs, key) < Upper(start, cs, key)
    ensures Erasing(start, cs, key, value, Lower(start, cs, key), [], start, false)
  {
    hide Lower, Upper, Others;
    var lo := Lower(start, cs, key);
    NothingKept(start, lo);
    NothingKept(Others(start[lo..Upper(start, cs, key)], cs, value), 0);
  }

  lemma NothingKept(m: Keys, lo: nat)
    requires lo <= |m|
    ensures m[..lo] + [] + m[lo..] == m && [] + m == m && m[lo..lo] == []
  {
  }

  lemma EraseOne(a: Keys, kept: Keys, b: Keys)
    requires b != []
    ensures var keys, at := a + kept + b, |a| + |kept|;
            && keys[at] == b[0] && keys[..at] + keys[at + 1..] == a + kept + b[1..]
            && keys == a + (kept + [b[0]]) + b[1..]
  {
  }

  lemma EraseNext(start: Keys, cs: bool, key: string, value: Maybe<string>, next: nat, kept: Keys, keys: Keys, deleted: bool)
    requires Sorted(start, cs) && next <= |start| && Erasing(start, cs, key, value, next, kept, keys, deleted)
    requires var at := Lower(start, cs, key) + |kept|; at < |keys| && !IsLess(cs, key, keys[at].item)
    ensures next < Upper(start, cs, key) <= |start| && keys[Lower(start, cs, key) + |kept|] == start[next]
  {
    hide Lower, Upper, Others, IsLess, Sorted;
    EqualRange(start, cs, key);
  }

  lemma EraseMatching(start: Keys, cs: bool, key: string, value: Maybe<string>, next: nat, kept: Keys, keys: Keys, deleted: bool)
    requires next < Upper(start, cs, key) && Erasing(start, cs, key, value, next, kept, keys, deleted)
    requires Matches(value, cs, start[next].val)
    ensures var at := Lower(start, cs, key) + |kept|;
            at < |keys| && Erasing(start, cs, key, value, next + 1, kept, keys[..at] + keys[at + 1..], true)
  {
    hide Lower, Upper, Others, IsLess, Sorted, Matches;
    var lo, hi := Lower(start, cs, key), Upper(start, cs, key);
    EraseOne(start[..lo], kept, start[next..]);
    assert start[next..][1..] == start[next + 1..];
    OthersStep(start, next, hi, cs, value);
  }

  lemma KeepOther(start: Keys, cs: bool, key: string, value: Maybe<string>, next: nat, kept: Keys, keys: Keys, deleted: bool)
    requires next < Upper(start, cs, key) && Erasing(start, cs, key, value, next, kept, keys, deleted)
    requires !Matches(value, cs, start[next].val)
    ensures var at := Lower(start, cs, key) + |kept|;
            at < |keys| && Erasing(start, cs, key, value, next + 1, kept + [start[next]], keys, deleted)
  {
    hide Lower, Upper, Others, IsLess, Sorted, Matches;
    var lo, hi := Lower(start, cs, key), Upper(start, cs, key);
    EraseOne(start[..lo], kept, start[next..]);
    SliceSteps(start, lo, next);
    OthersStep(start, next, hi, cs, value);
    AssocKeys(kept, [start[next]], Others(start[next + 1..hi], cs, value));
  }

  lemma SliceSteps(start: Keys, lo: nat, next: nat)
    requires lo <= next < |start|
    ensures start[next..][1..] == start[next + 1..] && start[lo..next] + [start[next]] == start[lo..next + 1]
  {
  }

  lemma AssocKeys(a: Keys, b: Keys, c: Keys)
    ensures a + (b + c) == a + b + c
  {
  }

  lemma EraseDone(start: Keys, cs: bool, key: string, value: Maybe<string>, next: nat, kept: Keys, keys: Keys, deleted: bool)
    requires Sorted(start, cs) && Lower(start, cs, key) < Upper(start, cs, key)
    requires next <= |start| && Erasing(start, cs, key, value, next, kept, keys, deleted)
    requires var at := Lower(start, cs, key) + |kept|; at >= |keys| || IsLess(cs, key, keys[at].item)
    ensures keys == DeleteKey(start, cs, key, value) && (deleted <==> keys != start)
  {
    hide Lower, Upper, Others, IsLess, Sorted;
    EqualRange(start, cs, key);
    var lo, hi := Lower(start, cs, key), Upper(start, cs, key);
    assert next < |start| ==> keys[lo + |kept|] == start[next];
    assert next == hi;
    OthersNone(cs, value);
    assert start[hi..hi] == [] && kept + [] == kept;
    assert start == start[..lo] + start[lo..hi] + start[hi..];
  }

  // ----- the object -------------------------------------------------------------------

  class SimpleIni {
    const caseSensitive: bool
    const multiKey: bool
    var data: Sections
    var order: nat

    ghost function Contents(): Store
      reads this
    {
      Store(data, order)
    }

    ghost predicate Valid()
      reads this
    {
      WellKept(Contents(), caseSensitive, multiKey) && StoreRanked(Contents(), caseSensitive)
    }

    constructor (caseSensitive: bool, multiKey: bool)
      ensures Valid() && Contents() == Store([], 0)
      ensures this.caseSensitive == caseSensitive && this.multiKey == multiKey
    {
      this.caseSensitive, this.multiKey, data, order := caseSensitive, multiKey, [], 0;
    }

    /** Adds a section, or a value under a key of it. */
    method AddEntry(section: string, entry: Maybe<(string, string)>, force: bool) returns (inserted: bool)
      requires Valid()
      modifies this
      ensures Valid() && Contents() == AddTo(old(Contents()), caseSensitive, multiKey, section, entry, force)
      ensures inserted <==>
                || !HasSection(old(Contents()), caseSensitive, section)
                || (entry.Just? && (multiKey || Found(KeysOf(old(Contents()), caseSensitive, section), caseSensitive, entry.val.0) == []))
    {
      hide WellKept, StoreRanked, Lower, Upper, Insert, Smallest, IsLess, AddKey, Found;
      AddToRanked(Contents(), caseSensitive, multiKey, section, entry, force);
      AddToKept(Contents(), caseSensitive, multiKey, section, entry, force);
      WithSectionKept(Contents(), caseSensitive, multiKey, section);
      inserted := false;
      var i := Lower(data, caseSensitive, section);
      if !(i < Upper(data, caseSensitive, section)) {
        order := order + 1;
        data := Insert(data, caseSensitive, Named(section, order, []));
        i := Lower(data, caseSensitive, section);
        inserted := true;
      }
      if entry.Nothing? {
        return;
      }
      var (key, value) := entry.val;
      order := order + 1;
      var keys, isNew := AddToSection(data[i].val, key, value, force, order);
      data := data[i := data[i].(val := keys)];
      inserted := inserted || isNew;
    }

    /** The smallest load order among the entries from lo to hi, and a new one. */
    method SmallestOrder(keys: Keys, lo: nat, hi: nat, newOrder: nat) returns (loadOrder: nat)
      requires lo <= hi <= |keys|
      ensures loadOrder == Smallest(keys[lo..hi], newOrder)
    {
      hide Smallest;
      loadOrder := newOrder;
      var at := lo;
      SmallestNone(keys, lo, newOrder);
      while at < hi
        invariant lo <= at <= hi && loadOrder == Smallest(keys[lo..at], newOrder)
      {
        assert keys[lo..at + 1] == keys[lo..at] + [keys[at]];
        SmallestSnoc(keys[lo..at], keys[at], newOrder);
        if keys[at].order < loadOrder {
          loadOrder := keys[at].order;
        }
        at := at + 1;
      }
    }

    /** Adds a value to the keys of a section; forced, it takes the place of all values
        the key had, and the smallest load order among them. */
    method AddToSection(start: Keys, key: string, value: string, force: bool, newOrder: nat) returns (keys: Keys, inserted: bool)
      ensures keys == AddKey(start, caseSensitive, multiKey, key, value, force, newOrder)
      ensures inserted <==> multiKey || Found(start, caseSensitive, key) == []
    {
      hide Lower, Upper, Insert, IsLess, Smallest;
      keys, inserted := start, false;
      var lo, hi := Lower(keys, caseSensitive, key), Upper(keys, caseSensitive, key);
      var found := lo < hi;
      var loadOrder := newOrder;
      if found && multiKey && force {
        loadOrder := SmallestOrder(keys, lo, hi, newOrder);
        keys := keys[..lo] + keys[hi..];
        found := false;
      }
      if !found || (multiKey && !force) {
        keys := Insert(keys, caseSensitive, Named(key, loadOrder, value));
        inserted := true;
      } else {
        keys := keys[lo := keys[lo].(val := value)];
      }
    }

    /** Deletes a section, a key of it, or those values of a key that equal a given one. */
    method DeleteValue(section: string, key: Maybe<string>, value: Maybe<string>, removeEmpty: bool) returns (deleted: bool)
      requires Valid()
      modifies this
      ensures Valid()
      ensures (Contents(), deleted) == DeleteFrom(old(Contents()), caseSensitive, section, key, value, removeEmpty)
    {
      hide WellKept, StoreRanked, Lower, Upper, IsLess, DeleteKey;
      DeleteFromRanked(Contents(), caseSensitive, section, key, value, removeEmpty);
      DeleteFromKept(Contents(), caseSensitive, multiKey, section, key, value, removeEmpty);
      var i := Lower(data, caseSensitive, section);
      if !(i < Upper(data, caseSensitive, section)) {
        return false;
      }
      if key.Just? {
        KeysOfKept(Contents(), caseSensitive, multiKey, section);
        var keys;
        keys, deleted := DeleteFromSection(data[i].val, key.val, value);
        if !deleted {
          return;
        }
        data := data[i := data[i].(val := keys)];
        if !removeEmpty || keys != [] {
          return;
        }
        data := data[..i] + data[i + 1..];
        assert data == old(data)[..i] + old(data)[i + 1..];
        return;
      }
      data := data[..i] + data[i + 1..];
      return true;
    }

    /** Walks over the entries of a key and erases those with the value. */
    method DeleteFromSection(start: Keys, key: string, value: Maybe<string>) returns (keys: Keys, deleted: bool)
      requires Sorted(start, caseSensitive)
      ensures keys == DeleteKey(start, caseSensitive, key, value)
      ensures deleted <==> keys != start
    {
      hide Lower, Upper, IsLess, Erasing, DeleteKey, Sorted;
      keys, deleted := start, false;
      var lo := Lower(keys, caseSensitive, key);
      if !(lo < Upper(keys, caseSensitive, key)) {
        NothingToErase(start, caseSensitive, key, value);
        return;
      }
      var at: nat := lo;
      ghost var next: nat, kept: Keys := lo, [];
      EraseStart(start, caseSensitive, key, value);
      while at < |keys| && !IsLess(caseSensitive, key, keys[at].item)
        invariant next <= |start| && at == lo + |kept| && Erasing(start, caseSensitive, key, value, next, kept, keys, deleted)
        decreases |start| - next
      {
        EraseNext(start, caseSensitive, key, value, next, kept, keys, deleted);
        if Matches(value, caseSensitive, start[next].val) {
          EraseMatching(start, caseSensitive, key, value, next, kept, keys, deleted);
        } else {
          KeepOther(start, caseSensitive, key, value, next, kept, keys, deleted);
        }
        next := next + 1;
        if value.Nothing? || Same(caseSensitive, value.val, keys[at].val) {
          keys := keys[..at] + keys[at + 1..];
          deleted := true;
        } else {
          kept := kept + [keys[at]];
          at := at + 1;
        }
      }
      EraseDone(start, caseSensitive, key, value, next, kept, keys, deleted);
    }

    /** The number of keys of a section, counting names that repeat once. */
    method GetSectionSize(section: string) returns (size: int)
      requires Valid()
      ensures size == if HasSection(Contents(), caseSensitive, section)
                      then |NamesIn(KeysOf(Contents(), caseSensitive, section), caseSensitive)| else -1
    {
      hide WellKept, StoreRanked, Lower, Upper, IsLess, NamesIn, Folded, Sorted, Same;
      var index := Lower(data, caseSensitive, section);
      if !(index < Upper(data, caseSensitive, section)) {
        return -1;
      }
      KeysOfKept(Contents(), caseSensitive, multiKey, section);
      var keys := data[index].val;
      if !multiKey || keys == [] {
        ApartIfSingle(keys, caseSensitive, multiKey, order);
        return |keys|;
      }
      size := 0;
      var last: Maybe<string> := Nothing;
      NoNames(keys, caseSensitive);
      for i := 0 to |keys|
        invariant last.Nothing? <==> i == 0
        invariant i > 0 ==> Same(caseSensitive, last.val, keys[i - 1].item)
        invariant size == |NamesIn(keys[..i], caseSensitive)|
      {
        NamesGrow(keys, caseSensitive, i);
        if i > 0 {
          NewNameIff(keys, caseSensitive, i, last.val);
        }
        if last.Nothing? || IsLess(caseSensitive, last.val, keys[i].item) {
          size := size + 1;
          last := Just(keys[i].item);
          SameSelf(caseSensitive, keys[i].item);
        } else {
          assert NamesIn(keys[..i], caseSensitive) + {Folded(caseSensitive, keys[i].item)} == NamesIn(keys[..i], caseSensitive);
        }
      }
      assert keys[..|keys|] == keys;
    }

    /** The first entry of every name in a section. */
    method GetAllKeys(section: string) returns (ok: bool, names: Keys)
      requires Valid()
      ensures ok <==> HasSection(Contents(), caseSensitive, section)
      ensures names == Firsts(KeysOf(Contents(), caseSensitive, section), caseSensitive)
      ensures Lists(names, KeysOf(Contents(), caseSensitive, section), caseSensitive)
    {
      hide WellKept, StoreRanked, Lower, Upper, IsLess, NamesIn, Lists, Folded, Sorted, Same, Firsts, Matching;
      names := [];
      NoNames([], caseSensitive);
      FirstsNone(caseSensitive);
      var index := Lower(data, caseSensitive, section);
      if !(index < Upper(data, caseSensitive, section)) {
        assert KeysOf(Contents(), caseSensitive, section)[..0] == [];
        return false, names;
      }
      KeysOfKept(Contents(), caseSensitive, multiKey, section);
      var keys := data[index].val;
      assert keys[..0] == [];
      var last: Maybe<string> := Nothing;
      for i := 0 to |keys|
        invariant last.Nothing? <==> i == 0
        invariant i > 0 ==> Same(caseSensitive, last.val, keys[i - 1].item)
        invariant Lists(names, keys[..i], caseSensitive) && names == Firsts(keys[..i], caseSensitive)
      {
        if i > 0 {
          NewNameIff(keys, caseSensitive, i, last.val);
        }
        NewNameMatching(keys, caseSensitive, i);
        if last.Nothing? || IsLess(caseSensitive, last.val, keys[i].item) {
          NextName(names, keys, caseSensitive, i);
          names := names + [keys[i]];
          last := Just(keys[i].item);
          SameSelf(caseSensitive, keys[i].item);
        } else {
          KnownName(names, keys, caseSensitive, i);
          assert names + [] == names;
        }
      }
      assert keys[..|keys|] == keys;
      ok := true;
    }

    /** The values of a key of a section. */
    method GetAllValues(section: string, key: string) returns (ok: bool, values: Keys)
      requires Valid()
      ensures values == Values(Contents(), caseSensitive, section, key)
      ensures ok <==> values != []
    {
      hide WellKept, StoreRanked, IsLess, Lower, Upper, Sorted, Apart, Matching;
      values := [];
      var index := Lower(data, caseSensitive, section);
      FoundNone(caseSensitive, key);
      if !(index < Upper(data, caseSensitive, section)) {
        return false, values;
      }
      KeysOfKept(Contents(), caseSensitive, multiKey, section);
      values := CollectValues(data[index].val, key);
      ok := values != [];
    }

    /** The first entry found and, if keys may repeat, those behind it up to the first
        with a greater name. */
    method CollectValues(keys: Keys, key: string) returns (values: Keys)
      requires Sorted(keys, caseSensitive) && (multiKey || Apart(keys, caseSensitive))
      ensures values == Matching(keys, caseSensitive, key)
    {
      hide IsLess, Lower, Upper, Sorted, Apart, Matching, Same;
      values := [];
      FoundIsMatching(keys, caseSensitive, key);
      EqualRange(keys, caseSensitive, key);
      var at := Lower(keys, caseSensitive, key);
      if !(at < Upper(keys, caseSensitive, key)) {
        return;
      }
      values := [keys[at]];
      if multiKey {
        ghost var lo := at;
        RangeEnd(keys, caseSensitive, key);
        at := at + 1;
        while at < |keys| && !IsLess(caseSensitive, key, keys[at].item)
          invariant lo < at <= Upper(keys, caseSensitive, key) && values == keys[lo..at]
        {
          values := values + [keys[at]];
          at := at + 1;
        }
      } else {
        OneFound(keys, caseSensitive, key);
      }
    }
  }

  /** Behind the entries with a name the names are greater. */
  lemma RangeEnd(keys: Keys, cs: bool, key: string)
    requires Sorted(keys, cs)
    ensures forall i | Lower(keys, cs, key) <= i < |keys| :: IsLess(cs, key, keys[i].item) <==> i >= Upper(keys, cs, key)
  {
    hide Lower, Upper, Sorted, IsLess;
    EqualRange(keys, cs, key);
  }

  lemma FirstsNone(cs: bool)
    ensures Firsts<string>([], cs) == [] && Lists([], [], cs)
  {
    NoNames([], cs);
  }

  lemma FoundNone(cs: bool, key: string)
    ensures Matching<string>([], cs, key) == []
  {
  }

  lemma OneFound(keys: Keys, cs: bool, key: string)
    requires Sorted(keys, cs) && Apart(keys, cs) && Lower(keys, cs, key) < Upper(keys, cs, key)
    ensures Upper(keys, cs, key) == Lower(keys, cs, key) + 1
  {
    hide Same, Sorted, Lower, Upper;
    EqualRange(keys, cs, key);
    var lo := Lower(keys, cs, key);
    if Upper(keys, cs, key) > lo + 1 {
      SameSymmetric(cs, keys[lo + 1].item, key);
      SameThrough(cs, keys[lo].item, key, keys[lo + 1].item);
    }
  }

  /** An entry has a new name if and only if no entry before it has that name. */
  lemma NewNameMatching(keys: Keys, cs: bool, i: nat)
    requires i < |keys|
    ensures Folded(cs, keys[i].item) !in NamesIn(keys[..i], cs) <==> Matching(keys[..i], cs, keys[i].item) == []
    ensures Firsts(keys[..i + 1], cs) ==
            Firsts(keys[..i], cs) + if Matching(keys[..i], cs, keys[i].item) == [] then [keys[i]] else []
  {
    hide Same, Folded, Firsts, Matching;
    var m, x := keys[..i], keys[i].item;
    assert keys[..i + 1] == m + [keys[i]];
    FirstsSnoc(m, cs, keys[i]);
    MatchingIs(m, cs, x);
    MatchingAll(m, cs, x);
    forall k | 0 <= k < |m| ensures Same(cs, m[k].item, x) <==> Folded(cs, m[k].item) == Folded(cs, x) {
      SameIffFolded(cs, m[k].item, x);
    }
  }
}
