/** Load orders: within a section they differ, and the values of a key stand in theirs.
    Adding and deleting keep that. */
module IniRank {
  import opened Common
  import opened IniText
  import opened IniNames
  import opened IniOrder
  import opened IniStore

  predicate StoreRanked(st: Store, cs: bool) {
    forall i | 0 <= i < |st.data| :: Ranked(st.data[i].val, cs)
  }

  // ----- the keys of a section --------------------------------------------------------

  lemma InsertRanked(keys: Keys, cs: bool, e: Named<string>)
    requires Sorted(keys, cs) && Ranked(keys, cs)
    requires forall i | 0 <= i < |keys| :: keys[i].order != e.order && (Same(cs, keys[i].item, e.item) ==> keys[i].order < e.order)
    ensures Ranked(Insert(keys, cs, e), cs)
  {
    hide IsLess, Lower, Upper;
    EqualRange(keys, cs, e.item);
    var u, r := Upper(keys, cs, e.item), Insert(keys, cs, e);
    forall i, j | 0 <= i < j < |r| ensures r[i].order != r[j].order && (Same(cs, r[i].item, r[j].item) ==> r[i].order < r[j].order) {
      assert i != u ==> r[i] == keys[if i < u then i else i - 1];
      assert j != u ==> r[j] == keys[if j < u then j else j - 1];
    }
  }

  /** Putting entries of a stretch in place of the stretch. */
  lemma SubRanked(m: Keys, cs: bool, lo: nat, hi: nat, mid: Keys)
    requires Ranked(m, cs) && lo <= hi <= |m| && Ranked(mid, cs) && forall e | e in mid :: e in m[lo..hi]
    ensures Ranked(m[..lo] + mid + m[hi..], cs)
  {
    hide Same;
    var r := m[..lo] + mid + m[hi..];
    forall i, j | 0 <= i < j < |r| ensures r[i].order != r[j].order && (Same(cs, r[i].item, r[j].item) ==> r[i].order < r[j].order) {
      if lo <= i && j < lo + |mid| {
        assert r[i] == mid[i - lo] && r[j] == mid[j - lo];
      } else {
        var i' := CameFrom(m, lo, hi, mid, i);
        var j' := CameFrom(m, lo, hi, mid, j);
        assert i' < j';
      }
    }
  }

  lemma CameFrom(m: Keys, lo: nat, hi: nat, mid: Keys, i: nat) returns (i': nat)
    requires lo <= hi <= |m| && i < |m[..lo] + mid + m[hi..]| && forall e | e in mid :: e in m[lo..hi]
    ensures i' < |m| && m[i'] == (m[..lo] + mid + m[hi..])[i]
    ensures if i < lo then i' == i else if i < lo + |mid| then lo <= i' < hi else i' == i - lo - |mid| + hi
  {
    if lo <= i < lo + |mid| {
      var e := mid[i - lo];
      assert e in m[lo..hi];
      var k :| 0 <= k < |m[lo..hi]| && m[lo..hi][k] == e;
      i' := lo + k;
    } else {
      i' := if i < lo then i else i - lo - |mid| + hi;
    }
  }

  lemma UpdateRanked(keys: Keys, cs: bool, i: nat, value: string)
    requires Ranked(keys, cs) && i < |keys|
    ensures Ranked(keys[i := keys[i].(val := value)], cs)
  {
    hide Same;
  }

  lemma AddKeyRanked(keys: Keys, cs: bool, multi: bool, key: string, value: string, force: bool, order: nat)
    requires Sorted(keys, cs) && Ranked(keys, cs) && forall i | 0 <= i < |keys| :: keys[i].order < order
    ensures Ranked(AddKey(keys, cs, multi, key, value, force, order), cs)
  {
    hide IsLess, Lower, Upper, Sorted, Ranked, Insert;
    var lo, hi := Lower(keys, cs, key), Upper(keys, cs, key);
    EqualRange(keys, cs, key);
    if lo >= hi || (multi && !force) {
      InsertRanked(keys, cs, Named(key, order, value));
    } else if multi {
      ForcedRanked(keys, cs, key, value, order);
    } else {
      UpdateRanked(keys, cs, lo, value);
    }
  }

  /** Forced on repeating keys: the smallest load order among the values replaced is in
      use no more. */
  lemma ForcedRanked(keys: Keys, cs: bool, key: string, value: string, order: nat)
    requires Sorted(keys, cs) && Ranked(keys, cs) && forall i | 0 <= i < |keys| :: keys[i].order < order
    requires Lower(keys, cs, key) < Upper(keys, cs, key)
    ensures var lo, hi := Lower(keys, cs, key), Upper(keys, cs, key);
            Ranked(Insert(keys[..lo] + keys[hi..], cs, Named(key, Smallest(keys[lo..hi], order), value)), cs)
  {
    hide IsLess, Lower, Upper, Sorted, Insert, Smallest, Matching;
    var lo, hi := Lower(keys, cs, key), Upper(keys, cs, key);
    EqualRange(keys, cs, key);
    RemovedMatching(keys, cs, key, key);
    NothingRanked<string>(cs);
    SubRanked(keys, cs, lo, hi, []);
    assert keys[..lo] + [] + keys[hi..] == keys[..lo] + keys[hi..];
    var mid, least := keys[lo..hi], Smallest(keys[lo..hi], order);
    assert mid[0] == keys[lo];
    var k :| 0 <= k < |mid| && least == mid[k].order;
    var others := keys[..lo] + keys[hi..];
    forall i | 0 <= i < |others| ensures others[i].order != least && !Same(cs, others[i].item, key) {
      assert others[i] == keys[if i < lo then i else i - lo + hi] && mid[k] == keys[lo + k];
    }
    InsertRanked(others, cs, Named(key, least, value));
  }

  lemma {:induction false} OthersRanked(m: Keys, cs: bool, value: Maybe<string>)
    requires Ranked(m, cs)
    ensures Ranked(Others(m, cs, value), cs)
  {
    hide Matches, Same, Ranked;
    if m == [] {
      NothingRanked<string>(cs);
    } else {
      RankedTail(m, cs);
      OthersRanked(m[1..], cs, value);
      OthersAre(m[1..], cs, value);
      var rest := Others(m[1..], cs, value);
      RankedTail([m[0]] + rest, cs);
      assert ([m[0]] + rest)[1..] == rest;
    }
  }

  lemma SliceRanked(m: Keys, cs: bool, lo: nat, hi: nat)
    requires lo <= hi <= |m| && Ranked(m, cs)
    ensures Ranked(m[lo..hi], cs)
  {
    hide Same;
  }

  lemma DeleteKeyRanked(keys: Keys, cs: bool, key: string, value: Maybe<string>)
    requires Ranked(keys, cs)
    ensures Ranked(DeleteKey(keys, cs, key, value), cs)
  {
    hide IsLess, Lower, Upper, Others, Ranked;
    var lo, hi := Lower(keys, cs, key), Upper(keys, cs, key);
    if lo < hi {
      SliceRanked(keys, cs, lo, hi);
      OthersRanked(keys[lo..hi], cs, value);
      OthersAre(keys[lo..hi], cs, value);
      SubRanked(keys, cs, lo, hi, Others(keys[lo..hi], cs, value));
    }
  }

  // ----- the store --------------------------------------------------------------------

  lemma KeysOfRanked(st: Store, cs: bool, section: string)
    requires StoreRanked(st, cs)
    ensures Ranked(KeysOf(st, cs, section), cs)
  {
    hide Lower, Upper, Ranked;
    NothingRanked<string>(cs);
  }

  lemma SetKeysRanked(st: Store, cs: bool, section: string, keys: Keys, order: nat)
    requires StoreRanked(st, cs) && Ranked(keys, cs)
    ensures StoreRanked(SetKeys(st, cs, section, keys, order), cs)
  {
    hide Lower, Upper, Ranked;
  }

  lemma WithSectionRanked(st: Store, cs: bool, section: string)
    requires StoreRanked(st, cs)
    ensures StoreRanked(WithSection(st, cs, section), cs)
  {
    hide Lower, Upper, Ranked;
    NothingRanked<string>(cs);
  }

  lemma AddToRanked(st: Store, cs: bool, multi: bool, section: string, entry: Maybe<(string, string)>, force: bool)
    requires WellKept(st, cs, multi) && StoreRanked(st, cs)
    ensures StoreRanked(AddTo(st, cs, multi, section, entry, force), cs)
  {
    hide WellKept, Sorted, Apart, WithSection, SetKeys, AddKey, KeysOf, StoreRanked, Ranked;
    var withIt := WithSection(st, cs, section);
    WithSectionKept(st, cs, multi, section);
    WithSectionRanked(st, cs, section);
    if entry.Just? {
      KeysOfKept(withIt, cs, multi, section);
      KeysOfRanked(withIt, cs, section);
      AddKeyRanked(KeysOf(withIt, cs, section), cs, multi, entry.val.0, entry.val.1, force, withIt.order + 1);
      SetKeysRanked(withIt, cs, section, AddKey(KeysOf(withIt, cs, section), cs, multi, entry.val.0, entry.val.1, force, withIt.order + 1), withIt.order + 1);
    }
  }

  lemma DeleteFromRanked(st: Store, cs: bool, section: string, key: Maybe<string>, value: Maybe<string>, removeEmpty: bool)
    requires StoreRanked(st, cs)
    ensures StoreRanked(DeleteFrom(st, cs, section, key, value, removeEmpty).0, cs)
  {
    hide SetKeys, DeleteKey, KeysOf, Ranked, Lower, Upper;
    if key.Just? {
      KeysOfRanked(st, cs, section);
      DeleteKeyRanked(KeysOf(st, cs, section), cs, key.val, value);
      SetKeysRanked(st, cs, section, DeleteKey(KeysOf(st, cs, section), cs, key.val, value), st.order);
    }
  }
}
