/** Saving and loading with several values under one key: the saving loops write the values
    of a key together, behind its first one and in its spelling; loading that text gives a
    store that is saved as the same text, and the same entries in the same order exactly if
    they stood together before. */
module IniMulti {
  import opened Common
  import opened IniText
  import opened IniNames
  import opened IniOrder
  import opened IniRank
  import opened IniRebuild
  import opened IniStore
  import O = IniObject
  import L = IniLoad
  import N = IniParse
  import P = IniPrint
  import R = IniRoundTrip

  // ----- what is saved ----------------------------------------------------------------

  /** The values found for a key, each under the key's spelling. */
  function Spelled(key: string, values: Keys): seq<P.KeyValue> {
    seq(|values|, i requires 0 <= i < |values| => P.KeyValue(key, values[i].val))
  }

  /** The lines for a list of keys of a section. */
  function ShownFor(names: Keys, keys: Keys, cs: bool): seq<P.KeyValue> {
    if names == [] then []
    else Spelled(names[0].item, Matching(keys, cs, names[0].item)) + ShownFor(names[1..], keys, cs)
  }

  /** The lines of a section: its keys in load order, each with all its values. */
  function ShownPairs(keys: Keys, cs: bool): seq<P.KeyValue> {
    ShownFor(ByOrder(Firsts(keys, cs)), keys, cs)
  }

  function ShownSection(e: Named<Keys>, cs: bool): P.SectionText {
    P.SectionText(e.item, ShownPairs(e.val, cs))
  }

  /** The document that saving a store writes. */
  function ShownDoc(st: Store, cs: bool): seq<P.SectionText> {
    var s := ByOrder(st.data);
    seq(|s|, i requires 0 <= i < |s| => ShownSection(s[i], cs))
  }

  lemma ShownForSnoc(names: Keys, keys: Keys, cs: bool, j: nat)
    requires j < |names|
    ensures ShownFor(names[..j + 1], keys, cs) == ShownFor(names[..j], keys, cs) + Spelled(names[j].item, Matching(keys, cs, names[j].item))
  {
    hide Matching;
    if j == 0 {
      assert names[..1] == [names[0]];
    } else {
      assert names[..j + 1][1..] == names[1..][..j] && names[..j][1..] == names[1..][..j - 1];
      ShownForSnoc(names[1..], keys, cs, j - 1);
    }
  }

  /** Collects the lines of a section. */
  method SavedPairs(ini: O.SimpleIni, section: string) returns (pairs: seq<P.KeyValue>)
    requires ini.Valid()
    ensures pairs == ShownPairs(KeysOf(ini.Contents(), ini.caseSensitive, section), ini.caseSensitive)
  {
    hide WellKept, StoreRanked, Matching, Firsts, ByOrder, KeysOf;
    pairs := [];
    ghost var keys := KeysOf(ini.Contents(), ini.caseSensitive, section);
    var _, names := ini.GetAllKeys(section);
    names := ByOrder(names);
    for j := 0 to |names|
      invariant pairs == ShownFor(names[..j], keys, ini.caseSensitive)
    {
      ghost var before := pairs;
      ShownForSnoc(names, keys, ini.caseSensitive, j);
      var _, values := ini.GetAllValues(section, names[j].item);
      for k := 0 to |values|
        invariant pairs == before + Spelled(names[j].item, values)[..k]
      {
        pairs := pairs + [P.KeyValue(names[j].item, values[k].val)];
      }
    }
    assert names[..|names|] == names;
  }

  lemma SectionListed(st: Store, cs: bool, multi: bool, i: nat)
    requires WellKept(st, cs, multi) && i < |ByOrder(st.data)|
    ensures KeysOf(st, cs, ByOrder(st.data)[i].item) == ByOrder(st.data)[i].val
  {
    hide ByOrder, Same, Sorted, Apart, KeysKept;
    var e := ByOrder(st.data)[i];
    ByOrderSorts(st.data);
    assert e in multiset(ByOrder(st.data));
    var k :| 0 <= k < |st.data| && st.data[k] == e;
    SameSelf(cs, e.item);
    SectionAt(st, cs, multi, e.item, k);
  }

  /** Saves a store: its sections in load order. */
  method Save(ini: O.SimpleIni, cfg: Config) returns (out: string)
    requires ini.Valid()
    ensures out == P.PrintDoc(ShownDoc(ini.Contents(), ini.caseSensitive), cfg)
  {
    hide WellKept, StoreRanked, ByOrder, KeysOf, ShownPairs, P.PrintDoc;
    var doc := [];
    var sections := ByOrder(ini.data);
    for i := 0 to |sections|
      invariant doc == ShownDoc(ini.Contents(), ini.caseSensitive)[..i]
    {
      SectionListed(ini.Contents(), ini.caseSensitive, ini.multiKey, i);
      var pairs := SavedPairs(ini, sections[i].item);
      doc := doc + [P.SectionText(sections[i].item, pairs)];
    }
    assert doc == ShownDoc(ini.Contents(), ini.caseSensitive);
    out := R.Save(doc, cfg);
  }

  // ----- grouping ---------------------------------------------------------------------

  function WithKey(pairs: seq<P.KeyValue>, cs: bool, x: string): seq<P.KeyValue> {
    if pairs == [] then []
    else if Same(cs, pairs[0].key, x) then [pairs[0]] + WithKey(pairs[1..], cs, x)
    else WithKey(pairs[1..], cs, x)
  }

  function WithoutKey(pairs: seq<P.KeyValue>, cs: bool, x: string): (r: seq<P.KeyValue>)
    ensures |r| <= |pairs|
  {
    if pairs == [] then []
    else if Same(cs, pairs[0].key, x) then WithoutKey(pairs[1..], cs, x)
    else [pairs[0]] + WithoutKey(pairs[1..], cs, x)
  }

  function Renamed(pairs: seq<P.KeyValue>, x: string): seq<P.KeyValue> {
    seq(|pairs|, i requires 0 <= i < |pairs| => P.KeyValue(x, pairs[i].value))
  }

  /** The pairs with the later ones of a key moved up behind its first, in its spelling. */
  function Grouped(pairs: seq<P.KeyValue>, cs: bool): seq<P.KeyValue>
    decreases |pairs|
  {
    if pairs == [] then []
    else
      var x := pairs[0].key;
      Renamed([pairs[0]] + WithKey(pairs[1..], cs, x), x) + Grouped(WithoutKey(pairs[1..], cs, x), cs)
  }

  /** The pairs of a key stand together and spell it alike. */
  predicate Contiguous(pairs: seq<P.KeyValue>, cs: bool) {
    forall i, j, k | 0 <= i <= j <= k < |pairs| && Same(cs, pairs[i].key, pairs[k].key) :: pairs[j].key == pairs[i].key
  }

  lemma {:induction false} WithoutKeyIs(pairs: seq<P.KeyValue>, cs: bool, x: string)
    ensures forall e | e in WithoutKey(pairs, cs, x) :: !Same(cs, e.key, x)
    ensures (forall e | e in pairs :: !Same(cs, e.key, x)) ==> WithKey(pairs, cs, x) == [] && WithoutKey(pairs, cs, x) == pairs
  {
    hide Same;
    if pairs != [] {
      WithoutKeyIs(pairs[1..], cs, x);
      assert pairs == [pairs[0]] + pairs[1..];
    }
  }

  predicate HasKey(pairs: seq<P.KeyValue>, key: string) {
    exists i :: 0 <= i < |pairs| && pairs[i].key == key
  }

  lemma {:induction false} WithoutKeyWithin(pairs: seq<P.KeyValue>, cs: bool, x: string)
    ensures forall e | e in WithoutKey(pairs, cs, x) :: e in pairs
  {
    hide Same;
    if pairs != [] {
      WithoutKeyWithin(pairs[1..], cs, x);
    }
  }

  /** Grouping invents no key. */
  lemma {:induction false} GroupedKeys(pairs: seq<P.KeyValue>, cs: bool)
    ensures forall e | e in Grouped(pairs, cs) :: HasKey(pairs, e.key)
    decreases |pairs|
  {
    hide Same, WithKey, WithoutKey;
    if pairs != [] {
      var x, rest := pairs[0].key, WithoutKey(pairs[1..], cs, pairs[0].key);
      GroupedKeys(rest, cs);
      WithoutKeyWithin(pairs[1..], cs, x);
      forall e | e in Grouped(rest, cs) ensures HasKey(pairs, e.key) {
        var i :| 0 <= i < |rest| && rest[i].key == e.key;
        assert rest[i] in pairs[1..];
        var k :| 0 <= k < |pairs[1..]| && pairs[1..][k] == rest[i];
        assert pairs[k + 1].key == e.key;
      }
    }
  }

  lemma {:induction false} GroupedIsContiguous(pairs: seq<P.KeyValue>, cs: bool)
    ensures Contiguous(Grouped(pairs, cs), cs)
    decreases |pairs|
  {
    hide Same, WithKey, WithoutKey, HasKey, Contiguous;
    if pairs == [] {
      NothingContiguous(cs);
    } else {
      var x, rest := pairs[0].key, WithoutKey(pairs[1..], cs, pairs[0].key);
      var front, back := Renamed([pairs[0]] + WithKey(pairs[1..], cs, x), x), Grouped(rest, cs);
      GroupedIsContiguous(rest, cs);
      GroupedKeys(rest, cs);
      WithoutKeyIs(pairs[1..], cs, x);
      forall i | 0 <= i < |back| ensures !Same(cs, x, back[i].key) {
        assert back[i] in back;
        KeyOfSome(rest, back[i].key);
        SameSymmetric(cs, x, back[i].key);
      }
      JoinContiguous(front, back, cs, x);
    }
  }

  lemma NothingContiguous(cs: bool)
    ensures Contiguous([], cs)
  {
  }

  lemma KeyOfSome(pairs: seq<P.KeyValue>, key: string)
    requires HasKey(pairs, key)
    ensures exists e :: e in pairs && e.key == key
  {
  }

  lemma JoinContiguous(front: seq<P.KeyValue>, back: seq<P.KeyValue>, cs: bool, x: string)
    requires (forall i | 0 <= i < |front| :: front[i].key == x) && (forall i | 0 <= i < |back| :: !Same(cs, x, back[i].key)) && Contiguous(back, cs)
    ensures Contiguous(front + back, cs)
  {
    hide Same;
    var r := front + back;
    assert forall i | |front| <= i < |r| :: r[i] == back[i - |front|];
    forall i, j, k | 0 <= i <= j <= k < |r| && Same(cs, r[i].key, r[k].key) ensures r[j].key == r[i].key {
      if i >= |front| {
        assert r[i] == back[i - |front|] && r[j] == back[j - |front|] && r[k] == back[k - |front|];
      }
    }
  }

  /** Nothing with key x comes behind anything else. */
  predicate Leads(pairs: seq<P.KeyValue>, cs: bool, x: string) {
    forall i, j | 0 <= i <= j < |pairs| && Same(cs, pairs[j].key, x) :: pairs[i].key == x
  }

  lemma LeadsTail(pairs: seq<P.KeyValue>, cs: bool, x: string)
    requires pairs != [] && Leads(pairs, cs, x)
    ensures Leads(pairs[1..], cs, x) && (Same(cs, pairs[0].key, x) ==> pairs[0].key == x)
    ensures pairs[0].key != x ==> forall e | e in pairs :: !Same(cs, e.key, x)
  {
    hide Same;
  }

  lemma RenamedHead(e: P.KeyValue, rest: seq<P.KeyValue>, x: string)
    requires e.key == x
    ensures Renamed([e] + rest, x) == [e] + Renamed(rest, x)
  {
  }

  lemma ByKeyHead(e: P.KeyValue, rest: seq<P.KeyValue>, cs: bool, x: string)
    requires Same(cs, e.key, x)
    ensures WithKey([e] + rest, cs, x) == [e] + WithKey(rest, cs, x) && WithoutKey([e] + rest, cs, x) == WithoutKey(rest, cs, x)
  {
    hide Same;
    assert ([e] + rest)[1..] == rest;
  }

  lemma HeadJoin(e: P.KeyValue, a: seq<P.KeyValue>, b: seq<P.KeyValue>)
    ensures [e] + (a + b) == ([e] + a) + b
  {
  }

  /** Then the pairs with key x are a prefix. */
  lemma {:induction false} LeadsSplits(pairs: seq<P.KeyValue>, cs: bool, x: string)
    requires Leads(pairs, cs, x)
    ensures pairs == WithKey(pairs, cs, x) + WithoutKey(pairs, cs, x)
    ensures Renamed(WithKey(pairs, cs, x), x) == WithKey(pairs, cs, x)
  {
    if pairs == [] {
    } else {
      hide Same, Leads, WithKey, WithoutKey, Renamed;
      var e, tail := pairs[0], pairs[1..];
      assert pairs == [e] + tail;
      LeadsTail(pairs, cs, x);
      SameSelf(cs, x);
      if e.key == x {
        LeadsSplits(tail, cs, x);
        ByKeyHead(e, tail, cs, x);
        RenamedHead(e, WithKey(tail, cs, x), x);
        HeadJoin(e, WithKey(tail, cs, x), WithoutKey(tail, cs, x));
      } else {
        WithoutKeyIs(pairs, cs, x);
        assert [] + pairs == pairs;
        RenamedNone(x);
      }
    }
  }

  lemma RenamedNone(x: string)
    ensures Renamed([], x) == []
  {
  }

  lemma ContiguousLeads(pairs: seq<P.KeyValue>, cs: bool)
    requires pairs != [] && Contiguous(pairs, cs)
    ensures Leads(pairs[1..], cs, pairs[0].key)
  {
    hide Same;
    var x, tail := pairs[0].key, pairs[1..];
    forall i, j | 0 <= i <= j < |tail| && Same(cs, tail[j].key, x) ensures tail[i].key == x {
      SameSymmetric(cs, tail[j].key, x);
      assert tail[i] == pairs[i + 1] && tail[j] == pairs[j + 1];
    }
  }

  lemma ContiguousSuffix(pairs: seq<P.KeyValue>, front: seq<P.KeyValue>, back: seq<P.KeyValue>, cs: bool)
    requires Contiguous(pairs, cs) && pairs == front + back
    ensures Contiguous(back, cs)
  {
    hide Same;
    var n := |front|;
    forall i, j, k | 0 <= i <= j <= k < |back| && Same(cs, back[i].key, back[k].key) ensures back[j].key == back[i].key {
      assert back[i] == pairs[n + i] && back[j] == pairs[n + j] && back[k] == pairs[n + k];
    }
  }

  lemma GroupedStep(e: P.KeyValue, tail: seq<P.KeyValue>, cs: bool)
    ensures Grouped([e] + tail, cs) == Renamed([e] + WithKey(tail, cs, e.key), e.key) + Grouped(WithoutKey(tail, cs, e.key), cs)
  {
    hide Renamed, WithKey, WithoutKey;
    assert ([e] + tail)[1..] == tail;
  }

  lemma {:induction false} ContiguousIsGrouped(pairs: seq<P.KeyValue>, cs: bool)
    requires Contiguous(pairs, cs)
    ensures Grouped(pairs, cs) == pairs
    decreases |pairs|
  {
    if pairs != [] {
      hide Same, WithKey, WithoutKey, Contiguous, Leads, Renamed, Grouped;
      var e, tail := pairs[0], pairs[1..];
      var a, rest := WithKey(tail, cs, e.key), WithoutKey(tail, cs, e.key);
      assert pairs == [e] + tail;
      ContiguousLeads(pairs, cs);
      LeadsSplits(tail, cs, e.key);
      HeadJoin(e, a, rest);
      ContiguousSuffix(pairs, [e] + a, rest, cs);
      ContiguousIsGrouped(rest, cs);
      RenamedHead(e, a, e.key);
      GroupedStep(e, tail, cs);
    }
  }

  /** Grouping changes nothing if and only if the pairs of every key stand together,
      spelled alike; and so grouping twice is grouping once. */
  lemma GroupedIff(pairs: seq<P.KeyValue>, cs: bool)
    ensures Grouped(pairs, cs) == pairs <==> Contiguous(pairs, cs)
    ensures Grouped(Grouped(pairs, cs), cs) == Grouped(pairs, cs)
  {
    hide Grouped, Contiguous;
    GroupedIsContiguous(pairs, cs);
    ContiguousIsGrouped(Grouped(pairs, cs), cs);
    if Contiguous(pairs, cs) {
      ContiguousIsGrouped(pairs, cs);
    }
  }

  // ----- saving groups ----------------------------------------------------------------

  function PairList(keys: Keys): seq<P.KeyValue> {
    seq(|keys|, i requires 0 <= i < |keys| => P.KeyValue(keys[i].item, keys[i].val))
  }

  lemma PairListHead(e: Named<string>, rest: Keys)
    ensures PairList([e] + rest) == [P.KeyValue(e.item, e.val)] + PairList(rest)
  {
  }

  lemma {:induction false} PairListByKey(keys: Keys, cs: bool, x: string)
    ensures PairList(Matching(keys, cs, x)) == WithKey(PairList(keys), cs, x)
    ensures PairList(Unmatching(keys, cs, x)) == WithoutKey(PairList(keys), cs, x)
  {
    hide Same;
    if keys != [] {
      PairListByKey(keys[1..], cs, x);
      assert PairList(keys)[1..] == PairList(keys[1..]);
      PairListHead(keys[0], Matching(keys[1..], cs, x));
      PairListHead(keys[0], Unmatching(keys[1..], cs, x));
    }
  }

  lemma {:induction false} ShownForSame(names: Keys, a: Keys, b: Keys, cs: bool)
    requires forall e | e in names :: Matching(a, cs, e.item) == Matching(b, cs, e.item)
    ensures ShownFor(names, a, cs) == ShownFor(names, b, cs)
  {
    hide Matching;
    if names != [] {
      ShownForSame(names[1..], a, b, cs);
    }
  }

  /** Going through the first entries of a list and writing all values of each is grouping
      the list. */
  lemma {:induction false} ShownForIsGrouped(keys: Keys, cs: bool)
    ensures ShownFor(Firsts(keys, cs), keys, cs) == Grouped(PairList(keys), cs)
    decreases |keys|
  {
    hide Same, Matching, Unmatching, WithKey, WithoutKey;
    if keys != [] {
      var e, tail := keys[0], keys[1..];
      var x, rest := e.item, Unmatching(tail, cs, e.item);
      var firsts := Firsts(rest, cs);
      ShownForIsGrouped(rest, cs);
      PairListByKey(tail, cs, x);
      assert PairList(keys)[1..] == PairList(tail);
      assert keys == [e] + tail && Firsts(keys, cs)[1..] == firsts;
      SameSelf(cs, x);
      UnmatchingHead(e, tail, cs, x);
      assert [] + rest == rest;
      FirstsWithin(rest, cs);
      UnmatchingIs(tail, cs, x);
      forall f | f in firsts ensures Matching(keys, cs, f.item) == Matching(rest, cs, f.item) {
        SameSymmetric(cs, f.item, x);
        MatchingOfUnmatching(keys, cs, x, f.item);
      }
      ShownForSame(firsts, keys, rest, cs);
      PairListHead(e, Matching(tail, cs, x));
      assert Spelled(x, Matching(keys, cs, x)) == Renamed(PairList(Matching(keys, cs, x)), x);
    }
  }

  /** What saving writes of a section is its entries in load order, grouped by key. */
  lemma ShownIsGrouped(keys: Keys, cs: bool)
    requires Ranked(keys, cs)
    ensures ShownPairs(keys, cs) == Grouped(PairsOf(keys), cs)
  {
    hide Matching, Firsts, Grouped, Ranked, ByOrder, ShownFor;
    var listed := ByOrder(keys);
    FirstsByOrder(keys, cs);
    forall x ensures Matching(keys, cs, x) == Matching(listed, cs, x) {
      MatchingByOrder(keys, cs, x);
    }
    ShownForSame(Firsts(listed, cs), keys, listed, cs);
    ShownForIsGrouped(listed, cs);
    assert PairList(listed) == PairsOf(keys);
  }

  // ----- documents --------------------------------------------------------------------

  function GroupedSection(section: P.SectionText, cs: bool): P.SectionText {
    P.SectionText(section.name, Grouped(section.pairs, cs))
  }

  function GroupedDoc(doc: seq<P.SectionText>, cs: bool): seq<P.SectionText> {
    seq(|doc|, i requires 0 <= i < |doc| => GroupedSection(doc[i], cs))
  }

  predicate AllContiguous(doc: seq<P.SectionText>, cs: bool) {
    forall i | 0 <= i < |doc| :: Contiguous(doc[i].pairs, cs)
  }

  lemma GroupedDocIff(doc: seq<P.SectionText>, cs: bool)
    ensures GroupedDoc(doc, cs) == doc <==> AllContiguous(doc, cs)
    ensures AllContiguous(GroupedDoc(doc, cs), cs)
  {
    hide Grouped, Contiguous;
    forall i | 0 <= i < |doc|
      ensures GroupedSection(doc[i], cs) == doc[i] <==> Contiguous(doc[i].pairs, cs)
      ensures Contiguous(Grouped(doc[i].pairs, cs), cs)
    {
      GroupedIff(doc[i].pairs, cs);
      GroupedIsContiguous(doc[i].pairs, cs);
    }
    if GroupedDoc(doc, cs) == doc {
      forall i | 0 <= i < |doc| ensures Contiguous(doc[i].pairs, cs) {
        assert GroupedDoc(doc, cs)[i] == GroupedSection(doc[i], cs);
      }
    }
  }

  lemma GroupedVisible(doc: seq<P.SectionText>, cs: bool)
    ensures AllVisible(GroupedDoc(doc, cs)) <==> AllVisible(doc)
  {
    hide WithKey, WithoutKey;
    forall i | 0 <= i < |doc| ensures Visible(GroupedDoc(doc, cs)[i]) <==> Visible(doc[i]) {
      assert doc[i].pairs != [] ==> |Grouped(doc[i].pairs, cs)| > 0;
    }
  }

  /** The document saved is the load order of all entries, grouped. */
  lemma ShownDocIsGrouped(st: Store, cs: bool)
    requires StoreRanked(st, cs)
    ensures ShownDoc(st, cs) == GroupedDoc(DocOf(st), cs)
  {
    hide Ranked, ByOrder, ShownPairs, Grouped, PairsOf;
    ByOrderSorts(st.data);
    var s := ByOrder(st.data);
    forall i | 0 <= i < |s| ensures ShownSection(s[i], cs) == GroupedSection(SectionOf(s[i]), cs) {
      assert s[i] in multiset(s);
      assert s[i] in st.data;
      ShownIsGrouped(s[i].val, cs);
    }
  }

  lemma {:induction false} LoadKeeps(st: Store, cs: bool, multi: bool, items: seq<L.Item>)
    requires WellKept(st, cs, multi) && StoreRanked(st, cs)
    ensures WellKept(LoadInto(st, cs, multi, items), cs, multi) && StoreRanked(LoadInto(st, cs, multi, items), cs)
    decreases |items|
  {
    hide WellKept, StoreRanked, AddTo;
    if items != [] {
      var item := items[0];
      var entry := if item.token.Pair? then Just((item.token.key, item.token.value)) else Nothing;
      if item.section.Named? {
        AddToKept(st, cs, multi, item.section.name, entry, false);
        AddToRanked(st, cs, multi, item.section.name, entry, false);
      }
      LoadKeeps(AddItem(st, cs, multi, item), cs, multi, items[1..]);
    }
  }

  lemma EmptyRanked(cs: bool, multi: bool)
    ensures WellKept(Store([], 0), cs, multi) && StoreRanked(Store([], 0), cs)
  {
  }

  /** Keys that may not repeat are each their own group. */
  lemma ApartIsContiguous(pairs: seq<P.KeyValue>, cs: bool)
    requires KeysApart(pairs, cs)
    ensures Contiguous(pairs, cs)
  {
    hide Same;
  }

  lemma ShownIsDistinct(st: Store, cs: bool, multi: bool)
    requires WellKept(st, cs, multi) && StoreRanked(st, cs)
    ensures Distinct(ShownDoc(st, cs), cs, multi)
    ensures !multi ==> AllContiguous(DocOf(st), cs) && ShownDoc(st, cs) == DocOf(st)
  {
    hide Same, Sorted, Ranked, KeysKept, KeysApart, PairsOf, ShownPairs, Contiguous, GroupedDoc;
    ByOrderApart(st.data, cs);
    if !multi {
      DocIsDistinct(st, cs);
      forall i | 0 <= i < |DocOf(st)| ensures Contiguous(DocOf(st)[i].pairs, cs) {
        ApartIsContiguous(DocOf(st)[i].pairs, cs);
      }
      ShownDocIsGrouped(st, cs);
      GroupedDocIff(DocOf(st), cs);
    }
  }

  lemma VisibleContiguous(doc: seq<P.SectionText>, cs: bool)
    requires AllContiguous(doc, cs)
    ensures AllContiguous(OnlyVisible(doc), cs)
  {
    hide Contiguous, OnlyVisible;
    OnlyVisibleIs(doc);
    forall i | 0 <= i < |OnlyVisible(doc)| ensures Contiguous(OnlyVisible(doc)[i].pairs, cs) {
      assert OnlyVisible(doc)[i] in doc;
    }
  }

  /** THE ROUND TRIP, with or without repeating keys.  A store loaded from what another one
      saved is saved as the same document again, up to sections without name and keys.  It
      has the same entries in the same load order if and only if there was no such section
      and the values of every key stood together, spelled alike. */
  lemma SaveThenLoadMulti(st: Store, cfg: Config, multi: bool)
    requires cfg.Valid() && WellKept(st, cfg.caseSensitive, multi) && StoreRanked(st, cfg.caseSensitive)
    requires R.PrintableDoc(ShownDoc(st, cfg.caseSensitive), cfg)
    ensures var cs := cfg.caseSensitive;
            var loaded := LoadInto(Store([], 0), cs, multi, L.Items(P.PrintDoc(ShownDoc(st, cs), cfg), cfg, L.Named("")));
            && ShownDoc(loaded, cs) == OnlyVisible(ShownDoc(st, cs))
            && (ShownDoc(loaded, cs) == ShownDoc(st, cs) <==> AllVisible(DocOf(st)))
            && (DocOf(loaded) == DocOf(st) <==> AllVisible(DocOf(st)) && AllContiguous(DocOf(st), cs))
  {
    hide *;
    var cs := cfg.caseSensitive;
    var doc, shown := DocOf(st), ShownDoc(st, cs);
    var items := L.Items(P.PrintDoc(shown, cfg), cfg, L.Named(""));
    var loaded := LoadInto(Store([], 0), cs, multi, items);
    ShownIsDistinct(st, cs, multi);
    LoadedIsPrinted(shown, cfg, multi);
    EmptyRanked(cs, multi);
    LoadKeeps(Store([], 0), cs, multi, items);
    ShownDocIsGrouped(st, cs);
    ShownDocIsGrouped(loaded, cs);
    GroupedDocIff(doc, cs);
    VisibleContiguous(shown, cs);
    GroupedDocIff(OnlyVisible(shown), cs);
    GroupedVisible(doc, cs);
    OnlyVisibleIs(shown);
  }
}
