/** What a store shows when it is saved, and what loading a saved text puts into an empty
    store: the same document again. */
module IniRebuild {
  import opened Common
  import opened IniText
  import opened IniNames
  import opened IniOrder
  import opened IniStore
  import L = IniLoad
  import N = IniParse
  import P = IniPrint
  import R = IniRoundTrip

  // ----- what is saved ----------------------------------------------------------------

  function PairsOf(keys: Keys): seq<P.KeyValue> {
    var s := ByOrder(keys);
    seq(|s|, i requires 0 <= i < |s| => P.KeyValue(s[i].item, s[i].val))
  }

  function SectionOf(e: Named<Keys>): P.SectionText {
    P.SectionText(e.item, PairsOf(e.val))
  }

  function SectionsOf(s: Sections): seq<P.SectionText> {
    seq(|s|, i requires 0 <= i < |s| => SectionOf(s[i]))
  }

  /** The document of a store: its sections in load order, and their keys in load order. */
  function DocOf(st: Store): seq<P.SectionText> {
    SectionsOf(ByOrder(st.data))
  }

  // ----- what is loaded ---------------------------------------------------------------

  function AddItem(st: Store, cs: bool, multi: bool, item: L.Item): Store {
    if !item.section.Named? then st
    else if item.token.Header? then AddTo(st, cs, multi, item.section.name, Nothing, false)
    else if item.token.Pair? then AddTo(st, cs, multi, item.section.name, Just((item.token.key, item.token.value)), false)
    else st
  }

  function LoadInto(st: Store, cs: bool, multi: bool, items: seq<L.Item>): Store
    decreases |items|
  {
    if items == [] then st else LoadInto(AddItem(st, cs, multi, items[0]), cs, multi, items[1..])
  }

  lemma {:induction false} LoadTwice(st: Store, cs: bool, multi: bool, a: seq<L.Item>, b: seq<L.Item>)
    ensures LoadInto(st, cs, multi, a + b) == LoadInto(LoadInto(st, cs, multi, a), cs, multi, b)
    decreases |a|
  {
    hide AddItem;
    if a == [] {
      assert a + b == b;
    } else {
      assert (a + b)[1..] == a[1..] + b;
      LoadTwice(AddItem(st, cs, multi, a[0]), cs, multi, a[1..], b);
    }
  }

  // ----- the newest section -----------------------------------------------------------

  /** The section with this very name was loaded last. */
  predicate Newest(st: Store, cs: bool, name: string) {
    && HasSection(st, cs, name)
    && var i := Lower(st.data, cs, name);
       && i < |st.data| && st.data[i].item == name
       && forall j | 0 <= j < |st.data| && j != i :: st.data[j].order < st.data[i].order
  }

  /** The other sections. */
  function OtherSections(st: Store, cs: bool, name: string): Sections
    requires Newest(st, cs, name)
  {
    var i := Lower(st.data, cs, name);
    st.data[..i] + st.data[i + 1..]
  }

  lemma NewestShownLast(st: Store, cs: bool, name: string)
    requires Newest(st, cs, name)
    ensures DocOf(st) == SectionsOf(ByOrder(OtherSections(st, cs, name))) + [P.SectionText(name, PairsOf(KeysOf(st, cs, name)))]
  {
    hide Lower, Upper, ByOrder, PairsOf;
    var i := Lower(st.data, cs, name);
    var others, e := OtherSections(st, cs, name), st.data[i];
    assert st.data == others[..i] + [e] + others[i..];
    NewestIsLast(others, i, e);
    var s := ByOrder(others);
    assert SectionsOf(s + [e]) == SectionsOf(s) + [SectionOf(e)];
  }

  lemma PairsGrow(keys: Keys, cs: bool, e: Named<string>)
    requires forall i | 0 <= i < |keys| :: keys[i].order < e.order
    ensures PairsOf(Insert(keys, cs, e)) == PairsOf(keys) + [P.KeyValue(e.item, e.val)]
  {
    hide Upper, ByOrder;
    NewestIsLast(keys, Upper(keys, cs, e.item), e);
  }

  predicate NewKey(keys: Keys, cs: bool, key: string) {
    forall i | 0 <= i < |keys| :: !Same(cs, keys[i].item, key)
  }

  predicate NewSection(st: Store, cs: bool, name: string) {
    forall i | 0 <= i < |st.data| :: !Same(cs, st.data[i].item, name)
  }

  lemma NotThere(st: Store, cs: bool, name: string)
    requires Sorted(st.data, cs) && NewSection(st, cs, name)
    ensures !HasSection(st, cs, name) && Lower(st.data, cs, name) == Upper(st.data, cs, name)
  {
    hide IsLess, Same, Lower, Upper, Sorted;
    EqualRange(st.data, cs, name);
  }

  lemma InsertedWhere(m: Sections, cs: bool, e: Named<Keys>)
    requires Sorted(m, cs) && Apart(m, cs) && Lower(m, cs, e.item) == Upper(m, cs, e.item)
    ensures var r, u := Insert(m, cs, e), Upper(m, cs, e.item);
            && u <= |m| && r == m[..u] + [e] + m[u..]
            && Lower(r, cs, e.item) == u && Upper(r, cs, e.item) == u + 1
  {
    hide IsLess, Lower, Upper, Sorted, Apart;
    InsertSorted(m, cs, e);
    SameSelf(cs, e.item);
    assert Insert(m, cs, e)[Upper(m, cs, e.item)] == e;
    OnlyOne(Insert(m, cs, e), cs, e.item, Upper(m, cs, e.item));
  }

  /** Opening a section that is not there yet. */
  lemma OpensLast(st: Store, cs: bool, multi: bool, name: string)
    requires WellKept(st, cs, multi) && NewSection(st, cs, name)
    ensures var st' := WithSection(st, cs, name);
            && WellKept(st', cs, multi) && Newest(st', cs, name) && KeysOf(st', cs, name) == []
            && OtherSections(st', cs, name) == st.data
  {
    hide IsLess, Same, Lower, Upper, Sorted, Apart, KeysKept, Insert, NewSection;
    NotThere(st, cs, name);
    WithSectionKept(st, cs, multi, name);
    var e, u := Named(name, st.order + 1, []), Upper(st.data, cs, name);
    InsertedWhere(st.data, cs, e);
    var r := Insert(st.data, cs, e);
    assert r[..u] == st.data[..u] && r[u + 1..] == st.data[u..] && r[u] == e;
    assert st.data[..u] + st.data[u..] == st.data;
    forall j | 0 <= j < |r| && j != u ensures r[j].order < e.order {
      assert r[j] == st.data[if j < u then j else j - 1];
    }
  }

  lemma OnlyOne(m: Sections, cs: bool, name: string, u: nat)
    requires Sorted(m, cs) && Apart(m, cs) && u < |m| && Same(cs, m[u].item, name)
    ensures Lower(m, cs, name) == u && Upper(m, cs, name) == u + 1
  {
    hide IsLess, Lower, Upper;
    EqualRange(m, cs, name);
    var lo, hi := Lower(m, cs, name), Upper(m, cs, name);
    if lo != u {
      SameThrough(cs, m[lo].item, name, m[u].item);
      SameSymmetric(cs, m[u].item, name);
    }
    if hi != u + 1 {
      SameThrough(cs, m[u + 1].item, name, m[u].item);
      SameSymmetric(cs, m[u].item, name);
    }
  }

  lemma NewKeyInserted(keys: Keys, cs: bool, multi: bool, key: string, value: string, order: nat)
    requires Sorted(keys, cs) && (multi || NewKey(keys, cs, key))
    ensures AddKey(keys, cs, multi, key, value, false, order) == Insert(keys, cs, Named(key, order, value))
  {
    hide IsLess, Same, Lower, Upper, Sorted, Insert;
    EqualRange(keys, cs, key);
  }

  /** Adding to the newest section shows the key last in that section: a new key, or any
      if keys may repeat. */
  lemma AddsLast(st: Store, cs: bool, multi: bool, name: string, key: string, value: string)
    requires WellKept(st, cs, multi) && Newest(st, cs, name) && (multi || NewKey(KeysOf(st, cs, name), cs, key))
    ensures var st' := AddTo(st, cs, multi, name, Just((key, value)), false);
            && WellKept(st', cs, multi) && Newest(st', cs, name)
            && OtherSections(st', cs, name) == OtherSections(st, cs, name)
            && PairsOf(KeysOf(st', cs, name)) == PairsOf(KeysOf(st, cs, name)) + [P.KeyValue(key, value)]
            && KeysOf(st', cs, name) == Insert(KeysOf(st, cs, name), cs, Named(key, st.order + 1, value))
  {
    hide IsLess, Same, Lower, Upper, Sorted, Apart, Insert, NewKey, PairsOf;
    AddToKept(st, cs, multi, name, Just((key, value)), false);
    KeysOfKept(st, cs, multi, name);
    var i, keys := Lower(st.data, cs, name), KeysOf(st, cs, name);
    var e := Named(key, st.order + 1, value);
    NewKeyInserted(keys, cs, multi, key, value, st.order + 1);
    PairsGrow(keys, cs, e);
    var data := st.data[i := st.data[i].(val := Insert(keys, cs, e))];
    SameBounds(st.data, data, cs, name);
    assert data[..i] == st.data[..i] && data[i + 1..] == st.data[i + 1..];
  }

  predicate KeysApart(pairs: seq<P.KeyValue>, cs: bool) {
    forall i, j | 0 <= i < j < |pairs| :: !Same(cs, pairs[i].key, pairs[j].key)
  }

  /** The pairs of one section, loaded after it was opened. */
  predicate Fresh(pairs: seq<P.KeyValue>, keys: Keys, cs: bool) {
    && (forall i | 0 <= i < |pairs| :: NewKey(keys, cs, pairs[i].key))
    && KeysApart(pairs, cs)
  }

  lemma FreshAfter(pairs: seq<P.KeyValue>, keys: Keys, cs: bool, order: nat)
    requires pairs != [] && Fresh(pairs, keys, cs)
    ensures Fresh(pairs[1..], Insert(keys, cs, Named(pairs[0].key, order, pairs[0].value)), cs)
  {
    hide IsLess, Same, Upper;
    var e := Named(pairs[0].key, order, pairs[0].value);
    var r := Insert(keys, cs, e);
    forall i, k | 0 <= i < |pairs[1..]| && 0 <= k < |r| ensures !Same(cs, r[k].item, pairs[1..][i].key) {
      var k' := InsertedAt(keys, cs, e, k);
      assert NewKey(keys, cs, pairs[i + 1].key);
    }
    assert forall i | 0 <= i < |pairs[1..]| :: pairs[1..][i] == pairs[i + 1];
  }

  lemma {:induction false} LoadsPairs(st: Store, cs: bool, multi: bool, name: string, pairs: seq<P.KeyValue>)
    requires WellKept(st, cs, multi) && Newest(st, cs, name) && (multi || Fresh(pairs, KeysOf(st, cs, name), cs))
    ensures var st' := LoadInto(st, cs, multi, R.PairItems(pairs, name));
            && WellKept(st', cs, multi) && Newest(st', cs, name)
            && OtherSections(st', cs, name) == OtherSections(st, cs, name)
            && PairsOf(KeysOf(st', cs, name)) == PairsOf(KeysOf(st, cs, name)) + pairs
    decreases |pairs|
  {
    hide WellKept, Newest, PairsOf, KeysOf, OtherSections, Fresh, AddTo, Insert;
    var items := R.PairItems(pairs, name);
    if pairs == [] {
      assert PairsOf(KeysOf(st, cs, name)) + [] == PairsOf(KeysOf(st, cs, name));
    } else {
      var st1 := AddItem(st, cs, multi, items[0]);
      assert st1 == AddTo(st, cs, multi, name, Just((pairs[0].key, pairs[0].value)), false);
      if !multi {
        FirstIsNew(pairs, KeysOf(st, cs, name), cs);
        FreshAfter(pairs, KeysOf(st, cs, name), cs, st.order + 1);
      }
      AddsLast(st, cs, multi, name, pairs[0].key, pairs[0].value);
      assert items[1..] == R.PairItems(pairs[1..], name);
      LoadsPairs(st1, cs, multi, name, pairs[1..]);
      assert PairsOf(KeysOf(st, cs, name)) + [pairs[0]] + pairs[1..] == PairsOf(KeysOf(st, cs, name)) + pairs;
    }
  }

  lemma FirstIsNew(pairs: seq<P.KeyValue>, keys: Keys, cs: bool)
    requires pairs != [] && Fresh(pairs, keys, cs)
    ensures NewKey(keys, cs, pairs[0].key)
  {
  }

  lemma OpensFirst(st: Store, cs: bool, multi: bool, name: string, entry: Maybe<(string, string)>)
    requires HasSection(WithSection(st, cs, name), cs, name)
    ensures AddTo(st, cs, multi, name, entry, false) == AddTo(WithSection(st, cs, name), cs, multi, name, entry, false)
  {
  }

  /** Loading the entries of a section opens it, whether a header or a first pair does. */
  lemma EntriesOpen(st: Store, cs: bool, multi: bool, section: P.SectionText)
    requires WellKept(st, cs, multi) && (section.name != "" || section.pairs != [])
    ensures LoadInto(st, cs, multi, R.HeaderItems(section.name) + R.PairItems(section.pairs, section.name))
            == LoadInto(WithSection(st, cs, section.name), cs, multi, R.PairItems(section.pairs, section.name))
  {
    hide WithSection, WellKept, HasSection;
    var name, items := section.name, R.PairItems(section.pairs, section.name);
    if name != "" {
      assert (R.HeaderItems(name) + items)[1..] == items;
      assert AddTo(st, cs, multi, name, Nothing, false) == WithSection(st, cs, name);
    } else {
      assert [] + items == items;
      WithSectionKept(st, cs, multi, name);
      OpensFirst(st, cs, multi, name, Just((section.pairs[0].key, section.pairs[0].value)));
    }
  }

  lemma NothingInside(pairs: seq<P.KeyValue>, cs: bool, multi: bool)
    requires multi || KeysApart(pairs, cs)
    ensures (multi || Fresh(pairs, [], cs)) && PairsOf([]) == []
  {
  }

  /** Loading one section shows it behind those that were there. */
  lemma LoadsSection(st: Store, cs: bool, multi: bool, section: P.SectionText)
    requires WellKept(st, cs, multi) && NewSection(st, cs, section.name) && (section.name != "" || section.pairs != [])
    requires multi || KeysApart(section.pairs, cs)
    ensures var st' := LoadInto(st, cs, multi, R.HeaderItems(section.name) + R.PairItems(section.pairs, section.name));
            && WellKept(st', cs, multi) && Newest(st', cs, section.name) && OtherSections(st', cs, section.name) == st.data
            && DocOf(st') == DocOf(st) + [section]
  {
    hide WellKept, Newest, OtherSections, KeysOf, PairsOf, LoadInto, WithSection, NewSection, SectionsOf, ByOrder, Same;
    var name := section.name;
    EntriesOpen(st, cs, multi, section);
    OpensLast(st, cs, multi, name);
    NothingInside(section.pairs, cs, multi);
    var st1 := WithSection(st, cs, name);
    LoadsPairs(st1, cs, multi, name, section.pairs);
    var st' := LoadInto(st1, cs, multi, R.PairItems(section.pairs, name));
    NewestShownLast(st', cs, name);
    assert [] + section.pairs == section.pairs;
  }

  // ----- the whole document -----------------------------------------------------------

  /** No section comes twice and, unless keys may repeat, no key in a section. */
  predicate Distinct(doc: seq<P.SectionText>, cs: bool, multi: bool) {
    && (forall i, j | 0 <= i < j < |doc| :: !Same(cs, doc[i].name, doc[j].name))
    && (multi || forall i | 0 <= i < |doc| :: KeysApart(doc[i].pairs, cs))
  }

  /** A section that leaves a trace in the text. */
  predicate Visible(section: P.SectionText) {
    section.name != "" || section.pairs != []
  }

  predicate AllVisible(doc: seq<P.SectionText>) {
    forall i | 0 <= i < |doc| :: Visible(doc[i])
  }

  predicate AllNew(doc: seq<P.SectionText>, st: Store, cs: bool) {
    forall i | 0 <= i < |doc| :: NewSection(st, cs, doc[i].name)
  }

  lemma RestIsNew(doc: seq<P.SectionText>, st: Store, st': Store, cs: bool, multi: bool)
    requires doc != [] && Distinct(doc, cs, multi) && AllNew(doc, st, cs)
    requires Newest(st', cs, doc[0].name) && OtherSections(st', cs, doc[0].name) == st.data
    ensures Distinct(doc[1..], cs, multi) && AllNew(doc[1..], st', cs)
  {
    hide Same, Lower, Upper, KeysApart;
    assert forall i | 0 <= i < |doc[1..]| :: doc[1..][i] == doc[i + 1];
    var u := Lower(st'.data, cs, doc[0].name);
    forall i, k | 0 <= i < |doc[1..]| && 0 <= k < |st'.data| ensures !Same(cs, st'.data[k].item, doc[1..][i].name) {
      assert NewSection(st, cs, doc[i + 1].name);
      if k != u {
        assert st'.data[k] == st.data[if k < u then k else k - 1];
      }
    }
  }

  lemma {:induction false} LoadsDoc(st: Store, cs: bool, multi: bool, doc: seq<P.SectionText>)
    requires WellKept(st, cs, multi) && Distinct(doc, cs, multi) && AllNew(doc, st, cs) && AllVisible(doc)
    ensures DocOf(LoadInto(st, cs, multi, R.DocItems(doc))) == DocOf(st) + doc
    decreases |doc|
  {
    hide WellKept, LoadInto, DocOf, NewSection, Newest, OtherSections;
    if doc == [] {
      LoadsNothing(st, cs, multi);
      assert DocOf(st) + [] == DocOf(st);
    } else {
      var first := R.HeaderItems(doc[0].name) + R.PairItems(doc[0].pairs, doc[0].name);
      assert Visible(doc[0]) && (multi || KeysApart(doc[0].pairs, cs));
      LoadsSection(st, cs, multi, doc[0]);
      LoadTwice(st, cs, multi, first, R.DocItems(doc[1..]));
      RestIsNew(doc, st, LoadInto(st, cs, multi, first), cs, multi);
      LoadsDoc(LoadInto(st, cs, multi, first), cs, multi, doc[1..]);
      assert DocOf(st) + [doc[0]] + doc[1..] == DocOf(st) + doc;
    }
  }

  lemma LoadsNothing(st: Store, cs: bool, multi: bool)
    ensures LoadInto(st, cs, multi, []) == st
  {
  }

  function OnlyVisible(doc: seq<P.SectionText>): seq<P.SectionText> {
    if doc == [] then []
    else if Visible(doc[0]) then [doc[0]] + OnlyVisible(doc[1..])
    else OnlyVisible(doc[1..])
  }

  lemma EmptyStore(doc: seq<P.SectionText>, cs: bool, multi: bool)
    ensures WellKept(Store([], 0), cs, multi) && AllNew(doc, Store([], 0), cs) && DocOf(Store([], 0)) == []
  {
  }

  lemma {:induction false} OnlyVisibleItems(doc: seq<P.SectionText>)
    ensures R.DocItems(OnlyVisible(doc)) == R.DocItems(doc)
  {
    if doc != [] {
      OnlyVisibleItems(doc[1..]);
      var first := R.HeaderItems(doc[0].name) + R.PairItems(doc[0].pairs, doc[0].name);
      if Visible(doc[0]) {
        assert OnlyVisible(doc)[1..] == OnlyVisible(doc[1..]);
      } else {
        assert |first| == 0;
        assert first + R.DocItems(doc[1..]) == R.DocItems(doc[1..]);
      }
    }
  }

  lemma {:induction false} OnlyVisibleIs(doc: seq<P.SectionText>)
    ensures |OnlyVisible(doc)| <= |doc| && (|OnlyVisible(doc)| == |doc| <==> AllVisible(doc))
    ensures AllVisible(OnlyVisible(doc)) && (AllVisible(doc) ==> OnlyVisible(doc) == doc)
    ensures forall s | s in OnlyVisible(doc) :: s in doc
  {
    if doc != [] {
      OnlyVisibleIs(doc[1..]);
      assert forall i | 0 <= i < |doc[1..]| :: doc[1..][i] == doc[i + 1];
      var rest := OnlyVisible(doc[1..]);
      if Visible(doc[0]) {
        assert OnlyVisible(doc) == [doc[0]] + rest;
        assert AllVisible(doc) <==> AllVisible(doc[1..]);
        assert AllVisible(doc) ==> [doc[0]] + doc[1..] == doc;
      } else {
        assert OnlyVisible(doc) == rest;
        assert !AllVisible(doc);
      }
    }
  }

  lemma {:induction false} OnlyVisibleDistinct(doc: seq<P.SectionText>, cs: bool, multi: bool)
    requires Distinct(doc, cs, multi)
    ensures Distinct(OnlyVisible(doc), cs, multi)
  {
    hide Same, KeysApart, Visible;
    if doc != [] {
      assert forall i | 0 <= i < |doc[1..]| :: doc[1..][i] == doc[i + 1];
      OnlyVisibleDistinct(doc[1..], cs, multi);
      OnlyVisibleIs(doc[1..]);
      var rest := OnlyVisible(doc[1..]);
      forall k | 0 <= k < |rest| ensures !Same(cs, doc[0].name, rest[k].name) {
        assert rest[k] in doc[1..];
      }
    }
  }

  /** Loading a printed document into an empty store: the store shows the document again,
      if and only if every section leaves a trace in the text.  What is lost otherwise is
      a section without name and without keys. */
  lemma LoadedIsPrinted(doc: seq<P.SectionText>, cfg: Config, multi: bool)
    requires cfg.Valid() && R.PrintableDoc(doc, cfg) && Distinct(doc, cfg.caseSensitive, multi)
    ensures var text := P.PrintDoc(doc, cfg);
            var loaded := LoadInto(Store([], 0), cfg.caseSensitive, multi, L.Items(text, cfg, L.Named("")));
            && N.CommentUsed(text, false) == 0
            && DocOf(loaded) == OnlyVisible(doc)
            && (DocOf(loaded) == doc <==> AllVisible(doc))
  {
    hide *;
    var cs := cfg.caseSensitive;
    R.NoFileComment(doc, cfg);
    R.DocReadBack(doc, cfg, L.Named(""));
    OnlyVisibleItems(doc);
    OnlyVisibleIs(doc);
    OnlyVisibleDistinct(doc, cs, multi);
    EmptyStore(OnlyVisible(doc), cs, multi);
    LoadsDoc(Store([], 0), cs, multi, OnlyVisible(doc));
    assert DocOf(Store([], 0)) + OnlyVisible(doc) == OnlyVisible(doc);
  }

  // ----- a store's own document -------------------------------------------------------

  lemma {:induction false} PlaceApart<T>(e: Named<T>, m: seq<Named<T>>, cs: bool)
    requires Apart(m, cs) && forall k | 0 <= k < |m| :: !Same(cs, e.item, m[k].item)
    ensures Apart(Place(e, m), cs)
  {
    hide IsLess;
    if m != [] && e.order > m[0].order {
      PlaceApart(e, m[1..], cs);
      var rest := Place(e, m[1..]);
      PlaceKeepsAll(e, m[1..]);
      forall k | 0 <= k < |rest| ensures !Same(cs, m[0].item, rest[k].item) {
        assert rest[k] in multiset(rest);
        assert rest[k] == e || rest[k] in m[1..];
      }
    }
  }

  lemma {:induction false} ByOrderApart<T>(m: seq<Named<T>>, cs: bool)
    requires Apart(m, cs)
    ensures Apart(ByOrder(m), cs)
  {
    hide Same, Place;
    if m != [] {
      assert forall i | 0 <= i < |m[1..]| :: m[1..][i] == m[i + 1];
      ByOrderApart(m[1..], cs);
      var rest := ByOrder(m[1..]);
      ByOrderSorts(m[1..]);
      forall k | 0 <= k < |rest| ensures !Same(cs, m[0].item, rest[k].item) {
        assert rest[k] in multiset(rest);
        assert rest[k] in m[1..];
      }
      PlaceApart(m[0], rest, cs);
    }
  }

  lemma SectionIsDistinct(st: Store, cs: bool, e: Named<Keys>)
    requires WellKept(st, cs, false) && e in st.data
    ensures KeysApart(PairsOf(e.val), cs)
  {
    hide Same, Sorted, IsLess;
    var k :| 0 <= k < |st.data| && st.data[k] == e;
    assert KeysKept(st.data[k].val, cs, false, st.order);
    ByOrderApart(e.val, cs);
  }

  /** A store without repeating keys shows a document without repetitions. */
  lemma DocIsDistinct(st: Store, cs: bool)
    requires WellKept(st, cs, false)
    ensures Distinct(DocOf(st), cs, false)
  {
    hide Same, Sorted, IsLess, KeysKept, KeysApart, PairsOf;
    ByOrderApart(st.data, cs);
    ByOrderSorts(st.data);
    var s := ByOrder(st.data);
    forall i | 0 <= i < |s| ensures KeysApart(PairsOf(s[i].val), cs) {
      assert s[i] in multiset(s);
      assert s[i] in st.data;
      SectionIsDistinct(st, cs, s[i]);
    }
  }

  /** Save and load: a store without repeating keys and without comments, with printable
      names and values, comes back with the same sections, keys and values in the same
      load order, unless it has a nameless section without keys. */
  lemma SaveThenLoadStore(st: Store, cfg: Config)
    requires cfg.Valid() && WellKept(st, cfg.caseSensitive, false) && R.PrintableDoc(DocOf(st), cfg)
    ensures var loaded := LoadInto(Store([], 0), cfg.caseSensitive, false, L.Items(P.PrintDoc(DocOf(st), cfg), cfg, L.Named("")));
            DocOf(loaded) == DocOf(st) <==> AllVisible(DocOf(st))
  {
    hide *;
    DocIsDistinct(st, cfg.caseSensitive);
    LoadedIsPrinted(DocOf(st), cfg, false);
  }
}
