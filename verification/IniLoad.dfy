/** Loading: the entries of a text, one call of the parser after another, and the loop
    that records them as pointers into the buffer it is taking apart. */
module IniLoad {
  import opened IniText
  import opened IniBuffer
  import opened IniParse

  /** The section an entry goes to.  Torn: the one whose line lacks its ']'. */
  datatype SectionName = Named(name: string) | Torn

  datatype Item = Item(section: SectionName, token: Token)

  function SectionOf(st: Step, section: SectionName): SectionName {
    if st.token.Header? then Named(st.token.name) else if st.torn.At? then Torn else section
  }

  /** The entries of s, in order. */
  function Items(s: string, cfg: Config, section: SectionName): seq<Item>
    decreases |s|
  {
    var st := Next(s, cfg);
    if st.token.EndOfData? || st.token.Aborted? then []
    else
      var here := SectionOf(st, section);
      [Item(here, st.token)] + Items(s[st.used..], cfg, here)
  }

  /** The pointers recorded for one entry. */
  datatype Record = Record(section: Mark, key: Mark, value: Mark)

  /** A string stands at its pointer; no pointer is the empty string. */
  ghost predicate StandsAt(a: array<char>, m: Mark, s: string, cursor: nat, end: nat)
    reads a
  {
    if m.At? then CString(a, m.offset, s) && Inside(m.offset, s, cursor, end) else s == ""
  }

  ghost predicate SectionStands(a: array<char>, m: Mark, section: SectionName, cursor: nat, end: nat)
    reads a
  {
    section.Named? ==> StandsAt(a, m, section.name, cursor, end)
  }

  ghost predicate Stands(a: array<char>, r: Record, item: Item, cursor: nat, end: nat)
    reads a
  {
    && SectionStands(a, r.section, item.section, cursor, end)
    && r.key.At? == r.value.At? == (item.token.Pair? || item.token.Dangling?)
    && (item.token.Pair? || item.token.Dangling? ==> StandsAt(a, r.key, item.token.key, cursor, end))
    && (item.token.Pair? ==> StandsAt(a, r.value, item.token.value, cursor, end))
  }

  ghost predicate AllStand(a: array<char>, records: seq<Record>, items: seq<Item>, cursor: nat, end: nat)
    reads a
  {
    |records| == |items| && forall j | 0 <= j < |records| :: Stands(a, records[j], items[j], cursor, end)
  }

  lemma ItemsUnfold(orig: seq<char>, pos: nat, end: nat, cfg: Config, section: SectionName)
    requires pos <= end <= |orig|
    ensures var st := Next(orig[pos..end], cfg);
            var here := SectionOf(st, section);
            Items(orig[pos..end], cfg, section) ==
            if st.token.EndOfData? || st.token.Aborted? then []
            else [Item(here, st.token)] + Items(orig[pos + st.used..end], cfg, here)
  {
    hide Next, SectionOf;
    SliceOfSlice(orig, pos, end, pos + Next(orig[pos..end], cfg).used, end);
  }

  lemma EnteredStands(a: array<char>, st: Step, pos: nat, before: Mark, section: Mark, key: Mark, value: Mark, cursor: nat, end: nat, name: SectionName)
    requires Entered(a, st, pos, before, section, key, value, cursor, end)
    requires !st.token.EndOfData? && !st.token.Aborted?
    requires SectionStands(a, before, name, cursor, end)
    ensures SectionStands(a, section, SectionOf(st, name), cursor, end)
    ensures Stands(a, Record(section, key, value), Item(SectionOf(st, name), st.token), cursor, end)
  {
    hide CString, Inside;
  }

  /** The next entry; what was recorded before still stands. */
  method LoadEntry(a: array<char>, pos: nat, section: Mark, records: seq<Record>, cfg: Config,
                   ghost orig: seq<char>, ghost end: nat, ghost items: seq<Item>, ghost name: SectionName)
    returns (found: bool, cursor: nat, section': Mark, key: Mark, value: Mark)
    requires Unread(a, orig, pos, end)
    requires AllStand(a, records, items, pos, end) && SectionStands(a, section, name, pos, end)
    modifies a
    ensures var st := Next(orig[pos..end], cfg);
            && (found <==> !st.token.EndOfData? && !st.token.Aborted?)
            && (found ==>
                && cursor == pos + st.used && Unread(a, orig, cursor, end)
                && SectionStands(a, section', SectionOf(st, name), cursor, end)
                && Stands(a, Record(section', key, value), Item(SectionOf(st, name), st.token), cursor, end))
    ensures AllStand(a, records, items, if found then cursor else end, end)
  {
    hide Next, Entered, SectionOf;
    found, cursor, section', key, value := FindEntry(a, pos, section, cfg, orig, end);
    ghost var upto := if found then cursor else end;
    forall j | 0 <= j < |records| ensures Stands(a, records[j], items[j], upto, end) {
      assert old(Stands(a, records[j], items[j], pos, end));
    }
    if found {
      assert old(SectionStands(a, section, name, pos, end));
      EnteredStands(a, Next(orig[pos..end], cfg), pos, section, section', key, value, cursor, end, name);
    }
  }

  /** The loading loop.  When it ends, every recorded pointer still leads to the string
      that was recorded: parsing on never damages what was parsed before. */
  method LoadData(a: array<char>, cfg: Config, ghost end: nat) returns (records: seq<Record>)
    requires Unread(a, a[..], 0, end)
    modifies a
    ensures var text := old(a[..])[..end];
            var start := CommentUsed(text, false);
            AllStand(a, records, Items(text[start..], cfg, Named("")), end, end)
  {
    hide CommentUsed, Items, Next, Stands, SectionStands, SectionOf;
    ghost var orig := a[..];
    var ok, cursor := LoadComment(a, 0, false, orig, end);
    assert orig[0..end] == orig[..end];
    SliceOfSlice(orig, 0, end, cursor, end);
    var section, key, value := None, None, None;
    ghost var name, done := Named(""), [];
    records := [];
    NothingStands(a, cursor, end);
    ghost var all := Items(orig[cursor..end], cfg, name);
    assert [] + all == all;
    while true
      invariant Unread(a, orig, cursor, end)
      invariant all == done + Items(orig[cursor..end], cfg, name)
      invariant AllStand(a, records, done, cursor, end)
      invariant SectionStands(a, section, name, cursor, end)
      decreases end - cursor
    {
      ghost var st := Next(orig[cursor..end], cfg);
      ItemsUnfold(orig, cursor, end, cfg, name);
      ok, cursor, section, key, value := LoadEntry(a, cursor, section, records, cfg, orig, end, done, name);
      if !ok {
        assert done + [] == done;
        return;
      }
      records := records + [Record(section, key, value)];
      name := SectionOf(st, name);
      done := done + [Item(name, st.token)];
    }
  }

  lemma NothingStands(a: array<char>, cursor: nat, end: nat)
    ensures SectionStands(a, None, Named(""), cursor, end)
  {
  }
}
