/** Directories as their entries: what is listed, which entry a removal takes out, and what
    the listing is afterwards. */
module FatDirectory {
  import opened Common
  import opened FatTable
  import opened FatChain
  import opened Sectors
  import opened FatVolume
  import opened FatRefinement

  const ENTRIES_PER_SECTOR := 16
  const FREE_MARK := 246

  type Entries = seq<seq<Byte>>

  // ----- the listing ------------------------------------------------------------------

  predicate Used(entry: seq<Byte>) {
    entry != [] && entry[0] != 0 && entry[0] != FREE_MARK
  }

  /** What is found in one piece of a directory: the entries up to the first unused one. */
  function Items(entries: Entries): (r: Entries)
    ensures |r| <= |entries| && r == entries[..|r|]
    ensures forall i | 0 <= i < |r| :: Used(entries[i])
    ensures |r| < |entries| ==> entries[|r|] == [] || entries[|r|][0] == 0 || entries[|r|][0] == 246
  {
    if entries == [] || !Used(entries[0]) then [] else [entries[0]] + Items(entries[1..])
  }

  function Without(items: Entries, n: nat): Entries {
    if n <= |items| then items[n..] else []
  }

  function BySector(entries: Entries): Entries {
    if |entries| < ENTRIES_PER_SECTOR then []
    else Items(entries[..ENTRIES_PER_SECTOR]) + BySector(entries[ENTRIES_PER_SECTOR..])
  }

  /** The listing of a directory.  The root is read in one piece and begins with the volume
      label; any other is read sector by sector and begins with "." and "..". */
  function Listing(root: bool, entries: Entries): Entries {
    if root then Without(Items(entries), 1)
    else if |entries| < ENTRIES_PER_SECTOR then []
    else Without(Items(entries[..ENTRIES_PER_SECTOR]), 2) + BySector(entries[ENTRIES_PER_SECTOR..])
  }

  // ----- places -----------------------------------------------------------------------

  /** How many entries of a directory stand for itself and its parent. */
  function OwnEntries(root: bool): nat {
    if root then 1 else 2
  }

  function PieceStart(root: bool, i: nat): nat {
    if root then 0 else i - i % ENTRIES_PER_SECTOR
  }

  /** The entry at i is listed: everything before it in its piece is used. */
  predicate Listed(root: bool, entries: Entries, i: nat) {
    OwnEntries(root) <= i < |entries| && forall j | PieceStart(root, i) <= j <= i :: Used(entries[j])
  }

  /** The places before n that are listed. */
  function Places(root: bool, entries: Entries, n: nat): seq<nat> {
    if n == 0 then []
    else Places(root, entries, n - 1) + if Listed(root, entries, n - 1) then [n - 1] else []
  }

  function At(entries: Entries, places: seq<nat>): Entries {
    seq(|places|, i requires 0 <= i < |places| => if places[i] < |entries| then entries[places[i]] else [])
  }

  lemma AtSnoc(entries: Entries, places: seq<nat>, p: nat)
    requires p < |entries|
    ensures At(entries, places + [p]) == At(entries, places) + [entries[p]]
  {
  }

  function Taken(items: Entries, m: nat): Entries {
    if m < |items| then items[..m] else items
  }

  /** In one piece a place is listed if it is among the leading used ones. */
  lemma ListedInPiece(root: bool, entries: Entries, start: nat, w: nat, p: nat)
    requires start <= p < start + w <= |entries| && PieceStart(root, p) == start
    ensures Listed(root, entries, p) <==> OwnEntries(root) <= p && p - start < |Items(entries[start..start + w])|
    ensures p - start < |Items(entries[start..start + w])| ==> Items(entries[start..start + w])[p - start] == entries[p]
  {
    var piece := entries[start..start + w];
    var items := Items(piece);
    hide Items;
    if p - start < |items| {
      forall j | start <= j <= p ensures Used(entries[j]) {
        assert items[j - start] == entries[j];
      }
    } else {
      assert !Used(entries[start + |items|]);
    }
  }

  lemma TakenNext(items: Entries, m: nat, skip: nat)
    ensures Taken(items, m + 1) == Taken(items, m) + if m < |items| then [items[m]] else []
    ensures Without(Taken(items, m + 1), skip) == Without(Taken(items, m), skip) + if skip <= m < |items| then [items[m]] else []
  {
  }

  lemma NextPlaces(root: bool, entries: Entries, p: nat)
    requires p < |entries|
    ensures At(entries, Places(root, entries, p + 1)) == At(entries, Places(root, entries, p)) + if Listed(root, entries, p) then [entries[p]] else []
  {
    hide Listed, At;
    AtSnoc(entries, Places(root, entries, p), p);
    NoMore(Places(root, entries, p));
    JoinTwo(At(entries, Places(root, entries, p)), [], []);
  }

  predicate IsPiece(root: bool, start: nat, w: nat) {
    forall i | start <= i < start + w :: PieceStart(root, i) == start
  }

  /** Within one piece the listed entries are the leading used ones. */
  lemma {:induction false} PiecePlaces(root: bool, entries: Entries, start: nat, w: nat, m: nat)
    requires IsPiece(root, start, w) && start + w <= |entries| && m <= w && (start == 0 || OwnEntries(root) <= start)
    ensures var seen := Taken(Items(entries[start..start + w]), m);
            At(entries, Places(root, entries, start + m))
            == At(entries, Places(root, entries, start)) + (if start == 0 then Without(seen, OwnEntries(root)) else seen)
  {
    hide Items, Listed, At, Places, Without, Taken;
    var items, before := Items(entries[start..start + w]), At(entries, Places(root, entries, start));
    if m == 0 {
      NothingTaken(items, OwnEntries(root));
      JoinTwo(before, [], []);
    } else {
      PiecePlaces(root, entries, start, w, m - 1);
      var p := start + m - 1;
      ListedInPiece(root, entries, start, w, p);
      NextPlaces(root, entries, p);
      TakenNext(items, m - 1, OwnEntries(root));
      var more := if Listed(root, entries, p) then [entries[p]] else [];
      JoinTwo(before, if start == 0 then Without(Taken(items, m - 1), OwnEntries(root)) else Taken(items, m - 1), more);
    }
  }

  lemma NothingTaken(items: Entries, skip: nat)
    ensures Taken(items, 0) == [] && Without(Taken(items, 0), skip) == []
  {
  }

  lemma AllTaken(items: Entries, m: nat)
    requires m >= |items|
    ensures Taken(items, m) == items == Taken(items, m + 1)
  {
  }

  lemma {:induction false} SectorPlaces(entries: Entries, start: nat)
    requires start % ENTRIES_PER_SECTOR == 0 && 0 < start <= |entries| && |entries| % ENTRIES_PER_SECTOR == 0
    ensures At(entries, Places(false, entries, |entries|)) == At(entries, Places(false, entries, start)) + BySector(entries[start..])
    decreases |entries| - start
  {
    hide Items, At, Places;
    var before := At(entries, Places(false, entries, start));
    if start == |entries| {
      assert before + [] == before;
    } else {
      var w := ENTRIES_PER_SECTOR;
      PiecePlaces(false, entries, start, w, w);
      AllTaken(Items(entries[start..start + w]), w);
      SectorPlaces(entries, start + w);
      assert entries[start..][..w] == entries[start..start + w] && entries[start..][w..] == entries[start + w..];
      JoinTwo(before, Items(entries[start..start + w]), BySector(entries[start + w..]));
    }
  }

  lemma JoinTwo(a: Entries, b: Entries, c: Entries)
    ensures a + b + c == a + (b + c) && a + [] == a
  {
  }

  /** The listing is the entries at the listed places, in order. */
  lemma ListingPlaces(root: bool, entries: Entries)
    requires |entries| % ENTRIES_PER_SECTOR == 0 && entries != []
    ensures Listing(root, entries) == At(entries, Places(root, entries, |entries|))
  {
    hide Items, BySector;
    var w := if root then |entries| else ENTRIES_PER_SECTOR;
    PiecePlaces(root, entries, 0, w, w);
    AllTaken(Items(entries[0..w]), w);
    assert entries[0..w] == entries[..w] && (root ==> entries[..w] == entries);
    var first := Without(Items(entries[..w]), OwnEntries(root));
    assert [] + first == first;
    if !root {
      SectorPlaces(entries, w);
    }
  }

  // ----- taking an entry out ----------------------------------------------------------

  function ZeroEntry(): seq<Byte> {
    seq(32, _ => 0)
  }

  /** The entries of a directory that lost entry k. */
  function Shortened(entries: Entries, k: nat): Entries
    requires k < |entries|
  {
    entries[..k] + entries[k + 1..] + [ZeroEntry()]
  }

  predicate NoGapBefore(entries: Entries, k: nat) {
    forall j | 0 <= j < k && j < |entries| :: Used(entries[j])
  }

  predicate HasGap(entries: Entries, from: int, to: nat) {
    exists j :: 0 <= j < |entries| && from <= j < to && !Used(entries[j])
  }

  /** A sector is not begun by a used entry if the one before it has an unused one, and
      it has no used second entry behind an unused first one. */
  predicate Follows(entries: Entries, t: nat)
    requires t < |entries|
  {
    && (HasGap(entries, t - ENTRIES_PER_SECTOR, t) ==> !Used(entries[t]))
    && (!Used(entries[t]) && t + 1 < |entries| ==> !Used(entries[t + 1]))
  }

  /** So it is with every sector behind place k. */
  predicate NoGapBehind(root: bool, entries: Entries, k: nat) {
    root || forall t | k < t < |entries| && t % ENTRIES_PER_SECTOR == 0 :: Follows(entries, t)
  }

  /** After entry k is gone, the places listed are the old ones, moved up by one behind it. */
  predicate ListedAfter(root: bool, entries: Entries, k: nat, j: nat)
    requires k < |entries|
  {
    Listed(root, Shortened(entries, k), j) <==> Listed(root, entries, if j < k then j else j + 1)
  }

  lemma ShortenedAt(entries: Entries, k: nat, j: nat)
    requires k < |entries| && j < |entries|
    ensures |Shortened(entries, k)| == |entries|
    ensures Shortened(entries, k)[j] == if j < k then entries[j] else if j + 1 < |entries| then entries[j + 1] else ZeroEntry()
    ensures !Used(ZeroEntry())
  {
  }

  predicate AllUsed(entries: Entries, from: int, to: int) {
    forall j | 0 <= j < |entries| && from <= j <= to :: Used(entries[j])
  }

  /** Entry k is listed, and all before it are used. */
  predicate Plainly(root: bool, entries: Entries, k: nat) {
    && k < |entries| && |entries| % ENTRIES_PER_SECTOR == 0
    && OwnEntries(root) <= k && NoGapBefore(entries, k + 1)
  }

  lemma ListedBefore(root: bool, entries: Entries, k: nat, j: nat)
    requires Plainly(root, entries, k) && j < k
    ensures ListedAfter(root, entries, k, j)
  {
    hide Used;
    forall i | 0 <= i <= j ensures Shortened(entries, k)[i] == entries[i] {
      ShortenedAt(entries, k, i);
    }
    assert |Shortened(entries, k)| == |entries| by { ShortenedAt(entries, k, k); }
  }

  /** Behind it a place is listed afterwards if the entries that moved up in its piece are used. */
  lemma ListedMoved(root: bool, entries: Entries, k: nat, j: nat)
    requires Plainly(root, entries, k) && k <= j < |entries|
    ensures Listed(root, Shortened(entries, k), j) <==>
              j + 1 < |entries| && AllUsed(entries, (if PieceStart(root, j) < k then k else PieceStart(root, j)) + 1, j + 1)
  {
    var r, s := Shortened(entries, k), PieceStart(root, j);
    hide Used, Shortened, PieceStart;
    ShortenedAt(entries, k, j);
    var from := (if s < k then k else s) + 1;
    forall i | s <= i <= j && i < |entries| ensures r[i] == if i < k then entries[i] else if i + 1 < |entries| then entries[i + 1] else ZeroEntry() {
      ShortenedAt(entries, k, i);
    }
    if j + 1 < |entries| {
      if AllUsed(entries, from, j + 1) {
        forall i | s <= i <= j ensures Used(r[i]) {
          assert i >= k ==> Used(entries[i + 1]);
        }
      } else {
        var i :| 0 <= i < |entries| && from <= i <= j + 1 && !Used(entries[i]);
        assert r[i - 1] == entries[i];
        StartBefore(root, j);
      }
    } else {
      StartBefore(root, j);
    }
  }

  lemma StartBefore(root: bool, j: nat)
    ensures PieceStart(root, j) <= j
    ensures PieceStart(root, j + 1) == PieceStart(root, j) || (!root && PieceStart(root, j + 1) == j + 1 && PieceStart(root, j) == j + 1 - ENTRIES_PER_SECTOR)
    ensures !root ==> PieceStart(root, j) % ENTRIES_PER_SECTOR == 0
  {
  }

  lemma StaysListed(root: bool, entries: Entries, k: nat, j: nat)
    requires Plainly(root, entries, k) && NoGapBehind(root, entries, k) && j < |entries|
    ensures ListedAfter(root, entries, k, j)
  {
    if j < k {
      ListedBefore(root, entries, k, j);
    } else {
      hide Used, Shortened, PieceStart;
      ListedMoved(root, entries, k, j);
      StartBefore(root, j);
      var s := PieceStart(root, j);
      if j + 1 < |entries| {
        if PieceStart(root, j + 1) == s {
          assert s > k ==> root || Follows(entries, s);
          assert Listed(root, entries, j + 1) <==> AllUsed(entries, s, j + 1);
        } else {
          assert Follows(entries, j + 1);
          assert Listed(root, entries, j + 1) <==> Used(entries[j + 1]);
        }
      }
    }
  }

  /** Conversely: a sector's first entry disappears if the sector before has a gap... */
  lemma Disappears(entries: Entries, k: nat, t: nat, h: nat)
    requires Plainly(false, entries, k) && k < t < |entries| && t % ENTRIES_PER_SECTOR == 0
    requires Used(entries[t]) && t - ENTRIES_PER_SECTOR < h < t && !Used(entries[h])
    ensures !ListedAfter(false, entries, k, t - 1)
  {
    hide Used, Shortened;
    ListedMoved(false, entries, k, t - 1);
    assert PieceStart(false, t) == t && PieceStart(false, t - 1) == t - ENTRIES_PER_SECTOR;
    assert Listed(false, entries, t);
    assert h > k;
  }

  /** ... and a used second entry appears when the unused first one moves away. */
  lemma Appears(entries: Entries, k: nat, g: nat)
    requires Plainly(false, entries, k) && k < g && g % ENTRIES_PER_SECTOR == 0
    requires g + 1 < |entries| && !Used(entries[g]) && Used(entries[g + 1])
    ensures !ListedAfter(false, entries, k, g)
  {
    hide Used, Shortened;
    ListedMoved(false, entries, k, g);
    assert PieceStart(false, g) == g == PieceStart(false, g + 1);
  }

  lemma GapIsSeen(entries: Entries, k: nat) returns (j: nat)
    requires Plainly(false, entries, k) && !NoGapBehind(false, entries, k)
    ensures j < |entries| && !ListedAfter(false, entries, k, j)
  {
    hide Used, ListedAfter;
    var t :| k < t < |entries| && t % ENTRIES_PER_SECTOR == 0 && !Follows(entries, t);
    if !Used(entries[t]) {
      j := t;
      Appears(entries, k, j);
    } else {
      var g :| 0 <= g < |entries| && t - ENTRIES_PER_SECTOR <= g < t && !Used(entries[g]);
      if g == t - ENTRIES_PER_SECTOR && Used(entries[g + 1]) {
        j := g;
        Appears(entries, k, j);
      } else {
        j := t - 1;
        Disappears(entries, k, t, if g == t - ENTRIES_PER_SECTOR then g + 1 else g);
      }
    }
  }

  /** THE REMOVAL.  Taking out an entry with no gap before it leaves exactly the other
      entries listed, each in its place or moved up by one, if and only if there is no gap
      behind it. */
  lemma ListedAfterIff(root: bool, entries: Entries, k: nat)
    requires Plainly(root, entries, k)
    ensures NoGapBehind(root, entries, k) <==> forall j | 0 <= j < |entries| :: ListedAfter(root, entries, k, j)
  {
    hide ListedAfter, NoGapBefore, Used;
    if NoGapBehind(root, entries, k) {
      forall j | 0 <= j < |entries| ensures ListedAfter(root, entries, k, j) {
        StaysListed(root, entries, k, j);
      }
    } else {
      var j := GapIsSeen(entries, k);
    }
  }

  // ----- which entry is taken out -----------------------------------------------------

  lemma {:induction false} PlacesAtMost(root: bool, entries: Entries, n: nat)
    requires OwnEntries(root) <= n <= |entries|
    ensures |Places(root, entries, n)| <= n - OwnEntries(root)
    ensures |Places(root, entries, n)| == n - OwnEntries(root) <==> forall j | OwnEntries(root) <= j < n :: Listed(root, entries, j)
    ensures Places(root, entries, OwnEntries(root)) == []
  {
    hide Listed;
    OwnNotListed(root, entries);
    if n > OwnEntries(root) {
      PlacesAtMost(root, entries, n - 1);
    }
  }

  lemma OwnNotListed(root: bool, entries: Entries)
    ensures Places(root, entries, OwnEntries(root)) == []
  {
    if !root {
      assert Places(root, entries, 1) == [];
    }
  }

  /** The place at position id has id listed places before it. */
  lemma {:induction false} PlaceAt(root: bool, entries: Entries, n: nat, id: nat)
    requires n <= |entries| && id < |Places(root, entries, n)|
    ensures var p := Places(root, entries, n)[id];
            p < n && Listed(root, entries, p) && |Places(root, entries, p)| == id
  {
    hide Listed;
    if id < |Places(root, entries, n - 1)| {
      PlaceAt(root, entries, n - 1, id);
    }
  }

  lemma AllListedIff(root: bool, entries: Entries, p: nat)
    requires Listed(root, entries, p)
    ensures NoGapBefore(entries, p) <==> forall j | OwnEntries(root) <= j < p :: Listed(root, entries, j)
  {
    hide Used;
    if forall j | OwnEntries(root) <= j < p :: Listed(root, entries, j) {
      var own := OwnEntries(root);
      assert Listed(root, entries, own);
      assert PieceStart(root, own) == 0;
      forall j | 0 <= j < p ensures Used(entries[j]) {
        if j >= own {
          assert Listed(root, entries, j);
        }
      }
    }
  }

  /** The entry that is taken out is the one that was looked up if and only if no unused
      entry stands before that. */
  lemma LookedUpIff(root: bool, entries: Entries, id: nat) returns (place: nat)
    requires |entries| % ENTRIES_PER_SECTOR == 0 && entries != [] && id < |Listing(root, entries)|
    ensures Listed(root, entries, place) && Listing(root, entries)[id] == entries[place]
    ensures SlotOf(root, id) == place <==> NoGapBefore(entries, place)
  {
    hide Listed, NoGapBefore, Listing, Places;
    ListingPlaces(root, entries);
    place := Places(root, entries, |entries|)[id];
    PlaceAt(root, entries, |entries|, id);
    ListedBounds(root, entries, place);
    PlacesAtMost(root, entries, place);
    AllListedIff(root, entries, place);
  }

  lemma ListedBounds(root: bool, entries: Entries, p: nat)
    requires Listed(root, entries, p)
    ensures OwnEntries(root) <= p < |entries| && Used(entries[p])
  {
    assert PieceStart(root, p) <= p;
  }

  // ----- the listing afterwards -------------------------------------------------------

  lemma {:induction false} PlacesBefore(root: bool, entries: Entries, k: nat, n: nat)
    requires n <= k < |entries| && forall j | 0 <= j < |entries| :: ListedAfter(root, entries, k, j)
    ensures At(Shortened(entries, k), Places(root, Shortened(entries, k), n)) == At(entries, Places(root, entries, n))
  {
    hide Listed, Shortened, At;
    if n == 0 {
      NothingAt(entries);
      NothingAt(Shortened(entries, k));
    } else {
      PlacesBefore(root, entries, k, n - 1);
      NextPlace(root, entries, k, n - 1);
      AtSnoc(entries, Places(root, entries, n - 1), n - 1);
      AtSnoc(Shortened(entries, k), Places(root, Shortened(entries, k), n - 1), n - 1);
      NoMore(Places(root, entries, n - 1));
      NoMore(Places(root, Shortened(entries, k), n - 1));
    }
  }

  lemma NothingAt(entries: Entries)
    ensures At(entries, []) == []
  {
  }

  lemma NoMore(places: seq<nat>)
    ensures places + [] == places
  {
  }

  lemma NextPlace(root: bool, entries: Entries, k: nat, j: nat)
    requires k < |entries| && j < |entries| && ListedAfter(root, entries, k, j)
    ensures |Shortened(entries, k)| == |entries|
    ensures Listed(root, Shortened(entries, k), j) <==> Listed(root, entries, if j < k then j else j + 1)
    ensures Shortened(entries, k)[j] == if j < k then entries[j] else if j + 1 < |entries| then entries[j + 1] else ZeroEntry()
  {
    ShortenedAt(entries, k, j);
  }

  function Minus(items: Entries, id: nat): Entries {
    if id < |items| then items[..id] + items[id + 1..] else items
  }

  lemma MinusLast(items: Entries, id: nat, e: seq<Byte>)
    ensures id == |items| ==> Minus(items + [e], id) == items
    ensures id < |items| ==> Minus(items + [e], id) == Minus(items, id) + [e]
  {
  }

  lemma {:induction false} PlacesAfter(root: bool, entries: Entries, k: nat, n: nat)
    requires k <= n < |entries| && Listed(root, entries, k) && forall j | 0 <= j < |entries| :: ListedAfter(root, entries, k, j)
    ensures var id := |Places(root, entries, k)|;
            && id < |Places(root, entries, n + 1)|
            && At(Shortened(entries, k), Places(root, Shortened(entries, k), n)) == Minus(At(entries, Places(root, entries, n + 1)), id)
  {
    hide Listed, Shortened, At, Minus;
    var id, r := |Places(root, entries, k)|, Shortened(entries, k);
    AtLength(entries, Places(root, entries, n));
    if n == k {
      PlacesBefore(root, entries, k, k);
      AtSnoc(entries, Places(root, entries, k), k);
      MinusLast(At(entries, Places(root, entries, k)), id, entries[k]);
    } else {
      PlacesAfter(root, entries, k, n - 1);
      NextPlace(root, entries, k, n - 1);
      AtSnoc(entries, Places(root, entries, n), n);
      AtSnoc(r, Places(root, r, n - 1), n - 1);
      MinusLast(At(entries, Places(root, entries, n)), id, entries[n]);
      NoMore(Places(root, entries, n));
      NoMore(Places(root, r, n - 1));
    }
  }

  lemma AtLength(entries: Entries, places: seq<nat>)
    ensures |At(entries, places)| == |places|
  {
  }

  /** All the places before an entry without a gap before it are listed. */
  lemma PlacesCount(root: bool, entries: Entries, k: nat)
    requires Plainly(root, entries, k)
    ensures Listed(root, entries, k) && |Places(root, entries, k)| == k - OwnEntries(root)
  {
    hide Listed, NoGapBefore, Places;
    PlainlyListed(root, entries, k);
    AllListedIff(root, entries, k);
    PlacesAtMost(root, entries, k);
  }

  lemma ListingAfter(root: bool, entries: Entries, k: nat)
    requires Plainly(root, entries, k) && NoGapBehind(root, entries, k)
    ensures Listing(root, Shortened(entries, k)) == Minus(Listing(root, entries), |Places(root, entries, k)|)
  {
    var r, last := Shortened(entries, k), |entries| - 1;
    assert k < |entries| && |entries| % ENTRIES_PER_SECTOR == 0;
    ShortenedAt(entries, k, last);
    hide *;
    ListedAfterIff(root, entries, k);
    PlacesCount(root, entries, k);
    PlacesAfter(root, entries, k, last);
    LastUnlisted(root, r);
    ListingPlaces(root, entries);
    ListingPlaces(root, r);
  }

  /** The listing of a directory that lost the entry at SlotOf(root, id), if neither before
      nor behind that an unused entry stands in the way: element id is gone. */
  lemma RemovedListing(root: bool, entries: Entries, id: nat)
    requires Plainly(root, entries, SlotOf(root, id)) && NoGapBehind(root, entries, SlotOf(root, id))
    ensures id < |Listing(root, entries)| && Listing(root, entries)[id] == entries[SlotOf(root, id)]
    ensures Listing(root, Shortened(entries, SlotOf(root, id))) == Minus(Listing(root, entries), id)
  {
    var k := SlotOf(root, id);
    assert k == OwnEntries(root) + id && k < |entries| && |entries| % ENTRIES_PER_SECTOR == 0;
    hide *;
    PlacesCount(root, entries, k);
    ListingAfter(root, entries, k);
    ListingPlaces(root, entries);
    AtLength(entries, Places(root, entries, |entries|));
    PlaceAtIs(root, entries, |entries|, k);
  }

  lemma PlainlyListed(root: bool, entries: Entries, k: nat)
    requires Plainly(root, entries, k)
    ensures Listed(root, entries, k) && NoGapBefore(entries, k)
  {
  }

  lemma LastUnlisted(root: bool, entries: Entries)
    requires entries != [] && !Used(entries[|entries| - 1])
    ensures Places(root, entries, |entries|) == Places(root, entries, |entries| - 1)
  {
    ListedUsed(root, entries, |entries| - 1);
    NoMore(Places(root, entries, |entries| - 1));
  }

  lemma ListedUsed(root: bool, entries: Entries, p: nat)
    requires p < |entries| && !Used(entries[p])
    ensures !Listed(root, entries, p)
  {
    assert PieceStart(root, p) <= p;
  }

  lemma {:induction false} PlaceAtIs(root: bool, entries: Entries, n: nat, k: nat)
    requires k < n <= |entries| && Listed(root, entries, k)
    ensures |Places(root, entries, k)| < |Places(root, entries, n)| && At(entries, Places(root, entries, n))[|Places(root, entries, k)|] == entries[k]
  {
    hide Listed;
    if n > k + 1 {
      PlaceAtIs(root, entries, n - 1, k);
    }
  }

  // ----- directories without gaps -----------------------------------------------------

  /** No used entry behind an unused one. */
  predicate Compact(entries: Entries) {
    forall i, j | 0 <= i < j < |entries| && Used(entries[j]) :: Used(entries[i])
  }

  lemma CompactIsPlain(root: bool, entries: Entries, id: nat)
    requires |entries| % ENTRIES_PER_SECTOR == 0 && Compact(entries) && id < |Listing(root, entries)|
    ensures Plainly(root, entries, SlotOf(root, id)) && NoGapBehind(root, entries, SlotOf(root, id))
  {
    hide Used, Listing;
    NothingListed(root);
    var p := LookedUpIff(root, entries, id);
    ListedBounds(root, entries, p);
    assert NoGapBefore(entries, p + 1);
  }

  lemma NothingListed(root: bool)
    ensures Listing(root, []) == []
  {
  }

  lemma ShortenedCompact(entries: Entries, k: nat)
    requires k < |entries| && Compact(entries)
    ensures Compact(Shortened(entries, k))
  {
    hide Used;
    var r := Shortened(entries, k);
    hide Shortened;
    ShortenedAt(entries, k, k);
    forall i, j | 0 <= i < j < |r| && Used(r[j]) ensures Used(r[i]) {
      ShortenedAt(entries, k, i);
      ShortenedAt(entries, k, j);
    }
  }

  lemma {:induction false} ItemsAre(entries: Entries, n: nat)
    requires n <= |entries| && (forall i | 0 <= i < n :: Used(entries[i])) && (n < |entries| ==> !Used(entries[n]))
    ensures Items(entries) == entries[..n]
  {
    hide Used;
    if n > 0 {
      ItemsAre(entries[1..], n - 1);
      assert [entries[0]] + entries[1..][..n - 1] == entries[..n];
    }
  }

  lemma BySectorOne(x: Entries)
    requires |x| == ENTRIES_PER_SECTOR
    ensures BySector(x) == Items(x) && BySector([]) == []
  {
    hide Items;
    assert x[..ENTRIES_PER_SECTOR] == x && x[ENTRIES_PER_SECTOR..] == [];
    assert Items(x) + [] == Items(x);
  }

  lemma ListingParts(x: Entries, rest: Entries)
    requires |x| == ENTRIES_PER_SECTOR
    ensures Listing(false, x + rest) == Without(Items(x), 2) + BySector(rest)
    ensures Listing(false, []) == []
  {
    hide Items, BySector;
    assert (x + rest)[..ENTRIES_PER_SECTOR] == x && (x + rest)[ENTRIES_PER_SECTOR..] == rest;
  }

  lemma TwoSectors(x: Entries, y: Entries)
    requires |x| == |y| == ENTRIES_PER_SECTOR
    ensures Listing(false, x + y) == Without(Items(x), 2) + Items(y)
  {
    hide Items, BySector, Listing;
    ListingParts(x, y);
    BySectorOne(y);
  }

  function Zeros(n: nat): Entries {
    seq(n, _ => ZeroEntry())
  }

  /** A gap does harm: with room left in the first sector, removing its only entry hides
      the entries of the second. */
  lemma GapHidesEntries(own1: seq<Byte>, own2: seq<Byte>, a: seq<Byte>, b: seq<Byte>)
    requires Used(own1) && Used(own2) && Used(a) && Used(b)
    ensures var entries := [own1, own2, a] + Zeros(13) + ([b] + Zeros(15));
            && Listing(false, entries) == [a, b]
            && Listing(false, Shortened(entries, 2)) == []
  {
    var first, second := [own1, own2, a] + Zeros(13), [b] + Zeros(15);
    var first', second' := [own1, own2] + Zeros(13) + [b], Zeros(16);
    assert !Used(ZeroEntry());
    hide Used, ZeroEntry;
    ItemsAre(first, 3);
    ItemsAre(second, 1);
    ItemsAre(first', 2);
    ItemsAre(second', 0);
    TwoSectors(first, second);
    TwoSectors(first', second');
    assert Shortened(first + second, 2) == first' + second';
  }

  // ----- names ------------------------------------------------------------------------

  const BLANK := 32
  const DOT := 46

  /** A padded field, up to its first blank. */
  function Field(bytes: seq<Byte>): seq<Byte> {
    if bytes == [] || bytes[0] == BLANK then [] else [bytes[0]] + Field(bytes[1..])
  }

  /** The name of an entry: eight bytes and, if there are any, three bytes behind a dot. */
  function EntryName(entry: seq<Byte>): seq<Byte> {
    if |entry| < 11 then []
    else
      var extension := Field(entry[8..11]);
      Field(entry[..8]) + if extension == [] then [] else [DOT] + extension
  }

  function Padded(name: seq<Byte>, n: nat): seq<Byte> {
    if |name| < n then name + seq(n - |name|, _ => 32) else name[..n]
  }

  lemma {:induction false} FieldOfPadded(name: seq<Byte>, n: nat)
    requires |name| <= n && 32 !in name
    ensures |Padded(name, n)| == n && Field(Padded(name, n)) == name
  {
    if name != [] {
      FieldOfPadded(name[1..], n - 1);
      assert Padded(name, n)[1..] == Padded(name[1..], n - 1);
    }
  }

  /** An entry stored with a name of up to eight and an extension of up to three bytes,
      padded with blanks, is listed under that name. */
  lemma StoredName(stem: seq<Byte>, extension: seq<Byte>, rest: seq<Byte>)
    requires |stem| <= 8 && |extension| <= 3 && 32 !in stem && 32 !in extension
    ensures EntryName(Padded(stem, 8) + Padded(extension, 3) + rest) == if extension == [] then stem else stem + [46] + extension
  {
    FieldOfPadded(stem, 8);
    FieldOfPadded(extension, 3);
    var entry := Padded(stem, 8) + Padded(extension, 3) + rest;
    assert entry[..8] == Padded(stem, 8) && entry[8..11] == Padded(extension, 3);
    assert stem + [] == stem;
  }

  /** The first entry with a name, or -1. */
  method Find(items: Entries, name: seq<Byte>) returns (id: int)
    ensures -1 <= id < |items|
    ensures id == -1 ==> forall i | 0 <= i < |items| :: EntryName(items[i]) != name
    ensures id != -1 ==> EntryName(items[id]) == name && forall i | 0 <= i < id :: EntryName(items[i]) != name
  {
    for i := 0 to |items|
      invariant forall j | 0 <= j < i :: EntryName(items[j]) != name
    {
      if EntryName(items[i]) == name {
        return i;
      }
    }
    return -1;
  }

  // ----- reading a directory ----------------------------------------------------------

  lemma SliceJoined(a: seq<Byte>, b: seq<Byte>, i: nat, j: nat)
    requires i <= j <= |a| + |b|
    ensures j <= |a| ==> (a + b)[i..j] == a[i..j]
    ensures |a| <= i ==> (a + b)[i..j] == b[i - |a|..j - |a|]
  {
  }

  lemma SlotsJoin(a: seq<Byte>, b: seq<Byte>)
    requires |a| % 32 == 0 && |b| % 32 == 0
    ensures Slots(a + b) == Slots(a) + Slots(b)
  {
    var n := |a| / 32;
    forall j | 0 <= j < |a + b| / 32 ensures Slots(a + b)[j] == (Slots(a) + Slots(b))[j] {
      SliceJoined(a, b, 32 * j, 32 * j + 32);
      if j >= n {
        assert 32 * j - |a| == 32 * (j - n);
      }
    }
  }

  lemma EntryAt(content: seq<Byte>, n: nat)
    requires |content| % 32 == 0 && n < |Slots(content)|
    ensures 32 * n + 32 <= |content| && Slots(content)[n] == content[32 * n..32 * n + 32]
    ensures Used(Slots(content)[n]) <==> content[32 * n] != 0 && content[32 * n] != FREE_MARK
  {
  }

  /** Reads the entries of one piece, up to the first unused one. */
  method GetDirItems(content: seq<Byte>) returns (items: Entries)
    requires |content| % 32 == 0
    ensures items == Items(Slots(content))
  {
    hide Items, Used;
    items := [];
    var i := 0;
    ghost var entries, n := Slots(content), 0;
    while i < |content|
      invariant 0 <= n <= |entries| && i == 32 * n && items == entries[..n]
      invariant forall j | 0 <= j < n :: Used(entries[j])
    {
      EntryAt(content, n);
      if content[i] == 0 || content[i] == FREE_MARK {
        break;
      }
      items := items + [content[i..i + 32]];
      i, n := i + 32, n + 1;
    }
    if n < |entries| {
      EntryAt(content, n);
    }
    ItemsAre(entries, n);
  }

  lemma BySectorParts(x: Entries, rest: Entries)
    requires |x| == ENTRIES_PER_SECTOR
    ensures BySector(x + rest) == Items(x) + BySector(rest)
  {
    hide Items;
    assert (x + rest)[..ENTRIES_PER_SECTOR] == x && (x + rest)[ENTRIES_PER_SECTOR..] == rest;
  }

  lemma {:induction false} BySectorSnoc(entries: Entries, sector: Entries)
    requires |entries| % ENTRIES_PER_SECTOR == 0 && |sector| == ENTRIES_PER_SECTOR
    ensures BySector(entries + sector) == BySector(entries) + Items(sector)
  {
    hide Items, BySector;
    BySectorOne(sector);
    if entries == [] {
      NoEntries(Items(sector));
      NoEntries(sector);
    } else {
      var x, rest := entries[..ENTRIES_PER_SECTOR], entries[ENTRIES_PER_SECTOR..];
      assert entries == x + rest;
      BySectorSnoc(rest, sector);
      BySectorParts(x, rest);
      JoinTwo(x, rest, sector);
      BySectorParts(x, rest + sector);
      JoinTwo(Items(x), BySector(rest), Items(sector));
    }
  }

  lemma NoEntries(a: Entries)
    ensures [] + a == a == a + []
  {
  }

  /** One more sector adds its entries, the first one without its own two. */
  lemma ListingSnoc(entries: Entries, sector: Entries)
    requires |entries| % ENTRIES_PER_SECTOR == 0 && |sector| == ENTRIES_PER_SECTOR
    ensures Listing(false, entries + sector) == Listing(false, entries) + if entries == [] then Without(Items(sector), 2) else Items(sector)
  {
    hide Items, BySector, Listing, Without;
    if entries == [] {
      BySectorOne(sector);
      ListingParts(sector, []);
      NoEntries(sector);
      NoEntries(Without(Items(sector), 2));
    } else {
      var x, rest := entries[..ENTRIES_PER_SECTOR], entries[ENTRIES_PER_SECTOR..];
      assert entries == x + rest;
      BySectorSnoc(rest, sector);
      ListingParts(x, rest);
      JoinTwo(x, rest, sector);
      ListingParts(x, rest + sector);
      JoinTwo(Without(Items(x), 2), BySector(rest), Items(sector));
    }
  }

  ghost function EntriesOf(image: seq<Sector>, starts: seq<int>): Entries
    requires OnDisk(image, Lbas(starts))
  {
    Slots(Content(image, Lbas(starts)))
  }

  lemma StartsNext(image: seq<Sector>, starts: seq<int>, i: nat)
    requires OnDisk(image, Lbas(starts)) && i < |starts|
    ensures Lbas(starts[..i + 1]) == Lbas(starts[..i]) + [starts[i] + 31]
    ensures OnDisk(image, Lbas(starts[..i])) && OnDisk(image, Lbas(starts[..i + 1])) && 0 <= starts[i] + 31 < |image|
  {
    assert Lbas(starts)[i] == starts[i] + 31;
    assert Lbas(starts[..i + 1]) == Lbas(starts)[..i + 1] && Lbas(starts[..i]) == Lbas(starts)[..i];
  }

  lemma EntriesNext(image: seq<Sector>, starts: seq<int>, i: nat)
    requires OnDisk(image, Lbas(starts)) && i < |starts|
    ensures OnDisk(image, Lbas(starts[..i])) && OnDisk(image, Lbas(starts[..i + 1])) && 0 <= starts[i] + 31 < |image|
    ensures EntriesOf(image, starts[..i + 1]) == EntriesOf(image, starts[..i]) + Slots(image[starts[i] + 31])
    ensures |EntriesOf(image, starts[..i])| == ENTRIES_PER_SECTOR * i && |Slots(image[starts[i] + 31])| == ENTRIES_PER_SECTOR
  {
    StartsNext(image, starts, i);
    hide Content, Slots, OnDisk, Lbas;
    var lba := starts[i] + 31;
    SectorNext(image, Lbas(starts[..i]), lba);
    SlotCount(Content(image, Lbas(starts[..i])));
    SlotCount(image[lba]);
  }

  lemma SectorNext(image: seq<Sector>, lbas: seq<int>, lba: nat)
    requires OnDisk(image, lbas) && OnDisk(image, lbas + [lba]) && lba < |image|
    ensures Slots(Content(image, lbas + [lba])) == Slots(Content(image, lbas)) + Slots(image[lba])
    ensures |Content(image, lbas)| == 512 * |lbas|
  {
    hide Content, Slots;
    OneSector(image, lba);
    ContentAppend(image, lbas, [lba]);
    ContentLength(image, lbas);
    SlotsJoin(Content(image, lbas), image[lba]);
  }

  lemma SlotCount(bytes: seq<Byte>)
    ensures |Slots(bytes)| == |bytes| / 32
  {
  }

  lemma OneSector(image: seq<Sector>, lba: nat)
    requires lba < |image|
    ensures OnDisk(image, [lba]) && Content(image, [lba]) == image[lba]
  {
  }

  lemma RootListing(entries: Entries)
    ensures Listing(true, entries) == if |Items(entries)| > 0 then Items(entries)[1..] else []
  {
    hide Items;
  }

  /** What is listed in a directory: the root in one piece, any other sector by sector. */
  method ReadListing(v: Volume, root: bool, starts: seq<int>) returns (items: Entries)
    requires OnDisk(v.image, Lbas(starts))
    ensures items == Listing(root, EntriesOf(v.image, starts))
  {
    hide Items, Content, Slots, OnDisk, BySector, Listing, Without, Lbas;
    if root {
      var content := v.ReadAll(starts);
      ContentLength(v.image, Lbas(starts));
      items := GetDirItems(content);
      RootListing(Slots(content));
      items := if |items| > 0 then items[1..] else [];
    } else {
      items := RetrieveBySector(v, starts);
    }
  }

  method RetrieveBySector(v: Volume, starts: seq<int>) returns (items: Entries)
    requires OnDisk(v.image, Lbas(starts))
    ensures items == Listing(false, EntriesOf(v.image, starts))
  {
    hide Items, Content, Slots, OnDisk, BySector, Listing, EntriesOf, Without;
    items := [];
    NothingRead(v.image, starts);
    for i := 0 to |starts|
      invariant OnDisk(v.image, Lbas(starts[..i])) && items == Listing(false, EntriesOf(v.image, starts[..i]))
    {
      EntriesNext(v.image, starts, i);
      ListingSnoc(EntriesOf(v.image, starts[..i]), Slots(v.image[starts[i] + 31]));
      var content := GetDirItems(v.ReadFromFs(starts[i]));
      NoneWithout(content);
      items := AppendFrom(items, content, if i == 0 then 2 else 0);
    }
    assert starts[..|starts|] == starts;
  }

  lemma NoneWithout(items: Entries)
    ensures Without(items, 0) == items
  {
  }

  method AppendFrom(items0: Entries, content: Entries, from: nat) returns (items: Entries)
    ensures items == items0 + Without(content, from)
  {
    items := items0;
    var j := from;
    while j < |content|
      invariant from <= j && (j == from || j <= |content|)
      invariant items == items0 + if j <= |content| then content[from..j] else []
    {
      items := items + [content[j]];
      j := j + 1;
    }
  }

  lemma NothingRead(image: seq<Sector>, starts: seq<int>)
    ensures OnDisk(image, Lbas(starts[..0])) && Listing(false, EntriesOf(image, starts[..0])) == []
  {
  }

  // ----- removing a directory ---------------------------------------------------------

  lemma ListedWithin(root: bool, entries: Entries, id: nat)
    requires |entries| % ENTRIES_PER_SECTOR == 0 && id < |Listing(root, entries)|
    ensures SlotOf(root, id) < |entries|
  {
    hide Listing, Listed;
    NothingListed(root);
    ListingPlaces(root, entries);
    PlacesAtMost(root, entries, |entries|);
  }

  lemma ParentEntries(tab: seq<int>, image: seq<Sector>, root: bool, parent: seq<int>)
    requires IsTable(tab) && |image| == DISK_SECTORS && (!root ==> IsChain(tab, parent))
    ensures var starts := ParentStarts(root, parent);
            && starts != [] && OnDisk(image, Lbas(starts))
            && |Content(image, Lbas(starts))| == 512 * |starts| && |EntriesOf(image, starts)| == ENTRIES_PER_SECTOR * |starts|
  {
    hide Content;
    ContentLength(image, Lbas(ParentStarts(root, parent)));
  }

  // ----- directories by their first cluster -------------------------------------------

  /** The entries of the root, or of the directory with the clusters given. */
  ghost function Directory(image: seq<Sector>, root: bool, chain: seq<int>): Entries {
    if OnDisk(image, Lbas(ParentStarts(root, chain))) then EntriesOf(image, ParentStarts(root, chain)) else []
  }

  /** What is listed for a directory that begins at `start`.  The root is known by the
      number 19 of its first sector, and so is a directory whose first cluster is 19. */
  ghost function Shown(image: seq<Sector>, start: int, chain: seq<int>): Entries {
    Listing(start == 19, Directory(image, start == 19, chain))
  }

  lemma DirectoryIs(tab: seq<int>, image: seq<Sector>, root: bool, chain: seq<int>)
    requires IsTable(tab) && |image| == DISK_SECTORS && (!root ==> IsChain(tab, chain))
    ensures var starts := ParentStarts(root, chain);
            && starts != [] && OnDisk(image, Lbas(starts)) && Directory(image, root, chain) == EntriesOf(image, starts)
            && |Content(image, Lbas(starts))| == 512 * |starts| && |Directory(image, root, chain)| == ENTRIES_PER_SECTOR * |starts|
  {
    hide Content, EntriesOf;
    ParentEntries(tab, image, root, chain);
  }

  /** Lists the directory that begins at `start`. */
  method RetrieveFolders(v: Volume, start: int, ghost chain: seq<int>) returns (items: Entries)
    requires v.Valid() && (start != 19 ==> IsChain(v.intFatTable, chain) && chain[0] == start)
    ensures items == Shown(v.image, start, chain)
  {
    hide Listing, EntriesOf, Directory, IsChain, Content;
    DirectoryIs(v.intFatTable, v.image, start == 19, chain);
    var starts;
    if start == 19 {
      starts := ParentStarts(true, []);
      assert starts == ParentStarts(true, chain);
    } else {
      starts := v.RetrieveSectors(start, chain);
    }
    items := ReadListing(v, start == 19, starts);
  }

  lemma EntryTaken(image0: seq<Sector>, image: seq<Sector>, starts: seq<int>, k: nat)
    requires SlotRemoved(image0, image, Lbas(starts), k)
    ensures k < |EntriesOf(image0, starts)| && EntriesOf(image, starts) == Shortened(EntriesOf(image0, starts), k)
  {
    hide Content, Slots, RemoveSlot, Shortened;
    ContentLength(image0, Lbas(starts));
    SlotCount(Content(image0, Lbas(starts)));
    RemovedSlotList(Content(image0, Lbas(starts)), k);
    ShortenedIs(EntriesOf(image0, starts), k);
  }

  /** What the parent's entries are when one was taken out, and what is then listed. */
  lemma EntryGone(image0: seq<Sector>, image: seq<Sector>, root: bool, starts: seq<int>, id: nat)
    requires SlotRemoved(image0, image, Lbas(starts), SlotOf(root, id))
    requires |Content(image0, Lbas(starts))| == 512 * |starts| && id < |Listing(root, EntriesOf(image0, starts))|
    ensures SlotOf(root, id) < |EntriesOf(image0, starts)|
    ensures EntriesOf(image, starts) == Shortened(EntriesOf(image0, starts), SlotOf(root, id))
    ensures Plainly(root, EntriesOf(image0, starts), SlotOf(root, id)) && NoGapBehind(root, EntriesOf(image0, starts), SlotOf(root, id)) ==>
              Listing(root, EntriesOf(image, starts)) == Minus(Listing(root, EntriesOf(image0, starts)), id)
    ensures Compact(EntriesOf(image0, starts)) ==>
              Compact(EntriesOf(image, starts)) && Listing(root, EntriesOf(image, starts)) == Minus(Listing(root, EntriesOf(image0, starts)), id)
  {
    hide Content, Listing, NoGapBehind, NoGapBefore, Slots, RemoveSlot, Compact, Minus, Shortened;
    var before, k := EntriesOf(image0, starts), SlotOf(root, id);
    SlotCount(Content(image0, Lbas(starts)));
    ListedWithin(root, before, id);
    EntryTaken(image0, image, starts, k);
    if Compact(before) {
      ShortenedCompact(before, k);
      CompactIsPlain(root, before, id);
    }
    if Plainly(root, before, k) && NoGapBehind(root, before, k) {
      RemovedListing(root, before, id);
    }
  }

  lemma ShortenedIs(entries: Entries, k: nat)
    requires k < |entries|
    ensures Shortened(entries, k) == entries[..k] + entries[k + 1..] + [seq(32, _ => 0)]
  {
  }

  /** The first entry listed under a name. */
  predicate FirstNamed(items: Entries, name: seq<Byte>, i: nat) {
    i < |items| && EntryName(items[i]) == name && forall j | 0 <= j < i :: EntryName(items[j]) != name
  }

  function Upper(root: bool, upperFirst: int): int {
    if root then 19 else upperFirst
  }

  /** What a removal that succeeded did to the entries of the parent, and to its listing. */
  ghost predicate TakenOut(before: Entries, after: Entries, root: bool, id: nat) {
    && SlotOf(root, id) < |before| == |after|
    && (forall j | 0 <= j < SlotOf(root, id) :: after[j] == before[j])
    && (forall j | SlotOf(root, id) <= j < |after| - 1 :: after[j] == before[j + 1])
    && after[|after| - 1] == ZeroEntry()
  }

  ghost predicate Unlisted(before: Entries, after: Entries, root: bool, id: nat) {
    && (Plainly(root, before, SlotOf(root, id)) && NoGapBehind(root, before, SlotOf(root, id)) ==>
          Listing(root, after) == Minus(Listing(root, before), id))
    && (Compact(before) ==> Compact(after) && Listing(root, after) == Minus(Listing(root, before), id))
  }

  /** Removes a directory by its name.  The entry taken out of the parent is the first one
      listed under the name: the listing loses that element, and nothing else changes in
      it, if no unused entry stands in the way of either reading (as in every directory
      without gaps, which stays one).  A parent whose first cluster is 19 is the exception:
      the name is looked up in the root, an entry of the parent is taken out, and what was
      removed is listed in the root as before. */
  method RemoveDirectory(v: Volume, first: int, root: bool, upperFirst: int, name: seq<Byte>, ghost chain: seq<int>, ghost parent: seq<int>)
    returns (err: NosError, ghost id: nat)
    requires v.Valid()
    requires first != -1 ==> IsChain(v.intFatTable, chain) && chain[0] == first
    requires !root ==> IsChain(v.intFatTable, parent) && parent[0] == upperFirst && Disjoint(chain, parent)
    requires first != -1 ==> exists i :: FirstNamed(Shown(v.image, Upper(root, upperFirst), parent), name, i)
    requires !root && upperFirst == 19 ==>
      forall i | FirstNamed(Shown(v.image, 19, parent), name, i) :: SlotOf(false, i) < |Directory(v.image, false, parent)|
    modifies v
    ensures v.Valid()
    ensures err == (if first == -1 then FileNotFound else if old(Shown(v.image, first, chain)) != [] then DirectoryNotEmpty else Success)
    ensures err != Success ==> unchanged(v)
    ensures first == 19 && (root || upperFirst == 19) ==> err == DirectoryNotEmpty
    ensures err == Success ==>
      && v.intFatTable == Freed(old(v.intFatTable), chain) && v.Saved()
      && DirectoryGone(old(v.image), v.image, chain, ParentStarts(root, parent), SlotOf(root, id))
    ensures err == Success ==>
      && FirstNamed(old(Shown(v.image, Upper(root, upperFirst), parent)), name, id)
      && TakenOut(old(Directory(v.image, root, parent)), Directory(v.image, root, parent), root, id)
      && (root || upperFirst != 19 ==> Unlisted(old(Directory(v.image, root, parent)), Directory(v.image, root, parent), root, id))
      && (!root && upperFirst == 19 ==> Shown(v.image, 19, parent) == old(Shown(v.image, 19, parent)))
  {
    hide Content, Listing, Directory, EntryName, Freed, IsChain, SlotRemoved, FirstNamed, TakenOut, Unlisted, OnDisk, DirectoryGone;
    id := 0;
    DirectoryIs(v.intFatTable, v.image, root, parent);
    DirectoryIs(v.intFatTable, v.image, true, parent);
    if first == -1 {
      err := v.Rmdir(first, false, root, upperFirst, 0, chain, parent);
      return;
    }
    var itemsFolder := RetrieveFolders(v, first, chain);
    SameRoot(v.image, chain, parent, name);
    if itemsFolder != [] {
      err := v.Rmdir(first, false, root, upperFirst, 0, chain, parent);
      return;
    }
    var items := RetrieveFolders(v, Upper(root, upperFirst), parent);
    var idRemove := Find(items, name);
    FoundFirst(items, name, idRemove);
    id := idRemove;
    WithinParent(v.image, root, upperFirst, parent, id);
    err := v.Rmdir(first, true, root, upperFirst, idRemove, chain, parent);
    RemovalDone(old(v.image), v.image, chain, root, upperFirst, parent, id, old(v.intFatTable));
  }

  lemma SameRoot(image: seq<Sector>, chain: seq<int>, parent: seq<int>, name: seq<Byte>)
    ensures Shown(image, 19, chain) == Shown(image, 19, parent)
    ensures (exists i :: FirstNamed(Shown(image, 19, parent), name, i)) ==> Shown(image, 19, chain) != []
  {
    hide Listing, EntriesOf, EntryName, OnDisk;
    assert ParentStarts(true, chain) == ParentStarts(true, parent);
  }

  lemma FoundFirst(items: Entries, name: seq<Byte>, id: int)
    requires exists i :: FirstNamed(items, name, i)
    requires -1 <= id < |items|
    requires id == -1 ==> forall i | 0 <= i < |items| :: EntryName(items[i]) != name
    requires id != -1 ==> EntryName(items[id]) == name && forall i | 0 <= i < id :: EntryName(items[i]) != name
    ensures id >= 0 && FirstNamed(items, name, id)
  {
    hide EntryName;
  }

  /** The entry to be taken out lies in the parent. */
  lemma WithinParent(image: seq<Sector>, root: bool, upperFirst: int, parent: seq<int>, id: nat)
    requires |Directory(image, root, parent)| == ENTRIES_PER_SECTOR * |ParentStarts(root, parent)|
    requires id < |Shown(image, Upper(root, upperFirst), parent)|
    requires !root && upperFirst == 19 ==> SlotOf(false, id) < |Directory(image, false, parent)|
    ensures 32 * (SlotOf(root, id) + 1) <= 512 * |ParentStarts(root, parent)|
  {
    hide Directory, Listing;
    if root || upperFirst != 19 {
      ListedWithin(root, Directory(image, root, parent), id);
    }
  }

  lemma RemovalDone(image0: seq<Sector>, image: seq<Sector>, chain: seq<int>, root: bool, upperFirst: int, parent: seq<int>, id: nat, tab: seq<int>)
    requires IsTable(tab) && IsChain(tab, chain) && (!root ==> IsChain(tab, parent) && Disjoint(chain, parent))
    requires DirectoryGone(image0, image, chain, ParentStarts(root, parent), SlotOf(root, id))
    requires id < |Shown(image0, Upper(root, upperFirst), parent)|
    ensures TakenOut(Directory(image0, root, parent), Directory(image, root, parent), root, id)
    ensures root || upperFirst != 19 ==> Unlisted(Directory(image0, root, parent), Directory(image, root, parent), root, id)
    ensures !root && upperFirst == 19 ==> Shown(image, 19, parent) == Shown(image0, 19, parent)
  {
    hide Content, Listing, EntriesOf, SlotRemoved, IsChain, TakenOut, Unlisted, Disjoint;
    var starts := ParentStarts(root, parent);
    DirectoryIs(tab, image0, root, parent);
    DirectoryIs(tab, image, root, parent);
    EntryTaken(image0, image, starts, SlotOf(root, id));
    TakenOutIs(EntriesOf(image0, starts), root, id);
    if root || upperFirst != 19 {
      EntryGone(image0, image, root, starts, id);
      UnlistedIs(EntriesOf(image0, starts), EntriesOf(image, starts), root, id);
    } else {
      RootKept(image0, image, chain, parent, SlotOf(root, id), tab);
    }
  }

  lemma TakenOutIs(before: Entries, root: bool, id: nat)
    requires SlotOf(root, id) < |before|
    ensures TakenOut(before, Shortened(before, SlotOf(root, id)), root, id)
  {
  }

  lemma UnlistedIs(before: Entries, after: Entries, root: bool, id: nat)
    requires Plainly(root, before, SlotOf(root, id)) && NoGapBehind(root, before, SlotOf(root, id)) ==>
               Listing(root, after) == Minus(Listing(root, before), id)
    requires Compact(before) ==> Compact(after) && Listing(root, after) == Minus(Listing(root, before), id)
    ensures Unlisted(before, after, root, id)
  {
    hide Listing, Compact, NoGapBehind, Plainly, Minus;
  }

  /** Below the root nothing of the root is touched. */
  lemma RootKept(image0: seq<Sector>, image: seq<Sector>, chain: seq<int>, parent: seq<int>, k: nat, tab: seq<int>)
    requires IsTable(tab) && IsChain(tab, chain) && IsChain(tab, parent)
    requires DirectoryGone(image0, image, chain, parent, k)
    ensures Shown(image, 19, parent) == Shown(image0, 19, parent)
  {
    hide Content, Listing, SlotRemoved, Slots;
    var lbas := Lbas(ParentStarts(true, parent));
    forall i | 0 <= i < |lbas| ensures image[lbas[i]] == image0[lbas[i]] {
      assert lbas[i] == 19 + i;
      assert lbas[i] !in Lbas(chain) && lbas[i] !in Lbas(parent);
    }
    ContentFrame(image0, image, lbas);
  }
}
