/** Cluster chains: the linked lists that the integer allocation table encodes. */
module FatChain {

  const FIRST_CLUSTER := 2
  const CLUSTER_LIMIT := 2849   // one past the last data cluster of a 2880-sector disk
  const FREE_SEARCH_LIMIT := 2848
  const FIRST_END_MARK := 4088
  const END_MARK := 4095

  predicate IsEndMark(x: int) {
    FIRST_END_MARK <= x <= END_MARK
  }

  predicate IsCluster(x: int) {
    FIRST_CLUSTER <= x < CLUSTER_LIMIT
  }

  predicate IsTable(tab: seq<int>) {
    CLUSTER_LIMIT <= |tab|
  }

  /** c is the complete chain that starts at c[0]: every entry names the next
      cluster and the last one holds an end mark. */
  ghost predicate IsChain(tab: seq<int>, c: seq<int>)
    requires IsTable(tab)
  {
    && c != []
    && (forall i | 0 <= i < |c| :: IsCluster(c[i]))
    && (forall i {:trigger tab[c[i]]} | 0 <= i < |c| - 1 :: tab[c[i]] == c[i + 1])
    && IsEndMark(tab[c[|c| - 1]])
  }

  ghost predicate NoRepeats(c: seq<int>) {
    forall i, j | 0 <= i < j < |c| :: c[i] != c[j]
  }

  ghost predicate Disjoint(c: seq<int>, d: seq<int>) {
    forall i, j | 0 <= i < |c| && 0 <= j < |d| :: c[i] != d[j]
  }

  lemma EndMarkIsLast(tab: seq<int>, c: seq<int>, i: nat)
    requires IsTable(tab) && IsChain(tab, c) && i < |c|
    ensures IsEndMark(tab[c[i]]) <==> i == |c| - 1
  {
    if i < |c| - 1 {
      assert tab[c[i]] == c[i + 1];
    }
  }

  /** Two chains that meet anywhere are the same from there on. */
  lemma {:induction false} ChainsMeet(tab: seq<int>, c: seq<int>, i: nat, d: seq<int>, j: nat)
    requires IsTable(tab) && IsChain(tab, c) && IsChain(tab, d)
    requires i < |c| && j < |d| && c[i] == d[j]
    ensures c[i..] == d[j..]
    decreases |c| - i
  {
    EndMarkIsLast(tab, c, i);
    EndMarkIsLast(tab, d, j);
    if i + 1 < |c| && j + 1 < |d| {
      ChainsMeet(tab, c, i + 1, d, j + 1);
      assert c[i..] == [c[i]] + c[i + 1..] && d[j..] == [d[j]] + d[j + 1..];
    } else {
      assert c[i..] == [c[i]] && d[j..] == [d[j]];
    }
  }

  /** A terminated chain visits no cluster twice, so walking it terminates. */
  lemma {:induction false} ChainNoRepeats(tab: seq<int>, c: seq<int>)
    requires IsTable(tab) && IsChain(tab, c)
    ensures NoRepeats(c)
  {
    forall i, j | 0 <= i < j < |c| ensures c[i] != c[j] {
      if c[i] == c[j] {
        ChainsMeet(tab, c, i, c, j);
        assert false;
      }
    }
  }

  /** The entry of the last cluster ends a chain exactly if it is one of 4088 to 4095. */
  lemma EndsChainIff(tab: seq<int>, c: seq<int>, mark: int)
    requires IsTable(tab) && IsChain(tab, c)
    ensures IsChain(tab[c[|c| - 1] := mark], c) <==> 4088 <= mark <= 4095
  {
    ChainNoRepeats(tab, c);
    var tab', last := tab[c[|c| - 1] := mark], c[|c| - 1];
    forall i | 0 <= i < |c| - 1 ensures tab'[c[i]] == c[i + 1] {
      assert c[i] != last && tab[c[i]] == c[i + 1];
    }
  }

  /** The first cluster determines the chain. */
  lemma ChainUnique(tab: seq<int>, c: seq<int>, d: seq<int>)
    requires IsTable(tab) && IsChain(tab, c) && IsChain(tab, d) && c[0] == d[0]
    ensures c == d
  {
    ChainsMeet(tab, c, 0, d, 0);
    assert c[0..] == c && d[0..] == d;
  }

  /** The clusters that the allocator may hand out. */
  ghost function FreeSet(tab: seq<int>): set<int>
    requires IsTable(tab)
  {
    set i | 0 <= i < FREE_SEARCH_LIMIT && tab[i] == 0
  }

  /** Clusters that were free, are pairwise distinct, and lie in the data area. */
  ghost predicate Fresh(tab: seq<int>, taken: seq<int>)
    requires IsTable(tab)
  {
    && NoRepeats(taken)
    && forall i | 0 <= i < |taken| :: IsCluster(taken[i]) && taken[i] < FREE_SEARCH_LIMIT && tab[taken[i]] == 0
  }

  /** The table after `back` was linked to each of `taken` in turn, every one of them
      being closed with an end mark.  Each link overwrites the one before. */
  ghost function Linked(tab: seq<int>, back: int, taken: seq<int>): (r: seq<int>)
    requires IsTable(tab) && IsCluster(back)
    requires forall i | 0 <= i < |taken| :: IsCluster(taken[i])
    ensures |r| == |tab|
  {
    if taken == [] then tab
    else
      var last := taken[|taken| - 1];
      assert IsCluster(last);
      Linked(tab, back, taken[..|taken| - 1])[back := last][last := END_MARK]
  }

  lemma {:induction false} LinkedAt(tab: seq<int>, back: int, taken: seq<int>, x: nat)
    requires IsTable(tab) && IsCluster(back) && x < |tab|
    requires forall i | 0 <= i < |taken| :: IsCluster(taken[i]) && taken[i] != back
    ensures Linked(tab, back, taken)[x] ==
            if x in taken then END_MARK
            else if x == back && taken != [] then taken[|taken| - 1]
            else tab[x]
  {
    if taken != [] {
      LinkedAt(tab, back, taken[..|taken| - 1], x);
      assert taken == taken[..|taken| - 1] + [taken[|taken| - 1]];
    }
  }

  /** The chain a file owns after its tail was linked to each of `taken` in turn:
      only the last link survives. */
  ghost function Grown(c: seq<int>, taken: seq<int>): seq<int> {
    if taken == [] then c else c + [taken[|taken| - 1]]
  }

  lemma {:induction false} FreshApart(tab: seq<int>, c: seq<int>, taken: seq<int>)
    requires IsTable(tab) && IsChain(tab, c) && Fresh(tab, taken)
    ensures Disjoint(c, taken)
  {
    forall i, j | 0 <= i < |c| && 0 <= j < |taken| ensures c[i] != taken[j] {
      assert tab[c[i]] != 0 by {
        if i < |c| - 1 { assert tab[c[i]] == c[i + 1]; }
      }
    }
  }

  lemma {:induction false} LinkingGrowsChain(tab: seq<int>, c: seq<int>, taken: seq<int>)
    requires IsTable(tab) && IsChain(tab, c) && Fresh(tab, taken)
    ensures IsChain(Linked(tab, c[|c| - 1], taken), Grown(c, taken))
  {
    if taken == [] { return; }
    var back := c[|c| - 1];
    var after, grown := Linked(tab, back, taken), Grown(c, taken);
    FreshApart(tab, c, taken);
    ChainNoRepeats(tab, c);
    forall i | 0 <= i < |grown| - 1 ensures after[grown[i]] == grown[i + 1] {
      assert grown[i] == c[i];
      LinkedAt(tab, back, taken, c[i]);
    }
    LinkedAt(tab, back, taken, taken[|taken| - 1]);
  }

  lemma {:induction false} LinkingKeepsChain(tab: seq<int>, c: seq<int>, taken: seq<int>, d: seq<int>)
    requires IsTable(tab) && IsChain(tab, c) && Fresh(tab, taken)
    requires IsChain(tab, d) && Disjoint(c, d)
    ensures IsChain(Linked(tab, c[|c| - 1], taken), d) && Disjoint(Grown(c, taken), d)
  {
    FreshApart(tab, d, taken);
    FreshApart(tab, c, taken);
    forall i | 0 <= i < |d| ensures Linked(tab, c[|c| - 1], taken)[d[i]] == tab[d[i]] {
      LinkedAt(tab, c[|c| - 1], taken, d[i]);
    }
  }

  /** A cluster that is still free after the linking can be taken next. */
  lemma {:induction false} NextFresh(tab: seq<int>, c: seq<int>, taken: seq<int>, x: int)
    requires IsTable(tab) && IsChain(tab, c) && Fresh(tab, taken)
    requires IsCluster(x) && x in FreeSet(Linked(tab, c[|c| - 1], taken))
    ensures Fresh(tab, taken + [x])
    ensures Linked(tab, c[|c| - 1], taken + [x]) == Linked(tab, c[|c| - 1], taken)[c[|c| - 1] := x][x := END_MARK]
  {
    FreshApart(tab, c, taken);
    LinkedAt(tab, c[|c| - 1], taken, x);
    assert tab[c[|c| - 1]] != 0;
    assert (taken + [x])[..|taken|] == taken;
  }

  lemma OneFresh(tab: seq<int>, c: seq<int>, x: int)
    requires IsTable(tab) && IsChain(tab, c) && IsCluster(x) && x in FreeSet(tab)
    ensures Fresh(tab, [x]) && x != c[|c| - 1]
    ensures Linked(tab, c[|c| - 1], [x]) == tab[c[|c| - 1] := x][x := END_MARK]
  {
    NextFresh(tab, c, [], x);
    assert [] + [x] == [x];
  }

  lemma ChainThenFresh(tab: seq<int>, c: seq<int>, taken: seq<int>)
    requires IsTable(tab) && IsChain(tab, c) && Fresh(tab, taken)
    ensures NoRepeats(c + taken)
    ensures forall i | 0 <= i < |c + taken| :: IsCluster((c + taken)[i])
  {
    ChainNoRepeats(tab, c);
    FreshApart(tab, c, taken);
  }

  /** The files of a volume: terminated chains that share no cluster. */
  ghost predicate Layout(tab: seq<int>, files: set<seq<int>>)
    requires IsTable(tab)
  {
    && (forall c | c in files :: IsChain(tab, c))
    && (forall c, d | c in files && d in files && c != d :: Disjoint(c, d))
  }

  /** Every allocated cluster belongs to some file. */
  ghost predicate NoLeak(tab: seq<int>, files: set<seq<int>>)
    requires IsTable(tab)
  {
    forall x | IsCluster(x) && tab[x] != 0 :: Owned(files, x)
  }

  ghost predicate Owned(files: set<seq<int>>, x: int) {
    exists c :: c in files && x in c
  }

  /** Growing one file keeps all chains terminated and pairwise disjoint. */
  lemma {:induction false} LinkingKeepsLayout(tab: seq<int>, files: set<seq<int>>, c: seq<int>, taken: seq<int>)
    requires IsTable(tab) && Layout(tab, files) && c in files && Fresh(tab, taken)
    ensures Layout(Linked(tab, c[|c| - 1], taken), files - {c} + {Grown(c, taken)})
  {
    LinkingGrowsChain(tab, c, taken);
    forall d | d in files - {c}
      ensures IsChain(Linked(tab, c[|c| - 1], taken), d) && Disjoint(Grown(c, taken), d) && Disjoint(d, Grown(c, taken))
    {
      LinkingKeepsChain(tab, c, taken, d);
    }
  }

  /** Linking takes exactly the chosen clusters out of the free set. */
  lemma {:induction false} LinkingTakesFree(tab: seq<int>, c: seq<int>, taken: seq<int>)
    requires IsTable(tab) && IsChain(tab, c) && Fresh(tab, taken)
    ensures FreeSet(Linked(tab, c[|c| - 1], taken)) == FreeSet(tab) - (set x | x in taken)
    ensures |FreeSet(Linked(tab, c[|c| - 1], taken))| == |FreeSet(tab)| - |taken|
  {
    var after := Linked(tab, c[|c| - 1], taken);
    FreshApart(tab, c, taken);
    forall x | 0 <= x < FREE_SEARCH_LIMIT ensures x in FreeSet(after) <==> x in FreeSet(tab) && x !in taken {
      LinkedAt(tab, c[|c| - 1], taken, x);
      if x == c[|c| - 1] { assert tab[x] != 0; }
    }
    var gone := set x | x in taken;
    SizeOfDistinct(taken);
    assert gone <= FreeSet(tab);
  }

  lemma {:induction false} SizeOfDistinct(s: seq<int>)
    requires NoRepeats(s)
    ensures |set x | x in s| == |s|
  {
    if s != [] {
      var front, last := s[..|s| - 1], s[|s| - 1];
      SizeOfDistinct(front);
      assert s == front + [last];
      assert (set x | x in s) == (set x | x in front) + {last};
      assert last !in front;
    }
  }

  /** No cluster is lost if and only if at most one cluster was linked: each further
      link orphans the cluster linked before it. */
  lemma {:induction false} LinkingLeaksIff(tab: seq<int>, files: set<seq<int>>, c: seq<int>, taken: seq<int>)
    requires IsTable(tab) && Layout(tab, files) && c in files && Fresh(tab, taken)
    requires NoLeak(tab, files)
    ensures NoLeak(Linked(tab, c[|c| - 1], taken), files - {c} + {Grown(c, taken)}) <==> |taken| <= 1
  {
    var back := c[|c| - 1];
    var after, grown := Linked(tab, back, taken), files - {c} + {Grown(c, taken)};
    FreshApart(tab, c, taken);
    if |taken| <= 1 {
      forall x | IsCluster(x) && after[x] != 0 ensures Owned(grown, x) {
        LinkedAt(tab, back, taken, x);
        if x in taken || x in c {
          assert x in Grown(c, taken);
          assert Grown(c, taken) in grown;
        } else {
          assert tab[x] != 0 && Owned(files, x);
          var d :| d in files && x in d;
          assert d in grown;
        }
      }
    } else {
      var lost := taken[0];
      LinkedAt(tab, back, taken, lost);
      assert after[lost] != 0;
      forall d | d in grown ensures lost !in d {
        if d == Grown(c, taken) {
          assert lost != taken[|taken| - 1];
        } else {
          FreshApart(tab, d, taken);
        }
      }
      assert !Owned(grown, lost);
    }
  }

  /** The table after every cluster of c was marked free. */
  ghost function Freed(tab: seq<int>, c: seq<int>): (r: seq<int>)
    requires IsTable(tab)
    requires forall i | 0 <= i < |c| :: IsCluster(c[i])
    ensures |r| == |tab|
  {
    seq(|tab|, x requires 0 <= x < |tab| => if x in c then 0 else tab[x])
  }

  /** Freeing one file returns exactly its clusters and leaves every other chain alone. */
  lemma {:induction false} FreeingKeepsLayout(tab: seq<int>, files: set<seq<int>>, c: seq<int>)
    requires IsTable(tab) && Layout(tab, files) && c in files
    ensures Layout(Freed(tab, c), files - {c})
    ensures NoLeak(tab, files) ==> NoLeak(Freed(tab, c), files - {c})
    ensures FreeSet(Freed(tab, c)) == FreeSet(tab) + set x | x in c && x < FREE_SEARCH_LIMIT
  {
    var after := Freed(tab, c);
    forall d | d in files - {c} ensures IsChain(after, d) {
      forall i | 0 <= i < |d| ensures after[d[i]] == tab[d[i]] {
        assert d[i] !in c;
      }
    }
    if NoLeak(tab, files) {
      forall x | IsCluster(x) && after[x] != 0 ensures Owned(files - {c}, x) {
        assert Owned(files, x);
        var d :| d in files && x in d;
        assert d in files - {c};
      }
    }
  }
}
