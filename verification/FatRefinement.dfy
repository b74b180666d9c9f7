/** What the file engine promises about files: a write is a replacement in a byte
    string exactly when its copying loop links at most one cluster; no operation
    touches another file; removing a directory entry moves the later ones up. */
module FatRefinement {
  import opened Common
  import opened FatTable
  import opened FatChain
  import opened Sectors
  import opened FatVolume

  /** The chain that the table spells for the file after a write. */
  lemma {:induction false} WrittenChain(tab0: seq<int>, tab: seq<int>, chain: seq<int>, base: seq<int>, taken: seq<int>)
    requires IsTable(tab0) && Extended(tab0, tab, chain, base, taken)
    ensures |tab| == |tab0| && IsChain(tab, Grown(base, taken))
  {
    LinkingGrowsChain(Linked(tab0, chain[|chain| - 1], base[|chain|..]), base, taken);
  }

  /** A write keeps every chain terminated and all files apart; every other file keeps
      its chain. */
  lemma {:induction false} WriteKeepsLayout(tab0: seq<int>, tab: seq<int>, chain: seq<int>, base: seq<int>, taken: seq<int>, files: set<seq<int>>)
    requires IsTable(tab0) && Extended(tab0, tab, chain, base, taken)
    requires Layout(tab0, files) && chain in files
    ensures |tab| == |tab0| && Layout(tab, files - {chain} + {Grown(base, taken)})
  {
    var added := base[|chain|..];
    var tab1 := Linked(tab0, chain[|chain| - 1], added);
    BaseIsGrown(chain, base);
    LinkingKeepsLayout(tab0, files, chain, added);
    var files1 := files - {chain} + {base};
    LinkingKeepsLayout(tab1, files1, base, taken);
    RenameTwice(tab0, files, chain, base, Grown(base, taken));
    LinkingGrowsChain(tab1, base, taken);
  }

  lemma BaseIsGrown(chain: seq<int>, base: seq<int>)
    requires chain <= base && |base| <= |chain| + 1
    ensures Grown(chain, base[|chain|..]) == base
  {
  }

  /** Replacing chain by base and base by the final chain is one replacement. */
  lemma RenameTwice(tab0: seq<int>, files: set<seq<int>>, chain: seq<int>, base: seq<int>, final: seq<int>)
    requires IsTable(tab0) && Layout(tab0, files) && chain in files && chain != [] && chain <= base
    ensures files - {chain} + {base} - {base} + {final} == files - {chain} + {final}
  {
    if base in files && base != chain {
      assert false;
    }
  }

  /** No cluster leaks if and only if the copying loop linked at most one. */
  lemma {:induction false} LeaksIfTwoTaken(tab0: seq<int>, tab: seq<int>, chain: seq<int>, base: seq<int>, taken: seq<int>, files: set<seq<int>>)
    requires IsTable(tab0) && Extended(tab0, tab, chain, base, taken)
    requires Layout(tab0, files) && NoLeak(tab0, files) && chain in files
    ensures |tab| == |tab0| && (NoLeak(tab, files - {chain} + {Grown(base, taken)}) <==> |taken| <= 1)
  {
    var added := base[|chain|..];
    BaseIsGrown(chain, base);
    LinkingKeepsLayout(tab0, files, chain, added);
    LinkingLeaksIff(tab0, files, chain, added);
    LinkingLeaksIff(Linked(tab0, chain[|chain| - 1], added), files - {chain} + {base}, base, taken);
    RenameTwice(tab0, files, chain, base, Grown(base, taken));
  }

  /** When a write loses no cluster, in terms of what a caller knows before it: with room
      for everything, if and only if the loop has to append at most one; on a disk that
      fills up, if and only if at most one free cluster is left for the loop. */
  predicate LosesNothing(n: nat, offset: nat, len: nat, free: nat) {
    if Needed(n, offset, len) <= free then LoopAppends(n, offset, len) <= 1
    else free <= (if offset == 512 * n then 2 else 1)
  }

  lemma {:induction false} WriteLeaksIff(tab0: seq<int>, tab: seq<int>, chain: seq<int>, base: seq<int>, taken: seq<int>,
                                         offset: nat, len: nat, files: set<seq<int>>)
    requires IsTable(tab0) && Extended(tab0, tab, chain, base, taken)
    requires |base| == |chain| + (if offset == 512 * |chain| && |FreeSet(tab0)| > 0 then 1 else 0)
    requires |taken| == if Needed(|chain|, offset, len) <= |FreeSet(tab0)| then LoopAppends(|chain|, offset, len)
                        else |FreeSet(tab0)| - (|base| - |chain|)
    requires Layout(tab0, files) && NoLeak(tab0, files) && chain in files
    ensures |tab| == |tab0|
    ensures NoLeak(tab, files - {chain} + {Grown(base, taken)}) <==> LosesNothing(|chain|, offset, len, |FreeSet(tab0)|)
  {
    LeaksIfTwoTaken(tab0, tab, chain, base, taken, files);
  }

  /** The bytes of every file that shares no cluster with the written one stay. */
  lemma {:induction false} WriteKeepsOtherFiles(tab0: seq<int>, tab: seq<int>, image0: seq<Sector>, image: seq<Sector>,
                                                chain: seq<int>, base: seq<int>, taken: seq<int>, entryLba: nat, other: seq<int>)
    requires IsTable(tab0) && Extended(tab0, tab, chain, base, taken)
    requires OthersKept(image0, image, base + taken, entryLba)
    requires IsChain(tab0, other) && Disjoint(chain, other) && entryLba - 31 !in other
    ensures |tab| == |tab0| && IsChain(tab, other)
    ensures OnDisk(image0, Lbas(other)) && OnDisk(image, Lbas(other)) && Content(image, Lbas(other)) == Content(image0, Lbas(other))
  {
    var added := base[|chain|..];
    var tab1 := Linked(tab0, chain[|chain| - 1], added);
    BaseIsGrown(chain, base);
    LinkingKeepsChain(tab0, chain, added, other);
    LinkingKeepsChain(tab1, base, taken, other);
    FreshApart(tab1, other, taken);
    forall i | 0 <= i < |other| ensures Lbas(other)[i] !in Lbas(base + taken) {
      assert other[i] !in base && other[i] !in taken;
    }
    hide Content;
    ContentFrame(image0, image, Lbas(other));
  }

  /** THE REFINEMENT.  After a write that had room, the file holds the old bytes before
      `offset` followed by `buf`, if and only if the copying loop had to append at
      most one cluster: the guard a caller can evaluate beforehand. */
  lemma {:induction false} WriteRefinesIff(tab0: seq<int>, tab: seq<int>, image0: seq<Sector>, image: seq<Sector>,
                                           chain: seq<int>, base: seq<int>, taken: seq<int>, offset: nat, buf: seq<Byte>)
    requires IsTable(tab0) && Extended(tab0, tab, chain, base, taken)
    requires Spliced(image0, image, base + taken, offset, buf, |buf|)
    requires offset <= 512 * |chain| && |taken| == LoopAppends(|chain|, offset, |buf|)
    requires |base| + |taken| == |chain| + Needed(|chain|, offset, |buf|)
    ensures OnDisk(image, Lbas(Grown(base, taken))) && OnDisk(image0, Lbas(chain)) && offset <= |Content(image0, Lbas(chain))|
    ensures FileHolds(image, Lbas(Grown(base, taken)), offset + |buf|, Content(image0, Lbas(chain))[..offset] + buf)
            <==> LoopAppends(|chain|, offset, |buf|) <= 1
  {
    hide Content, Linked, Fresh, NoRepeats;
    var file := Grown(base, taken);
    FileOnDisk(image, base, taken);
    ContentLength(image, Lbas(file));
    ContentLength(image0, Lbas(chain));
    if |taken| <= 1 {
      assert file == base + taken;
      ContentPrefix(image0, Lbas(chain), Lbas(base + taken), offset);
    } else {
      assert |file| == |base| + 1;
      LongWriteOverruns(|chain|, offset, |buf|, |base|, |taken|);
    }
  }

  lemma FileOnDisk(image: seq<Sector>, base: seq<int>, taken: seq<int>)
    requires OnDisk(image, Lbas(base + taken))
    ensures OnDisk(image, Lbas(Grown(base, taken)))
  {
    var all, file := base + taken, Grown(base, taken);
    forall i | 0 <= i < |file| ensures 0 <= Lbas(file)[i] < |image| {
      assert Lbas(all)[if i < |base| then i else |all| - 1] == Lbas(file)[i];
    }
  }

  lemma ContentPrefix(image: seq<Sector>, a: seq<int>, b: seq<int>, n: nat)
    requires OnDisk(image, b) && a <= b && n <= 512 * |a|
    ensures |Content(image, a)| == 512 * |a| && |Content(image, b)| == 512 * |b|
    ensures Content(image, a)[..n] == Content(image, b)[..n]
  {
    hide Content;
    ContentLength(image, a);
    ContentLength(image, b);
    assert b == a + b[|a|..];
    ContentAppend(image, a, b[|a|..]);
  }

  lemma LongWriteOverruns(n: nat, offset: nat, len: nat, baseLen: nat, takenLen: nat)
    requires takenLen == LoopAppends(n, offset, len) && takenLen >= 2
    requires baseLen + takenLen == n + Needed(n, offset, len)
    ensures offset + len > 512 * (baseLen + 1)
  {
  }

  /** A concrete failure: 1025 bytes written to the start of a one-cluster file.  The loop
      links two clusters, the first of which is lost again. */
  lemma ThreeClusterWriteLosesData(tab0: seq<int>, tab: seq<int>, image0: seq<Sector>, image: seq<Sector>,
                                   chain: seq<int>, base: seq<int>, taken: seq<int>, buf: seq<Byte>)
    requires IsTable(tab0) && Extended(tab0, tab, chain, base, taken) && |chain| == 1 && |buf| == 1025
    requires Spliced(image0, image, base + taken, 0, buf, |buf|)
    requires |taken| == LoopAppends(1, 0, 1025) && |base| + |taken| == 1 + Needed(1, 0, 1025)
    ensures OnDisk(image, Lbas(Grown(base, taken))) && |Grown(base, taken)| == 2
    ensures !FileHolds(image, Lbas(Grown(base, taken)), 1025, buf)
  {
    WriteRefinesIff(tab0, tab, image0, image, chain, base, taken, 0, buf);
    assert [] + buf == buf;
  }

  /** One write, judged by what was known before it: how many clusters the file had, how
      many were free, and how much is written where.  All files stay terminated and apart;
      the file is a byte string with `buf` spliced in, and no cluster is lost, exactly
      under the two guards. */
  method WriteJudged(v: Volume, f: File, offset: nat, buf: seq<Byte>, ghost chain: seq<int>, ghost files: set<seq<int>>)
    returns (err: NosError, ghost file: seq<int>)
    requires v.Valid() && IsChain(v.intFatTable, chain) && chain[0] == f.handle
    requires (offset <= f.size ==> offset <= 512 * |chain|) && f.size < TWO_64 && offset + |buf| + 512 < TWO_64
    requires EntryApart(v.intFatTable, chain, f.entry)
    requires Layout(v.intFatTable, files) && NoLeak(v.intFatTable, files) && chain in files
    modifies v, f`size
    ensures v.Valid() && IsChain(v.intFatTable, file) && Layout(v.intFatTable, files - {chain} + {file})
    ensures err == IoError <==> offset > old(f.size)
    ensures err == IoError ==> file == chain && unchanged(v)
    ensures old(v.Saved()) || v.intFatTable != old(v.intFatTable) || err == Success ==> v.Saved()
    ensures err == Success <==> offset <= old(f.size) && Needed(|chain|, offset, |buf|) <= |FreeSet(old(v.intFatTable))|
    ensures err != IoError ==>
      (NoLeak(v.intFatTable, files - {chain} + {file}) <==> LosesNothing(|chain|, offset, |buf|, |FreeSet(old(v.intFatTable))|))
    ensures err == Success ==>
      && OnDisk(v.image, Lbas(file)) && OnDisk(old(v.image), Lbas(chain)) && offset <= |Content(old(v.image), Lbas(chain))|
      && (FileHolds(v.image, Lbas(file), offset + |buf|, Content(old(v.image), Lbas(chain))[..offset] + buf)
          <==> LoopAppends(|chain|, offset, |buf|) <= 1)
  {
    hide IsChain, Content, Extended, Spliced, EntryApart, FreeSet, Agree, OthersKept, SizeField, Layout, NoLeak, FileHolds,
         Needed, LoopAppends, LosesNothing;
    var written;
    ghost var base, taken, m;
    err, written, base, taken, m := v.Write(f, offset, buf, 0, chain);
    file := Grown(base, taken);
    if err == IoError {
      FileKept(files, chain);
    } else {
      NeededAtEnd(|chain|, |buf|);
      WrittenChain(old(v.intFatTable), v.intFatTable, chain, base, taken);
      WriteKeepsLayout(old(v.intFatTable), v.intFatTable, chain, base, taken, files);
      FullDisk(v.intFatTable);
      WriteLeaksIff(old(v.intFatTable), v.intFatTable, chain, base, taken, offset, |buf|, files);
      if err == Success {
        WriteRefinesIff(old(v.intFatTable), v.intFatTable, old(v.image), v.image, chain, base, taken, offset, buf);
      }
    }
  }

  /** Whatever was last saved is what the next mount finds: the same tables in both forms. */
  method Remount(v: Volume) returns (w: Volume)
    requires v.Valid() && v.Saved()
    ensures fresh(w) && w.Valid() && w.image == v.image && w.fatTable == v.fatTable && w.intFatTable == v.intFatTable
  {
    hide Content;
    MountsAgain(v.fatTable, v.intFatTable);
    w := new Volume(v.image);
    SameIntegers(v.fatTable, v.intFatTable, w.intFatTable);
  }

  lemma MountsAgain(table: seq<Byte>, decoded: seq<int>)
    requires |table| == 512 * FAT_SECTORS && |decoded| == TABLE_ENTRIES && Agree(table, decoded)
    ensures Entry(table, 0) == decoded[0] && Entry(table, 1) == decoded[1]
  {
    hide Entry;
  }

  lemma SameIntegers(table: seq<Byte>, d1: seq<int>, d2: seq<int>)
    requires Agree(table, d1) && Agree(table, d2)
    ensures d1 == d2
  {
    hide Entry;
    forall n | 0 <= n < |d1| ensures d1[n] == d2[n] {
      assert d1[n] == Entry(table, n) && d2[n] == Entry(table, n);
    }
  }

  lemma FileKept(files: set<seq<int>>, chain: seq<int>)
    requires chain in files
    ensures Grown(chain, []) == chain && files - {chain} + {chain} == files
  {
  }

  lemma FullDisk(tab: seq<int>)
    requires IsTable(tab)
    ensures FreeSet(tab) == {} ==> |FreeSet(tab)| == 0
  {
  }

  /** Writing and then reading the same range gives the bytes back. */
  method WriteThenRead(v: Volume, f: File, offset: nat, buf: seq<Byte>, ghost chain: seq<int>) returns (err: NosError, back: seq<Byte>)
    requires v.Valid() && IsChain(v.intFatTable, chain) && chain[0] == f.handle
    requires (offset <= f.size ==> offset <= 512 * |chain|) && f.size < TWO_64 && offset + |buf| + 512 < TWO_64
    requires EntryApart(v.intFatTable, chain, f.entry)
    requires 0 < |buf| && LoopAppends(|chain|, offset, |buf|) <= 1
    modifies v, f`size
    ensures v.Valid()
    ensures err == Success <==> offset <= old(f.size) && Needed(|chain|, offset, |buf|) <= |FreeSet(old(v.intFatTable))|
    ensures err == Success ==> back == buf
  {
    hide IsChain, Content, Extended, Spliced, EntryApart, FreeSet, Agree, OthersKept, SizeField;
    var written;
    ghost var base, taken, m;
    back := [];
    err, written, base, taken, m := v.Write(f, offset, buf, 0, chain);
    if err == Success {
      WrittenFile(old(v.intFatTable), v.intFatTable, old(v.image), v.image, chain, base, taken, offset, buf);
      var rerr;
      rerr, back := v.Read(f, |buf|, offset, Grown(base, taken));
    }
  }

  lemma {:induction false} WrittenFile(tab0: seq<int>, tab: seq<int>, image0: seq<Sector>, image: seq<Sector>,
                                       chain: seq<int>, base: seq<int>, taken: seq<int>, offset: nat, buf: seq<Byte>)
    requires IsTable(tab0) && Extended(tab0, tab, chain, base, taken)
    requires Spliced(image0, image, base + taken, offset, buf, |buf|)
    requires offset <= 512 * |chain| && |taken| == LoopAppends(|chain|, offset, |buf|) <= 1
    requires |base| + |taken| == |chain| + Needed(|chain|, offset, |buf|)
    ensures |tab| == |tab0| && IsChain(tab, Grown(base, taken)) && Grown(base, taken)[0] == chain[0]
    ensures OnDisk(image, Lbas(Grown(base, taken)))
    ensures |Content(image, Lbas(Grown(base, taken)))| == 512 * |Grown(base, taken)| >= offset + |buf|
    ensures Content(image, Lbas(Grown(base, taken)))[offset..offset + |buf|] == buf
  {
    WrittenChain(tab0, tab, chain, base, taken);
    WriteRefinesIff(tab0, tab, image0, image, chain, base, taken, offset, buf);
    hide Extended, Spliced, Needed, LoopAppends;
    var bytes := Content(image, Lbas(Grown(base, taken)));
    ContentLength(image, Lbas(Grown(base, taken)));
    assert bytes[offset..offset + |buf|] == bytes[..offset + |buf|][offset..];
  }

  /** The 32-byte entries of a directory. */
  ghost function Slots(bytes: seq<Byte>): seq<seq<Byte>> {
    seq(|bytes| / 32, j requires 0 <= j < |bytes| / 32 => bytes[32 * j..32 * j + 32])
  }

  /** Removing an entry keeps the size of the directory and, entry by entry, all others:
      entry k is gone and one zero entry stands at the end. */
  lemma RemovedSlotList(bytes: seq<Byte>, k: nat)
    requires |bytes| % 32 == 0 && 32 * (k + 1) <= |bytes|
    ensures |RemoveSlot(bytes, k)| == |bytes|
    ensures Slots(RemoveSlot(bytes, k)) == Slots(bytes)[..k] + Slots(bytes)[k + 1..] + [seq(32, _ => 0)]
  {
    hide RemoveSlot;
    var n, slots, after := |bytes| / 32, Slots(bytes), Slots(RemoveSlot(bytes, k));
    RemovedSize(bytes, k);
    forall j | 0 <= j < n ensures after[j] == (slots[..k] + slots[k + 1..] + [seq(32, _ => 0)])[j] {
      SlotAfter(bytes, k, j);
    }
  }

  lemma RemovedSize(bytes: seq<Byte>, k: nat)
    requires 32 * (k + 1) <= |bytes|
    ensures |RemoveSlot(bytes, k)| == |bytes|
  {
  }

  lemma SlotAfter(bytes: seq<Byte>, k: nat, j: nat)
    requires |bytes| % 32 == 0 && 32 * (k + 1) <= |bytes| && 32 * (j + 1) <= |bytes|
    ensures RemoveSlot(bytes, k)[32 * j..32 * j + 32] ==
            if j < k then bytes[32 * j..32 * j + 32]
            else if j < |bytes| / 32 - 1 then bytes[32 * (j + 1)..32 * (j + 1) + 32] else seq(32, _ => 0)
  {
    var front, back, zeros := bytes[..32 * k], bytes[32 * (k + 1)..], seq(32, _ => 0 as Byte);
    var after := front + back + zeros;
    if j < k {
      assert after[32 * j..32 * j + 32] == front[32 * j..32 * j + 32];
    } else if j < |bytes| / 32 - 1 {
      assert after[32 * j..32 * j + 32] == back[32 * (j - k)..32 * (j - k) + 32];
    } else {
      assert after[32 * j..32 * j + 32] == zeros;
    }
  }
}
