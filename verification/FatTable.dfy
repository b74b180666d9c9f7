/** The FAT12 allocation table in its two forms: the packed bytes that live on the
    disk, and the integers the kernel walks.  Two 12-bit entries share three bytes. */
module FatTable {

  type Byte = b: int | 0 <= b < 256

  /** Index of the first of the two bytes that hold entry n. */
  function Pos(n: nat): nat {
    n + n / 2
  }

  /** An entry with an even index: all of the first byte, the low nibble of the second. */
  function EvenEntry(b0: int, b1: int): int {
    b0 + 256 * (b1 % 16)
  }

  /** An entry with an odd index: the high nibble of the first byte, all of the second. */
  function OddEntry(b0: int, b1: int): int {
    b0 / 16 + 16 * b1
  }

  /** The 12-bit entry n of a packed table. */
  function Entry(table: seq<Byte>, n: nat): int
    requires Pos(n) + 1 < |table|
  {
    if n % 2 == 0 then EvenEntry(table[Pos(n)], table[Pos(n) + 1])
    else OddEntry(table[Pos(n)], table[Pos(n) + 1])
  }

  /** The byte written by two hexadecimal digits. */
  function Hex(hi: int, lo: int): (b: Byte)
    requires 0 <= hi < 16 && 0 <= lo < 16
    ensures b / 16 == hi && b % 16 == lo
  {
    16 * hi + lo
  }

  /** The two bytes that store `num` as entry `target`, keeping the nibble that
      belongs to the neighbouring entry. */
  function NumToBytes(target: nat, table: seq<Byte>, num: int): (r: (Byte, Byte))
    requires Pos(target) + 1 < |table|
    requires 0 <= num < 4096
  {
    var hex0, hex1, hex2 := num / 256, num / 16 % 16, num % 16;
    if target % 2 == 0 then
      (Hex(hex1, hex2), Hex(table[Pos(target) + 1] / 16, hex0))
    else
      (Hex(hex2, table[Pos(target)] % 16), Hex(hex0, hex1))
  }

  /** The packed table after entry `target` has been overwritten with `num`. */
  function Store(table: seq<Byte>, target: nat, num: int): (r: seq<Byte>)
    requires Pos(target) + 1 < |table|
    requires 0 <= num < 4096
  {
    var bytes := NumToBytes(target, table, num);
    table[Pos(target) := bytes.0][Pos(target) + 1 := bytes.1]
  }

  /** As the file system defines it: entry n is the little-endian word at byte n + n/2, its
      low twelve bits for an even n, its high twelve for an odd one. */
  lemma EntryIsWord(table: seq<Byte>, n: nat)
    requires n + n / 2 + 1 < |table|
    ensures var low: int, high: int := table[n + n / 2], table[n + n / 2 + 1];
            Entry(table, n) == if n % 2 == 0 then (low + 256 * high) % 4096 else (low + 256 * high) / 16
  {
    var b0: int, b1: int := table[n + n / 2], table[n + n / 2 + 1];
    assert b0 + 256 * b1 == b0 + 256 * (b1 % 16) + 4096 * (b1 / 16);
  }

  /** Two entries either use different bytes or are neighbours sharing exactly one. */
  lemma EntriesOverlap(m: nat, n: nat)
    requires m < n
    ensures Pos(m) + 1 < Pos(n) || (n == m + 1 && m % 2 == 0 && Pos(m) + 1 == Pos(n))
  {
  }

  /** Storing an entry is read back exactly, and no other entry changes: not even
      the neighbour that shares a byte with it. */
  lemma StoreThenEntry(table: seq<Byte>, target: nat, num: int, m: nat)
    requires Pos(target) + 1 < |table| && Pos(m) + 1 < |table|
    requires 0 <= num < 4096
    ensures Entry(Store(table, target, num), m) == if m == target then num else Entry(table, m)
  {
    assert num == 256 * (num / 256) + 16 * (num / 16 % 16) + num % 16;
    if m < target {
      EntriesOverlap(m, target);
    } else if target < m {
      EntriesOverlap(target, m);
    }
  }

  /** The integer table agrees with the packed one, entry by entry. */
  ghost predicate Agree(table: seq<Byte>, decoded: seq<int>) {
    && 2 * |table| == 3 * |decoded|
    && |decoded| % 2 == 0
    && forall n {:trigger Entry(table, n)} | 0 <= n < |decoded| :: Pos(n) + 1 < |table| && decoded[n] == Entry(table, n)
  }

  /** The entries that three bytes hold: triple t holds entries 2t and 2t + 1. */
  lemma TripleEntries(table: seq<Byte>, t: nat)
    requires 3 * t + 2 < |table|
    ensures Pos(2 * t) + 1 < |table| && Pos(2 * t + 1) + 1 < |table|
    ensures Entry(table, 2 * t) == EvenEntry(table[3 * t], table[3 * t + 1])
    ensures Entry(table, 2 * t + 1) == OddEntry(table[3 * t + 1], table[3 * t + 2])
  {
    assert Pos(2 * t) == 3 * t && Pos(2 * t + 1) == 3 * t + 1;
  }

  /** Decodes a whole packed table, three bytes at a time. */
  method ConvertFatToDec(table: seq<Byte>) returns (decoded: seq<int>)
    requires |table| % 3 == 0
    ensures Agree(table, decoded)
  {
    hide Entry, EvenEntry, OddEntry, Pos;
    decoded := [];
    var i := 0;
    ghost var t := 0;
    while i < |table|
      invariant i <= |table| && i == 3 * t && |decoded| == 2 * t
      invariant forall n | 0 <= n < |decoded| :: Pos(n) + 1 < |table| && decoded[n] == Entry(table, n)
    {
      TripleEntries(table, t);
      var second := EvenEntry(table[i], table[i + 1]);
      var first := OddEntry(table[i + 1], table[i + 2]);
      decoded := decoded + [second, first];
      i, t := i + 3, t + 1;
    }
  }

  lemma TripleIsInjective(a0: Byte, a1: Byte, a2: Byte, b0: Byte, b1: Byte, b2: Byte)
    requires EvenEntry(a0, a1) == EvenEntry(b0, b1) && OddEntry(a1, a2) == OddEntry(b1, b2)
    ensures a0 == b0 && a1 == b1 && a2 == b2
  {
    assert a0 + 256 * (a1 % 16) == b0 + 256 * (b1 % 16);
    assert a1 / 16 + 16 * a2 == b1 / 16 + 16 * b2;
  }

  /** The integers lose nothing: only one packed table decodes to them. */
  lemma DecodingIsInjective(t1: seq<Byte>, t2: seq<Byte>, decoded: seq<int>)
    requires Agree(t1, decoded) && Agree(t2, decoded)
    ensures t1 == t2
  {
    hide Entry, EvenEntry, OddEntry, Pos;
    assert |t1| == |t2| && |t1| % 3 == 0;
    forall i | 0 <= i < |t1| ensures t1[i] == t2[i] {
      var t := i / 3;
      var j := 3 * t;
      TripleEntries(t1, t);
      TripleEntries(t2, t);
      TripleIsInjective(t1[j], t1[j + 1], t1[j + 2], t2[j], t2[j + 1], t2[j + 2]);
      assert i == j || i == j + 1 || i == j + 2;
    }
  }

  /** Updating both forms of the table keeps them in agreement. */
  lemma StoreKeepsAgreement(table: seq<Byte>, decoded: seq<int>, target: nat, num: int)
    requires Agree(table, decoded)
    requires target < |decoded| && 0 <= num < 4096
    ensures Pos(target) + 1 < |table|
    ensures Agree(Store(table, target, num), decoded[target := num])
  {
    assert decoded[target] == Entry(table, target);
    var after := decoded[target := num];
    forall n | 0 <= n < |after| ensures Pos(n) + 1 < |table| && after[n] == Entry(Store(table, target, num), n) {
      assert decoded[n] == Entry(table, n);
      StoreThenEntry(table, target, num, n);
    }
  }
}
