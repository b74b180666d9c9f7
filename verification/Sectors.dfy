/** The disk image as 512-byte sectors, and the byte string a cluster chain spells. */
module Sectors {
  import opened FatTable
  import opened FatChain

  const CLUSTER_TO_LBA := 31

  type Sector = s: seq<Byte> | |s| == 512 witness seq(512, _ => 0)

  function ZeroSector(): (r: Sector)
    ensures forall p | 0 <= p < 512 :: r[p] == 0
  {
    seq(512, _ => 0)
  }

  predicate OnDisk(image: seq<Sector>, lbas: seq<int>) {
    forall i | 0 <= i < |lbas| :: 0 <= lbas[i] < |image|
  }

  /** Sector addresses of a sequence of clusters. */
  function Lbas(c: seq<int>): (r: seq<int>)
    ensures |r| == |c|
    ensures forall i | 0 <= i < |c| :: r[i] == c[i] + CLUSTER_TO_LBA
  {
    seq(|c|, i requires 0 <= i < |c| => c[i] + CLUSTER_TO_LBA)
  }

  /** `count` consecutive sectors. */
  function Run(lba: int, count: nat): (r: seq<int>)
    ensures |r| == count
    ensures forall i | 0 <= i < count :: r[i] == lba + i
  {
    seq(count, i => lba + i)
  }

  /** The bytes of the listed sectors, one after the other. */
  function Content(image: seq<Sector>, lbas: seq<int>): seq<Byte>
    requires OnDisk(image, lbas)
  {
    if lbas == [] then []
    else Content(image, lbas[..|lbas| - 1]) + image[lbas[|lbas| - 1]]
  }

  lemma {:induction false} ContentLength(image: seq<Sector>, lbas: seq<int>)
    requires OnDisk(image, lbas)
    ensures |Content(image, lbas)| == 512 * |lbas|
  {
    if lbas != [] {
      ContentLength(image, lbas[..|lbas| - 1]);
    }
  }

  /** Byte p of the content is byte p % 512 of sector number p / 512. */
  lemma {:induction false} ContentAt(image: seq<Sector>, lbas: seq<int>, p: nat)
    requires OnDisk(image, lbas) && p < 512 * |lbas|
    ensures |Content(image, lbas)| == 512 * |lbas|
    ensures Content(image, lbas)[p] == image[lbas[p / 512]][p % 512]
  {
    var front := lbas[..|lbas| - 1];
    ContentLength(image, lbas);
    ContentLength(image, front);
    if p < 512 * |front| {
      ContentAt(image, front, p);
    }
  }

  /** A piece of one sector is a slice of the content. */
  lemma ContentSlice(image: seq<Sector>, lbas: seq<int>, j: nat, from: nat, to: nat)
    requires OnDisk(image, lbas) && j < |lbas| && from <= to <= 512
    ensures |Content(image, lbas)| == 512 * |lbas|
    ensures Content(image, lbas)[512 * j + from..512 * j + to] == image[lbas[j]][from..to]
  {
    hide Content;
    ContentLength(image, lbas);
    forall i | from <= i < to ensures Content(image, lbas)[512 * j + i] == image[lbas[j]][i] {
      ContentAt(image, lbas, 512 * j + i);
    }
  }

  /** The bytes read so far and the front of the next sector join up. */
  lemma SliceGrows(image: seq<Sector>, lbas: seq<int>, offset: nat, n: nat, j: nat, more: nat)
    requires OnDisk(image, lbas) && j < |lbas| && offset + n == 512 * j && more <= 512
    ensures |Content(image, lbas)| == 512 * |lbas|
    ensures Content(image, lbas)[offset..offset + n] + image[lbas[j]][0..more] == Content(image, lbas)[offset..offset + n + more]
  {
    ContentSlice(image, lbas, j, 0, more);
    var bytes := Content(image, lbas);
    assert bytes[offset..offset + n] + bytes[offset + n..offset + n + more] == bytes[offset..offset + n + more];
  }

  /** Content depends only on the listed sectors. */
  lemma {:induction false} ContentFrame(image: seq<Sector>, image': seq<Sector>, lbas: seq<int>)
    requires OnDisk(image, lbas) && OnDisk(image', lbas)
    requires forall i | 0 <= i < |lbas| :: image[lbas[i]] == image'[lbas[i]]
    ensures Content(image, lbas) == Content(image', lbas)
  {
    if lbas != [] {
      ContentFrame(image, image', lbas[..|lbas| - 1]);
    }
  }

  lemma {:induction false} ContentAppend(image: seq<Sector>, a: seq<int>, b: seq<int>)
    requires OnDisk(image, a) && OnDisk(image, b)
    ensures OnDisk(image, a + b)
    ensures Content(image, a + b) == Content(image, a) + Content(image, b)
  {
    if b == [] {
      assert a + b == a;
    } else {
      ContentAppend(image, a, b[..|b| - 1]);
      assert (a + b)[..|a + b| - 1] == a + b[..|b| - 1];
    }
  }

  /** s with the bytes from `at` on replaced by b. */
  function Splice(s: seq<Byte>, at: nat, b: seq<Byte>): seq<Byte>
    requires at + |b| <= |s|
  {
    s[..at] + b + s[at + |b|..]
  }

  /** What a sector holds after piece k of `data` was written over `was`: a short
      last piece keeps the bytes behind it. */
  function Piece(was: Sector, data: seq<Byte>, k: nat): Sector
    requires 512 * k < |data|
  {
    if 512 * (k + 1) <= |data| then data[512 * k..512 * (k + 1)]
    else data[512 * k..] + was[|data| - 512 * k..]
  }

  lemma PieceByte(was: Sector, data: seq<Byte>, k: nat, r: nat)
    requires 512 * k < |data| && r < 512
    ensures Piece(was, data, k)[r] == if 512 * k + r < |data| then data[512 * k + r] else was[r]
  {
  }

  function CeilDiv(n: nat): nat {
    n / 512 + if n % 512 != 0 then 1 else 0
  }

  lemma PieceCount(n: nat, k: nat)
    ensures k < CeilDiv(n) <==> 512 * k < n
  {
  }

  /** The first `count` pieces of `data` lie in the sectors lbas[first..first + count];
      every other sector is as it was. */
  ghost predicate PiecesWritten(before: seq<Sector>, after: seq<Sector>, lbas: seq<int>, first: nat, count: nat, data: seq<Byte>)
    requires OnDisk(before, lbas)
    requires first + count <= |lbas| && count <= CeilDiv(|data|)
  {
    && |after| == |before|
    && (forall j | first <= j < first + count ::
          512 * (j - first) < |data| && after[lbas[j]] == Piece(before[lbas[j]], data, j - first))
    && (forall a | 0 <= a < |before| && a !in lbas[first..first + count] :: after[a] == before[a])
  }

  lemma NoPieces(image: seq<Sector>, lbas: seq<int>, first: nat, data: seq<Byte>)
    requires OnDisk(image, lbas) && first <= |lbas|
    ensures PiecesWritten(image, image, lbas, first, 0, data)
  {
  }

  lemma PiecesElsewhere(before: seq<Sector>, after: seq<Sector>, lbas: seq<int>, first: nat, count: nat, data: seq<Byte>)
    requires OnDisk(before, lbas) && first + count <= |lbas| && count <= CeilDiv(|data|)
    requires PiecesWritten(before, after, lbas, first, count, data)
    ensures |after| == |before| && forall a | 0 <= a < |before| && a !in lbas :: after[a] == before[a]
  {
    forall a | a !in lbas ensures a !in lbas[first..first + count] {
    }
  }

  /** A write of at most one sector replaces that sector. */
  lemma OnePiece(before: seq<Sector>, after: seq<Sector>, lba: int, data: seq<Byte>)
    requires 0 <= lba < |before| && 0 < |data| <= 512
    requires PiecesWritten(before, after, Run(lba, 1), 0, 1, data)
    ensures after == before[lba := Piece(before[lba], data, 0)]
  {
    var run := Run(lba, 1);
    assert run[0..1] == [lba];
    assert after[run[0]] == Piece(before[run[0]], data, 0);
  }

  /** More sectors behind the written ones change nothing. */
  lemma PiecesExtend(before: seq<Sector>, after: seq<Sector>, lbas: seq<int>, more: seq<int>, first: nat, count: nat, data: seq<Byte>)
    requires OnDisk(before, lbas) && OnDisk(before, lbas + more)
    requires first + count <= |lbas| && count <= CeilDiv(|data|)
    requires PiecesWritten(before, after, lbas, first, count, data)
    ensures PiecesWritten(before, after, lbas + more, first, count, data)
  {
    assert (lbas + more)[first..first + count] == lbas[first..first + count];
  }

  /** One more piece extends the written range. */
  lemma WriteNextPiece(before: seq<Sector>, mid: seq<Sector>, lbas: seq<int>, first: nat, count: nat, data: seq<Byte>)
    requires OnDisk(before, lbas) && NoRepeats(lbas)
    requires first + count < |lbas| && count < CeilDiv(|data|)
    requires PiecesWritten(before, mid, lbas, first, count, data)
    ensures 512 * count < |data|
    ensures PiecesWritten(before, mid[lbas[first + count] := Piece(mid[lbas[first + count]], data, count)], lbas, first, count + 1, data)
  {
    PieceCount(|data|, count);
    var a := lbas[first + count];
    assert a !in lbas[first..first + count];
    assert mid[a] == before[a];
    var after := mid[a := Piece(mid[a], data, count)];
    forall j | first <= j < first + count + 1
      ensures 512 * (j - first) < |data| && after[lbas[j]] == Piece(before[lbas[j]], data, j - first)
    {
      if j < first + count {
        assert lbas[j] != a;
      }
    }
    assert lbas[first..first + count + 1] == lbas[first..first + count] + [a];
    forall b | 0 <= b < |before| && b !in lbas[first..first + count + 1] ensures after[b] == before[b] {
      assert b !in lbas[first..first + count];
    }
  }

  /** The old head of the sector at `first` followed by `buf` was written there, up to
      and including piece number `count`. */
  ghost predicate HeadedWrite(before: seq<Sector>, after: seq<Sector>, lbas: seq<int>, first: nat, head: nat, count: nat, buf: seq<Byte>) {
    && OnDisk(before, lbas) && NoRepeats(lbas) && |after| == |before|
    && first < |lbas| && head < 512
    && (count > 0 || head == 0)
    && count <= CeilDiv(head + |buf|) && first + count <= |lbas|
    && PiecesWritten(before, after, lbas, first, count, before[lbas[first]][..head] + buf)
  }

  /** How many bytes of `buf` those pieces held. */
  function Held(head: nat, count: nat, buf: seq<Byte>): (m: nat)
    requires head < 512 && (count > 0 || head == 0)
    ensures m <= |buf|
  {
    if 512 * count - head < |buf| then 512 * count - head else |buf|
  }

  /** Such a write splices those bytes into the content, and changes no other byte. */
  lemma PiecesSplice(before: seq<Sector>, after: seq<Sector>, lbas: seq<int>, first: nat, head: nat, count: nat, buf: seq<Byte>)
    requires HeadedWrite(before, after, lbas, first, head, count, buf)
    ensures OnDisk(after, lbas)
    ensures var m := Held(head, count, buf);
            && 512 * first + head + m <= |Content(before, lbas)|
            && Content(after, lbas) == Splice(Content(before, lbas), 512 * first + head, buf[..m])
  {
    hide Content, PiecesWritten, NoRepeats, CeilDiv, Splice;
    ContentLength(before, lbas);
    ContentLength(after, lbas);
    var at, m, was, now := 512 * first + head, Held(head, count, buf), Content(before, lbas), Content(after, lbas);
    assert at + m <= |was|;
    forall p | 0 <= p < |was| ensures now[p] == if at <= p < at + m then buf[p - at] else was[p] {
      SplicedByte(before, after, lbas, first, head, count, buf, p);
    }
    SpliceByBytes(was, now, at, buf[..m]);
  }

  lemma SplicedByte(before: seq<Sector>, after: seq<Sector>, lbas: seq<int>, first: nat, head: nat, count: nat, buf: seq<Byte>, p: nat)
    requires HeadedWrite(before, after, lbas, first, head, count, buf) && OnDisk(after, lbas)
    requires p < 512 * |lbas|
    ensures |Content(before, lbas)| == |Content(after, lbas)| == 512 * |lbas|
    ensures var q := p - (512 * first + head);
            Content(after, lbas)[p] == if 0 <= q < Held(head, count, buf) then buf[q] else Content(before, lbas)[p]
  {
    hide Content, PiecesWritten, NoRepeats, CeilDiv, Held;
    ContentAt(before, lbas, p);
    ContentAt(after, lbas, p);
    var data := before[lbas[first]][..head] + buf;
    var j, r := p / 512, p % 512;
    var o := 512 * (j - first) + r;
    WrittenByte(before, after, lbas, first, count, data, j, r);
    HeldBytes(head, count, buf, o);
    if 0 <= o < head {
      assert j == first && o == r;
    }
  }

  lemma HeldBytes(head: nat, count: nat, buf: seq<Byte>, o: int)
    requires head < 512 && (count > 0 || head == 0)
    ensures 0 <= o - head < Held(head, count, buf) <==> head <= o < 512 * count && o < head + |buf|
  {
  }

  /** Byte r of sector number j after a write of `data`. */
  lemma WrittenByte(before: seq<Sector>, after: seq<Sector>, lbas: seq<int>, first: nat, count: nat, data: seq<Byte>, j: nat, r: nat)
    requires OnDisk(before, lbas) && OnDisk(after, lbas) && NoRepeats(lbas)
    requires first + count <= |lbas| && count <= CeilDiv(|data|)
    requires PiecesWritten(before, after, lbas, first, count, data)
    requires j < |lbas| && r < 512
    ensures var o := 512 * (j - first) + r;
            after[lbas[j]][r] == if 0 <= o < 512 * count && o < |data| then data[o] else before[lbas[j]][r]
  {
    hide Piece;
    if first <= j < first + count {
      PieceByte(before[lbas[j]], data, j - first, r);
    } else {
      assert lbas[j] !in lbas[first..first + count];
    }
  }

  lemma SpliceByBytes(was: seq<Byte>, now: seq<Byte>, at: nat, b: seq<Byte>)
    requires at + |b| <= |was| == |now|
    requires forall p | 0 <= p < |was| :: now[p] == if at <= p < at + |b| then b[p - at] else was[p]
    ensures now == Splice(was, at, b)
  {
  }

  /** Data of whole sectors is read back as written. */
  lemma WholeWrite(before: seq<Sector>, after: seq<Sector>, lbas: seq<int>, data: seq<Byte>)
    requires OnDisk(before, lbas) && OnDisk(after, lbas) && NoRepeats(lbas)
    requires |data| == 512 * |lbas| && CeilDiv(|data|) == |lbas|
    requires PiecesWritten(before, after, lbas, 0, |lbas|, data)
    ensures Content(after, lbas) == data
  {
    hide Content, PiecesWritten, NoRepeats;
    ContentLength(after, lbas);
    forall p | 0 <= p < |data| ensures Content(after, lbas)[p] == data[p] {
      ContentAt(after, lbas, p);
      WrittenByte(before, after, lbas, 0, |lbas|, data, p / 512, p % 512);
    }
  }
}
