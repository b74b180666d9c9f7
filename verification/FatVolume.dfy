/** The FAT12 file engine: the two in-memory tables, the disk image, and the
    operations that read, write and remove files by walking cluster chains. */
module FatVolume {
  import opened Common
  import opened FatTable
  import opened FatChain
  import opened Sectors

  datatype NosError = Success | FileNotFound | DirectoryNotEmpty | IoError | NotEnoughDiskSpace

  const DISK_SECTORS := 2880
  const FAT_SECTORS := 9
  const TABLE_ENTRIES := 3072
  const FIRST_FAT := 1
  const SECOND_FAT := 10
  const ROOT_LBA := 19
  const DATA_LBA := 33

  /** The result of one addition or subtraction of unsigned 64-bit numbers. */
  function SizeT(x: int): (r: nat)
    requires -TWO_64 <= x < 2 * TWO_64
    ensures r < TWO_64
    ensures r == x || r == x + TWO_64 || r == x - TWO_64
  {
    if x < 0 then x + TWO_64 else if TWO_64 <= x then x - TWO_64 else x
  }

  const TWO_32 := 0x1_0000_0000

  /** Where the directory entry of a file lies: the answer of a lookup by name. */
  datatype DirSlot = DirSlot(lba: nat, index: nat)

  class File {
    const handle: int
    const entry: DirSlot
    var size: nat

    constructor (handle: int, entry: DirSlot, size: nat)
      ensures this.handle == handle && this.entry == entry && this.size == size
    {
      this.handle, this.entry, this.size := handle, entry, size;
    }
  }

  /** The size field of a directory entry, little endian. */
  function SizeField(sector: Sector, index: nat): nat
    requires index < 16
  {
    var p := 32 * index + 28;
    var b0: int, b1: int, b2: int, b3: int := sector[p], sector[p + 1], sector[p + 2], sector[p + 3];
    b0 + 256 * b1 + 65536 * b2 + 16777216 * b3
  }

  function Shr8(v: nat): (r: nat)
    ensures v == 256 * r + v % 256
  {
    v / 256
  }

  /** Two states of a directory sector that differ at most in the size of one entry. */
  predicate OnlySizeDiffers(was: Sector, now: Sector, index: nat) {
    forall p | 0 <= p < 512 && !(32 * index + 28 <= p < 32 * index + 32) :: now[p] == was[p]
  }

  /** The low four bytes of a number, lowest first. */
  function DecToHex(v: nat): (r: seq<Byte>)
    ensures |r| == 4
  {
    [v % 256, Shr8(v) % 256, Shr8(Shr8(v)) % 256, Shr8(Shr8(Shr8(v))) % 256]
  }

  lemma BytesOf(v: nat)
    ensures v % TWO_32 == v % 256 + 256 * (Shr8(v) % 256) + 65536 * (Shr8(Shr8(v)) % 256) + 16777216 * (Shr8(Shr8(Shr8(v))) % 256)
  {
    var a, b, c := Shr8(v), Shr8(Shr8(v)), Shr8(Shr8(Shr8(v)));
    var low := v % 256 + 256 * (a % 256) + 65536 * (b % 256) + 16777216 * (c % 256);
    var high := Shr8(c);
    assert v == low + 0x1_0000_0000 * high;
    assert 0 <= low < 0x1_0000_0000;
    QuotientRemainder(v, high, low);
  }

  lemma QuotientRemainder(v: nat, high: nat, low: nat)
    requires v == low + 0x1_0000_0000 * high && low < 0x1_0000_0000
    ensures v % 0x1_0000_0000 == low
  {
  }

  lemma ShiftedTwice(v: nat)
    ensures Shr8(v) == v / 256 && Shr8(Shr8(v)) == v / 65536
  {
  }

  lemma DecToHexRoundTrip(v: nat, sector: Sector, index: nat)
    requires index < 16 && v < TWO_64
    requires sector[32 * index + 28..32 * index + 32] == DecToHex(v)
    ensures SizeField(sector, index) == v % TWO_32
    ensures sector[32 * index + 28] == v % 256 && sector[32 * index + 29] == v / 256 % 256
    ensures sector[32 * index + 30] == v / 65536 % 256 && sector[32 * index + 31] == v / 16777216 % 256
  {
    var p, h := 32 * index + 28, DecToHex(v);
    assert sector[p] == h[0] && sector[p + 1] == h[1] && sector[p + 2] == h[2] && sector[p + 3] == h[3] by {
      assert sector[p..p + 4][0] == h[0] && sector[p..p + 4][1] == h[1] && sector[p..p + 4][2] == h[2] && sector[p..p + 4][3] == h[3];
    }
    BytesOf(v);
    ShiftedTwice(v);
    ShiftedTwice(Shr8(v));
  }

  /** Clusters a write must add to a chain of n clusters. */
  function Needed(n: nat, offset: nat, len: nat): nat {
    var last := if offset / 512 + 1 < CeilDiv(offset + len) then CeilDiv(offset + len) else offset / 512 + 1;
    if n < last then last - n else 0
  }

  /** How many of them are added by the copying loop rather than up front. */
  function LoopAppends(n: nat, offset: nat, len: nat): nat {
    var ready := if n < offset / 512 + 1 then offset / 512 + 1 else n;
    if ready < CeilDiv(offset + len) then CeilDiv(offset + len) - ready else 0
  }

  /** A file of `size` bytes on the given sectors holds exactly `bytes`. */
  ghost predicate FileHolds(image: seq<Sector>, lbas: seq<int>, size: nat, bytes: seq<Byte>)
    requires OnDisk(image, lbas)
  {
    && size <= |Content(image, lbas)|
    && Content(image, lbas)[..size] == bytes
  }

  /** Copies part of a vector element by element. */
  method CopyRange(data: seq<Byte>, from: nat, n: nat) returns (r: seq<Byte>)
    requires from + n <= |data|
    ensures r == data[from..from + n]
  {
    r := [];
    for j := 0 to n
      invariant r == data[from..from + j]
    {
      r := r + [data[j + from]];
    }
  }

  /** Data followed by as much of the last sector as fills the sector up. */
  function Padded(data: seq<Byte>, last: Sector): seq<Byte> {
    if |data| % 512 == 0 then data else data + last[|data| % 512..]
  }

  method PadToSectors(data: seq<Byte>, last: Sector) returns (padded: seq<Byte>)
    ensures padded == Padded(data, last)
    ensures |padded| == 512 * CeilDiv(|data|)
  {
    padded := data;
    var occupied, added := |data| % 512, 0;
    for i := |data| to 512 * CeilDiv(|data|)
      invariant added == i - |data| && occupied + added <= 512
      invariant padded == data + last[occupied..occupied + added]
    {
      padded := padded + [last[occupied + added]];
      added := added + 1;
    }
  }

  lemma PaddedPiece(was: Sector, last: Sector, data: seq<Byte>, k: nat)
    requires k < CeilDiv(|data|)
    requires k + 1 == CeilDiv(|data|) ==> was == last
    ensures 512 * k < |data| && 512 * k + 512 <= |Padded(data, last)|
    ensures Padded(data, last)[512 * k..512 * k + 512] == Piece(was, data, k)
  {
    PieceCount(|data|, k);
    if 512 * (k + 1) > |data| {
      assert k == |data| / 512;
    }
  }

  /** Whole sectors from `lba` on replaced by `bytes`: what the disk does. */
  function Overlay(image: seq<Sector>, lba: int, bytes: seq<Byte>): (r: seq<Sector>)
    requires 0 <= lba
    ensures |r| == |image|
  {
    seq(|image|, a requires 0 <= a < |image| =>
      if lba <= a && 512 * (a - lba) + 512 <= |bytes| then bytes[512 * (a - lba)..512 * (a - lba) + 512] else image[a])
  }

  /** The image after `data` was written from sector `lba` on. */
  function Written(image: seq<Sector>, lba: int, data: seq<Byte>): (r: seq<Sector>)
    requires 1 <= lba && lba + CeilDiv(|data|) <= |image|
    ensures |r| == |image|
  {
    Overlay(image, lba, Padded(data, image[lba + CeilDiv(|data|) - 1]))
  }

  lemma WrittenPieces(image: seq<Sector>, lba: int, data: seq<Byte>)
    requires 1 <= lba && lba + CeilDiv(|data|) <= |image|
    ensures PiecesWritten(image, Written(image, lba, data), Run(lba, CeilDiv(|data|)), 0, CeilDiv(|data|), data)
  {
    var count, run, after := CeilDiv(|data|), Run(lba, CeilDiv(|data|)), Written(image, lba, data);
    var last := image[lba + count - 1];
    forall j | 0 <= j < count ensures 512 * j < |data| && after[run[j]] == Piece(image[run[j]], data, j) {
      PaddedPiece(image[run[j]], last, data, j);
    }
    forall a | lba <= a < lba + count ensures a in run[0..count] {
      assert run[a - lba] == a;
    }
    PaddedLength(data, last);
  }

  /** A write of at most one sector replaces that sector. */
  lemma WrittenOne(image: seq<Sector>, lba: int, data: seq<Byte>)
    requires 1 <= lba < |image| && 0 < |data| <= 512
    ensures Written(image, lba, data) == image[lba := Piece(image[lba], data, 0)]
  {
    hide Written, PiecesWritten, Piece;
    WrittenPieces(image, lba, data);
    OnePiece(image, Written(image, lba, data), lba, data);
  }

  lemma PaddedLength(data: seq<Byte>, last: Sector)
    ensures |Padded(data, last)| == 512 * CeilDiv(|data|)
  {
  }

  /** Appends bytes of one cluster until `out` has the wanted size. */
  method AppendUpTo(out0: seq<Byte>, clust: Sector, skip: nat, size: nat) returns (out: seq<Byte>)
    requires skip < 512 && |out0| <= size
    ensures |out| == if size - |out0| < 512 - skip then size else |out0| + 512 - skip
    ensures out == out0 + clust[skip..skip + |out| - |out0|]
  {
    out := out0;
    for i := skip to 512
      invariant |out| == |out0| + i - skip <= size
      invariant out == out0 + clust[skip..i]
    {
      if |out| == size {
        break;
      }
      out := out + [clust[i]];
    }
  }

  class Volume {
    var fatTable: seq<Byte>
    var intFatTable: seq<int>
    var image: seq<Sector>

    ghost predicate Valid()
      reads this
    {
      && |fatTable| == 512 * FAT_SECTORS
      && |intFatTable| == TABLE_ENTRIES && Agree(fatTable, intFatTable)
      && |image| == DISK_SECTORS
      && intFatTable[0] != 0 && intFatTable[1] != 0
    }

    /** Both copies of the table on the disk equal the one in memory. */
    ghost predicate Saved()
      requires |image| == DISK_SECTORS
      reads this
    {
      && Content(image, Run(FIRST_FAT, FAT_SECTORS)) == fatTable
      && Content(image, Run(SECOND_FAT, FAT_SECTORS)) == fatTable
    }

    /** Loads the first table from the disk and decodes it. */
    constructor (image: seq<Sector>)
      requires |image| == DISK_SECTORS
      requires var fat := Content(image, Run(FIRST_FAT, FAT_SECTORS));
               |fat| == 512 * FAT_SECTORS && Entry(fat, 0) != 0 && Entry(fat, 1) != 0
      ensures Valid()
      ensures this.image == image && fatTable == Content(image, Run(1, 9))
    {
      var table := Content(image, Run(FIRST_FAT, FAT_SECTORS));
      var decoded := ConvertFatToDec(table);
      fatTable, intFatTable, this.image := table, decoded, image;
    }

    function ReadFromFs(start: int): Sector
      requires 0 <= start + 31 < |image|
      reads this
    {
      image[start + 31]
    }

    /** Writes whole sectors; a short last one is padded with what the disk holds. */
    method WriteToFs(start: int, data: seq<Byte>)
      requires 1 <= start + 31 && start + 31 + CeilDiv(|data|) <= |image|
      modifies this`image
      ensures image == Written(old(image), start + 31, data)
    {
      var count := CeilDiv(|data|);
      var lastSector := ReadFromFs(start + count - 1);
      var padded := PadToSectors(data, lastSector);
      image := Overlay(image, start + 31, padded);
    }

    /** Stores a table of nine sectors in both places the disk keeps it. */
    method SaveFat()
      requires |fatTable| == 512 * FAT_SECTORS && |image| == DISK_SECTORS
      modifies this`image
      ensures |image| == DISK_SECTORS && Saved()
      ensures Content(image, Run(1, 9)) == Content(image, Run(10, 9)) == fatTable
      ensures forall a | 0 <= a < DISK_SECTORS && !(1 <= a < 19) :: image[a] == old(image)[a]
    {
      TableWrittenTwice(image, fatTable);
      WriteToFs(1 - 31, fatTable);
      WriteToFs(10 - 31, fatTable);
    }

    /** Overwrites one entry in both forms of the table. */
    method StoreEntry(target: int, num: int)
      requires Valid() && IsCluster(target) && 0 <= num < 4096
      modifies this`fatTable, this`intFatTable
      ensures Valid()
      ensures intFatTable == old(intFatTable)[target := num]
      ensures fatTable == Store(old(fatTable), target, num)
    {
      StoreKeepsAgreement(fatTable, intFatTable, target, num);
      intFatTable := intFatTable[target := num];
      var modifiedBytes := NumToBytes(target, fatTable, num);
      fatTable := fatTable[Pos(target) := modifiedBytes.0];
      fatTable := fatTable[Pos(target) + 1 := modifiedBytes.1];
    }

    /** The first free cluster, or -1. */
    method RetrieveFreeIndex() returns (r: int)
      requires Valid()
      ensures r == -1 <==> FreeSet(intFatTable) == {}
      ensures r != -1 ==> IsCluster(r) && r in FreeSet(intFatTable) && forall x | x in FreeSet(intFatTable) :: r <= x
      ensures r == -1 ==> forall x | 0 <= x < 2848 :: intFatTable[x] != 0
    {
      for i := 0 to FREE_SEARCH_LIMIT
        invariant forall x | 0 <= x < i :: intFatTable[x] != 0
      {
        if intFatTable[i] == 0 {
          assert i in FreeSet(intFatTable);
          return i;
        }
      }
      return -1;
    }

    /** Walks the table from `start` to the end mark. */
    method RetrieveSectors(start: int, ghost chain: seq<int>) returns (list: seq<int>)
      requires Valid() && IsChain(intFatTable, chain) && chain[0] == start
      ensures list == chain && 4088 <= intFatTable[list[|list| - 1]] <= 4095
    {
      list := [];
      var traversed := start;
      while traversed < FIRST_END_MARK || traversed > END_MARK
        invariant |list| <= |chain| && list == chain[..|list|]
        invariant traversed == if |list| < |chain| then chain[|list|] else intFatTable[chain[|chain| - 1]]
        decreases |chain| - |list|
      {
        EndMarkIsLast(intFatTable, chain, |list|);
        list := list + [traversed];
        traversed := intFatTable[traversed];
      }
    }

    /** Appends a free cluster to the chain that begins at `start`. */
    method AlocCluster(start: int, ghost chain: seq<int>) returns (r: int)
      requires Valid() && IsChain(intFatTable, chain) && chain[0] == start
      modifies this
      ensures Valid()
      ensures r == -1 <==> old(FreeSet(intFatTable)) == {}
      ensures r == -1 ==> unchanged(this)
      ensures r != -1 ==>
        && Fresh(old(intFatTable), [r])
        && intFatTable == Linked(old(intFatTable), chain[|chain| - 1], [r])
        && Saved()
        && forall a | 0 <= a < DISK_SECTORS && !(FIRST_FAT <= a < ROOT_LBA) :: image[a] == old(image)[a]
    {
      hide Agree, Content, Store, FreeSet, Fresh, Linked;
      var freeIndex := RetrieveFreeIndex();
      if freeIndex == -1 {
        return -1;
      }
      var itemClusters := RetrieveSectors(start, chain);
      var back := itemClusters[|itemClusters| - 1];
      OneFresh(intFatTable, chain, freeIndex);
      StoreEntry(freeIndex, END_MARK);
      StoreEntry(back, freeIndex);
      assert intFatTable == old(intFatTable)[back := freeIndex][freeIndex := END_MARK];
      SaveFat();
      return freeIndex;
    }

    /** Links the first free cluster behind `back` and closes it with an end mark. */
    method TakeCluster(back: int) returns (r: int)
      requires Valid() && IsCluster(back) && intFatTable[back] != 0
      modifies this`fatTable, this`intFatTable
      ensures Valid()
      ensures r == -1 ==> intFatTable == old(intFatTable) && FreeSet(intFatTable) == {}
      ensures r != -1 ==> IsCluster(r) && r in old(FreeSet(intFatTable))
      ensures r != -1 ==> intFatTable == old(intFatTable)[back := r][r := 4095]
    {
      r := RetrieveFreeIndex();
      if r != -1 {
        StoreEntry(back, r);
        StoreEntry(r, END_MARK);
      }
    }

    /** One turn of the copying loop: piece `i` of `data` goes to its cluster of the
        file, or to a cluster newly linked behind the file's tail. */
    method CopyPiece(fileNums: seq<int>, first: nat, data: seq<Byte>, i: nat, ghost tab0: seq<int>, ghost image0: seq<Sector>, ghost taken: seq<int>)
      returns (ok: bool, size: nat, ghost taken': seq<int>)
      requires Valid() && IsTable(tab0) && i < CeilDiv(|data|)
      requires Copied(tab0, image0, intFatTable, image, fileNums, first, data, i, taken)
      requires taken != [] ==> first + i == |fileNums| + |taken|
      modifies this
      ensures Valid()
      ensures ok ==> Copied(tab0, image0, intFatTable, image, fileNums, first, data, i + 1, taken')
      ensures ok ==> size == Covered(data, i + 1) - Covered(data, i)
      ensures ok ==> if first + i < |fileNums| then taken' == taken else first + i + 1 == |fileNums| + |taken'|
      ensures !ok ==> image == old(image) && intFatTable == old(intFatTable)
      ensures !ok ==> taken' == taken && FreeSet(intFatTable) == {} && first + i == |fileNums| + |taken|
    {
      hide FreeSet, PiecesWritten, NoRepeats, OnDisk, Linked, Fresh, Written, Piece;
      PieceCount(|data|, i);
      var length := if i == CeilDiv(|data|) - 1 then |data| - 512 * i else 512;
      var clustData := CopyRange(data, 512 * i, length);
      var target;
      taken' := taken;
      if first + i < |fileNums| {
        target := fileNums[first + i];
      } else {
        CopiedTail(tab0, image0, intFatTable, image, fileNums, first, data, i, taken);
        target := TakeCluster(fileNums[|fileNums| - 1]);
        if target == -1 {
          return false, 0, taken;
        }
        CopiedToNewCluster(tab0, image0, old(intFatTable), image, fileNums, first, data, i, taken, target);
        taken' := taken + [target];
      }
      CopiedOneMore(tab0, image0, intFatTable, image, fileNums, first, data, i, taken', target, clustData);
      WriteToFs(target, clustData);
      return true, |clustData|, taken';
    }

    /** The copying loop of a write: piece after piece of `data` goes to the clusters of
        the file from number `first` on, and past its end to newly linked clusters. */
    method WritePieces(fileNums: seq<int>, first: nat, data: seq<Byte>, writtenBytes: nat)
      returns (ok: bool, written: nat, ghost count: nat, ghost taken: seq<int>)
      requires Valid() && IsChain(intFatTable, fileNums) && first < |fileNums|
      requires |data| < TWO_64 && writtenBytes < TWO_64
      modifies this
      ensures Valid()
      ensures Copied(old(intFatTable), old(image), intFatTable, image, fileNums, first, data, count, taken)
      ensures taken != [] ==> first + count == |fileNums| + |taken|
      ensures ok <==> count == CeilDiv(|data|)
      ensures !ok ==> FreeSet(intFatTable) == {} && first + count == |fileNums| + |taken|
      ensures written == SizeT(writtenBytes + Covered(data, count))
    {
      hide Copied, CeilDiv, FreeSet, IsChain;
      written := writtenBytes;
      var i := 0;
      taken := [];
      CopiedNothing(intFatTable, image, fileNums, first, data);
      while i < CeilDiv(|data|)
        invariant 0 <= i <= CeilDiv(|data|)
        invariant Valid()
        invariant taken != [] ==> first + i == |fileNums| + |taken|
        invariant Copied(old(intFatTable), old(image), intFatTable, image, fileNums, first, data, i, taken)
        invariant written == SizeT(writtenBytes + Covered(data, i))
      {
        var more, size;
        more, size, taken := CopyPiece(fileNums, first, data, i, old(intFatTable), old(image), taken);
        if !more {
          return false, written, i, taken;
        }
        written := SizeT(written + size);
        i := i + 1;
      }
      return true, written, i, taken;
    }

    /** Stores the new size of a file in its directory entry. */
    method UpdateFileSize(entry: DirSlot, orgSize: nat, newBytesSize: nat)
      requires |image| == DISK_SECTORS && ROOT_LBA <= entry.lba < DISK_SECTORS && entry.index < 16
      requires orgSize < TWO_64 && newBytesSize < TWO_64
      modifies this`image
      ensures |image| == DISK_SECTORS
      ensures forall a | 0 <= a < DISK_SECTORS && a != entry.lba :: image[a] == old(image)[a]
      ensures SizeField(image[entry.lba], entry.index) == SizeT(orgSize + newBytesSize) % TWO_32
      ensures OnlySizeDiffers(old(image)[entry.lba], image[entry.lba], entry.index)
    {
      var sizeHex := DecToHex(SizeT(orgSize + newBytesSize));
      var dir := ReadFromFs(entry.lba - 31);
      var at := 32 * entry.index + 28;
      var changed: Sector := Splice(dir, at, sizeHex);
      DecToHexRoundTrip(SizeT(orgSize + newBytesSize), changed, entry.index);
      WrittenOne(image, entry.lba, changed);
      WriteToFs(entry.lba - 31, changed);
    }

    /** Writes `buf` into the file at `offset`; the file then ends behind it, unless not
        even the first byte has a cluster to go to.
        Ghost results: the chain the copying loop started from, the clusters it took,
        and the number of bytes that reached the disk. */
    method Write(f: File, offset: nat, buf: seq<Byte>, writtenIn: nat, ghost chain: seq<int>)
      returns (err: NosError, written: nat, ghost base: seq<int>, ghost taken: seq<int>, ghost m: nat)
      requires Valid() && IsChain(intFatTable, chain) && chain[0] == f.handle
      requires (offset <= f.size ==> offset <= 512 * |chain|) && f.size < TWO_64 && offset + |buf| + 512 < TWO_64
      requires EntryApart(intFatTable, chain, f.entry)
      modifies this, f`size
      ensures Valid()
      ensures err == IoError <==> offset > old(f.size)
      ensures err == IoError ==> unchanged(this) && unchanged(f) && written == writtenIn && base == chain && taken == [] && m == 0
      ensures err == Success || err == IoError || err == NotEnoughDiskSpace
      ensures err != IoError ==>
        && Extended(old(intFatTable), intFatTable, chain, base, taken)
        && Spliced(old(image), image, base + taken, offset, buf, m)
        && OthersKept(old(image), image, base + taken, f.entry.lba)
        && f.size == (if offset == 512 * |chain| && |FreeSet(old(intFatTable))| == 0 then old(f.size) else offset + m)
        && written == (if err == Success || f.size != old(f.size) then m else writtenIn)
        && OnlySizeDiffers(old(image)[f.entry.lba], image[f.entry.lba], f.entry.index)
        && (if f.size == old(f.size) then image[f.entry.lba] == old(image)[f.entry.lba]
            else SizeField(image[f.entry.lba], f.entry.index) == f.size % TWO_32)
      ensures err == Success <==> offset <= old(f.size) && Needed(|chain|, offset, |buf|) <= |FreeSet(old(intFatTable))|
      ensures err == Success ==>
        && m == |buf| && |taken| == LoopAppends(|chain|, offset, |buf|)
        && |base| + |taken| == |chain| + Needed(|chain|, offset, |buf|)
      ensures if offset > old(f.size) || (offset == 512 * |chain| && |FreeSet(old(intFatTable))| == 0) then unchanged(this) else Saved()
      ensures err == NotEnoughDiskSpace ==> FreeSet(intFatTable) == {} && offset + m == 512 * (|base| + |taken|)
      ensures err != IoError ==>
        && |base| == |chain| + (if offset == 512 * |chain| && |FreeSet(old(intFatTable))| > 0 then 1 else 0)
        && |FreeSet(intFatTable)| == |FreeSet(old(intFatTable))| - (|base| + |taken| - |chain|)
    {
      hide IsChain, FreeSet, Extended, Spliced, Content, Needed, LoopAppends, SizeField;
      written, base, taken, m := writtenIn, chain, [], 0;
      if offset > f.size {
        return IoError, written, base, taken, m;
      }
      var room, ok, writtenBytes;
      room, ok, writtenBytes, base, taken, m := WriteBytes(f.handle, offset, buf, chain);
      FreeAccounting(old(intFatTable), intFatTable, chain, base, taken);
      if !room {
        assert |FreeSet(old(intFatTable))| == 0;
        return NotEnoughDiskSpace, written, base, taken, m;
      }
      ghost var image1 := image;
      ExtendedApart(old(intFatTable), intFatTable, chain, base, taken, f.entry);
      var resized := FinishWrite(f, offset, writtenBytes);
      SplicedFrame(old(image), image1, old(image), image, base + taken, offset, buf, m);
      if ok || resized {
        written := writtenBytes;
      }
      err := if ok then Success else NotEnoughDiskSpace;
    }

    /** The part of a write that moves the bytes.  `room` fails when not even the first
        byte has a cluster to go to; `ok` fails when the disk fills up on the way. */
    method WriteBytes(handle: int, offset: nat, buf: seq<Byte>, ghost chain: seq<int>)
      returns (room: bool, ok: bool, written: nat, ghost base: seq<int>, ghost taken: seq<int>, ghost m: nat)
      requires Valid() && IsChain(intFatTable, chain) && chain[0] == handle
      requires offset <= 512 * |chain| && offset + |buf| + 512 < TWO_64
      modifies this
      ensures Valid()
      ensures Extended(old(intFatTable), intFatTable, chain, base, taken)
      ensures Spliced(old(image), image, base + taken, offset, buf, m)
      ensures !room ==> unchanged(this) && !ok && base == chain && taken == [] && m == 0
      ensures if room then |base| == |chain| + (if offset == 512 * |chain| then 1 else 0) else FreeSet(intFatTable) == {}
      ensures forall a | 0 <= a < DISK_SECTORS && !(FIRST_FAT <= a < ROOT_LBA) && a !in Lbas(base + taken) :: image[a] == old(image)[a]
      ensures m <= |buf| && (room ==> written == m)
      ensures ok ==> m == |buf| && |taken| == LoopAppends(|chain|, offset, |buf|) && |base| + |taken| == |chain| + Needed(|chain|, offset, |buf|)
      ensures !ok ==> FreeSet(intFatTable) == {} && offset + m == 512 * (|base| + |taken|) && |base| + |taken| < |chain| + Needed(|chain|, offset, |buf|)
    {
      hide CeilDiv, FreeSet, PiecesWritten, NoRepeats, Fresh, Linked, Content, Splice, Needed, LoopAppends;
      written, ok, base, taken, m := 0, false, chain, [], 0;
      var fileNums, sector;
      room, fileNums, sector := ReachOffset(handle, offset, chain);
      if !room {
        ExtendedNothing(intFatTable, chain);
        SplicedNothing(image, chain, offset, buf);
        NeededAtEnd(|chain|, |buf|);
        return;
      }
      base := fileNums;
      ExtendedIsChain(old(intFatTable), intFatTable, chain, base);
      ghost var tab1, image1 := intFatTable, image;
      var data := CopyRange(ReadFromFs(fileNums[sector - 1]), 0, offset % 512);
      data := data + buf;
      ghost var count;
      ok, written, count, taken := WritePieces(fileNums, sector - 1, data, SizeT(0 - offset % 512));
      PieceCount(|data|, 0);
      m := Held(offset % 512, count, buf);
      WriteTally(|chain|, offset, buf, data, |base|, |taken|, count);
      CopiedDone(old(intFatTable), old(image), tab1, image1, intFatTable, image, chain, base, data, count, taken, offset, buf);
    }

    /** Finds the clusters of a file and the number of the sector that holds `offset`,
        appending a cluster first when the offset lies at the very end. */
    method ReachOffset(handle: int, offset: nat, ghost chain: seq<int>) returns (room: bool, fileNums: seq<int>, sector: nat)
      requires Valid() && IsChain(intFatTable, chain) && chain[0] == handle && offset <= 512 * |chain|
      modifies this
      ensures Valid() && sector == offset / 512 + 1
      ensures !room ==> unchanged(this) && FreeSet(intFatTable) == {} && offset == 512 * |chain|
      ensures room ==>
        && Extended(old(intFatTable), intFatTable, chain, fileNums, [])
        && |fileNums| == (if |chain| < sector then |chain| + 1 else |chain|)
        && forall a | 0 <= a < DISK_SECTORS && !(FIRST_FAT <= a < ROOT_LBA) :: image[a] == old(image)[a]
    {
      fileNums := RetrieveSectors(handle, chain);
      sector := if offset == 0 then 1 else offset / 512 + 1;
      if sector > |fileNums| {
        var result := AlocCluster(fileNums[0], chain);
        if result == -1 {
          return false, fileNums, sector;
        }
        fileNums := fileNums + [result];
        assert fileNums[|chain|..] == [result];
        ExtendedBase(old(intFatTable), intFatTable, chain, fileNums);
      } else {
        ExtendedNothing(intFatTable, chain);
      }
      room := true;
    }

    /** The end of every write: saves the tables and sets the size of the file. */
    method FinishWrite(f: File, offset: nat, writtenBytes: nat) returns (resized: bool)
      requires Valid() && f.size < TWO_64 && offset + writtenBytes < TWO_64
      requires ROOT_LBA <= f.entry.lba < DISK_SECTORS && f.entry.index < 16
      modifies this`image, f`size
      ensures Valid() && Saved()
      ensures f.size == offset + writtenBytes && resized == (f.size != old(f.size))
      ensures forall a | 0 <= a < DISK_SECTORS && !(FIRST_FAT <= a < ROOT_LBA) && a != f.entry.lba :: image[a] == old(image)[a]
      ensures OnlySizeDiffers(old(image)[f.entry.lba], image[f.entry.lba], f.entry.index)
      ensures if resized then SizeField(image[f.entry.lba], f.entry.index) == f.size % TWO_32
              else image[f.entry.lba] == old(image)[f.entry.lba]
    {
      SaveFat();
      ghost var saved := image;
      var writtenSize := SizeT(SizeT(offset + writtenBytes) - f.size);
      resized := writtenSize > 0;
      if resized {
        UpdateFileSize(f.entry, f.size, writtenSize);
        f.size := SizeT(f.size + writtenSize);
        ContentFrame(saved, image, Run(FIRST_FAT, FAT_SECTORS));
        ContentFrame(saved, image, Run(SECOND_FAT, FAT_SECTORS));
      }
    }

    /** Reads `size` bytes of a file from `offset` on. */
    method Read(f: File, size: nat, offset: nat, ghost chain: seq<int>) returns (err: NosError, out: seq<Byte>)
      requires Valid() && IsChain(intFatTable, chain) && chain[0] == f.handle
      requires offset + size <= f.size ==> offset + size <= 512 * |chain| && (size > 0 || offset < 512 * |chain|)
      requires offset + size < TWO_64
      ensures err == (if offset + size > f.size then IoError else Success)
      ensures OnDisk(image, Lbas(chain)) && |Content(image, Lbas(chain))| == 512 * |chain|
      ensures err == Success ==> out == Content(image, Lbas(chain))[offset..offset + size]
      ensures err == IoError ==> out == []
    {
      hide Content, Agree;
      ghost var lbas := Lbas(chain);
      ContentLength(image, lbas);
      out := [];
      if offset + size > f.size {
        return IoError, out;
      }
      var fileClustNums := RetrieveSectors(f.handle, chain);
      var sector := if offset == 0 then 1 else offset / 512 + 1;
      var skip := offset % 512;
      out := AppendUpTo(out, ReadFromFs(fileClustNums[sector - 1]), skip, size);
      ContentSlice(image, lbas, sector - 1, skip, skip + |out|);
      out := ReadOn(fileClustNums, sector + 1, size, offset, out);
      return Success, out;
    }

    /** The reading loop: whole sectors from number `sector` on, until `out` has `size` bytes. */
    method ReadOn(fileClustNums: seq<int>, sector0: nat, size: nat, offset: nat, out0: seq<Byte>) returns (out: seq<Byte>)
      requires OnDisk(image, Lbas(fileClustNums)) && |Content(image, Lbas(fileClustNums))| == 512 * |fileClustNums|
      requires |out0| <= size && offset + size <= 512 * |fileClustNums| && 0 < sector0
      requires |out0| == size || offset + |out0| == 512 * (sector0 - 1)
      requires out0 == Content(image, Lbas(fileClustNums))[offset..offset + |out0|]
      ensures out == Content(image, Lbas(fileClustNums))[offset..offset + size]
    {
      hide Content;
      out := out0;
      var sector := sector0;
      while |out| != size
        invariant |out| <= size && 0 < sector
        invariant |out| == size || offset + |out| == 512 * (sector - 1)
        invariant out == Content(image, Lbas(fileClustNums))[offset..offset + |out|]
        decreases size - |out|
      {
        ghost var before := |out|;
        out := AppendUpTo(out, ReadFromFs(fileClustNums[sector - 1]), 0, size);
        SliceGrows(image, Lbas(fileClustNums), offset, before, sector - 1, |out| - before);
        sector := sector + 1;
      }
    }

    method WipeSector(start: int)
      requires 1 <= start + 31 < |image|
      modifies this`image
      ensures image == old(image)[start + 31 := ZeroSector()]
    {
      WrittenOne(image, start + 31, ZeroSector());
      assert Piece(image[start + 31], ZeroSector(), 0) == ZeroSector();
      WriteToFs(start, ZeroSector());
    }

    /** Marks every listed cluster free in both tables and wipes it on the disk. */
    method FreeClusters(clusters: seq<int>)
      requires Valid()
      requires forall i | 0 <= i < |clusters| :: IsCluster(clusters[i])
      modifies this
      ensures Valid()
      ensures intFatTable == Freed(old(intFatTable), clusters)
      ensures image == Wiped(old(image), Lbas(clusters))
    {
      hide Freed, Wiped, Agree;
      var i := 0;
      FreedNothing(intFatTable);
      WipedNothing(image);
      while i < |clusters|
        invariant 0 <= i <= |clusters|
        invariant Valid()
        invariant intFatTable == Freed(old(intFatTable), clusters[..i])
        invariant image == Wiped(old(image), Lbas(clusters)[..i])
      {
        FreedNext(old(intFatTable), clusters, i);
        WipedNext(old(image), Lbas(clusters), i);
        FreeCluster(clusters[i]);
        i := i + 1;
      }
      assert clusters[..i] == clusters && Lbas(clusters)[..i] == Lbas(clusters);
    }

    method FreeCluster(c: int)
      requires Valid() && IsCluster(c)
      modifies this
      ensures Valid()
      ensures intFatTable == old(intFatTable)[c := 0]
      ensures image == old(image)[c + 31 := ZeroSector()]
    {
      StoreEntry(c, 0);
      WipeSector(c);
    }

    /** The sectors at the given starts, read one by one. */
    method ReadAll(starts: seq<int>) returns (bytes: seq<Byte>)
      requires OnDisk(image, Lbas(starts))
      ensures bytes == Content(image, Lbas(starts))
    {
      bytes := [];
      for i := 0 to |starts|
        invariant bytes == Content(image, Lbas(starts)[..i])
      {
        assert Lbas(starts)[..i + 1][..i] == Lbas(starts)[..i];
        bytes := bytes + ReadFromFs(starts[i]);
      }
      assert Lbas(starts)[..|starts|] == Lbas(starts);
    }

    method WipeAll(starts: seq<int>)
      requires OnDisk(image, Lbas(starts)) && forall i | 0 <= i < |starts| :: 1 <= starts[i] + 31
      modifies this`image
      ensures image == Wiped(old(image), Lbas(starts))
    {
      hide Wiped, ZeroSector;
      var i := 0;
      WipedNothing(image);
      while i < |starts|
        invariant 0 <= i <= |starts|
        invariant image == Wiped(old(image), Lbas(starts)[..i])
      {
        WipedNext(old(image), Lbas(starts), i);
        WipeSector(starts[i]);
        i := i + 1;
      }
      assert Lbas(starts)[..i] == Lbas(starts);
    }

    /** Stores `bytes` sector by sector at the given starts. */
    method StoreAll(starts: seq<int>, bytes: seq<Byte>)
      requires |image| == DISK_SECTORS
      requires OnDisk(image, Lbas(starts)) && NoRepeats(Lbas(starts)) && forall i | 0 <= i < |starts| :: 1 <= starts[i] + 31
      requires |bytes| == 512 * |starts|
      modifies this`image
      ensures |image| == DISK_SECTORS && Content(image, Lbas(starts)) == bytes
      ensures forall a | 0 <= a < DISK_SECTORS && a !in Lbas(starts) :: image[a] == old(image)[a]
    {
      hide Content, NoRepeats, Written, Piece, PiecesWritten;
      ghost var lbas := Lbas(starts);
      assert CeilDiv(|bytes|) == |starts|;
      NoPieces(image, lbas, 0, bytes);
      var i := 0;
      while i < |starts|
        invariant 0 <= i <= |starts|
        invariant |image| == DISK_SECTORS && PiecesWritten(old(image), image, lbas, 0, i, bytes)
      {
        var clustToSave := CopyRange(bytes, 512 * i, 512);
        NextPiece(old(image), image, lbas, 0, i, bytes, clustToSave);
        WrittenOne(image, starts[i] + 31, clustToSave);
        WriteToFs(starts[i], clustToSave);
        i := i + 1;
      }
      PiecesElsewhere(old(image), image, lbas, 0, |lbas|, bytes);
      WholeWrite(old(image), image, lbas, bytes);
    }

    /** Removes a directory: frees its chain and takes its entry out of the parent.
        `first` (or -1), `isEmpty` and `idRemove` are the answers of the lookups by name. */
    method Rmdir(first: int, isEmpty: bool, upperRoot: bool, upperFirst: int, idRemove: nat, ghost chain: seq<int>, ghost parent: seq<int>)
      returns (err: NosError)
      requires Valid()
      requires first != -1 ==> IsChain(intFatTable, chain) && chain[0] == first
      requires !upperRoot ==> IsChain(intFatTable, parent) && parent[0] == upperFirst && Disjoint(chain, parent)
      requires 32 * (SlotOf(upperRoot, idRemove) + 1) <= 512 * |ParentStarts(upperRoot, parent)|
      modifies this
      ensures Valid()
      ensures err == (if first == -1 then FileNotFound else if !isEmpty then DirectoryNotEmpty else Success)
      ensures err != Success ==> unchanged(this)
      ensures err == Success ==>
        && intFatTable == Freed(old(intFatTable), chain)
        && Saved()
        && DirectoryGone(old(image), image, chain, ParentStarts(upperRoot, parent), SlotOf(upperRoot, idRemove))
    {
      hide Content, RemoveSlot, SlotRemoved, Freed, Wiped, NoRepeats, FreeSet, Agree, DirectoryGone;
      if first == -1 {
        return FileNotFound;
      }
      var sectorsNums := RetrieveSectors(first, chain);
      if !isEmpty {
        return DirectoryNotEmpty;
      }
      FreeClusters(sectorsNums);
      ghost var image1 := image;
      SaveFat();
      ghost var image2 := image;
      var dataUpper;
      if upperRoot {
        dataUpper := ParentStarts(true, []);
      } else {
        FreedKeepsChain(old(intFatTable), chain, parent);
        dataUpper := RetrieveSectors(upperFirst, parent);
      }
      ParentSectors(old(intFatTable), upperRoot, parent, chain);
      RemoveEntry(dataUpper, SlotOf(upperRoot, idRemove));
      SystemAreaKept(image2, image, dataUpper);
      RmdirDone(old(image), image1, image2, image, chain, dataUpper, SlotOf(upperRoot, idRemove));
      return Success;
    }

    /** Takes one 32-byte entry out of the directory stored at the given starts. */
    method RemoveEntry(starts: seq<int>, k: nat)
      requires |image| == DISK_SECTORS && 32 * (k + 1) <= 512 * |starts|
      requires OnDisk(image, Lbas(starts)) && NoRepeats(Lbas(starts)) && forall i | 0 <= i < |starts| :: 1 <= starts[i] + 31
      modifies this`image
      ensures SlotRemoved(old(image), image, Lbas(starts), k)
      ensures |image| == DISK_SECTORS && forall a | 0 <= a < DISK_SECTORS && a !in Lbas(starts) :: image[a] == old(image)[a]
    {
      ContentLength(image, Lbas(starts));
      var fullFolCont := ReadAll(starts);
      fullFolCont := RemoveSlot(fullFolCont, k);
      WipeAll(starts);
      StoreAll(starts, fullFolCont);
    }
  }

  /** First sectors, in read_from_fs numbering, of the directory that holds the entry. */
  function ParentStarts(upperRoot: bool, parent: seq<int>): (r: seq<int>)
    ensures upperRoot ==> |r| == 14 && forall i | 0 <= i < 14 :: r[i] == ROOT_LBA + i - 31
    ensures !upperRoot ==> r == parent
  {
    if upperRoot then seq(14, i => ROOT_LBA + i - 31) else parent
  }

  /** Slots before the listed entries: the volume label in the root, "." and ".." elsewhere. */
  function SlotOf(upperRoot: bool, id: nat): nat {
    if upperRoot then id + 1 else id + 2
  }

  lemma ParentSectors(tab: seq<int>, upperRoot: bool, parent: seq<int>, chain: seq<int>)
    requires IsTable(tab) && IsChain(tab, chain)
    requires !upperRoot ==> IsChain(tab, parent) && Disjoint(chain, parent)
    ensures var lbas := Lbas(ParentStarts(upperRoot, parent));
            NoRepeats(lbas) && forall i | 0 <= i < |lbas| :: ROOT_LBA <= lbas[i] < DISK_SECTORS && lbas[i] !in Lbas(chain)
    ensures forall i | 0 <= i < |chain| :: DATA_LBA <= Lbas(chain)[i] < DISK_SECTORS
  {
    if !upperRoot {
      ChainNoRepeats(tab, parent);
    }
  }

  /** The removed directory is wiped, its parent lost one entry, nothing else moved. */
  ghost predicate DirectoryGone(image0: seq<Sector>, image: seq<Sector>, chain: seq<int>, starts: seq<int>, k: nat) {
    && |image0| == |image| == DISK_SECTORS
    && SlotRemoved(image0, image, Lbas(starts), k)
    && (forall a | 0 <= a < DISK_SECTORS && a in Lbas(chain) :: image[a] == ZeroSector())
    && (forall a | 0 <= a < DISK_SECTORS && !(FIRST_FAT <= a < ROOT_LBA) && a !in Lbas(chain) && a !in Lbas(starts) :: image[a] == image0[a])
  }

  lemma RmdirDone(image0: seq<Sector>, image1: seq<Sector>, image2: seq<Sector>, image3: seq<Sector>, chain: seq<int>, starts: seq<int>, k: nat)
    requires |image0| == |image1| == |image2| == |image3| == DISK_SECTORS
    requires forall i | 0 <= i < |starts| :: ROOT_LBA <= Lbas(starts)[i] < DISK_SECTORS && Lbas(starts)[i] !in Lbas(chain)
    requires forall i | 0 <= i < |chain| :: DATA_LBA <= Lbas(chain)[i] < DISK_SECTORS
    requires image1 == Wiped(image0, Lbas(chain))
    requires forall a | 0 <= a < DISK_SECTORS && !(FIRST_FAT <= a < ROOT_LBA) :: image2[a] == image1[a]
    requires SlotRemoved(image2, image3, Lbas(starts), k)
    requires forall a | 0 <= a < DISK_SECTORS && a !in Lbas(starts) :: image3[a] == image2[a]
    ensures DirectoryGone(image0, image3, chain, starts, k)
  {
    hide Content, RemoveSlot, Wiped;
    WipedAt(image0, Lbas(chain));
    ContentFrame(image2, image0, Lbas(starts));
  }

  lemma SystemAreaKept(image2: seq<Sector>, image3: seq<Sector>, starts: seq<int>)
    requires |image2| == |image3| == DISK_SECTORS
    requires forall i | 0 <= i < |starts| :: ROOT_LBA <= Lbas(starts)[i]
    requires forall a | 0 <= a < DISK_SECTORS && a !in Lbas(starts) :: image3[a] == image2[a]
    ensures Content(image3, Run(FIRST_FAT, FAT_SECTORS)) == Content(image2, Run(FIRST_FAT, FAT_SECTORS))
    ensures Content(image3, Run(SECOND_FAT, FAT_SECTORS)) == Content(image2, Run(SECOND_FAT, FAT_SECTORS))
  {
    hide Content;
    ContentFrame(image2, image3, Run(FIRST_FAT, FAT_SECTORS));
    ContentFrame(image2, image3, Run(SECOND_FAT, FAT_SECTORS));
  }

  /** The image with the listed sectors zeroed. */
  ghost function Wiped(image: seq<Sector>, lbas: seq<int>): (r: seq<Sector>)
    ensures |r| == |image|
  {
    seq(|image|, a requires 0 <= a < |image| => if a in lbas then ZeroSector() else image[a])
  }

  lemma WipedAt(image: seq<Sector>, lbas: seq<int>)
    ensures forall a | 0 <= a < |image| :: Wiped(image, lbas)[a] == if a in lbas then ZeroSector() else image[a]
  {
  }

  lemma WipedNothing(image: seq<Sector>)
    ensures Wiped(image, []) == image
  {
  }

  lemma WipedNext(image: seq<Sector>, lbas: seq<int>, i: nat)
    requires i < |lbas| && 0 <= lbas[i] < |image|
    ensures Wiped(image, lbas[..i + 1]) == Wiped(image, lbas[..i])[lbas[i] := ZeroSector()]
  {
    assert lbas[..i + 1] == lbas[..i] + [lbas[i]];
  }

  lemma FreedNothing(tab: seq<int>)
    requires IsTable(tab)
    ensures Freed(tab, []) == tab
  {
  }

  lemma FreedNext(tab: seq<int>, c: seq<int>, i: nat)
    requires IsTable(tab) && i < |c|
    requires forall k | 0 <= k < |c| :: IsCluster(c[k])
    ensures Freed(tab, c[..i + 1]) == Freed(tab, c[..i])[c[i] := 0]
  {
    assert c[..i + 1] == c[..i] + [c[i]];
  }

  function RemoveSlot(bytes: seq<Byte>, k: nat): seq<Byte>
    requires 32 * (k + 1) <= |bytes|
  {
    bytes[..32 * k] + bytes[32 * (k + 1)..] + seq(32, _ => 0)
  }

  /** The directory on `lbas` lost entry k: the later entries moved up, a zero entry follows. */
  ghost predicate SlotRemoved(image0: seq<Sector>, image: seq<Sector>, lbas: seq<int>, k: nat) {
    && OnDisk(image0, lbas) && OnDisk(image, lbas)
    && 32 * (k + 1) <= |Content(image0, lbas)|
    && Content(image, lbas) == RemoveSlot(Content(image0, lbas), k)
  }

  lemma FreedKeepsChain(tab: seq<int>, chain: seq<int>, parent: seq<int>)
    requires IsTable(tab) && IsChain(tab, chain) && IsChain(tab, parent) && Disjoint(chain, parent)
    ensures IsChain(Freed(tab, chain), parent)
  {
    forall i | 0 <= i < |parent| ensures Freed(tab, chain)[parent[i]] == tab[parent[i]] {
      assert parent[i] !in chain;
    }
  }


  lemma WrittenBytesExact(head: nat, count: nat, buf: seq<Byte>, data: seq<Byte>)
    requires head < 512 && |data| == head + |buf| && |buf| + 512 < TWO_64
    requires count <= CeilDiv(|data|) && (count > 0 || head == 0)
    ensures SizeT(SizeT(0 - head) + Covered(data, count)) == Held(head, count, buf)
    ensures head + Held(head, count, buf) == Covered(data, count)
    ensures count == CeilDiv(|data|) <==> Held(head, count, buf) == |buf|
    ensures count < CeilDiv(|data|) ==> Held(head, count, buf) == 512 * count - head
  {
  }

  /** Cluster counts of a write: what was appended is what the bounds promise. */
  lemma WriteCounts(n: nat, offset: nat, len: nat, baseLen: nat, takenLen: nat, count: nat)
    requires offset <= 512 * n && 0 < n
    requires baseLen == if n < offset / 512 + 1 then n + 1 else n
    requires count <= CeilDiv(offset % 512 + len)
    requires if takenLen == 0 then offset / 512 + count <= baseLen else offset / 512 + count == baseLen + takenLen
    ensures count == CeilDiv(offset % 512 + len) ==> takenLen == LoopAppends(n, offset, len) && baseLen + takenLen == n + Needed(n, offset, len)
    ensures count < CeilDiv(offset % 512 + len) && offset / 512 + count == baseLen + takenLen ==>
              baseLen + takenLen < n + Needed(n, offset, len) && offset + 512 * count - offset % 512 == 512 * (baseLen + takenLen)
  {
    assert CeilDiv(offset + len) == offset / 512 + CeilDiv(offset % 512 + len);
  }

  lemma WriteTally(n: nat, offset: nat, buf: seq<Byte>, data: seq<Byte>, baseLen: nat, takenLen: nat, count: nat)
    requires offset <= 512 * n && 0 < n
    requires |data| == offset % 512 + |buf| && |buf| + 512 < TWO_64
    requires baseLen == if n < offset / 512 + 1 then n + 1 else n
    requires count <= CeilDiv(|data|) && (count > 0 || offset % 512 == 0)
    requires if takenLen == 0 then offset / 512 + count <= baseLen else offset / 512 + count == baseLen + takenLen
    ensures SizeT(SizeT(0 - offset % 512) + Covered(data, count)) == Held(offset % 512, count, buf)
    ensures count == CeilDiv(|data|) ==>
              Held(offset % 512, count, buf) == |buf| && takenLen == LoopAppends(n, offset, |buf|) && baseLen + takenLen == n + Needed(n, offset, |buf|)
    ensures count < CeilDiv(|data|) && offset / 512 + count == baseLen + takenLen ==>
              offset + Held(offset % 512, count, buf) == 512 * (baseLen + takenLen) && baseLen + takenLen < n + Needed(n, offset, |buf|)
  {
    WrittenBytesExact(offset % 512, count, buf, data);
    WriteCounts(n, offset, |buf|, baseLen, takenLen, count);
  }

  lemma ExtendedNothing(tab: seq<int>, chain: seq<int>)
    requires IsTable(tab) && IsChain(tab, chain)
    ensures Extended(tab, tab, chain, chain, [])
  {
    assert chain[|chain|..] == [];
  }

  lemma ExtendedIsChain(tab0: seq<int>, tab: seq<int>, chain: seq<int>, base: seq<int>)
    requires IsTable(tab0) && Extended(tab0, tab, chain, base, [])
    ensures |tab| == |tab0| && IsChain(tab, base)
  {
  }

  lemma NeededAtEnd(n: nat, len: nat)
    ensures n < n + Needed(n, 512 * n, len)
  {
  }

  lemma SplicedNothing(image: seq<Sector>, chain: seq<int>, offset: nat, buf: seq<Byte>)
    requires |image| == DISK_SECTORS && offset <= 512 * |chain|
    requires forall i | 0 <= i < |chain| :: IsCluster(chain[i])
    ensures Spliced(image, image, chain + [], offset, buf, 0)
  {
    ContentLength(image, Lbas(chain + []));
  }

  lemma ExtendedBase(tab0: seq<int>, tab1: seq<int>, chain: seq<int>, base: seq<int>)
    requires IsTable(tab0) && IsChain(tab0, chain)
    requires chain <= base && |base| <= |chain| + 1
    requires Fresh(tab0, base[|chain|..]) && tab1 == Linked(tab0, chain[|chain| - 1], base[|chain|..])
    ensures IsChain(tab1, base)
  {
    LinkingGrowsChain(tab0, chain, base[|chain|..]);
    assert Grown(chain, base[|chain|..]) == base;
  }

  /** The copying loop's result, read as one replacement in the file's bytes. */
  lemma CopiedSplices(tab1: seq<int>, image1: seq<Sector>, tab: seq<int>, image: seq<Sector>, base: seq<int>,
                      data: seq<Byte>, count: nat, taken: seq<int>, offset: nat, buf: seq<Byte>)
    requires IsTable(tab1)
    requires Copied(tab1, image1, tab, image, base, offset / 512, data, count, taken)
    requires data == image1[base[offset / 512] + 31][..offset % 512] + buf
    requires count > 0 || offset % 512 == 0
    ensures Spliced(image1, image, base + taken, offset, buf, Held(offset % 512, count, buf))
    ensures forall a | 0 <= a < DISK_SECTORS && a !in Lbas(base + taken) :: image[a] == image1[a]
  {
    hide Content, Splice, NoRepeats, Fresh, Linked, Held, CeilDiv, IsChain;
    var lbas, first := Lbas(base + taken), offset / 512;
    assert lbas[first] == base[first] + 31;
    PiecesSplice(image1, image, lbas, first, offset % 512, count, buf);
    PiecesElsewhere(image1, image, lbas, first, count, data);
  }

  /** What the copying loop achieved, stated against the state before the whole write. */
  lemma CopiedDone(tab0: seq<int>, image0: seq<Sector>, tab1: seq<int>, image1: seq<Sector>, tab: seq<int>, image: seq<Sector>,
                   chain: seq<int>, base: seq<int>, data: seq<Byte>, count: nat, taken: seq<int>, offset: nat, buf: seq<Byte>)
    requires IsTable(tab0) && IsTable(tab1)
    requires Extended(tab0, tab1, chain, base, [])
    requires |image0| == |image1| == DISK_SECTORS
    requires forall a | 0 <= a < DISK_SECTORS && !(FIRST_FAT <= a < ROOT_LBA) :: image1[a] == image0[a]
    requires Copied(tab1, image1, tab, image, base, offset / 512, data, count, taken)
    requires data == image1[base[offset / 512] + 31][..offset % 512] + buf
    requires count > 0 || offset % 512 == 0
    ensures Extended(tab0, tab, chain, base, taken)
    ensures Spliced(image0, image, base + taken, offset, buf, Held(offset % 512, count, buf))
    ensures forall a | 0 <= a < DISK_SECTORS && !(FIRST_FAT <= a < ROOT_LBA) && a !in Lbas(base + taken) :: image[a] == image0[a]
  {
    CopiedSplices(tab1, image1, tab, image, base, data, count, taken, offset, buf);
    assert Extended(tab0, tab, chain, base, taken);
    ExtendedClusters(tab0, tab, chain, base, taken);
    forall k | 0 <= k < |base + taken| ensures image1[(base + taken)[k] + 31] == image0[(base + taken)[k] + 31] {
      assert (base + taken)[k] in base + taken;
    }
    SplicedFrame(image1, image, image0, image, base + taken, offset, buf, Held(offset % 512, count, buf));
  }

  lemma SplicedFrame(i0: seq<Sector>, i1: seq<Sector>, j0: seq<Sector>, j1: seq<Sector>, clusters: seq<int>, offset: nat, buf: seq<Byte>, m: nat)
    requires Spliced(i0, i1, clusters, offset, buf, m)
    requires |j0| == |j1| == DISK_SECTORS
    requires forall k | 0 <= k < |clusters| :: i0[clusters[k] + 31] == j0[clusters[k] + 31] && i1[clusters[k] + 31] == j1[clusters[k] + 31]
    ensures Spliced(j0, j1, clusters, offset, buf, m)
  {
    ContentFrame(i0, j0, Lbas(clusters));
    ContentFrame(i1, j1, Lbas(clusters));
  }

  lemma FreshBefore(tab0: seq<int>, chain: seq<int>, added: seq<int>, taken: seq<int>)
    requires IsTable(tab0) && IsChain(tab0, chain) && Fresh(tab0, added)
    requires Fresh(Linked(tab0, chain[|chain| - 1], added), taken)
    ensures Fresh(tab0, taken)
  {
    FreshApart(tab0, chain, added);
    forall k | 0 <= k < |taken| ensures tab0[taken[k]] == 0 {
      LinkedAt(tab0, chain[|chain| - 1], added, taken[k]);
    }
  }

  /** Every cluster a write touches lies in the data area; it is either one of the
      file's own or was free. */
  lemma ExtendedClusters(tab0: seq<int>, tab: seq<int>, chain: seq<int>, base: seq<int>, taken: seq<int>)
    requires IsTable(tab0) && Extended(tab0, tab, chain, base, taken)
    ensures forall x | x in base + taken :: IsCluster(x) && (x in chain || tab0[x] == 0)
  {
    var added := base[|chain|..];
    FreshBefore(tab0, chain, added, taken);
    assert base == chain + added;
  }

  /** So it leaves the directory entry of the file alone. */
  lemma ExtendedApart(tab0: seq<int>, tab: seq<int>, chain: seq<int>, base: seq<int>, taken: seq<int>, entry: DirSlot)
    requires IsTable(tab0) && Extended(tab0, tab, chain, base, taken)
    requires EntryApart(tab0, chain, entry)
    ensures forall k | 0 <= k < |base + taken| :: IsCluster((base + taken)[k]) && (base + taken)[k] + 31 != entry.lba
    ensures entry.lba !in Lbas(base + taken)
  {
    ExtendedClusters(tab0, tab, chain, base, taken);
    var lbas := Lbas(base + taken);
    forall k | 0 <= k < |lbas| ensures lbas[k] != entry.lba {
      assert (base + taken)[k] in base + taken;
    }
  }

  lemma FreeAccounting(tab0: seq<int>, tab: seq<int>, chain: seq<int>, base: seq<int>, taken: seq<int>)
    requires IsTable(tab0) && Extended(tab0, tab, chain, base, taken)
    ensures |FreeSet(tab)| == |FreeSet(tab0)| - (|base| + |taken| - |chain|)
  {
    LinkingTakesFree(tab0, chain, base[|chain|..]);
    LinkingTakesFree(Linked(tab0, chain[|chain| - 1], base[|chain|..]), base, taken);
  }

  /** The directory entry of a file lies in the root directory or in an allocated
      cluster that is not the file's own. */
  ghost predicate EntryApart(tab: seq<int>, chain: seq<int>, entry: DirSlot)
    requires IsTable(tab)
  {
    && entry.index < 16
    && ROOT_LBA <= entry.lba < DISK_SECTORS
    && (DATA_LBA <= entry.lba ==> tab[entry.lba - 31] != 0 && entry.lba - 31 !in chain)
  }

  /** How a write changes the table: `base` is the chain with at most one cluster
      appended; the clusters in `taken` were then linked to its tail one by one. */
  ghost predicate Extended(tab0: seq<int>, tab: seq<int>, chain: seq<int>, base: seq<int>, taken: seq<int>)
    requires IsTable(tab0)
  {
    && IsChain(tab0, chain)
    && chain <= base && |base| <= |chain| + 1
    && Fresh(tab0, base[|chain|..])
    && var tab1 := Linked(tab0, chain[|chain| - 1], base[|chain|..]);
    && IsChain(tab1, base) && Fresh(tab1, taken)
    && tab == Linked(tab1, base[|base| - 1], taken)
  }

  /** How a write changes the bytes: m bytes of `buf` replace those from `offset` on. */
  ghost predicate Spliced(image0: seq<Sector>, image: seq<Sector>, clusters: seq<int>, offset: nat, buf: seq<Byte>, m: nat) {
    && |image0| == |image| == DISK_SECTORS
    && OnDisk(image0, Lbas(clusters))
    && m <= |buf| && offset + m <= |Content(image0, Lbas(clusters))|
    && Content(image, Lbas(clusters)) == Splice(Content(image0, Lbas(clusters)), offset, buf[..m])
  }

  ghost predicate OthersKept(image0: seq<Sector>, image: seq<Sector>, clusters: seq<int>, entryLba: nat) {
    && |image0| == |image| == DISK_SECTORS
    && forall a | 0 <= a < DISK_SECTORS && !(FIRST_FAT <= a < ROOT_LBA) && a != entryLba && a !in Lbas(clusters) ::
         image[a] == image0[a]
  }

  /** State of the copying loop: `count` pieces were written to the clusters of the file
      and, behind them, to the clusters in `taken`, each linked to the file's old tail. */
  ghost predicate Copied(tab0: seq<int>, image0: seq<Sector>, tab: seq<int>, image: seq<Sector>,
                         fileNums: seq<int>, first: nat, data: seq<Byte>, count: nat, taken: seq<int>)
    requires IsTable(tab0)
  {
    && |image0| == DISK_SECTORS
    && IsChain(tab0, fileNums) && first < |fileNums|
    && Fresh(tab0, taken)
    && tab == Linked(tab0, fileNums[|fileNums| - 1], taken)
    && count <= CeilDiv(|data|) && first + count <= |fileNums| + |taken|
    && OnDisk(image0, Lbas(fileNums + taken)) && NoRepeats(Lbas(fileNums + taken))
    && PiecesWritten(image0, image, Lbas(fileNums + taken), first, count, data)
  }

  lemma CopiedNothing(tab: seq<int>, image: seq<Sector>, fileNums: seq<int>, first: nat, data: seq<Byte>)
    requires IsTable(tab) && |image| == DISK_SECTORS
    requires IsChain(tab, fileNums) && first < |fileNums|
    ensures Copied(tab, image, tab, image, fileNums, first, data, 0, [])
  {
    ChainThenFresh(tab, fileNums, []);
    LbasOfClusters(image, fileNums + []);
  }

  lemma CopiedTail(tab0: seq<int>, image0: seq<Sector>, tab: seq<int>, image: seq<Sector>,
                   fileNums: seq<int>, first: nat, data: seq<Byte>, count: nat, taken: seq<int>)
    requires IsTable(tab0)
    requires Copied(tab0, image0, tab, image, fileNums, first, data, count, taken)
    ensures IsCluster(fileNums[|fileNums| - 1]) && tab[fileNums[|fileNums| - 1]] != 0
  {
    FreshApart(tab0, fileNums, taken);
    LinkedAt(tab0, fileNums[|fileNums| - 1], taken, fileNums[|fileNums| - 1]);
  }

  lemma CopiedOneMore(tab0: seq<int>, image0: seq<Sector>, tab: seq<int>, image: seq<Sector>,
                      fileNums: seq<int>, first: nat, data: seq<Byte>, count: nat, taken: seq<int>, target: int, piece: seq<Byte>)
    requires IsTable(tab0)
    requires Copied(tab0, image0, tab, image, fileNums, first, data, count, taken)
    requires first + count < |fileNums| + |taken| && count < CeilDiv(|data|)
    requires target == (fileNums + taken)[first + count]
    requires 512 * count < |data| && piece == data[512 * count..Covered(data, count + 1)]
    ensures 0 < |piece| <= 512 && DATA_LBA <= target + 31 < DISK_SECTORS == |image|
    ensures Copied(tab0, image0, tab, Written(image, target + 31, piece), fileNums, first, data, count + 1, taken)
  {
    ChainThenFresh(tab0, fileNums, taken);
    LbasOfClusters(image0, fileNums + taken);
    var lbas := Lbas(fileNums + taken);
    NextPiece(image0, image, lbas, first, count, data, piece);
    WrittenOne(image, lbas[first + count], piece);
  }

  lemma CopiedToNewCluster(tab0: seq<int>, image0: seq<Sector>, tab: seq<int>, image: seq<Sector>,
                           fileNums: seq<int>, first: nat, data: seq<Byte>, count: nat, taken: seq<int>, x: int)
    requires IsTable(tab0)
    requires Copied(tab0, image0, tab, image, fileNums, first, data, count, taken)
    requires IsCluster(x) && x in FreeSet(tab)
    ensures Copied(tab0, image0, tab[fileNums[|fileNums| - 1] := x][x := END_MARK], image, fileNums, first, data, count, taken + [x])
  {
    hide IsChain, Linked, PiecesWritten, NoRepeats, FreeSet, CeilDiv;
    NextFresh(tab0, fileNums, taken, x);
    ChainThenFresh(tab0, fileNums, taken + [x]);
    LbasOfClusters(image0, fileNums + (taken + [x]));
    assert Lbas(fileNums + (taken + [x])) == Lbas(fileNums + taken) + [x + 31];
    PiecesExtend(image0, image, Lbas(fileNums + taken), [x + 31], first, count, data);
  }

  /** Bytes of `data` in its first `count` pieces. */
  function Covered(data: seq<Byte>, count: nat): nat {
    if 512 * count < |data| then 512 * count else |data|
  }

  lemma LbasOfClusters(image: seq<Sector>, c: seq<int>)
    requires |image| == DISK_SECTORS && NoRepeats(c)
    requires forall i | 0 <= i < |c| :: IsCluster(c[i])
    ensures OnDisk(image, Lbas(c)) && NoRepeats(Lbas(c))
    ensures forall i | 0 <= i < |c| :: DATA_LBA <= Lbas(c)[i] < DISK_SECTORS
  {
  }

  lemma NextPiece(before: seq<Sector>, mid: seq<Sector>, lbas: seq<int>, first: nat, count: nat, data: seq<Byte>, piece: seq<Byte>)
    requires OnDisk(before, lbas) && NoRepeats(lbas)
    requires first + count < |lbas| && count < CeilDiv(|data|)
    requires PiecesWritten(before, mid, lbas, first, count, data)
    requires 512 * count < |data| && piece == data[512 * count..Covered(data, count + 1)]
    ensures 0 < |piece| <= 512
    ensures PiecesWritten(before, mid[lbas[first + count] := Piece(mid[lbas[first + count]], piece, 0)], lbas, first, count + 1, data)
  {
    WriteNextPiece(before, mid, lbas, first, count, data);
    assert Piece(mid[lbas[first + count]], piece, 0) == Piece(mid[lbas[first + count]], data, count);
  }


  lemma WrittenFrame(image: seq<Sector>, lba: int, data: seq<Byte>, a: nat)
    requires 1 <= lba && lba + CeilDiv(|data|) <= |image| && a < |image|
    requires !(lba <= a < lba + CeilDiv(|data|))
    ensures Written(image, lba, data)[a] == image[a]
  {
    PaddedLength(data, image[lba + CeilDiv(|data|) - 1]);
  }

  lemma TableWritten(image: seq<Sector>, lba: int, table: seq<Byte>)
    requires |image| == DISK_SECTORS && |table| == 512 * FAT_SECTORS
    requires 1 <= lba <= DISK_SECTORS - FAT_SECTORS
    ensures Content(Written(image, lba, table), Run(lba, FAT_SECTORS)) == table
  {
    WrittenPieces(image, lba, table);
    WholeWrite(image, Written(image, lba, table), Run(lba, FAT_SECTORS), table);
  }

  lemma TableWrittenTwice(image: seq<Sector>, table: seq<Byte>)
    requires |image| == DISK_SECTORS && |table| == 512 * FAT_SECTORS
    ensures var after := Written(Written(image, FIRST_FAT, table), SECOND_FAT, table);
            && Content(after, Run(FIRST_FAT, FAT_SECTORS)) == table
            && Content(after, Run(SECOND_FAT, FAT_SECTORS)) == table
            && forall a | 0 <= a < DISK_SECTORS && !(FIRST_FAT <= a < ROOT_LBA) :: after[a] == image[a]
  {
    var mid := Written(image, FIRST_FAT, table);
    var after := Written(mid, SECOND_FAT, table);
    forall a | 0 <= a < SECOND_FAT || ROOT_LBA <= a < DISK_SECTORS ensures after[a] == mid[a] {
      WrittenFrame(mid, SECOND_FAT, table, a);
    }
    forall a | 0 <= a < FIRST_FAT || ROOT_LBA <= a < DISK_SECTORS ensures mid[a] == image[a] {
      WrittenFrame(image, FIRST_FAT, table, a);
    }
    TableWritten(image, FIRST_FAT, table);
    TableWritten(mid, SECOND_FAT, table);
    ContentFrame(mid, after, Run(FIRST_FAT, FAT_SECTORS));
  }
}
