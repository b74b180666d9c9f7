/** Disk geometry: the cylinders, heads and sectors that a drive of a given size reports,
    and the check that a request for sectors stays on the disk. */
module Geometry {
  import opened Common

  const MB := 1024 * 1024
  const BYTES_PER_SECTOR := 512
  const SECTORS_PER_TRACK := 63
  const MAX_32 := 0xFFFF_FFFF

  /** From here on the table of head counts gives no answer. */
  const TRANSLATED := 8032 * MB

  datatype Parameters = Parameters(cylinders: nat, heads: nat, sectorsPerTrack: nat, sectors: nat, bytesPerSector: nat)

  datatype Status = NoError | DriveNotReady

  function Heads(size: nat): (heads: nat)
    ensures heads > 0
  {
    if size < 504 * MB then 16
    else if size < 1008 * MB then 32
    else if size < 2016 * MB then 64
    else if size < 4032 * MB then 128
    else if size < TRANSLATED then 255
    else MAX_32
  }

  /** Sectors of one cylinder. */
  function CylinderSize(size: nat): nat {
    SECTORS_PER_TRACK * Heads(size)
  }

  lemma DivisorPositive(a: nat, b: nat)
    requires a > 0 && b > 0
    ensures a * b > 0
  {
  }

  function Quotient(n: nat, a: nat, b: nat): nat
    requires a > 0 && b > 0
  {
    DivisorPositive(a, b);
    n / (a * b)
  }

  /** How many cylinders a drive below the limit reports, for any sector size. */
  function Cylinders(size: nat, bytesPerSector: nat): nat
    requires bytesPerSector > 0
  {
    Quotient(size, CylinderSize(size), bytesPerSector)
  }

  // ----- arithmetic -------------------------------------------------------------------

  lemma DivideUnique(n: nat, d: nat, q: nat)
    requires d > 0 && q * d <= n < q * d + d
    ensures n / d == q
  {
    var r := n / d;
    assert n == r * d + n % d;
    if r < q {
      MonotoneTimes(r + 1, q, d);
    } else if r > q {
      MonotoneTimes(q + 1, r, d);
    }
  }

  lemma MonotoneTimes(a: nat, b: nat, d: nat)
    requires a <= b
    ensures a * d <= b * d
  {
  }

  /** Dividing into cylinders directly or by way of sectors is the same. */
  lemma DivideTwice(n: nat, a: nat, b: nat)
    requires a > 0 && b > 0
    ensures a * b > 0 && n / (a * b) == n / b / a
  {
    DivisorPositive(a, b);
    Between(n, a, b, n / b, n % b, n / b / a, n / b % a);
    DivideUnique(n, a * b, n / b / a);
  }

  lemma Between(n: nat, a: nat, b: nat, s: nat, restS: nat, c: nat, restC: nat)
    requires n == s * b + restS && restS < b && s == c * a + restC && restC < a
    ensures c * (a * b) <= n < c * (a * b) + a * b
  {
    Regroup(c, a, restC, b);
    MonotoneTimes(restC + 1, a, b);
  }

  lemma Regroup(c: nat, a: nat, r: nat, b: nat)
    ensures (c * a + r) * b == c * (a * b) + r * b
    ensures (r + 1) * b == r * b + b
  {
  }

  lemma QuotientBelow(n: nat, d: nat, k: nat)
    requires d > 0
    ensures n / d < k <==> n < k * d
  {
    var q := n / d;
    assert n == q * d + n % d;
    if q < k {
      MonotoneTimes(q + 1, k, d);
    } else {
      MonotoneTimes(k, q, d);
    }
  }

  // ----- what the geometry promises ---------------------------------------------------

  /** The geometry describes the drive: at most 1023 cylinders, none beyond the last
      sector, and less than one cylinder left over. */
  predicate Describes(p: Parameters) {
    && p.cylinders <= 1023
    && p.cylinders * (p.sectorsPerTrack * p.heads) <= p.sectors
    && p.sectors - p.cylinders * (p.sectorsPerTrack * p.heads) < p.sectorsPerTrack * p.heads
  }

  /** Whatever the sector size, whole cylinders fit and less than one is left over. */
  lemma CylindersFill(size: nat, bytesPerSector: nat)
    requires bytesPerSector > 0
    ensures var c, t := Cylinders(size, bytesPerSector), size / bytesPerSector;
            c * CylinderSize(size) <= t < c * CylinderSize(size) + CylinderSize(size)
  {
    DivideTwice(size, CylinderSize(size), bytesPerSector);
    var t := size / bytesPerSector;
    assert t == t / CylinderSize(size) * CylinderSize(size) + t % CylinderSize(size);
  }

  /** The table of head counts keeps the cylinders of every size below 1024 if and only
      if sectors have at least 512 bytes. */
  lemma CylindersBoundedIff(bytesPerSector: nat)
    requires bytesPerSector > 0
    ensures (forall size: nat | size < TRANSLATED :: Cylinders(size, bytesPerSector) <= 1023) <==> bytesPerSector >= 512
  {
    if bytesPerSector >= 512 {
      forall size: nat | size < TRANSLATED ensures Cylinders(size, bytesPerSector) <= 1023 {
        CylindersBounded(size, bytesPerSector);
      }
    } else {
      var size := 504 * MB - 1;
      QuotientBelow(size, 1008 * bytesPerSector, 1024);
      assert Cylinders(size, bytesPerSector) > 1023;
    }
  }

  lemma CylindersBounded(size: nat, bytesPerSector: nat)
    requires bytesPerSector >= 512 && size < TRANSLATED
    ensures Cylinders(size, bytesPerSector) <= 1023
  {
    var h := Heads(size);
    DivisorPositive(CylinderSize(size), bytesPerSector);
    QuotientBelow(size, CylinderSize(size) * bytesPerSector, 1024);
    assert size < 1024 * (63 * h * 512);
    MonotoneTimes(512, bytesPerSector, CylinderSize(size));
  }

  /** The heads are the fewest of the table that keep the cylinders below 1024. */
  lemma LeastHeads(diskSize: nat)
    requires diskSize < TRANSLATED
    ensures forall h | h in {16, 32, 64, 128, 255} :: diskSize / (63 * 512 * h) <= 1023 <==> Heads(diskSize) <= h
  {
  }

  /** The parameters of a drive.  The geometry describes it if and only if its size is
      below the limit of the table. */
  method DriveParameters(diskSize: nat) returns (status: Status, p: Parameters)
    requires diskSize < TWO_64
    ensures status == NoError <==> diskSize > 0
    ensures status == NoError ==>
              && p.bytesPerSector == 512 && p.sectors == diskSize / 512
              && (Describes(p) <==> diskSize < TRANSLATED)
    ensures status == NoError && diskSize < TRANSLATED ==> p.sectorsPerTrack == SECTORS_PER_TRACK && p.heads in {16, 32, 64, 128, 255}
    ensures status == NoError && diskSize < TRANSLATED ==>
              forall h | h in {16, 32, 64, 128, 255} :: diskSize / (63 * 512 * h) <= 1023 <==> p.heads <= h
    ensures status == NoError && diskSize >= TRANSLATED ==> p.cylinders == p.heads == p.sectorsPerTrack == 0xFFFF_FFFF
  {
    p := Parameters(0, 0, 0, 0, 0);
    if diskSize == 0 {
      return DriveNotReady, p;
    }
    var assisted := true;
    if diskSize < 504 * MB {
      p := p.(heads := 16);
    } else if diskSize < 1008 * MB {
      p := p.(heads := 32);
    } else if diskSize < 2016 * MB {
      p := p.(heads := 64);
    } else if diskSize < 4032 * MB {
      p := p.(heads := 128);
    } else if diskSize < 8032 * MB {
      p := p.(heads := 255);
    } else {
      p := p.(sectorsPerTrack := MAX_32, heads := MAX_32, cylinders := MAX_32);
      assisted := false;
    }
    if assisted {
      p := p.(sectorsPerTrack := 63);
      p := p.(cylinders := diskSize / (p.sectorsPerTrack * p.heads * BYTES_PER_SECTOR) % (MAX_32 + 1));
      CylindersBounded(diskSize, BYTES_PER_SECTOR);
      CylindersFill(diskSize, BYTES_PER_SECTOR);
      LeastHeads(diskSize);
    }
    p := p.(bytesPerSector := BYTES_PER_SECTOR % 0x1_0000, sectors := diskSize / BYTES_PER_SECTOR);
    status := NoError;
  }

  // ----- requests ---------------------------------------------------------------------

  /** The check of a request, in the unsigned 64-bit arithmetic it is written in. */
  predicate CheckDap(diskSize: nat, lba: nat, count: nat) {
    (BYTES_PER_SECTOR * ((lba + count) % TWO_64)) % TWO_64 <= diskSize
  }

  /** The check lets through exactly the requests that stay on the disk, and those whose
      end is too large for the arithmetic and wraps around to a place on the disk. */
  lemma CheckIff(diskSize: nat, lba: nat, count: nat)
    requires diskSize < TWO_64
    ensures CheckDap(diskSize, lba, count) <==>
              || 512 * (lba + count) <= diskSize
              || (512 * (lba + count) >= TWO_64 && 512 * (lba + count) % TWO_64 <= diskSize)
  {
    WrapsOnce(lba + count);
  }

  lemma WrapsOnce(n: nat)
    ensures (BYTES_PER_SECTOR * (n % TWO_64)) % TWO_64 == (BYTES_PER_SECTOR * n) % TWO_64
    ensures BYTES_PER_SECTOR * n < TWO_64 ==> (BYTES_PER_SECTOR * n) % TWO_64 == BYTES_PER_SECTOR * n
  {
    var q := n / TWO_64;
    assert BYTES_PER_SECTOR * n == (BYTES_PER_SECTOR * q) * TWO_64 + BYTES_PER_SECTOR * (n % TWO_64);
    ModuloShift(BYTES_PER_SECTOR * (n % TWO_64), BYTES_PER_SECTOR * q);
  }

  lemma ModuloShift(a: nat, k: nat)
    ensures (k * TWO_64 + a) % TWO_64 == a % TWO_64
  {
  }

  /** Every sector that the geometry of a drive addresses may be read and written. */
  lemma AddressedIsOnDisk(diskSize: nat, p: Parameters, lba: nat, count: nat)
    requires diskSize < TWO_64 && p.sectors == diskSize / BYTES_PER_SECTOR && Describes(p)
    requires lba + count <= p.cylinders * (p.sectorsPerTrack * p.heads)
    ensures BYTES_PER_SECTOR * (lba + count) <= diskSize && CheckDap(diskSize, lba, count)
  {
    CheckIff(diskSize, lba, count);
  }
}
