// Where the boot parameter block puts the FAT copies, the root directory and
// the clusters of a volume (kernel/FS/FAT.cpp).
module FatLayout {
  import opened Arithmetic
  import opened Bytes
  import opened FatTable
  import opened FatContent

  const SECTOR := 512

  datatype BPB = BPB(
    bytesPerSector: nat,
    sectorsPerCluster: nat,
    reservedSectors: nat,
    fatsCount: nat,
    rootEntriesCount: nat,
    sectorsPerFat: nat,
    hiddenSectors: nat)
  {
    function FatSector(fatId: nat): nat {
      hiddenSectors + reservedSectors + sectorsPerFat * fatId
    }

    // The sum that GetRootSector truncates to 16 bits.
    function RootStart(): nat {
      FatSector(fatsCount)
    }

    function RootSectors(): nat {
      rootEntriesCount * DIR_ENTRY / SECTOR
    }

    function GetRootSector(): nat {
      RootStart() % 0x10000
    }

    function GetSectorToRead(cluster: nat, isRoot: bool): nat
      requires bytesPerSector > 0
    {
      var sector := (GetRootSector() + cluster * sectorsPerCluster) % 0x10000;
      if isRoot then sector
      else (sector + rootEntriesCount * DIR_ENTRY / bytesPerSector - 2) % 0x10000
    }

    // The first sector of a cluster, without truncation.
    function ClusterStart(cluster: nat): int {
      RootStart() + RootSectors() + cluster * sectorsPerCluster - 2
    }

    // Cluster 0 stands for the fixed root directory.
    function Start(cluster: nat): int {
      if cluster == 0 then RootStart() else ClusterStart(cluster)
    }

    function Sectors(cluster: nat): nat {
      if cluster == 0 then RootSectors() else sectorsPerCluster
    }

    // The buffer size of the cache of a cluster.
    function Bytes(cluster: nat): nat {
      SECTOR * Sectors(cluster)
    }

    function ClusterSize(): nat {
      SECTOR * sectorsPerCluster
    }

    // A FAT12 volume of `total` sectors whose clusters 2 to limit - 1 lie
    // inside it and are addressable with 16-bit sector numbers.
    ghost predicate Fits(total: nat, fatBytes: nat, limit: nat) {
      && bytesPerSector == SECTOR
      && sectorsPerCluster > 0
      && RootSectors() > 0
      && fatBytes == sectorsPerFat * SECTOR <= 0x10000
      && 2 <= limit <= EntryCount(fatBytes)
      && limit <= 0xFF0
      && total <= 0x10000
      && RootStart() + RootSectors() <= total
      && (forall c :: InDomain(limit, c) ==> Start(c) + Sectors(c) <= total)
    }
  }

  predicate InDomain(limit: nat, c: nat) {
    c == 0 || 2 <= c < limit
  }

  lemma {:induction false} NoWrap(root: nat, m: nat, r: nat)
    requires m >= 2 && root + m + r - 2 < 0x10000 && root + r <= 0x10000
    ensures root < 0x10000 ==> ((root % 0x10000 + m) % 0x10000 + r - 2) % 0x10000 == root + m + r - 2
  {
    if root + m < 0x10000 {
    } else {
      assert (root + m) % 0x10000 == root + m - 0x10000;
    }
  }

  // Sector numbers computed in 16 bits are the untruncated ones.
  lemma {:induction false} SectorToReadExact(b: BPB, total: nat, fatBytes: nat, limit: nat, c: nat)
    requires b.Fits(total, fatBytes, limit) && InDomain(limit, c)
    ensures b.GetSectorToRead(c, c == 0) == b.Start(c)
    ensures 0 <= b.Start(c) && b.Start(c) + b.Sectors(c) <= total
  {
    assert b.Start(c) + b.Sectors(c) <= total;
    var m := c * b.sectorsPerCluster;
    if c != 0 {
      assert 2 <= m by { MulMonotonic(2, c, b.sectorsPerCluster); }
      NoWrap(b.RootStart(), m, b.RootSectors());
    }
  }

  // Every cluster lies behind all FAT copies, and different clusters occupy
  // different sectors; the root directory lies in between.
  lemma {:induction false} RegionsDisjoint(b: BPB, total: nat, fatBytes: nat, limit: nat, c: nat, d: nat)
    requires b.Fits(total, fatBytes, limit) && InDomain(limit, c) && InDomain(limit, d)
    ensures b.RootStart() <= b.Start(c)
    ensures c < d ==> b.Start(c) + b.Sectors(c) <= b.Start(d)
  {
    if c != 0 {
      MulMonotonic(2, c, b.sectorsPerCluster);
    }
    if c < d {
      MulMonotonic(c + 1, d, b.sectorsPerCluster);
      MulMonotonic(2, d, b.sectorsPerCluster);
      assert (c + 1) * b.sectorsPerCluster == c * b.sectorsPerCluster + b.sectorsPerCluster;
    }
  }

  lemma {:induction false} FatCopiesApart(b: BPB, j: nat, k: nat)
    requires j < k
    ensures b.FatSector(j) + b.sectorsPerFat <= b.FatSector(k)
  {
    MulMonotonic(j + 1, k, b.sectorsPerFat);
    assert (j + 1) * b.sectorsPerFat == j * b.sectorsPerFat + b.sectorsPerFat;
  }

  // All sectors of a FAT copy lie in front of the root directory.
  lemma {:induction false} FatBeforeRoot(b: BPB, fatId: nat)
    requires fatId < b.fatsCount
    ensures b.FatSector(fatId) + b.sectorsPerFat <= b.RootStart()
  {
    FatCopiesApart(b, fatId, b.fatsCount);
  }

  // The cluster-to-sector mapping of fatgen103: the first data sector plus
  // (cluster - 2) * sectorsPerCluster. The code agrees with it exactly when a
  // cluster is one sector.
  lemma {:induction false} AgreesWithFatgen(b: BPB, c: nat)
    ensures b.ClusterStart(c) == b.RootStart() + b.RootSectors() + (c - 2) * b.sectorsPerCluster
       <==> b.sectorsPerCluster == 1
  {
    assert (c - 2) * b.sectorsPerCluster == c * b.sectorsPerCluster - 2 * b.sectorsPerCluster;
  }

  // The root directory has room for all its entries exactly if they fill whole
  // sectors of 16.
  lemma {:induction false} RootHoldsEntries(b: BPB)
    ensures b.Bytes(0) % 512 == 0 && b.Bytes(0) / 32 <= b.rootEntriesCount < b.Bytes(0) / 32 + 16
    ensures b.Bytes(0) / 32 == b.rootEntriesCount <==> b.rootEntriesCount % 16 == 0
  {
    var q := b.rootEntriesCount / 16;
    assert b.rootEntriesCount == 16 * q + b.rootEntriesCount % 16;
    DivIs(b.rootEntriesCount * 32, 512, q, b.rootEntriesCount % 16 * 32);
    assert b.Bytes(0) == 512 * q;
    DivIs(512 * q, 32, 16 * q, 0);
    DivIs(512 * q, 512, q, 0);
  }

  lemma SectorsPositive(b: BPB, total: nat, fatBytes: nat, limit: nat, c: nat)
    requires b.Fits(total, fatBytes, limit)
    ensures b.Sectors(c) >= 1
  {
  }

  lemma {:induction false} BytesPositive(b: BPB, total: nat, fatBytes: nat, limit: nat, c: nat)
    requires b.Fits(total, fatBytes, limit)
    ensures b.Bytes(c) >= SECTOR && b.Bytes(c) % DIR_ENTRY == 0
  {
    SectorsPositive(b, total, fatBytes, limit, c);
    hide BPB.Fits, BPB.Sectors;
    assert b.Bytes(c) == DIR_ENTRY * (16 * b.Sectors(c));
  }

  // --- The bytes of a partition ---

  type Sector = s: seq<byte> | |s| == SECTOR witness seq(SECTOR, _ => 0)

  ghost function DiskBytes(b: BPB, sectors: seq<Sector>, c: nat): (r: seq<byte>)
    requires 0 <= b.Start(c) && b.Start(c) + b.Sectors(c) <= |sectors|
    ensures |r| == b.Bytes(c)
  {
    seq(b.Bytes(c), i requires 0 <= i < b.Bytes(c) => sectors[b.Start(c) + i / SECTOR][i % SECTOR])
  }

  lemma DiskByteAt(b: BPB, sectors: seq<Sector>, c: nat, i: nat)
    requires 0 <= b.Start(c) && b.Start(c) + b.Sectors(c) <= |sectors| && i < b.Sectors(c) * 512
    ensures i < |DiskBytes(b, sectors, c)| && DiskBytes(b, sectors, c)[i] == sectors[b.Start(c) + i / 512][i % 512]
  {
  }

  function SectorSlice(fat: seq<byte>, a: nat): seq<byte>
    requires (a + 1) * SECTOR <= |fat|
  {
    fat[a * SECTOR..(a + 1) * SECTOR]
  }

  ghost predicate FatCopy(b: BPB, sectors: seq<Sector>, fat: seq<byte>, fatId: nat) {
    && |fat| == b.sectorsPerFat * SECTOR
    && b.FatSector(fatId) + b.sectorsPerFat <= |sectors|
    && forall a :: 0 <= a < b.sectorsPerFat ==> sectors[b.FatSector(fatId) + a] == SectorSlice(fat, a)
  }

  // Every FAT copy on the partition equals `fat`.
  ghost predicate FatCopies(b: BPB, sectors: seq<Sector>, fat: seq<byte>) {
    forall k :: 0 <= k < b.fatsCount ==> FatCopy(b, sectors, fat, k)
  }

  // The sectors from `start` on hold the bytes of `buf`; nothing else changed.
  ghost predicate Written(sectors: seq<Sector>, sectors': seq<Sector>, start: int, buf: seq<byte>, count: nat) {
    && |sectors'| == |sectors| && count * SECTOR <= |buf|
    && forall j :: 0 <= j < |sectors| ==>
                     sectors'[j] == if start <= j < start + count then SectorSlice(buf, j - start) else sectors[j]
  }

  // Writing the sectors of one cluster changes the bytes of that cluster and
  // of no other, and no FAT copy.
  lemma {:induction false} ClusterWritten(b: BPB, sectors: seq<Sector>, sectors': seq<Sector>, fat: seq<byte>,
                                          limit: nat, c: nat, buf: seq<byte>)
    requires b.Fits(|sectors|, |fat|, limit) && InDomain(limit, c) && |buf| == b.Bytes(c)
    requires Written(sectors, sectors', b.Start(c), buf, b.Sectors(c))
    ensures InDisk(b, sectors', |fat|, limit, c) && DiskBytes(b, sectors', c) == buf
    ensures FatCopies(b, sectors, fat) ==> FatCopies(b, sectors', fat)
  {
    SectorToReadExact(b, |sectors|, |fat|, limit, c);
    RegionsDisjoint(b, |sectors|, |fat|, limit, c, c);
    assert DiskBytes(b, sectors', c) == buf;
    if FatCopies(b, sectors, fat) {
      forall k | 0 <= k < b.fatsCount
        ensures FatCopy(b, sectors', fat, k)
      {
        FatBeforeRoot(b, k);
        assert FatCopy(b, sectors, fat, k);
      }
    }
  }

  ghost predicate InDisk(b: BPB, sectors: seq<Sector>, fatBytes: nat, limit: nat, c: nat) {
    b.Fits(|sectors|, fatBytes, limit) && 0 <= b.Start(c) && b.Start(c) + b.Sectors(c) <= |sectors|
  }

  lemma {:induction false} OtherClusterKept(b: BPB, sectors: seq<Sector>, sectors': seq<Sector>, fatBytes: nat,
                                            limit: nat, c: nat, buf: seq<byte>, d: nat)
    requires b.Fits(|sectors|, fatBytes, limit) && InDomain(limit, c) && InDomain(limit, d) && c != d
    requires Written(sectors, sectors', b.Start(c), buf, b.Sectors(c))
    ensures InDisk(b, sectors, fatBytes, limit, d) && InDisk(b, sectors', fatBytes, limit, d)
    ensures DiskBytes(b, sectors', d) == DiskBytes(b, sectors, d)
  {
    SectorToReadExact(b, |sectors|, fatBytes, limit, c);
    SectorToReadExact(b, |sectors|, fatBytes, limit, d);
    RegionsDisjoint(b, |sectors|, fatBytes, limit, c, d);
    RegionsDisjoint(b, |sectors|, fatBytes, limit, d, c);
  }

  // Writing inside the FAT area changes no cluster.
  lemma {:induction false} FatAreaWritten(b: BPB, sectors: seq<Sector>, sectors': seq<Sector>, fatBytes: nat, limit: nat, d: nat)
    requires b.Fits(|sectors|, fatBytes, limit) && InDomain(limit, d)
    requires |sectors'| == |sectors|
    requires forall j :: b.RootStart() <= j < |sectors| ==> sectors'[j] == sectors[j]
    ensures InDisk(b, sectors, fatBytes, limit, d) && InDisk(b, sectors', fatBytes, limit, d)
    ensures DiskBytes(b, sectors', d) == DiskBytes(b, sectors, d)
  {
    SectorToReadExact(b, |sectors|, fatBytes, limit, d);
    RegionsDisjoint(b, |sectors|, fatBytes, limit, d, d);
  }

  // The bytes of `count` sectors from `start` on.
  function SectorBytes(sectors: seq<Sector>, start: nat, count: nat): (r: seq<byte>)
    requires start + count <= |sectors|
    ensures |r| == count * SECTOR
  {
    seq(count * SECTOR, i requires 0 <= i < count * SECTOR => sectors[start + i / SECTOR][i % SECTOR])
  }

  // What Mount reads is the first FAT copy.
  ghost predicate ReadsFirstCopy(b: BPB, sectors: seq<Sector>)
    requires b.reservedSectors + b.sectorsPerFat <= |sectors|
  {
    FatCopy(b, sectors, SectorBytes(sectors, b.reservedSectors, b.sectorsPerFat), 0)
  }

  lemma {:induction false} SliceOfBytes(b: BPB, sectors: seq<Sector>, a: nat)
    requires b.reservedSectors + b.sectorsPerFat <= |sectors| && a < b.sectorsPerFat
    ensures (a + 1) * SECTOR <= b.sectorsPerFat * SECTOR
    ensures SectorSlice(SectorBytes(sectors, b.reservedSectors, b.sectorsPerFat), a) == sectors[b.reservedSectors + a]
  {
    var fat := SectorBytes(sectors, b.reservedSectors, b.sectorsPerFat);
    forall i | 0 <= i < SECTOR
      ensures SectorSlice(fat, a)[i] == sectors[b.reservedSectors + a][i]
    {
      assert SectorSlice(fat, a)[i] == fat[a * SECTOR + i];
      assert (a * SECTOR + i) / SECTOR == a && (a * SECTOR + i) % SECTOR == i;
    }
  }

  // Mount reads the table from the sector behind the reserved ones and leaves
  // the hidden sectors out. That is right for every partition exactly if there
  // are no hidden sectors.
  lemma {:induction false} MountReadsFirstCopyIff(b: BPB, total: nat)
    requires b.RootStart() <= total && b.fatsCount > 0 && b.sectorsPerFat > 0
    ensures b.FatSector(0) + b.sectorsPerFat <= total
    ensures (forall sectors: seq<Sector> :: |sectors| == total ==> ReadsFirstCopy(b, sectors)) <==> b.hiddenSectors == 0
  {
    FatBeforeRoot(b, 0);
    if b.hiddenSectors == 0 {
      forall sectors: seq<Sector> | |sectors| == total
        ensures ReadsFirstCopy(b, sectors)
      {
        forall a | 0 <= a < b.sectorsPerFat
          ensures sectors[b.FatSector(0) + a] ==
                  SectorSlice(SectorBytes(sectors, b.reservedSectors, b.sectorsPerFat), a)
        {
          SliceOfBytes(b, sectors, a);
        }
      }
    } else {
      var zeros: Sector, ones: Sector := seq(SECTOR, _ => 0), seq(SECTOR, _ => 1);
      var sectors := seq(total, i => if i == b.reservedSectors then ones else zeros);
      SliceOfBytes(b, sectors, 0);
      assert zeros[0] != ones[0];
      assert sectors[b.FatSector(0) + 0] == zeros;
      assert !ReadsFirstCopy(b, sectors);
    }
  }
}
