// The mounted volume: the in-memory table, the partition and the cluster
// cache (kernel/FS/FAT.cpp).
//
// `view` is what a reader of the volume sees: for every cluster the cached
// buffer if there is one, else the sectors on the partition.
module FatVolume {
  import opened Bytes
  import opened FatTable
  import opened FatChains
  import opened FatLayout
  import opened FatContent

  class Cache {
    var refCount: nat
    const cluster: nat
    var dirty: bool
    const buffer: array<byte>

    constructor (cluster: nat, size: nat)
      ensures refCount == 1 && !dirty && this.cluster == cluster
      ensures fresh(buffer) && buffer.Length == size
    {
      this.refCount := 1;
      this.cluster := cluster;
      this.dirty := false;
      this.buffer := new byte[size];
    }
  }

  // The reference count is a 32-bit word.
  function Decremented(count: nat): nat {
    if count == 0 then 0xFFFF_FFFF else count - 1
  }

  class Info {
    const bpb: BPB
    const fat: array<byte>
    var sectors: seq<Sector>
    var cacheObjects: seq<Cache>

    ghost const limit: nat
    ghost var table: seq<nat>
    ghost var view: View
    ghost var index: map<nat, Cache>
    ghost var owner: map<array<byte>, nat>
    ghost var Repr: set<object>

    // Mount: reads the table into memory; nothing is cached.
    constructor (bpb: BPB, sectors: seq<Sector>, ghost limit: nat)
      requires bpb.Fits(|sectors|, bpb.sectorsPerFat * SECTOR, limit)
      requires bpb.reservedSectors + bpb.sectorsPerFat <= |sectors|
      requires WellFormed(Entries(SectorBytes(sectors, bpb.reservedSectors, bpb.sectorsPerFat)), limit)
      ensures Valid() && fresh(Repr) && this.bpb == bpb && this.sectors == sectors && this.limit == limit
      ensures fat[..] == SectorBytes(sectors, bpb.reservedSectors, bpb.sectorsPerFat) && cacheObjects == []
      ensures forall k :: k in view ==> view[k] == OnDisk(k)
    {
      this.bpb, this.sectors, this.limit := bpb, sectors, limit;
      cacheObjects, index, owner := [], map[], map[];
      fat := new byte[bpb.sectorsPerFat * SECTOR];
      table := Entries(SectorBytes(sectors, bpb.reservedSectors, bpb.sectorsPerFat));
      new;
      hide WellFormed, Entries, OnDisk;
      ghost var bytes := SectorBytes(sectors, bpb.reservedSectors, bpb.sectorsPerFat);
      for a := 0 to bpb.sectorsPerFat
        invariant forall i :: 0 <= i < a * SECTOR ==> fat[i] == bytes[i]
        modifies fat
      {
        ghost var before := fat[..];
        Read(bpb.reservedSectors + a, fat, a * SECTOR);
        ReadPart(sectors, bpb.reservedSectors, bpb.sectorsPerFat, a, fat[..], before);
      }
      assert fat[..] == bytes;
      hide BPB.Fits;
      view := map k: nat | k < limit && InDomain(limit, k) :: OnDisk(k);
      Repr := {this, fat};
    }

    // The cache list holds at most one object per cluster, each with a buffer
    // of its own.
    ghost predicate CachesValid()
      reads this
    {
      && (forall c :: c in cacheObjects ==> c.cluster in index && index[c.cluster] == c)
      && (forall k :: k in index ==> CacheValid(k, index[k]))
    }

    ghost predicate CacheValid(k: nat, c: Cache)
      reads this
    {
      && c in cacheObjects && c in Repr && c.cluster == k
      && c.buffer in Repr && c.buffer != fat && c.buffer in owner && owner[c.buffer] == k
      && InDomain(limit, k) && c.buffer.Length == bpb.Bytes(k)
    }

    ghost function OnDisk(k: nat): seq<byte>
      reads this`sectors
      requires bpb.Fits(|sectors|, fat.Length, limit) && InDomain(limit, k)
    {
      SectorToReadExact(bpb, |sectors|, fat.Length, limit, k);
      DiskBytes(bpb, sectors, k)
    }

    ghost predicate ViewValid()
      reads this, Repr
      requires bpb.Fits(|sectors|, fat.Length, limit) && CachesValid()
    {
      && (forall k :: k in view <==> InDomain(limit, k))
      && (forall k :: k in view ==> view[k] == if k in index then index[k].buffer[..] else OnDisk(k))
    }

    // Cache objects are never evicted.
    ghost predicate Keeps(before: map<nat, Cache>)
      reads this`index
    {
      forall k :: k in before ==> k in index && index[k] == before[k]
    }

    // Everything but the chains: the decoded table, the cache and the view agree.
    ghost predicate Coherent()
      reads this, Repr
    {
      && this in Repr && fat in Repr
      && bpb.Fits(|sectors|, fat.Length, limit)
      && table == Entries(fat[..])
      && CachesValid()
      && ViewValid()
    }

    ghost predicate Valid()
      reads this, Repr
      ensures Valid() ==> this in Repr && fat in Repr
    {
      Coherent() && WellFormed(table, limit)
    }

    ghost predicate FatsOnDisk()
      reads this`sectors, fat
    {
      FatCopies(bpb, sectors, fat[..])
    }

    // --- Partition access ---

    method Read(lba: nat, buffer: array<byte>, offset: nat)
      requires lba < |sectors| && offset + SECTOR <= buffer.Length
      modifies buffer
      ensures forall i :: 0 <= i < buffer.Length ==>
                buffer[i] == if offset <= i < offset + SECTOR then sectors[lba][i - offset] else old(buffer[i])
    {
      var sector := sectors[lba];
      forall i | 0 <= i < SECTOR {
        buffer[offset + i] := sector[i];
      }
    }

    // --- The cluster cache ---

    // Reads the sectors of a cluster into a new buffer.
    method Load(cache: Cache)
      requires bpb.Fits(|sectors|, fat.Length, limit) && InDomain(limit, cache.cluster)
      requires cache.buffer.Length == bpb.Bytes(cache.cluster)
      modifies cache.buffer
      ensures cache.buffer[..] == OnDisk(cache.cluster)
    {
      SectorToReadExact(bpb, |sectors|, fat.Length, limit, cache.cluster);
      var count := bpb.Sectors(cache.cluster);
      var sector := bpb.GetSectorToRead(cache.cluster, cache.cluster == 0);
      for a := 0 to count
        invariant forall i :: 0 <= i < a * SECTOR ==>
                    cache.buffer[i] == sectors[sector + i / SECTOR][i % SECTOR]
      {
        Read(sector + a, cache.buffer, a * SECTOR);
        assert forall i :: a * SECTOR <= i < (a + 1) * SECTOR ==> i / SECTOR == a && i % SECTOR == i - a * SECTOR;
      }
    }

    // The second half of GetCache: a new cache object for a cluster without one.
    method NewCache(cluster: nat) returns (cache: Cache)
      requires bpb.Fits(|sectors|, fat.Length, limit) && InDomain(limit, cluster)
      ensures fresh(cache) && fresh(cache.buffer) && cache.cluster == cluster && !cache.dirty && cache.refCount == 1
      ensures cache.buffer.Length == bpb.Bytes(cluster) && cache.buffer[..] == OnDisk(cluster)
    {
      cache := new Cache(cluster, bpb.Bytes(cluster));
      Load(cache);
    }

    method AddCache(cluster: nat) returns (cache: Cache)
      requires Valid() && InDomain(limit, cluster) && cluster !in index
      modifies this`cacheObjects, this`Repr, this`index, this`owner
      ensures Valid() && fresh(Repr - old(Repr)) && old(Repr) <= Repr && fresh(cache)
      ensures cacheObjects == old(cacheObjects) + [cache] && !cache.dirty && cache.refCount == 1
      ensures index == old(index)[cluster := cache]
    {
      hide WellFormed, Entries, BPB.Fits, OnDisk, BPB.Bytes, CachesValid, ViewValid, InDomain;
      cache := NewCache(cluster);
      cacheObjects, index, owner, Repr :=
        cacheObjects + [cache], index[cluster := cache], owner[cache.buffer := cluster], Repr + {cache, cache.buffer};
      CachesGrown(cache);
      ViewGrown(cache);
    }

    twostate predicate Added(new cache: Cache)
      reads this
    {
      && fresh(cache) && fresh(cache.buffer)
      && cacheObjects == old(cacheObjects) + [cache] && index == old(index)[cache.cluster := cache]
      && owner == old(owner)[cache.buffer := cache.cluster] && Repr == old(Repr) + {cache, cache.buffer}
    }

    twostate lemma CachesGrown(new cache: Cache)
      requires old(CachesValid()) && old(allocated(Repr)) && Added(cache)
      requires InDomain(limit, cache.cluster) && cache.cluster !in old(index)
      requires cache.buffer.Length == bpb.Bytes(cache.cluster)
      ensures CachesValid()
    {
      hide BPB.Fits, OnDisk, BPB.Bytes, InDomain;
    }

    twostate lemma ViewGrown(new cache: Cache)
      requires bpb.Fits(|old(sectors)|, fat.Length, limit) && sectors == old(sectors) && view == old(view)
      requires old(CachesValid()) && CachesValid() && old(ViewValid()) && Added(cache)
      requires cache.cluster !in old(index)
      requires cache.buffer[..] == OnDisk(cache.cluster)
      requires forall k :: k in old(index) ==> index[k].buffer[..] == old(index[k].buffer[..])
      requires forall k :: InDomain(limit, k) ==> OnDisk(k) == old(OnDisk(k))
      ensures ViewValid()
    {
      hide BPB.Fits, OnDisk, BPB.Bytes, InDomain, CachesValid;
    }

    method GetCache(cluster: nat) returns (cache: Cache)
      requires Valid() && InDomain(limit, cluster)
      modifies Repr
      ensures Valid() && fresh(Repr - old(Repr)) && old(Repr) <= Repr
      ensures view == old(view) && table == old(table) && sectors == old(sectors)
      ensures fat[..] == old(fat[..])
      ensures HasCache(cache) && cache.cluster == cluster && cache.buffer.Length == bpb.Bytes(cluster)
      ensures if cluster in old(index) then cacheObjects == old(cacheObjects) && index == old(index)
              else cacheObjects == old(cacheObjects) + [cache] && index == old(index)[cluster := cache] && !cache.dirty
      ensures forall c :: c in old(cacheObjects) ==> c.dirty == old(c.dirty)
      ensures cache.refCount == if cluster in old(index) then old((index[cluster].refCount + 1) % 0x1_0000_0000) else 1
      ensures forall c :: c in old(cacheObjects) && c != cache ==> c.refCount == old(c.refCount)
    {
      hide WellFormed, Entries, BPB.Fits, OnDisk, BPB.Bytes;
      for i := 0 to |cacheObjects|
        invariant forall j :: 0 <= j < i ==> cacheObjects[j].cluster != cluster
      {
        if cacheObjects[i].cluster == cluster {
          cache := cacheObjects[i];
          cache.refCount := (cache.refCount + 1) % 0x1_0000_0000;
          return;
        }
      }
      cache := AddCache(cluster);
    }

    // The write loop of FlushCache.
    method WriteCluster(cache: Cache)
      requires bpb.Fits(|sectors|, fat.Length, limit) && InDomain(limit, cache.cluster)
      requires cache.buffer.Length == bpb.Bytes(cache.cluster)
      modifies this`sectors
      ensures Written(old(sectors), sectors, bpb.Start(cache.cluster), cache.buffer[..], bpb.Sectors(cache.cluster))
    {
      SectorToReadExact(bpb, |sectors|, fat.Length, limit, cache.cluster);
      var sector := bpb.GetSectorToRead(cache.cluster, cache.cluster == 0);
      hide BPB.Fits, BPB.GetSectorToRead, BPB.Start;
      for a := 0 to bpb.Sectors(cache.cluster)
        invariant Written(old(sectors), sectors, sector, cache.buffer[..], a)
      {
        sectors := sectors[sector + a := SectorSlice(cache.buffer[..], a)];
      }
    }

    method FlushCache(cache: Cache)
      requires Valid() && cache in cacheObjects
      modifies this`sectors, cache`dirty
      ensures Valid() && !cache.dirty
      ensures if old(cache.dirty)
              then Written(old(sectors), sectors, bpb.Start(cache.cluster), cache.buffer[..], bpb.Sectors(cache.cluster))
              else sectors == old(sectors)
      ensures index[cache.cluster] == cache
      ensures old(cache.dirty) ==> OnDisk(cache.cluster) == view[cache.cluster]
      ensures forall k :: InDomain(limit, k) && k != cache.cluster ==> OnDisk(k) == old(OnDisk(k))
      ensures old(FatsOnDisk()) ==> FatsOnDisk()
    {
      hide WellFormed, Entries, BPB.Fits, OnDisk, BPB.Bytes, Written, FatCopies, BPB.Start, BPB.Sectors;
      if cache.dirty {
        WriteCluster(cache);
        ClusterFlushed(cache);
        cache.dirty := false;
      }
    }

    twostate lemma ClusterFlushed(cache: Cache)
      requires bpb.Fits(|old(sectors)|, fat.Length, limit) && InDomain(limit, cache.cluster)
      requires cache.buffer.Length == bpb.Bytes(cache.cluster)
      requires fat[..] == old(fat[..])
      requires Written(old(sectors), sectors, bpb.Start(cache.cluster), cache.buffer[..], bpb.Sectors(cache.cluster))
      ensures bpb.Fits(|sectors|, fat.Length, limit)
      ensures old(FatsOnDisk()) ==> FatsOnDisk()
      ensures OnDisk(cache.cluster) == cache.buffer[..]
      ensures forall k :: InDomain(limit, k) && k != cache.cluster ==> OnDisk(k) == old(OnDisk(k))
    {
      hide BPB.Start, BPB.Sectors, Written, FatCopies;
      ClusterWritten(bpb, old(sectors), sectors, fat[..], limit, cache.cluster, cache.buffer[..]);
      forall k | InDomain(limit, k) && k != cache.cluster
        ensures OnDisk(k) == old(OnDisk(k))
      {
        OtherClusterKept(bpb, old(sectors), sectors, fat.Length, limit, cache.cluster, cache.buffer[..], k);
      }
    }

    method FreeCache(cache: Cache?)
      requires Valid() && (cache != null ==> cache in cacheObjects)
      modifies this`sectors, cache
      ensures Valid()
      ensures old(FatsOnDisk()) ==> FatsOnDisk()
      ensures cache != null ==> cache.refCount == if old(cache.refCount) == 0 then 0xFFFF_FFFF else old(cache.refCount) - 1
      ensures cache != null ==> (cache.dirty <==> old(cache.dirty) && cache.refCount != 0)
      ensures cache != null && old(cache.dirty) && !cache.dirty ==> OnDisk(cache.cluster) == view[cache.cluster]
      ensures cache == null || cache.dirty == old(cache.dirty) ==> sectors == old(sectors)
      ensures cache != null && old(cache.dirty) ==> Pending(cache.cluster)
      ensures forall k :: InDomain(limit, k) && (cache == null || k != cache.cluster) ==> OnDisk(k) == old(OnDisk(k))
    {
      hide WellFormed, Entries, BPB.Fits, OnDisk, BPB.Bytes, Written, FatCopies, BPB.Start, BPB.Sectors;
      if cache == null {
        return;
      }
      cache.refCount := Decremented(cache.refCount);
      if cache.refCount == 0 && cache.dirty {
        FlushCache(cache);
      }
    }

    method Flush()
      requires Valid()
      modifies this`sectors, cacheObjects
      ensures Valid()
      ensures forall c :: c in cacheObjects ==> !c.dirty
      ensures forall k :: k in view && InDomain(limit, k) ==>
                OnDisk(k) == if k in index && old(index[k].dirty) then view[k] else old(OnDisk(k))
      ensures old(FatsOnDisk()) ==> FatsOnDisk()
    {
      hide WellFormed, Entries, BPB.Fits, OnDisk, Written, FatCopies, ViewValid, FatsOnDisk;
      for i := 0 to |cacheObjects|
        invariant Valid()
        invariant forall j :: 0 <= j < i ==> !cacheObjects[j].dirty
        invariant forall c :: c in cacheObjects && c.dirty ==> old(c.dirty)
        invariant forall k :: k in index && old(index[k].dirty) && !index[k].dirty && k in view ==> OnDisk(k) == view[k]
        invariant forall k :: InDomain(limit, k) && !(k in index && old(index[k].dirty)) ==> OnDisk(k) == old(OnDisk(k))
        invariant old(FatsOnDisk()) ==> FatsOnDisk()
      {
        FlushCache(cacheObjects[i]);
      }
    }

    // --- The allocation table ---

    // Writes the whole table to one FAT copy.
    method WriteFat(fatId: nat)
      requires bpb.Fits(|sectors|, fat.Length, limit) && fatId < bpb.fatsCount
      requires forall k :: 0 <= k < fatId ==> FatCopy(bpb, sectors, fat[..], k)
      modifies this`sectors
      ensures |sectors| == |old(sectors)|
      ensures forall j :: bpb.RootStart() <= j < |sectors| ==> sectors[j] == old(sectors)[j]
      ensures forall k :: 0 <= k <= fatId ==> FatCopy(bpb, sectors, fat[..], k)
    {
      FatBeforeRoot(bpb, fatId);
      var fatSector := bpb.FatSector(fatId);
      for a := 0 to bpb.sectorsPerFat
        invariant |sectors| == |old(sectors)|
        invariant forall j :: 0 <= j < |sectors| && !(fatSector <= j < fatSector + a) ==> sectors[j] == old(sectors)[j]
        invariant forall i :: 0 <= i < a ==> sectors[fatSector + i] == SectorSlice(fat[..], i)
      {
        sectors := sectors[fatSector + a := SectorSlice(fat[..], a)];
      }
      forall k | 0 <= k < fatId
        ensures FatCopy(bpb, sectors, fat[..], k)
      {
        FatCopiesApart(bpb, k, fatId);
        assert FatCopy(bpb, old(sectors), fat[..], k);
      }
    }

    method PutEntry(cluster: nat, nextCluster: nat)
      requires cluster < EntryCount(fat.Length) && nextCluster < 0x1000
      modifies fat
      ensures fat[..] == Store(old(fat[..]), cluster, nextCluster)
    {
      EntryInTable(fat.Length, cluster);
      var offset := EntryOffset(cluster);
      var value: nat := fat[offset] as int + 256 * fat[offset + 1] as int;
      if cluster % 2 == 1 {
        value := value % 16 + nextCluster * 16;
      } else {
        value := value / 0x1000 * 0x1000 + nextCluster;
      }
      fat[offset], fat[offset + 1] := value % 256, value / 256;
    }

    method SetCluster(cluster: nat, nextCluster: nat)
      requires Coherent() && cluster < |table| && nextCluster < 0x1000
      modifies fat, this`sectors, this`table
      ensures Coherent() && FatsOnDisk()
      ensures table == old(table)[cluster := nextCluster]
      ensures cluster >= 2 ==> GetNextCluster(cluster) == if nextCluster >= 0xFF8 then 0 else nextCluster
    {
      hide BPB.Fits, OnDisk, FatCopy, Store, Entries, BPB.Bytes, ViewValid;
      PutEntry(cluster, nextCluster);
      EntriesAfterStore(old(fat[..]), cluster, nextCluster);
      table := table[cluster := nextCluster];
      for fatId := 0 to bpb.fatsCount
        invariant bpb.Fits(|sectors|, fat.Length, limit)
        modifies this`sectors
        invariant |sectors| == |old(sectors)|
        invariant forall j :: bpb.RootStart() <= j < |sectors| ==> sectors[j] == old(sectors)[j]
        invariant forall k :: 0 <= k < fatId ==> FatCopy(bpb, sectors, fat[..], k)
      {
        WriteFat(fatId);
      }
      FatWritten();
      ViewKept();
    }

    twostate lemma ViewKept()
      requires bpb.Fits(|old(sectors)|, fat.Length, limit) && bpb.Fits(|sectors|, fat.Length, limit)
      requires old(CachesValid()) && CachesValid() && old(ViewValid())
      requires view == old(view) && index == old(index)
      requires forall k :: InDomain(limit, k) ==> OnDisk(k) == old(OnDisk(k))
      requires forall k :: k in index ==> index[k].buffer[..] == old(index[k].buffer[..])
      ensures ViewValid()
    {
      hide OnDisk, BPB.Fits, CachesValid, InDomain;
    }

    twostate lemma FatWritten()
      requires bpb.Fits(|old(sectors)|, fat.Length, limit)
      requires |sectors| == |old(sectors)|
      requires forall j :: bpb.RootStart() <= j < |sectors| ==> sectors[j] == old(sectors)[j]
      ensures forall k :: InDomain(limit, k) ==> OnDisk(k) == old(OnDisk(k))
    {
      forall k | InDomain(limit, k)
        ensures OnDisk(k) == old(OnDisk(k))
      {
        FatAreaWritten(bpb, old(sectors), sectors, fat.Length, limit, k);
      }
    }

    // The decoding both GetNextCluster and the scan of AddCluster perform.
    function ReadEntry(cluster: nat): (v: nat)
      reads fat
      requires cluster < EntryCount(fat.Length)
      ensures v == Entries(fat[..])[cluster]
    {
      EntryInTable(fat.Length, cluster);
      var offset := cluster + cluster / 2;
      var value := fat[offset] as int + 256 * fat[offset + 1] as int;
      if cluster % 2 == 1 then value / 16 else value % 0x1000
    }

    function GetNextCluster(cluster: nat): (next: nat)
      reads this, Repr
      requires Coherent() && cluster < |table|
      ensures next == Next(table, cluster)
      ensures next == if cluster < 2 || table[cluster] >= 0xFF8 then 0 else table[cluster]
    {
      if cluster < 2 then 0
      else
        var nextCluster := ReadEntry(cluster);
        if nextCluster >= 0xFF8 then 0 else nextCluster
    }

    // The scan covers the whole table, entries behind the data area included;
    // the number of the cluster found has to fit an entry.
    method AddCluster(parentCluster: nat) returns (ok: bool, nextCluster: nat)
      requires Valid() && (parentCluster == 0 || Live(table, limit, parentCluster))
      requires forall f: nat :: IsLowestFree(table, f) ==> f < 0x1000
      modifies fat, this`sectors, this`table
      ensures Coherent()
      ensures ok <==> (parentCluster == 0 || Next(old(table), parentCluster) == 0) && HasFree(old(table))
      ensures ok ==> IsLowestFree(old(table), nextCluster)
      ensures ok ==> table == Linked(old(table), parentCluster, nextCluster) && FatsOnDisk()
      ensures ok ==> table[nextCluster] == 0xFF8 && (parentCluster > 0 ==> table[parentCluster] == nextCluster)
      ensures ok ==> forall c :: 0 <= c < |table| && c != nextCluster && (c != parentCluster || c == 0) ==>
        table[c] == old(table)[c]
      ensures ok ==> (nextCluster < limit <==> FreeBelow(old(table), limit))
      ensures ok && nextCluster < limit ==> Valid() && nextCluster >= 2
      ensures !ok ==> Valid() && table == old(table) && sectors == old(sectors) && fat[..] == old(fat[..])
    {
      hide LinksLive, NoJoins, AllTerminated, CachesValid, ViewValid, OnDisk, Entries, FatsOnDisk, FreeBelow, Ample;
      ok, nextCluster := false, 0;
      if parentCluster > 0 && GetNextCluster(parentCluster) != 0 {
        return;
      }
      var freeClusterIndex := 0;
      var totalFatEntries := bpb.sectorsPerFat * bpb.bytesPerSector * 8 / 12;
      while freeClusterIndex < totalFatEntries
        invariant freeClusterIndex <= totalFatEntries
        invariant forall c :: 0 <= c < freeClusterIndex ==> table[c] != 0
      {
        var value := ReadEntry(freeClusterIndex);
        if value == 0 {
          break;
        }
        freeClusterIndex := freeClusterIndex + 1;
      }
      if freeClusterIndex >= totalFatEntries {
        return;
      }
      ghost var before := table;
      assert IsLowestFree(before, freeClusterIndex);
      ScanStaysInside(before, limit, freeClusterIndex);
      if freeClusterIndex < limit {
        FreeIsDataCluster(before, limit, freeClusterIndex);
        AddKeepsWellFormed(before, limit, parentCluster, freeClusterIndex);
      }
      hide WellFormed;
      if parentCluster > 0 {
        SetCluster(parentCluster, freeClusterIndex);
      }
      SetCluster(freeClusterIndex, CLUSTER_LAST);
      ok, nextCluster := true, freeClusterIndex;
    }

    // The cluster is on the partition as the view has it, or the next flush
    // brings it there.
    ghost predicate Pending(k: nat)
      reads this, Repr
    {
      && bpb.Fits(|sectors|, fat.Length, limit) && InDomain(limit, k) && k in view
      && k in index && index[k] in Repr && (index[k].dirty || OnDisk(k) == view[k])
    }

    // --- Buffer stores ---

    ghost predicate HasCache(cache: Cache)
      reads this
    {
      cache.cluster in index && index[cache.cluster] == cache
      && cache in cacheObjects && cache in Repr && cache.buffer in Repr
    }

    lemma KeptCache(cache: Cache)
      requires CachesValid() && cache.cluster in index && index[cache.cluster] == cache
      ensures HasCache(cache) && cache.buffer.Length == bpb.Bytes(cache.cluster)
    {
    }

    lemma ZeroInTable()
      requires Valid()
      ensures |table| > 0
    {
    }

    lemma ViewSizes(k: nat)
      requires Coherent() && InDomain(limit, k)
      ensures k in view && |view[k]| == bpb.Bytes(k)
      ensures k in index ==> index[k].buffer.Length == bpb.Bytes(k) && view[k] == index[k].buffer[..]
    {
      hide Entries;
    }

    // Overwrites part of a cached cluster; no other cluster is affected.
    method Copy(cache: Cache, offset: nat, bytes: seq<byte>)
      requires Valid() && HasCache(cache) && offset + |bytes| <= cache.buffer.Length
      modifies cache.buffer, this`view
      ensures Valid()
      ensures cache.cluster in old(view) && offset + |bytes| <= |old(view)[cache.cluster]|
      ensures view == old(view)[cache.cluster := Patch(old(view)[cache.cluster], offset, bytes)]
    {
      hide WellFormed, Entries, BPB.Fits, OnDisk, BPB.Bytes, FatsOnDisk;
      forall j | 0 <= j < |bytes| {
        cache.buffer[offset + j] := bytes[j];
      }
      assert cache.buffer[..] == Patch(old(cache.buffer[..]), offset, bytes);
      view := view[cache.cluster := cache.buffer[..]];
    }

    // Cluster and size of a file go into its directory slot.
    method WriteSlot(cache: Cache, entry: nat, cluster: nat, size: nat)
      requires Valid() && HasCache(cache) && entry + DIR_ENTRY <= cache.buffer.Length
      modifies cache, cache.buffer, this`view
      ensures Valid() && cache.dirty
      ensures cache.cluster in old(view) && entry + DIR_ENTRY <= |old(view)[cache.cluster]|
      ensures view == old(view)[cache.cluster := NewSlot(old(view)[cache.cluster], entry, cluster, size)]
    {
      hide Valid, WordOf, Patch, WordBytes, DwordBytes;
      SlotWord(cache, entry);
      if cache.buffer[entry + SLOT_CLUSTER] == 0 && cache.buffer[entry + SLOT_CLUSTER + 1] == 0 {
        Copy(cache, entry + SLOT_CLUSTER, WordBytes(cluster));
      }
      Copy(cache, entry + SLOT_SIZE, DwordBytes(size));
      MarkDirty(cache);
    }

    method MarkDirty(cache: Cache)
      requires Valid()
      modifies cache`dirty
      ensures Valid() && cache.dirty
    {
      hide WellFormed, Entries, BPB.Fits, OnDisk, BPB.Bytes;
      cache.dirty := true;
    }

    lemma SlotWord(cache: Cache, entry: nat)
      requires Valid() && HasCache(cache) && entry + DIR_ENTRY <= cache.buffer.Length
      ensures cache.cluster in view && |view[cache.cluster]| == cache.buffer.Length
      ensures cache.buffer[entry + SLOT_CLUSTER] == 0 && cache.buffer[entry + SLOT_CLUSTER + 1] == 0
         <==> WordOf(view[cache.cluster], entry + SLOT_CLUSTER) == 0
    {
    }
  }

  lemma ReadPart(sectors: seq<Sector>, start: nat, count: nat, a: nat, fat: seq<byte>, before: seq<byte>)
    requires a < count && start + count <= |sectors| && |fat| == |before| == count * SECTOR
    requires forall i :: 0 <= i < a * SECTOR ==> before[i] == SectorBytes(sectors, start, count)[i]
    requires forall i :: 0 <= i < |fat| ==>
               fat[i] == if a * SECTOR <= i < a * SECTOR + SECTOR then sectors[start + a][i - a * SECTOR] else before[i]
    ensures forall i :: 0 <= i < (a + 1) * SECTOR ==> fat[i] == SectorBytes(sectors, start, count)[i]
  {
    forall i | a * SECTOR <= i < (a + 1) * SECTOR
      ensures i / SECTOR == a && i % SECTOR == i - a * SECTOR
    {
    }
  }

  // The table that FormatFAT writes: the two reserved entries, then zeros, also
  // behind the data area.
  function FormattedFat(sectorsPerFat: nat): (r: seq<byte>)
    requires sectorsPerFat > 0
    ensures |r| == sectorsPerFat * SECTOR
  {
    seq(sectorsPerFat * SECTOR, i => if i == 0 then 0xF0 else if i < 3 then 0xFF else 0)
  }

  // A freshly formatted volume can be mounted, and all its data clusters are free.
  lemma {:induction false} FormattedMounts(sectorsPerFat: nat, limit: nat)
    requires sectorsPerFat > 0 && 2 <= limit <= EntryCount(sectorsPerFat * SECTOR) && limit <= 0xFF0
    ensures WellFormed(Entries(FormattedFat(sectorsPerFat)), limit)
    ensures FreeCount(Entries(FormattedFat(sectorsPerFat)), limit) == limit - 2
  {
    var fat := FormattedFat(sectorsPerFat);
    var t := Entries(fat);
    forall c | 0 <= c < |t|
      ensures c < 2 ==> t[c] != 0
      ensures c >= 2 ==> t[c] == 0
    {
      EntryInTable(|fat|, c);
    }
    hide Entries, WellFormed, FreeCount, FormattedFat;
    FormattedIsWellFormed(t, limit);
  }

  // A 1.44 MB floppy has 2847 data clusters; its table has 3072 entries.
  const FLOPPY := BPB(SECTOR, 1, 1, 2, 224, 9, 0)

  lemma FloppyFits()
    ensures FLOPPY.Fits(2880, FLOPPY.sectorsPerFat * SECTOR, 2849) && !FLOPPY.Fits(2880, FLOPPY.sectorsPerFat * SECTOR, 2850)
    ensures EntryCount(FLOPPY.sectorsPerFat * SECTOR) == 3072
  {
    assert InDomain(2850, 2849) && FLOPPY.Start(2849) + FLOPPY.Sectors(2849) == 2881;
  }

  // Its FAT copies are the sectors from 1 and 10 on, its root directory the 14
  // sectors from 19 on, and cluster c is sector 31 + c.
  lemma {:induction false} FloppyLayout(b: BPB, k: nat, c: nat)
    requires b == FLOPPY && (c == 0 || 2 <= c < 2849)
    ensures b.FatSector(k) == 1 + 9 * k
    ensures b.Start(c) == (if c == 0 then 19 else 31 + c) && b.Bytes(c) == if c == 0 then 7168 else 512
  {
    FloppyNumbers(b, k);
    FloppyNumbers(b, 2);
    hide FLOPPY, BPB.FatSector, BPB.RootSectors;
    assert b.RootStart() == b.FatSector(2) == 19;
  }

  lemma FloppyNumbers(b: BPB, k: nat)
    requires b == FLOPPY
    ensures b.FatSector(k) == 1 + 9 * k
    ensures b.RootSectors() == 14 && b.sectorsPerCluster == 1 && b.fatsCount == 2
  {
  }
}
