// Reading and writing files of a FAT12 volume (kernel/FS/FAT.cpp).
module FatFile {
  import opened Arithmetic
  import opened Bytes
  import opened FatTable
  import opened FatChains
  import opened FatLayout
  import opened FatContent
  import opened FatVolume
  import opened Sequences

  ghost predicate ChainOk(t: seq<nat>, limit: nat, root: nat, chain: seq<nat>) {
    if root == 0 then chain == [] else IsChain(t, limit, chain) && chain[0] == root
  }

  // What an operation on the file with chain `s` (now `s'`) leaves alone:
  // every chain disjoint from it, and every cluster that is neither in the
  // file nor the parent directory cluster.
  ghost predicate Kept(t: seq<nat>, v: View, t': seq<nat>, v': View, limit: nat, s: seq<nat>, s': seq<nat>, parent: nat) {
    && (forall u :: IsChain(t, limit, u) && Disjoint(u, s) ==> IsChain(t', limit, u) && Disjoint(u, s'))
    && (forall k :: k in v && k !in s' && k != parent ==> k in v' && v'[k] == v[k])
    && (NoStray(t, limit) ==> NoStray(t', limit))
  }

  datatype Status = Success | Undefined | EndOfFile

  // A read that starts on a non-zero cluster boundary and asks for nothing or
  // for more than a cluster moves the cursor twice.
  predicate Skips(o: nat, n: nat, size: nat, len: nat, cs: nat) {
    cs > 0 && 0 < o < size && Rem(o, cs) == 0 && Quot(o, cs) < len && (n == 0 || n > cs)
  }

  ghost function NextChain(s: seq<nat>, o: nat, n: nat, size: nat, cs: nat): seq<nat> {
    if Skips(o, n, size, |s|, cs) then s[1..] else s
  }

  // How much of a request of n bytes lies inside both the file and the chain.
  function Readable(o: nat, n: nat, size: nat, len: nat, cs: nat): int {
    Max(0, Min(n, Min(size, len * cs) - o))
  }

  lemma {:induction false} NoSkip(s: seq<nat>, o: nat, n: nat, size: nat, cs: nat)
    requires 0 < n <= cs
    ensures NextChain(s, o, n, size, cs) == s
  {
  }

  // A request of n bytes after k of them have been read and m more asked for.
  lemma {:induction false} AddReadable(o: nat, n: nat, size: nat, len: nat, cs: nat, k: nat, m: nat, r: nat)
    requires k < n && 0 < m <= n - k
    requires k == 0 || o + k <= Min(size, len * cs)
    requires r == Readable(o + k, m, size, len, cs)
    ensures r <= m && (k + r == 0 || o + k + r <= Min(size, len * cs))
    ensures r == 0 || k + r == n ==> k + r == Readable(o, n, size, len, cs)
  {
  }

  // The loop of FileSetPointer at counter `a` stands on cluster k of the chain.
  ghost predicate Stride(offset: nat, a: nat, k: nat, cs: nat) {
    && cs > 0 && a <= offset
    && (a < offset ==> Quot(offset, cs) == k + Quot(offset - a, cs) && Rem(offset, cs) == Rem(offset - a, cs))
    && (a == offset ==> k == Quot(offset, cs))
  }

  lemma {:induction false} NextStride(offset: nat, a: nat, k: nat, cs: nat)
    requires Stride(offset, a, k, cs) && a < offset && Rem(offset, cs) != 0
    ensures if offset - a > cs then Stride(offset, a + cs, k + 1, cs) && k + 1 <= Quot(offset, cs)
            else a + Rem(offset, cs) == offset && Stride(offset, offset, k, cs)
  {
    assert offset - (a + cs) == offset - a - cs;
    assert Rem(cs, cs) == Rem(0, cs) == 0;
  }

  lemma {:induction false} StrideEnds(offset: nat, cs: nat)
    requires cs > 0
    ensures Stride(offset, 0, 0, cs)
    ensures forall k :: Stride(offset, offset, k, cs) ==> k == Quot(offset, cs)
    ensures offset == 0 || Rem(offset, cs) != 0 ==> Lag(offset, cs) == Quot(offset, cs)
  {
    LagStep(offset, cs);
  }

  // The buffer after k steps: behind the last of `len` clusters, the successor
  // 0 stands for the root directory, whose buffer has a size of its own.
  function PointerBuffer(k: nat, len: nat, cs: nat, root: nat): nat {
    if k < len then cs else root
  }

  // One round of the loop of FileSetPointer: the counter and the clusters passed.
  function PointerStep(offset: nat, len: nat, cs: nat, root: nat, a: nat, k: nat): (nat, nat)
    requires cs > 0 && root > 0
  {
    var size := PointerBuffer(k, len, cs, root);
    if a >= offset then (a, k)
    else if offset - a > size then (a + size, k + 1)
    else (a + Rem(offset, size), k)
  }

  function PointerLoop(offset: nat, len: nat, cs: nat, root: nat, n: nat): (nat, nat)
    requires cs > 0 && root > 0
  {
    if n == 0 then (0, 0)
    else
      var before := PointerLoop(offset, len, cs, root, n - 1);
      PointerStep(offset, len, cs, root, before.0, before.1)
  }

  ghost predicate PointerDone(offset: nat, len: nat, cs: nat, root: nat, n: nat)
    requires cs > 0 && root > 0
  {
    PointerLoop(offset, len, cs, root, n).0 >= offset
  }

  // Offset 0, or off the boundaries of the buffer in which the loop ends up.
  predicate PointerEnds(offset: nat, len: nat, cs: nat, root: nat)
    requires cs > 0 && root > 0
  {
    offset == 0 || Rem(offset, if offset <= len * cs then cs else root) != 0
  }

  // Up to the end of the chain, no cluster behind it is reached; beyond, every
  // cluster of it is passed as a whole.
  ghost predicate PointerWay(offset: nat, len: nat, cs: nat, a: nat, k: nat) {
    if offset <= len * cs then a < offset ==> k < len && offset <= a + (len - k) * cs
    else k < len ==> offset > a + (len - k) * cs
  }

  lemma {:induction false} PointerWayStep(offset: nat, len: nat, cs: nat, root: nat, a: nat, k: nat)
    requires cs > 0 && root > 0 && a < offset && PointerWay(offset, len, cs, a, k)
    ensures var next := PointerStep(offset, len, cs, root, a, k);
            && PointerWay(offset, len, cs, next.0, next.1)
            && (PointerEnds(offset, len, cs, root) ==> next.0 > a)
            && (!PointerEnds(offset, len, cs, root) ==> next.0 < offset)
  {
    if k < len {
      assert (len - k) * cs == (len - (k + 1)) * cs + cs;
      if k + 1 == len {
        assert (len - (k + 1)) * cs == 0;
      } else {
        MulMonotonic(1, len - (k + 1), cs);
      }
    }
    hide Rem;
  }

  // The loop ends exactly for offset 0 and for offsets off the boundaries: of
  // the clusters inside the chain, and of the root directory behind it.
  lemma {:induction false} PointerLoopEnds(offset: nat, len: nat, cs: nat, root: nat)
    requires cs > 0 && root > 0 && len > 0
    ensures (exists n :: PointerDone(offset, len, cs, root, n)) <==> PointerEnds(offset, len, cs, root)
  {
    if offset == 0 {
      assert PointerDone(offset, len, cs, root, 0);
    } else if PointerEnds(offset, len, cs, root) {
      PointerLoopMoves(offset, len, cs, root, offset);
      assert PointerDone(offset, len, cs, root, offset);
    } else {
      forall n: nat
        ensures !PointerDone(offset, len, cs, root, n)
      {
        PointerLoopMoves(offset, len, cs, root, n);
      }
    }
  }

  lemma {:induction false} PointerLoopMoves(offset: nat, len: nat, cs: nat, root: nat, n: nat)
    requires cs > 0 && root > 0 && len > 0 && offset > 0
    ensures var p := PointerLoop(offset, len, cs, root, n);
            && PointerWay(offset, len, cs, p.0, p.1)
            && (PointerEnds(offset, len, cs, root) ==> p.0 >= n || p.0 >= offset)
            && (!PointerEnds(offset, len, cs, root) ==> p.0 < offset)
  {
    if n > 0 {
      PointerLoopMoves(offset, len, cs, root, n - 1);
      var p := PointerLoop(offset, len, cs, root, n - 1);
      if p.0 < offset {
        PointerWayStep(offset, len, cs, root, p.0, p.1);
      }
    }
  }

  // One byte of the chain has been stored; the parent cluster is not described.
  ghost predicate StoredAt(v: View, v': View, s: seq<nat>, cs: nat, o: nat, value: byte, parent: nat) {
    && Covers(v, s, cs) && Quot(o, cs) < |s|
    && forall k :: k in v' && k != parent ==> k in v && v'[k] == PutAt(v, s, cs, o, value)[k]
  }

  ghost predicate IsSuffix(s: seq<nat>, u: seq<nat>) {
    |s| <= |u| && s == u[|u| - |s|..]
  }

  lemma {:induction false} SuffixTail(s: seq<nat>, u: seq<nat>)
    requires IsSuffix(s, u)
    ensures s != [] ==> IsSuffix(s[1..], u) && u != []
  {
  }

  // What callers can observe of a volume and one open file.
  datatype FileState = FileState(table: seq<nat>, view: View, chain: seq<nat>, data: seq<byte>, offset: nat)

  // From state b to state a, `bytes` have been written at the cursor: the
  // content is overwritten, the chain has just the clusters it needs, taken
  // from the free ones, and nothing else on the volume has changed.
  ghost predicate Wrote(b: FileState, a: FileState, bytes: seq<byte>, limit: nat, cs: nat, parent: nat, entry: nat) {
    && cs > 0 && b.offset <= |b.data|
    && a.offset == b.offset + |bytes|
    && a.data == Overwrite(b.data, b.offset, bytes)
    && b.chain <= a.chain && |a.chain| == Max(|b.chain|, CeilDiv(a.offset, cs))
    && FreeCount(a.table, limit) + |a.chain| == FreeCount(b.table, limit) + |b.chain|
    && a.view.Keys == b.view.Keys
    && Kept(b.table, b.view, a.table, a.view, limit, b.chain, a.chain, parent)
    && parent in b.view && SlotOnly(b.view[parent], a.view[parent], entry)
  }

  class File {
    var rootCluster: nat
    var parentCluster: nat
    var parentOffset: nat
    var parentNeedsUpdate: bool
    var totalOffset: nat
    var totalSize: nat
    var cache: Cache?
    ghost var chain: seq<nat>

    constructor (rootCluster: nat, parentCluster: nat, parentOffset: nat, totalSize: nat, parentNeedsUpdate: bool, ghost chain: seq<nat>)
      ensures this.rootCluster == rootCluster && this.parentCluster == parentCluster && this.parentOffset == parentOffset
      ensures this.totalSize == totalSize && this.parentNeedsUpdate == parentNeedsUpdate && this.chain == chain
      ensures totalOffset == 0 && cache == null
    {
      this.rootCluster := rootCluster;
      this.parentCluster := parentCluster;
      this.parentOffset := parentOffset;
      this.parentNeedsUpdate := parentNeedsUpdate;
      this.totalOffset := 0;
      this.totalSize := totalSize;
      this.cache := null;
      this.chain := chain;
    }

    // The file's chain and parent slot are where the fields say.
    ghost predicate Located(info: Info)
      reads this, info, info.Repr
      ensures Located(info) ==> this !in info.Repr && info in info.Repr && info.Valid()
    {
      && info.Valid()
      && this !in info.Repr
      && ChainOk(info.table, info.limit, rootCluster, chain)
      && totalSize <= |chain| * info.bpb.ClusterSize()
      && (parentCluster == 0 || Live(info.table, info.limit, parentCluster))
      && parentCluster !in chain
      && parentOffset + DIR_ENTRY <= info.bpb.Bytes(parentCluster)
    }

    ghost predicate CacheAt(info: Info, i: nat)
      reads this, info
    {
      cache != null && i < |chain| && info.HasCache(cache) && cache.cluster == chain[i]
    }

    ghost predicate CursorOk(info: Info)
      reads this, info
    {
      && info.bpb.ClusterSize() > 0
      && (cache == null ==> totalOffset == 0)
      && (cache != null ==> CacheAt(info, Lag(totalOffset, info.bpb.ClusterSize())))
    }

    ghost predicate SlotAgrees(info: Info)
      reads this, info
    {
      && parentCluster in info.view && parentOffset + DIR_ENTRY <= |info.view[parentCluster]|
      && WordOf(info.view[parentCluster], parentOffset + SLOT_CLUSTER) == rootCluster
      && DwordOf(info.view[parentCluster], parentOffset + SLOT_SIZE) == totalSize
    }

    ghost predicate Valid(info: Info)
      reads this, info, info.Repr
    {
      Located(info) && CursorOk(info) && SlotAgrees(info)
    }

    ghost function Data(info: Info): seq<byte>
      reads this, info, info.Repr
      requires Located(info)
    {
      CoversChain(info, chain);
      Content(info.view, chain, info.bpb.ClusterSize(), totalSize)
    }

    // AddCluster behind the last cluster of the file, or for an empty file.
    method LinkCluster(info: Info, parent: nat) returns (ok: bool, next: nat)
      requires Located(info)
      requires if parent == 0 then chain == [] else chain != [] && chain[|chain| - 1] == parent
      requires Ample(info.table, info.limit)
      modifies this`rootCluster, this`chain, info.fat, info`sectors, info`table
      ensures Located(info)
      ensures ok <==> FreeBelow(old(info.table), info.limit)
      ensures if ok then chain == old(chain) + [next] else chain == old(chain) && info.table == old(info.table)
      ensures rootCluster == if ok && parent == 0 then next else old(rootCluster)
      ensures ok ==> InDomain(info.limit, next)
      ensures FreeCount(info.table, info.limit) + |chain| == old(FreeCount(info.table, info.limit) + |chain|)
      ensures Kept(old(info.table), old(info.view), info.table, info.view, info.limit, old(chain), chain, parentCluster)
    {
      hide WellFormed, Info.Coherent, IsChain, Linked, FreeBelow, Ample, IsLowestFree, Live, Next, BPB.Bytes, BPB.Fits;
      if parent != 0 {
        LastOfChain(info.table, info.limit, chain);
      }
      AmpleFits(info.table, info.limit);
      ok, next := info.AddCluster(parent);
      if !ok {
        return;
      }
      MulMonotonic(|chain|, |chain| + 1, info.bpb.ClusterSize());
      AddExtends(old(info.table), info.limit, chain, parent, next);
      AddKeepsOthers(old(info.table), info.limit, chain, parent, next);
      LinkedLive(old(info.table), info.limit, parent, next);
      AddTakesOneFree(old(info.table), info.limit, parent, next);
      if parent == 0 {
        rootCluster := next;
      }
      chain := chain + [next];
    }

    method Fetch(info: Info, cluster: nat, ghost i: nat)
      requires Located(info) && i < |chain| && chain[i] == cluster
      modifies this`cache, info.Repr
      ensures Located(info) && fresh(info.Repr - old(info.Repr)) && old(info.Repr) <= info.Repr && info.Keeps(old(info.index))
      ensures CacheAt(info, i) && cache.buffer.Length == info.bpb.ClusterSize()
      ensures info.table == old(info.table) && info.view == old(info.view)
    {
      hide WellFormed, Info.Coherent, Live, IsChain, BPB.Fits;
      ChainMember(info.table, info.limit, chain, i);
      cache := info.GetCache(cluster);
    }

    method Release(info: Info)
      requires Located(info) && (cache != null ==> info.HasCache(cache))
      modifies info.Repr
      ensures Located(info) && info.Repr == old(info.Repr) && info.index == old(info.index)
      ensures info.table == old(info.table) && info.view == old(info.view)
    {
      hide WellFormed, Info.Coherent, Live, IsChain, BPB.Fits;
      info.FreeCache(cache);
    }

    lemma CacheSize(info: Info, i: nat)
      requires Located(info) && CacheAt(info, i)
      ensures cache.buffer.Length == info.bpb.ClusterSize()
      ensures chain[i] in info.view && info.view[chain[i]] == cache.buffer[..]
    {
      ChainMember(info.table, info.limit, chain, i);
      info.ViewSizes(chain[i]);
    }

    // FilePutByte without a cache: the first cluster, allocated if there is none.
    method FirstCluster(info: Info) returns (ok: bool)
      requires Located(info) && cache == null && (chain == [] ==> Ample(info.table, info.limit))
      modifies this`cache, this`rootCluster, this`chain, this`parentNeedsUpdate, info.Repr
      ensures Located(info) && fresh(info.Repr - old(info.Repr)) && old(info.Repr) <= info.Repr && info.Keeps(old(info.index))
      ensures FreeCount(info.table, info.limit) + |chain| == old(FreeCount(info.table, info.limit) + |chain|)
      ensures info.view.Keys == old(info.view).Keys
      ensures forall k :: k in old(info.view) && (k in old(chain) || k !in chain) ==> info.view[k] == old(info.view)[k]
      ensures Kept(old(info.table), old(info.view), info.table, info.view, info.limit, old(chain), chain, parentCluster)
      ensures ok ==> CacheAt(info, 0)
      ensures ok <==> 0 < |old(chain)| || FreeBelow(old(info.table), info.limit)
      ensures if ok && 0 == |old(chain)| then |chain| == |old(chain)| + 1 && old(chain) <= chain
              else chain == old(chain) && info.table == old(info.table) && info.view == old(info.view)
      ensures if ok && old(rootCluster) == 0 then parentNeedsUpdate
              else rootCluster == old(rootCluster) && parentNeedsUpdate == old(parentNeedsUpdate)
      ensures !ok ==> old(CursorOk(info)) ==> CursorOk(info)
      ensures ok && old(chain) == [] ==> chain[0] in info.view && ZeroBytes(info.view[chain[0]])
    {
      hide WellFormed, Info.CachesValid, Info.ViewValid, Entries, Live, IsChain, BPB.Fits, FreeBelow, Ample, FreeCount, Next, BPB.Bytes, ZeroBytes;
      ok := true;
      if rootCluster == 0 {
        ok := StartChain(info);
      } else {
        ChainNonempty(info.table, info.limit, chain);
        Fetch(info, rootCluster, 0);
      }
    }

    // Allocates and clears the first cluster.
    method StartChain(info: Info) returns (ok: bool)
      requires Located(info) && cache == null && chain == [] && Ample(info.table, info.limit)
      modifies this`cache, this`rootCluster, this`chain, this`parentNeedsUpdate, info.Repr
      ensures Located(info) && fresh(info.Repr - old(info.Repr)) && old(info.Repr) <= info.Repr && info.Keeps(old(info.index))
      ensures FreeCount(info.table, info.limit) + |chain| == old(FreeCount(info.table, info.limit))
      ensures info.view.Keys == old(info.view).Keys
      ensures forall k :: k in old(info.view) && k !in chain ==> info.view[k] == old(info.view)[k]
      ensures Kept(old(info.table), old(info.view), info.table, info.view, info.limit, [], chain, parentCluster)
      ensures ok <==> FreeBelow(old(info.table), info.limit)
      ensures ok ==> CacheAt(info, 0) && |chain| == 1 && parentNeedsUpdate
      ensures ok ==> chain[0] in info.view && ZeroBytes(info.view[chain[0]])
      ensures !ok ==> chain == [] && info.table == old(info.table) && info.view == old(info.view)
      ensures !ok ==> cache == null && rootCluster == old(rootCluster) && parentNeedsUpdate == old(parentNeedsUpdate)
    {
      hide WellFormed, Info.Coherent, ChainOk, Live, IsChain, BPB.Fits, FreeBelow, Ample, FreeCount, Next, BPB.Bytes, ZeroBytes;
      var nextCluster;
      ok, nextCluster := LinkCluster(info, 0);
      if !ok {
        return;
      }
      Fetch(info, nextCluster, 0);
      Clear(info, chain[0]);
      parentNeedsUpdate := true;
    }

    // FilePutByte behind the last byte of cluster i - 1: the next cluster,
    // allocated if the chain ends.
    method NextCluster(info: Info, ghost i: nat) returns (ok: bool)
      requires Located(info) && i > 0 && CacheAt(info, i - 1) && (i == |chain| ==> Ample(info.table, info.limit))
      modifies this`cache, this`rootCluster, this`chain, info.Repr
      ensures Located(info) && fresh(info.Repr - old(info.Repr)) && old(info.Repr) <= info.Repr && info.Keeps(old(info.index))
      ensures FreeCount(info.table, info.limit) + |chain| == old(FreeCount(info.table, info.limit) + |chain|)
      ensures info.view.Keys == old(info.view).Keys
      ensures forall k :: k in old(info.view) && (k in old(chain) || k !in chain) ==> info.view[k] == old(info.view)[k]
      ensures Kept(old(info.table), old(info.view), info.table, info.view, info.limit, old(chain), chain, parentCluster)
      ensures ok ==> CacheAt(info, i)
      ensures ok <==> i < |old(chain)| || FreeBelow(old(info.table), info.limit)
      ensures if ok && i == |old(chain)| then |chain| == |old(chain)| + 1 && old(chain) <= chain
              else chain == old(chain) && info.table == old(info.table) && info.view == old(info.view)
      ensures !ok ==> old(CursorOk(info)) ==> CursorOk(info)
      ensures rootCluster == old(rootCluster)
      ensures info.view == old(info.view)
    {
      hide WellFormed, Info.CachesValid, Info.ViewValid, Entries, Live, IsChain, BPB.Fits, FreeBelow, Ample, FreeCount, Next, BPB.Bytes;
      ChainMember(info.table, info.limit, chain, i - 1);
      var nextCluster := info.GetNextCluster(cache.cluster);
      ok := true;
      if nextCluster == 0 {
        ok, nextCluster := LinkCluster(info, cache.cluster);
        if !ok {
          return;
        }
      }
      Release(info);
      Fetch(info, nextCluster, i);
    }

    // The head of FilePutByte: makes the cluster of the cursor the cached one.
    method Seek(info: Info) returns (ok: bool)
      requires Located(info) && CursorOk(info)
      requires Quot(totalOffset, info.bpb.ClusterSize()) < |chain| || Ample(info.table, info.limit)
      modifies this`cache, this`rootCluster, this`chain, this`parentNeedsUpdate, info.Repr
      ensures Located(info) && fresh(info.Repr - old(info.Repr)) && old(info.Repr) <= info.Repr && info.Keeps(old(info.index))
      ensures FreeCount(info.table, info.limit) + |chain| == old(FreeCount(info.table, info.limit) + |chain|)
      ensures info.view.Keys == old(info.view).Keys
      ensures forall k :: k in old(info.view) && (k in old(chain) || k !in chain) ==> info.view[k] == old(info.view)[k]
      ensures Kept(old(info.table), old(info.view), info.table, info.view, info.limit, old(chain), chain, parentCluster)
      ensures ok ==> CacheAt(info, Quot(totalOffset, info.bpb.ClusterSize()))
      ensures ok <==> Quot(totalOffset, info.bpb.ClusterSize()) < |old(chain)| || FreeBelow(old(info.table), info.limit)
      ensures if ok && Quot(totalOffset, info.bpb.ClusterSize()) == |old(chain)| then |chain| == |old(chain)| + 1 && old(chain) <= chain
              else chain == old(chain) && info.table == old(info.table) && info.view == old(info.view)
      ensures if ok && old(rootCluster) == 0 then parentNeedsUpdate
              else rootCluster == old(rootCluster) && parentNeedsUpdate == old(parentNeedsUpdate)
      ensures !ok ==> CursorOk(info)
    {
      hide *;
      CursorFacts(info);
      ghost var i := Quot(totalOffset, info.bpb.ClusterSize());
      ok := true;
      if cache == null {
        ok := FirstCluster(info);
      } else if totalOffset > 0 && Rem(totalOffset, cache.buffer.Length) == 0 {
        ok := NextCluster(info, i);
      } else {
        NothingKept(info);
      }
    }

    lemma CursorFacts(info: Info)
      requires Located(info) && CursorOk(info)
      ensures info.bpb.ClusterSize() > 0
      ensures cache == null ==> Quot(totalOffset, info.bpb.ClusterSize()) == 0
      ensures cache != null ==>
                var cs, i := info.bpb.ClusterSize(), Quot(totalOffset, info.bpb.ClusterSize());
                && rootCluster != 0 && cache.buffer.Length == cs
                && (if totalOffset > 0 && Rem(totalOffset, cs) == 0 then i > 0 && CacheAt(info, i - 1) && i <= |chain|
                    else CacheAt(info, i) && i < |chain|)
    {
      hide Info.Valid, IsChain, BPB.Bytes, Quot, Rem;
      LagStep(totalOffset, info.bpb.ClusterSize());
      if cache != null {
        CacheSize(info, Lag(totalOffset, info.bpb.ClusterSize()));
      }
    }

    lemma NothingKept(info: Info)
      ensures Kept(info.table, info.view, info.table, info.view, info.limit, chain, chain, parentCluster)
      ensures info.Keeps(info.index)
    {
    }

    // memset over the first cluster of a new chain.
    method Clear(info: Info, ghost c: nat)
      requires Located(info) && CacheAt(info, 0) && chain[0] == c
      modifies cache.buffer, info`view
      ensures Located(info) && CacheAt(info, 0)
      ensures info.view.Keys == old(info.view).Keys
      ensures forall k :: k in info.view && k != c ==> info.view[k] == old(info.view)[k]
      ensures c in info.view && ZeroBytes(info.view[c])
    {
      hide WellFormed, Info.Coherent, Live, IsChain, BPB.Fits;
      CacheSize(info, 0);
      info.Copy(cache, 0, seq(cache.buffer.Length, _ => 0));
    }

    // The store in the middle of FilePutByte.
    method StoreByte(info: Info, value: byte)
      requires Located(info) && info.bpb.ClusterSize() > 0 && totalOffset <= totalSize
      requires CacheAt(info, Quot(totalOffset, info.bpb.ClusterSize()))
      modifies this`totalOffset, this`totalSize, this`parentNeedsUpdate, cache.buffer, info`view
      ensures Located(info) && CursorOk(info)
      ensures totalOffset == old(totalOffset) + 1
      ensures totalSize == if totalOffset > old(totalSize) then totalOffset else old(totalSize)
      ensures parentNeedsUpdate == (old(parentNeedsUpdate) || totalSize > old(totalSize))
      ensures Covers(old(info.view), chain, info.bpb.ClusterSize())
      ensures info.view == PutAt(old(info.view), chain, info.bpb.ClusterSize(), old(totalOffset), value)
    {
      hide Info.Valid, ChainOk, Live, Quot, Rem, Lag, Covers, BPB.ClusterSize, BPB.Bytes, Patch;
      StoreFacts(info);
      info.Copy(cache, Rem(totalOffset, cache.buffer.Length), [value]);
      totalOffset := totalOffset + 1;
      if totalOffset > totalSize {
        parentNeedsUpdate := true;
        totalSize := totalOffset;
      }
    }

    lemma StoreFacts(info: Info)
      requires Located(info) && info.bpb.ClusterSize() > 0
      requires CacheAt(info, Quot(totalOffset, info.bpb.ClusterSize()))
      ensures info.Valid() && info.HasCache(cache) && cache.buffer.Length == info.bpb.ClusterSize()
      ensures Covers(info.view, chain, info.bpb.ClusterSize())
      ensures cache.cluster in info.view && |info.view[cache.cluster]| == info.bpb.ClusterSize()
      ensures Lag(totalOffset + 1, info.bpb.ClusterSize()) == Quot(totalOffset, info.bpb.ClusterSize())
      ensures totalOffset + 1 <= |chain| * info.bpb.ClusterSize()
    {
      hide Info.Valid, Quot, Rem, Lag;
      CacheSize(info, Quot(totalOffset, info.bpb.ClusterSize()));
      CoversChain(info, chain);
      LagStep(totalOffset, info.bpb.ClusterSize());
      QuotBound(totalOffset, |chain|, info.bpb.ClusterSize());
    }

    // The slot names no other chain than the file's.
    ghost predicate SlotPending(info: Info)
      reads this, info
    {
      && parentCluster in info.view && parentOffset + DIR_ENTRY <= |info.view[parentCluster]|
      && (WordOf(info.view[parentCluster], parentOffset + SLOT_CLUSTER) == 0
          || WordOf(info.view[parentCluster], parentOffset + SLOT_CLUSTER) == rootCluster)
    }

    // The end of FilePutByte: cluster and size go into the directory slot.
    method UpdateParent(info: Info)
      requires Located(info) && CursorOk(info) && SlotPending(info)
      modifies info.Repr
      ensures Located(info) && CursorOk(info) && SlotAgrees(info)
      ensures fresh(info.Repr - old(info.Repr)) && old(info.Repr) <= info.Repr && info.Keeps(old(info.index))
      ensures info.table == old(info.table) && info.view.Keys == old(info.view).Keys
      ensures forall k :: k in info.view && k != parentCluster ==> info.view[k] == old(info.view)[k]
      ensures SlotOnly(old(info.view)[parentCluster], info.view[parentCluster], parentOffset)
      ensures SlotHolds(info.view[parentCluster], parentOffset, rootCluster, totalSize)
      ensures info.Pending(parentCluster)
    {
      hide Info.Valid, Info.Pending, ChainOk, Live, Lag, BPB.ClusterSize, BPB.Bytes, NewSlot, WordOf, DwordOf, SlotOnly, SlotHolds;
      ParentFacts(info);
      var parentCache := info.GetCache(parentCluster);
      NewSlotFields(info.view[parentCluster], parentOffset, rootCluster, totalSize);
      info.WriteSlot(parentCache, parentOffset, rootCluster, totalSize);
      info.FreeCache(parentCache);
      SlotHeld(info.view[parentCluster], parentOffset);
    }

    lemma ParentFacts(info: Info)
      requires Located(info)
      ensures info.Valid() && InDomain(info.limit, parentCluster)
      ensures rootCluster < 0x1_0000 && totalSize < 0x1_0000_0000
    {
      hide Info.CachesValid, Info.ViewValid;
      if rootCluster != 0 {
        ChainMember(info.table, info.limit, chain, 0);
        ChainBound(info.table, info.limit, chain);
        SizeBound(info.bpb, |info.sectors|, info.fat.Length, info.limit, |chain|);
      }
    }

    // FilePutByte after the cluster switch.
    method StoreAndUpdate(info: Info, value: byte)
      requires Located(info) && info.bpb.ClusterSize() > 0 && totalOffset <= totalSize
      requires CacheAt(info, Quot(totalOffset, info.bpb.ClusterSize()))
      requires SlotPending(info) && (parentNeedsUpdate || SlotAgrees(info))
      modifies this`totalOffset, this`totalSize, this`parentNeedsUpdate, info.Repr
      ensures Valid(info) && fresh(info.Repr - old(info.Repr)) && old(info.Repr) <= info.Repr && info.Keeps(old(info.index))
      ensures totalOffset == old(totalOffset) + 1 && totalSize == Max(old(totalSize), totalOffset)
      ensures info.table == old(info.table) && info.view.Keys == old(info.view).Keys
      ensures StoredAt(old(info.view), info.view, chain, info.bpb.ClusterSize(), old(totalOffset), value, parentCluster)
      ensures SlotOnly(old(info.view)[parentCluster], info.view[parentCluster], parentOffset)
    {
      hide Located, CursorOk, SlotOnly, Quot, WordOf, DwordOf, Covers, PutAt, BPB.ClusterSize, Info.Valid;
      DataFacts(info);
      StoreByte(info, value);
      PutAtOnly(old(info.view), chain, info.bpb.ClusterSize(), old(totalOffset), value);
      if parentNeedsUpdate {
        UpdateParent(info);
      } else {
        SlotSame(info.view[parentCluster], parentOffset);
      }
    }

    ghost function State(info: Info): FileState
      reads this, info, info.Repr
      requires Located(info)
    {
      FileState(info.table, info.view, chain, Data(info), totalOffset)
    }

    // A new cluster is only asked for when the scan for it stays in the data area.
    method FilePutByte(info: Info, value: byte) returns (ok: bool)
      requires Valid(info) && totalOffset <= totalSize
      requires Quot(totalOffset, info.bpb.ClusterSize()) < |chain| || Ample(info.table, info.limit)
      modifies this, info.Repr
      ensures Valid(info) && fresh(info.Repr - old(info.Repr)) && old(info.Repr) <= info.Repr && info.Keeps(old(info.index))
      ensures parentCluster == old(parentCluster) && parentOffset == old(parentOffset)
      ensures ok <==> Quot(old(totalOffset), info.bpb.ClusterSize()) < |old(chain)| || FreeBelow(old(info.table), info.limit)
      ensures if ok then Wrote(old(State(info)), State(info), [value], info.limit, info.bpb.ClusterSize(), parentCluster, parentOffset)
              else State(info) == old(State(info))
      ensures totalSize == |Data(info)|
    {
      hide Located, CursorOk, Kept, FreeCount, SlotOnly, FreeBelow, Ample, Quot, WordOf, DwordOf, Content, Covers, Overwrite,
           StoredAt, NoDuplicates, BPB.ClusterSize, Info.Valid, CeilDiv;
      DataFacts(info);
      ok := Seek(info);
      if !ok {
        DataFacts(info);
        return;
      }
      DataFacts(info);
      ghost var v1 := info.view;
      StoreAndUpdate(info, value);
      DataFacts(info);
      CeilStep(old(totalOffset), info.bpb.ClusterSize());
      KeptThen(old(info.table), old(info.view), info.table, v1, info.view, info.limit, old(chain), chain, parentCluster,
               info.bpb.ClusterSize(), old(totalOffset), value);
      PutByteContent(old(info.view), old(chain), v1, chain, info.view, info.bpb.ClusterSize(),
                     old(totalSize), old(totalOffset), value, parentCluster);
    }

    lemma DataFacts(info: Info)
      requires Located(info)
      ensures info.bpb.ClusterSize() > 0
      ensures Covers(info.view, chain, info.bpb.ClusterSize()) && NoDuplicates(chain)
      ensures totalSize <= |chain| * info.bpb.ClusterSize()
      ensures Data(info) == Content(info.view, chain, info.bpb.ClusterSize(), totalSize)
      ensures parentCluster !in chain && parentCluster in info.view
      ensures forall k :: k in chain ==> k in info.view
    {
      CoversChain(info, chain);
      if chain != [] {
        ChainNoDuplicates(info.table, info.limit, chain);
      }
      ParentFacts(info);
      info.ViewSizes(parentCluster);
    }

    lemma StateFacts(info: Info)
      requires Valid(info)
      ensures info.bpb.ClusterSize() > 0 && |Data(info)| == totalSize
      ensures totalOffset <= totalSize ==> CeilDiv(totalOffset, info.bpb.ClusterSize()) <= |chain|
      ensures parentCluster in info.view
    {
      hide Info.Valid, SlotAgrees;
      DataFacts(info);
      if totalOffset <= totalSize {
        CeilBound(totalOffset, |chain|, info.bpb.ClusterSize());
      }
    }

    // On the volume, byte by byte: the slot of a valid file.
    lemma SlotOnVolume(info: Info)
      requires Valid(info)
      ensures parentCluster in info.view && SlotHolds(info.view[parentCluster], parentOffset, rootCluster, totalSize)
    {
      hide Located, CursorOk, WordOf, DwordOf, SlotHolds;
      SlotHeld(info.view[parentCluster], parentOffset);
    }

    // n more bytes need no cluster behind the data area: there are enough free
    // data clusters, or no entry behind the data area is free.
    ghost predicate HasRoom(info: Info, n: nat)
      reads this, info
      requires info.bpb.ClusterSize() > 0
    {
      || NoStray(info.table, info.limit)
      || CeilDiv(totalOffset + n, info.bpb.ClusterSize()) <= FreeCount(info.table, info.limit) + |chain|
    }

    // Writes until the buffer is used up or the volume is full. It succeeds
    // exactly when the free clusters suffice for the clusters still missing.
    method FileWrite(info: Info, buffer: seq<byte>) returns (ok: bool, writeCount: nat)
      requires Valid(info) && totalOffset <= totalSize && HasRoom(info, |buffer|)
      modifies this, info.Repr
      ensures Valid(info) && fresh(info.Repr - old(info.Repr)) && old(info.Repr) <= info.Repr && info.Keeps(old(info.index))
      ensures parentCluster == old(parentCluster) && parentOffset == old(parentOffset)
      ensures writeCount <= |buffer| && (ok <==> writeCount == |buffer|)
      ensures ok <==> CeilDiv(old(totalOffset) + |buffer|, info.bpb.ClusterSize()) <= old(FreeCount(info.table, info.limit) + |chain|)
      ensures Wrote(old(State(info)), State(info), buffer[..writeCount], info.limit, info.bpb.ClusterSize(), parentCluster, parentOffset)
      ensures totalSize == |Data(info)|
      ensures parentCluster in info.view && SlotHolds(info.view[parentCluster], parentOffset, rootCluster, totalSize)
    {
      hide Located, CursorOk, SlotAgrees, SlotHolds, Wrote, Quot, CeilDiv, BPB.ClusterSize, FreeCount, FreeBelow, Ample, Data, Info.Valid;
      ok, writeCount := true, 0;
      ghost var cs := info.bpb.ClusterSize();
      ghost var before := State(info);
      StateFacts(info);
      WroteNothing(before, info.limit, cs, parentCluster, parentOffset);
      for a := 0 to |buffer|
        invariant Valid(info) && fresh(info.Repr - old(info.Repr)) && old(info.Repr) <= info.Repr && info.Keeps(old(info.index))
        invariant parentCluster == old(parentCluster) && parentOffset == old(parentOffset)
        invariant ok && writeCount == a
        invariant Wrote(before, State(info), buffer[..a], info.limit, cs, parentCluster, parentOffset)
        invariant totalOffset <= totalSize == |Data(info)|
      {
        ghost var state := State(info);
        RoomForOne(before, state, buffer, a, info.limit, cs, parentCluster, parentOffset);
        ok := FilePutByte(info, buffer[a]);
        if !ok {
          WriteOutcome(before, state, buffer, a, info.limit, cs, parentCluster, parentOffset);
          SlotOnVolume(info);
          return;
        }
        WroteMore(before, state, State(info), buffer[..a], buffer[a], info.limit, cs, parentCluster, parentOffset);
        assert buffer[..a] + [buffer[a]] == buffer[..a + 1];
        writeCount := writeCount + 1;
        StateFacts(info);
      }
      assert buffer[..|buffer|] == buffer;
      WriteOutcome(before, State(info), buffer, |buffer|, info.limit, cs, parentCluster, parentOffset);
      SlotOnVolume(info);
    }

    // --- Reading ---

    // The cursor stands on the chain `s`. It is the file's own chain unless an
    // earlier read has skipped clusters.
    ghost predicate Follows(info: Info, s: seq<nat>)
      reads this, info
    {
      && info.bpb.ClusterSize() > 0
      && (s == [] || IsChain(info.table, info.limit, s))
      && IsSuffix(s, chain)
      && (totalOffset == 0 ==> s == chain)
      && (cache == null ==> totalOffset == 0)
      && (cache != null ==> OnChain(info, s, Lag(totalOffset, info.bpb.ClusterSize())))
    }

    ghost predicate OnChain(info: Info, s: seq<nat>, i: nat)
      reads this, info
    {
      cache != null && i < |s| && info.HasCache(cache) && cache.cluster == s[i]
    }

    lemma OnChainSize(info: Info, s: seq<nat>, i: nat)
      requires info.Valid() && (s == [] || IsChain(info.table, info.limit, s)) && OnChain(info, s, i)
      ensures cache.buffer.Length == info.bpb.ClusterSize()
      ensures s[i] in info.view && info.view[s[i]] == cache.buffer[..]
      ensures cache.cluster < |info.table| && Next(info.table, cache.cluster) == if i + 1 < |s| then s[i + 1] else 0
      ensures i + 1 < |s| ==> s[i + 1] != 0 && InDomain(info.limit, s[i + 1])
    {
      ChainMember(info.table, info.limit, s, i);
      info.ViewSizes(s[i]);
      if i + 1 < |s| {
        ChainMember(info.table, info.limit, s, i + 1);
      }
    }

    // The head of FileRead: makes the cluster of the cursor the cached one.
    method ReadSeek(info: Info, ghost s: seq<nat>) returns (found: bool)
      requires Located(info) && Follows(info, s) && totalOffset < totalSize
      modifies this`cache, info.Repr
      ensures Located(info) && fresh(info.Repr - old(info.Repr)) && old(info.Repr) <= info.Repr && info.Keeps(old(info.index))
      ensures info.table == old(info.table) && info.view == old(info.view)
      ensures found <==> Quot(totalOffset, info.bpb.ClusterSize()) < |s|
      ensures if found then OnChain(info, s, Quot(totalOffset, info.bpb.ClusterSize())) else Follows(info, s)
    {
      hide Located, WellFormed, Info.CachesValid, Info.ViewValid, Entries, BPB.Fits, IsChain, Quot, Rem, Lag, BPB.ClusterSize, Next;
      SeekFacts(info, s);
      found := true;
      if cache == null || Rem(totalOffset, cache.buffer.Length) == 0 {
        if totalOffset > 0 {
          var nextCluster := info.GetNextCluster(cache.cluster);
          if nextCluster == 0 {
            return false;
          }
          Switch(info, nextCluster);
        } else {
          OpenCache(info, rootCluster);
        }
      }
    }

    // FreeCache and GetCache.
    method Switch(info: Info, cluster: nat)
      requires Located(info) && InDomain(info.limit, cluster) && (cache != null ==> info.HasCache(cache))
      modifies this`cache, info.Repr
      ensures Located(info) && fresh(info.Repr - old(info.Repr)) && old(info.Repr) <= info.Repr && info.Keeps(old(info.index))
      ensures info.table == old(info.table) && info.view == old(info.view)
      ensures cache != null && info.HasCache(cache) && cache.cluster == cluster
    {
      hide WellFormed, Info.Coherent, Live, IsChain, BPB.Fits;
      Release(info);
      OpenCache(info, cluster);
    }

    method OpenCache(info: Info, cluster: nat)
      requires Located(info) && InDomain(info.limit, cluster)
      modifies this`cache, info.Repr
      ensures Located(info) && fresh(info.Repr - old(info.Repr)) && old(info.Repr) <= info.Repr && info.Keeps(old(info.index))
      ensures info.table == old(info.table) && info.view == old(info.view)
      ensures cache != null && info.HasCache(cache) && cache.cluster == cluster
    {
      hide WellFormed, Info.Coherent, Live, IsChain, BPB.Fits;
      cache := info.GetCache(cluster);
    }

    lemma SeekFacts(info: Info, s: seq<nat>)
      requires Located(info) && Follows(info, s) && totalOffset < totalSize
      ensures info.Valid() && rootCluster != 0 && InDomain(info.limit, rootCluster)
      ensures var cs := info.bpb.ClusterSize(); var i := Quot(totalOffset, cs);
              && (totalOffset == 0 ==> i == 0 && |s| > 0 && s[0] == rootCluster)
              && (totalOffset > 0 && Rem(totalOffset, cs) == 0 ==> i == Lag(totalOffset, cs) + 1)
              && (totalOffset == 0 || Rem(totalOffset, cs) != 0 ==> i == Lag(totalOffset, cs))
              && Rem(0, cs) == 0
      ensures cache != null ==>
                && cache.buffer.Length == info.bpb.ClusterSize() && cache.cluster < |info.table|
                && var i := Lag(totalOffset, info.bpb.ClusterSize());
                && i < |s|
                && Next(info.table, cache.cluster) == (if i + 1 < |s| then s[i + 1] else 0)
                && (i + 1 < |s| ==> s[i + 1] != 0 && InDomain(info.limit, s[i + 1]))
    {
      hide WellFormed, Info.Coherent, IsChain, Lag, Quot, Rem;
      var cs := info.bpb.ClusterSize();
      LagStep(totalOffset, cs);
      AtZero(cs);
      assert chain != [] by {
        assert chain == [] ==> |chain| * cs == 0;
      }
      ChainMember(info.table, info.limit, chain, 0);
      if cache != null {
        OnChainSize(info, s, Lag(totalOffset, cs));
      }
    }

    lemma AtZero(cs: nat)
      ensures cs > 0 ==> Quot(0, cs) == 0 && Rem(0, cs) == 0
    {
    }

    // The copy loop of FileRead, inside the cached cluster.
    method CopyOut(info: Info, buffer: array<byte>, start: nat, bufferSize: nat, ghost s: seq<nat>) returns (readCount: nat)
      requires Located(info) && info.bpb.ClusterSize() > 0 && totalOffset < totalSize
      requires s == [] || IsChain(info.table, info.limit, s)
      requires OnChain(info, s, Quot(totalOffset, info.bpb.ClusterSize()))
      requires Rem(totalOffset, info.bpb.ClusterSize()) + bufferSize <= info.bpb.ClusterSize()
      requires buffer !in info.Repr && start + bufferSize <= buffer.Length
      modifies this`totalOffset, buffer
      ensures Located(info)
      ensures readCount == Min(bufferSize, totalSize - old(totalOffset))
      ensures totalOffset == old(totalOffset) + readCount
      ensures OnChain(info, s, if readCount == 0 then Quot(totalOffset, info.bpb.ClusterSize())
                               else Lag(totalOffset, info.bpb.ClusterSize()))
      ensures Copied(old(buffer[..]), buffer[..], start, readCount, info.view, s, info.bpb.ClusterSize(), old(totalOffset))
    {
      hide Info.Valid, ChainOk, Live, IsChain, Quot, Rem, Lag, BPB.ClusterSize, BPB.Bytes, Covers, Copied;
      ghost var cs, o := info.bpb.ClusterSize(), totalOffset;
      OnChainSize(info, s, Quot(o, cs));
      CoversSeq(info, s);
      var offset := Rem(totalOffset, cache.buffer.Length);
      readCount := 0;
      CopiedNone(buffer[..], start, info.view, s, cs, o);
      while readCount < bufferSize
        invariant readCount <= Min(bufferSize, totalSize - o)
        invariant totalOffset == o + readCount
        invariant Copied(old(buffer[..]), buffer[..], start, readCount, info.view, s, cs, o)
      {
        if totalOffset >= totalSize {
          break;
        }
        CopiedOne(old(buffer[..]), buffer[..], start, readCount, info.view, s, cs, o, cache.buffer[offset + readCount]);
        buffer[start + readCount] := cache.buffer[offset + readCount];
        totalOffset := totalOffset + 1;
        readCount := readCount + 1;
      }
      LagWithin(o, readCount, cs);
    }

    lemma CoversSeq(info: Info, s: seq<nat>)
      requires info.Valid() && (s == [] || IsChain(info.table, info.limit, s))
      ensures Covers(info.view, s, info.bpb.ClusterSize())
    {
      CoversChain(info, s);
    }

    // Reads up to bufferSize bytes. `s` is the chain that the cursor follows
    // and NextChain the one it follows afterwards.
    method FileRead(info: Info, buffer: array<byte>, start: nat, bufferSize: nat, ghost s: seq<nat>)
      returns (status: Status, readCount: nat)
      requires Located(info) && Follows(info, s)
      requires buffer !in info.Repr && start + bufferSize <= buffer.Length
      modifies this`cache, this`totalOffset, buffer, info.Repr
      ensures Located(info) && fresh(info.Repr - old(info.Repr)) && old(info.Repr) <= info.Repr && info.Keeps(old(info.index))
      ensures info.table == old(info.table) && info.view == old(info.view)
      ensures Follows(info, NextChain(s, old(totalOffset), bufferSize, totalSize, info.bpb.ClusterSize()))
      ensures readCount == Readable(old(totalOffset), bufferSize, totalSize,
                                    |NextChain(s, old(totalOffset), bufferSize, totalSize, info.bpb.ClusterSize())|,
                                    info.bpb.ClusterSize())
      ensures Copied(old(buffer[..]), buffer[..], start, readCount, info.view,
                     NextChain(s, old(totalOffset), bufferSize, totalSize, info.bpb.ClusterSize()),
                     info.bpb.ClusterSize(), old(totalOffset))
      ensures totalOffset == old(totalOffset) + readCount
      ensures status == if readCount > 0 then Success else EndOfFile
      ensures buffer !in info.Repr
      decreases bufferSize, 1
    {
      hide Located, Info.Valid, IsChain, Quot, Rem, Lag, BPB.ClusterSize, Covers, Copied, IsSuffix;
      ghost var cs, o := info.bpb.ClusterSize(), totalOffset;
      ghost var s' := NextChain(s, o, bufferSize, totalSize, cs);
      readCount := 0;
      ReadFacts(info, s, buffer[..], start, bufferSize);
      if totalOffset >= totalSize {
        return EndOfFile, 0;
      }
      var found := ReadSeek(info, s);
      if !found {
        return EndOfFile, 0;
      }
      SeekedFollows(info, s, bufferSize);
      var inBuffer := cache.buffer.Length - Rem(totalOffset, cache.buffer.Length);
      if bufferSize > inBuffer {
        status, readCount := SubReads(info, buffer, start, bufferSize, inBuffer, s');
        return;
      }
      readCount := CopyOut(info, buffer, start, bufferSize, s);
      if readCount == 0 {
        CopiedNothing(old(buffer[..]), buffer[..], start, info.view, s, s', cs, o);
      }
      status := if readCount == 0 then EndOfFile else Success;
    }

    // The loop of FileRead over requests that fit the first buffer.
    method SubReads(info: Info, buffer: array<byte>, start: nat, bufferSize: nat, inBuffer: nat, ghost s: seq<nat>)
      returns (status: Status, readCount: nat)
      requires Located(info) && Follows(info, s)
      requires 0 < inBuffer < bufferSize && inBuffer <= info.bpb.ClusterSize()
      requires buffer !in info.Repr && start + bufferSize <= buffer.Length
      modifies this`cache, this`totalOffset, buffer, info.Repr
      ensures Located(info) && fresh(info.Repr - old(info.Repr)) && old(info.Repr) <= info.Repr && info.Keeps(old(info.index))
      ensures info.table == old(info.table) && info.view == old(info.view)
      ensures Follows(info, s)
      ensures readCount == Readable(old(totalOffset), bufferSize, totalSize, |s|, info.bpb.ClusterSize())
      ensures Copied(old(buffer[..]), buffer[..], start, readCount, info.view, s, info.bpb.ClusterSize(), old(totalOffset))
      ensures totalOffset == old(totalOffset) + readCount
      ensures status == if readCount > 0 then Success else EndOfFile
      ensures buffer !in info.Repr
      decreases bufferSize, 0
    {
      hide Located, Info.Valid, Follows, Quot, Rem, BPB.ClusterSize, Covers, Copied, Readable, NextChain;
      ghost var cs, o := info.bpb.ClusterSize(), totalOffset;
      status, readCount := Success, 0;
      StartSubReads(info, s, buffer[..], start);
      while readCount < bufferSize
        invariant Located(info) && fresh(info.Repr - old(info.Repr)) && old(info.Repr) <= info.Repr && info.Keeps(old(info.index))
        invariant info.table == old(info.table) && info.view == old(info.view)
        invariant Follows(info, s) && totalSize == old(totalSize) && status == Success && buffer !in info.Repr
        invariant readCount <= bufferSize && totalOffset == o + readCount
        invariant readCount == 0 || totalOffset <= Min(totalSize, |s| * cs)
        invariant readCount == bufferSize ==> readCount == Readable(o, bufferSize, totalSize, |s|, cs)
        invariant Copied(old(buffer[..]), buffer[..], start, readCount, info.view, s, cs, o)
      {
        var curSize := Min(bufferSize - readCount, inBuffer);
        ghost var before := buffer[..];
        var subread;
        NoSkip(s, totalOffset, curSize, totalSize, cs);
        status, subread := FileRead(info, buffer, start + readCount, curSize, s);
        CopiedBoth(old(buffer[..]), before, buffer[..], start, readCount, subread, info.view, s, cs, o);
        AddReadable(o, bufferSize, totalSize, |s|, cs, readCount, curSize, subread);
        readCount := readCount + subread;
        if status != Success {
          break;
        }
      }
      if status == EndOfFile && readCount > 0 {
        status := Success;
      }
    }

    lemma StartSubReads(info: Info, s: seq<nat>, buf: seq<byte>, start: nat)
      requires Located(info) && Follows(info, s) && start <= |buf|
      ensures Copied(buf, buf, start, 0, info.view, s, info.bpb.ClusterSize(), totalOffset)
      ensures info.bpb.ClusterSize() > 0
    {
      hide Info.Coherent;
      CoversChain(info, s);
    }

    lemma ReadFacts(info: Info, s: seq<nat>, buf: seq<byte>, start: nat, n: nat)
      requires Located(info) && Follows(info, s) && start + n <= |buf|
      ensures info.Valid()
      ensures var cs := info.bpb.ClusterSize(); var s' := NextChain(s, totalOffset, n, totalSize, cs);
              && Covers(info.view, s', cs)
              && Copied(buf, buf, start, 0, info.view, s', cs, totalOffset)
              && (s' == [] || IsChain(info.table, info.limit, s'))
              && (!(Quot(totalOffset, cs) < |s|) ==> Readable(totalOffset, n, totalSize, |s|, cs) == 0)
    {
      hide Info.Coherent, WellFormed, Quot, Rem;
      var cs := info.bpb.ClusterSize();
      QuotBound(totalOffset, |s|, cs);
      if Skips(totalOffset, n, totalSize, |s|, cs) && |s| > 1 {
        ChainTail(info.table, info.limit, s, 1);
      }
      CoversChain(info, NextChain(s, totalOffset, n, totalSize, cs));
    }

    // Behind the cluster switch: the switch has already moved a cursor that
    // stood on a boundary, so a request that moves it again skips a cluster.
    lemma SeekedFollows(info: Info, s: seq<nat>, n: nat)
      requires Located(info) && totalOffset < totalSize && info.bpb.ClusterSize() > 0
      requires s == [] || IsChain(info.table, info.limit, s)
      requires IsSuffix(s, chain) && (totalOffset == 0 ==> s == chain)
      requires OnChain(info, s, Quot(totalOffset, info.bpb.ClusterSize()))
      ensures cache.buffer.Length == info.bpb.ClusterSize()
      ensures var cs := info.bpb.ClusterSize(); var o := totalOffset; var s' := NextChain(s, o, n, totalSize, cs);
              && (n == 0 || n > cs - Rem(o, cs) ==> Follows(info, s'))
              && (s' == s <==> !Skips(o, n, totalSize, |s|, cs))
              && o + (cs - Rem(o, cs)) <= |s| * cs
    {
      hide Info.Valid, Quot, Rem, IsSuffix;
      var cs := info.bpb.ClusterSize();
      OnChainSize(info, s, Quot(totalOffset, cs));
      LagStep(totalOffset, cs);
      QuotEnd(totalOffset, |s|, cs);
      SuffixTail(s, chain);
      if Skips(totalOffset, n, totalSize, |s|, cs) {
        ChainTail(info.table, info.limit, s, 1);
      }
    }

    // After a read the cursor is where the file's own chain has it exactly
    // when the read did not skip.
    lemma CursorAfterRead(info: Info, o: nat, n: nat)
      requires Located(info) && o <= totalOffset
      requires Follows(info, NextChain(chain, o, n, totalSize, info.bpb.ClusterSize()))
      ensures CursorOk(info) <==> !Skips(o, n, totalSize, |chain|, info.bpb.ClusterSize())
    {
      hide Info.Valid, Lag;
      DataFacts(info);
      if Skips(o, n, totalSize, |chain|, info.bpb.ClusterSize()) {
        var i := Lag(totalOffset, info.bpb.ClusterSize());
        assert cache.cluster == chain[1..][i] == chain[i + 1];
        assert chain[i] != chain[i + 1];
      }
    }

    // The loop of the shell's cat command: reads of one sector up to the end.
    method ReadToEnd(info: Info) returns (out: seq<byte>)
      requires Valid(info) && totalOffset <= totalSize
      modifies this`cache, this`totalOffset, info.Repr
      ensures Valid(info) && fresh(info.Repr - old(info.Repr)) && old(info.Repr) <= info.Repr && info.Keeps(old(info.index))
      ensures info.table == old(info.table) && info.view == old(info.view)
      ensures out == old(Data(info))[old(totalOffset)..] && totalOffset == totalSize
    {
      hide Located, CursorOk, Follows, Info.Valid, BPB.ClusterSize, Content, Copied, Quot, Rem, Skips, Readable, NextChain;
      var buf := new byte[SECTOR];
      ghost var data, o := Data(info), totalOffset;
      SectorFits(info);
      out := [];
      while true
        invariant Valid(info) && fresh(info.Repr - old(info.Repr)) && old(info.Repr) <= info.Repr && info.Keeps(old(info.index))
        invariant info.table == old(info.table) && info.view == old(info.view)
        invariant buf !in info.Repr && fresh(buf) && o <= totalOffset <= totalSize == |data| && Data(info) == data
        invariant out == data[o..totalOffset]
        decreases totalSize - totalOffset
      {
        SectorFits(info);
        ghost var p, bytes := totalOffset, buf[..];
        var status, readCount := FileRead(info, buf, 0, SECTOR, chain);
        SectorRead(info, bytes, buf[..], p, readCount);
        if status != Success {
          return;
        }
        assert data[o..p] + data[p..p + readCount] == data[o..p + readCount];
        out := out + buf[..readCount];
      }
    }

    lemma SectorFits(info: Info)
      requires Valid(info)
      ensures Follows(info, chain) && |Data(info)| == totalSize
      ensures !Skips(totalOffset, SECTOR, totalSize, |chain|, info.bpb.ClusterSize())
      ensures NextChain(chain, totalOffset, SECTOR, totalSize, info.bpb.ClusterSize()) == chain
    {
      hide Info.Valid, Quot, Rem, Lag;
      DataFacts(info);
      assert info.bpb.ClusterSize() >= SECTOR;
      assert chain == chain[0..];
    }

    lemma SectorRead(info: Info, old_: seq<byte>, buf: seq<byte>, o: nat, n: nat)
      requires Located(info) && Follows(info, chain) && SlotAgrees(info) && o <= totalSize && totalOffset == o + n
      requires n == Readable(o, SECTOR, totalSize, |chain|, info.bpb.ClusterSize())
      requires Copied(old_, buf, 0, n, info.view, chain, info.bpb.ClusterSize(), o)
      ensures Valid(info) && o + n <= totalSize == |Data(info)| && (n == 0 ==> o == totalSize)
      ensures n <= |buf| && buf[..n] == Data(info)[o..o + n]
    {
      hide Info.Valid, Copied, Content, Lag;
      DataFacts(info);
      CopiedIsContent(old_, buf, 0, n, info.view, chain, info.bpb.ClusterSize(), totalSize, o);
      assert buf[..n] == buf[0..n];
    }

    // --- Positioning ---

    // The cached cluster is number k of the chain or, behind it, the root directory.
    ghost predicate PointerAt(info: Info, k: nat)
      reads this, info
    {
      if k < |chain| then OnChain(info, chain, k) else cache != null && info.HasCache(cache) && cache.cluster == 0
    }

    // An offset behind the chain ends up in the root directory.
    method FileSetPointer(info: Info, offset: nat) returns (status: Status)
      requires Located(info) && info.bpb.ClusterSize() > 0 && info.bpb.Bytes(0) > 0
      requires cache != null ==> chain != [] && info.HasCache(cache)
      requires offset > 0 ==> cache != null && PointerEnds(offset, |chain|, info.bpb.ClusterSize(), info.bpb.Bytes(0))
      requires offset > |chain| * info.bpb.ClusterSize() ==> offset + info.bpb.Bytes(0) < 0x1_0000_0000
      modifies this`cache, this`totalOffset, info.Repr
      ensures Located(info) && fresh(info.Repr - old(info.Repr)) && old(info.Repr) <= info.Repr && info.Keeps(old(info.index))
      ensures info.table == old(info.table) && info.view == old(info.view)
      ensures CursorOk(info) <==> offset == 0 || Quot(offset, info.bpb.ClusterSize()) < |chain|
      ensures offset > |chain| * info.bpb.ClusterSize() ==> cache != null && cache.cluster == 0
      ensures totalOffset == offset && status == Undefined
    {
      hide ChainOk, Live, Info.Valid, Info.HasCache, IsChain, Quot, Rem, Lag, BPB.ClusterSize, BPB.Bytes, Stride, PointerWay,
           PointerEnds, PointerPlace, CursorOk;
      ghost var len, cs, root := |chain|, info.bpb.ClusterSize(), info.bpb.Bytes(0);
      PointerFacts(info);
      PointerStart(offset, len, cs);
      if cache != null && cache.cluster != rootCluster {
        Switch(info, rootCluster);
      }
      var a := 0;
      ghost var k := 0;
      PointerBegins(info);
      while a < offset
        invariant Located(info) && fresh(info.Repr - old(info.Repr)) && old(info.Repr) <= info.Repr && info.Keeps(old(info.index))
        invariant info.table == old(info.table) && info.view == old(info.view)
        invariant cache == null ==> offset == 0
        invariant cache != null ==> chain != []
        invariant cache != null ==> PointerAt(info, k)
        invariant PointerPlace(offset, len, cs, a, k)
        decreases offset - a
      {
        PointerSize(info, k);
        PlaceStep(offset, len, cs, root, a, k);
        if offset - a > cache.buffer.Length {
          a := a + cache.buffer.Length;
          SkipCluster(info, k);
          k := k + 1;
        } else {
          a := a + Rem(offset, cache.buffer.Length);
        }
      }
      totalOffset := offset;
      PointerEnd(info, a, k);
      return Undefined;
    }

    lemma PointerBegins(info: Info)
      requires Located(info) && (cache != null ==> info.HasCache(cache) && cache.cluster == rootCluster && chain != [])
      ensures cache != null ==> PointerAt(info, 0)
    {
      hide Info.Valid, IsChain;
    }

    // The cursor where the loop ends.
    lemma PointerEnd(info: Info, a: nat, k: nat)
      requires Located(info) && info.bpb.ClusterSize() > 0 && (cache == null ==> totalOffset == 0)
      requires cache != null ==> chain != [] && PointerAt(info, k)
      requires PointerPlace(totalOffset, |chain|, info.bpb.ClusterSize(), a, k) && a >= totalOffset
      requires totalOffset > 0 ==> PointerEnds(totalOffset, |chain|, info.bpb.ClusterSize(), info.bpb.Bytes(0))
      ensures CursorOk(info) <==> totalOffset == 0 || Quot(totalOffset, info.bpb.ClusterSize()) < |chain|
      ensures totalOffset > |chain| * info.bpb.ClusterSize() ==> cache != null && cache.cluster == 0
    {
      hide Info.Valid, Quot, Rem, Lag, BPB.ClusterSize, BPB.Bytes, IsChain;
      var cs := info.bpb.ClusterSize();
      PlaceEnd(totalOffset, |chain|, cs, a, k);
      LagStep(totalOffset, cs);
      AtZero(cs);
      BehindChain(totalOffset, |chain|, cs);
      if chain != [] {
        NotZero(info.table, info.limit, chain);
        assert forall i :: 0 <= i < |chain| ==> chain[i] in chain;
      }
    }

    method SkipCluster(info: Info, ghost k: nat)
      requires Located(info) && PointerAt(info, k)
      modifies this`cache, info.Repr
      ensures Located(info) && fresh(info.Repr - old(info.Repr)) && old(info.Repr) <= info.Repr && info.Keeps(old(info.index))
      ensures info.table == old(info.table) && info.view == old(info.view)
      ensures cache != null && PointerAt(info, k + 1)
    {
      hide WellFormed, Info.CachesValid, Info.ViewValid, Entries, Live, IsChain, BPB.Fits, Next, BPB.Bytes;
      PointerSize(info, k);
      var currentCluster := cache.cluster;
      Switch(info, info.GetNextCluster(currentCluster));
    }

    lemma PointerSize(info: Info, k: nat)
      requires Located(info) && PointerAt(info, k)
      ensures info.Valid() && info.HasCache(cache) && cache.cluster < |info.table|
      ensures cache.buffer.Length == PointerBuffer(k, |chain|, info.bpb.ClusterSize(), info.bpb.Bytes(0))
      ensures Next(info.table, cache.cluster) == if k + 1 < |chain| then chain[k + 1] else 0
      ensures k + 1 < |chain| ==> InDomain(info.limit, chain[k + 1])
    {
      hide Info.Coherent, WellFormed, IsChain, BPB.Bytes;
      if k < |chain| {
        OnChainSize(info, chain, k);
      } else {
        info.ViewSizes(0);
        info.ZeroInTable();
      }
    }

    lemma PointerFacts(info: Info)
      requires Located(info)
      ensures info.Valid()
      ensures chain != [] ==>
        IsChain(info.table, info.limit, chain) && chain[0] == rootCluster && InDomain(info.limit, rootCluster)
    {
      hide Info.Valid, IsChain;
      if chain != [] {
        ChainMember(info.table, info.limit, chain, 0);
      }
    }
  }

  // Where the loop of FileSetPointer stands: on the way and, inside the chain,
  // on the cluster that belongs to the counter.
  ghost predicate PointerPlace(offset: nat, len: nat, cs: nat, a: nat, k: nat) {
    PointerWay(offset, len, cs, a, k) && (offset <= len * cs ==> Stride(offset, a, k, cs))
  }

  lemma {:induction false} PointerStart(offset: nat, len: nat, cs: nat)
    requires cs > 0
    ensures PointerPlace(offset, len, cs, 0, 0)
  {
    StrideEnds(offset, cs);
    assert (len - 0) * cs == len * cs;
    assert len == 0 ==> len * cs == 0;
  }

  lemma {:induction false} PlaceStep(offset: nat, len: nat, cs: nat, root: nat, a: nat, k: nat)
    requires cs > 0 && root > 0 && a < offset && PointerPlace(offset, len, cs, a, k)
    requires PointerEnds(offset, len, cs, root)
    ensures var next := PointerStep(offset, len, cs, root, a, k);
            PointerPlace(offset, len, cs, next.0, next.1) && next.0 > a
  {
    PointerWayStep(offset, len, cs, root, a, k);
    if offset <= len * cs {
      NextStride(offset, a, k, cs);
    }
    hide Stride, Rem, Quot;
  }

  lemma {:induction false} PlaceEnd(offset: nat, len: nat, cs: nat, a: nat, k: nat)
    requires PointerPlace(offset, len, cs, a, k) && a >= offset
    ensures if offset <= len * cs then cs > 0 && k == Quot(offset, cs) else k >= len
  {
    hide Quot, Rem;
    if offset > len * cs && k < len {
      MulMonotonic(0, len - k, cs);
      assert false;
    }
  }

  lemma {:induction false} BehindChain(offset: nat, len: nat, cs: nat)
    requires cs > 0
    ensures offset > len * cs ==> Quot(offset, cs) >= len
    ensures Quot(offset, cs) < len ==> offset <= len * cs
    ensures offset <= len * cs && Rem(offset, cs) != 0 ==> Quot(offset, cs) < len
  {
    QuotBound(offset, len, cs);
    QuotRem(offset, cs);
    if offset == len * cs {
      QuotBound(offset, len, cs);
      QuotBound(offset, len + 1, cs);
      assert (len + 1) * cs == len * cs + cs;
    }
  }

  // The file's chain `s` (empty when parent is 0) grows by the cluster that
  // AddCluster finds ...
  lemma {:induction false} AddExtends(t: seq<nat>, limit: nat, s: seq<nat>, parent: nat, f: nat)
    requires CanAdd(t, limit, parent, f)
    requires if parent == 0 then s == [] else IsChain(t, limit, s) && s[|s| - 1] == parent
    ensures IsChain(Linked(t, parent, f), limit, s + [f])
  {
    if parent == 0 {
      AddStartsChain(t, limit, parent, f);
      assert s + [f] == [f];
    } else {
      AddGrowsOneChain(t, limit, parent, f, s);
      assert parent in s;
    }
  }

  lemma {:induction false} AmpleFits(t: seq<nat>, limit: nat)
    requires WellFormed(t, limit) && Ample(t, limit)
    ensures forall f: nat :: IsLowestFree(t, f) ==> f < limit < 0x1000
    ensures HasFree(t) <==> FreeBelow(t, limit)
  {
    NoFreeMeansFull(t, limit);
    forall f: nat | IsLowestFree(t, f)
      ensures f < limit < 0x1000
    {
      ScanStaysInside(t, limit, f);
    }
  }

  // ... and chains disjoint from it survive and avoid the new cluster.
  lemma {:induction false} AddKeepsOther(t: seq<nat>, limit: nat, s: seq<nat>, parent: nat, f: nat, u: seq<nat>)
    requires CanAdd(t, limit, parent, f) && (parent == 0 || parent in s)
    requires IsChain(t, limit, u) && Disjoint(u, s)
    ensures IsChain(Linked(t, parent, f), limit, u) && Disjoint(u, s + [f])
  {
    hide CanAdd, IsChain, Linked;
    NotZero(t, limit, u);
    AddGrowsOneChain(t, limit, parent, f, u);
  }

  lemma {:induction false} AddKeepsOthers(t: seq<nat>, limit: nat, s: seq<nat>, parent: nat, f: nat)
    requires CanAdd(t, limit, parent, f) && (parent == 0 || parent in s)
    ensures forall u :: IsChain(t, limit, u) && Disjoint(u, s) ==>
                          IsChain(Linked(t, parent, f), limit, u) && Disjoint(u, s + [f])
  {
    LinkedLive(t, limit, parent, f);
    var t' := Linked(t, parent, f);
    forall u | IsChain(t, limit, u) && Disjoint(u, s)
      ensures IsChain(t', limit, u) && Disjoint(u, s + [f])
    {
      AddKeepsOther(t, limit, s, parent, f, u);
    }
  }

  lemma {:induction false} SlotSame(d: seq<byte>, entry: nat)
    ensures SlotOnly(d, d, entry)
  {
  }

  lemma {:induction false} PutAtOnly(v: View, s: seq<nat>, cs: nat, o: nat, value: byte)
    requires Covers(v, s, cs) && Quot(o, cs) < |s|
    ensures PutAt(v, s, cs, o, value).Keys == v.Keys
    ensures forall k :: k in v && k !in s ==> PutAt(v, s, cs, o, value)[k] == v[k]
  {
  }

  lemma {:induction false} KeptThen(t: seq<nat>, v: View, t': seq<nat>, v1: View, v3: View, limit: nat, s: seq<nat>,
                                    s': seq<nat>, parent: nat,
                                    cs: nat, o: nat, value: byte)
    requires Kept(t, v, t', v1, limit, s, s', parent)
    requires StoredAt(v1, v3, s', cs, o, value, parent) && v3.Keys == v1.Keys
    ensures Kept(t, v, t', v3, limit, s, s', parent)
  {
    hide IsChain, Disjoint;
    PutAtOnly(v1, s', cs, o, value);
  }

  // The content of every other file survives: one that shares no cluster with
  // the written file and does not run through the directory cluster.
  lemma {:induction false} OtherContentKept(t: seq<nat>, v: View, t': seq<nat>, v': View, limit: nat, s: seq<nat>, s': seq<nat>,
                                            parent: nat, u: seq<nat>, cs: nat, size: nat)
    requires Kept(t, v, t', v', limit, s, s', parent)
    requires IsChain(t, limit, u) && Disjoint(u, s) && parent !in u
    requires Covers(v, u, cs) && size <= |u| * cs
    ensures IsChain(t', limit, u) && Disjoint(u, s')
    ensures Covers(v', u, cs) && Content(v', u, cs, size) == Content(v, u, cs, size)
  {
    hide IsChain;
    ContentFrame(v, v', u, cs, size);
  }

  lemma {:induction false} WroteNothing(s: FileState, limit: nat, cs: nat, parent: nat, entry: nat)
    requires cs > 0 && s.offset <= |s.data| && CeilDiv(s.offset, cs) <= |s.chain| && parent in s.view
    ensures Wrote(s, s, [], limit, cs, parent, entry)
  {
    hide FreeCount, CeilDiv, IsChain, Disjoint;
  }

  lemma {:induction false} WroteMore(s0: FileState, s1: FileState, s2: FileState, bytes: seq<byte>, b: byte,
                                     limit: nat, cs: nat, parent: nat, entry: nat)
    requires Wrote(s0, s1, bytes, limit, cs, parent, entry)
    requires Wrote(s1, s2, [b], limit, cs, parent, entry)
    ensures Wrote(s0, s2, bytes + [b], limit, cs, parent, entry) && s2.offset <= |s2.data|
  {
    hide FreeCount, CeilDiv, Kept, Overwrite;
    OverwriteAppend(s0.data, s0.offset, bytes, b);
    CeilStep(s1.offset, cs);
    KeptBoth(s0, s1, s2, limit, parent);
    assert s1.chain == s2.chain[..|s1.chain|];
  }

  lemma {:induction false} KeptBoth(s0: FileState, s1: FileState, s2: FileState, limit: nat, parent: nat)
    requires Kept(s0.table, s0.view, s1.table, s1.view, limit, s0.chain, s1.chain, parent)
    requires Kept(s1.table, s1.view, s2.table, s2.view, limit, s1.chain, s2.chain, parent)
    requires s1.chain <= s2.chain
    ensures Kept(s0.table, s0.view, s2.table, s2.view, limit, s0.chain, s2.chain, parent)
  {
    hide IsChain, Disjoint;
    assert forall k :: k in s1.chain ==> k in s2.chain;
  }

  // The first `n` bytes are written; the next one, if any, has found no cluster.
  lemma {:induction false} WriteOutcome(s0: FileState, s1: FileState, buffer: seq<byte>, n: nat,
                                        limit: nat, cs: nat, parent: nat, entry: nat)
    requires n <= |buffer| && Wrote(s0, s1, buffer[..n], limit, cs, parent, entry)
    requires n < |buffer| ==> !(Quot(s1.offset, cs) < |s1.chain| || FreeBelow(s1.table, limit))
    ensures n == |buffer| <==> CeilDiv(s0.offset + |buffer|, cs) <= FreeCount(s0.table, limit) + |s0.chain|
  {
    hide FreeCount, CeilDiv, Kept, Overwrite, FreeBelow, Ample;
    if n < |buffer| {
      NoFreeMeansFull(s1.table, limit);
      CeilStep(s1.offset, cs);
      CeilMonotonic(s1.offset + 1, s0.offset + |buffer|, cs);
    }
  }

  // With room for the whole buffer there is room for the next byte.
  lemma {:induction false} RoomForOne(s0: FileState, s1: FileState, buffer: seq<byte>, n: nat,
                                      limit: nat, cs: nat, parent: nat, entry: nat)
    requires n < |buffer| && Wrote(s0, s1, buffer[..n], limit, cs, parent, entry)
    requires NoStray(s0.table, limit) || CeilDiv(s0.offset + |buffer|, cs) <= FreeCount(s0.table, limit) + |s0.chain|
    ensures Quot(s1.offset, cs) < |s1.chain| || Ample(s1.table, limit)
  {
    hide FreeCount, CeilDiv, Overwrite, FreeBelow, Ample, NoStray, HasFree;
    NoFreeMeansFull(s1.table, limit);
    CeilStep(s1.offset, cs);
    CeilMonotonic(s1.offset + 1, s0.offset + |buffer|, cs);
  }

  // The content through the three stages of FilePutByte: v1 and s1 after the
  // cluster switch, then one byte stored, then the parent slot updated.
  lemma {:induction false} PutByteContent(v0: View, s0: seq<nat>, v1: View, s1: seq<nat>, v3: View, cs: nat,
                                          size: nat, o: nat, value: byte, parent: nat)
    requires Covers(v0, s0, cs) && Covers(v1, s1, cs) && s0 <= s1 && NoDuplicates(s1)
    requires size <= |s0| * cs && o <= size
    requires forall k :: k in s0 ==> v1[k] == v0[k]
    requires StoredAt(v1, v3, s1, cs, o, value, parent) && v3.Keys == v1.Keys
    requires parent !in s1
    ensures var size' := Max(size, o + 1);
            && size' <= |s1| * cs && Covers(v3, s1, cs)
            && Content(v3, s1, cs, size') == Overwrite(Content(v0, s0, cs, size), o, [value])
  {
    var more := s1[|s0|..];
    assert s1 == s0 + more;
    ContentFrame(v0, v1, s0, cs, size);
    ContentExtend(v1, s0, more, cs, size);
    ContentPut(v1, s1, cs, size, o, value);
    ContentFrame(PutAt(v1, s1, cs, o, value), v3, s1, cs, Max(size, o + 1));
  }

  // No file of a volume with 16-bit sector numbers needs more than 32 bits of size.
  lemma {:induction false} SizeBound(b: BPB, total: nat, fatBytes: nat, limit: nat, n: nat)
    requires b.Fits(total, fatBytes, limit) && 1 <= n <= limit - 2
    ensures n * b.ClusterSize() < 0x1_0000_0000
  {
    var c := limit - 1;
    assert b.Start(c) + b.Sectors(c) <= total;
    var m := c * b.sectorsPerCluster;
    assert m <= 0x1_0002;
    MulMonotonic(n, c, b.sectorsPerCluster);
    assert n * b.ClusterSize() == SECTOR * (n * b.sectorsPerCluster);
  }

  lemma {:induction false} ChainMember(t: seq<nat>, limit: nat, s: seq<nat>, i: nat)
    requires i < |s| && (s == [] || IsChain(t, limit, s))
    ensures InDomain(limit, s[i]) && s[i] != 0 && s[i] < |t|
    ensures Next(t, s[i]) == if i + 1 < |s| then s[i + 1] else 0
    ensures i + 1 < |s| ==> s[i + 1] != 0
  {
  }

  lemma {:induction false} LastOfChain(t: seq<nat>, limit: nat, s: seq<nat>)
    requires IsChain(t, limit, s)
    ensures Live(t, limit, s[|s| - 1]) && Next(t, s[|s| - 1]) == 0 && s[|s| - 1] in s
  {
  }

  lemma CoversChain(info: Info, s: seq<nat>)
    requires info.Valid() && (s == [] || IsChain(info.table, info.limit, s))
    ensures Covers(info.view, s, info.bpb.ClusterSize())
  {
    forall i | 0 <= i < |s|
      ensures s[i] in info.view && |info.view[s[i]]| == info.bpb.ClusterSize()
    {
      info.ViewSizes(s[i]);
    }
  }
}
