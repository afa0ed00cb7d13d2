// Enumerating and extending directories of a FAT12 volume (kernel/FS/FAT.cpp).
module FatDirectory {
  import opened Arithmetic
  import opened Bytes
  import opened FatTable
  import opened FatChains
  import opened FatLayout
  import opened FatContent
  import opened FatName
  import opened FatSlots
  import opened FatVolume
  import opened FatFile
  import opened Sequences

  class Directory {
    var rootCluster: nat
    var bufferOffset: nat
    var cache: Cache?
    ghost var chain: seq<nat>
    ghost var pos: nat  // the position in the chain of the cached cluster

    // DirectoryOpenRoot.
    constructor (info: Info)
      requires info.Valid()
      ensures Valid(info) && rootCluster == 0 && cache == null && Remaining(info) == AllSlots(info)
    {
      rootCluster, bufferOffset, cache := 0, 0, null;
      chain, pos := [0], 0;
    }

    ghost predicate Located(info: Info)
      reads this, info, info.Repr
      ensures Located(info) ==> this !in info.Repr && info in info.Repr && info.Valid()
    {
      && info.Valid() && this !in info.Repr
      && if rootCluster == 0 then chain == [0] else IsChain(info.table, info.limit, chain) && chain[0] == rootCluster
    }

    ghost predicate CursorOk(info: Info)
      reads this, info
    {
      if cache == null then bufferOffset == 0 else
        && pos < |chain| && info.HasCache(cache) && cache.cluster == chain[pos]
        && bufferOffset % DIR_ENTRY == 0 && bufferOffset + DIR_ENTRY <= cache.buffer.Length
    }

    ghost predicate Valid(info: Info)
      reads this, info, info.Repr
    {
      Located(info) && CursorOk(info)
    }

    ghost function AllSlots(info: Info): seq<Slot>
      reads this, info, info.Repr
      requires Located(info)
    {
      ChainKnown(info);
      Slots(info.view, chain)
    }

    // The slots that the enumeration has still to visit.
    ghost function Remaining(info: Info): seq<Slot>
      reads this, info, info.Repr
      requires Valid(info)
    {
      ChainKnown(info);
      if cache == null then Slots(info.view, chain)
      else
        CacheKnown(info);
        After(info.view, chain, pos, bufferOffset / DIR_ENTRY)
    }

    lemma ChainKnown(info: Info)
      requires Located(info)
      ensures |chain| > 0 && Known(info.view, chain) && NoDuplicates(chain)
      ensures forall i :: 0 <= i < |chain| ==> InDomain(info.limit, chain[i]) && HasSlots(info.view[chain[i]])
    {
      hide Info.Valid, BPB.Bytes, HasSlots;
      if rootCluster != 0 {
        ChainNoDuplicates(info.table, info.limit, chain);
        ChainNonempty(info.table, info.limit, chain);
      }
      forall i | 0 <= i < |chain|
        ensures InDomain(info.limit, chain[i]) && chain[i] in info.view && HasSlots(info.view[chain[i]])
      {
        if rootCluster != 0 {
          ChainMember(info.table, info.limit, chain, i);
        }
        ClusterHasSlots(info, chain[i]);
      }
    }

    lemma CacheKnown(info: Info)
      requires Valid(info) && cache != null
      ensures chain[pos] in info.view && info.view[chain[pos]] == cache.buffer[..]
      ensures HasSlots(cache.buffer[..])
      ensures bufferOffset / DIR_ENTRY < |ClusterSlots(info.view[chain[pos]])|
    {
      hide Info.Coherent, WellFormed, BPB.Bytes, Located;
      ChainKnown(info);
      info.ViewSizes(chain[pos]);
    }

    // Puts the cursor on the first slot of cluster k of the chain.
    method MoveTo(info: Info, cluster: nat, ghost k: nat)
      requires Valid(info) && k < |chain| && chain[k] == cluster
      modifies this`cache, this`bufferOffset, this`pos, info.Repr
      ensures Valid(info) && fresh(info.Repr - old(info.Repr)) && old(info.Repr) <= info.Repr
      ensures info.table == old(info.table) && info.view == old(info.view)
      ensures cache != null && pos == k && bufferOffset == 0
    {
      hide Info.Valid, IsChain, BPB.Bytes, ClusterSlots;
      ChainKnown(info);
      MovedKnown(info, k);
      if cache != null {
        bufferOffset := 0;
      }
      cache := Exchange(info, cache, cluster);
      pos := k;
    }

    lemma MovedKnown(info: Info, k: nat)
      requires Located(info) && k < |chain|
      ensures chain[k] in info.view && |info.view[chain[k]]| == info.bpb.Bytes(chain[k]) >= DIR_ENTRY
      ensures info.bpb.ClusterSize() > 0
    {
      ChainKnown(info);
      info.ViewSizes(chain[k]);
    }

    // Moves the cursor to the next slot.
    method Advance(info: Info) returns (status: Status)
      requires Valid(info)
      modifies this`cache, this`bufferOffset, this`pos, info.Repr
      ensures Valid(info) && fresh(info.Repr - old(info.Repr)) && old(info.Repr) <= info.Repr
      ensures info.table == old(info.table) && info.view == old(info.view)
      ensures if old(Remaining(info)) == [] then status == EndOfFile && Remaining(info) == [] && cache == old(cache)
              else && status == Success && cache != null
                   && old(Remaining(info)) == [CurrentSlot(info)] + Remaining(info)
    {
      hide Info.Valid, Info.Coherent, IsChain, HasSlots, ClusterSlots, After, Slots, Remaining, CurrentSlot;
      AdvanceFacts(info);
      if cache == null || bufferOffset + DIR_ENTRY >= cache.buffer.Length {
        if cache == null {
          MoveTo(info, rootCluster, 0);
          Arrived(info, 0, 0);
        } else {
          if rootCluster == 0 {
            return EndOfFile;
          }
          var nextCluster := info.GetNextCluster(cache.cluster);
          if nextCluster == 0 {
            return EndOfFile;
          }
          MoveTo(info, nextCluster, pos + 1);
          Arrived(info, pos, 0);
        }
      } else {
        bufferOffset := bufferOffset + DIR_ENTRY;
        Arrived(info, pos, bufferOffset / DIR_ENTRY);
      }
      status := Success;
    }

    lemma Arrived(info: Info, k: nat, i: nat)
      requires Valid(info) && cache != null && pos == k && bufferOffset == i * DIR_ENTRY
      ensures Known(info.view, chain) && i < |ClusterSlots(info.view[chain[k]])|
      ensures CurrentSlot(info) == ClusterSlots(info.view[chain[k]])[i]
      ensures Remaining(info) == After(info.view, chain, k, i)
    {
      hide Info.Valid, ClusterSlots, After;
      ChainKnown(info);
      CacheKnown(info);
    }

    // How the slots go on behind the cursor.
    lemma AdvanceFacts(info: Info)
      requires Valid(info)
      ensures |chain| > 0 && chain[0] == rootCluster && Known(info.view, chain)
      ensures cache == null ==> NextIs(info, 0, 0)
      ensures cache != null ==>
                && info.Coherent() && cache.cluster < |info.table|
                && var i := bufferOffset / DIR_ENTRY;
                if bufferOffset + DIR_ENTRY < cache.buffer.Length then
                  bufferOffset + DIR_ENTRY == (i + 1) * DIR_ENTRY
                  && bufferOffset + 2 * DIR_ENTRY <= cache.buffer.Length && NextIs(info, pos, i + 1)
                else if pos + 1 < |chain| then
                  rootCluster != 0 && info.GetNextCluster(cache.cluster) == chain[pos + 1] != 0 && NextIs(info, pos + 1, 0)
                else
                  (rootCluster == 0 || info.GetNextCluster(cache.cluster) == 0) && Remaining(info) == []
    {
      hide Info.CachesValid, Info.ViewValid, WellFormed, IsChain, BPB.Bytes, ClusterSlots, After, Slots, Entries;
      ChainKnown(info);
      if cache == null {
        AfterNothing(info.view, chain);
      } else {
        CacheKnown(info);
        var i := bufferOffset / DIR_ENTRY;
        if bufferOffset + DIR_ENTRY < cache.buffer.Length {
          AfterSlot(info.view, chain, pos, i);
        } else if pos + 1 < |chain| {
          AfterCluster(info.view, chain, pos, i);
        } else {
          AfterAll(info.view, chain, pos, i);
        }
        if rootCluster != 0 {
          ChainMember(info.table, info.limit, chain, pos);
        } else {
          info.ZeroInTable();
        }
      }
    }

    // The next slot is slot i of cluster k.
    ghost predicate NextIs(info: Info, k: nat, i: nat)
      reads this, info, info.Repr
      requires Valid(info) && Known(info.view, chain)
    {
      && k < |chain| && i < |ClusterSlots(info.view[chain[k]])|
      && Remaining(info) == [ClusterSlots(info.view[chain[k]])[i]] + After(info.view, chain, k, i)
    }

    ghost function CurrentSlot(info: Info): Slot
      reads this, info, info.Repr
      requires Valid(info) && cache != null
    {
      CacheKnown(info);
      ClusterSlots(info.view[chain[pos]])[bufferOffset / DIR_ENTRY]
    }

    method DirectoryReadInternal(info: Info) returns (status: Status, entry: DirEntry)
      requires Valid(info)
      modifies this`cache, this`bufferOffset, this`pos, info.Repr
      ensures Valid(info) && fresh(info.Repr - old(info.Repr)) && old(info.Repr) <= info.Repr
      ensures info.table == old(info.table) && info.view == old(info.view)
      ensures if old(Remaining(info)) == [] then status == EndOfFile && Remaining(info) == []
              else && status == Success && cache != null
                   && old(Remaining(info)) == [CurrentSlot(info)] + Remaining(info) && entry == Decoded(CurrentSlot(info))
    {
      hide *;
      entry := DirEntry(false, false, 0, []);
      status := Advance(info);
      if status == EndOfFile {
        return;
      }
      entry := ReadSlot(info);
    }

    method ReadSlot(info: Info) returns (entry: DirEntry)
      requires Valid(info) && cache != null
      ensures entry == Decoded(CurrentSlot(info))
    {
      hide Info.Valid, Located, Printed;
      CacheKnown(info);
      var slot: seq<byte> := cache.buffer[bufferOffset..bufferOffset + DIR_ENTRY];
      var attributes := slot[11];
      var name := PrintName(slot[..11]);
      entry := DirEntry(!(slot[0] == 0 || slot[0] == SPACE || slot[0] == 0xE5), attributes / ATTRIBUTE_DIRECTORY % 2 == 1,
                        DwordOf(slot, SLOT_SIZE), name);
    }

    // The next valid slot: repeated calls go through the listing.
    // The k slots in front of it are those whose first byte is 0, a space or 0xE5.
    method DirectoryRead(info: Info) returns (status: Status, entry: DirEntry, ghost k: nat)
      requires Valid(info)
      modifies this`cache, this`bufferOffset, this`pos, info.Repr
      ensures Valid(info) && fresh(info.Repr - old(info.Repr)) && old(info.Repr) <= info.Repr
      ensures info.table == old(info.table) && info.view == old(info.view)
      ensures if old(Listing(Remaining(info))) == [] then status == EndOfFile && Remaining(info) == []
              else && status == Success && cache != null
                   && old(Listing(Remaining(info))) == [CurrentSlot(info)] + Listing(Remaining(info))
                   && entry == Decoded(CurrentSlot(info))
      ensures k <= |old(Remaining(info))| && (status == Success <==> k < |old(Remaining(info))|)
      ensures forall i :: 0 <= i < k ==>
        var b := old(Remaining(info))[i][0]; b == 0 || b == 32 || b == 0xE5
      ensures status == Success ==>
        && cache != null && old(Remaining(info))[k] == CurrentSlot(info) && Remaining(info) == old(Remaining(info))[k + 1..]
        && var b := CurrentSlot(info)[0]; b != 0 && b != 32 && b != 0xE5
    {
      hide Valid, Remaining, CurrentSlot, Decoded;
      ghost var slots := Remaining(info);
      k := 0;
      assert slots[0..] == slots;
      while true
        invariant Valid(info) && fresh(info.Repr - old(info.Repr)) && old(info.Repr) <= info.Repr
        invariant info.table == old(info.table) && info.view == old(info.view)
        invariant Listing(Remaining(info)) == Listing(slots)
        invariant k <= |slots| && Remaining(info) == slots[k..]
        invariant forall i :: 0 <= i < k ==> var b := slots[i][0]; b == 0 || b == 32 || b == 0xE5
        decreases |Remaining(info)|
      {
        ghost var rest := Remaining(info);
        status, entry := DirectoryReadInternal(info);
        if status != Success {
          return;
        }
        ListingStep(rest);
        DecodedBytes(CurrentSlot(info));
        DecodedValid(CurrentSlot(info));
        assert slots[k] == rest[0] && rest[1..] == slots[k + 1..];
        if entry.isValid {
          return;
        }
        k := k + 1;
      }
    }

    method DirectoryRewind(info: Info)
      requires Valid(info)
      modifies this`cache, this`bufferOffset, info.Repr
      ensures Valid(info) && info.Repr == old(info.Repr)
      ensures info.table == old(info.table) && info.view == old(info.view)
      ensures cache == null && AllSlots(info) == old(AllSlots(info)) && Remaining(info) == AllSlots(info)
    {
      hide Info.Coherent, WellFormed, IsChain, BPB.Bytes, Slots;
      info.FreeCache(cache);
      cache := null;
      bufferOffset := 0;
    }

    // The loop of the shell's directory command: rewind, then read to the end.
    method ListAll(info: Info) returns (entries: seq<DirEntry>)
      requires Valid(info)
      modifies this`cache, this`bufferOffset, this`pos, info.Repr
      ensures Valid(info) && fresh(info.Repr - old(info.Repr)) && old(info.Repr) <= info.Repr
      ensures info.table == old(info.table) && info.view == old(info.view)
      ensures entries == DecodedAll(Listing(old(AllSlots(info)))) && AllSlots(info) == old(AllSlots(info))
    {
      hide Valid, Located, Remaining, CurrentSlot, Decoded, Listing, Slots, DecodedAll;
      ValidLocated(info);
      DirectoryRewind(info);
      ghost var listing := Listing(Remaining(info));
      entries := [];
      DecodedNone();
      while true
        invariant Valid(info) && fresh(info.Repr - old(info.Repr)) && old(info.Repr) <= info.Repr
        invariant info.table == old(info.table) && info.view == old(info.view)
        invariant DecodedAll(listing) == entries + DecodedAll(Listing(Remaining(info)))
        decreases |Listing(Remaining(info))|
      {
        var status, entry, k := DirectoryRead(info);
        if status != Success {
          ListingOfNone();
          return;
        }
        DecodedCons(CurrentSlot(info), Listing(Remaining(info)));
        entries := entries + [entry];
      }
    }

    lemma ValidLocated(info: Info)
      requires Valid(info)
      ensures Located(info)
    {
    }

    // The search loop that ExtendDirectoryIfNoFreeEntries and
    // DirectoryAddEntry share.
    method FindFree(info: Info) returns (status: Status)
      requires Valid(info)
      modifies this`cache, this`bufferOffset, this`pos, info.Repr
      ensures Valid(info) && fresh(info.Repr - old(info.Repr)) && old(info.Repr) <= info.Repr
      ensures info.table == old(info.table) && info.view == old(info.view)
      ensures status == Success <==> FirstFree(AllSlots(info)) < |AllSlots(info)|
      ensures status == Success ==> cache != null && Number(info) == FirstFree(AllSlots(info))
      ensures AllSlots(info) == old(AllSlots(info))
    {
      hide Located, CursorOk, Remaining, CurrentSlot, Slots, Decoded, IsFree, FirstFree;
      DirectoryRewind(info);
      ghost var all := AllSlots(info);
      ghost var n := 0;
      assert all[n..] == all;
      while true
        invariant Valid(info) && fresh(info.Repr - old(info.Repr)) && old(info.Repr) <= info.Repr
        invariant info.table == old(info.table) && info.view == old(info.view)
        invariant n <= |all| && Remaining(info) == all[n..]
        invariant forall i :: 0 <= i < n ==> !IsFree(all[i])
        decreases |all| - n
      {
        var entry;
        status, entry := DirectoryReadInternal(info);
        if status != Success {
          FirstFreeUnique(all, n);
          return;
        }
        DecodedValid(CurrentSlot(info));
        assert all[n..][0] == all[n] && all[n..][1..] == all[n + 1..];
        n := n + 1;
        if !entry.isValid {
          FirstFreeUnique(all, n - 1);
          NumberIs(info, n - 1);
          return;
        }
      }
    }

    lemma NumberIs(info: Info, n: nat)
      requires Valid(info) && cache != null && n < |AllSlots(info)| && Remaining(info) == AllSlots(info)[n + 1..]
      ensures Number(info) == n
    {
      hide Info.Valid, ClusterSlots, After, Slots, SlotNumber;
      ChainKnown(info);
      CacheKnown(info);
      CursorSlot(info.view, chain, pos, bufferOffset / DIR_ENTRY);
      var k := SlotNumber(info.view, chain, pos, bufferOffset / DIR_ENTRY);
      assert |AllSlots(info)[k + 1..]| == |AllSlots(info)[n + 1..]|;
    }

    // The number of the slot under the cursor.
    ghost function Number(info: Info): nat
      reads this, info, info.Repr
      requires Valid(info) && cache != null
    {
      ChainKnown(info);
      SlotNumber(info.view, chain, pos, bufferOffset / DIR_ENTRY)
    }

    ghost predicate HasFreeSlot(info: Info)
      reads this, info, info.Repr
      requires Valid(info)
    {
      FirstFree(AllSlots(info)) < |AllSlots(info)|
    }

    // A full root directory is reported. A full subdirectory makes the search
    // for the end of its chain run forever, so it is excluded.
    method ExtendDirectoryIfNoFreeEntries(info: Info) returns (status: Status)
      requires Valid(info) && (rootCluster != 0 ==> HasFreeSlot(info))
      modifies this`cache, this`bufferOffset, this`pos, info.Repr
      ensures Valid(info) && fresh(info.Repr - old(info.Repr)) && old(info.Repr) <= info.Repr
      ensures info.table == old(info.table) && info.view == old(info.view)
      ensures status == if HasFreeSlot(info) then Success else EndOfFile
      ensures AllSlots(info) == old(AllSlots(info))
    {
      hide Located, CursorOk, AllSlots, FirstFree, Number;
      status := FindFree(info);
      if status != Success {
        return EndOfFile;
      }
    }

    method DirectoryAddEntry(info: Info, template: Slot) returns (status: Status)
      requires Valid(info) && (rootCluster != 0 ==> HasFreeSlot(info))
      modifies this`cache, this`bufferOffset, this`pos, info.Repr
      ensures Valid(info) && fresh(info.Repr - old(info.Repr)) && old(info.Repr) <= info.Repr
      ensures info.table == old(info.table)
      ensures status == if old(HasFreeSlot(info)) then Success else Undefined
      ensures AllSlots(info) == if status == Success then old(AllSlots(info))[FirstFree(old(AllSlots(info))) := template]
                                else old(AllSlots(info))
      ensures status == Success ==> cache != null && Number(info) == FirstFree(old(AllSlots(info))) && CurrentSlot(info) == template && cache.dirty
      ensures forall k :: k in old(info.view) && k !in chain ==> k in info.view && info.view[k] == old(info.view)[k]
    {
      hide Located, CursorOk, AllSlots, FirstFree, Number, CurrentSlot;
      ghost var slots := AllSlots(info);
      var extended := ExtendDirectoryIfNoFreeEntries(info);
      if extended != Success {
        return Undefined;
      }
      var found := FindFree(info);
      PutSlot(info, template);
      return Success;
    }

    // memcpy over the slot under the cursor.
    method PutSlot(info: Info, template: Slot)
      requires Valid(info) && cache != null
      modifies info.Repr
      ensures Valid(info) && info.Repr == old(info.Repr) && info.table == old(info.table)
      ensures old(Number(info)) < |old(AllSlots(info))|
      ensures AllSlots(info) == old(AllSlots(info))[old(Number(info)) := template]
      ensures Number(info) == old(Number(info)) && CurrentSlot(info) == template && cache.dirty
      ensures forall k :: k in old(info.view) && k !in chain ==> k in info.view && info.view[k] == old(info.view)[k]
    {
      hide Info.Coherent, WellFormed, IsChain, BPB.Bytes, ClusterSlots, Slots, SlotNumber, Patch;
      ChainKnown(info);
      CacheKnown(info);
      StoreSlot(info.view, chain, pos, bufferOffset / DIR_ENTRY, template);
      info.Copy(cache, bufferOffset, template);
      info.MarkDirty(cache);
    }

    method FileCreate(info: Info, name: seq<byte>) returns (status: Status)
      requires Valid(info) && (rootCluster != 0 ==> HasFreeSlot(info))
      modifies this`cache, this`bufferOffset, this`pos, info.Repr
      ensures Valid(info) && fresh(info.Repr - old(info.Repr)) && old(info.Repr) <= info.Repr
      ensures status == Success && info.table == old(info.table)
      ensures AllSlots(info) == if old(HasFreeSlot(info)) then old(AllSlots(info))[FirstFree(old(AllSlots(info))) := NewFileSlot(name)]
                                else old(AllSlots(info))
      ensures old(HasFreeSlot(info)) ==> cache != null && CurrentSlot(info) == NewFileSlot(name) && cache.dirty
      ensures forall k :: k in old(info.view) && k !in chain ==> k in info.view && info.view[k] == old(info.view)[k]
    {
      hide Located, CursorOk, AllSlots, FirstFree, Number, CurrentSlot, NewFileSlot, PackedName;
      var field := new byte[11];
      LFNToF83(name, field);
      assert field[..] == PackedName(name);
      NewSlotBytes(name);
      var newEntry: Slot := field[..] + NEW_FILE_FIELDS;
      var added := DirectoryAddEntry(info, newEntry);
      return Success;
    }

    // The file whose slot is under the cursor. Its chain is `s`.
    method FileOpen(info: Info, garbage: bool, ghost s: seq<nat>) returns (file: File)
      requires Valid(info) && cache != null
      requires ChainOk(info.table, info.limit, ClusterOf(CurrentSlot(info)), s) && Disjoint(s, chain)
      requires SizeOf(CurrentSlot(info)) <= |s| * info.bpb.ClusterSize()
      ensures fresh(file) && file.Valid(info) && file.totalOffset == 0 && file.chain == s
      ensures file.parentCluster == cache.cluster && file.parentOffset == bufferOffset
      ensures bufferOffset + 32 <= cache.buffer.Length
      ensures file.rootCluster == cache.buffer[bufferOffset + 26] as int + 0x100 * cache.buffer[bufferOffset + 27] as int
      ensures file.totalSize == SizeOf(CurrentSlot(info)) && SlotHolds(cache.buffer[..], bufferOffset, file.rootCluster, file.totalSize)
    {
      hide Info.Valid, BPB.Bytes, BPB.ClusterSize, SlotHolds;
      SlotFields(info);
      SlotNames(CurrentSlot(info));
      SlotBytes(cache.buffer[..], bufferOffset);
      SlotHeld(cache.buffer[..], bufferOffset);
      var entry := cache.buffer[bufferOffset..bufferOffset + DIR_ENTRY];
      file := new File(WordOf(entry, SLOT_CLUSTER), cache.cluster, bufferOffset, DwordOf(entry, SLOT_SIZE), garbage, s);
    }

    lemma SlotFields(info: Info)
      requires Valid(info) && cache != null
      ensures cache.buffer[bufferOffset..bufferOffset + DIR_ENTRY] == CurrentSlot(info)
      ensures var c := cache.cluster;
              && c in info.view && bufferOffset + DIR_ENTRY <= |info.view[c]| == info.bpb.Bytes(c)
              && WordOf(info.view[c], bufferOffset + SLOT_CLUSTER) == WordOf(CurrentSlot(info), SLOT_CLUSTER)
              && DwordOf(info.view[c], bufferOffset + SLOT_SIZE) == DwordOf(CurrentSlot(info), SLOT_SIZE)
              && (c == 0 || Live(info.table, info.limit, c)) && c in chain
              && info.bpb.ClusterSize() > 0
    {
      hide Info.Coherent, WellFormed, BPB.Bytes;
      CacheKnown(info);
      MovedKnown(info, pos);
      var slot := CurrentSlot(info);
      assert slot == cache.buffer[bufferOffset..bufferOffset + DIR_ENTRY];
      assert forall i :: 0 <= i < DIR_ENTRY ==> slot[i] == cache.buffer[bufferOffset + i];
    }
  }

  // The loop with which a full subdirectory is to be extended waits for the
  // end mark itself, but walking a chain never delivers it.
  lemma {:induction false} ExtensionSearchNeverEnds(t: seq<nat>, limit: nat, chain: seq<nat>, k: nat)
    requires WellFormed(t, limit) && IsChain(t, limit, chain)
    ensures Walk(t, chain[0], k) != CLUSTER_LAST
  {
    hide WellFormed, IsChain;
    WalkAlongChain(t, limit, chain, k);
    ClustersBelowLast(t, limit, chain);
  }

  lemma ClustersBelowLast(t: seq<nat>, limit: nat, chain: seq<nat>)
    requires WellFormed(t, limit) && IsChain(t, limit, chain)
    ensures forall i :: 0 <= i < |chain| ==> chain[i] < CLUSTER_LAST
  {
    hide LinksLive, NoJoins, AllTerminated;
  }

  // Write, open the same slot again, read to the end: the new file object
  // reads exactly what the content has become.
  method WriteAndReopen(info: Info, dir: Directory, file: File, bytes: seq<byte>, garbage: bool)
    returns (writeCount: nat, out: seq<byte>)
    requires file.Valid(info) && file.totalOffset <= file.totalSize && file.HasRoom(info, |bytes|)
    requires dir.Valid(info) && dir.cache != null && Disjoint(dir.chain, file.chain)
    requires file.parentCluster == dir.cache.cluster && file.parentOffset == dir.bufferOffset
    modifies file, info.Repr
    ensures info.Valid() && writeCount <= |bytes|
    ensures out == Overwrite(old(file.Data(info)), old(file.totalOffset), bytes[..writeCount])
  {
    hide *;
    ghost var before := StateOf(info, file);
    ghost var cs, index := info.bpb.ClusterSize(), info.index;
    DirectoryHolds(info, dir);
    var ok;
    ok, writeCount := file.FileWrite(info, bytes);
    ghost var after := StateOf(info, file);
    WroteParts(before, after, bytes[..writeCount], info.limit, cs, file.parentCluster, file.parentOffset);
    DirectoryKept(info, dir, file, before.table, before.view, before.chain, index);
    SlotOfFile(info, dir, file);
    var reopened := dir.FileOpen(info, garbage, file.chain);
    SameData(info, file, reopened);
    out := reopened.ReadToEnd(info);
    var _ := StateOf(info, reopened);
  }

  // A new file is empty and has no cluster yet.
  method CreateAndOpen(info: Info, dir: Directory, name: seq<byte>, garbage: bool) returns (file: File)
    requires dir.Valid(info) && dir.HasFreeSlot(info)
    modifies dir`cache, dir`bufferOffset, dir`pos, info.Repr
    ensures file.Valid(info) && file.rootCluster == 0 && file.totalSize == 0 && file.totalOffset == 0
    ensures file.chain == [] && file.Data(info) == []
  {
    hide Directory.Valid, Directory.HasFreeSlot, Info.Valid, Directory.CurrentSlot, Directory.AllSlots, NewFileSlot;
    var created := dir.FileCreate(info, name);
    NewFileBytes(name);
    file := dir.FileOpen(info, garbage, []);
  }

  lemma EmptyDirectory(info: Info, dir: Directory)
    requires dir.Valid(info)
    requires Zeroed(info.view, dir.chain)
    ensures dir.Located(info) && dir.AllSlots(info) != [] && dir.HasFreeSlot(info)
    ensures forall i :: 0 <= i < |dir.AllSlots(info)| ==> dir.AllSlots(info)[i][0] == 0
    ensures Listing(dir.AllSlots(info)) == [] && FirstFree(dir.AllSlots(info)) == 0
    ensures DecodedAll(Listing(dir.AllSlots(info))) == []
  {
    hide Info.Valid, IsChain, BPB.Bytes, ClusterSlots, Slots, Listing, FirstFree;
    dir.ChainKnown(info);
    ZeroClusters(info.view, dir.chain);
    ZeroSlots(dir.AllSlots(info));
    AfterNothing(info.view, dir.chain);
  }

  lemma FirstSlotTaken(slots: seq<Slot>, name: seq<byte>)
    requires slots != [] && forall i :: 0 <= i < |slots| ==> slots[i][0] == 0
    ensures
      var slot := NewFileSlot(name);
      DecodedAll(Listing(slots[0 := slot])) == if IsFree(slot) then [] else [Decoded(slot)]
    ensures Decoded(NewFileSlot(name)).isValid <==> !IsFree(NewFileSlot(name))
  {
    hide NewFileSlot, IsFree, Decoded, Listing;
    var slot := NewFileSlot(name);
    DecodedValid(slot);
    ZeroSlots(slots[1..]);
    ListingStep(slots[0 := slot]);
    assert slots[0 := slot][1..] == slots[1..];
  }

  // A directory of zero bytes lists nothing; the first file created in it is
  // all that it lists then, unless its name makes the slot count as free.
  method CreateInEmpty(info: Info, dir: Directory, name: seq<byte>) 
    returns (before: seq<DirEntry>, after: seq<DirEntry>, ghost slots: seq<Slot>)
    requires dir.Valid(info) && Plain(name)
    requires Zeroed(info.view, dir.chain)
    modifies dir`cache, dir`bufferOffset, dir`pos, info.Repr
    ensures dir.Valid(info) && slots == dir.AllSlots(info)
    ensures slots != [] && slots[0] == NewFileSlot(name) && forall i :: 0 < i < |slots| ==> slots[i][0] == 0
    ensures before == []
    ensures if DotPos(name) == 0 || name[0] == 0xE5 then after == []
            else |after| == 1 && after[0].isValid && !after[0].isDirectory && after[0].size == 0
                 && (CString(after[0].name) == Lower(name) <==> FitsF83(name))
  {
    hide *;
    EmptyDirectory(info, dir);
    before := dir.ListAll(info);
    EmptyDirectory(info, dir);
    slots := dir.AllSlots(info);
    var created := dir.FileCreate(info, name);
    FirstSlotTaken(slots, name);
    dir.ValidLocated(info);
    slots := dir.AllSlots(info);
    after := dir.ListAll(info);
    CreatedEntry(name);
  }

  lemma StateOf(info: Info, file: File) returns (state: FileState)
    requires file.Valid(info)
    ensures file.Located(info) && state == file.State(info)
    ensures state == FileState(info.table, info.view, file.chain, file.Data(info), file.totalOffset)
  {
    state := file.State(info);
  }

  lemma WroteParts(b: FileState, a: FileState, bytes: seq<byte>, limit: nat, cs: nat, parent: nat, entry: nat)
    requires Wrote(b, a, bytes, limit, cs, parent, entry)
    ensures b.offset <= |b.data| && a.data == Overwrite(b.data, b.offset, bytes)
    ensures Kept(b.table, b.view, a.table, a.view, limit, b.chain, a.chain, parent)
  {
  }

  // What makes a directory valid, spelled out for a table `t` and a cache index.
  ghost predicate Holds(dir: Directory, t: seq<nat>, limit: nat, index: map<nat, Cache>)
    reads dir
  {
    && (if dir.rootCluster == 0 then dir.chain == [0] else IsChain(t, limit, dir.chain) && dir.chain[0] == dir.rootCluster)
    && (if dir.cache == null then dir.bufferOffset == 0 else
          && dir.pos < |dir.chain| && dir.cache.cluster == dir.chain[dir.pos]
          && dir.cache.cluster in index && index[dir.cache.cluster] == dir.cache
          && dir.bufferOffset % DIR_ENTRY == 0 && dir.bufferOffset + DIR_ENTRY <= dir.cache.buffer.Length)
  }

  lemma ValidHolds(info: Info, dir: Directory)
    requires info.Valid() && dir !in info.Repr
    ensures dir.Valid(info) <==> Holds(dir, info.table, info.limit, info.index)
  {
    hide WellFormed, Entries, BPB.Fits, BPB.Bytes, IsChain;
    if dir.cache != null && dir.cache.cluster in info.index && info.index[dir.cache.cluster] == dir.cache {
      info.KeptCache(dir.cache);
    }
  }

  // A write to a file leaves a directory that shares no cluster with it intact.
  lemma DirectoryKept(info: Info, dir: Directory, file: File, t: seq<nat>, v: View, s: seq<nat>, index: map<nat, Cache>)
    requires file.Valid(info) && dir !in info.Repr
    requires Holds(dir, t, info.limit, index) && info.Keeps(index) && Disjoint(dir.chain, s)
    requires Kept(t, v, info.table, info.view, info.limit, s, file.chain, file.parentCluster)
    ensures dir.Valid(info) && Disjoint(file.chain, dir.chain)
  {
    hide Info.Valid, IsChain, BPB.Bytes, BPB.ClusterSize, Live;
    if dir.rootCluster == 0 {
      if file.chain != [] {
        NotZero(info.table, info.limit, file.chain);
      }
    } else {
      assert IsChain(info.table, info.limit, dir.chain) && Disjoint(dir.chain, file.chain);
    }
    ValidHolds(info, dir);
  }

  lemma DirectoryHolds(info: Info, dir: Directory)
    requires dir.Valid(info)
    ensures dir !in info.Repr && Holds(dir, info.table, info.limit, info.index)
  {
    hide Info.Valid;
    ValidHolds(info, dir);
  }

  lemma SlotOfFile(info: Info, dir: Directory, file: File)
    requires dir.Valid(info) && dir.cache != null && file.Valid(info)
    requires file.parentCluster == dir.cache.cluster && file.parentOffset == dir.bufferOffset
    ensures ClusterOf(dir.CurrentSlot(info)) == file.rootCluster
    ensures SizeOf(dir.CurrentSlot(info)) == file.totalSize <= |file.chain| * info.bpb.ClusterSize()
    ensures ChainOk(info.table, info.limit, file.rootCluster, file.chain)
  {
    hide Info.Valid, IsChain, BPB.Bytes, BPB.ClusterSize, Live, WordOf, DwordOf, ClusterOf, SizeOf, Directory.CurrentSlot;
    dir.SlotFields(info);
    SlotNames(dir.CurrentSlot(info));
  }

  lemma SameData(info: Info, file: File, other: File)
    requires file.Valid(info) && other.Valid(info) && file.chain == other.chain && file.totalSize == other.totalSize
    ensures file.Located(info) && other.Located(info) && file.Data(info) == other.Data(info)
    ensures file.Data(info)[0..] == file.Data(info)
  {
  }

  // The fields behind the name of a new file: attributes 0, the bytes 0x4D
  // and 0x54, midnight times, the packed date (22 | 1 << 7 | 1 << 11), no
  // cluster and size 0.
  const NEW_FILE_FIELDS: seq<byte> := [
    0, 0x4D, 0x54, 0, 0, 0x96, 0x08, 0x96, 0x08, 0, 0, 0, 0, 0x96, 0x08, 0, 0, 0, 0, 0, 0]

  function NewFileSlot(name: seq<byte>): Slot {
    PackedName(name) + NEW_FILE_FIELDS
  }

  lemma {:induction false} NewSlotBytes(name: seq<byte>)
    ensures NewFileSlot(name) == PackedName(name) + NEW_FILE_FIELDS
  {
  }

  // Byte by byte, the fields of a new file: no attributes, no times, three dates
  // of the first day and month of year 22, no cluster and size 0.
  lemma NewFileBytes(name: seq<byte>)
    ensures
      var slot := NewFileSlot(name);
      && slot[..11] == PackedName(name) && slot[11] == 0 && slot[12] == 0x4D && slot[13] == 0x54
      && slot[14] == slot[15] == slot[20] == slot[21] == slot[22] == slot[23] == 0
      && (forall i :: i == 16 || i == 18 || i == 24 ==> slot[i] as int + 0x100 * slot[i + 1] as int == 22 + 128 * 1 + 2048 * 1)
      && ClusterOf(slot) == 0 && SizeOf(slot) == 0
      && slot[26] == slot[27] == slot[28] == slot[29] == slot[30] == slot[31] == 0
  {
    hide PackedName;
  }

  // What the listing gains by FileCreate: an entry for an empty file, shown
  // under the lower-cased name if that fits an 8.3 field, unless the packed
  // name makes the slot count as free.
  lemma {:induction false} CreatedEntry(name: seq<byte>)
    requires Plain(name)
    ensures IsFree(NewFileSlot(name)) <==> DotPos(name) == 0 || name[0] == 0xE5
    ensures var entry := Decoded(NewFileSlot(name));
            && !entry.isDirectory && entry.size == 0
            && (CString(entry.name) == Lower(name) <==> FitsF83(name))
  {
    var slot := NewFileSlot(name);
    assert slot[0] == Packed(name, 0);
    assert slot[..11] == PackedName(name);
    assert slot[11] == NEW_FILE_FIELDS[0] && slot[28] == slot[29] == slot[30] == slot[31] == 0;
    hide Printed, CString, PackedName, DotPos;
    NameRoundTrip(name);
  }

  lemma {:induction false} ListingStep(slots: seq<Slot>)
    requires slots != []
    ensures Listing(slots) == if IsFree(slots[0]) then Listing(slots[1..]) else [slots[0]] + Listing(slots[1..])
  {
  }

  ghost function DecodedAll(slots: seq<Slot>): (r: seq<DirEntry>)
    ensures |r| == |slots|
  {
    seq(|slots|, i requires 0 <= i < |slots| => Decoded(slots[i]))
  }

  lemma {:induction false} DecodedCons(slot: Slot, slots: seq<Slot>)
    ensures DecodedAll([slot] + slots) == [Decoded(slot)] + DecodedAll(slots)
  {
    hide Decoded;
  }

  lemma {:induction false} ListingOfNone()
    ensures Listing([]) == []
  {
  }

  lemma {:induction false} DecodedNone()
    ensures DecodedAll([]) == []
  {
  }

  lemma {:induction false} DecodedValid(slot: Slot)
    ensures Decoded(slot).isValid <==> !IsFree(slot)
  {
  }

  // FreeCache, unless nothing is cached, and GetCache of another cluster.
  method Exchange(info: Info, before: Cache?, cluster: nat) returns (cache: Cache)
    requires info.Valid() && InDomain(info.limit, cluster) && (before != null ==> info.HasCache(before))
    modifies info.Repr
    ensures info.Valid() && fresh(info.Repr - old(info.Repr)) && old(info.Repr) <= info.Repr
    ensures info.table == old(info.table) && info.view == old(info.view)
    ensures info.HasCache(cache) && cache.cluster == cluster && cache.buffer.Length == info.bpb.Bytes(cluster)
  {
    hide Info.Valid, BPB.Bytes;
    if before != null {
      info.FreeCache(before);
    }
    cache := info.GetCache(cluster);
  }

  lemma ClusterHasSlots(info: Info, c: nat)
    requires info.Valid() && InDomain(info.limit, c)
    ensures c in info.view && HasSlots(info.view[c])
  {
    hide BPB.Fits, BPB.Bytes;
    info.ViewSizes(c);
    BytesPositive(info.bpb, |info.sectors|, info.fat.Length, info.limit, c);
  }
}
