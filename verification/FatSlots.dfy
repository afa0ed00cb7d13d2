// The 32-byte slots of a directory as one sequence.
module FatSlots {
  import opened Bytes
  import opened FatTable
  import opened FatChains
  import opened FatContent
  import opened FatName
  import opened Sequences

  type Slot = s: seq<byte> | |s| == DIR_ENTRY witness seq(DIR_ENTRY, _ => 0)

  const ATTRIBUTE_DIRECTORY := 16

  datatype DirEntry = DirEntry(isValid: bool, isDirectory: bool, size: nat, name: seq<byte>)

  // IsFreeOrRemoved: the first name byte is NUL, a space or 0xE5.
  predicate IsFree(slot: Slot) {
    slot[0] == 0 || slot[0] == SPACE || slot[0] == 0xE5
  }

  // What DirectoryReadInternal reports for a slot; the name is the buffer up
  // to the terminator it appends.
  function Decoded(slot: Slot): DirEntry {
    DirEntry(!IsFree(slot), slot[11] / ATTRIBUTE_DIRECTORY % 2 == 1, DwordOf(slot, SLOT_SIZE), Printed(slot[..11]))
  }

  // The first cluster and the size of the file that a slot names.
  function ClusterOf(slot: Slot): nat {
    slot[26] as int + 0x100 * slot[27] as int
  }

  function SizeOf(slot: Slot): nat {
    slot[28] as int + 0x100 * slot[29] as int + 0x1_0000 * slot[30] as int + 0x100_0000 * slot[31] as int
  }

  lemma SlotNames(slot: Slot)
    ensures WordOf(slot, SLOT_CLUSTER) == ClusterOf(slot) && DwordOf(slot, SLOT_SIZE) == SizeOf(slot)
  {
    SlotBytes(slot, 0);
  }

  lemma DecodedBytes(slot: Slot)
    ensures Decoded(slot).isValid <==> slot[0] != 0 && slot[0] != 32 && slot[0] != 0xE5
    ensures Decoded(slot).isDirectory <==> slot[11] % 32 >= 16
    ensures Decoded(slot).size == SizeOf(slot)
  {
  }

  // --- The slots of one cluster ---

  function SlotAt(bytes: seq<byte>, i: nat): Slot
    requires (i + 1) * DIR_ENTRY <= |bytes|
  {
    bytes[i * DIR_ENTRY..(i + 1) * DIR_ENTRY]
  }

  function ClusterSlots(bytes: seq<byte>): (r: seq<Slot>)
    ensures |r| == |bytes| / DIR_ENTRY
  {
    seq(|bytes| / DIR_ENTRY, i requires 0 <= i < |bytes| / DIR_ENTRY => SlotAt(bytes, i))
  }

  lemma SlotInCluster(bytes: seq<byte>, i: nat)
    requires 32 * i + 32 <= |bytes|
    ensures i < |ClusterSlots(bytes)| == |bytes| / 32 && ClusterSlots(bytes)[i] == bytes[32 * i..32 * i + 32]
  {
  }

  lemma {:induction false} PatchSlot(bytes: seq<byte>, i: nat, slot: Slot)
    requires (i + 1) * DIR_ENTRY <= |bytes|
    ensures i < |bytes| / DIR_ENTRY
    ensures ClusterSlots(Patch(bytes, i * DIR_ENTRY, slot)) == ClusterSlots(bytes)[i := slot]
  {
    var bytes' := Patch(bytes, i * DIR_ENTRY, slot);
    forall k | 0 <= k < |bytes| / DIR_ENTRY
      ensures SlotAt(bytes', k) == if k == i then slot else SlotAt(bytes, k)
    {
    }
  }

  // --- The slots of a chain ---

  ghost predicate Known(view: View, chain: seq<nat>) {
    forall i :: 0 <= i < |chain| ==> chain[i] in view
  }

  ghost function Slots(view: View, chain: seq<nat>): seq<Slot>
    requires Known(view, chain)
  {
    if chain == [] then [] else ClusterSlots(view[chain[0]]) + Slots(view, chain[1..])
  }

  lemma {:induction false} SlotsSplit(view: View, chain: seq<nat>, k: nat)
    requires Known(view, chain) && k <= |chain|
    ensures Known(view, chain[..k]) && Known(view, chain[k..])
    ensures Slots(view, chain) == Slots(view, chain[..k]) + Slots(view, chain[k..])
  {
    hide Slots, ClusterSlots;
    SlotsCons(view, chain);
    if k == 0 {
      assert chain[0..] == chain && chain[..0] == [];
      SlotsCons(view, []);
    } else {
      SlotsSplit(view, chain[1..], k - 1);
      SlotsCons(view, chain[..k]);
      assert chain[..k][1..] == chain[1..][..k - 1] && chain[..k][0] == chain[0];
      assert chain[1..][k - 1..] == chain[k..];
    }
  }

  lemma SlotsCons(view: View, chain: seq<nat>)
    requires Known(view, chain)
    ensures chain == [] ==> Slots(view, chain) == []
    ensures chain != [] ==> Known(view, chain[1..]) && Slots(view, chain) == ClusterSlots(view[chain[0]]) + Slots(view, chain[1..])
  {
  }

  lemma {:induction false} SlotsAround(view: View, chain: seq<nat>, k: nat)
    requires Known(view, chain) && k < |chain|
    ensures Known(view, chain[..k]) && Known(view, chain[k + 1..])
    ensures Slots(view, chain) == Slots(view, chain[..k]) + ClusterSlots(view[chain[k]]) + Slots(view, chain[k + 1..])
  {
    SlotsSplit(view, chain, k);
    assert chain[k..][0] == chain[k] && chain[k..][1..] == chain[k + 1..];
  }

  lemma {:induction false} SlotsFrame(view: View, view': View, chain: seq<nat>)
    requires Known(view, chain)
    requires forall c :: c in chain ==> c in view' && view'[c] == view[c]
    ensures Known(view', chain) && Slots(view', chain) == Slots(view, chain)
  {
    if chain != [] {
      SlotsFrame(view, view', chain[1..]);
    }
  }

  // The slots that a cursor standing on slot i of cluster k has not passed.
  ghost function After(view: View, chain: seq<nat>, k: nat, i: nat): seq<Slot>
    requires Known(view, chain) && k < |chain| && i < |ClusterSlots(view[chain[k]])|
  {
    ClusterSlots(view[chain[k]])[i + 1..] + Slots(view, chain[k + 1..])
  }

  predicate HasSlots(bytes: seq<byte>) {
    |bytes| >= DIR_ENTRY && |bytes| % DIR_ENTRY == 0
  }

  // The four ways an enumeration goes on.
  lemma {:induction false} AfterNothing(view: View, chain: seq<nat>)
    requires Known(view, chain) && chain != [] && HasSlots(view[chain[0]])
    ensures Slots(view, chain) == [ClusterSlots(view[chain[0]])[0]] + After(view, chain, 0, 0)
  {
  }

  lemma {:induction false} AfterSlot(view: View, chain: seq<nat>, k: nat, i: nat)
    requires Known(view, chain) && k < |chain| && i + 1 < |ClusterSlots(view[chain[k]])|
    ensures After(view, chain, k, i) == [ClusterSlots(view[chain[k]])[i + 1]] + After(view, chain, k, i + 1)
  {
  }

  lemma {:induction false} AfterCluster(view: View, chain: seq<nat>, k: nat, i: nat)
    requires Known(view, chain) && k + 1 < |chain| && i + 1 == |ClusterSlots(view[chain[k]])|
    requires HasSlots(view[chain[k + 1]])
    ensures After(view, chain, k, i) == [ClusterSlots(view[chain[k + 1]])[0]] + After(view, chain, k + 1, 0)
  {
    assert chain[k + 1..][0] == chain[k + 1] && chain[k + 1..][1..] == chain[k + 2..];
  }

  lemma {:induction false} AfterAll(view: View, chain: seq<nat>, k: nat, i: nat)
    requires Known(view, chain) && k + 1 == |chain| && i + 1 == |ClusterSlots(view[chain[k]])|
    ensures After(view, chain, k, i) == []
  {
  }

  // The number of the slot on which that cursor stands.
  ghost function SlotNumber(view: View, chain: seq<nat>, k: nat, i: nat): nat
    requires Known(view, chain) && k < |chain|
  {
    |Slots(view, chain[..k])| + i
  }

  lemma {:induction false} CursorSlot(view: View, chain: seq<nat>, k: nat, i: nat)
    requires Known(view, chain) && k < |chain| && i < |ClusterSlots(view[chain[k]])|
    ensures var n := SlotNumber(view, chain, k, i);
            && n < |Slots(view, chain)|
            && Slots(view, chain)[n] == ClusterSlots(view[chain[k]])[i]
            && Slots(view, chain)[n + 1..] == After(view, chain, k, i)
  {
    SlotsSplit(view, chain, k);
    assert chain[k..][0] == chain[k] && chain[k..][1..] == chain[k + 1..];
    var s, b := ClusterSlots(view[chain[k]]), Slots(view, chain[k + 1..]);
    assert Slots(view, chain[k..]) == s + b;
    var a := Slots(view, chain[..k]);
    assert Slots(view, chain) == a + (s + b);
    assert (a + (s + b))[|a| + i + 1..] == s[i + 1..] + b;
  }

  // Storing a slot changes exactly that slot of the directory.
  lemma {:induction false} StoreSlot(view: View, chain: seq<nat>, k: nat, i: nat, slot: Slot)
    requires Known(view, chain) && NoDuplicates(chain) && k < |chain| && (i + 1) * DIR_ENTRY <= |view[chain[k]]|
    ensures var view' := view[chain[k] := Patch(view[chain[k]], i * DIR_ENTRY, slot)];
            && Known(view', chain) && SlotNumber(view, chain, k, i) < |Slots(view, chain)|
            && Slots(view', chain) == Slots(view, chain)[SlotNumber(view, chain, k, i) := slot]
            && SlotNumber(view', chain, k, i) == SlotNumber(view, chain, k, i)
            && ClusterSlots(view'[chain[k]]) == ClusterSlots(view[chain[k]])[i := slot]
  {
    var view' := view[chain[k] := Patch(view[chain[k]], i * DIR_ENTRY, slot)];
    PatchSlot(view[chain[k]], i, slot);
    hide Slots, ClusterSlots, Patch, NoDuplicates;
    Unique(chain, k);
    SlotsAround(view, chain, k);
    SlotsAround(view', chain, k);
    SlotsFrame(view, view', chain[..k]);
    SlotsFrame(view, view', chain[k + 1..]);
    UpdateMiddle(Slots(view, chain[..k]), ClusterSlots(view[chain[k]]), Slots(view, chain[k + 1..]), i, slot);
  }

  lemma UpdateMiddle(a: seq<Slot>, s: seq<Slot>, b: seq<Slot>, i: nat, slot: Slot)
    requires i < |s|
    ensures (a + s + b)[|a| + i := slot] == a + s[i := slot] + b
  {
  }

  // --- Listings ---

  // The valid slots in order: the listing of a directory.
  function Listing(slots: seq<Slot>): seq<Slot> {
    if slots == [] then []
    else if IsFree(slots[0]) then Listing(slots[1..])
    else [slots[0]] + Listing(slots[1..])
  }

  lemma {:induction false} ListingConcat(a: seq<Slot>, b: seq<Slot>)
    ensures Listing(a + b) == Listing(a) + Listing(b)
  {
    hide Listing;
    if a == [] {
      ListingCons([], a);
      assert a + b == b;
    } else {
      ListingConcat(a[1..], b);
      assert (a + b)[1..] == a[1..] + b;
      ListingCons(a[1..], a);
      ListingCons((a + b)[1..], a + b);
    }
  }

  lemma ListingCons(rest: seq<Slot>, slots: seq<Slot>)
    requires rest == if slots == [] then [] else slots[1..]
    ensures Listing(slots) == if slots == [] || IsFree(slots[0]) then Listing(rest) else [slots[0]] + Listing(rest)
    ensures Listing([]) == []
  {
  }

  // A slot is listed unless its first byte is 0, a space or 0xE5.
  lemma ListingIs(slot: Slot, rest: seq<Slot>)
    ensures Listing([]) == []
    ensures Listing([slot] + rest) == (if slot[0] == 0 || slot[0] == 32 || slot[0] == 0xE5 then [] else [slot]) + Listing(rest)
  {
    assert ([slot] + rest)[1..] == rest;
  }

  lemma {:induction false} ZeroSlots(slots: seq<Slot>)
    requires forall i :: 0 <= i < |slots| ==> slots[i][0] == 0
    ensures Listing(slots) == [] && FirstFree(slots) == 0
  {
    if slots != [] {
      ZeroSlots(slots[1..]);
    }
  }

  ghost predicate Zeroed(view: View, chain: seq<nat>) {
    forall c, i :: c in chain && c in view && 0 <= i < |view[c]| ==> view[c][i] == 0
  }

  // Clusters of zero bytes hold slots whose first byte is zero.
  lemma {:induction false} ZeroClusters(view: View, chain: seq<nat>)
    requires Known(view, chain)
    requires Zeroed(view, chain)
    ensures forall i :: 0 <= i < |Slots(view, chain)| ==> Slots(view, chain)[i][0] == 0
  {
    if chain != [] {
      ZeroClusters(view, chain[1..]);
      var first := ClusterSlots(view[chain[0]]);
      forall i | 0 <= i < |first|
        ensures first[i][0] == 0
      {
        SlotInCluster(view[chain[0]], i);
        assert view[chain[0]][32 * i] == 0;
      }
    }
  }

  // The first free slot; |slots| if all are taken.
  function FirstFree(slots: seq<Slot>): (n: nat)
    ensures n <= |slots|
    ensures n < |slots| ==> IsFree(slots[n])
    ensures forall i :: 0 <= i < n ==> !IsFree(slots[i])
  {
    if slots == [] || IsFree(slots[0]) then 0 else FirstFree(slots[1..]) + 1
  }

  lemma FirstFreeBytes(slots: seq<Slot>)
    ensures var n := FirstFree(slots);
            && (n < |slots| ==> slots[n][0] == 0 || slots[n][0] == 32 || slots[n][0] == 0xE5)
            && forall i :: 0 <= i < n ==> slots[i][0] != 0 && slots[i][0] != 32 && slots[i][0] != 0xE5
  {
  }

  lemma {:induction false} FirstFreeUnique(slots: seq<Slot>, n: nat)
    requires n <= |slots| && (n < |slots| ==> IsFree(slots[n]))
    requires forall i :: 0 <= i < n ==> !IsFree(slots[i])
    ensures FirstFree(slots) == n
  {
    hide IsFree;
    if n > 0 {
      FirstFreeUnique(slots[1..], n - 1);
    }
  }

  // Taking the first free slot adds one entry behind the leading ones, moves
  // none and, for a slot that itself counts as free, adds none.
  lemma {:induction false} ListingAfterStore(slots: seq<Slot>, slot: Slot)
    requires FirstFree(slots) < |slots|
    ensures var n := FirstFree(slots);
            && Listing(slots) == slots[..n] + Listing(slots[n + 1..])
            && Listing(slots[n := slot]) == slots[..n] + (if IsFree(slot) then [] else [slot]) + Listing(slots[n + 1..])
  {
    var n := FirstFree(slots);
    ListingWithout(slots, n);
    ListingWithout(slots[n := slot], n);
    assert slots[n := slot][..n] == slots[..n] && slots[n := slot][n + 1..] == slots[n + 1..];
  }

  lemma {:induction false} ListingWithout(slots: seq<Slot>, n: nat)
    requires n < |slots| && forall i :: 0 <= i < n ==> !IsFree(slots[i])
    ensures Listing(slots) == slots[..n] + (if IsFree(slots[n]) then [] else [slots[n]]) + Listing(slots[n + 1..])
  {
    hide IsFree;
    var rest := [slots[n]] + slots[n + 1..];
    assert slots == slots[..n] + rest;
    ListingOfTaken(slots[..n]);
    ListingConcat(slots[..n], rest);
    assert rest[1..] == slots[n + 1..];
  }

  lemma {:induction false} ListingOfTaken(slots: seq<Slot>)
    requires forall i :: 0 <= i < |slots| ==> !IsFree(slots[i])
    ensures Listing(slots) == slots
  {
    if slots != [] {
      ListingOfTaken(slots[1..]);
    }
  }
}
