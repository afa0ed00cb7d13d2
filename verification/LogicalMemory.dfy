// Two-level page tables and the logical page allocator
// (kernel/Core/Memory_Logical.cpp).
//
// A page is numbered by its address divided by 4096, so its directory slot is
// page / 1024 and its table index page % 1024. `memory` holds the contents of
// the frames that serve as tables; the frame `cr3` is the directory, which is
// also the table of its own slot 1023.
module LogicalMemory {
  import Arithmetic
  import opened Runs
  import opened PhysicalMemory

  const SLOTS: nat := 1024
  const SELF: nat := 1023
  const KERNEL: nat := 512 * 1024
  const WINDOW: nat := 1023 * 1024
  const PAGES: nat := 1024 * 1024

  datatype Entry = Entry(present: bool, address: nat)

  const ABSENT: Entry := Entry(false, 0)

  type Tables = map<nat, seq<Entry>>

  // --- The tables as one flat map ---

  predicate FramesOk(m: Tables) {
    forall f :: f in m ==> |m[f]| == SLOTS
  }

  predicate SlotOk(m: Tables, cr3: nat, a: nat)
    requires cr3 in m && FramesOk(m) && a < SLOTS
  {
    && (m[cr3][a].present <==> m[cr3][a].address != 0)
    && (m[cr3][a].present ==> m[cr3][a].address in m)
  }

  // No two slots share a table, and the last slot is the directory itself.
  ghost predicate TablesOk(m: Tables, cr3: nat) {
    && cr3 in m && FramesOk(m)
    && (forall a: nat :: a < SLOTS ==> SlotOk(m, cr3, a))
    && m[cr3][SELF] == Entry(true, cr3)
    && (forall a: nat, b: nat :: a < b < SLOTS && m[cr3][a].present ==> m[cr3][a].address != m[cr3][b].address)
  }

  ghost function Leaf(m: Tables, cr3: nat, page: nat): Entry
    requires TablesOk(m, cr3) && page < PAGES
  {
    var slot := m[cr3][page / 1024];
    assert SlotOk(m, cr3, page / 1024);
    if slot.present then m[slot.address][page % 1024] else ABSENT
  }

  // What the processor's two-level walk computes below the window.
  ghost function Translation(m: Tables, cr3: nat): map<nat, nat>
    requires TablesOk(m, cr3)
  {
    map page: nat | page < WINDOW && Leaf(m, cr3, page).present :: Leaf(m, cr3, page).address
  }

  function WithLeaf(m: Tables, table: nat, index: nat, entry: Entry): Tables
    requires table in m && FramesOk(m) && index < SLOTS
  {
    m[table := m[table][index := entry]]
  }

  function WithTable(m: Tables, cr3: nat, slot: nat, frame: nat): Tables
    requires cr3 in m && FramesOk(m) && slot < SLOTS
  {
    m[cr3 := m[cr3][slot := Entry(true, frame)]][frame := seq(SLOTS, i => ABSENT)]
  }

  // Writing one table entry changes that page and no other.
  lemma {:induction false} LeafAfterWrite(m: Tables, cr3: nat, page: nat, entry: Entry, other: nat)
    requires TablesOk(m, cr3) && page < WINDOW && other < WINDOW
    requires m[cr3][page / 1024].present
    ensures SlotOk(m, cr3, page / 1024)
    ensures
      var n := WithLeaf(m, m[cr3][page / 1024].address, page % 1024, entry);
      TablesOk(n, cr3) && n[cr3] == m[cr3] &&
      Leaf(n, cr3, other) == if other == page then entry else Leaf(m, cr3, other)
  {
    assert SlotOk(m, cr3, page / 1024) && SlotOk(m, cr3, other / 1024);
    var table := m[cr3][page / 1024].address;
    var n := WithLeaf(m, table, page % 1024, entry);
    assert table != cr3;
    assert n[cr3] == m[cr3];
    forall a: nat | a < SLOTS
      ensures SlotOk(n, cr3, a)
    {
      assert SlotOk(m, cr3, a);
    }
  }

  // A new table maps nothing, and disturbs no other.
  lemma {:induction false} LeafAfterTable(m: Tables, cr3: nat, slot: nat, frame: nat, other: nat)
    requires TablesOk(m, cr3) && slot < SELF && other < WINDOW
    requires !m[cr3][slot].present && frame !in m && frame != 0
    ensures
      var n := WithTable(m, cr3, slot, frame);
      TablesOk(n, cr3) && Leaf(n, cr3, other) == Leaf(m, cr3, other)
  {
    assert SlotOk(m, cr3, other / 1024);
    var n := WithTable(m, cr3, slot, frame);
    assert n[cr3] == m[cr3][slot := Entry(true, frame)];
    forall a: nat | a < SLOTS
      ensures SlotOk(n, cr3, a)
      ensures m[cr3][a].present ==> m[cr3][a].address != frame
    {
      assert SlotOk(m, cr3, a);
    }
  }

  // --- Joining a start slot and a start index into an address ---

  // The operator | on unsigned numbers.
  function Or(x: nat, y: nat): nat {
    if x == 0 then y
    else if y == 0 then x
    else 2 * Or(x / 2, y / 2) + (if x % 2 == 1 || y % 2 == 1 then 1 else 0)
  }

  lemma {:induction false} OrDouble(x: nat, y: nat)
    ensures Or(2 * x, 2 * y) == 2 * Or(x, y)
  {
  }

  lemma {:induction false} OrOnce(x: nat, b: nat)
    ensures Or(2 * x, b) == 2 * Or(x, b / 2) + b % 2
  {
  }

  // x shifted left by k bits.
  function Shifted(x: nat, k: nat): nat {
    if k == 0 then x else 2 * Shifted(x, k - 1)
  }

  lemma {:induction false} OrApart(a: nat, b: nat, k: nat)
    requires b < Shifted(1, k)
    ensures Or(Shifted(a, k), b) == Shifted(a, k) + b
  {
    if k > 0 {
      OrApart(a, b / 2, k - 1);
      OrOnce(Shifted(a, k - 1), b);
    }
  }

  lemma {:induction false} OrShifted(x: nat, y: nat, k: nat)
    ensures Or(Shifted(x, k), Shifted(y, k)) == Shifted(Or(x, y), k)
  {
    if k > 0 {
      OrShifted(x, y, k - 1);
      OrDouble(Shifted(x, k - 1), Shifted(y, k - 1));
    }
  }

  function AbToAddr(a: nat, b: nat): nat {
    Or(Shifted(a, 22), Shifted(b, 12))
  }

  lemma ShiftedBits(x: nat)
    ensures Shifted(x, 10) == 1024 * x && Shifted(x, 12) == 0x1000 * x
    ensures Shifted(Shifted(x, 10), 12) == Shifted(x, 22)
  {
    assert Shifted(x, 1) == 2 * x;
    assert Shifted(x, 2) == 4 * x;
    assert Shifted(x, 4) == 16 * x;
    assert Shifted(x, 6) == 64 * x;
    assert Shifted(x, 8) == 256 * x;
    assert Shifted(x, 10) == 1024 * x;
    ShiftedTwice(x, 10, 12);
  }

  lemma {:induction false} ShiftedTwice(x: nat, j: nat, k: nat)
    ensures Shifted(Shifted(x, j), k) == Shifted(x, j + k)
  {
    if k > 0 {
      ShiftedTwice(x, j, k - 1);
    }
  }

  // The carry of index 1024 is lost for an odd slot.
  lemma {:induction false} AbToAddrValue(a: nat, b: nat)
    requires b <= 1024
    ensures AbToAddr(a, b) == 0x1000 * (if b == 1024 && a % 2 == 1 then a * 1024 else a * 1024 + b)
  {
    hide Shifted, Or;
    ShiftedBits(a);
    ShiftedBits(b);
    ShiftedBits(1);
    OrShifted(Shifted(a, 10), b, 12);
    if b < 1024 {
      OrApart(a, b, 10);
      ShiftedBits(a * 1024 + b);
    } else {
      OrShifted(a, 1, 10);
      OrWithOne(a);
      ShiftedBits(Or(a, 1));
      ShiftedBits(1024 * Or(a, 1));
    }
  }

  lemma OrWithOne(a: nat)
    ensures Or(a, 1) == if a % 2 == 1 then a else a + 1
  {
    assert Or(a / 2, 0) == a / 2;
  }

  // --- Looking for free pages ---

  ghost function Unused(m: Tables, cr3: nat): set<nat>
    requires TablesOk(m, cr3)
  {
    set page: nat | KERNEL <= page < PAGES && !Leaf(m, cr3, page).present
  }

  // Searched are the pages of the upper 2 GB that have no translation; the last
  // 1024 of them show the tables themselves.
  lemma UnusedIs(m: Tables, cr3: nat, page: nat)
    requires TablesOk(m, cr3)
    ensures page < 0xF_FC00 ==> (page in Unused(m, cr3) <==> page >= 0x8_0000 && page !in Translation(m, cr3))
    ensures page >= 0x10_0000 ==> page !in Unused(m, cr3)
  {
    hide Leaf;
  }

  function Joined(start: nat): nat {
    if start > KERNEL && start % 2048 == 0 then start - 1024 else start
  }

  // The pages returned for the lowest run are free pages exactly when that
  // run does not start at an even slot above the first.
  lemma {:induction false} JoinedIsRunIff(free: set<nat>, start: nat, count: nat)
    requires IsFirstRun(free, start, count)
    ensures IsRun(free, Joined(start), count) <==> !(start > KERNEL && start % 2048 == 0)
  {
  }

  // --- Mapping ---

  // A translation with new frames from some page on.
  ghost function Placed(t: map<nat, nat>, page: nat, frames: seq<nat>): map<nat, nat> {
    map p | p in t.Keys + Range(page, |frames|) :: if InRange(p, page, |frames|) then frames[p - page] else t[p]
  }

  lemma {:induction false} PlacedStep(t: map<nat, nat>, page: nat, frames: seq<nat>, frame: nat)
    ensures Placed(t, page, frames + [frame]) == Placed(t, page, frames)[page + |frames| := frame]
  {
    RangeStep(page, |frames|);
  }

  // What the processor makes of an address.
  predicate IsMapped(t: map<nat, nat>, address: nat) {
    address / 4096 in t
  }

  function Translated(t: map<nat, nat>, address: nat): nat
    requires IsMapped(t, address)
  {
    t[address / 4096] * 4096 + address % 4096
  }

  ghost predicate AllMapped(t: map<nat, nat>, address: nat, length: nat) {
    forall x: nat :: address <= x < address + length ==> IsMapped(t, x)
  }

  ghost predicate MapsTo(t: map<nat, nat>, address: nat, physAddress: nat, length: nat) {
    forall x: nat :: address <= x < address + length ==> IsMapped(t, x) && Translated(t, x) == physAddress + (x - address)
  }

  // `count` pages hold `length` bytes.
  predicate JustHolds(count: nat, length: nat) {
    count > 0 && (count - 1) * 4096 < length <= count * 4096
  }

  // Every byte of a range is mapped if the pages counted reach its end.
  lemma {:induction false} BytesMapped(t: map<nat, nat>, address: nat, frames: seq<nat>, length: nat)
    requires JustHolds(|frames|, length)
    ensures address % 4096 + (length - 1) % 4096 < 4096 ==> AllMapped(Placed(t, address / 4096, frames), address, length)
  {
    var page, r := address / 4096, address % 4096;
    var q := (length - 1) / 4096;
    assert length - 1 == 4096 * q + (length - 1) % 4096 && q == |frames| - 1;
    if r + (length - 1) % 4096 < 4096 {
      var m := Placed(t, page, frames);
      forall x: nat | address <= x < address + length
        ensures IsMapped(m, x)
      {
        assert page * 4096 <= x < (page + |frames|) * 4096;
        assert InRange(x / 4096, page, |frames|);
        assert x / 4096 in Range(page, |frames|);
      }
    }
  }

  // With consecutive frames, the bytes keep their order.
  lemma {:induction false} BytesTranslated(t: map<nat, nat>, address: nat, frame: nat, count: nat, length: nat)
    requires JustHolds(count, length) && address % 4096 == 0
    ensures MapsTo(Placed(t, address / 4096, Consecutive(frame, count)), address, frame * 4096, length)
  {
    var page := address / 4096;
    var m := Placed(t, page, Consecutive(frame, count));
    forall x: nat | address <= x < address + length
      ensures IsMapped(m, x) && Translated(m, x) == frame * 4096 + (x - address)
    {
      assert page * 4096 <= x < (page + count) * 4096;
      assert InRange(x / 4096, page, count);
      assert x / 4096 in Range(page, count);
    }
  }

  function Consecutive(frame: nat, count: nat): seq<nat> {
    seq(count, i requires 0 <= i => frame + i)
  }

  ghost function Present(m: Tables, cr3: nat): set<nat>
    requires TablesOk(m, cr3)
  {
    set a: nat | a < SLOTS && m[cr3][a].present
  }

  // The directory slots that a range of pages runs through.
  predicate RunsThrough(a: nat, page: nat, count: nat) {
    count > 0 && a * 1024 < page + count && page < a * 1024 + 1024
  }

  ghost function Touched(page: nat, count: nat): set<nat> {
    set a: nat | a < SLOTS && RunsThrough(a, page, count)
  }

  // The tables that a range of pages needs and does not have yet.
  ghost function Missing(m: Tables, cr3: nat, page: nat, count: nat): set<nat>
    requires TablesOk(m, cr3)
  {
    Touched(page, count) - Present(m, cr3)
  }

  lemma {:induction false} TouchedStep(page: nat, count: nat)
    requires count > 0 && page < PAGES
    ensures Touched(page, count) == {page / 1024} + Touched(page + 1, count - 1)
  {
    var s := page / 1024;
    forall a: nat | a < SLOTS
      ensures RunsThrough(a, page, count) <==> a == s || RunsThrough(a, page + 1, count - 1)
    {
    }
  }

  // Mapping the first page of a range provides the table it was missing.
  lemma {:induction false} MissingStep(before: set<nat>, page: nat, count: nat, after: set<nat>)
    requires count > 0 && page < PAGES && after == before + {page / 1024}
    ensures |Touched(page, count) - before| ==
            |Touched(page + 1, count - 1) - after| + (if page / 1024 in before then 0 else 1)
  {
    TouchedStep(page, count);
    var s := page / 1024;
    if s in before {
      assert Touched(page, count) - before == Touched(page + 1, count - 1) - after;
    } else {
      assert Touched(page, count) - before == Touched(page + 1, count - 1) - after + {s};
    }
  }

  // With frame 0 in use, a single frame can be had as long as one is free.
  lemma {:induction false} TakeOne(s: State, address: nat, t: State)
    requires Step(s, Take(1, address), t) && s.free != {} && 0 !in s.free
    ensures
      var frame := address / PAGE_SIZE;
      address == frame * PAGE_SIZE && address != 0 && frame in s.free && t.free == s.free - {frame}
  {
    var x :| x in s.free;
    assert Range(x, 1) == {x} && IsRun(s.free, x, 1);
    var frame := address / PAGE_SIZE;
    assert Range(frame, 1) == {frame} && frame in Range(frame, 1);
  }

  class Paging {
    const cr3: nat
    const physical: Bitmap
    var memory: Tables

    // Takes over the tables that the boot code built.
    constructor (cr3: nat, memory: Tables, physical: Bitmap)
      requires physical.Valid() && TablesOk(memory, cr3) && memory.Keys !! physical.Free()
      ensures Valid() && this.cr3 == cr3 && this.memory == memory && this.physical == physical
    {
      this.cr3, this.memory, this.physical := cr3, memory, physical;
    }

    // No frame that serves as a table is free.
    ghost predicate Valid()
      reads this, physical, physical.memoryBitmap
    {
      && physical.Valid()
      && TablesOk(memory, cr3)
      && memory.Keys !! physical.Free()
    }

    ghost function Map(): map<nat, nat>
      reads this
      requires TablesOk(memory, cr3)
    {
      Translation(memory, cr3)
    }

    // The offset inside the page is dropped.
    function GetPhysicalFromLogical(ptr: nat): (phys: nat)
      reads this
      requires TablesOk(memory, cr3) && ptr / PAGE_SIZE < WINDOW && memory[cr3][ptr / PAGE_SIZE / 1024].present
      ensures ptr / PAGE_SIZE in Map() ==> phys == Map()[ptr / PAGE_SIZE] * PAGE_SIZE
    {
      var page := ptr / PAGE_SIZE;
      assert SlotOk(memory, cr3, page / 1024);
      memory[memory[cr3][page / 1024].address][page % 1024].address * PAGE_SIZE
    }

    method FindFreeLogicalSpace(size: nat) returns (address: nat, ghost start: nat)
      requires Valid() && size < U32
      ensures PagesOf(size) == 0 ==> KERNEL <= address / PAGE_SIZE <= KERNEL + 1024
      ensures PagesOf(size) > 0 && HasRun(Unused(memory, cr3), PagesOf(size)) ==>
        start >= KERNEL && IsFirstRun(Unused(memory, cr3), start, PagesOf(size)) && address == Joined(start) * PAGE_SIZE
      ensures PagesOf(size) > 0 && !HasRun(Unused(memory, cr3), PagesOf(size)) ==> address == 0
      ensures 0 < size <= 0xFFFF_F000 ==> JustHolds(PagesOf(size), size)
      ensures address != 0 ==> address >= 0x8000_0000 && address % 4096 == 0
    {
      hide Unused, Scanned, HasRun, IsFirstRun, AbToAddr, PagesOf, Range, JustHolds;
      SizeHeld(size);
      var pagesCountNeeded := PagesOf(size);
      var pagesCountFree := 0;
      var startA, startB := 512, 0;
      ghost var free := Unused(memory, cr3);
      UnusedBounds(memory, cr3);
      if pagesCountNeeded > 0 {
        ScanStart(free, KERNEL, pagesCountNeeded);
      }
      start := KERNEL;
      var a := 512;
      while a < 1024
        invariant 512 <= a <= 1024
        invariant Cursor(startA, startB, start) && start + pagesCountFree == a * 1024
        invariant if pagesCountNeeded > 0 then Scanned(free, start, a * 1024, pagesCountNeeded) else a == 512
      {
        if memory[cr3][a].present {
          assert SlotOk(memory, cr3, a);
          var pt := memory[memory[cr3][a].address];
          var b := 0;
          while b < 1024
            invariant b <= 1024
            invariant Cursor(startA, startB, start) && start + pagesCountFree == a * 1024 + b
            invariant pagesCountNeeded > 0 ==> Scanned(free, start, a * 1024 + b, pagesCountNeeded)
          {
            UnusedEntry(memory, cr3, a, b);
            if !pt[b].present {
              pagesCountFree := pagesCountFree + 1;
              if pagesCountNeeded > 0 {
                ScanFree(free, start, a * 1024 + b, pagesCountNeeded);
              }
              if pagesCountFree >= pagesCountNeeded {
                CursorAddress(startA, startB, start);
                return AbToAddr(startA, startB), start;
              }
            } else {
              startA := a;
              startB := b + 1;
              pagesCountFree := 0;
              if pagesCountNeeded > 0 {
                ScanUsed(free, start, a * 1024 + b, pagesCountNeeded);
              }
              start := a * 1024 + b + 1;
            }
            b := b + 1;
          }
          if pagesCountNeeded > 0 {
            ScanBound(free, start, a * 1024 + 1024, pagesCountNeeded);
          }
        } else {
          UnusedSlot(memory, cr3, a);
          pagesCountFree := pagesCountFree + 1024;
          if pagesCountNeeded > 0 {
            ScanFreeBlock(free, start, a * 1024, 1024, pagesCountNeeded);
          }
        }
        if pagesCountFree >= pagesCountNeeded {
          CursorAddress(startA, startB, start);
          return AbToAddr(startA, startB), start;
        }
        a := a + 1;
      }
      ScanEnd(free, start, PAGES, pagesCountNeeded);
      address := 0;
    }

    // One page. A missing table takes the lowest free frame.
    method MapPage(physAddress: nat, logicAddress: nat)
      requires Valid() && 0 < physAddress && 0 < logicAddress && logicAddress / PAGE_SIZE < WINDOW
      requires CanMap(logicAddress / PAGE_SIZE, 1)
      modifies this`memory, physical, physical.memoryBitmap
      ensures Valid()
      ensures Map() == old(Map())[logicAddress / PAGE_SIZE := physAddress / PAGE_SIZE]
      ensures Present(memory, cr3) == old(Present(memory, cr3)) + {logicAddress / PAGE_SIZE / 1024}
      ensures TookTables(old(physical.Free()), physical.Free(), old(memory.Keys), memory.Keys)
      ensures old(|physical.Free()|) ==
              |physical.Free()| + (if logicAddress / PAGE_SIZE / 1024 in old(Present(memory, cr3)) then 0 else 1)
    {
      hide Translation, Leaf, Bits, Range, Missing, TablesOk, Present;
      TableKeys(memory, cr3, logicAddress / PAGE_SIZE / 1024);
      NeedsTable(memory, cr3, logicAddress / PAGE_SIZE);
      var directoryIndex := logicAddress / PAGE_SIZE / 1024;
      var tableIndex := logicAddress / PAGE_SIZE % 1024;
      if memory[cr3][directoryIndex].address == 0 {
        AddTable(directoryIndex);
      }
      TableKeys(memory, cr3, directoryIndex);
      SetEntry(directoryIndex, tableIndex, physAddress / PAGE_SIZE);
    }

    method AddTable(directoryIndex: nat)
      requires Valid() && directoryIndex < SELF && !memory[cr3][directoryIndex].present
      requires physical.Free() != {} && 0 !in physical.Free()
      modifies this`memory, physical, physical.memoryBitmap
      ensures Valid()
      ensures Map() == old(Map())
      ensures Present(memory, cr3) == old(Present(memory, cr3)) + {directoryIndex}
      ensures TookTables(old(physical.Free()), physical.Free(), old(memory.Keys), memory.Keys)
      ensures old(|physical.Free()|) == |physical.Free()| + 1
    {
      hide Translation, Leaf, Present, Step, Bits, Range, WithTable, HasRun, TablesOk;
      TableKeys(memory, cr3, directoryIndex);
      ghost var before := physical.Pool();
      var ptPhys, count := physical.Alloc(4096);
      TakeOne(before, ptPhys, physical.Pool());
      MapAfterTable(memory, cr3, directoryIndex, ptPhys / PAGE_SIZE);
      memory := WithTable(memory, cr3, directoryIndex, ptPhys / PAGE_SIZE);
    }

    method SetEntry(directoryIndex: nat, tableIndex: nat, frame: nat)
      requires Valid() && directoryIndex < SELF && tableIndex < SLOTS && memory[cr3][directoryIndex].present
      modifies this`memory
      ensures Valid() && memory.Keys == old(memory.Keys)
      ensures Map() == old(Map())[directoryIndex * 1024 + tableIndex := frame]
      ensures Present(memory, cr3) == old(Present(memory, cr3))
    {
      hide Translation, Leaf, Bits, Range, TablesOk, Present, WithLeaf;
      TableKeys(memory, cr3, directoryIndex);
      MapAfterWrite(memory, cr3, directoryIndex, tableIndex, frame);
      memory := WithLeaf(memory, memory[cr3][directoryIndex].address, tableIndex, Entry(true, frame));
    }

    // The loop of the ranged Map.
    method MapPages(physAddress: nat, logicAddress: nat, count: nat)
      requires Valid() && (count > 0 ==> 0 < physAddress && 0 < logicAddress) && logicAddress / PAGE_SIZE + count <= WINDOW
      requires CanMap(logicAddress / PAGE_SIZE, count)
      modifies this`memory, physical, physical.memoryBitmap
      ensures Valid()
      ensures Map() == Placed(old(Map()), logicAddress / PAGE_SIZE, Consecutive(physAddress / PAGE_SIZE, count))
      ensures Present(memory, cr3) == old(Present(memory, cr3)) + Touched(logicAddress / PAGE_SIZE, count)
      ensures TookTables(old(physical.Free()), physical.Free(), old(memory.Keys), memory.Keys)
      ensures old(|physical.Free()|) ==
              |physical.Free()| + old(|Missing(memory, cr3, logicAddress / PAGE_SIZE, count)|)
    {
      hide Translation, Leaf, Bits, Range, TablesOk, Present, Touched, Placed, Missing, Consecutive;
      ghost var page, frame := logicAddress / PAGE_SIZE, physAddress / PAGE_SIZE;
      var length: nat, cPhysAddress, cLogicAddress := count, physAddress, logicAddress;
      ghost var done: nat := 0;
      PlacedNone(Map(), page, frame);
      while length > 0
        invariant length + done == count && Valid()
        invariant cPhysAddress == physAddress + done * PAGE_SIZE
        invariant cLogicAddress == logicAddress + done * PAGE_SIZE
        invariant CanMap(page + done, length)
        invariant Map() == Placed(old(Map()), page, Consecutive(frame, done))
        invariant Present(memory, cr3) + Touched(page + done, length) == old(Present(memory, cr3)) + Touched(page, count)
        invariant TookTables(old(physical.Free()), physical.Free(), old(memory.Keys), memory.Keys)
        invariant |physical.Free()| + old(|Missing(memory, cr3, page, count)|) ==
                  old(|physical.Free()|) + |Missing(memory, cr3, page + done, length)|
      {
        label Before:
        FirstMissing(memory, cr3, page + done, length);
        assert cPhysAddress / PAGE_SIZE == frame + done && cLogicAddress / PAGE_SIZE == page + done;
        MapPage(cPhysAddress, cLogicAddress);
        TouchedStep(page + done, length);
        MissingAfter(old@Before(memory), memory, cr3, page + done, length);
        PlacedNext(old(Map()), page, frame, done);
        length := length - 1;
        cPhysAddress := cPhysAddress + 0x1000;
        cLogicAddress := cLogicAddress + 0x1000;
        done := done + 1;
      }
      TouchedNone(page + count);
      MissingNone(memory, cr3, page + count);
    }

    // The ranged overload of Map.
    method MapRange(physAddress: nat, logicAddress: nat, length: nat) returns (result: nat)
      requires Valid() && length < U32 && physAddress + PagesOf(length) * PAGE_SIZE <= U32
      requires PagesOf(length) > 0 ==> physAddress > 0
      requires logicAddress != 0 ==>
        logicAddress / PAGE_SIZE + PagesOf(length) <= WINDOW && CanMap(logicAddress / PAGE_SIZE, PagesOf(length))
      requires logicAddress == 0 ==> PagesOf(length) > 0 && HasRoom(PagesOf(length))
      modifies this`memory, physical, physical.memoryBitmap
      ensures Valid()
      ensures logicAddress != 0 ==> result == logicAddress
      ensures logicAddress == 0 && old(HasRun(Unused(memory, cr3), PagesOf(length))) ==>
        result % PAGE_SIZE == 0 && old(IsFirstRun(Unused(memory, cr3), result / PAGE_SIZE, PagesOf(length)))
      ensures logicAddress == 0 && !old(HasRun(Unused(memory, cr3), PagesOf(length))) ==> result == 0
      ensures Map() == if result == 0 then old(Map()) else
        Placed(old(Map()), result / PAGE_SIZE, Consecutive(physAddress / PAGE_SIZE, PagesOf(length)))
      ensures result != 0 ==>
        && Present(memory, cr3) == old(Present(memory, cr3)) + Touched(result / PAGE_SIZE, PagesOf(length))
        && |old(physical.Free())| ==
           |physical.Free()| + |Touched(result / PAGE_SIZE, PagesOf(length)) - old(Present(memory, cr3))|
      ensures TookTables(old(physical.Free()), physical.Free(), old(memory.Keys), memory.Keys)
      ensures result != 0 && 0 < length <= 0xFFFF_F000 && result % 4096 + (length - 1) % 4096 < 4096 ==>
        AllMapped(Map(), result, length)
      ensures result != 0 && 0 < length <= 0xFFFF_F000 && result % 4096 == physAddress % 4096 == 0 ==>
        MapsTo(Map(), result, physAddress, length)
    {
      hide Translation, Leaf, Bits, Range, TablesOk, Present, Touched, Placed, Consecutive, Unused, IsRun;
      hide AllMapped, MapsTo, PagesOf;
      PageCount(length);
      result := logicAddress;
      if result == 0 {
        ghost var start;
        result, start := FindFreeLogicalSpace(length);
        if result == 0 {
          return;
        }
      }
      MapPages(physAddress, result, PagesOf(length));
      if 0 < length <= 0xFFFF_F000 {
        RangeMapped(old(Map()), result, physAddress, PagesOf(length), length);
      }
    }

    // Pairwise distinct frames that were free and serve as no table, at
    // consecutive pages that were not mapped.
    method Alloc(allocSize: nat) returns (logicAddr: nat, ghost frames: seq<nat>)
      requires Valid() && 0 < allocSize <= U32 - PAGE_SIZE
      requires HasRun(Unused(memory, cr3), PagesOf(allocSize)) && HasFrames(PagesOf(allocSize))
      modifies this`memory, physical, physical.memoryBitmap
      ensures Valid() && logicAddr % 4096 == 0 && logicAddr >= 0x8000_0000
      ensures |frames| > 0 && (|frames| - 1) * 4096 < allocSize <= |frames| * 4096
      ensures forall x: nat :: logicAddr <= x < logicAddr + allocSize ==> IsMapped(Map(), x)
      ensures old(IsFirstRun(Unused(memory, cr3), logicAddr / PAGE_SIZE, |frames|))
      ensures Map() == Placed(old(Map()), logicAddr / PAGE_SIZE, frames)
      ensures FreshFrames(old(physical.Free()), physical.Free(), memory.Keys, frames)
      ensures old(memory.Keys) <= memory.Keys
    {
      hide Translation, Leaf, Bits, Range, TablesOk, Present, Touched, Placed, Missing, Consecutive, Unused, IsRun;
      hide FreshFrames, IsFirstRun, HasRun, Bitmap.Free, Stocked, PagesOf, IsMapped;
      ghost var start;
      logicAddr, start := FindFreeLogicalSpace(allocSize);
      ghost var count := PagesOf(allocSize);
      frames := [];
      var a := 0;
      ghost var page, left: nat := start, count;
      assert logicAddr == start * PAGE_SIZE;
      PlacedEmpty(Map(), start);
      FreshNone(physical.Free(), memory.Keys);
      while a < allocSize
        invariant a == |frames| * PAGE_SIZE && page == start + |frames| && |frames| + left == count && Valid()
        invariant Map() == Placed(old(Map()), start, frames)
        invariant FreshFrames(old(physical.Free()), physical.Free(), memory.Keys, frames)
        invariant old(memory.Keys) <= memory.Keys
        invariant Stocked(page, left)
      {
        label Before:
        ghost var frame := AllocNext(logicAddr + a, page, left);
        PlacedStep(old(Map()), start, frames, frame);
        FreshStep(old(physical.Free()), old@Before(physical.Free()), physical.Free(), old@Before(memory.Keys), memory.Keys,
                  frames, frame);
        frames := frames + [frame];
        a := a + PAGE_SIZE;
        page, left := page + 1, left - 1;
      }
      BytesMapped(old(Map()), logicAddr, frames, allocSize);
    }

    // The body of the loop in Alloc, with `left` pages still to come.
    method AllocNext(currentLogicAddr: nat, ghost page: nat, ghost left: nat) returns (ghost frame: nat)
      requires Valid() && currentLogicAddr == page * PAGE_SIZE && 0 < page < WINDOW
      requires left > 0 && Stocked(page, left)
      modifies this`memory, physical, physical.memoryBitmap
      ensures Valid() && Stocked(page + 1, left - 1)
      ensures frame in old(physical.Free()) && frame !in memory.Keys
      ensures Map() == old(Map())[page := frame]
      ensures physical.Free() <= old(physical.Free()) - {frame}
      ensures memory.Keys <= old(memory.Keys) + old(physical.Free())
      ensures old(memory.Keys) <= memory.Keys
    {
      hide Translation, Leaf, TablesOk, Present, Missing, Bitmap.Free;
      FirstMissing(memory, cr3, page, left);
      frame := AllocMapped(currentLogicAddr, page);
      StillEnough(old(memory), memory, cr3, page, left, old(|physical.Free()|), |physical.Free()|);
    }

    method AllocMapped(currentLogicAddr: nat, ghost page: nat) returns (ghost frame: nat)
      requires Valid() && currentLogicAddr == page * PAGE_SIZE && 0 < page < WINDOW
      requires 0 !in physical.Free()
      requires |Missing(memory, cr3, page, 1)| < |physical.Free()|
      modifies this`memory, physical, physical.memoryBitmap
      ensures Valid()
      ensures frame in old(physical.Free()) && frame !in memory.Keys
      ensures Map() == old(Map())[page := frame]
      ensures Present(memory, cr3) == old(Present(memory, cr3)) + {page / 1024}
      ensures physical.Free() <= old(physical.Free()) - {frame}
      ensures memory.Keys <= old(memory.Keys) + old(physical.Free())
      ensures old(memory.Keys) <= memory.Keys
      ensures old(|physical.Free()|) ==
              |physical.Free()| + 1 + (if page / 1024 in old(Present(memory, cr3)) then 0 else 1)
    {
      hide Translation, Leaf, Bits, Range, TablesOk, Present, Touched, Placed, Consecutive, Unused, IsRun, PagesOf;
      var physAddr := AllocFrame();
      frame := physAddr / PAGE_SIZE;
      ghost var before, had := Map(), Present(memory, cr3);
      OnePage(page);
      TouchedOne(page);
      OneSlot(had, page / 1024);
      PlacedOne(before, page, frame);
      var mapped := MapRange(physAddr, currentLogicAddr, PAGE_SIZE);
    }

    method AllocFrame() returns (physAddr: nat)
      requires Valid() && physical.Free() != {} && 0 !in physical.Free()
      modifies physical, physical.memoryBitmap
      ensures Valid()
      ensures physAddr > 0 && physAddr % PAGE_SIZE == 0 && physAddr / PAGE_SIZE in old(physical.Free())
      ensures physAddr < FRAMES * PAGE_SIZE
      ensures physical.Free() == old(physical.Free()) - {physAddr / PAGE_SIZE}
    {
      hide Step, Bits;
      ghost var before := physical.Pool();
      physAddr := physical.AllocPage();
      TakeOne(before, physAddr, physical.Pool());
    }

    // Enough frames for `count` pages and the tables that they still need,
    // wherever the search finds them.
    ghost predicate HasFrames(count: nat)
      reads this, physical, physical.memoryBitmap
      requires TablesOk(memory, cr3)
    {
      forall start: nat :: IsFirstRun(Unused(memory, cr3), start, count) ==>
        RightPlace(start, count) && Stocked(start, count)
    }

    ghost predicate Stocked(page: nat, count: nat)
      reads this, physical, physical.memoryBitmap
      requires TablesOk(memory, cr3)
    {
      && 0 !in physical.Free()
      && |Missing(memory, cr3, page, count)| + count <= |physical.Free()|
    }

    ghost predicate HasRoom(count: nat)
      reads this, physical, physical.memoryBitmap
      requires TablesOk(memory, cr3)
    {
      forall start: nat :: IsFirstRun(Unused(memory, cr3), start, count) ==>
        RightPlace(start, count) && CanMap(start, count)
    }

    // Enough frames are left for the tables that a range of pages lacks.
    ghost predicate CanMap(page: nat, count: nat)
      reads this, physical, physical.memoryBitmap
      requires TablesOk(memory, cr3)
    {
      0 !in physical.Free() && |Missing(memory, cr3, page, count)| <= |physical.Free()|
    }
  }

  // The search returns the run that it found, below the window.
  predicate RightPlace(start: nat, count: nat) {
    start + count <= WINDOW && !(start > KERNEL && start % 2048 == 0)
  }

  ghost predicate FreshFrames(free: set<nat>, newFree: set<nat>, tables: set<nat>, frames: seq<nat>) {
    && newFree <= free
    && (forall i :: 0 <= i < |frames| ==> frames[i] in free && frames[i] !in newFree && frames[i] !in tables)
    && (forall i, j :: 0 <= i < j < |frames| ==> frames[i] != frames[j])
  }

  lemma FreshNone(free: set<nat>, tables: set<nat>)
    ensures FreshFrames(free, free, tables, [])
  {
  }

  lemma FreshStep(free: set<nat>, before: set<nat>, after: set<nat>, tables: set<nat>, newTables: set<nat>,
                  frames: seq<nat>, frame: nat)
    requires FreshFrames(free, before, tables, frames) && after <= before - {frame} && frame in before
    requires newTables <= tables + before && frame !in newTables
    ensures FreshFrames(free, after, newTables, frames + [frame])
  {
  }

  // Frames move from the free set to the tables and nowhere else.
  ghost predicate TookTables(free: set<nat>, newFree: set<nat>, tables: set<nat>, newTables: set<nat>) {
    newFree <= free && newTables == tables + (free - newFree)
  }

  lemma TableKeys(m: Tables, cr3: nat, slot: nat)
    requires TablesOk(m, cr3) && slot < SLOTS
    ensures cr3 in m && FramesOk(m) && SlotOk(m, cr3, slot)
    ensures m[cr3][slot].present <==> slot in Present(m, cr3)
  {
  }

  lemma NeedsTable(m: Tables, cr3: nat, page: nat)
    requires TablesOk(m, cr3) && page < WINDOW
    ensures page / 1024 !in Present(m, cr3) ==> Missing(m, cr3, page, 1) == {page / 1024}
  {
    TouchedStep(page, 1);
  }

  lemma FirstMissing(m: Tables, cr3: nat, page: nat, count: nat)
    requires TablesOk(m, cr3) && count > 0 && page < WINDOW
    ensures |Missing(m, cr3, page, 1)| <= |Missing(m, cr3, page, count)|
  {
    TouchedStep(page, count);
    TouchedStep(page, 1);
    Subset(Missing(m, cr3, page, 1), Missing(m, cr3, page, count));
  }

  lemma {:induction false} Subset(s: set<nat>, t: set<nat>)
    requires s <= t
    ensures |s| <= |t|
  {
    assert t == s + (t - s);
  }

  lemma MissingAfter(m: Tables, n: Tables, cr3: nat, page: nat, count: nat)
    requires TablesOk(m, cr3) && TablesOk(n, cr3) && count > 0 && page < WINDOW
    requires Present(n, cr3) == Present(m, cr3) + {page / 1024}
    ensures |Missing(m, cr3, page, count)| ==
            |Missing(n, cr3, page + 1, count - 1)| + (if page / 1024 in Present(m, cr3) then 0 else 1)
  {
    MissingStep(Present(m, cr3), page, count, Present(n, cr3));
  }

  lemma StillEnough(m: Tables, n: Tables, cr3: nat, page: nat, count: nat, free: nat, newFree: nat)
    requires TablesOk(m, cr3) && TablesOk(n, cr3) && count > 0 && page < WINDOW
    requires Present(n, cr3) == Present(m, cr3) + {page / 1024}
    requires |Missing(m, cr3, page, count)| + count <= free
    requires free == newFree + 1 + (if page / 1024 in Present(m, cr3) then 0 else 1)
    ensures |Missing(n, cr3, page + 1, count - 1)| + count - 1 <= newFree
  {
    MissingAfter(m, n, cr3, page, count);
  }

  lemma MissingNone(m: Tables, cr3: nat, page: nat)
    requires TablesOk(m, cr3)
    ensures Missing(m, cr3, page, 0) == {}
  {
  }

  lemma TouchedNone(page: nat)
    ensures Touched(page, 0) == {}
  {
  }

  // The pages of a run that the search finds have no translation.
  lemma {:induction false} RunIsUnmapped(m: Tables, cr3: nat, start: nat, count: nat)
    requires TablesOk(m, cr3) && IsRun(Unused(m, cr3), start, count)
    ensures Range(start, count) !! Translation(m, cr3).Keys
  {
    hide Leaf;
    forall p | p in Range(start, count)
      ensures p !in Translation(m, cr3)
    {
      assert p in Unused(m, cr3);
    }
  }

  lemma SizeHeld(size: nat)
    requires size < U32
    ensures 0 < size <= 0xFFFF_F000 ==> JustHolds(PagesOf(size), size)
  {
    PageCount(size);
  }

  lemma RangeMapped(t: map<nat, nat>, address: nat, physAddress: nat, count: nat, length: nat)
    requires JustHolds(count, length)
    ensures
      var m := Placed(t, address / PAGE_SIZE, Consecutive(physAddress / PAGE_SIZE, count));
      && (address % 4096 + (length - 1) % 4096 < 4096 ==> AllMapped(m, address, length))
      && (address % 4096 == physAddress % 4096 == 0 ==> MapsTo(m, address, physAddress, length))
  {
    hide AllMapped, MapsTo, Placed;
    BytesMapped(t, address, Consecutive(physAddress / PAGE_SIZE, count), length);
    if address % 4096 == physAddress % 4096 == 0 {
      BytesTranslated(t, address, physAddress / PAGE_SIZE, count, length);
    }
  }

  lemma PlacedEmpty(t: map<nat, nat>, page: nat)
    ensures Placed(t, page, []) == t
  {
  }

  lemma OneSlot(had: set<nat>, slot: nat)
    ensures |{slot} - had| == if slot in had then 0 else 1
  {
    assert {slot} - had == if slot in had then {} else {slot};
  }

  lemma PlacedNone(t: map<nat, nat>, page: nat, frame: nat)
    ensures Placed(t, page, Consecutive(frame, 0)) == t
  {
    assert Consecutive(frame, 0) == [];
  }

  lemma PlacedNext(t: map<nat, nat>, page: nat, frame: nat, done: nat)
    ensures Placed(t, page, Consecutive(frame, done + 1)) ==
            Placed(t, page, Consecutive(frame, done))[page + done := frame + done]
  {
    PlacedStep(t, page, Consecutive(frame, done), frame + done);
    assert Consecutive(frame, done + 1) == Consecutive(frame, done) + [frame + done];
  }

  lemma OnePage(page: nat)
    ensures PagesOf(PAGE_SIZE) == 1 && page * PAGE_SIZE / PAGE_SIZE == page
  {
  }

  lemma PlacedOne(t: map<nat, nat>, page: nat, frame: nat)
    ensures Placed(t, page, Consecutive(frame, 1)) == t[page := frame]
  {
    PlacedNone(t, page, frame);
    PlacedNext(t, page, frame, 0);
  }

  lemma TouchedOne(page: nat)
    requires page < PAGES
    ensures Touched(page, 1) == {page / 1024}
  {
    TouchedStep(page, 1);
    TouchedNone(page + 1);
  }

  lemma {:induction false} MapAfterTable(m: Tables, cr3: nat, slot: nat, frame: nat)
    requires TablesOk(m, cr3) && slot < SELF && !m[cr3][slot].present && frame !in m && frame != 0
    ensures cr3 in m && FramesOk(m)
    ensures
      var n := WithTable(m, cr3, slot, frame);
      TablesOk(n, cr3) && Translation(n, cr3) == Translation(m, cr3) &&
      Present(n, cr3) == Present(m, cr3) + {slot} && n.Keys == m.Keys + {frame}
  {
    hide Leaf;
    var n := WithTable(m, cr3, slot, frame);
    LeafAfterTable(m, cr3, slot, frame, 0);
    forall page: nat | page < WINDOW
      ensures Leaf(n, cr3, page) == Leaf(m, cr3, page)
    {
      LeafAfterTable(m, cr3, slot, frame, page);
    }
  }

  lemma {:induction false} MapAfterWrite(m: Tables, cr3: nat, slot: nat, index: nat, frame: nat)
    requires TablesOk(m, cr3) && slot < SELF && index < SLOTS && m[cr3][slot].present
    ensures cr3 in m && FramesOk(m) && m[cr3][slot].address in m
    ensures
      var n := WithLeaf(m, m[cr3][slot].address, index, Entry(true, frame));
      TablesOk(n, cr3) && Translation(n, cr3) == Translation(m, cr3)[slot * 1024 + index := frame] &&
      Present(n, cr3) == Present(m, cr3) && n.Keys == m.Keys
  {
    hide Leaf;
    assert SlotOk(m, cr3, slot);
    var page := slot * 1024 + index;
    assert page / 1024 == slot && page % 1024 == index;
    var n := WithLeaf(m, m[cr3][slot].address, index, Entry(true, frame));
    LeafAfterWrite(m, cr3, page, Entry(true, frame), page);
    forall other: nat | other < WINDOW
      ensures Leaf(n, cr3, other) == if other == page then Entry(true, frame) else Leaf(m, cr3, other)
    {
      LeafAfterWrite(m, cr3, page, Entry(true, frame), other);
    }
  }

  // Index 0 occurs only at the very beginning, index 1024 after a full table.
  predicate Cursor(startA: nat, startB: nat, start: nat) {
    && 512 <= startA < 1024 && startB <= 1024 && start == startA * 1024 + startB
    && (startB == 0 ==> startA == 512)
  }

  lemma {:induction false} CursorAddress(startA: nat, startB: nat, start: nat)
    requires Cursor(startA, startB, start)
    ensures AbToAddr(startA, startB) == Joined(start) * PAGE_SIZE >= 0x8000_0000
    ensures AbToAddr(startA, startB) % 4096 == 0
  {
    hide AbToAddr;
    AbToAddrValue(startA, startB);
    if startB > 0 {
      EvenSlot(startA, startB);
    }
  }

  // A run starts at an even slot exactly behind the last page of an odd one.
  lemma {:induction false} EvenSlot(a: nat, b: nat)
    requires 0 < b <= 1024
    ensures (a * 1024 + b) % 2048 == 0 <==> b == 1024 && a % 2 == 1
  {
    assert a == 2 * (a / 2) + a % 2;
    Arithmetic.DivIs(a * 1024 + b, 2048, if b == 1024 && a % 2 == 1 then a / 2 + 1 else a / 2,
                     if b == 1024 && a % 2 == 1 then 0 else a % 2 * 1024 + b);
  }

  lemma UnusedBounds(m: Tables, cr3: nat)
    requires TablesOk(m, cr3)
    ensures forall page :: page in Unused(m, cr3) ==> page >= KERNEL
    ensures Unused(m, cr3) <= Range(0, PAGES)
  {
  }

  lemma UnusedEntry(m: Tables, cr3: nat, a: nat, b: nat)
    requires TablesOk(m, cr3) && 512 <= a < SLOTS && b < 1024 && m[cr3][a].present
    ensures SlotOk(m, cr3, a)
    ensures a * 1024 + b in Unused(m, cr3) <==> !m[m[cr3][a].address][b].present
  {
    assert SlotOk(m, cr3, a);
    var page := a * 1024 + b;
    assert page / 1024 == a && page % 1024 == b;
  }

  lemma {:induction false} UnusedSlot(m: Tables, cr3: nat, a: nat)
    requires TablesOk(m, cr3) && 512 <= a < SLOTS && !m[cr3][a].present
    ensures Range(a * 1024, 1024) <= Unused(m, cr3)
  {
    forall page | page in Range(a * 1024, 1024)
      ensures page in Unused(m, cr3)
    {
      assert page / 1024 == a;
    }
  }
}
