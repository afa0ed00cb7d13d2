// The physical page allocator (kernel/Core/Memory_Physical.cpp): one bit per
// 4096-byte frame, set when the frame is free.
module PhysicalMemory {
  import opened Runs

  const PAGE_SIZE: nat := 4096
  const BITMAP_BYTES: nat := 1024
  const FRAMES: nat := 8192
  // Frames whose bit the counting in of memory reaches: the bounds check lets
  // one byte behind the bitmap through.
  const REACHED: nat := 8 * (BITMAP_BYTES + 1)
  const U32: nat := 0x1_0000_0000

  function Mask(b: nat): bv8
    requires b < 8
  {
    1 << b
  }

  lemma MaskValues()
    ensures Mask(0) == 1 && Mask(1) == 2 && Mask(2) == 4 && Mask(3) == 8
    ensures Mask(4) == 16 && Mask(5) == 32 && Mask(6) == 64 && Mask(7) == 128
  {
  }

  predicate IsSet(x: bv8, b: nat)
    requires b < 8
  {
    x & Mask(b) != 0
  }

  function Set(x: bv8, b: nat): bv8
    requires b < 8
  {
    x | Mask(b)
  }

  function Clear(x: bv8, b: nat): bv8
    requires b < 8
  {
    x & !Mask(b)
  }

  lemma OneBitChanges(x: bv8, b: nat, c: nat)
    requires b < 8 && c < 8
    ensures IsSet(Set(x, b), c) <==> b == c || IsSet(x, c)
    ensures IsSet(Clear(x, b), c) <==> b != c && IsSet(x, c)
  {
    hide Mask;
    MaskValues();
  }

  // --- The bitmap as a set of frames ---

  // The bits in front of byte 1024; the byte at 1024 is the neighbour behind
  // the bitmap, which the two bounds checks of the source let through.
  predicate Bit(s: seq<bv8>, frame: nat)
    requires frame < 8 * |s|
  {
    IsSet(s[frame / 8], frame % 8)
  }

  ghost function Bits(s: seq<bv8>): set<nat> {
    set f: nat | f < 8 * |s| && Bit(s, f)
  }

  function WithBit(s: seq<bv8>, frame: nat): seq<bv8>
    requires frame < 8 * |s|
  {
    s[frame / 8 := Set(s[frame / 8], frame % 8)]
  }

  function WithoutBit(s: seq<bv8>, frame: nat): seq<bv8>
    requires frame < 8 * |s|
  {
    s[frame / 8 := Clear(s[frame / 8], frame % 8)]
  }

  lemma {:induction false} BitAfterWrite(s: seq<bv8>, frame: nat, f: nat)
    requires frame < 8 * |s| && f < 8 * |s|
    ensures Bit(WithBit(s, frame), f) <==> f == frame || Bit(s, f)
    ensures Bit(WithoutBit(s, frame), f) <==> f != frame && Bit(s, f)
  {
    hide IsSet, Set, Clear;
    OneBitChanges(s[frame / 8], frame % 8, f % 8);
  }

  // Writing one byte changes one element of the set.
  lemma {:induction false} BitsAfterWrite(s: seq<bv8>, frame: nat)
    requires frame < 8 * |s|
    ensures Bits(WithBit(s, frame)) == Bits(s) + {frame}
    ensures Bits(WithoutBit(s, frame)) == Bits(s) - {frame}
  {
    hide Bit, IsSet, Set, Clear;
    forall f: nat | f < 8 * |s|
      ensures Bit(WithBit(s, frame), f) <==> f == frame || Bit(s, f)
      ensures Bit(WithoutBit(s, frame), f) <==> f != frame && Bit(s, f)
    {
      BitAfterWrite(s, frame, f);
    }
  }

  // --- Which frames a call touches ---

  function PagesOf(size: nat): nat {
    ((size + (PAGE_SIZE - 1)) % U32) / PAGE_SIZE
  }

  // The number of pages that hold `size` bytes.
  lemma {:induction false} PageCount(size: nat)
    requires size < U32
    ensures 0 < size <= 0xFFFF_F000 ==> PagesOf(size) > 0 && (PagesOf(size) - 1) * 4096 < size <= PagesOf(size) * 4096
    ensures size == 0 || size > 0xFFFF_F000 ==> PagesOf(size) == 0
  {
  }

  // The bitmap stands for 32 MB.
  lemma BitmapSize()
    ensures FRAMES == 8 * BITMAP_BYTES && FRAMES * PAGE_SIZE == 0x200_0000 && PAGE_SIZE == 4096
  {
  }

  function AddedStart(address: nat): nat {
    if address % PAGE_SIZE != 0 then address / PAGE_SIZE + 1 else address / PAGE_SIZE
  }

  function AddedCount(address: nat, length: nat): nat {
    var pages := length / PAGE_SIZE;
    if pages > 0 && address % PAGE_SIZE != 0 then pages - 1 else pages
  }

  ghost function Added(address: nat, length: nat): set<nat> {
    Range(AddedStart(address), AddedCount(address, length)) * Range(0, REACHED)
  }

  ghost predicate WhollyInside(frame: nat, address: nat, length: nat) {
    address <= frame * PAGE_SIZE && frame * PAGE_SIZE + PAGE_SIZE <= address + length
  }

  ghost predicate Overlaps(frame: nat, address: nat, length: nat) {
    length > 0 && frame * PAGE_SIZE < address + length && address < frame * PAGE_SIZE + PAGE_SIZE
  }

  // Every frame that is counted in lies wholly inside the memory that was
  // announced, and of the frames that do, and whose bit is reached, at most the
  // last one is left out.
  lemma {:induction false} AddedInside(address: nat, length: nat, frame: nat)
    ensures frame in Added(address, length) ==> WhollyInside(frame, address, length) && frame < REACHED
    ensures WhollyInside(frame, address, length) && frame < REACHED && frame !in Added(address, length) ==>
      frame == AddedStart(address) + AddedCount(address, length)
  {
    var q, r := address / PAGE_SIZE, address % PAGE_SIZE;
    assert address == q * PAGE_SIZE + r;
  }

  // A whole frame is lost exactly when the two cut-off ends together make up a
  // page, or when the memory has a whole frame behind those that are reached.
  lemma {:induction false} AddedIsAllIff(address: nat, length: nat)
    ensures (forall frame: nat :: WhollyInside(frame, address, length) ==> frame in Added(address, length)) <==>
      && !(length >= PAGE_SIZE && address % PAGE_SIZE + length % PAGE_SIZE >= PAGE_SIZE)
      && ((address + length) / PAGE_SIZE <= REACHED || (address + length) / PAGE_SIZE <= AddedStart(address))
  {
    var last := AddedStart(address) + AddedCount(address, length);
    var end := (address + length) / PAGE_SIZE;
    var q, r := address / PAGE_SIZE, address % PAGE_SIZE;
    assert address == q * PAGE_SIZE + r;
    assert length == length / PAGE_SIZE * PAGE_SIZE + length % PAGE_SIZE;
    if length >= PAGE_SIZE && r + length % PAGE_SIZE >= PAGE_SIZE {
      assert WhollyInside(last, address, length) && last !in Added(address, length);
    } else if end > REACHED && end > AddedStart(address) {
      assert WhollyInside(end - 1, address, length) && end - 1 !in Added(address, length);
    } else {
      forall frame: nat | WhollyInside(frame, address, length)
        ensures frame in Added(address, length)
      {
        assert AddedStart(address) <= frame < end;
        AddedInside(address, length, frame);
      }
    }
  }

  ghost function Reserved(address: nat, length: nat): set<nat> {
    Range(address / PAGE_SIZE, PagesOf(length)) * Range(0, REACHED)
  }

  // The frames reserved are counted from the length alone, so the last frame
  // that the memory reaches into can stay free, as can those whose bit is not
  // reached.
  lemma {:induction false} ReservedIsAllIff(address: nat, length: nat)
    requires length < U32
    ensures (forall frame: nat :: Overlaps(frame, address, length) ==> frame in Reserved(address, length)) <==>
      length == 0 ||
      (&& length <= 0xFFFF_F000 && address % 4096 + (length - 1) % 4096 < 4096
       && (address + length - 1) / 4096 < 8 * 1025)
  {
    PageCount(length);
    var q, r := address / PAGE_SIZE, address % PAGE_SIZE;
    assert address == q * PAGE_SIZE + r;
    var n := PagesOf(length);
    if length > U32 - PAGE_SIZE {
      assert n == 0;
      assert Overlaps(q, address, length) && q !in Reserved(address, length);
    } else if length > 0 {
      assert n * PAGE_SIZE < length + PAGE_SIZE && length <= n * PAGE_SIZE;
      var last := (address + length - 1) / PAGE_SIZE;
      if r + length > n * PAGE_SIZE {
        assert Overlaps(q + n, address, length) && q + n !in Reserved(address, length);
      } else if last >= REACHED {
        assert Overlaps(last, address, length) && last !in Reserved(address, length);
      }
    }
  }

  lemma {:induction false} ReservedOverlap(address: nat, length: nat, frame: nat)
    requires length < U32
    ensures frame in Reserved(address, length) ==> Overlaps(frame, address, length)
  {
    var q, r := address / PAGE_SIZE, address % PAGE_SIZE;
    assert address == q * PAGE_SIZE + r;
    var n := PagesOf(length);
    if length <= U32 - PAGE_SIZE {
      assert n * PAGE_SIZE < length + PAGE_SIZE;
    }
  }

  // --- Runs ---

  datatype State = State(free: set<nat>, outstanding: set<nat>)
  datatype Op = Take(count: nat, address: nat) | Give(frame: nat)

  // Address 0 stands for failure, and for frame 0.
  ghost predicate Step(s: State, op: Op, t: State) {
    match op
    case Take(count, address) =>
      if HasRun(s.free, count) then
        var start := address / PAGE_SIZE;
        && address == start * PAGE_SIZE
        && IsFirstRun(s.free, start, count)
        && t == State(s.free - Range(start, count), s.outstanding + Range(start, count))
      else
        address == 0 && t == s
    case Give(frame) =>
      t == State(s.free + {frame}, s.outstanding - {frame})
  }

  ghost predicate IsHistory(states: seq<State>, ops: seq<Op>) {
    && |states| == |ops| + 1
    && forall i :: 0 <= i < |ops| ==> Step(states[i], ops[i], states[i + 1])
  }

  // Whoever frees a frame holds it.
  ghost predicate OnlyHeldFramesFreed(states: seq<State>, ops: seq<Op>)
    requires |states| == |ops| + 1
  {
    forall i :: 0 <= i < |ops| && ops[i].Give? ==> ops[i].frame in states[i].outstanding
  }

  // Over every run free and outstanding frames stay apart, and no frame is
  // lost or invented.
  lemma {:induction false} RunConserves(states: seq<State>, ops: seq<Op>)
    requires IsHistory(states, ops) && OnlyHeldFramesFreed(states, ops)
    requires states[0].free !! states[0].outstanding
    ensures states[|ops|].free !! states[|ops|].outstanding
    ensures states[|ops|].free + states[|ops|].outstanding == states[0].free + states[0].outstanding
    decreases |ops|
  {
    if ops != [] {
      var n := |ops| - 1;
      RunConserves(states[..n + 1], ops[..n]);
      assert Step(states[n], ops[n], states[n + 1]);
    }
  }

  lemma TakeStep(s: State, start: nat, count: nat, t: State)
    requires HasRun(s.free, count) && IsFirstRun(s.free, start, count)
    requires t == State(s.free - Range(start, count), s.outstanding + Range(start, count))
    ensures Step(s, Take(count, start * PAGE_SIZE), t)
  {
  }

  lemma FailStep(s: State, count: nat)
    requires !HasRun(s.free, count)
    ensures Step(s, Take(count, 0), s)
  {
  }

  // A step is determined by the free frames, and a frame that somebody holds
  // is never handed out.
  lemma {:induction false} TakeIsDetermined(s: State, count: nat, a: nat, t: State, b: nat, u: State)
    requires Step(s, Take(count, a), t) && Step(s, Take(count, b), u)
    requires s.free !! s.outstanding
    ensures a == b && t == u
    ensures HasRun(s.free, count) ==> Range(a / PAGE_SIZE, count) !! s.outstanding
  {
    if HasRun(s.free, count) {
      assert IsRun(s.free, a / PAGE_SIZE, count) && IsRun(s.free, b / PAGE_SIZE, count);
    }
  }

  // The null pointer means failure exactly when no run starts at frame 0.
  lemma {:induction false} NullIsFailureIff(s: State, count: nat, address: nat, t: State)
    requires Step(s, Take(count, address), t) && count > 0
    ensures (address == 0 <==> t == s) <==> !IsRun(s.free, 0, count)
  {
    if HasRun(s.free, count) {
      var start := address / PAGE_SIZE;
      assert InRange(start, start, count) && start in s.free && start !in t.free;
      assert IsRun(s.free, 0, count) <==> start == 0;
    }
  }

  // --- The allocator ---

  class Bitmap {
    // The byte behind the bitmap is modelled as the last element.
    const memoryBitmap: array<bv8>
    ghost var outstanding: set<nat>

    ghost function Free(): set<nat>
      reads this, memoryBitmap
    {
      Bits(memoryBitmap[..]) * Range(0, FRAMES)
    }

    ghost function Pool(): State
      reads this, memoryBitmap
    {
      State(Free(), outstanding)
    }

    ghost predicate Valid()
      reads this, memoryBitmap
    {
      && memoryBitmap.Length == BITMAP_BYTES + 1
      && Free() !! outstanding
      && outstanding <= Range(0, FRAMES)
    }

    constructor ()
      ensures Valid() && fresh(memoryBitmap) && Pool() == State({}, {})
    {
      memoryBitmap := new bv8[BITMAP_BYTES + 1](i => 0);
      outstanding := {};
      new;
      forall f: nat | f < 8 * memoryBitmap.Length
        ensures !Bit(memoryBitmap[..], f)
      {
        assert memoryBitmap[..][f / 8] == 0;
      }
      assert Free() == {};
    }

    lemma FreeBit(a: nat, b: nat)
      requires memoryBitmap.Length == BITMAP_BYTES + 1 && a < BITMAP_BYTES && b < 8
      ensures IsSet(memoryBitmap[a], b) <==> 8 * a + b in Free()
    {
      var f := 8 * a + b;
      assert f / 8 == a && f % 8 == b;
      assert InRange(f, 0, FRAMES);
    }

    method SetFrame(frame: nat)
      requires frame < 8 * memoryBitmap.Length
      modifies memoryBitmap
      ensures Bits(memoryBitmap[..]) == old(Bits(memoryBitmap[..])) + {frame}
    {
      hide Bits;
      BitsAfterWrite(memoryBitmap[..], frame);
      memoryBitmap[frame / 8] := Set(memoryBitmap[frame / 8], frame % 8);
      assert memoryBitmap[..] == WithBit(old(memoryBitmap[..]), frame);
    }

    method ClearFrame(frame: nat)
      requires frame < 8 * memoryBitmap.Length
      modifies memoryBitmap
      ensures Bits(memoryBitmap[..]) == old(Bits(memoryBitmap[..])) - {frame}
    {
      hide Bits;
      BitsAfterWrite(memoryBitmap[..], frame);
      memoryBitmap[frame / 8] := Clear(memoryBitmap[frame / 8], frame % 8);
      assert memoryBitmap[..] == WithoutBit(old(memoryBitmap[..]), frame);
    }

    // Frames from 8192 up to 8199 land in the byte behind the bitmap.
    method AddFreeMemory(address: nat, length: nat)
      requires Valid() && address < U32 && length < U32
      modifies this, memoryBitmap
      ensures Valid()
      ensures Bits(memoryBitmap[..]) == old(Bits(memoryBitmap[..])) + Added(address, length)
      ensures outstanding == old(outstanding) - Added(address, length)
    {
      var pagesCount := length / PAGE_SIZE;
      if pagesCount == 0 {
        return;
      }
      var index := address / PAGE_SIZE;
      if address % PAGE_SIZE != 0 {
        index := index + 1;
        pagesCount := pagesCount - 1;
        if pagesCount == 0 {
          return;
        }
      }
      AddFrames(index, pagesCount);
      outstanding := outstanding - Range(index, pagesCount);
    }

    // The loop of AddFreeMemory.
    method AddFrames(index: nat, pagesCount: nat)
      requires memoryBitmap.Length == BITMAP_BYTES + 1
      modifies memoryBitmap
      ensures Bits(memoryBitmap[..]) ==
              old(Bits(memoryBitmap[..])) + Range(index, pagesCount) * Range(0, REACHED)
    {
      hide Bits;
      var a := 0;
      while a < pagesCount
        invariant a <= pagesCount
        invariant Bits(memoryBitmap[..]) == old(Bits(memoryBitmap[..])) + Range(index, a)
        invariant a > 0 ==> (index + a - 1) / 8 <= BITMAP_BYTES
      {
        var indexCurrent := index + a;
        if indexCurrent / 8 > BITMAP_BYTES {
          break;
        }
        SetFrame(indexCurrent);
        RangeStep(index, a);
        a := a + 1;
      }
      assert Range(index, a) == Range(index, pagesCount) * Range(0, REACHED);
    }

    method ReserveMemory(address: nat, length: nat)
      requires Valid() && address < U32 && length < U32
      modifies this, memoryBitmap
      ensures Valid()
      ensures Bits(memoryBitmap[..]) == old(Bits(memoryBitmap[..])) - Reserved(address, length)
      ensures outstanding == old(outstanding)
    {
      var pagesCount := PagesOf(length);
      var index := address / PAGE_SIZE;
      var a := 0;
      while a < pagesCount
        invariant a <= pagesCount
        invariant Bits(memoryBitmap[..]) == old(Bits(memoryBitmap[..])) - Range(index, a)
        modifies memoryBitmap
      {
        var indexCurrent := index + a;
        if indexCurrent / 8 > BITMAP_BYTES {
          break;
        }
        ClearFrame(indexCurrent);
        RangeStep(index, a);
        a := a + 1;
      }
    }

    // First fit; a size that rounds to no page at all still takes one frame.
    method Alloc(allocSize: nat) returns (address: nat, ghost count: nat)
      requires Valid() && allocSize < U32
      modifies this, memoryBitmap
      ensures Valid()
      ensures Bits(memoryBitmap[..]) - Range(0, FRAMES) == old(Bits(memoryBitmap[..])) - Range(0, FRAMES)
      ensures if 0 < allocSize <= 0xFFFF_F000 then count > 0 && (count - 1) * 4096 < allocSize <= count * 4096 else count == 1
      ensures Step(old(Pool()), Take(count, address), Pool())
    {
      hide Bits, Scanned, Range, IsRun, HasRun, IsFirstRun, Step;
      PageCount(allocSize);
      var pagesCount := PagesOf(allocSize);
      var lastIndex: nat := 0;
      ghost var free := Free();
      count := if pagesCount == 0 then 1 else pagesCount;
      ScanStart(free, 0, count);
      var a := 0;
      while a < BITMAP_BYTES
        invariant a <= BITMAP_BYTES
        invariant Scanned(free, lastIndex, 8 * a, count)
        invariant memoryBitmap[..] == old(memoryBitmap[..]) && outstanding == old(outstanding)
      {
        var b := 0;
        while b < 8
          invariant b <= 8
          invariant Scanned(free, lastIndex, 8 * a + b, count)
          invariant memoryBitmap[..] == old(memoryBitmap[..]) && outstanding == old(outstanding)
        {
          var index := a * 8 + b;
          FreeBit(a, b);
          if IsSet(memoryBitmap[a], b) {
            ScanFree(free, lastIndex, index, count);
            if index - lastIndex + 1 >= pagesCount {
              ghost var before := Pool();
              ClearRun(lastIndex, index);
              TakeStep(before, lastIndex, count, Pool());
              return lastIndex * PAGE_SIZE, count;
            }
          } else {
            ScanUsed(free, lastIndex, index, count);
            lastIndex := index + 1;
          }
          b := b + 1;
        }
        a := a + 1;
      }
      ScanEnd(free, lastIndex, FRAMES, count);
      FailStep(Pool(), count);
      address := 0;
    }

    // The inner loop of Alloc.
    method ClearRun(lastIndex: nat, index: nat)
      requires Valid() && lastIndex <= index < FRAMES && Range(lastIndex, index - lastIndex + 1) <= Free()
      modifies this, memoryBitmap
      ensures Valid()
      ensures Bits(memoryBitmap[..]) - Range(0, FRAMES) == old(Bits(memoryBitmap[..])) - Range(0, FRAMES)
      ensures Free() == old(Free()) - Range(lastIndex, index - lastIndex + 1)
      ensures outstanding == old(outstanding) + Range(lastIndex, index - lastIndex + 1)
    {
      hide Bits;
      var c := lastIndex;
      while c <= index
        invariant lastIndex <= c <= index + 1
        invariant Bits(memoryBitmap[..]) == old(Bits(memoryBitmap[..])) - Range(lastIndex, c - lastIndex)
        modifies memoryBitmap
      {
        ClearFrame(c);
        RangeStep(lastIndex, c - lastIndex);
        c := c + 1;
      }
      outstanding := outstanding + Range(lastIndex, index - lastIndex + 1);
    }

    method AllocPage() returns (address: nat)
      requires Valid()
      modifies this, memoryBitmap
      ensures Valid()
      ensures Bits(memoryBitmap[..]) - Range(0, FRAMES) == old(Bits(memoryBitmap[..])) - Range(0, FRAMES)
      ensures Step(old(Pool()), Take(1, address), Pool())
    {
      hide Bits, Scanned, IsRun, HasRun, IsFirstRun, Step;
      ScanStart(Free(), 0, 1);
      var a := 0;
      while a < BITMAP_BYTES
        invariant a <= BITMAP_BYTES
        invariant Scanned(Free(), 8 * a, 8 * a, 1)
        invariant memoryBitmap[..] == old(memoryBitmap[..]) && outstanding == old(outstanding)
      {
        var b := 0;
        while b < 8
          invariant b <= 8
          invariant Scanned(Free(), 8 * a + b, 8 * a + b, 1)
          invariant memoryBitmap[..] == old(memoryBitmap[..]) && outstanding == old(outstanding)
        {
          FreeBit(a, b);
          if IsSet(memoryBitmap[a], b) {
            ScanFree(Free(), 8 * a + b, 8 * a + b, 1);
            ghost var before := Pool();
            ClearFrame(8 * a + b);
            outstanding := outstanding + {8 * a + b};
            assert Range(8 * a + b, 1) == {8 * a + b};
            TakeStep(before, 8 * a + b, 1, Pool());
            return (a * 8 + b) * PAGE_SIZE;
          }
          ScanUsed(Free(), 8 * a + b, 8 * a + b, 1);
          b := b + 1;
        }
        a := a + 1;
      }
      ScanEnd(Free(), FRAMES, FRAMES, 1);
      FailStep(Pool(), 1);
      address := 0;
    }

    method FreePage(address: nat)
      requires Valid() && address % PAGE_SIZE == 0 && address / PAGE_SIZE < FRAMES
      modifies this, memoryBitmap
      ensures Valid()
      ensures Bits(memoryBitmap[..]) == old(Bits(memoryBitmap[..])) + {address / PAGE_SIZE}
      ensures Step(old(Pool()), Give(address / PAGE_SIZE), Pool())
    {
      var index := address / PAGE_SIZE;
      SetFrame(index);
      outstanding := outstanding - {index};
    }
  }
}
