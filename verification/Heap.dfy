// The kernel heap: headers inside the managed memory, linked into a free list
// (kernel/Core/Memory.cpp).
module Heap {
  import opened HeapBlocks

  // MallocHeader; next is an address, 0 for null.
  datatype Header = Header(length: nat, next: nat, used: bool)

  function AddrAt(fs: seq<Block>, i: nat): nat {
    if i < |fs| then fs[i].addr else 0
  }

  ghost predicate IsList(headers: map<nat, Header>, start: nat, fs: seq<Block>) {
    && start == AddrAt(fs, 0)
    && forall i :: 0 <= i < |fs| ==> Linked(headers, fs, i)
  }

  ghost predicate Linked(headers: map<nat, Header>, fs: seq<Block>, i: nat)
    requires i < |fs|
  {
    && fs[i].addr > 0 && fs[i].addr in headers
    && headers[fs[i].addr] == Header(fs[i].length, AddrAt(fs, i + 1), false)
  }

  lemma {:induction false} PartitionSorted(free: seq<Block>, live: set<Block>, lost: set<Block>, obtained: set<nat>)
    requires Partition(free, live, lost, obtained)
    ensures Sorted(free)
  {
  }

  // Joining block i with its successor in the headers.
  lemma {:induction false} JoinLinks(headers: map<nat, Header>, start: nat, fs: seq<Block>, i: nat)
    requires IsList(headers, start, fs) && Sorted(fs) && i + 1 < |fs|
    ensures IsList(headers[fs[i].addr := Header(Joined(fs[i], fs[i + 1]).length, AddrAt(fs, i + 2), false)], start, JoinAt(fs, i))
  {
    var gs := JoinAt(fs, i);
    var headers' := headers[fs[i].addr := Header(Joined(fs[i], fs[i + 1]).length, AddrAt(fs, i + 2), false)];
    forall k | 0 <= k < |gs|
      ensures Linked(headers', gs, k)
    {
      var m := if k <= i then k else k + 1;
      assert Linked(headers, fs, m);
      SortedDistinct(fs);
      assert gs[k].addr == fs[m].addr && AddrAt(gs, k + 1) == if k < i then AddrAt(fs, k + 1) else AddrAt(fs, k + 2);
    }
  }

  // The address that follows block i once it has been taken.
  function Successor(fs: seq<Block>, i: nat, n: nat): nat
    requires i < |fs|
  {
    if Splits(fs[i], n) then Rest(fs[i], n).addr else AddrAt(fs, i + 1)
  }

  // The headers that Alloc leaves behind when it takes n bytes of block i.
  function TakenHeaders(h: map<nat, Header>, fs: seq<Block>, i: nat, n: nat): map<nat, Header>
    requires i < |fs|
  {
    var h1 := if Splits(fs[i], n)
              then h[Rest(fs[i], n).addr := Header(Rest(fs[i], n).length, AddrAt(fs, i + 1), false)] else h;
    var h2 := h1[fs[i].addr := Header(Taken(fs[i], n).length, Successor(fs, i, n), true)];
    if i > 0 then h2[fs[i - 1].addr := Header(fs[i - 1].length, Successor(fs, i, n), false)] else h2
  }

  lemma {:induction false} TakeLinks(h: map<nat, Header>, start: nat, fs: seq<Block>, i: nat, n: nat)
    requires IsList(h, start, fs) && Sorted(fs) && i < |fs| && n <= fs[i].length
    ensures IsList(TakenHeaders(h, fs, i, n), if i == 0 then Successor(fs, i, n) else start, TakeFrom(fs, i, n))
  {
    var gs := TakeFrom(fs, i, n);
    forall k | 0 <= k < |gs|
      ensures Linked(TakenHeaders(h, fs, i, n), gs, k)
    {
      TakeLink(h, start, fs, i, n, k);
    }
  }

  lemma {:induction false} TakeLink(h: map<nat, Header>, start: nat, fs: seq<Block>, i: nat, n: nat, k: nat)
    requires IsList(h, start, fs) && Sorted(fs) && i < |fs| && n <= fs[i].length && k < |TakeFrom(fs, i, n)|
    ensures Linked(TakenHeaders(h, fs, i, n), TakeFrom(fs, i, n), k)
  {
    hide TakeFrom;
    TakeNext(fs, i, n, k);
    var m := if Splits(fs[i], n) || k < i then k else k + 1;
    assert Linked(h, fs, m) && Linked(h, fs, i);
    assert m < i ==> fs[m].End() <= fs[i].addr;
    assert i < m ==> fs[i].End() <= fs[m].addr;
    assert i > 0 && m != i - 1 ==> fs[m].addr != fs[i - 1].addr;
    assert i > 0 ==> fs[i - 1].End() <= fs[i].addr;
    hide Sorted, IsList;
  }

  lemma {:induction false} TakeNext(fs: seq<Block>, i: nat, n: nat, k: nat)
    requires i < |fs| && k < |TakeFrom(fs, i, n)|
    ensures var m := if Splits(fs[i], n) || k < i then k else k + 1;
            && m < |fs|
            && TakeFrom(fs, i, n)[k] == (if m == i then Rest(fs[i], n) else fs[m])
            && AddrAt(TakeFrom(fs, i, n), k + 1) == if k + 1 == i then Successor(fs, i, n) else AddrAt(fs, m + 1)
  {
  }

  ghost predicate LiveIn(headers: map<nat, Header>, live: set<Block>) {
    && (forall b :: b in live ==> b.addr in headers && headers[b.addr].used && headers[b.addr].length == b.length)
    && (forall a :: a in headers && headers[a].used ==> Block(a, headers[a].length) in live)
  }

  lemma {:induction false} TakeLive(h: map<nat, Header>, start: nat, fs: seq<Block>, live: set<Block>, lost: set<Block>,
                                    obtained: set<nat>, i: nat, n: nat)
    requires IsList(h, start, fs) && Partition(fs, live, lost, obtained) && LiveIn(h, live)
    requires i < |fs| && n <= fs[i].length
    ensures LiveIn(TakenHeaders(h, fs, i, n), live + {Taken(fs[i], n)})
  {
    assert Linked(h, fs, i);
    assert i > 0 ==> Linked(h, fs, i - 1);
    assert i > 0 ==> fs[i - 1].End() <= fs[i].addr;
    InsideNotLive(fs, live, lost, obtained, i);
    hide Partition, IsList, Linked, AddrAt;
  }

  // Appending a block behind everything obtained so far.
  function AppendedHeaders(h: map<nat, Header>, fs: seq<Block>, b: Block): map<nat, Header> {
    var h1 := h[b.addr := Header(b.length, 0, false)];
    if fs == [] then h1
    else
      var last := fs[|fs| - 1];
      h1[last.addr := Header(last.length, b.addr, false)]
  }

  lemma {:induction false} AppendLinks(h: map<nat, Header>, start: nat, fs: seq<Block>, b: Block)
    requires IsList(h, start, fs) && Sorted(fs) && b.addr > 0 && forall k :: 0 <= k < |fs| ==> fs[k].End() <= b.addr
    ensures IsList(AppendedHeaders(h, fs, b), if fs == [] then b.addr else start, fs + [b])
  {
    var gs := fs + [b];
    forall k | 0 <= k < |gs|
      ensures Linked(AppendedHeaders(h, fs, b), gs, k)
    {
      if k < |fs| {
        assert Linked(h, fs, k);
        assert k < |fs| - 1 ==> fs[k].End() <= fs[|fs| - 1].addr;
      }
    }
  }

  lemma {:induction false} AppendLive(h: map<nat, Header>, start: nat, fs: seq<Block>, live: set<Block>, lost: set<Block>,
                                      obtained: set<nat>, b: Block)
    requires IsList(h, start, fs) && Partition(fs, live, lost, obtained) && LiveIn(h, live)
    requires forall x :: x in obtained ==> x < b.addr
    ensures LiveIn(AppendedHeaders(h, fs, b), live)
    ensures forall k :: 0 <= k < |fs| ==> fs[k].End() <= b.addr
  {
    var blocks := SetOf(fs) + live + lost;
    TilesGrow(blocks, obtained, b);
    assert fs != [] ==> Linked(h, fs, |fs| - 1);
    assert forall k :: 0 <= k < |fs| ==> fs[k] in blocks;
    assert forall c :: c in live ==> c.End() <= b.addr;
    hide Tiles, Partition, IsList;
  }

  // The headers after block b has been put in front of block i.
  function InsertedHeaders(h: map<nat, Header>, fs: seq<Block>, b: Block, i: nat): map<nat, Header>
    requires i <= |fs|
  {
    var h1 := h[b.addr := Header(b.length, AddrAt(fs, i), false)];
    if i > 0 then h1[fs[i - 1].addr := Header(fs[i - 1].length, b.addr, false)] else h1
  }

  lemma {:induction false} InsertLinks(h: map<nat, Header>, start: nat, fs: seq<Block>, b: Block)
    requires IsList(h, start, fs) && Sorted(fs) && b.addr > 0 && forall k :: 0 <= k < |fs| ==> fs[k].addr != b.addr
    ensures var i := InsertAt(fs, b);
            IsList(InsertedHeaders(h, fs, b, i), if i == 0 then b.addr else start, Inserted(fs, b))
  {
    hide InsertAt;
    forall k | 0 <= k < |Inserted(fs, b)|
      ensures Linked(InsertedHeaders(h, fs, b, InsertAt(fs, b)), Inserted(fs, b), k)
    {
      InsertLink(h, start, fs, b, k);
    }
  }

  lemma {:induction false} InsertLink(h: map<nat, Header>, start: nat, fs: seq<Block>, b: Block, k: nat)
    requires IsList(h, start, fs) && Sorted(fs) && b.addr > 0 && forall k :: 0 <= k < |fs| ==> fs[k].addr != b.addr
    requires k < |Inserted(fs, b)|
    ensures Linked(InsertedHeaders(h, fs, b, InsertAt(fs, b)), Inserted(fs, b), k)
  {
    hide InsertAt, Inserted;
    var i := InsertAt(fs, b);
    InsertNext(fs, b, k);
    if k != i {
      var m := if k < i then k else k - 1;
      assert Linked(h, fs, m);
      assert i > 0 && m != i - 1 ==> fs[m].addr != fs[i - 1].addr;
    }
    hide Sorted, IsList;
  }

  lemma {:induction false} InsertNext(fs: seq<Block>, b: Block, k: nat)
    requires k < |Inserted(fs, b)|
    ensures var i := InsertAt(fs, b);
            && |Inserted(fs, b)| == |fs| + 1
            && Inserted(fs, b)[k] == (if k < i then fs[k] else if k == i then b else fs[k - 1])
            && AddrAt(Inserted(fs, b), k + 1) == (if k + 1 == i then b.addr else if k < i then AddrAt(fs, k + 1) else AddrAt(fs, k))
  {
    hide InsertAt;
  }

  lemma {:induction false} InsertLive(h: map<nat, Header>, start: nat, fs: seq<Block>, live: set<Block>, lost: set<Block>,
                                      obtained: set<nat>, b: Block)
    requires IsList(h, start, fs) && Partition(fs, live, lost, obtained) && LiveIn(h, live) && b in live
    ensures LiveIn(InsertedHeaders(h, fs, b, InsertAt(fs, b)), live - {b})
    ensures forall k :: 0 <= k < |fs| ==> fs[k].addr != b.addr
  {
    var i := InsertAt(fs, b);
    forall k | 0 <= k < |fs|
      ensures fs[k].addr in h && !h[fs[k].addr].used && fs[k].addr != b.addr
    {
      assert Linked(h, fs, k);
    }
    hide Partition, IsList, InsertAt, Linked, AddrAt;
  }

  lemma {:induction false} LoseLive(h: map<nat, Header>, live: set<Block>, b: Block)
    requires LiveIn(h, live) && b in live
    ensures LiveIn(h[b.addr := h[b.addr].(used := false)], live - {b})
  {
  }

  // No live block starts inside a free one.
  lemma {:induction false} InsideNotLive(fs: seq<Block>, live: set<Block>, lost: set<Block>, obtained: set<nat>, i: nat)
    requires Partition(fs, live, lost, obtained) && i < |fs|
    ensures forall b :: b in live ==> !Within(b.addr, fs[i])
  {
    var blocks := SetOf(fs) + live + lost;
    assert fs[i] in SetOf(fs);
    forall b | b in live
      ensures !Within(b.addr, fs[i])
    {
      assert b in blocks && fs[i] in blocks && b != fs[i];
      assert Apart(b, fs[i]);
    }
  }

  class Heap {
    var headers: map<nat, Header>
    var mallocPage: nat

    ghost var free: seq<Block>
    ghost var live: set<Block>
    ghost var lost: set<Block>  // freed while the free list was empty
    ghost var obtained: set<nat>

    ghost predicate Valid()
      reads this
    {
      && IsList(headers, mallocPage, free)
      && LiveIn(headers, live)
      && Partition(free, live, lost, obtained)
      && 0 !in obtained
    }

    constructor ()
      ensures Valid() && free == [] && live == {} && lost == {} && obtained == {}
    {
      headers, mallocPage := map[], 0;
      free, live, lost, obtained := [], {}, {}, {};
    }

    // Writes the header of a region that Logical::Alloc has placed at `base`.
    method MallocAddPage(bytes: nat, base: nat) returns (newHeader: nat)
      requires base > 0 && bytes + HEADER + PAGE_SIZE - 1 < 0x1_0000_0000
      modifies this`headers
      ensures newHeader == base
      ensures headers == old(headers)[base := Header(NewRegion(base, bytes).length, 0, false)]
    {
      var totalSize := (bytes + HEADER + PAGE_SIZE - 1) / PAGE_SIZE * PAGE_SIZE;
      var minSize := 4 * PAGE_SIZE;
      if totalSize < minSize {
        totalSize := minSize;
      }
      newHeader := base;
      headers := headers[newHeader := Header(totalSize - HEADER, 0, false)];
    }

    lemma Next(i: nat)
      requires Valid() && i < |free|
      ensures free[i].addr > 0 && free[i].addr in headers
      ensures headers[free[i].addr] == Header(free[i].length, AddrAt(free, i + 1), false)
      ensures i + 1 < |free| ==> AddrAt(free, i + 1) > 0 && AddrAt(free, i + 1) in headers
      ensures i + 1 < |free| ==> headers[AddrAt(free, i + 1)] == Header(free[i + 1].length, AddrAt(free, i + 2), false)
    {
      assert Linked(headers, free, i);
      assert i + 1 < |free| ==> Linked(headers, free, i + 1);
    }

    lemma First()
      requires Valid()
      ensures mallocPage == AddrAt(free, 0)
      ensures forall i :: 0 <= i < |free| ==> free[i].addr > 0
    {
      forall i | 0 <= i < |free|
        ensures free[i].addr > 0
      {
        assert Linked(headers, free, i);
      }
    }

    // Joins block i of the free list with its successor.
    method JoinNext(ptr: nat, ghost i: nat)
      requires Valid() && i + 1 < |free| && ptr == free[i].addr && free[i].End() == free[i + 1].addr
      modifies this`headers, this`free
      ensures Valid() && free == JoinAt(old(free), i)
    {
      hide Partition, IsList, JoinAt;
      Next(i);
      PartitionSorted(free, live, lost, obtained);
      JoinLinks(headers, mallocPage, free, i);
      PartitionJoin(free, live, lost, obtained, i);
      var next := headers[ptr].next;
      headers := headers[ptr := Header(headers[ptr].length + headers[next].length + HEADER, headers[next].next, false)];
      free := JoinAt(free, i);
    }

    method MallocMerge()
      requires Valid()
      modifies this`headers, this`free
      ensures Valid() && free == Merged(old(free))
    {
      hide Valid, Merged, JoinAt;
      var ptr := mallocPage;
      ghost var i := 0;
      First();
      assert free[..0] + Merged(free[0..]) == Merged(free) by {
        assert free[0..] == free;
      }
      while ptr != 0
        invariant i <= |free| && ptr == AddrAt(free, i)
        invariant Valid()
        invariant free[..i] + Merged(free[i..]) == Merged(old(free))
        decreases |free| - i
      {
        Next(i);
        if headers[ptr].next == ptr + headers[ptr].length + HEADER {
          JoinMerges(free, i);
          JoinNext(ptr, i);
        } else {
          MergeMoves(free, i);
          ptr := headers[ptr].next;
          i := i + 1;
        }
      }
      First();
      MergedEmpty();
      assert i == |free| && free[..i] + [] == free;
    }

    // Unlinks block i of the free list, which stands behind block i - 1, and
    // hands out its first `bytes` bytes.
    method Take(ptr: nat, prevPtr: nat, bytes: nat, ghost i: nat)
      requires Valid() && i < |free| && ptr == free[i].addr && bytes <= free[i].length
      requires prevPtr == if i == 0 then 0 else free[i - 1].addr
      modifies this`headers, this`mallocPage, this`free, this`live
      ensures Valid() && free == TakeFrom(old(free), i, bytes)
      ensures live == old(live) + {Taken(old(free)[i], bytes)} && Taken(old(free)[i], bytes) !in old(live)
    {
      hide Partition, IsList, LiveIn, TakeFrom;
      TakeFacts(i, bytes);
      ghost var before := headers;
      if headers[ptr].length - bytes > HEADER {
        var nextHdr := ptr + bytes + HEADER;
        headers := headers[nextHdr := Header(headers[ptr].length - bytes - HEADER, headers[ptr].next, false)];
        headers := headers[ptr := Header(bytes, nextHdr, false)];
      }
      headers := headers[ptr := headers[ptr].(used := true)];
      if prevPtr != 0 {
        headers := headers[prevPtr := headers[prevPtr].(next := headers[ptr].next)];
      } else {
        mallocPage := headers[ptr].next;
      }
      assert headers == TakenHeaders(before, free, i, bytes);
      live := live + {Taken(free[i], bytes)};
      free := TakeFrom(free, i, bytes);
    }

    lemma TakeFacts(i: nat, n: nat)
      requires Valid() && i < |free| && n <= free[i].length
      ensures Linked(headers, free, i)
      ensures i > 0 ==> Linked(headers, free, i - 1) && free[i - 1].End() <= free[i].addr
      ensures IsList(TakenHeaders(headers, free, i, n), if i == 0 then Successor(free, i, n) else mallocPage, TakeFrom(free, i, n))
      ensures Partition(TakeFrom(free, i, n), live + {Taken(free[i], n)}, lost, obtained) && Taken(free[i], n) !in live
      ensures LiveIn(TakenHeaders(headers, free, i, n), live + {Taken(free[i], n)})
    {
      TakeLinks(headers, mallocPage, free, i, n);
      TakeLive(headers, mallocPage, free, live, lost, obtained, i, n);
      PartitionTake(free, live, lost, obtained, i, n);
      hide Tiles, SetOf, TakenHeaders, TakeFrom;
    }

    // A new region behind the last block, which is prevPtr, of the free list.
    method Grow(prevPtr: nat, bytes: nat, base: nat) returns (ptr: nat)
      requires Valid() && prevPtr == if free == [] then 0 else free[|free| - 1].addr
      requires base > 0 && bytes + HEADER + PAGE_SIZE - 1 < 0x1_0000_0000
      requires forall x :: x in obtained ==> x < base
      modifies this`headers, this`mallocPage, this`free, this`obtained
      ensures Valid() && ptr == base
      ensures free == old(free) + [NewRegion(base, bytes)]
      ensures obtained == old(obtained) + Bytes(NewRegion(base, bytes))
    {
      hide Partition, IsList, LiveIn, NewRegion;
      NewRegionAddr(base, bytes);
      GrowFacts(NewRegion(base, bytes));
      ghost var before := headers;
      ptr := MallocAddPage(bytes, base);
      if prevPtr == 0 {
        mallocPage := ptr;
      } else {
        headers := headers[prevPtr := headers[prevPtr].(next := ptr)];
      }
      assert headers == AppendedHeaders(before, free, NewRegion(base, bytes));
      free := free + [NewRegion(base, bytes)];
      obtained := obtained + Bytes(NewRegion(base, bytes));
    }

    lemma GrowFacts(b: Block)
      requires Valid() && b.addr > 0 && forall x :: x in obtained ==> x < b.addr
      ensures IsList(AppendedHeaders(headers, free, b), if free == [] then b.addr else mallocPage, free + [b])
      ensures LiveIn(AppendedHeaders(headers, free, b), live)
      ensures Partition(free + [b], live, lost, obtained + Bytes(b))
      ensures free != [] ==> Linked(headers, free, |free| - 1) && free[|free| - 1].addr < b.addr
    {
      PartitionSorted(free, live, lost, obtained);
      AppendLive(headers, mallocPage, free, live, lost, obtained, b);
      AppendLinks(headers, mallocPage, free, b);
      PartitionGrow(free, live, lost, obtained, b);
      assert free != [] ==> Linked(headers, free, |free| - 1);
      hide Tiles, SetOf, AppendedHeaders;
    }

    // First fit. `base` is where Logical::Alloc would put a new region.
    method Alloc(bytes: nat, base: nat) returns (result: nat, grew: bool)
      requires Valid()
      requires base > 0 && bytes + HEADER + PAGE_SIZE - 1 < 0x1_0000_0000
      requires forall x :: x in obtained ==> x < base
      modifies this
      ensures Valid() && lost == old(lost)
      ensures grew <==> FirstFit(old(free), bytes) == |old(free)|
      ensures obtained == old(obtained) + if grew then Bytes(NewRegion(base, bytes)) else {}
      ensures FirstFit(Supply(old(free), bytes, base), bytes) < |Supply(old(free), bytes, base)|
      ensures free == TakeFrom(Supply(old(free), bytes, base), FirstFit(Supply(old(free), bytes, base), bytes), bytes)
      ensures var b := Taken(Supply(old(free), bytes, base)[FirstFit(Supply(old(free), bytes, base), bytes)], bytes);
              && bytes <= b.length <= bytes + 16 && result == b.addr + 16
              && b.addr == Supply(old(free), bytes, base)[FirstFit(Supply(old(free), bytes, base), bytes)].addr
              && b !in old(live) && live == old(live) + {b}
      ensures old(NoneEmpty(free, live)) ==>
        (NoneEmpty(free, live) <==>
         bytes > 0 || Supply(old(free), bytes, base)[FirstFit(Supply(old(free), bytes, base), bytes)].length <= 16)
    {
      hide Valid, TakeFrom, Taken, NewRegion, Supply, FirstFit, Bytes, NoneEmpty;
      First();
      RegionFits(base, bytes);
      NewRegionAddr(base, bytes);
      grew := false;
      ghost var supply := Supply(free, bytes, base);
      if mallocPage == 0 {
        var page := Grow(0, bytes, base);
        grew := true;
      }
      First();
      var ptr := mallocPage;
      var prevPtr := 0;
      ghost var i := 0;
      while true
        invariant Valid() && lost == old(lost) && live == old(live)
        invariant obtained == old(obtained) + if grew then Bytes(NewRegion(base, bytes)) else {}
        invariant free == old(free) + if grew then [NewRegion(base, bytes)] else []
        invariant i < |free| && ptr == free[i].addr
        invariant prevPtr == if i == 0 then 0 else free[i - 1].addr
        invariant forall k :: 0 <= k < i ==> free[k].length < bytes
        invariant grew ==> forall k :: 0 <= k < |old(free)| ==> old(free)[k].length < bytes
        decreases if grew then 0 else 1, |free| - i
      {
        Next(i);
        if headers[ptr].length >= bytes {
          FirstFitUnique(free, bytes, i);
          AllocFrom(old(free), bytes, base, grew, i);
          AllocNoneEmpty(old(free), live, bytes, base, i);
          Take(ptr, prevPtr, bytes, i);
          return ptr + HEADER, grew;
        }
        prevPtr := ptr;
        ptr := headers[ptr].next;
        i := i + 1;
        if ptr == 0 {
          First();
          ptr := Grow(prevPtr, bytes, base);
          grew := true;
        }
      }
    }

    // Puts a block that is no longer in use in front of block i of the list.
    method Insert(hdr: nat, prevPtr: nat, ghost b: Block, ghost i: nat)
      requires Valid() && b in live && hdr == b.addr && hdr > 0 && i == InsertAt(free, b)
      requires prevPtr == if i == 0 then 0 else free[i - 1].addr
      modifies this`headers, this`mallocPage, this`free, this`live
      ensures Valid() && free == Inserted(old(free), b) && live == old(live) - {b}
    {
      hide Partition, IsList, LiveIn, Inserted, InsertAt;
      InsertFacts(b);
      ghost var before := headers;
      headers := headers[hdr := headers[hdr].(used := false)];
      if prevPtr == 0 {
        headers := headers[hdr := headers[hdr].(next := mallocPage)];
        mallocPage := hdr;
      } else {
        headers := headers[hdr := headers[hdr].(next := headers[prevPtr].next)];
        headers := headers[prevPtr := headers[prevPtr].(next := hdr)];
      }
      assert headers == InsertedHeaders(before, free, b, i);
      free := Inserted(free, b);
      live := live - {b};
    }

    lemma InsertFacts(b: Block)
      requires Valid() && b in live && b.addr > 0
      ensures var i := InsertAt(free, b);
              && i <= |free| && (i > 0 ==> Linked(headers, free, i - 1) && free[i - 1].addr != b.addr)
              && IsList(InsertedHeaders(headers, free, b, i), if i == 0 then b.addr else mallocPage, Inserted(free, b))
              && LiveIn(InsertedHeaders(headers, free, b, i), live - {b})
              && Partition(Inserted(free, b), live - {b}, lost, obtained)
              && mallocPage == AddrAt(free, 0)
      ensures b.addr in headers && headers[b.addr].length == b.length
    {
      InsertLive(headers, mallocPage, free, live, lost, obtained, b);
      PartitionSorted(free, live, lost, obtained);
      InsertLinks(headers, mallocPage, free, b);
      PartitionInsert(free, live, lost, obtained, b);
      assert InsertAt(free, b) > 0 ==> Linked(headers, free, InsertAt(free, b) - 1);
      hide Partition, Sorted, Inserted, InsertedHeaders, InsertAt;
    }

    // Free. A header that is not marked used is reported as a double free. A
    // block freed while the list is empty is dropped.
    method Free(ptr: nat) returns (freed: bool)
      requires Valid() && ptr > HEADER && ptr - HEADER in headers
      modifies this
      ensures Valid() && obtained == old(obtained)
      ensures freed == old(headers[ptr - HEADER].used)
      ensures !freed ==> free == old(free) && live == old(live) && lost == old(lost) && headers == old(headers)
      ensures freed ==>
                var b := Block(ptr - HEADER, old(headers[ptr - HEADER].length));
                && b in old(live) && live == old(live) - {b}
                && free == (if old(free) == [] then [] else Merged(Inserted(old(free), b)))
                && lost == old(lost) + (if old(free) == [] then {b} else {})
      ensures freed && old(free) != [] ==>
                && Coalesced(free)
                && TotalBytes(free) == TotalBytes(old(free)) + HEADER + old(headers[ptr - HEADER].length)
      ensures old(NoneEmpty(free, live)) ==> NoneEmpty(free, live)
    {
      hide Valid, InsertAt, Inserted, Merged, Coalesced, TotalBytes, NoneEmpty;
      var hdr := ptr - HEADER;
      if !headers[hdr].used {
        return false;
      }
      ghost var b := Block(hdr, headers[hdr].length);
      UsedIsLive(hdr);
      if NoneEmpty(free, live) {
        FreedNoneEmpty(free, live, b);
      }
      First();
      freed := true;
      if hdr < mallocPage {
        InsertUnique(free, b, 0);
        Insert(hdr, 0, b, 0);
      } else if mallocPage != 0 {
        var page := mallocPage;
        ghost var i := 0;
        while true
          invariant Valid() && free == old(free) && live == old(live) && lost == old(lost)
          invariant obtained == old(obtained)
          invariant i < |free| && page == free[i].addr
          invariant forall k :: 0 <= k <= i ==> free[k].addr <= b.addr
          decreases |free| - i
        {
          Next(i);
          if headers[page].next > hdr || headers[page].next == 0 {
            InsertUnique(free, b, i + 1);
            Insert(hdr, page, b, i + 1);
            break;
          }
          page := headers[page].next;
          i := i + 1;
        }
      } else {
        Lose(hdr, b);
      }
      FreeSorted();
      InsertTotal(old(free), b);
      MergedCoalesced(free);
      MallocMerge();
      MergedEmpty();
    }

    // Free, live and lost blocks add up to the bytes obtained.
    lemma Conserved()
      requires Valid()
      ensures SumOf(SetOf(free) + live + lost) == |obtained|
    {
      TilesSum(SetOf(free) + live + lost, obtained);
    }

    lemma FreeSorted()
      requires Valid()
      ensures Sorted(free)
    {
    }

    // The header is marked unused, but no list receives it.
    method Lose(hdr: nat, ghost b: Block)
      requires Valid() && b in live && hdr == b.addr && free == [] && hdr in headers
      modifies this`headers, this`live, this`lost
      ensures Valid() && live == old(live) - {b} && lost == old(lost) + {b}
    {
      LoseLive(headers, live, b);
      PartitionLose(free, live, lost, obtained, b);
      hide Partition, LiveIn;
      headers := headers[hdr := headers[hdr].(used := false)];
      live := live - {b};
      lost := lost + {b};
    }

    lemma LiveHeader(b: Block)
      requires Valid() && b in live
      ensures b.addr > 0 && b.addr in headers && headers[b.addr].used && headers[b.addr].length == b.length
    {
      TilesHas(SetOf(free) + live + lost, obtained, b);
    }

    lemma UsedIsLive(a: nat)
      requires Valid() && a in headers && headers[a].used
      ensures Block(a, headers[a].length) in live
    {
    }
  }

  // Alloc and Free of the result on a coalesced list. Without growth they
  // restore the list exactly when a block is left on it in between; with growth
  // exactly when the list was empty and the request takes the whole region,
  // which is then lost.
  method AllocAndFree(heap: Heap, bytes: nat, base: nat) returns (grew: bool)
    requires heap.Valid() && Coalesced(heap.free)
    requires base > 0 && bytes + HEADER + PAGE_SIZE - 1 < 0x1_0000_0000
    requires forall x :: x in heap.obtained ==> x < base
    modifies heap
    ensures heap.Valid() && heap.live == old(heap.live)
    ensures grew <==> FirstFit(old(heap.free), bytes) == |old(heap.free)|
    ensures !grew ==>
              (heap.free == old(heap.free) <==> TakeFrom(old(heap.free), FirstFit(old(heap.free), bytes), bytes) != [])
    ensures grew ==> (heap.free == old(heap.free) <==> old(heap.free) == [] && !Splits(NewRegion(base, bytes), bytes))
  {
    hide Heap.Valid, TakeFrom, Taken, Inserted, Merged, Coalesced, FirstFit, TotalBytes, Splits, NewRegion;
    ghost var fs := heap.free;
    if FirstFit(fs, bytes) < |fs| {
      FreeUndoesAlloc(fs, bytes);
    } else {
      GrowthShows(fs, bytes, base);
    }
    var ptr;
    ptr, grew := heap.Alloc(bytes, base);
    ghost var b := Taken(Supply(fs, bytes, base)[FirstFit(Supply(fs, bytes, base), bytes)], bytes);
    heap.LiveHeader(b);
    var freed := heap.Free(ptr);
  }

  lemma FreedNoneEmpty(fs: seq<Block>, live: set<Block>, b: Block)
    requires NoneEmpty(fs, live) && b in live
    ensures NoneEmpty(if fs == [] then [] else Merged(Inserted(fs, b)), live - {b})
  {
    InsertNoneEmpty(fs, live, b);
  }

  // A request of 0 bytes leaves an empty block behind, which can become free.
  method EmptyFreeBlock(base: nat) returns (heap: Heap)
    requires base > 0
    ensures heap.Valid() && heap.free != [] && heap.free[0] == Block(base, 0)
  {
    hide Heap.Valid;
    heap := new Heap();
    var empty, grew := heap.Alloc(0, base);
    assert heap.free == [Block(base + 16, 16352)];
    var next, again := heap.Alloc(8, base + 16384);
    assert heap.free == [Block(base + 40, 16328)];
    heap.LiveHeader(Block(base, 0));
    var freed := heap.Free(empty);
  }

  // The free blocks a request chooses from: the list, and a new region if no
  // block on it is large enough.
  function Supply(fs: seq<Block>, bytes: nat, base: nat): seq<Block> {
    if FirstFit(fs, bytes) < |fs| then fs else fs + [NewRegion(base, bytes)]
  }

  // A request that grows the list leaves it with more bytes once it is freed,
  // unless nothing is left of the list.
  lemma GrowthShows(fs: seq<Block>, bytes: nat, base: nat)
    requires FirstFit(fs, bytes) == |fs|
    ensures
      var gs, i := Supply(fs, bytes, base), |fs|;
      && |gs| == i + 1 && FirstFit(gs, bytes) == i
      && (TakeFrom(gs, i, bytes) == [] <==> fs == [] && !Splits(NewRegion(base, bytes), bytes))
      && TotalBytes(TakeFrom(gs, i, bytes)) + HEADER + Taken(gs[i], bytes).length > TotalBytes(fs)
  {
    hide FirstFit, NewRegion, TotalBytes;
    var gs := fs + [NewRegion(base, bytes)];
    RegionFits(base, bytes);
    FirstFitUnique(gs, bytes, |fs|);
    TakeTotal(gs, |fs|, bytes);
    TotalMiddle(fs, NewRegion(base, bytes), []);
    assert gs + [] == gs;
  }

  lemma AllocNoneEmpty(fs: seq<Block>, live: set<Block>, bytes: nat, base: nat, i: nat)
    requires var gs := Supply(fs, bytes, base); i < |gs| && gs[i].length >= bytes
    ensures var gs := Supply(fs, bytes, base);
            NoneEmpty(fs, live) ==>
              (NoneEmpty(TakeFrom(gs, i, bytes), live + {Taken(gs[i], bytes)}) <==> bytes > 0 || gs[i].length <= 16)
  {
    hide TakeFrom, Taken;
    var gs := Supply(fs, bytes, base);
    if NoneEmpty(fs, live) {
      RegionFits(base, bytes);
      TakeNoneEmpty(gs, live, i, bytes);
    }
  }

  lemma {:induction false} FirstFitUnique(fs: seq<Block>, n: nat, i: nat)
    requires i <= |fs| && (i < |fs| ==> fs[i].length >= n)
    requires forall k :: 0 <= k < i ==> fs[k].length < n
    ensures FirstFit(fs, n) == i
  {
    if i > 0 {
      FirstFitUnique(fs[1..], n, i - 1);
    }
  }

  lemma {:induction false} AllocFrom(fs: seq<Block>, bytes: nat, base: nat, grew: bool, i: nat)
    requires var gs := fs + if grew then [NewRegion(base, bytes)] else [];
             i < |gs| && FirstFit(gs, bytes) == i && gs[i].length >= bytes
    requires grew ==> forall k :: 0 <= k < |fs| ==> fs[k].length < bytes
    ensures Supply(fs, bytes, base) == fs + if grew then [NewRegion(base, bytes)] else []
    ensures grew <==> FirstFit(fs, bytes) == |fs|
    ensures Taken(Supply(fs, bytes, base)[i], bytes).addr == Supply(fs, bytes, base)[i].addr
    ensures bytes <= Taken(Supply(fs, bytes, base)[i], bytes).length <= bytes + 16
  {
    TakenLength((fs + if grew then [NewRegion(base, bytes)] else [])[i], bytes);
    if grew {
      FirstFitUnique(fs, bytes, |fs|);
    } else {
      assert fs + [] == fs;
    }
  }

  lemma {:induction false} NewRegionAddr(base: nat, bytes: nat)
    ensures NewRegion(base, bytes).addr == base
  {
  }
}
