// The kernel heap as a sequence of free blocks (kernel/Core/Memory.cpp).
//
// A block is a 16-byte header followed by `length` bytes.
module HeapBlocks {
  import Runs

  const HEADER := 16
  const PAGE_SIZE := 4096

  datatype Block = Block(addr: nat, length: nat) {
    function End(): nat { addr + HEADER + length }
  }

  // --- Tiling ---

  predicate Within(x: nat, b: Block) {
    b.addr <= x < b.End()
  }

  function Bytes(b: Block): set<nat> {
    set x: nat | b.addr <= x < b.End() && Within(x, b)
  }

  predicate Apart(b: Block, c: Block) {
    b.End() <= c.addr || c.End() <= b.addr
  }

  // The blocks, headers included, cover the obtained bytes exactly once.
  ghost predicate Tiles(blocks: set<Block>, obtained: set<nat>) {
    && (forall b, c :: b in blocks && c in blocks && b != c ==> Apart(b, c))
    && (forall b, x :: b in blocks && Within(x, b) ==> x in obtained)
    && (forall x :: x in obtained ==> Covered(blocks, x))
  }

  ghost predicate Covered(blocks: set<Block>, x: nat) {
    exists b :: b in blocks && Within(x, b)
  }

  // A block of `n` bytes cut off the front of b, and the rest.
  function Front(b: Block, n: nat): Block { Block(b.addr, n) }

  function Rest(b: Block, n: nat): Block
    requires n + HEADER <= b.length
  {
    Block(b.addr + HEADER + n, b.length - n - HEADER)
  }

  // Replacing some blocks by others that hold the same bytes.
  lemma {:induction false} TilesReplace(blocks: set<Block>, obtained: set<nat>, out: set<Block>, in_: set<Block>)
    requires Tiles(blocks, obtained) && out <= blocks
    requires forall b, c :: b in in_ && c in in_ && b != c ==> Apart(b, c)
    requires forall x :: Covered(out, x) <==> Covered(in_, x)
    ensures Tiles(blocks - out + in_, obtained)
  {
    var blocks' := blocks - out + in_;
    forall x | x in obtained
      ensures Covered(blocks', x)
    {
      CoveredAfter(blocks, out, in_, x);
    }
    forall b, x | b in blocks' && Within(x, b)
      ensures x in obtained
    {
      if b in in_ {
        assert Covered(in_, x);
        var c :| c in out && Within(x, c);
      }
    }
    forall b, c | b in blocks' && c in blocks' && b != c
      ensures Apart(b, c)
    {
      if b in in_ && c !in in_ {
        ApartFromNew(blocks, out, in_, b, c);
      } else if c in in_ && b !in in_ {
        ApartFromNew(blocks, out, in_, c, b);
      }
    }
  }

  lemma {:induction false} CoveredAfter(blocks: set<Block>, out: set<Block>, in_: set<Block>, x: nat)
    requires Covered(blocks, x) && (Covered(out, x) ==> Covered(in_, x))
    ensures Covered(blocks - out + in_, x)
  {
    var b :| b in blocks && Within(x, b);
    if b in out {
      var c :| c in in_ && Within(x, c);
      assert c in blocks - out + in_;
    } else {
      assert b in blocks - out + in_;
    }
  }

  lemma {:induction false} ApartFromNew(blocks: set<Block>, out: set<Block>, in_: set<Block>, b: Block, c: Block)
    requires forall d, e :: d in blocks && e in blocks && d != e ==> Apart(d, e)
    requires out <= blocks && b in in_ && c in blocks && c !in out
    requires forall x :: Covered(in_, x) ==> Covered(out, x)
    ensures Apart(b, c)
  {
    forall x: nat | Within(x, b)
      ensures !Within(x, c)
    {
      assert Covered(in_, x);
      var d :| d in out && Within(x, d);
      assert Apart(c, d);
    }
    assert Within(b.addr, b) && Within(b.End() - 1, b);
    if !Apart(b, c) && b.addr < c.addr {
      assert Within(c.addr, b) && Within(c.addr, c);
      assert false;
    }
  }

  lemma {:induction false} TilesSplit(blocks: set<Block>, obtained: set<nat>, b: Block, n: nat)
    requires Tiles(blocks, obtained) && b in blocks && n + HEADER <= b.length
    ensures Tiles(blocks - {b} + {Front(b, n), Rest(b, n)}, obtained)
  {
    PairCovers(Front(b, n), Rest(b, n), b);
    TilesReplace(blocks, obtained, {b}, {Front(b, n), Rest(b, n)});
  }

  // Two adjacent blocks become one.
  function Joined(b: Block, c: Block): Block {
    Block(b.addr, b.length + HEADER + c.length)
  }

  lemma {:induction false} TilesJoin(blocks: set<Block>, obtained: set<nat>, b: Block, c: Block)
    requires Tiles(blocks, obtained) && b in blocks && c in blocks && b.End() == c.addr
    ensures Tiles(blocks - {b, c} + {Joined(b, c)}, obtained)
  {
    PairCovers(b, c, Joined(b, c));
    TilesReplace(blocks, obtained, {b, c}, {Joined(b, c)});
  }

  lemma {:induction false} PairCovers(b: Block, c: Block, whole: Block)
    requires b.End() == c.addr && whole.addr == b.addr && whole.End() == c.End()
    ensures forall x :: Covered({b, c}, x) <==> Covered({whole}, x)
  {
    forall x: nat
      ensures Covered({b, c}, x) <==> Covered({whole}, x)
    {
      assert b in {b, c} && c in {b, c} && whole in {whole};
      assert Within(x, whole) <==> Within(x, b) || Within(x, c);
    }
  }

  lemma {:induction false} TilesGrow(blocks: set<Block>, obtained: set<nat>, b: Block)
    requires Tiles(blocks, obtained) && forall x :: x in obtained ==> x < b.addr
    ensures Tiles(blocks + {b}, obtained + Bytes(b))
    ensures b !in blocks && forall c :: c in blocks ==> c.End() <= b.addr
  {
    var obtained' := obtained + Bytes(b);
    forall c | c in blocks
      ensures c.End() <= b.addr
    {
      assert Within(c.End() - 1, c);
    }
    forall x | x in obtained'
      ensures Covered(blocks + {b}, x)
    {
      if x in obtained {
        var c :| c in blocks && Within(x, c);
        assert c in blocks + {b};
      } else {
        assert Within(x, b);
      }
    }
  }

  // The sizes of some blocks, headers included.
  ghost function SumOf(blocks: set<Block>): nat {
    if blocks == {} then 0
    else
      var b :| b in blocks;
      HEADER + b.length + SumOf(blocks - {b})
  }

  lemma {:induction false} BytesCount(b: Block)
    ensures |Bytes(b)| == HEADER + b.length
  {
    Runs.RangeCount(b.addr, HEADER + b.length);
    forall x: nat
      ensures x in Bytes(b) <==> x in Runs.Range(b.addr, HEADER + b.length)
    {
      assert Within(x, b) <==> Runs.InRange(x, b.addr, HEADER + b.length);
    }
    assert Bytes(b) == Runs.Range(b.addr, HEADER + b.length);
  }

  // Blocks that tile the obtained bytes add up to their number.
  lemma {:induction false} TilesSum(blocks: set<Block>, obtained: set<nat>)
    requires Tiles(blocks, obtained)
    ensures SumOf(blocks) == |obtained|
    decreases blocks
  {
    if blocks == {} {
      assert forall x :: x in obtained ==> Covered(blocks, x);
      assert obtained == {};
    } else {
      var b :| b in blocks && SumOf(blocks) == HEADER + b.length + SumOf(blocks - {b});
      TilesWithout(blocks, obtained, b);
      TilesSum(blocks - {b}, obtained - Bytes(b));
      BytesCount(b);
      assert Bytes(b) <= obtained;
      assert obtained == (obtained - Bytes(b)) + Bytes(b);
    }
  }

  lemma {:induction false} TilesWithout(blocks: set<Block>, obtained: set<nat>, b: Block)
    requires Tiles(blocks, obtained) && b in blocks
    ensures Tiles(blocks - {b}, obtained - Bytes(b))
    ensures Bytes(b) <= obtained
  {
    forall c, x | c in blocks - {b} && Within(x, c)
      ensures x in obtained - Bytes(b)
    {
      assert Apart(b, c);
    }
    forall x | x in obtained - Bytes(b)
      ensures Covered(blocks - {b}, x)
    {
      var c :| c in blocks && Within(x, c);
      assert c in blocks - {b};
    }
  }

  // --- The free list ---

  // Sorted by address, not overlapping.
  ghost predicate Sorted(fs: seq<Block>) {
    forall i, j :: 0 <= i < j < |fs| ==> fs[i].End() <= fs[j].addr
  }

  // No two neighbours touch.
  ghost predicate Coalesced(fs: seq<Block>) {
    forall i, j :: 0 <= i < j < |fs| ==> fs[i].End() < fs[j].addr
  }

  function TotalBytes(fs: seq<Block>): nat {
    if fs == [] then 0 else HEADER + fs[0].length + TotalBytes(fs[1..])
  }

  // First fit: the first block of at least n bytes; |fs| if there is none.
  function FirstFit(fs: seq<Block>, n: nat): (i: nat)
    ensures i <= |fs|
    ensures i < |fs| ==> fs[i].length >= n
    ensures forall k :: 0 <= k < i ==> fs[k].length < n
  {
    if fs == [] || fs[0].length >= n then 0 else FirstFit(fs[1..], n) + 1
  }

  predicate Splits(b: Block, n: nat) {
    b.length >= n && b.length - n > HEADER
  }

  function Taken(b: Block, n: nat): Block {
    if Splits(b, n) then Front(b, n) else b
  }

  // The free list after block i has served a request for n bytes.
  function TakeFrom(fs: seq<Block>, i: nat, n: nat): seq<Block>
    requires i < |fs|
  {
    if Splits(fs[i], n) then fs[i := Rest(fs[i], n)] else fs[..i] + fs[i + 1..]
  }

  // The region that MallocAddPage requests.
  function RegionSize(n: nat): nat {
    var total := (n + HEADER + PAGE_SIZE - 1) / PAGE_SIZE * PAGE_SIZE;
    if total < 4 * PAGE_SIZE then 4 * PAGE_SIZE else total
  }

  function NewRegion(base: nat, n: nat): Block {
    Block(base, RegionSize(n) - HEADER)
  }

  lemma {:induction false} RegionFits(base: nat, n: nat)
    ensures NewRegion(base, n).length >= n && NewRegion(base, n).End() == base + RegionSize(n)
    ensures RegionSize(n) % 4096 == 0 && RegionSize(n) >= 16384 && RegionSize(n) >= n + 16
    ensures RegionSize(n) == 16384 || RegionSize(n) < n + 16 + 4096
  {
    var q := (n + HEADER + PAGE_SIZE - 1) / PAGE_SIZE;
    assert q * PAGE_SIZE + PAGE_SIZE > n + HEADER + PAGE_SIZE - 1;
  }

  // Where Free puts a block: behind all blocks of lower address.
  function InsertAt(fs: seq<Block>, b: Block): (i: nat)
    ensures i <= |fs|
    ensures forall k :: 0 <= k < i ==> fs[k].addr <= b.addr
    ensures i < |fs| ==> b.addr < fs[i].addr
  {
    if fs == [] || b.addr < fs[0].addr then 0 else InsertAt(fs[1..], b) + 1
  }

  function Inserted(fs: seq<Block>, b: Block): seq<Block> {
    fs[..InsertAt(fs, b)] + [b] + fs[InsertAt(fs, b)..]
  }

  // MallocMerge.
  function Merged(fs: seq<Block>): (r: seq<Block>)
    ensures fs != [] ==> r != [] && r[0].addr == fs[0].addr
    decreases |fs|
  {
    if |fs| < 2 then fs
    else if fs[0].End() == fs[1].addr then Merged([Joined(fs[0], fs[1])] + fs[2..])
    else [fs[0]] + Merged(fs[1..])
  }

  lemma {:induction false} MergedCoalesced(fs: seq<Block>)
    requires Sorted(fs)
    ensures Coalesced(Merged(fs)) && TotalBytes(Merged(fs)) == TotalBytes(fs)
    ensures fs != [] ==> forall k :: 0 <= k < |Merged(fs)| ==> Merged(fs)[k].addr >= fs[0].addr
    decreases |fs|
  {
    if |fs| >= 2 {
      if fs[0].End() == fs[1].addr {
        var gs := [Joined(fs[0], fs[1])] + fs[2..];
        assert gs[1..] == fs[2..] && fs[1..][1..] == fs[2..] && fs[1..][0] == fs[1];
        MergedCoalesced(gs);
      } else {
        MergedCoalesced(fs[1..]);
        assert ([fs[0]] + Merged(fs[1..]))[1..] == Merged(fs[1..]);
      }
    }
  }

  lemma {:induction false} MergedOfCoalesced(fs: seq<Block>)
    requires Coalesced(fs)
    ensures Merged(fs) == fs
  {
    if |fs| >= 2 {
      MergedOfCoalesced(fs[1..]);
    }
  }

  // Merging joins one adjacent pair in an otherwise coalesced list.
  lemma {:induction false} MergedPair(fs: seq<Block>, i: nat)
    requires i + 1 < |fs| && fs[i].End() == fs[i + 1].addr
    requires Coalesced(fs[..i] + [Joined(fs[i], fs[i + 1])] + fs[i + 2..])
    ensures Merged(fs) == fs[..i] + [Joined(fs[i], fs[i + 1])] + fs[i + 2..]
    decreases i
  {
    var gs := fs[..i] + [Joined(fs[i], fs[i + 1])] + fs[i + 2..];
    if i == 0 {
      assert gs == [Joined(fs[0], fs[1])] + fs[2..];
      MergedOfCoalesced(gs);
    } else {
      assert fs[1..][..i - 1] == fs[1..i] && fs[1..][i + 1..] == fs[i + 2..];
      assert gs[1..] == fs[1..][..i - 1] + [Joined(fs[i], fs[i + 1])] + fs[1..][i + 1..];
      assert fs[0] == gs[0] && gs[0].End() < gs[1].addr == fs[1].addr;
      MergedPair(fs[1..], i - 1);
      assert gs == [gs[0]] + gs[1..];
    }
  }

  // --- What the operations keep ---

  lemma {:induction false} TotalConcat(a: seq<Block>, b: seq<Block>)
    ensures TotalBytes(a + b) == TotalBytes(a) + TotalBytes(b)
  {
    if a == [] {
      assert a + b == b;
    } else {
      TotalConcat(a[1..], b);
      assert (a + b)[1..] == a[1..] + b;
    }
  }

  lemma {:induction false} TotalMiddle(a: seq<Block>, b: Block, c: seq<Block>)
    ensures TotalBytes(a + [b] + c) == TotalBytes(a) + HEADER + b.length + TotalBytes(c)
  {
    TotalConcat(a + [b], c);
    TotalConcat(a, [b]);
    assert TotalBytes([b]) == HEADER + b.length;
  }

  // The bytes of the list go down by the block taken, header included.
  lemma {:induction false} TakeTotal(fs: seq<Block>, i: nat, n: nat)
    requires i < |fs| && n <= fs[i].length
    ensures TotalBytes(TakeFrom(fs, i, n)) + HEADER + Taken(fs[i], n).length == TotalBytes(fs)
    ensures Taken(fs[i], n).length >= n
  {
    hide TotalBytes;
    var a, c := fs[..i], fs[i + 1..];
    assert fs == a + [fs[i]] + c;
    TotalMiddle(a, fs[i], c);
    if Splits(fs[i], n) {
      assert fs[i := Rest(fs[i], n)] == a + [Rest(fs[i], n)] + c;
      TotalMiddle(a, Rest(fs[i], n), c);
    } else {
      TotalConcat(a, c);
    }
  }

  // What is handed out is at most one header longer than the request.
  lemma TakenLength(b: Block, n: nat)
    requires n <= b.length
    ensures Taken(b, n).addr == b.addr && n <= Taken(b, n).length <= n + 16
    ensures Taken(b, n).length == 0 <==> n == 0 && (b.length == 0 || b.length > 16)
  {
  }

  ghost predicate NoneEmpty(fs: seq<Block>, live: set<Block>) {
    (forall k :: 0 <= k < |fs| ==> fs[k].length > 0) && forall b :: b in live ==> b.length > 0
  }

  // A remainder of exactly one header is not split off, so that only a request
  // of 0 bytes can make an empty block.
  lemma {:induction false} TakeNoneEmpty(fs: seq<Block>, live: set<Block>, i: nat, n: nat)
    requires NoneEmpty(fs, live) && i < |fs| && n <= fs[i].length
    ensures NoneEmpty(TakeFrom(fs, i, n), live + {Taken(fs[i], n)}) <==> n > 0 || fs[i].length <= 16
  {
    assert Taken(fs[i], n) in live + {Taken(fs[i], n)};
  }

  lemma {:induction false} InsertNoneEmpty(fs: seq<Block>, live: set<Block>, b: Block)
    requires NoneEmpty(fs, live) && b in live
    ensures NoneEmpty(Inserted(fs, b), live - {b}) && NoneEmpty(Merged(Inserted(fs, b)), live - {b})
  {
    hide InsertAt;
    MergedNoneEmpty(Inserted(fs, b), live - {b});
  }

  lemma {:induction false} MergedNoneEmpty(fs: seq<Block>, live: set<Block>)
    requires NoneEmpty(fs, live)
    ensures NoneEmpty(Merged(fs), live)
    decreases |fs|
  {
    if |fs| >= 2 {
      if fs[0].End() == fs[1].addr {
        MergedNoneEmpty([Joined(fs[0], fs[1])] + fs[2..], live);
      } else {
        MergedNoneEmpty(fs[1..], live);
      }
    }
  }

  // Taking a block keeps the order and adjoins nothing.
  lemma {:induction false} TakeOrder(fs: seq<Block>, i: nat, n: nat)
    requires i < |fs| && n <= fs[i].length
    ensures Sorted(fs) ==> Sorted(TakeFrom(fs, i, n))
    ensures Coalesced(fs) ==> Coalesced(TakeFrom(fs, i, n))
  {
    var gs := TakeFrom(fs, i, n);
    forall k | 0 <= k < |gs|
      ensures var m := if Splits(fs[i], n) || k < i then k else k + 1;
              gs[k].addr >= fs[m].addr && gs[k].End() == fs[m].End()
    {
    }
  }

  lemma {:induction false} InsertTotal(fs: seq<Block>, b: Block)
    ensures TotalBytes(Inserted(fs, b)) == TotalBytes(fs) + HEADER + b.length
  {
    hide TotalBytes, InsertAt;
    var i := InsertAt(fs, b);
    assert fs == fs[..i] + fs[i..];
    TotalConcat(fs[..i], fs[i..]);
    TotalMiddle(fs[..i], b, fs[i..]);
  }

  lemma {:induction false} InsertOrder(fs: seq<Block>, b: Block)
    requires Sorted(fs) && forall k :: 0 <= k < |fs| ==> Apart(fs[k], b)
    ensures Sorted(Inserted(fs, b))
  {
    hide InsertAt, Inserted;
    var i, gs := InsertAt(fs, b), Inserted(fs, b);
    InsertedAt(fs, b);
    forall j, k | 0 <= j < k < |gs|
      ensures gs[j].End() <= gs[k].addr
    {
      assert gs[j] == if j < i then fs[j] else if j == i then b else fs[j - 1];
      assert gs[k] == if k < i then fs[k] else if k == i then b else fs[k - 1];
      if j < i {
        assert Apart(fs[j], b) && fs[j].End() <= b.addr;
      }
      if i < k {
        assert k - 1 > i ==> fs[i].End() <= fs[k - 1].addr;
        assert Apart(fs[k - 1], b) && b.End() <= fs[k - 1].addr;
      }
    }
  }

  lemma InsertedAt(fs: seq<Block>, b: Block)
    ensures
      var i, gs := InsertAt(fs, b), Inserted(fs, b);
      |gs| == |fs| + 1 && forall k :: 0 <= k < |gs| ==> gs[k] == if k < i then fs[k] else if k == i then b else fs[k - 1]
  {
    hide InsertAt;
  }

  // Freeing what a request without growth has just been given restores the
  // free list, provided a block was left on it.
  lemma {:induction false} FreeUndoesAlloc(fs: seq<Block>, n: nat)
    requires Coalesced(fs) && FirstFit(fs, n) < |fs|
    ensures var i := FirstFit(fs, n);
            Merged(Inserted(TakeFrom(fs, i, n), Taken(fs[i], n))) == fs
  {
    hide FirstFit, InsertAt, Merged;
    var i := FirstFit(fs, n);
    if Splits(fs[i], n) {
      FreeUndoesSplit(fs, i, n);
    } else {
      FreeUndoesRemoval(fs, i, n);
    }
  }

  lemma {:induction false} FreeUndoesRemoval(fs: seq<Block>, i: nat, n: nat)
    requires Coalesced(fs) && i < |fs| && !Splits(fs[i], n)
    ensures Merged(Inserted(TakeFrom(fs, i, n), Taken(fs[i], n))) == fs
  {
    hide InsertAt, Merged;
    var gs := fs[..i] + fs[i + 1..];
    InsertUnique(gs, fs[i], i);
    assert gs[..i] + [fs[i]] + gs[i..] == fs;
    MergedOfCoalesced(fs);
  }

  lemma {:induction false} FreeUndoesSplit(fs: seq<Block>, i: nat, n: nat)
    requires Coalesced(fs) && i < |fs| && Splits(fs[i], n)
    ensures Merged(Inserted(TakeFrom(fs, i, n), Taken(fs[i], n))) == fs
  {
    hide InsertAt, Merged, Coalesced;
    var f, r := Front(fs[i], n), Rest(fs[i], n);
    var gs := fs[i := r];
    SplitInserts(fs, i, n);
    var hs := gs[..i] + [f] + gs[i..];
    assert hs[i] == f && hs[i + 1] == r && Joined(f, r) == fs[i];
    assert hs[..i] == fs[..i] && hs[i + 2..] == fs[i + 1..];
    assert fs[..i] + [fs[i]] + fs[i + 1..] == fs;
    MergedPair(hs, i);
  }

  lemma {:induction false} SplitInserts(fs: seq<Block>, i: nat, n: nat)
    requires Coalesced(fs) && i < |fs| && Splits(fs[i], n)
    ensures InsertAt(fs[i := Rest(fs[i], n)], Front(fs[i], n)) == i
  {
    hide InsertAt;
    InsertUnique(fs[i := Rest(fs[i], n)], Front(fs[i], n), i);
  }

  lemma {:induction false} InsertUnique(fs: seq<Block>, b: Block, i: nat)
    requires i <= |fs| && (i < |fs| ==> b.addr < fs[i].addr)
    requires forall k :: 0 <= k < i ==> fs[k].addr <= b.addr
    ensures InsertAt(fs, b) == i
  {
    if i > 0 {
      InsertUnique(fs[1..], b, i - 1);
    }
  }

  ghost function SetOf(fs: seq<Block>): set<Block> {
    set b | b in fs
  }

  // The list after blocks i and i + 1 have been joined.
  function JoinAt(fs: seq<Block>, i: nat): (r: seq<Block>)
    requires i + 1 < |fs|
    ensures |r| == |fs| - 1 && r[i].addr == fs[i].addr
  {
    fs[..i] + [Joined(fs[i], fs[i + 1])] + fs[i + 2..]
  }

  lemma {:induction false} JoinOrder(fs: seq<Block>, i: nat)
    requires Sorted(fs) && i + 1 < |fs| && fs[i].End() == fs[i + 1].addr
    ensures Sorted(JoinAt(fs, i))
  {
    var gs := JoinAt(fs, i);
    forall j, k | 0 <= j < k < |gs|
      ensures gs[j].End() <= gs[k].addr
    {
      var j', k' := if j < i then j else j + 1, if k <= i then k else k + 1;
      assert gs[j].End() == fs[j'].End() && gs[k].addr == fs[k'].addr;
    }
  }

  lemma {:induction false} SortedDistinct(fs: seq<Block>)
    requires Sorted(fs)
    ensures forall i, j :: 0 <= i < |fs| && 0 <= j < |fs| && fs[i].addr == fs[j].addr ==> i == j
  {
  }

  lemma {:induction false} SetConcat(a: seq<Block>, b: seq<Block>)
    ensures SetOf(a + b) == SetOf(a) + SetOf(b)
  {
  }

  lemma {:induction false} SetMiddle(a: seq<Block>, b: Block, c: seq<Block>)
    ensures SetOf(a + [b] + c) == SetOf(a) + {b} + SetOf(c)
  {
    SetConcat(a + [b], c);
    SetConcat(a, [b]);
    assert SetOf([b]) == {b};
  }

  // Block i occurs nowhere else in a sorted list.
  lemma {:induction false} SetWithout(fs: seq<Block>, i: nat)
    requires Sorted(fs) && i < |fs|
    ensures SetOf(fs) == SetOf(fs[..i] + fs[i + 1..]) + {fs[i]}
    ensures fs[i] !in SetOf(fs[..i] + fs[i + 1..])
  {
    assert fs == fs[..i] + [fs[i]] + fs[i + 1..];
    SetMiddle(fs[..i], fs[i], fs[i + 1..]);
    SetConcat(fs[..i], fs[i + 1..]);
  }

  lemma {:induction false} JoinSet(fs: seq<Block>, i: nat)
    requires Sorted(fs) && i + 1 < |fs|
    ensures SetOf(JoinAt(fs, i)) == SetOf(fs) - {fs[i], fs[i + 1]} + {Joined(fs[i], fs[i + 1])}
  {
    var a, b, c, r := fs[..i], fs[i], fs[i + 1], fs[i + 2..];
    SetMiddle(a, Joined(b, c), r);
    assert fs == a + [b] + ([c] + r);
    SetMiddle(a, b, [c] + r);
    SetMiddle([], c, r);
    assert [] + [c] + r == [c] + r;
    assert b !in SetOf(a) && c !in SetOf(a) && b !in SetOf(r) && c !in SetOf(r);
    hide SetOf, Sorted;
  }

  // --- The whole heap ---

  // Free, live and lost blocks are disjoint and tile what has been obtained.
  ghost predicate Partition(free: seq<Block>, live: set<Block>, lost: set<Block>, obtained: set<nat>) {
    && Sorted(free)
    && SetOf(free) !! live && SetOf(free) !! lost && live !! lost
    && Tiles(SetOf(free) + live + lost, obtained)
  }

  // Blocks of the heap that share an address are the same.
  lemma {:induction false} SameAddress(blocks: set<Block>, obtained: set<nat>, b: Block, c: Block)
    requires Tiles(blocks, obtained) && b in blocks && c in blocks && b.addr == c.addr
    ensures b == c
  {
  }

  lemma {:induction false} TilesHas(blocks: set<Block>, obtained: set<nat>, b: Block)
    requires Tiles(blocks, obtained) && b in blocks
    ensures b.addr in obtained
  {
    assert Within(b.addr, b);
  }

  lemma {:induction false} PartitionJoin(free: seq<Block>, live: set<Block>, lost: set<Block>, obtained: set<nat>, i: nat)
    requires Partition(free, live, lost, obtained) && i + 1 < |free| && free[i].End() == free[i + 1].addr
    ensures Partition(JoinAt(free, i), live, lost, obtained)
  {
    var b, c, j := free[i], free[i + 1], Joined(free[i], free[i + 1]);
    var blocks := SetOf(free) + live + lost;
    JoinOrder(free, i);
    JoinSet(free, i);
    TilesJoin(blocks, obtained, b, c);
    if j in live + lost {
      SameAddress(blocks, obtained, b, j);
    }
    assert SetOf(JoinAt(free, i)) + live + lost == blocks - {b, c} + {j};
    hide Tiles, Sorted, JoinAt, SetOf;
  }

  lemma {:induction false} JoinMerges(fs: seq<Block>, i: nat)
    requires i + 1 < |fs| && fs[i].End() == fs[i + 1].addr
    ensures JoinAt(fs, i)[..i] + Merged(JoinAt(fs, i)[i..]) == fs[..i] + Merged(fs[i..])
  {
    assert JoinAt(fs, i)[..i] == fs[..i];
    assert JoinAt(fs, i)[i..] == [Joined(fs[i], fs[i + 1])] + fs[i..][2..];
  }

  lemma {:induction false} MergedEmpty()
    ensures Merged([]) == []
  {
  }

  lemma {:induction false} MergeMoves(fs: seq<Block>, i: nat)
    requires i < |fs| && (i + 1 < |fs| ==> fs[i].End() != fs[i + 1].addr)
    ensures fs[..i + 1] + Merged(fs[i + 1..]) == fs[..i] + Merged(fs[i..])
  {
    assert fs[i..][1..] == fs[i + 1..];
    if i + 1 == |fs| {
      assert fs[i + 1..] == [];
    }
  }

  lemma {:induction false} PartitionTake(free: seq<Block>, live: set<Block>, lost: set<Block>, obtained: set<nat>, i: nat, n: nat)
    requires Partition(free, live, lost, obtained) && i < |free| && n <= free[i].length
    ensures Partition(TakeFrom(free, i, n), live + {Taken(free[i], n)}, lost, obtained)
    ensures Taken(free[i], n) !in live
  {
    TakeOrder(free, i, n);
    if Splits(free[i], n) {
      PartitionSplit(free, live, lost, obtained, i, n);
    } else {
      SetWithout(free, i);
      assert SetOf(TakeFrom(free, i, n)) + (live + {free[i]}) + lost == SetOf(free) + live + lost;
    }
    hide Tiles, Sorted, SetOf;
  }

  lemma {:induction false} PartitionSplit(free: seq<Block>, live: set<Block>, lost: set<Block>, obtained: set<nat>,
                                          i: nat, n: nat)
    requires Partition(free, live, lost, obtained) && i < |free| && Splits(free[i], n)
    ensures var r := free[i := Rest(free[i], n)];
            && SetOf(r) !! live + {Front(free[i], n)} && SetOf(r) !! lost && live + {Front(free[i], n)} !! lost
            && Tiles(SetOf(r) + (live + {Front(free[i], n)}) + lost, obtained)
    ensures Front(free[i], n) !in live
  {
    var b, f, r := free[i], Front(free[i], n), Rest(free[i], n);
    var blocks, other := SetOf(free) + live + lost, SetOf(free[..i] + free[i + 1..]);
    SetWithout(free, i);
    assert free[i := r] == free[..i] + [r] + free[i + 1..];
    SetMiddle(free[..i], r, free[i + 1..]);
    SetConcat(free[..i], free[i + 1..]);
    TilesSplit(blocks, obtained, b, n);
    PartIsNew(blocks, obtained, b, f);
    PartIsNew(blocks, obtained, b, r);
    hide Tiles, SetOf, Sorted;
    assert SetOf(free[i := r]) == other + {r};
    assert SetOf(free[i := r]) + (live + {f}) + lost == blocks - {b} + {f, r};
  }

  // A proper part of a block is no block of the heap.
  lemma {:induction false} PartIsNew(blocks: set<Block>, obtained: set<nat>, b: Block, p: Block)
    requires Tiles(blocks, obtained) && b in blocks && p != b && b.addr <= p.addr && p.End() <= b.End()
    ensures p !in blocks
  {
    assert !Apart(b, p);
  }

  lemma {:induction false} PartitionGrow(free: seq<Block>, live: set<Block>, lost: set<Block>, obtained: set<nat>, b: Block)
    requires Partition(free, live, lost, obtained) && forall x :: x in obtained ==> x < b.addr
    ensures Partition(free + [b], live, lost, obtained + Bytes(b))
  {
    var blocks := SetOf(free) + live + lost;
    TilesGrow(blocks, obtained, b);
    SetConcat(free, [b]);
    assert SetOf([b]) == {b};
    assert SetOf(free + [b]) + live + lost == blocks + {b};
    forall k | 0 <= k < |free|
      ensures free[k].End() <= b.addr
    {
      assert free[k] in blocks;
    }
    hide Tiles, SetOf;
  }

  lemma {:induction false} PartitionInsert(free: seq<Block>, live: set<Block>, lost: set<Block>, obtained: set<nat>, b: Block)
    requires Partition(free, live, lost, obtained) && b in live
    ensures Partition(Inserted(free, b), live - {b}, lost, obtained)
  {
    var i := InsertAt(free, b);
    hide InsertAt, Sorted;
    forall k | 0 <= k < |free|
      ensures Apart(free[k], b)
    {
      assert free[k] in SetOf(free);
    }
    InsertOrder(free, b);
    SetMiddle(free[..i], b, free[i..]);
    SetConcat(free[..i], free[i..]);
    assert free == free[..i] + free[i..];
    hide SetOf, Tiles;
    assert SetOf(Inserted(free, b)) == SetOf(free) + {b};
    assert SetOf(Inserted(free, b)) + (live - {b}) + lost == SetOf(free) + live + lost;
  }

  lemma {:induction false} PartitionLose(free: seq<Block>, live: set<Block>, lost: set<Block>, obtained: set<nat>, b: Block)
    requires Partition(free, live, lost, obtained) && b in live
    ensures Partition(free, live - {b}, lost + {b}, obtained)
  {
    hide SetOf, Tiles;
    assert SetOf(free) + (live - {b}) + (lost + {b}) == SetOf(free) + live + lost;
  }
}
