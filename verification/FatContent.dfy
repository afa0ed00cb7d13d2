// The logical content of a file: byte i is byte i % cs of the cluster
// chain[i / cs], where cs is the cluster size in bytes.
module FatContent {
  import opened Arithmetic
  import opened Bytes
  import opened FatTable
  import opened FatChains
  import opened Sequences

  type View = map<nat, seq<byte>>

  // The chain position of the cached cluster: the cursor lags behind at
  // cluster boundaries.
  function Lag(o: nat, cs: nat): nat
    requires cs > 0
  {
    if o == 0 then 0 else Quot(o - 1, cs)
  }

  lemma {:induction false} LagStep(o: nat, cs: nat)
    requires cs > 0
    ensures o > 0 && Rem(o, cs) == 0 ==> Lag(o, cs) + 1 == Quot(o, cs)
    ensures o == 0 || Rem(o, cs) != 0 ==> Lag(o, cs) == Quot(o, cs)
    ensures Lag(o + 1, cs) == Quot(o, cs)
  {
    if o > 0 {
      QuotNext(o - 1, cs);
    }
  }

  // --- Content ---

  // `s` with the bytes from `offset` on replaced.
  function Patch(s: seq<byte>, offset: nat, bytes: seq<byte>): (r: seq<byte>)
    requires offset + |bytes| <= |s|
    ensures |r| == |s|
    ensures forall i :: 0 <= i < |s| ==>
              r[i] == if offset <= i < offset + |bytes| then bytes[i - offset] else s[i]
  {
    s[..offset] + bytes + s[offset + |bytes|..]
  }

  ghost predicate Covers(view: View, chain: seq<nat>, cs: nat) {
    && cs > 0
    && forall i :: 0 <= i < |chain| ==> chain[i] in view && |view[chain[i]]| == cs
  }

  ghost function ByteAt(view: View, chain: seq<nat>, cs: nat, i: nat): byte
    requires Covers(view, chain, cs) && i < |chain| * cs
  {
    QuotBound(i, |chain|, cs);
    view[chain[Quot(i, cs)]][Rem(i, cs)]
  }

  ghost function Content(view: View, chain: seq<nat>, cs: nat, size: nat): (c: seq<byte>)
    requires Covers(view, chain, cs) && size <= |chain| * cs
    ensures |c| == size
  {
    seq(size, i requires 0 <= i < size => ByteAt(view, chain, cs, i))
  }

  // Byte i of a file lies in cluster i / cs of its chain, at i % cs.
  lemma {:induction false} ContentAt(view: View, chain: seq<nat>, cs: nat, size: nat, i: nat)
    requires Covers(view, chain, cs) && i < size <= |chain| * cs
    ensures i / cs < |chain| && i % cs < |view[chain[i / cs]]|
    ensures Content(view, chain, cs, size)[i] == view[chain[i / cs]][i % cs]
  {
    QuotRem(i, cs);
    QuotBound(i, |chain|, cs);
    hide Quot, Rem;
  }

  // `c` with `bytes` written at position p <= |c|, growing if necessary.
  function Overwrite(c: seq<byte>, p: nat, bytes: seq<byte>): (r: seq<byte>)
    requires p <= |c|
    ensures |r| == if p + |bytes| > |c| then p + |bytes| else |c|
  {
    c[..p] + bytes + if p + |bytes| <= |c| then c[p + |bytes|..] else []
  }

  lemma {:induction false} OverwriteAppend(c: seq<byte>, p: nat, bytes: seq<byte>, b: byte)
    requires p <= |c|
    ensures Overwrite(Overwrite(c, p, bytes), p + |bytes|, [b]) == Overwrite(c, p, bytes + [b])
  {
  }

  lemma {:induction false} OverwriteAt(c: seq<byte>, p: nat, bytes: seq<byte>, i: nat)
    requires p <= |c| && i < |Overwrite(c, p, bytes)|
    ensures Overwrite(c, p, bytes)[i] == if p <= i < p + |bytes| then bytes[i - p] else c[i]
  {
  }

  // Content depends only on the clusters of the chain.
  lemma {:induction false} ContentFrame(view: View, view': View, chain: seq<nat>, cs: nat, size: nat)
    requires Covers(view, chain, cs) && size <= |chain| * cs
    requires forall i :: 0 <= i < |chain| ==> chain[i] in view' && view'[chain[i]] == view[chain[i]]
    ensures Covers(view', chain, cs) && Content(view', chain, cs, size) == Content(view, chain, cs, size)
  {
    forall i | 0 <= i < size
      ensures Content(view', chain, cs, size)[i] == Content(view, chain, cs, size)[i]
    {
      QuotBound(i, |chain|, cs);
    }
  }

  // Extending the chain keeps the content.
  lemma {:induction false} ContentExtend(view: View, chain: seq<nat>, more: seq<nat>, cs: nat, size: nat)
    requires Covers(view, chain + more, cs) && size <= |chain| * cs
    ensures Covers(view, chain, cs) && size <= |chain + more| * cs
    ensures Content(view, chain + more, cs, size) == Content(view, chain, cs, size)
  {
    assert forall i :: 0 <= i < |chain| ==> (chain + more)[i] == chain[i];
    MulMonotonic(|chain|, |chain + more|, cs);
    forall i | 0 <= i < size
      ensures Content(view, chain + more, cs, size)[i] == Content(view, chain, cs, size)[i]
    {
      QuotBound(i, |chain|, cs);
    }
  }

  // The view after one byte has been stored at position o of a chain.
  function PutAt(view: View, chain: seq<nat>, cs: nat, o: nat, b: byte): View
    requires cs > 0 && Quot(o, cs) < |chain| && chain[Quot(o, cs)] in view && |view[chain[Quot(o, cs)]]| == cs
  {
    var c := chain[Quot(o, cs)];
    view[c := Patch(view[c], Rem(o, cs), [b])]
  }

  lemma {:induction false} CoversAfterPut(view: View, chain: seq<nat>, cs: nat, o: nat, b: byte)
    requires Covers(view, chain, cs) && Quot(o, cs) < |chain|
    ensures Covers(PutAt(view, chain, cs, o, b), chain, cs)
  {
  }

  lemma {:induction false} CellAfterPatch(view: View, chain: seq<nat>, p: nat, t: nat, b: byte, q: nat, r: nat)
    requires p < |chain| && q < |chain| && NoDuplicates(chain)
    requires chain[p] in view && chain[q] in view && t < |view[chain[p]]| && r < |view[chain[q]]|
    ensures var view' := view[chain[p] := Patch(view[chain[p]], t, [b])];
            r < |view'[chain[q]]| && view'[chain[q]][r] == if q == p && r == t then b else view[chain[q]][r]
  {
    assert q < p ==> chain[q] != chain[p];
    assert p < q ==> chain[q] != chain[p];
  }

  lemma {:induction false} ByteAfterPut(view: View, chain: seq<nat>, cs: nat, o: nat, b: byte, i: nat)
    requires Covers(view, chain, cs) && Quot(o, cs) < |chain| && i < |chain| * cs
    requires NoDuplicates(chain)
    requires Covers(PutAt(view, chain, cs, o, b), chain, cs)
    ensures ByteAt(PutAt(view, chain, cs, o, b), chain, cs, i) == if i == o then b else ByteAt(view, chain, cs, i)
  {
    QuotBound(i, |chain|, cs);
    CellAfterPatch(view, chain, Quot(o, cs), Rem(o, cs), b, Quot(i, cs), Rem(i, cs));
    if Quot(i, cs) == Quot(o, cs) && Rem(i, cs) == Rem(o, cs) {
      SamePosition(i, o, cs);
    }
    hide NoDuplicates, Patch;
  }

  // The content after one byte has been stored at position o.
  lemma {:induction false} ContentPut(view: View, chain: seq<nat>, cs: nat, size: nat, o: nat, b: byte)
    requires Covers(view, chain, cs) && size <= |chain| * cs
    requires NoDuplicates(chain)
    requires o <= size && Quot(o, cs) < |chain|
    ensures Covers(PutAt(view, chain, cs, o, b), chain, cs)
    ensures var size' := if o + 1 > size then o + 1 else size;
            size' <= |chain| * cs
            && Content(PutAt(view, chain, cs, o, b), chain, cs, size') == Overwrite(Content(view, chain, cs, size), o, [b])
  {
    var size' := if o + 1 > size then o + 1 else size;
    QuotBound(o, |chain|, cs);
    CoversAfterPut(view, chain, cs, o, b);
    var view' := PutAt(view, chain, cs, o, b);
    hide PutAt, Covers, ByteAt;
    forall i | 0 <= i < size'
      ensures ByteAt(view', chain, cs, i) == Overwrite(Content(view, chain, cs, size), o, [b])[i]
    {
      ByteAfterPut(view, chain, cs, o, b, i);
    }
  }

  // `buf` is `old_` with n bytes of the chain, from position o on, copied to `start`.
  ghost predicate Copied(old_: seq<byte>, buf: seq<byte>, start: nat, n: nat, view: View, chain: seq<nat>, cs: nat, o: nat) {
    && Covers(view, chain, cs) && |buf| == |old_| && start + n <= |buf|
    && (n > 0 ==> o + n <= |chain| * cs)
    && forall i :: 0 <= i < |buf| ==>
                     buf[i] == if start <= i < start + n then ByteAt(view, chain, cs, o + (i - start)) else old_[i]
  }

  lemma {:induction false} CopiedNone(buf: seq<byte>, start: nat, view: View, chain: seq<nat>, cs: nat, o: nat)
    requires Covers(view, chain, cs) && start <= |buf|
    ensures Copied(buf, buf, start, 0, view, chain, cs, o)
  {
  }

  lemma {:induction false} CopiedNothing(old_: seq<byte>, buf: seq<byte>, start: nat, view: View, chain: seq<nat>,
                                         other: seq<nat>, cs: nat, o: nat)
    requires Copied(old_, buf, start, 0, view, chain, cs, o) && Covers(view, other, cs)
    ensures Copied(old_, buf, start, 0, view, other, cs, o)
  {
  }

  // One more byte out of the same cluster.
  lemma {:induction false} CopiedOne(old_: seq<byte>, buf: seq<byte>, start: nat, n: nat, view: View,
                                     chain: seq<nat>, cs: nat, o: nat, b: byte)
    requires Copied(old_, buf, start, n, view, chain, cs, o) && start + n < |buf|
    requires Rem(o, cs) + n < cs && Quot(o, cs) < |chain| && b == view[chain[Quot(o, cs)]][Rem(o, cs) + n]
    ensures Copied(old_, buf[start + n := b], start, n + 1, view, chain, cs, o)
  {
    QuotWithin(o, n, cs);
    QuotBound(o + n, |chain|, cs);
    assert ByteAt(view, chain, cs, o + n) == b;
    hide Quot, Rem, ByteAt, Covers;
  }

  // A complete copy out of the file's own chain is a slice of its content.
  lemma {:induction false} CopiedIsContent(old_: seq<byte>, buf: seq<byte>, start: nat, n: nat, view: View,
                                           chain: seq<nat>, cs: nat, size: nat, o: nat)
    requires Copied(old_, buf, start, n, view, chain, cs, o) && size <= |chain| * cs && o + n <= size
    ensures start + n <= |buf| == |old_|
    ensures buf[start..start + n] == Content(view, chain, cs, size)[o..o + n]
    ensures buf[..start] == old_[..start] && buf[start + n..] == old_[start + n..]
  {
    hide ByteAt, Covers;
  }

  // Copies one behind the other.
  lemma {:induction false} CopiedBoth(b0: seq<byte>, b1: seq<byte>, b2: seq<byte>, start: nat, n: nat, m: nat,
                                      view: View, chain: seq<nat>, cs: nat, o: nat)
    requires Copied(b0, b1, start, n, view, chain, cs, o)
    requires Copied(b1, b2, start + n, m, view, chain, cs, o + n)
    ensures Copied(b0, b2, start, n + m, view, chain, cs, o)
  {
    hide ByteAt, Covers;
  }

  lemma {:induction false} LagWithin(o: nat, n: nat, cs: nat)
    requires cs > 0 && Rem(o, cs) + n <= cs
    ensures n > 0 ==> Lag(o + n, cs) == Quot(o, cs)
  {
    if n > 0 {
      QuotWithin(o, n - 1, cs);
    }
  }

  ghost predicate ZeroBytes(s: seq<byte>) {
    forall i :: 0 <= i < |s| ==> s[i] == 0
  }

  // --- The directory slot of a file ---

  const DIR_ENTRY := 32

  // Offsets inside a 32-byte slot.
  const SLOT_CLUSTER := 26
  const SLOT_SIZE := 28

  function Low(n: nat): byte { n % 256 }

  function WordBytes(n: nat): (r: seq<byte>)
    ensures |r| == 2
  {
    [Low(n), Low(n / 0x100)]
  }

  function DwordBytes(n: nat): (r: seq<byte>)
    ensures |r| == 4
  {
    [Low(n), Low(n / 0x100), Low(n / 0x1_0000), Low(n / 0x100_0000)]
  }

  function WordOf(s: seq<byte>, o: nat): nat
    requires o + 2 <= |s|
  {
    s[o] as int + 0x100 * s[o + 1] as int
  }

  function DwordOf(s: seq<byte>, o: nat): nat
    requires o + 4 <= |s|
  {
    WordOf(s, o) + 0x1_0000 * WordOf(s, o + 2)
  }

  lemma {:induction false} WordRoundTrip(n: nat, s: seq<byte>, o: nat)
    requires o + 2 <= |s| && s[o..o + 2] == WordBytes(n)
    ensures WordOf(s, o) == n % 0x1_0000
  {
    assert s[o] == s[o..o + 2][0] && s[o + 1] == s[o..o + 2][1];
    var q := n / 0x100;
    assert n == 0x100 * q + n % 0x100;
    assert q == 0x100 * (q / 0x100) + q % 0x100;
    assert n == 0x1_0000 * (q / 0x100) + (n % 0x100 + 0x100 * (q % 0x100));
  }

  lemma {:induction false} DwordHalves(n: nat)
    ensures n % 0x1_0000_0000 == n % 0x1_0000 + 0x1_0000 * (n / 0x1_0000 % 0x1_0000)
    ensures n / 0x100_0000 == n / 0x1_0000 / 0x100
  {
    var q := n / 0x1_0000;
    assert n == 0x1_0000 * q + n % 0x1_0000;
    assert q == 0x1_0000 * (q / 0x1_0000) + q % 0x1_0000;
    assert n == 0x1_0000_0000 * (q / 0x1_0000) + (n % 0x1_0000 + 0x1_0000 * (q % 0x1_0000));
  }

  lemma {:induction false} DwordRoundTrip(n: nat, s: seq<byte>, o: nat)
    requires o + 4 <= |s| && s[o..o + 4] == DwordBytes(n)
    ensures DwordOf(s, o) == n % 0x1_0000_0000
  {
    DwordHalves(n);
    assert DwordBytes(n) == WordBytes(n) + WordBytes(n / 0x1_0000);
    assert s[o..o + 2] == s[o..o + 4][..2] && s[o + 2..o + 4] == s[o..o + 4][2..];
    WordRoundTrip(n, s, o);
    WordRoundTrip(n / 0x1_0000, s, o + 2);
  }

  // Only the cluster and size fields of the slot differ.
  ghost predicate SlotOnly(d: seq<byte>, d': seq<byte>, entry: nat) {
    && |d'| == |d|
    && forall i :: 0 <= i < |d| && !(entry + 26 <= i < entry + 32) ==> d'[i] == d[i]
  }

  // FilePutByte sets the cluster of a slot only if it is zero.
  function NewSlot(d: seq<byte>, entry: nat, cluster: nat, size: nat): (r: seq<byte>)
    requires entry + DIR_ENTRY <= |d|
    ensures |r| == |d|
  {
    var e := if WordOf(d, entry + SLOT_CLUSTER) == 0 then Patch(d, entry + SLOT_CLUSTER, WordBytes(cluster)) else d;
    Patch(e, entry + SLOT_SIZE, DwordBytes(size))
  }

  lemma {:induction false} NewSlotFields(d: seq<byte>, entry: nat, cluster: nat, size: nat)
    requires entry + DIR_ENTRY <= |d| && cluster < 0x1_0000 && size < 0x1_0000_0000
    ensures SlotOnly(d, NewSlot(d, entry, cluster, size), entry)
    ensures var old_ := WordOf(d, entry + SLOT_CLUSTER);
            WordOf(NewSlot(d, entry, cluster, size), entry + SLOT_CLUSTER) == if old_ == 0 then cluster else old_
    ensures DwordOf(NewSlot(d, entry, cluster, size), entry + SLOT_SIZE) == size
  {
    var r := NewSlot(d, entry, cluster, size);
    var c, z := entry + SLOT_CLUSTER, entry + SLOT_SIZE;
    assert r[z..z + 4] == DwordBytes(size);
    DwordRoundTrip(size, r, z);
    if WordOf(d, c) == 0 {
      assert r[c..c + 2] == WordBytes(cluster);
      WordRoundTrip(cluster, r, c);
    }
  }

  // Where the fields of a slot are: a word at byte 26 and a double word at byte
  // 28, low byte first.
  lemma SlotBytes(d: seq<byte>, entry: nat)
    requires entry + 32 <= |d|
    ensures WordOf(d, entry + SLOT_CLUSTER) == d[entry + 26] as int + 0x100 * d[entry + 27] as int
    ensures DwordOf(d, entry + SLOT_SIZE) ==
            d[entry + 28] as int + 0x100 * d[entry + 29] as int + 0x1_0000 * d[entry + 30] as int + 0x100_0000 * d[entry + 31] as int
  {
  }

  // Bytes 26 and 27 of the slot are the cluster, bytes 28 to 31 the size.
  ghost predicate SlotHolds(d: seq<byte>, entry: nat, cluster: nat, size: nat) {
    && entry + 32 <= |d|
    && d[entry + 26] == cluster % 0x100 && d[entry + 27] == cluster / 0x100
    && d[entry + 28] == size % 0x100 && d[entry + 29] == size / 0x100 % 0x100
    && d[entry + 30] == size / 0x1_0000 % 0x100 && d[entry + 31] == size / 0x100_0000
  }

  lemma SlotHeld(d: seq<byte>, entry: nat)
    requires entry + 32 <= |d|
    ensures SlotHolds(d, entry, WordOf(d, entry + SLOT_CLUSTER), DwordOf(d, entry + SLOT_SIZE))
  {
    SlotBytes(d, entry);
    hide WordOf, DwordOf;
    DivIs(WordOf(d, entry + SLOT_CLUSTER), 0x100, d[entry + 27] as int, d[entry + 26] as int);
    var n := DwordOf(d, entry + SLOT_SIZE);
    var b, c, e := d[entry + 29] as int, d[entry + 30] as int, d[entry + 31] as int;
    DivIs(n, 0x100, b + 0x100 * c + 0x1_0000 * e, d[entry + 28] as int);
    DivIs(b + 0x100 * c + 0x1_0000 * e, 0x100, c + 0x100 * e, b);
    DivIs(n, 0x1_0000, c + 0x100 * e, d[entry + 28] as int + 0x100 * b);
    DivIs(c + 0x100 * e, 0x100, e, c);
    DivIs(n, 0x100_0000, e, d[entry + 28] as int + 0x100 * b + 0x1_0000 * c);
  }

  // Byte by byte, what a write to the slot leaves there.
  lemma {:induction false} SlotAfterWrite(d: seq<byte>, entry: nat, cluster: nat, size: nat)
    requires entry + 32 <= |d| && cluster < 0x1_0000 && size < 0x1_0000_0000
    ensures
      var r := NewSlot(d, entry, cluster, size);
      && SlotHolds(r, entry, if d[entry + 26] == 0 && d[entry + 27] == 0 then cluster
                             else d[entry + 26] as int + 0x100 * d[entry + 27] as int, size)
      && forall i :: 0 <= i < |d| && !(entry + 26 <= i < entry + 32) ==> r[i] == d[i]
  {
    NewSlotFields(d, entry, cluster, size);
    SlotBytes(d, entry);
    SlotHeld(NewSlot(d, entry, cluster, size), entry);
    hide WordOf, DwordOf, NewSlot;
  }
}
