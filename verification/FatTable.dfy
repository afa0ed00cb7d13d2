// The packed 12-bit allocation table (kernel/FS/FAT.cpp).
//
// Two neighbouring entries share one byte, so every store has to keep the
// nibble of its neighbour. `Entries` is the decoded table; everything above
// this module reasons about that sequence only.
module FatTable {
  import opened Arithmetic
  import opened Bytes

  const CLUSTER_LAST := 0xFF8

  // The number of entries that AddCluster scans for a table of `bytes` bytes.
  function EntryCount(bytes: nat): nat {
    bytes * 8 / 12
  }

  // The byte offset of the little-endian word holding entry `c`.
  function EntryOffset(c: nat): nat {
    c + c / 2
  }

  // The word of the last scanned entry still lies inside the table.
  lemma EntryInTable(bytes: nat, c: nat)
    requires c < EntryCount(bytes)
    ensures EntryOffset(c) + 1 < bytes
  {
    assert 12 * (c + 1) <= bytes * 8;
  }

  // The entry `c` held by the two bytes of its word.
  function Decode(c: nat, lo: nat, hi: nat): (v: nat)
    requires lo < 256 && hi < 256
    ensures v < 0x1000
  {
    if c % 2 == 1 then (lo + 256 * hi) / 16 else (lo + 256 * hi) % 0x1000
  }

  function Entry(s: seq<byte>, c: nat): (v: nat)
    requires c < EntryCount(|s|)
    ensures v < 0x1000
  {
    EntryInTable(|s|, c);
    Decode(c, s[EntryOffset(c)], s[EntryOffset(c) + 1])
  }

  function Entries(s: seq<byte>): (t: seq<nat>)
    ensures |t| == EntryCount(|s|)
    ensures forall c :: 0 <= c < |t| ==> t[c] == Entry(s, c)
  {
    seq(EntryCount(|s|), c requires 0 <= c < EntryCount(|s|) => Entry(s, c))
  }

  // Two entries share three bytes: the even one has the first and the low half
  // of the second, the odd one the high half of the second and the third.
  lemma EntryBytes(s: seq<byte>, k: nat)
    requires 2 * k + 1 < EntryCount(|s|)
    ensures 3 * k + 2 < |s|
    ensures Entries(s)[2 * k] == s[3 * k] as int + 256 * (s[3 * k + 1] % 16) as int
    ensures Entries(s)[2 * k + 1] == (s[3 * k + 1] / 16) as int + 16 * s[3 * k + 2] as int
  {
    EntryInTable(|s|, 2 * k);
    EntryInTable(|s|, 2 * k + 1);
    DecodeNibbles(2 * k, s[3 * k], s[3 * k + 1]);
    DecodeNibbles(2 * k + 1, s[3 * k + 1], s[3 * k + 2]);
  }

  // The word stored by SetCluster: the neighbour's nibble survives.
  function PackedWord(c: nat, lo: nat, hi: nat, n: nat): (w: nat)
    requires lo < 256 && hi < 256 && n < 0x1000
    ensures w < 0x10000
  {
    if c % 2 == 1 then (lo + 256 * hi) % 16 + n * 16 else (lo + 256 * hi) / 0x1000 * 0x1000 + n
  }

  function Store(s: seq<byte>, c: nat, n: nat): (r: seq<byte>)
    requires c < EntryCount(|s|) && n < 0x1000
    ensures |r| == |s|
  {
    EntryInTable(|s|, c);
    var o := EntryOffset(c);
    var w := PackedWord(c, s[o], s[o + 1], n);
    s[o := w % 256][o + 1 := w / 256]
  }

  // An even entry takes the low nibble of its second byte, an odd one the
  // high nibble of its first byte.
  lemma DecodeNibbles(c: nat, lo: nat, hi: nat)
    requires lo < 256 && hi < 256
    ensures Decode(c, lo, hi) == if c % 2 == 1 then lo / 16 + 16 * hi else lo + 256 * (hi % 16)
  {
    if c % 2 == 1 {
      DivIs(lo + 256 * hi, 16, lo / 16 + 16 * hi, lo % 16);
    } else {
      DivIs(lo + 256 * hi, 0x1000, hi / 16, lo + 256 * (hi % 16));
    }
  }

  lemma PackedNibbles(c: nat, lo: nat, hi: nat, n: nat)
    requires lo < 256 && hi < 256 && n < 0x1000
    ensures var w := PackedWord(c, lo, hi, n);
            if c % 2 == 1 then w % 256 == lo % 16 + n % 16 * 16 && w / 256 == n / 16
            else w % 256 == n % 256 && w / 256 == hi / 16 * 16 + n / 256
  {
    if c % 2 == 1 {
      DivIs(lo + 256 * hi, 16, lo / 16 + 16 * hi, lo % 16);
      DivIs(PackedWord(c, lo, hi, n), 256, n / 16, lo % 16 + n % 16 * 16);
    } else {
      DivIs(lo + 256 * hi, 0x1000, hi / 16, lo + 256 * (hi % 16));
      DivIs(PackedWord(c, lo, hi, n), 256, hi / 16 * 16 + n / 256, n % 256);
    }
  }

  // What one store does to the entry it writes ...
  lemma DecodeAfterStore(c: nat, lo: nat, hi: nat, n: nat)
    requires lo < 256 && hi < 256 && n < 0x1000
    ensures var w := PackedWord(c, lo, hi, n); Decode(c, w % 256, w / 256) == n
  {
    var w := PackedWord(c, lo, hi, n);
    assert w % 256 + 256 * (w / 256) == w;
    assert (lo + 256 * hi) % 16 + n * 16 < 0x10000;
  }

  // ... to the odd neighbour above an even entry ...
  lemma StoreKeepsUpper(c: nat, lo: nat, mid: nat, hi: nat, n: nat)
    requires lo < 256 && mid < 256 && hi < 256 && n < 0x1000 && c % 2 == 0
    ensures Decode(c + 1, PackedWord(c, lo, mid, n) / 256, hi) == Decode(c + 1, mid, hi)
  {
    PackedNibbles(c, lo, mid, n);
    var b := PackedWord(c, lo, mid, n) / 256;
    assert b / 16 == mid / 16;
    DecodeNibbles(c + 1, b, hi);
    DecodeNibbles(c + 1, mid, hi);
  }

  // ... and to the even neighbour below an odd one.
  lemma StoreKeepsLower(c: nat, lo: nat, mid: nat, hi: nat, n: nat)
    requires lo < 256 && mid < 256 && hi < 256 && n < 0x1000 && c % 2 == 1
    ensures Decode(c - 1, lo, PackedWord(c, mid, hi, n) % 256) == Decode(c - 1, lo, mid)
  {
    PackedNibbles(c, mid, hi, n);
    var b := PackedWord(c, mid, hi, n) % 256;
    assert b % 16 == mid % 16;
    DecodeNibbles(c - 1, lo, b);
    DecodeNibbles(c - 1, lo, mid);
  }

  // Reading any entry back after a store.
  lemma EntryAfterStore(s: seq<byte>, c: nat, n: nat, d: nat)
    requires c < EntryCount(|s|) && d < EntryCount(|s|) && n < 0x1000
    ensures Entry(Store(s, c, n), d) == if d == c then n else Entry(s, d)
  {
    EntryInTable(|s|, c);
    EntryInTable(|s|, d);
    var o, p := EntryOffset(c), EntryOffset(d);
    if d == c {
      DecodeAfterStore(c, s[o], s[o + 1], n);
    } else if c % 2 == 0 && d == c + 1 {
      StoreKeepsUpper(c, s[o], s[o + 1], s[o + 2], n);
    } else if c % 2 == 1 && c == d + 1 {
      StoreKeepsLower(c, s[p], s[p + 1], s[p + 2], n);
    } else {
      assert d < c ==> p + 1 < o;
      assert c < d ==> o + 1 < p;
    }
  }

  // The decoded table changes in exactly one place.
  lemma EntriesAfterStore(s: seq<byte>, c: nat, n: nat)
    requires c < EntryCount(|s|) && n < 0x1000
    ensures Entries(Store(s, c, n)) == Entries(s)[c := n]
  {
    forall d | 0 <= d < EntryCount(|s|)
      ensures Entries(Store(s, c, n))[d] == Entries(s)[c := n][d]
    {
      EntryAfterStore(s, c, n, d);
    }
  }

  // GetNextCluster on the decoded table: 0 ends a chain.
  function Next(t: seq<nat>, c: nat): nat
    requires c < |t|
  {
    if c < 2 then 0 else if t[c] >= CLUSTER_LAST then 0 else t[c]
  }
}
