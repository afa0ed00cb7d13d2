// 8.3 names: packing on creation, printing on enumeration (kernel/FS/FAT.cpp).
//
// C strings are byte sequences without their terminating NUL.
module FatName {
  import opened Bytes
  import opened FatTable

  const SPACE: byte := 32
  const DOT: byte := 46

  function ToUpper(c: byte): byte {
    if 97 <= c <= 122 then c - 32 else c
  }

  function ToLower(c: byte): byte {
    if 65 <= c <= 90 then c + 32 else c
  }

  function Lower(s: seq<byte>): (r: seq<byte>)
    ensures |r| == |s|
  {
    seq(|s|, i requires 0 <= i < |s| => ToLower(s[i]))
  }

  // A string with the terminator that strlen relies on.
  function At(s: seq<byte>, i: nat): byte
    requires i <= |s|
  {
    if i < |s| then s[i] else 0
  }

  function LastOf(str: seq<byte>, c: byte): (pos: int)
    ensures -1 <= pos < |str|
    ensures pos >= 0 ==> str[pos] == c
    ensures forall i :: pos < i < |str| ==> str[i] != c
  {
    if str == [] then -1
    else if str[|str| - 1] == c then |str| - 1
    else LastOf(str[..|str| - 1], c)
  }

  method StrFindLastOf(str: seq<byte>, c: byte) returns (pos: int)
    ensures pos == LastOf(str, c)
  {
    pos := -1;
    for a := 0 to |str|
      invariant -1 <= pos < a
      invariant pos >= 0 ==> str[pos] == c
      invariant forall i :: pos < i < a ==> str[i] != c
    {
      if str[a] == c {
        pos := a;
      }
    }
    LastOfUnique(str, c, pos);
  }

  lemma {:induction false} LastOfUnique(str: seq<byte>, c: byte, pos: int)
    requires -1 <= pos < |str| && (pos >= 0 ==> str[pos] == c)
    requires forall i :: pos < i < |str| ==> str[i] != c
    ensures pos == LastOf(str, c)
  {
    if str != [] && str[|str| - 1] != c {
      LastOfUnique(str[..|str| - 1], c, pos);
    }
  }

  // Where the extension of a name begins: the last dot, unless there is none
  // or nothing follows it.
  function DotPos(lfn: seq<byte>): (d: nat)
    ensures d <= |lfn|
    ensures d < |lfn| ==> lfn[d] == DOT && d + 1 < |lfn|
  {
    var last := LastOf(lfn, DOT);
    if last == -1 || last + 1 >= |lfn| then |lfn| else last
  }

  // The byte of the 11-byte field at index a.
  function Packed(lfn: seq<byte>, a: nat): byte {
    var d := DotPos(lfn);
    if a < d && a < 8 then ToUpper(lfn[a])
    else if a >= 8 && a - 8 < |lfn| - d then ToUpper(At(lfn, d + (a - 8) + 1))
    else SPACE
  }

  function PackedName(lfn: seq<byte>): (r: seq<byte>)
    ensures |r| == 11
  {
    seq(11, a requires 0 <= a < 11 => Packed(lfn, a))
  }

  method LFNToF83(lfn: seq<byte>, filename: array<byte>)
    requires filename.Length == 11
    modifies filename
    ensures filename[..] == PackedName(lfn)
  {
    var dotPos := StrFindLastOf(lfn, DOT);
    if dotPos == -1 || dotPos + 1 >= |lfn| {
      dotPos := |lfn|;
    }
    for a := 0 to 11
      invariant forall i :: 0 <= i < a ==> filename[i] == Packed(lfn, i)
    {
      if a < dotPos && a < 8 {
        filename[a] := ToUpper(lfn[a]);
      } else if a >= 8 && a - 8 < |lfn| - dotPos {
        filename[a] := ToUpper(At(lfn, dotPos + a - 8 + 1));
      } else {
        filename[a] := SPACE;
      }
    }
  }

  // No lower-case letter is left in the field; all other bytes are kept.
  lemma {:induction false} PackedUpper(lfn: seq<byte>, a: nat)
    requires a < 11
    ensures !(97 <= PackedName(lfn)[a] <= 122)
    ensures a < 8 && a < DotPos(lfn) ==> PackedName(lfn)[a] == if 97 <= lfn[a] <= 122 then lfn[a] - 32 else lfn[a]
    ensures a < 8 && a >= DotPos(lfn) ==> PackedName(lfn)[a] == 32
    ensures a >= 8 && DotPos(lfn) + a - 7 < |lfn| ==>
      var c := lfn[DotPos(lfn) + a - 7]; PackedName(lfn)[a] == if 97 <= c <= 122 then c - 32 else c
  {
  }

  // The dot in front of the extension is the last one, unless nothing follows.
  lemma {:induction false} DotPosIs(lfn: seq<byte>)
    ensures DotPos(lfn) < |lfn| ==> lfn[DotPos(lfn)] == 46 && forall i :: DotPos(lfn) < i < |lfn| ==> lfn[i] != 46
    ensures DotPos(lfn) == |lfn| ==> forall i :: 0 <= i < |lfn| - 1 ==> lfn[i] == 46 ==> lfn[|lfn| - 1] == 46
  {
  }

  lemma {:induction false} LowerIs(s: seq<byte>, i: nat)
    requires i < |s|
    ensures Lower(s)[i] == if 65 <= s[i] <= 90 then s[i] + 32 else s[i]
  {
  }

  // --- Printing ---

  // The bytes up to the first space.
  function UntilSpace(s: seq<byte>): (r: seq<byte>)
    ensures |r| <= |s|
  {
    if s == [] || s[0] == SPACE then [] else [s[0]] + UntilSpace(s[1..])
  }

  function Printed(name: seq<byte>): seq<byte>
    requires |name| == 11
  {
    Lower(UntilSpace(name[..8])) + if name[8] != SPACE then [DOT] + Lower(UntilSpace(name[8..])) else []
  }

  // One printing loop: count bytes from `from` on, stopping at a space.
  method PrintPart(name: seq<byte>, from: nat, count: nat, dst: seq<byte>) returns (r: seq<byte>)
    requires from + count <= |name|
    ensures r == dst + Lower(UntilSpace(name[from..from + count]))
  {
    r := dst;
    var a := 0;
    ghost var part := name[from..from + count];
    assert part[0..] == part;
    while a < count
      invariant 0 <= a <= count
      invariant r + Lower(UntilSpace(part[a..])) == dst + Lower(UntilSpace(part))
      decreases count - a
    {
      var c := name[from + a];
      assert part[a..][0] == c && part[a..][1..] == part[a + 1..];
      if c == SPACE {
        break;
      }
      assert Lower([c] + UntilSpace(part[a + 1..])) == [ToLower(c)] + Lower(UntilSpace(part[a + 1..]));
      r := r + [ToLower(c)];
      a := a + 1;
    }
  }

  method PrintName(name: seq<byte>) returns (dst: seq<byte>)
    requires |name| == 11
    ensures dst == Printed(name)
  {
    dst := PrintPart(name, 0, 8, []);
    assert name[0..8] == name[..8];
    if name[8] != SPACE {
      assert name[8..11] == name[8..];
      dst := PrintPart(name, 8, 3, dst + [DOT]);
    }
  }

  // --- Round trip ---

  ghost predicate Plain(s: seq<byte>) {
    forall i :: 0 <= i < |s| ==> s[i] != SPACE && s[i] != 0
  }

  // The base and extension that fit an 8.3 field.
  predicate FitsF83(lfn: seq<byte>) {
    DotPos(lfn) <= 8 && |lfn| <= DotPos(lfn) + 4
  }

  lemma {:induction false} UntilSpaceOf(p: seq<byte>, q: seq<byte>)
    requires forall i :: 0 <= i < |p| ==> p[i] != SPACE
    requires q == [] || q[0] == SPACE
    ensures UntilSpace(p + q) == p
  {
    if p != [] {
      UntilSpaceOf(p[1..], q);
      assert (p + q)[1..] == p[1..] + q;
    } else {
      assert p + q == q;
    }
  }

  function Upper(s: seq<byte>): seq<byte> {
    seq(|s|, i requires 0 <= i < |s| => ToUpper(s[i]))
  }

  lemma {:induction false} BasePrinted(lfn: seq<byte>)
    requires Plain(lfn)
    ensures var d := DotPos(lfn); var k := if d < 8 then d else 8;
            UntilSpace(PackedName(lfn)[..8]) == Upper(lfn[..k])
  {
    var d := DotPos(lfn);
    var k := if d < 8 then d else 8;
    var rest := seq(8 - k, i => SPACE);
    assert PackedName(lfn)[..8] == Upper(lfn[..k]) + rest;
    UntilSpaceOf(Upper(lfn[..k]), rest);
  }

  // A short extension is followed by the NUL of the name, then spaces.
  lemma {:induction false} ExtensionPrinted(lfn: seq<byte>)
    requires DotPos(lfn) < |lfn| && Plain(lfn)
    ensures var e := lfn[DotPos(lfn) + 1..];
            UntilSpace(PackedName(lfn)[8..]) == if |e| < 3 then Upper(e) + [0] else Upper(e[..3])
  {
    var d := DotPos(lfn);
    var e := lfn[d + 1..];
    var field := PackedName(lfn)[8..];
    if |e| < 3 {
      var rest := seq(2 - |e|, i => SPACE);
      assert field == Upper(e) + [0] + rest;
      UntilSpaceOf(Upper(e) + [0], rest);
    } else {
      assert field == Upper(e[..3]) + [];
      UntilSpaceOf(Upper(e[..3]), []);
    }
  }

  lemma {:induction false} LowerUpper(s: seq<byte>)
    ensures Lower(Upper(s)) == Lower(s)
  {
  }

  lemma {:induction false} PlainLower(s: seq<byte>)
    requires Plain(s)
    ensures Plain(Lower(s))
  {
  }

  // What the directory shows for a name packed by LFNToF83.
  function Shown(lfn: seq<byte>): seq<byte> {
    var d := DotPos(lfn);
    var e := if d < |lfn| then lfn[d + 1..] else [];
    Lower(lfn[..if d < 8 then d else 8]) +
    if d < |lfn| then [DOT] + Lower(if |e| < 3 then e else e[..3]) else []
  }

  // Behind a short extension a NUL is printed.
  lemma {:induction false} PrintedName(lfn: seq<byte>)
    requires Plain(lfn)
    ensures
      var d := DotPos(lfn);
      Printed(PackedName(lfn)) == Shown(lfn) + if d < |lfn| && |lfn| < d + 4 then [0] else []
  {
    hide UntilSpace;
    var d := DotPos(lfn);
    var k := if d < 8 then d else 8;
    BasePrinted(lfn);
    LowerUpper(lfn[..k]);
    if d < |lfn| {
      var e := lfn[d + 1..];
      ExtensionPrinted(lfn);
      LowerUpper(e);
      LowerUpper(if |e| < 3 then e else e[..3]);
      assert PackedName(lfn)[8] == ToUpper(lfn[d + 1]);
      assert Lower(Upper(e) + [0]) == Lower(e) + [0];
    } else {
      assert PackedName(lfn)[8] == SPACE;
    }
  }

  lemma {:induction false} ShownName(lfn: seq<byte>)
    requires Plain(lfn)
    ensures CString(Printed(PackedName(lfn))) == Shown(lfn)
  {
    hide Printed, PackedName, CString;
    PrintedName(lfn);
    var d := DotPos(lfn);
    PlainLower(lfn[..if d < 8 then d else 8]);
    if d < |lfn| {
      var e := lfn[d + 1..];
      PlainLower(if |e| < 3 then e else e[..3]);
    }
    CStringOf(Shown(lfn), if d < |lfn| && |lfn| < d + 4 then [0] else []);
  }

  lemma {:induction false} ShownLength(lfn: seq<byte>)
    ensures |Shown(lfn)| == |lfn| <==> FitsF83(lfn)
  {
    hide Lower;
  }

  lemma {:induction false} ShownFits(lfn: seq<byte>)
    requires FitsF83(lfn)
    ensures Shown(lfn) == Lower(lfn)
  {
    hide Lower;
    var d := DotPos(lfn);
    if d < |lfn| {
      assert lfn == lfn[..d] + [DOT] + lfn[d + 1..];
      LowerAround(lfn[..d], DOT, lfn[d + 1..]);
      assert |lfn[d + 1..]| == 3 ==> lfn[d + 1..][..3] == lfn[d + 1..];
    } else {
      assert lfn[..d] == lfn;
    }
  }

  lemma {:induction false} LowerAround(a: seq<byte>, x: byte, b: seq<byte>)
    requires x == DOT
    ensures Lower(a + [x] + b) == Lower(a) + ([x] + Lower(b))
  {
  }

  // The directory shows the lower-cased name exactly for names with at most
  // eight bytes before the extension and three bytes in it.
  lemma {:induction false} NameRoundTrip(lfn: seq<byte>)
    requires Plain(lfn)
    ensures CString(Printed(PackedName(lfn))) == Lower(lfn) <==> FitsF83(lfn)
  {
    hide Printed, CString, PackedName, Shown, FitsF83;
    ShownName(lfn);
    ShownLength(lfn);
    if FitsF83(lfn) {
      ShownFits(lfn);
    }
  }
}
