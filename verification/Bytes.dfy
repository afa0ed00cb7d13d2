// Bytes and NUL-terminated strings.
module Bytes {
  type byte = x: int | 0 <= x < 256

  // What a C string at the start of s is: everything in front of the first NUL.
  function CString(s: seq<byte>): (r: seq<byte>)
    ensures |r| <= |s|
  {
    if s == [] || s[0] == 0 then [] else [s[0]] + CString(s[1..])
  }

  lemma {:induction false} CStringOf(p: seq<byte>, q: seq<byte>)
    requires forall i :: 0 <= i < |p| ==> p[i] != 0
    requires q == [] || q[0] == 0
    ensures CString(p + q) == p
  {
    if p != [] {
      CStringOf(p[1..], q);
      assert (p + q)[1..] == p[1..] + q;
    } else {
      assert p + q == q;
    }
  }
}
