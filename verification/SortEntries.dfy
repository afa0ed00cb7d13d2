// Sorting the BIOS memory map by base address (kernel/Core/Memory.cpp).
module SortEntries {
  datatype Entry = Entry(base: int, length: int, kind: nat, attr: nat)

  ghost predicate Distinct(s: seq<Entry>) {
    forall i, j :: 0 <= i < j < |s| ==> s[i].base != s[j].base
  }

  ghost predicate StrictlySorted(s: seq<Entry>) {
    forall i, j :: 0 <= i < j < |s| ==> s[i].base < s[j].base
  }

  function Swap(s: seq<Entry>, a: nat): seq<Entry>
    requires 0 < a < |s|
  {
    s[a := s[a - 1]][a - 1 := s[a]]
  }

  // The rest of a pass from index a on; equal neighbours are swapped too.
  function Pass(s: seq<Entry>, a: nat): (r: seq<Entry>)
    requires a > 0
    ensures |r| == |s|
    decreases |s| - a
  {
    if a >= |s| then s
    else if s[a].base <= s[a - 1].base then Pass(Swap(s, a), a + 1)
    else Pass(s, a + 1)
  }

  // Whether that pass swaps anything.
  predicate Changes(s: seq<Entry>, a: nat)
    requires a > 0
    decreases |s| - a
  {
    a < |s| && (s[a].base <= s[a - 1].base || Changes(s, a + 1))
  }

  // --- Inversions ---

  function Larger(s: seq<Entry>, base: int): nat {
    if s == [] then 0 else (if s[|s| - 1].base > base then 1 else 0) + Larger(s[..|s| - 1], base)
  }

  function Inversions(s: seq<Entry>): nat {
    if s == [] then 0 else Inversions(s[..|s| - 1]) + Larger(s[..|s| - 1], s[|s| - 1].base)
  }

  lemma {:induction false} LargerAfterSwap(s: seq<Entry>, a: nat, base: int)
    requires 0 < a < |s|
    ensures Larger(Swap(s, a), base) == Larger(s, base)
  {
    var n, t := |s| - 1, Swap(s, a);
    if a < n {
      assert t[..n] == Swap(s[..n], a);
      LargerAfterSwap(s[..n], a, base);
    } else {
      assert t[..n][..n - 1] == s[..n][..n - 1];
    }
  }

  // Swapping neighbours in the wrong order removes exactly one inversion.
  lemma {:induction false} SwapRemovesInversion(s: seq<Entry>, a: nat)
    requires 0 < a < |s| && s[a].base < s[a - 1].base
    ensures Inversions(Swap(s, a)) == Inversions(s) - 1
  {
    var n, t := |s| - 1, Swap(s, a);
    if a < n {
      assert t[..n] == Swap(s[..n], a);
      SwapRemovesInversion(s[..n], a);
      LargerAfterSwap(s[..n], a, s[n].base);
    } else {
      assert t[..n][..n - 1] == s[..n][..n - 1];
      assert s[..n][n - 1] == s[n - 1] && t[..n][n - 1] == t[n - 1];
    }
  }

  lemma SwapDistinct(s: seq<Entry>, a: nat)
    requires 0 < a < |s|
    ensures Distinct(s) ==> Distinct(Swap(s, a))
  {
  }

  lemma {:induction false} SwapKeeps(s: seq<Entry>, a: nat)
    requires 0 < a < |s|
    ensures multiset(Swap(s, a)) == multiset(s)
    ensures Distinct(s) <==> Distinct(Swap(s, a))
  {
    assert s == Swap(Swap(s, a), a);
    SwapDistinct(s, a);
    SwapDistinct(Swap(s, a), a);
    assert s == s[..a - 1] + [s[a - 1], s[a]] + s[a + 1..];
    assert Swap(s, a) == s[..a - 1] + [s[a], s[a - 1]] + s[a + 1..];
  }

  // A pass permutes, and takes away an inversion whenever it swaps anything.
  lemma {:induction false} PassKeeps(s: seq<Entry>, a: nat)
    requires a > 0
    ensures multiset(Pass(s, a)) == multiset(s)
    ensures Distinct(s) <==> Distinct(Pass(s, a))
    ensures Distinct(s) ==> Inversions(Pass(s, a)) <= Inversions(s)
    ensures Distinct(s) && Changes(s, a) ==> Inversions(Pass(s, a)) < Inversions(s)
    ensures !Changes(s, a) ==> Pass(s, a) == s
    decreases |s| - a
  {
    if a < |s| {
      if s[a].base <= s[a - 1].base {
        SwapKeeps(s, a);
        if Distinct(s) {
          SwapRemovesInversion(s, a);
        }
        PassKeeps(Swap(s, a), a + 1);
      } else {
        PassKeeps(s, a + 1);
      }
    }
  }

  // A pass leaves everything alone exactly on a strictly sorted table.
  lemma {:induction false} QuietIffSorted(s: seq<Entry>, a: nat)
    requires a > 0
    ensures !Changes(s, a) <==> forall i :: a <= i < |s| ==> s[i - 1].base < s[i].base
    decreases |s| - a
  {
    if a < |s| {
      QuietIffSorted(s, a + 1);
    }
  }

  lemma {:induction false} NeighboursSort(s: seq<Entry>)
    requires forall i :: 1 <= i < |s| ==> s[i - 1].base < s[i].base
    ensures StrictlySorted(s)
  {
    forall i, j | 0 <= i < j < |s|
      ensures s[i].base < s[j].base
    {
      Ascending(s, i, j);
    }
  }

  lemma {:induction false} Ascending(s: seq<Entry>, i: nat, j: nat)
    requires forall k :: 1 <= k < |s| ==> s[k - 1].base < s[k].base
    requires i < j < |s|
    ensures s[i].base < s[j].base
    decreases j
  {
    if i < j - 1 {
      Ascending(s, i, j - 1);
    }
  }

  // --- Termination of the outer loop ---

  function Passes(s: seq<Entry>, n: nat): seq<Entry>
    decreases n
  {
    if n == 0 then s else Passes(Pass(s, 1), n - 1)
  }

  // The loop leaves after round n if that round swaps nothing. There is such a
  // round exactly for tables with pairwise distinct bases.
  lemma {:induction false} TerminatesIffDistinct(s: seq<Entry>)
    ensures (exists n :: !Changes(Passes(s, n), 1)) <==> Distinct(s)
  {
    if Distinct(s) {
      var n := QuietRound(s);
    } else {
      forall n: nat
        ensures Changes(Passes(s, n), 1)
      {
        NeverQuiet(s, n);
      }
    }
  }

  lemma {:induction false} QuietRound(s: seq<Entry>) returns (n: nat)
    requires Distinct(s)
    ensures !Changes(Passes(s, n), 1)
    decreases Inversions(s)
  {
    if !Changes(s, 1) {
      n := 0;
    } else {
      PassKeeps(s, 1);
      var m := QuietRound(Pass(s, 1));
      n := m + 1;
    }
  }

  lemma {:induction false} NeverQuiet(s: seq<Entry>, n: nat)
    requires !Distinct(s)
    ensures Changes(Passes(s, n), 1)
    decreases n
  {
    if n == 0 {
      QuietIffSorted(s, 1);
      if !Changes(s, 1) {
        NeighboursSort(s);
      }
    } else {
      PassKeeps(s, 1);
      NeverQuiet(Pass(s, 1), n - 1);
    }
  }

  method Sort(memoryEntries: array<Entry>)
    requires Distinct(memoryEntries[..])
    modifies memoryEntries
    ensures StrictlySorted(memoryEntries[..])
    ensures multiset(memoryEntries[..]) == multiset(old(memoryEntries[..]))
  {
    while true
      invariant Distinct(memoryEntries[..])
      invariant multiset(memoryEntries[..]) == multiset(old(memoryEntries[..]))
      decreases Inversions(memoryEntries[..])
    {
      ghost var s := memoryEntries[..];
      var changed := SortPass(memoryEntries);
      PassKeeps(s, 1);
      if !changed {
        QuietIffSorted(s, 1);
        NeighboursSort(s);
        break;
      }
    }
  }

  // The inner loop.
  method SortPass(memoryEntries: array<Entry>) returns (changed: bool)
    modifies memoryEntries
    ensures memoryEntries[..] == Pass(old(memoryEntries[..]), 1)
    ensures changed == Changes(old(memoryEntries[..]), 1)
  {
    changed := false;
    var a := 1;
    while a < memoryEntries.Length
      invariant 1 <= a
      invariant Pass(memoryEntries[..], a) == Pass(old(memoryEntries[..]), 1)
      invariant (changed || Changes(memoryEntries[..], a)) == Changes(old(memoryEntries[..]), 1)
    {
      if memoryEntries[a].base <= memoryEntries[a - 1].base {
        assert Swap(memoryEntries[..], a) == memoryEntries[..][a := memoryEntries[a - 1]][a - 1 := memoryEntries[a]];
        var tmp := memoryEntries[a];
        memoryEntries[a] := memoryEntries[a - 1];
        memoryEntries[a - 1] := tmp;
        changed := true;
      }
      a := a + 1;
    }
  }
}
