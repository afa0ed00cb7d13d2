// Sequences without repetition.
module Sequences {
  ghost predicate NoDuplicates<T>(s: seq<T>) {
    forall i, j :: 0 <= i < j < |s| ==> s[i] != s[j]
  }

  lemma NoDuplicatesWith<T>(s: seq<T>, k: nat, x: T)
    requires k <= |s| && NoDuplicates(s) && x !in s
    ensures NoDuplicates(s[..k] + [x] + s[k..]) && NoDuplicates([x] + s) && NoDuplicates(s + [x])
  {
  }

  lemma NoDuplicatesWithout<T>(s: seq<T>, k: nat)
    requires k < |s| && NoDuplicates(s)
    ensures NoDuplicates(s[..k] + s[k + 1..]) && NoDuplicates(s[1..]) && NoDuplicates(s[..|s| - 1])
  {
  }

  lemma Unique<T>(s: seq<T>, k: nat)
    requires k < |s| && NoDuplicates(s)
    ensures forall i :: 0 <= i < |s| && i != k ==> s[i] != s[k]
  {
  }
}
