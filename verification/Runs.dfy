// The first-fit search that the frame bitmap and the page tables share: the
// lowest run of `count` consecutive members of a set.
module Runs {
  predicate InRange(f: nat, start: nat, count: nat) {
    start <= f < start + count
  }

  ghost function Range(start: nat, count: nat): set<nat> {
    set f: nat | f < start + count && InRange(f, start, count)
  }

  lemma RangeStep(start: nat, count: nat)
    ensures Range(start, count + 1) == Range(start, count) + {start + count}
  {
  }

  lemma {:induction false} RangeCount(start: nat, count: nat)
    ensures |Range(start, count)| == count
  {
    if count > 0 {
      RangeCount(start, count - 1);
      RangeStep(start, count - 1);
    } else {
      assert Range(start, count) == {};
    }
  }

  // A run of free places.
  ghost predicate IsRun(free: set<nat>, start: nat, count: nat) {
    Range(start, count) <= free
  }

  ghost predicate HasRun(free: set<nat>, count: nat) {
    exists start: nat :: IsRun(free, start, count)
  }

  // First fit.
  ghost predicate IsFirstRun(free: set<nat>, start: nat, count: nat) {
    IsRun(free, start, count) && forall t: nat :: t < start ==> !IsRun(free, t, count)
  }

  // The state of the first-fit scan in front of `index`.
  ghost predicate Scanned(free: set<nat>, lastIndex: nat, index: nat, count: nat) {
    && lastIndex <= index < lastIndex + count
    && Range(lastIndex, index - lastIndex) <= free
    && forall t: nat :: t < lastIndex ==> !IsRun(free, t, count)
  }

  lemma {:induction false} ScanStart(free: set<nat>, base: nat, count: nat)
    requires count > 0 && forall f :: f in free ==> f >= base
    ensures Scanned(free, base, base, count)
  {
    forall t: nat | t < base
      ensures !IsRun(free, t, count)
    {
      assert InRange(t, t, count) && t in Range(t, count) && t !in free;
    }
  }

  lemma {:induction false} ScanFree(free: set<nat>, lastIndex: nat, index: nat, count: nat)
    requires Scanned(free, lastIndex, index, count) && index in free
    ensures index - lastIndex + 1 < count ==> Scanned(free, lastIndex, index + 1, count)
    ensures lastIndex <= index
    ensures index - lastIndex + 1 >= count ==>
      index + 1 == lastIndex + count && Range(lastIndex, count) <= free && HasRun(free, count) && IsFirstRun(free, lastIndex, count)
  {
    RangeStep(lastIndex, index - lastIndex);
    if index - lastIndex + 1 >= count {
      assert IsRun(free, lastIndex, count);
    }
  }

  lemma ScanBound(free: set<nat>, lastIndex: nat, index: nat, count: nat)
    requires Scanned(free, lastIndex, index, count)
    ensures index - lastIndex < count
  {
  }

  // No run reaches across a used frame.
  lemma {:induction false} ScanUsed(free: set<nat>, lastIndex: nat, index: nat, count: nat)
    requires Scanned(free, lastIndex, index, count) && index !in free
    ensures Scanned(free, index + 1, index + 1, count)
  {
    forall t: nat | t <= index
      ensures !IsRun(free, t, count)
    {
      if t >= lastIndex {
        assert InRange(index, t, count);
      }
    }
  }

  // Many free places at once.
  lemma {:induction false} ScanFreeBlock(free: set<nat>, lastIndex: nat, index: nat, size: nat, count: nat)
    requires Scanned(free, lastIndex, index, count) && Range(index, size) <= free
    ensures index + size - lastIndex < count ==> Scanned(free, lastIndex, index + size, count)
    ensures index + size - lastIndex >= count ==>
      Range(lastIndex, count) <= free && HasRun(free, count) && IsFirstRun(free, lastIndex, count)
    decreases size
  {
    if size > 0 {
      RangeStep(index, size - 1);
      ScanFreeBlock(free, lastIndex, index, size - 1, count);
      if index + size - 1 - lastIndex < count {
        ScanFree(free, lastIndex, index + size - 1, count);
      }
    }
  }

  lemma {:induction false} ScanEnd(free: set<nat>, lastIndex: nat, limit: nat, count: nat)
    requires Scanned(free, lastIndex, limit, count) && free <= Range(0, limit)
    ensures !HasRun(free, count)
  {
    forall t: nat
      ensures !IsRun(free, t, count)
    {
      if t >= lastIndex {
        var last := t + count - 1;
        assert InRange(last, t, count) && last in Range(t, count) && last !in free;
      }
    }
  }
}
