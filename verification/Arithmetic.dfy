// Division by a variable. `Quot` and `Rem` are the operators / and % of the
// source, written as repeated subtraction so that no other module has to
// reason about nonlinear arithmetic.
module Arithmetic {
  function Quot(i: nat, n: nat): nat
    requires n > 0
  {
    if i < n then 0 else Quot(i - n, n) + 1
  }

  function Rem(i: nat, n: nat): (r: nat)
    requires n > 0
    ensures r < n
  {
    if i < n then i else Rem(i - n, n)
  }

  lemma {:induction false} QuotRem(i: nat, n: nat)
    requires n > 0
    ensures i == Quot(i, n) * n + Rem(i, n)
    ensures Quot(i, n) == i / n && Rem(i, n) == i % n
  {
    if i >= n {
      QuotRem(i - n, n);
      assert (Quot(i - n, n) + 1) * n == Quot(i - n, n) * n + n;
      DivStep(i, n);
    }
  }

  // A quotient and a remainder are the only ones.
  lemma {:induction false} QuotUnique(p: nat, s: nat, q: nat, r: nat, n: nat)
    requires p * n + s == q * n + r && s < n && r < n
    ensures p == q && s == r
  {
    assert (p + 1) * n == p * n + n && (q + 1) * n == q * n + n;
    if p < q {
      MulMonotonic(p + 1, q, n);
    } else if q < p {
      MulMonotonic(q + 1, p, n);
    }
  }

  lemma {:induction false} DivIs(w: nat, n: nat, q: nat, r: nat)
    requires w == n * q + r && r < n
    ensures w / n == q && w % n == r
  {
    assert w == w / n * n + w % n;
    QuotUnique(w / n, w % n, q, r, n);
  }

  lemma {:induction false} DivStep(i: nat, n: nat)
    requires 0 < n <= i
    ensures i / n == (i - n) / n + 1 && i % n == (i - n) % n
  {
    var q, r := (i - n) / n, (i - n) % n;
    assert i - n == q * n + r;
    assert n * (q + 1) == q * n + n;
    DivIs(i, n, q + 1, r);
  }

  lemma {:induction false} MulMonotonic(x: nat, y: nat, k: nat)
    requires x <= y
    ensures x * k <= y * k
  {
  }

  lemma {:induction false} QuotBound(i: nat, m: nat, n: nat)
    requires n > 0
    ensures i < m * n <==> Quot(i, n) < m
    decreases m
  {
    if m > 0 {
      assert (m - 1) * n == m * n - n;
      if i >= n {
        QuotBound(i - n, m - 1, n);
      }
    }
  }

  // Two positions with the same quotient and remainder are the same.
  lemma {:induction false} SamePosition(i: nat, o: nat, n: nat)
    requires n > 0 && Quot(i, n) == Quot(o, n) && Rem(i, n) == Rem(o, n)
    ensures i == o
    decreases i
  {
    if i >= n {
      SamePosition(i - n, o - n, n);
    }
  }

  // One step to the right.
  lemma {:induction false} QuotNext(i: nat, n: nat)
    requires n > 0
    ensures Rem(i, n) + 1 == n ==> Quot(i + 1, n) == Quot(i, n) + 1 && Rem(i + 1, n) == 0
    ensures Rem(i, n) + 1 < n ==> Quot(i + 1, n) == Quot(i, n) && Rem(i + 1, n) == Rem(i, n) + 1
  {
    if i >= n {
      QuotNext(i - n, n);
    } else if i + 1 == n {
      assert Quot(0, n) == 0 && Rem(0, n) == 0;
    }
  }

  // Moving inside one block.
  lemma {:induction false} QuotWithin(i: nat, k: nat, n: nat)
    requires n > 0 && Rem(i, n) + k < n
    ensures Quot(i + k, n) == Quot(i, n) && Rem(i + k, n) == Rem(i, n) + k
  {
    if i >= n {
      QuotWithin(i - n, k, n);
    }
  }

  function Max(a: int, b: int): int {
    if a > b then a else b
  }

  function Min(a: int, b: int): int {
    if a < b then a else b
  }

  function CeilDiv(i: nat, n: nat): nat
    requires n > 0
  {
    if i == 0 then 0 else Quot(i - 1, n) + 1
  }

  // Rounding up one position later.
  lemma {:induction false} CeilStep(i: nat, n: nat)
    requires n > 0
    ensures CeilDiv(i + 1, n) == Quot(i, n) + 1
    ensures CeilDiv(i, n) <= CeilDiv(i + 1, n)
  {
    if i > 0 {
      QuotNext(i - 1, n);
    }
  }

  lemma {:induction false} CeilBound(i: nat, m: nat, n: nat)
    requires n > 0
    ensures i <= m * n <==> CeilDiv(i, n) <= m
  {
    if i > 0 {
      QuotBound(i - 1, m, n);
    }
  }

  lemma {:induction false} CeilMonotonic(i: nat, j: nat, n: nat)
    requires n > 0 && i <= j
    ensures CeilDiv(i, n) <= CeilDiv(j, n)
    decreases j
  {
    if i < j {
      CeilStep(j - 1, n);
      CeilMonotonic(i, j - 1, n);
    }
  }

  // The end of the block around i.
  lemma {:induction false} QuotEnd(i: nat, m: nat, n: nat)
    requires n > 0 && Quot(i, n) < m
    ensures i + (n - Rem(i, n)) <= m * n
  {
    QuotRem(i, n);
    MulMonotonic(Quot(i, n) + 1, m, n);
    assert (Quot(i, n) + 1) * n == Quot(i, n) * n + n;
  }
}
