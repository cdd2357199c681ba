/** Finite sums of naturals, and the saturating arithmetic of `u64` path counts. */
module Sums {

  /** The largest unsigned 64-bit integer. */
  const U64_MAX: nat := 0xFFFF_FFFF_FFFF_FFFF

  /** The value a saturating `u64` computation yields for the true value `x`. */
  function Sat(x: nat): nat {
    if x > U64_MAX then U64_MAX else x
  }

  function SatAdd(a: nat, b: nat): nat {
    Sat(a + b)
  }

  function SatMul(a: nat, b: nat): nat {
    Sat(a * b)
  }

  /** Clamping at every addition is clamping once at the end. */
  lemma SatAddExact(x: nat, y: nat)
    ensures SatAdd(Sat(x), Sat(y)) == Sat(x + y)
  {
  }

  lemma MulAtLeast(x: nat, y: nat)
    requires y > 0
    ensures x * y >= x
  {
  }

  /** Clamping both factors first does not change the clamped product. */
  lemma SatMulExact(x: nat, y: nat)
    ensures SatMul(Sat(x), Sat(y)) == Sat(x * y)
  {
    if y > 0 && x > U64_MAX {
      MulAtLeast(x, y);
      MulAtLeast(U64_MAX, Sat(y));
    } else if x > 0 && y > U64_MAX {
      MulAtLeast(y, x);
      MulAtLeast(U64_MAX, Sat(x));
    }
  }

  function Sum(n: nat, f: nat -> nat): nat {
    if n == 0 then 0 else Sum(n - 1, f) + f(n - 1)
  }

  lemma {:induction false} SumEq(n: nat, f: nat -> nat, h: nat -> nat)
    requires forall i: nat | i < n :: f(i) == h(i)
    ensures Sum(n, f) == Sum(n, h)
  {
    if n > 0 {
      SumEq(n - 1, f, h);
    }
  }

  /** A sum is positive exactly when one of its terms is. */
  lemma {:induction false} SumPositive(n: nat, f: nat -> nat)
    ensures Sum(n, f) > 0 <==> exists i: nat :: i < n && f(i) > 0
  {
    if n > 0 {
      SumPositive(n - 1, f);
      assert f(n - 1) > 0 ==> exists i: nat :: i < n && f(i) > 0;
    }
  }

  /** Changing one term changes the sum by the difference. */
  lemma {:induction false} SumChange(n: nat, f: nat -> nat, h: nat -> nat, j: nat)
    requires j < n
    requires forall i: nat | i < n && i != j :: f(i) == h(i)
    ensures Sum(n, f) + h(j) == Sum(n, h) + f(j)
  {
    if j == n - 1 {
      SumEq(n - 1, f, h);
    } else {
      SumChange(n - 1, f, h, j);
    }
  }

  /** A sum with a single nonzero term. */
  lemma SumSingle(n: nat, f: nat -> nat, j: nat)
    requires j < n
    requires forall i: nat | i < n && i != j :: f(i) == 0
    ensures Sum(n, f) == f(j)
  {
    SumChange(n, f, (i: nat) => 0, j);
    SumPositive(n, (i: nat) => 0);
  }

  lemma {:induction false} SumScale(n: nat, f: nat -> nat, h: nat -> nat, c: nat)
    requires forall i: nat | i < n :: h(i) == c * f(i)
    ensures Sum(n, h) == c * Sum(n, f)
  {
    if n > 0 {
      SumScale(n - 1, f, h, c);
      assert h(n - 1) == c * f(n - 1);
      assert c * (Sum(n - 1, f) + f(n - 1)) == c * Sum(n - 1, f) + c * f(n - 1);
    }
  }

  lemma {:induction false} SumAdd(n: nat, f: nat -> nat, g: nat -> nat, h: nat -> nat)
    requires forall i: nat | i < n :: h(i) == f(i) + g(i)
    ensures Sum(n, h) == Sum(n, f) + Sum(n, g)
  {
    if n > 0 {
      SumAdd(n - 1, f, g, h);
    }
  }

  function Row(f: (nat, nat) -> nat, i: nat): nat -> nat {
    (j: nat) => f(i, j)
  }

  /** The row totals of a table with `m` columns. */
  function Rows(m: nat, f: (nat, nat) -> nat): nat -> nat {
    (i: nat) => Sum(m, Row(f, i))
  }

  function Flip(f: (nat, nat) -> nat): (nat, nat) -> nat {
    (j: nat, i: nat) => f(i, j)
  }

  /** Rows first or columns first: the same total. */
  lemma {:induction false} SumExchange(n: nat, m: nat, f: (nat, nat) -> nat)
    ensures Sum(n, Rows(m, f)) == Sum(m, Rows(n, Flip(f)))
  {
    if n == 0 {
      SumPositive(m, Rows(0, Flip(f)));
    } else {
      SumExchange(n - 1, m, f);
      SumAdd(m, Rows(n - 1, Flip(f)), Row(f, n - 1), Rows(n, Flip(f)));
    }
  }
}
