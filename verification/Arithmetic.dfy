/** The widths of C's integers, and division by a variable as far as the clock computations need it. */
module Arithmetic {
  const WORD16: nat := 0x1_0000
  const WORD32: nat := 0x1_0000_0000
  const WORD64: nat := 0x1_0000_0000_0000_0000

  lemma DivBounds(a: nat, d: nat)
    requires 1 <= d
    ensures a / d * d <= a < a / d * d + d
  {
  }

  lemma MulOrder(a: nat, b: nat, d: nat)
    ensures a < b ==> (a + 1) * d <= b * d
  {
    if a < b {
      assert (b - a - 1) * d >= 0;
    }
  }

  lemma DivUnique(a: nat, d: nat, q: nat)
    requires 1 <= d && q * d <= a < q * d + d
    ensures a / d == q
  {
    DivBounds(a, d);
    MulOrder(a / d, q, d);
    MulOrder(q, a / d, d);
  }

  lemma DivMonotone(a: nat, b: nat, d: nat)
    requires 1 <= d && a <= b
    ensures a / d <= b / d
  {
    DivBounds(a, d);
    DivBounds(b, d);
    MulOrder(b / d, a / d, d);
  }

  lemma DivReaches(a: nat, d: nat, q: nat)
    requires 1 <= d
    ensures q <= a / d <==> q * d <= a
  {
    DivBounds(a, d);
    MulOrder(q, a / d, d);
    MulOrder(a / d, q, d);
  }

  lemma DivShift(a: nat, d: nat, k: nat)
    requires 1 <= d
    ensures (a + k * d) / d == a / d + k
  {
    DivBounds(a, d);
    assert (a / d + k) * d == a / d * d + k * d;
    DivUnique(a + k * d, d, a / d + k);
  }

  lemma DivSum(a: nat, b: nat, d: nat)
    requires 1 <= d
    ensures (a + b) / d >= a / d + b / d
  {
    DivBounds(a, d);
    DivBounds(b, d);
    assert (a / d + b / d) * d == a / d * d + b / d * d;
    DivReaches(a + b, d, a / d + b / d);
  }
}
