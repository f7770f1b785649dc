/**
 * Integer powers of two and the integer floor of the base-2 logarithm,
 * which the index uses for its block size and its sparse-table levels.
 */
module Log2 {

  function Pow2(e: nat): (p: nat)
    ensures p >= 1
    ensures e >= 1 ==> p % 2 == 0
  {
    if e == 0 then 1 else 2 * Pow2(e - 1)
  }

  /** The largest e with 2^e <= x. */
  function FloorLog2(x: nat): (e: nat)
    requires x >= 1
    ensures Pow2(e) <= x < Pow2(e + 1)
  {
    if x == 1 then 0 else 1 + FloorLog2(x / 2)
  }

  lemma {:induction false} Pow2Monotone(a: nat, b: nat)
    requires a <= b
    ensures Pow2(a) <= Pow2(b)
    decreases b
  {
    if a < b {
      Pow2Monotone(a, b - 1);
    }
  }

  lemma Pow2Add(a: nat, b: nat)
    ensures Pow2(a + b) == Pow2(a) * Pow2(b)
    decreases a
  {
    if a > 0 {
      Pow2Add(a - 1, b);
    }
  }

  /** The bounds 2^e <= x < 2^(e+1) determine FloorLog2(x). */
  lemma FloorLog2Unique(x: nat, e: nat)
    requires x >= 1 && Pow2(e) <= x < Pow2(e + 1)
    ensures FloorLog2(x) == e
  {
    var f := FloorLog2(x);
    if f < e {
      Pow2Monotone(f + 1, e);
    } else if f > e {
      Pow2Monotone(e + 1, f);
    }
  }

  lemma FloorLog2Monotone(x: nat, y: nat)
    requires 1 <= x <= y
    ensures FloorLog2(x) <= FloorLog2(y)
  {
    if FloorLog2(x) > FloorLog2(y) {
      Pow2Monotone(FloorLog2(y) + 1, FloorLog2(x));
    }
  }

  /** e <= 2^(e-1) for e >= 1, so a block of FloorLog2(x) entries fits twice into x >= 3. */
  lemma {:induction false} LogLinear(e: nat)
    requires e >= 1
    ensures 2 * e <= Pow2(e)
    decreases e
  {
    if e > 1 {
      LogLinear(e - 1);
    }
  }

  lemma TwoBlocks(x: nat)
    requires x >= 3
    ensures FloorLog2(x) >= 1 && x / FloorLog2(x) >= 2
  {
    var e := FloorLog2(x);
    LogLinear(e);
    DivAtLeast(x, e, 2);
  }

  lemma DivAtLeast(x: nat, d: nat, q: nat)
    requires d >= 1 && q * d <= x
    ensures x / d >= q
  {
    if x / d < q {
      assert x == d * (x / d) + x % d;
      assert d * (x / d) <= d * (q - 1) by {
        MulMonotone(d, x / d, q - 1);
      }
      assert false;
    }
  }

  lemma MulMonotone(d: nat, a: nat, b: nat)
    requires a <= b
    ensures d * a <= d * b
  {
  }
}
