/** The few facts of non-linear arithmetic the other modules need. */
module Arith {

  function Magnitude(x: int): nat {
    if x < 0 then -x else x
  }

  lemma Doubled(m: nat, p: nat)
    ensures m * (2 * p) == 2 * (m * p) && 2 * m * p == 2 * (m * p)
  {
  }

  lemma MulLe(x: int, y: int, d: nat)
    requires x <= y
    ensures x * d <= y * d
  {
    assert 0 <= (y - x) * d;
    assert (y - x) * d == y * d - x * d;
  }

  // The quotient of two natural numbers
  function Quot(x: nat, d: nat): nat
    requires 0 < d
  {
    x / d
  }

  lemma DivUnique(x: nat, d: nat, q: nat)
    requires 0 < d && q * d <= x < q * d + d
    ensures x / d == q && x % d == x - q * d
  {
    var p := x / d;
    assert x == p * d + x % d;
    if p < q {
      MulLe(p + 1, q, d);
    } else if q < p {
      MulLe(q + 1, p, d);
    }
  }

  lemma DivMonotone(x: nat, y: nat, d: nat)
    requires x <= y && 0 < d
    ensures x / d <= y / d
  {
    var p, q := x / d, y / d;
    assert x == p * d + x % d && y == q * d + y % d;
    if q < p {
      MulLe(q + 1, p, d);
    }
  }

  lemma DivStep(x: nat, d: nat)
    requires 0 < d <= x
    ensures x / d == (x - d) / d + 1
  {
    var q := (x - d) / d;
    assert x - d == q * d + (x - d) % d;
    assert (q + 1) * d == q * d + d;
    DivUnique(x, d, q + 1);
  }

  // 2^n
  function IntPow2(n: nat): (p: nat)
    ensures p > 0
  {
    if n == 0 then 1 else 2 * IntPow2(n - 1)
  }

  lemma {:induction false} IntPow2Grows(j: nat, k: nat)
    requires j <= k
    ensures IntPow2(j) <= IntPow2(k)
    decreases k
  {
    if j < k { IntPow2Grows(j, k - 1); }
  }

  lemma {:induction false} IntPow2Add(j: nat, k: nat)
    ensures IntPow2(j + k) == IntPow2(j) * IntPow2(k)
    ensures IntPow2(7) == 128
    decreases k
  {
    assert IntPow2(3) == 8 && IntPow2(5) == 4 * IntPow2(3) && IntPow2(7) == 4 * IntPow2(5);
    if k > 0 {
      IntPow2Add(j, k - 1);
      assert IntPow2(j) * (2 * IntPow2(k - 1)) == 2 * (IntPow2(j) * IntPow2(k - 1));
    }
  }

  lemma IntPow2At8()
    ensures IntPow2(8) == 256
  {
    assert IntPow2(4) == 16;
    IntPow2Add(4, 4);
  }

  lemma IntPow2At31()
    ensures IntPow2(31) == 0x8000_0000
  {
    IntPow2At8();
    IntPow2Add(8, 7);
    IntPow2Add(15, 16);
    IntPow2Add(8, 8);
  }
}
