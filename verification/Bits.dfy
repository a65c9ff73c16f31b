/** Bitwise and, or and shifts on natural numbers, bit by bit. */
module Bits {
  import opened Arith

  function And(x: nat, y: nat): (r: nat)
    ensures r <= y
  {
    if x == 0 || y == 0 then 0 else 2 * And(x / 2, y / 2) + (if x % 2 == 1 && y % 2 == 1 then 1 else 0)
  }

  function Or(x: nat, y: nat): nat {
    if x == 0 && y == 0 then 0 else 2 * Or(x / 2, y / 2) + (if x % 2 == 1 || y % 2 == 1 then 1 else 0)
  }

  // x >> n
  function Shr(x: nat, n: nat): nat {
    Quot(x, IntPow2(n))
  }

  lemma ShrStep(x: nat, n: nat)
    ensures Shr(x / 2, n) == Shr(x, n + 1) && Shr(x, n) / 2 == Shr(x, n + 1)
  {
    DivDiv(x, 2, IntPow2(n));
    DivDiv(x, IntPow2(n), 2);
  }

  lemma DivDiv(x: nat, c: nat, d: nat)
    requires 0 < c && 0 < d
    ensures 0 < c * d && x / c / d == x / (c * d)
  {
    var y, q := x / c, x / c / d;
    Nested(x, c, d, y, x - y * c, q, y - q * d);
    DivUnique(x, c * d, q);
  }

  lemma Nested(x: nat, c: nat, d: nat, y: nat, r: int, q: nat, s: int)
    requires x == y * c + r && 0 <= r < c && y == q * d + s && 0 <= s < d
    ensures 0 < c * d && q * (c * d) <= x < q * (c * d) + c * d
  {
    MulLe(s, d - 1, c);
    Expand(q, d, s, c);
  }

  lemma Expand(q: nat, d: nat, s: int, c: nat)
    ensures (q * d + s) * c == q * (c * d) + s * c && (d - 1) * c == c * d - c
  {
  }

  lemma ModDouble(x: nat, p: nat)
    requires 0 < p
    ensures x % (2 * p) == 2 * (x / 2 % p) + x % 2
  {
    var y := x / 2;
    var q := y / p;
    assert y == q * p + y % p;
    assert q * (2 * p) == 2 * (q * p);
    DivUnique(x, 2 * p, q);
  }

  // Masking with 2^k - 1 is the remainder modulo 2^k.
  lemma {:induction false} AndMask(x: nat, k: nat)
    ensures And(x, IntPow2(k) - 1) == x % IntPow2(k)
    decreases k
  {
    if k > 0 {
      AndMask(x / 2, k - 1);
      AndMaskStep(x, IntPow2(k - 1));
    }
  }

  lemma AndMaskStep(x: nat, p: nat)
    requires 0 < p && And(x / 2, p - 1) == x / 2 % p
    ensures And(x, 2 * p - 1) == x % (2 * p)
  {
    AndOdd(x, p);
    ModDouble(x, p);
  }

  lemma AndOdd(x: nat, p: nat)
    requires 0 < p
    ensures And(x, 2 * p - 1) == 2 * And(x / 2, p - 1) + x % 2
  {
    assert (2 * p - 1) / 2 == p - 1 && (2 * p - 1) % 2 == 1;
  }

  lemma {:induction false} AndSelf(x: nat)
    ensures And(x, x) == x
  {
    if x > 0 { AndSelf(x / 2); }
  }

  ghost predicate IsPow2(x: nat) {
    exists k: nat :: x == IntPow2(k)
  }

  // x && !(x & (x - 1))
  predicate ClearsLowest(x: nat) {
    0 < x && And(x, x - 1) == 0
  }

  // ispowerof2 is what its name says.
  lemma {:induction false} ClearsLowestIff(x: nat)
    requires 0 < x
    ensures ClearsLowest(x) <==> IsPow2(x)
  {
    if x == 1 {
      assert IntPow2(0) == 1;
    } else if x % 2 == 1 {
      AndSelf(x / 2);
      forall k: nat ensures x != IntPow2(k) { assert k > 0 ==> IntPow2(k) % 2 == 0; }
    } else {
      ClearsLowestIff(x / 2);
      assert (x - 1) / 2 == x / 2 - 1;
      if IsPow2(x / 2) {
        var k: nat :| x / 2 == IntPow2(k);
        assert x == IntPow2(k + 1);
      }
      if IsPow2(x) {
        var k: nat :| x == IntPow2(k);
        assert x / 2 == IntPow2(k - 1);
      }
    }
  }

  // ---------- smearing the leading bit ----------

  lemma ShrAdd(x: nat, s: nat, t: nat)
    ensures Shr(Shr(x, s), t) == Shr(x, s + t)
  {
    IntPow2Add(s, t);
    DivDiv(x, IntPow2(s), IntPow2(t));
  }

  lemma {:induction false} ShrOr(x: nat, y: nat, t: nat)
    ensures Shr(Or(x, y), t) == Or(Shr(x, t), Shr(y, t))
    decreases t
  {
    if t == 0 {
      assert IntPow2(0) == 1;
    } else {
      ShrOr(x / 2, y / 2, t - 1);
      assert Or(x, y) / 2 == Or(x / 2, y / 2);
      ShrStep(x, t - 1);
      ShrStep(y, t - 1);
      ShrStep(Or(x, y), t - 1);
    }
  }

  lemma {:induction false} OrOnes(x: nat, w: nat)
    ensures Or(x, IntPow2(w) - 1) == Shr(x, w) * IntPow2(w) + IntPow2(w) - 1
    decreases w
  {
    hide Or, Shr;
    if w == 0 {
      OrZero(x);
      ShrZero(x);
    } else {
      OrOnes(x / 2, w - 1);
      ShrStep(x, w - 1);
      OrOdd(x, IntPow2(w - 1), Shr(x, w));
    }
  }

  lemma OrOdd(x: nat, p: nat, s: nat)
    requires 0 < p && Or(x / 2, p - 1) == s * p + p - 1
    ensures Or(x, 2 * p - 1) == s * (2 * p) + 2 * p - 1
  {
    OrStep(x, p);
    Doubled(s, p);
  }

  lemma OrStep(x: nat, p: nat)
    requires 0 < p
    ensures Or(x, 2 * p - 1) == 2 * Or(x / 2, p - 1) + 1
  {
    assert (2 * p - 1) / 2 == p - 1 && (2 * p - 1) % 2 == 1;
  }

  lemma {:induction false} OrZero(x: nat)
    ensures Or(x, 0) == x
  {
    if x > 0 { OrZero(x / 2); }
  }

  lemma {:induction false} ZeroOr(y: nat)
    ensures Or(0, y) == y
  {
    if y > 0 { ZeroOr(y / 2); }
  }

  // An or has no more bits than its operands.
  lemma {:induction false} OrBound(x: nat, y: nat, k: nat)
    requires x < IntPow2(k) && y < IntPow2(k)
    ensures Or(x, y) < IntPow2(k)
    decreases k
  {
    if k > 0 { OrBound(x / 2, y / 2, k - 1); }
  }

  // Bit k of x
  predicate Bit(x: nat, k: nat) {
    Shr(x, k) % 2 == 1
  }

  // And and or, bit by bit
  lemma OrBit(x: nat, y: nat, k: nat)
    ensures Bit(Or(x, y), k) <==> Bit(x, k) || Bit(y, k)
  {
    hide Or, Shr;
    ShrOr(x, y, k);
    OrLast(Shr(x, k), Shr(y, k));
  }

  lemma OrLast(x: nat, y: nat)
    ensures Or(x, y) % 2 == 1 <==> x % 2 == 1 || y % 2 == 1
  {
    if x > 0 || y > 0 {
      DivUnique(Or(x, y), 2, Or(x / 2, y / 2));
    }
  }

  lemma {:induction false} AndBit(x: nat, y: nat, k: nat)
    ensures Bit(And(x, y), k) <==> Bit(x, k) && Bit(y, k)
    decreases k
  {
    if k == 0 {
      ShrZero(x);
      ShrZero(y);
      ShrZero(And(x, y));
    } else {
      AndBit(x / 2, y / 2, k - 1);
      assert And(x, y) / 2 == And(x / 2, y / 2);
      ShrStep(x, k - 1);
      ShrStep(y, k - 1);
      ShrStep(And(x, y), k - 1);
    }
  }

  // x has b bits, of which the leading w are ones.
  ghost predicate Ones(x: nat, b: nat, w: nat) {
    w <= b && Shr(x, b - w) == IntPow2(w) - 1
  }

  // x |= x >> w doubles the ones at the front.
  lemma Smear(x: nat, b: nat, w: nat)
    requires Ones(x, b, w)
    ensures Ones(Or(x, Shr(x, w)), b, if 2 * w <= b then 2 * w else b)
  {
    if 2 * w <= b { SmearShort(x, b, w); } else { SmearLong(x, b, w); }
  }

  // The same for a shift that may reach past all b bits
  lemma SmearBy(x: nat, b: nat, s: nat)
    requires Ones(x, b, if s <= b then s else b)
    ensures Ones(Or(x, Shr(x, s)), b, if 2 * s <= b then 2 * s else b)
  {
    if s <= b {
      Smear(x, b, s);
    } else {
      ShrZero(x);
      IntPow2Grows(b, s);
      DivUnique(x, IntPow2(s), 0);
      OrZero(x);
    }
  }

  lemma SmearShort(x: nat, b: nat, w: nat)
    requires Ones(x, b, w) && 2 * w <= b
    ensures Ones(Or(x, Shr(x, w)), b, 2 * w)
  {
    var t := b - 2 * w;
    ShrOr(x, Shr(x, w), t);
    ShrAdd(x, w, t);
    ShrAdd(x, t, w);
    OrOnes(Shr(x, t), w);
    IntPow2Add(w, w);
    Squared(IntPow2(w));
  }

  lemma Squared(p: nat)
    requires 0 < p
    ensures (p - 1) * p + p - 1 == p * p - 1
  {
  }

  lemma SmearLong(x: nat, b: nat, w: nat)
    requires Ones(x, b, w) && 2 * w > b
    ensures Ones(Or(x, Shr(x, w)), b, b)
  {
    var v := b - w;
    ShrZero(Or(x, Shr(x, w)));
    OnesShifted(w, w - v);
    ShrAdd(x, v, w - v);
    OrOnes(x, v);
    IntPow2Add(w, v);
    Widened(IntPow2(w), IntPow2(v));
  }

  lemma ShrZero(x: nat)
    ensures Shr(x, 0) == x
  {
    assert IntPow2(0) == 1;
  }

  lemma Widened(p: nat, q: nat)
    requires 0 < p
    ensures (p - 1) * q + q - 1 == p * q - 1
  {
  }

  // Shifting w ones down by d leaves w - d of them.
  lemma OnesShifted(w: nat, d: nat)
    requires d <= w
    ensures Shr(IntPow2(w) - 1, d) == IntPow2(w - d) - 1
  {
    IntPow2Add(d, w - d);
    PredDiv(IntPow2(d), IntPow2(w - d));
  }

  lemma PredDiv(p: nat, q: nat)
    requires 0 < p && 0 < q
    ensures 0 < p * q && (p * q - 1) / p == q - 1
  {
    assert (q - 1) * p == p * q - p;
    MulLe(1, q, p);
    DivUnique(p * q - 1, p, q - 1);
  }

  lemma {:induction false} LeadingOne(x: nat) returns (b: nat)
    requires 0 < x
    ensures 0 < b && Ones(x, b, 1) && IntPow2(b - 1) <= x < IntPow2(b)
  {
    if x == 1 {
      b := 1;
      assert IntPow2(0) == 1 && IntPow2(1) == 2;
    } else {
      var c := LeadingOne(x / 2);
      b := c + 1;
      ShrStep(x, c - 1);
    }
  }
}
