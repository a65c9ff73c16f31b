/** __divsf3: single-precision division by shifting and subtracting. */
module SoftDivision {
  import opened Arith
  import opened Single
  import opened Words

  // The dividend's mantissa, doubled if it is below the divisor's
  function Dividend(a1: u32, a2: u32): (n: nat)
    ensures Mant(a2) <= n < 2 * Mant(a2) && n < 0x200_0000
  {
    if Mant(a1) < Mant(a2) then 2 * Mant(a1) else Mant(a1)
  }

  // The exponent that the result's eight-bit field has to hold
  function ResultExp(a1: u32, a2: u32): int {
    Exp(a1) - Exp(a2) + 127 - if Mant(a1) < Mant(a2) then 1 else 0
  }

  function ResultSign(a1: u32, a2: u32): (s: nat)
    ensures s < 2
  {
    if Sign(a1) == Sign(a2) then 0 else 1
  }

  // 25 quotient bits
  function Quotient(a1: u32, a2: u32): nat {
    Dividend(a1, a2) * 0x100_0000 / Mant(a2)
  }

  // One quotient bit with the remainder it leaves, shifted: n * p == 2 * d * q + f with f < 2 * d
  lemma DivideBit(n: nat, d: nat, p: nat, q: nat, f: nat)
    requires n * p == 2 * d * q + f && f < 2 * d
    ensures var b := if f >= d then 1 else 0;
            n * (2 * p) == 2 * d * (2 * q + b) + 2 * (f - b * d) && 0 <= f - b * d < d
  {
    var b := if f >= d then 1 else 0;
    assert n * (2 * p) == 2 * (n * p);
    assert 2 * d * (2 * q + b) == 2 * (2 * d * q) + 2 * (b * d);
  }

  // x | mask and x & ~mask for a power of two
  function SetBit(x: nat, mask: nat): nat
    requires 0 < mask
  {
    if x / mask % 2 == 1 then x else x + mask
  }

  function ClearBit(x: nat, mask: nat): (r: nat)
    requires 0 < mask
  {
    if x >= mask && x / mask % 2 == 1 then x - mask else x
  }

  // The quotient has 25 bits, rounding it up never carries out of 24, and the hidden bit is set.
  lemma QuotientRange(a1: u32, a2: u32)
    ensures 0x100_0000 <= Quotient(a1, a2) < 0x1ff_ffff
  {
    var n, d := Dividend(a1, a2), Mant(a2);
    QuotBounds(n * 0x100_0000, d);
  }

  lemma QuotBounds(x: nat, d: nat)
    requires 0 < d && 0x100_0000 * d <= x < 0x1ff_ffff * d
    ensures 0x100_0000 <= x / d < 0x1ff_ffff
  {
    var q := x / d;
    assert x == q * d + x % d;
    if q < 0x100_0000 { MulLe(q + 1, 0x100_0000, d); }
    if q >= 0x1ff_ffff { MulLe(0x1ff_ffff, q, d); }
  }

  // Rounded to 24 bits
  function Rounded(a1: u32, a2: u32): (r: nat)
    ensures HIDDEN <= r < 2 * HIDDEN
  {
    QuotientRange(a1, a2);
    (Quotient(a1, a2) + 1) / 2
  }

  lemma HiddenCleared(x: nat)
    requires HIDDEN <= x < 2 * HIDDEN
    ensures ClearBit(x, HIDDEN) == x - HIDDEN
  {
  }

  // The word __divsf3 returns. For a divisor of +0 the code's comment announces a NaN; what it
  // returns is the integer 0xffffffff or 0x7fffffff converted to float: 2^32 or 2^31.
  function Divided(a1: u32, a2: u32): u32 {
    if a2 == 0 then (if Sign(a1) == 1 then 0x4f80_0000 else 0x4f00_0000)
    else if a1 == 0 then 0
    else Pack(ResultSign(a1, a2), ResultExp(a1, a2), Rounded(a1, a2) - HIDDEN)
  }

  lemma SignOfZero()
    ensures Sign(0) == 0
    ensures forall b: u32 :: Sign(b) < 2
  {
  }

  method DivSf3(a1: u32, a2: u32) returns (r: u32)
    ensures r == Divided(a1, a2)
  {
    var exp := Exp(a1) - Exp(a2) + 126;
    var sign := if Sign(a1) == Sign(a2) then 0 else 1;
    if a2 == 0 {
      SignOfZero();
      return if sign == 1 then 0x4f80_0000 else 0x4f00_0000;
    }
    if a1 == 0 {
      return 0;
    }
    var f, d := Mant(a1), Mant(a2);
    if f < d {
      f := f * 2;
      exp := exp - 1;
    }
    var result := DivideMantissas(f, d);
    assert result == Quotient(a1, a2);
    HiddenCleared(Rounded(a1, a2));
    result := result + 1;
    exp := exp + 1;
    result := result / 2;
    result := ClearBit(result, HIDDEN);
    r := Pack(sign, exp, result);
  }

  // The 25 rounds of repeated subtraction
  method DivideMantissas(n: nat, d: nat) returns (result: nat)
    requires d <= n < 2 * d
    ensures result == n * 0x100_0000 / d
  {
    var f: nat, mask: nat := n, 0x100_0000;
    result := 0;
    ghost var k: nat, q: nat, g: nat := 0, 0, 0;
    IntPow2At24();
    while mask != 0
      invariant k <= 25 && mask == MaskAt(k)
      invariant n * IntPow2(k) == 2 * d * q + f && f < 2 * d && (k > 0 ==> f == 2 * g && g < d)
      invariant result == q * IntPow2(25 - k)
      decreases 25 - k
    {
      DivideBit(n, d, IntPow2(k), q, f);
      MaskStep(k);
      ShiftedBit(q, mask);
      if f >= d {
        result := SetBit(result, mask);
        f := f - d;
        q := 2 * q + 1;
      } else {
        q := 2 * q;
      }
      g := f;
      f := f * 2;
      mask := mask / 2;
      k := k + 1;
    }
    DivideEnd(n, d, q, g);
  }

  function MaskAt(k: nat): nat
    requires k <= 25
  {
    if k == 25 then 0 else IntPow2(24 - k)
  }

  lemma MaskStep(k: nat)
    requires k <= 24
    ensures IntPow2(25 - k) == 2 * MaskAt(k) && MaskAt(k) / 2 == MaskAt(k + 1) && MaskAt(k) > 0
    ensures IntPow2(k + 1) == 2 * IntPow2(k) && MaskAt(k) == IntPow2(24 - k)
  {
  }

  lemma DivideEnd(n: nat, d: nat, q: nat, g: nat)
    requires n * IntPow2(25) == 2 * d * q + 2 * g && g < d
    ensures q * IntPow2(0) == n * 0x100_0000 / d
  {
    IntPow2At24();
    assert IntPow2(25) == 2 * IntPow2(24);
    assert n * 0x100_0000 == q * d + g;
    DivUnique(n * 0x100_0000, d, q);
  }

  lemma IntPow2At24()
    ensures IntPow2(24) == 0x100_0000
  {
    Pow2At23();
    Pow2IsInt(23);
  }

  // A result of q full bits above the mask has the mask's bit clear.
  lemma ShiftedBit(q: nat, mask: nat)
    requires 0 < mask
    ensures SetBit(q * (2 * mask), mask) == (2 * q + 1) * mask && q * (2 * mask) == 2 * q * mask
  {
    DivUnique(2 * q * mask, mask, 2 * q);
    assert q * (2 * mask) == 2 * q * mask;
    assert (2 * q + 1) * mask == 2 * q * mask + mask;
  }

  // ---------- correct rounding ----------

  // x * 2^k divides into an odd number of d's without remainder only if 2^k divides d.
  lemma {:induction false} OddDivisor(x: nat, k: nat, d: nat, q: nat)
    requires x * IntPow2(k) == d * q && q % 2 == 1 && 0 < d
    ensures IntPow2(k) <= d
    decreases k
  {
    if k > 0 {
      assert x * IntPow2(k) == 2 * (x * IntPow2(k - 1));
      HalveProduct(d, q, x * IntPow2(k - 1));
      OddDivisor(x, k - 1, d / 2, q);
    }
  }

  lemma HalveProduct(d: nat, q: nat, half: nat)
    requires d * q == 2 * half && q % 2 == 1
    ensures d % 2 == 0 && d / 2 * q == half
  {
    if d % 2 == 1 {
      OddTimesOdd(d, q);
    } else {
      assert d == 2 * (d / 2);
      assert d * q == 2 * (d / 2 * q);
    }
  }

  lemma OddTimesOdd(x: nat, y: nat)
    requires x % 2 == 1 && y % 2 == 1
    ensures x * y % 2 == 1
  {
    var h, k := x / 2, y / 2;
    assert x * y == 2 * (2 * h * k + h + k) + 1;
  }

  // The quotient to 24 bits is the integer nearest to the exact one, and no tie can occur: an odd
  // 25-bit quotient always leaves a remainder.
  lemma RoundedIsNear(a1: u32, a2: u32)
    ensures var (n, d, r) := (Dividend(a1, a2), Mant(a2), Rounded(a1, a2));
            n * 0x100_0000 - d < 2 * r * d < n * 0x100_0000 + d
  {
    var n, d, q := Dividend(a1, a2), Mant(a2), Quotient(a1, a2);
    var rem := n * 0x100_0000 % d;
    assert n * 0x100_0000 == q * d + rem;
    if q % 2 == 1 {
      if rem == 0 {
        IntPow2At24();
        OddDivisor(n, 24, d, q);
      }
      assert 2 * Rounded(a1, a2) == q + 1;
      assert (q + 1) * d == q * d + d;
    } else {
      assert 2 * Rounded(a1, a2) == q;
    }
  }

  // The exact quotient of the mantissas, scaled to 24 bits before the point
  function Exact(n: nat, d: nat): real
    requires 0 < d
  {
    n as real * 8388608.0 / d as real
  }

  lemma ExactBounds(n: nat, d: nat, r: nat)
    requires 0 < d <= n && n * 0x100_0000 - d < 2 * r * d < n * 0x100_0000 + d
    ensures 8388608.0 <= Exact(n, d) && -0.5 < r as real - Exact(n, d) < 0.5
  {
    ExactTimes(n, d);
    RealTimes(r, d);
    Associate(2, r, d);
    ToReals(n, d, r * d);
    CloserThanHalf(Exact(n, d), n as real, r as real, d as real);
  }

  lemma Associate(x: int, y: int, z: int)
    ensures x * y * z == x * (y * z)
  {
  }

  lemma ToReals(n: nat, d: nat, rd: nat)
    requires d <= n && n * 0x100_0000 - d < 2 * rd < n * 0x100_0000 + d
    ensures d as real <= n as real
    ensures -(d as real) < 2.0 * (rd as real) - 2.0 * (n as real * 8388608.0) < d as real
  {
  }

  lemma CloserThanHalf(q: real, n: real, r: real, y: real)
    requires 0.0 < y <= n && q * y == n * 8388608.0 && -y < 2.0 * (r * y) - 2.0 * (n * 8388608.0) < y
    ensures 8388608.0 <= q && -0.5 < r - q < 0.5
  {
    Closer(q, r, y, n * 8388608.0, r * y);
    Order(8388608.0, q, y);
  }

  lemma ExactTimes(n: nat, d: nat)
    requires 0 < d
    ensures Exact(n, d) * (d as real) == n as real * 8388608.0
  {
  }

  lemma Closer(q: real, r: real, y: real, qy: real, ry: real)
    requires y > 0.0 && qy == q * y && ry == r * y && -y < 2.0 * ry - 2.0 * qy < y
    ensures -0.5 < r - q < 0.5
  {
    assert (r - q) * y == ry - qy;
    HalfBound(r - q, y, ry - qy);
  }

  lemma HalfBound(t: real, y: real, ty: real)
    requires y > 0.0 && ty == t * y && -y < 2.0 * ty < y
    ensures -0.5 < t < 0.5
  {
    assert (0.5 - t) * y == 0.5 * y - ty;
    assert (0.5 + t) * y == 0.5 * y + ty;
  }

  lemma Order(x: real, q: real, y: real)
    requires y > 0.0 && x * y <= q * y
    ensures x <= q
  {
    assert (q - x) * y >= 0.0;
  }

  // x / y is z if z * y is x, whatever the signs.
  lemma SignedQuotient(s1: nat, s2: nat, x: real, y: real, z: real)
    requires y > 0.0 && x == z * y && s1 < 2 && s2 < 2
    ensures Signed(s2, y) != 0.0
    ensures Signed(s1, x) / Signed(s2, y) == Signed(if s1 == s2 then 0 else 1, z)
  {
    assert Signed(s1, x) == Signed(if s1 == s2 then 0 else 1, z) * Signed(s2, y);
  }

  lemma ScaledPositive(x: real, e: int)
    requires x > 0.0
    ensures Scaled(x, e) > 0.0
  {
  }

  // Scaled(q, s) * Scaled(d, e2) == Scaled(m, e1), for q * d == m * 2^23 and exponents that add up
  lemma ScaledProduct(q: real, d: real, m: real, s: int, e1: int, e2: int)
    requires q * d == m * 8388608.0 && s + e2 + 23 == e1
    ensures Scaled(q, s) * Scaled(d, e2) == Scaled(m, e1)
  {
    Pow2At23();
    Pow2Sum(s, e2);
    Pow2Sum(s + e2, 23);
    hide Pow2;
    Rearrange(q, Pow2(s), d, Pow2(e2), m, Pow2(s + e2), 8388608.0);
  }

  lemma Rearrange(q: real, p: real, d: real, r: real, m: real, pr: real, c: real)
    requires q * d == m * c && pr == p * r
    ensures q * p * (d * r) == m * (pr * c)
  {
    assert q * p * (d * r) == q * d * (p * r);
    assert m * c * pr == m * (pr * c);
  }

  lemma MagnitudeQuotient(m1: nat, d: nat, e1: int, e2: int, n: nat, e: int)
    requires 0 < d && n == (if m1 < d then 2 * m1 else m1) && e == e1 - e2 - 23 - (if m1 < d then 1 else 0)
    ensures Scaled(m1 as real, e1) == Scaled(Exact(n, d), e) * Scaled(d as real, e2)
  {
    hide Exact, Scaled;
    ExactTimes(n, d);
    if m1 < d {
      ScaledProduct(Exact(n, d), d as real, n as real, e, e1 - 1, e2);
      ScaledDouble(m1, e1 - 1);
    } else {
      ScaledProduct(Exact(n, d), d as real, m1 as real, e, e1, e2);
    }
  }

  lemma ValueQuotient(a1: u32, a2: u32)
    ensures Value(a2) != 0.0
    ensures Value(a1) / Value(a2)
            == Signed(ResultSign(a1, a2), Scaled(Exact(Dividend(a1, a2), Mant(a2)), ResultExp(a1, a2) - 150))
  {
    hide Pow2, Scaled, Exact;
    ScaledPositive(Mant(a2) as real, Exp(a2) - 150);
    SignOfZero();
    MagnitudeQuotient(Mant(a1), Mant(a2), Exp(a1) - 150, Exp(a2) - 150, Dividend(a1, a2), ResultExp(a1, a2) - 150);
    SignedQuotient(Sign(a1), Sign(a2), Scaled(Mant(a1) as real, Exp(a1) - 150), Scaled(Mant(a2) as real, Exp(a2) - 150),
                   Scaled(Exact(Dividend(a1, a2), Mant(a2)), ResultExp(a1, a2) - 150));
  }

  lemma ScaledDouble(m: nat, e: int)
    ensures Scaled((2 * m) as real, e) == Scaled(m as real, e + 1)
  {
    Pow2Step(e);
    assert (2 * m) as real == 2.0 * (m as real);
  }

  // The number the rounding aims at: 24 bits at the exact quotient's scale
  function Target(a1: u32, a2: u32): real {
    Signed(ResultSign(a1, a2), Scaled(Rounded(a1, a2) as real, ResultExp(a1, a2) - 150))
  }

  lemma TargetIsNearest(a1: u32, a2: u32)
    ensures Value(a2) != 0.0 && IsNearest(Target(a1, a2), Value(a1) / Value(a2))
  {
    var n, d := Dividend(a1, a2), Mant(a2);
    ValueQuotient(a1, a2);
    RoundedIsNear(a1, a2);
    ExactBounds(n, d, Rounded(a1, a2));
    NearestScaled(ResultSign(a1, a2), Exact(n, d), Rounded(a1, a2), ResultExp(a1, a2) - 150);
  }

  lemma ValueOfPack(sign: nat, e: int, r: nat)
    requires sign < 2 && HIDDEN <= r < 2 * HIDDEN
    ensures Value(Pack(sign, e, r - HIDDEN))
            == Signed(if e % 512 >= 256 then 1 else sign, Scaled(r as real, e % 256 - 150))
  {
    PackedFields(sign, e, r - HIDDEN);
  }

  lemma SignedScaledDiffers(s1: nat, s2: nat, r: real, x: int, y: int)
    requires r > 0.0 && x != y
    ensures Signed(s1, Scaled(r, x)) != Signed(s2, Scaled(r, y))
  {
    ScaledPositive(r, x);
    ScaledPositive(r, y);
    ScaledInjective(r, x, y);
  }

  lemma SignedIs24Bit(v: real, sign: nat, r: nat, e: int)
    requires r < 2 * HIDDEN && v == Signed(sign, Scaled(r as real, e))
    ensures exists m, x :: Is24Bit(v, m, x)
  {
    var m: int := if sign == 1 then 0 - r else r as int;
    ScaledNegative(r, e);
    assert Is24Bit(v, m, e);
  }

  lemma FieldFits(e: int)
    ensures e % 256 == e <==> 0 <= e <= 255
    ensures 0 <= e <= 255 ==> e % 512 < 256
  {
  }

  // The packed word holds that number exactly when its exponent fits the field.
  lemma PackedValue(a1: u32, a2: u32)
    requires a1 != 0 && a2 != 0
    ensures Value(Divided(a1, a2)) == Target(a1, a2) <==> 0 <= ResultExp(a1, a2) <= 255
    ensures exists m, e :: Is24Bit(Value(Divided(a1, a2)), m, e)
  {
    var sign, e, r := ResultSign(a1, a2), ResultExp(a1, a2), Rounded(a1, a2);
    ValueOfPack(sign, e, r);
    SignedIs24Bit(Value(Divided(a1, a2)), if e % 512 >= 256 then 1 else sign, r, e % 256 - 150);
    FieldFits(e);
    if !(0 <= e <= 255) {
      SignedScaledDiffers(if e % 512 >= 256 then 1 else sign, sign, r as real, e % 256 - 150, e - 150);
    }
  }

  lemma ScaledNegative(r: nat, e: int)
    ensures Scaled((0 - r) as real, e) == -Scaled(r as real, e)
  {
    assert (0 - r) as real == -(r as real);
  }

  lemma ScaledInjective(r: real, x: int, y: int)
    requires r > 0.0 && x != y
    ensures Scaled(r, x) != Scaled(r, y)
  {
    if x < y { ScaledIncreasing(r, x, y - x); } else { ScaledIncreasing(r, y, x - y); }
  }

  lemma ScaledIncreasing(r: real, x: int, n: nat)
    requires r > 0.0 && 0 < n
    ensures Scaled(r, x) < Scaled(r, x + n)
  {
    Pow2Increasing(x, n);
    Times(r, Pow2(x), Pow2(x + n));
  }

  lemma Times(r: real, x: real, y: real)
    requires r > 0.0 && x < y
    ensures r * x < r * y
  {
    assert r * (y - x) > 0.0;
  }

  lemma NearestUnique(v: real, w: real, x: real)
    requires IsNearest(v, x) && IsNearest(w, x)
    ensures v == w
  {
  }

  /**
    __divsf3 returns the quotient correctly rounded to nearest, with no tie left to break, exactly
    when the result's exponent fits its field.
   */
  lemma CorrectlyRounded(a1: u32, a2: u32)
    requires a1 != 0 && a2 != 0
    ensures Value(a2) != 0.0
    ensures IsNearest(Value(Divided(a1, a2)), Value(a1) / Value(a2)) <==> 0 <= ResultExp(a1, a2) <= 255
  {
    TargetIsNearest(a1, a2);
    PackedValue(a1, a2);
    if IsNearest(Value(Divided(a1, a2)), Value(a1) / Value(a2)) {
      NearestUnique(Target(a1, a2), Value(Divided(a1, a2)), Value(a1) / Value(a2));
    }
  }

  // For all operands but zeros, what the word stands for: the rounded quotient with its exponent modulo 256, and
  // negative too where the exponent's ninth bit falls on the sign.
  lemma DividedValue(a1: u32, a2: u32)
    requires a1 != 0 && a2 != 0
    ensures var e := ResultExp(a1, a2);
            Value(Divided(a1, a2)) == Signed(if e % 512 >= 256 then 1 else ResultSign(a1, a2),
                                             Scaled(Rounded(a1, a2) as real, e % 256 - 150))
  {
    ValueOfPack(ResultSign(a1, a2), ResultExp(a1, a2), Rounded(a1, a2));
  }

  // A zero dividend gives zero; a zero divisor gives a positive power of two, by the dividend's sign.
  lemma DividedZero(a1: u32, a2: u32)
    ensures a1 == 0 && a2 != 0 ==> Divided(a1, a2) == 0
    ensures a2 == 0 ==> Value(Divided(a1, a2)) == Pow2(if Sign(a1) == 1 then 32 else 31)
  {
    Pow2At23();
    Pow2Sum(23, 8);
    Pow2Sum(23, 9);
    if a2 == 0 {
      WholeFraction(Divided(a1, a2), if Sign(a1) == 1 then 9 else 8);
    }
  }

  lemma WholeFraction(b: u32, e: int)
    requires Sign(b) == 0 && Mant(b) == HIDDEN && Exp(b) == e + 150
    ensures Value(b) == Pow2(23 + e)
  {
    Pow2At23();
    Pow2Sum(23, e);
  }

  // A normal number of IEEE 754: its exponent field is neither all zeros nor all ones.
  predicate IsNormal(b: u32) {
    1 <= Exp(b) <= 254
  }

  // In these terms: of normal operands the result is a normal number and correctly rounded exactly when its
  // exponent is a normal one.
  lemma NormalQuotient(a1: u32, a2: u32)
    requires IsNormal(a1) && IsNormal(a2)
    ensures Value(a2) != 0.0
    ensures IsNormal(Divided(a1, a2)) && IsNearest(Value(Divided(a1, a2)), Value(a1) / Value(a2))
            <==> 1 <= ResultExp(a1, a2) <= 254
  {
    hide Value, IsNearest;
    CorrectlyRounded(a1, a2);
    PackedFields(ResultSign(a1, a2), ResultExp(a1, a2), Rounded(a1, a2) - HIDDEN);
    FieldFits(ResultExp(a1, a2));
  }

  // Past the field the exponent's ninth bit falls on the sign: 2^127 / 2^-126 comes out as -2^-3.
  lemma OverflowFlipsSign()
    ensures Divided(0x7f00_0000, 0x0080_0000) == 0xbe00_0000
  {
    DivUnique(HIDDEN * 0x100_0000, HIDDEN, 0x100_0000);
    assert Dividend(0x7f00_0000, 0x0080_0000) == Mant(0x0080_0000) == HIDDEN;
    assert Rounded(0x7f00_0000, 0x0080_0000) == HIDDEN;
  }
}
