/** What the conversions and the comparison mean for the numbers their words stand for. */
module ConversionValue {
  import opened Arith
  import opened Single
  import opened SoftConversion
  import opened Words

  // The number's distance from zero
  function Size(b: u32): (x: real)
    ensures Value(b) == Signed(Sign(b), x)
  {
    Scaled(Mant(b) as real, Exp(b) - 150)
  }

  lemma SizePositive(b: u32)
    ensures Size(b) > 0.0
  {
    Positive(Mant(b) as real, Pow2(Exp(b) - 150));
  }

  lemma Positive(x: real, y: real)
    requires x > 0.0 && y > 0.0
    ensures x * y > 0.0
  {
  }

  // ---------- comparison ----------

  // A mantissa of 24 bits is less than any mantissa with a greater exponent.
  lemma ExponentDecides(m: nat, e: int, m': nat, e': int)
    requires m < 2 * HIDDEN && HIDDEN <= m' && e < e'
    ensures Scaled(m as real, e) < Scaled(m' as real, e')
  {
    if e + 1 < e' { Pow2Increasing(e + 1, e' - e - 1); }
    Pow2Step(e);
    var p, p' := Pow2(e), Pow2(e');
    assert 2.0 * p <= p';
    hide Pow2;
    Between(m as real, m' as real, p, p');
  }

  lemma Between(m: real, m': real, p: real, p': real)
    requires m < 16777216.0 && 8388608.0 <= m' && 0.0 < p && 2.0 * p <= p'
    ensures m * p < m' * p'
  {
    assert (16777216.0 - m) * p > 0.0;
    assert (m' - 8388608.0) * p' >= 0.0;
  }

  // Without their sign bits, words are in the order of their sizes.
  lemma SizeOrder(a: u32, b: u32)
    requires a % SIGNBIT < b % SIGNBIT
    ensures Size(a) < Size(b)
  {
    if Exp(a) < Exp(b) {
      ExponentDecides(Mant(a), Exp(a) - 150, Mant(b), Exp(b) - 150);
    } else {
      FieldsOfWord(a);
      FieldsOfWord(b);
      ScaledLess(Mant(a) as real, Mant(b) as real, Exp(a) - 150);
    }
  }

  lemma FieldsOfWord(b: u32)
    ensures b % SIGNBIT == Exp(b) * HIDDEN + (Mant(b) - HIDDEN)
    ensures b == Sign(b) * SIGNBIT + b % SIGNBIT && Sign(b) < 2
  {
  }

  function RealOrder(x: real, y: real): int {
    if x < y then -1 else if x > y then 1 else 0
  }

  // The number a word stands for: zero for the word 0
  function Number(b: u32): real {
    if b == 0 then 0.0 else Value(b)
  }

  // __cmpsf2 compares the numbers, for all words.
  lemma ComparesNumbers(a: u32, b: u32)
    ensures CmpWord(a, b) == RealOrder(Number(a), Number(b))
  {
    ComparesValues(a, b);
    FieldsOfWord(a);
    FieldsOfWord(b);
    SizePositive(a);
    SizePositive(b);
    hide Pow2, Scaled, Size, Value;
  }

  lemma ComparesValues(a: u32, b: u32)
    ensures CmpWord(a, b) == RealOrder(Value(a), Value(b))
  {
    SizePositive(a);
    SizePositive(b);
    SizesCompared(a, b);
    FieldsOfWord(a);
    FieldsOfWord(b);
    hide Pow2, Scaled, Size, Value;
    assert Sign(a) == Sign(b) && a % SIGNBIT == b % SIGNBIT ==> a == b;
  }

  lemma SizesCompared(a: u32, b: u32)
    ensures RealOrder(Size(a), Size(b)) == Order(a % SIGNBIT, b % SIGNBIT)
  {
    if a % SIGNBIT < b % SIGNBIT {
      SizeOrder(a, b);
    } else if b % SIGNBIT < a % SIGNBIT {
      SizeOrder(b, a);
    } else {
      FieldsOfWord(a);
      FieldsOfWord(b);
    }
  }

  // ---------- int32_t to float ----------

  lemma ScaledUp(m: nat, n: nat)
    ensures Scaled(m as real, n) == (m * IntPow2(n)) as real
  {
    Pow2IsInt(n);
    RealTimes(m, IntPow2(n));
  }

  lemma ScaledDown(a: nat, n: nat)
    ensures Scaled((a * IntPow2(n)) as real, 0 - n) == a as real
  {
    Pow2IsInt(n);
    RealTimes(a, IntPow2(n));
    Pow2Inverse(n);
    hide Pow2;
    Undone(a as real, Pow2(n), Pow2(0 - n));
  }

  lemma Undone(x: real, p: real, q: real)
    requires q * p == 1.0
    ensures x * p * q == x
  {
    assert x * p * q == x * (q * p);
  }

  // __floatsisf returns the integer truncated toward zero to 24 significant bits.
  lemma FloatNumber(x: int)
    requires INT_MIN < x < 0x8000_0000
    ensures Number(FloatWord(x)) == Truncated(x) as real
  {
    if x != 0 {
      FloatValue(x);
      FloatFields(x);
      NormalRange(Magnitude(x));
    }
  }

  lemma FloatValue(x: int)
    requires INT_MIN < x < 0x8000_0000 && x != 0
    ensures Value(FloatWord(x)) == Truncated(x) as real
  {
    var a := Magnitude(x);
    var (m, e) := Normal(a, 150);
    FloatFields(x);
    NormalShift(a, 150);
    if a >= HIDDEN {
      ScaledUp(m, e - 150);
    } else {
      ScaledDown(a, 150 - e);
    }
  }

  // ---------- float to int32_t ----------

  // r is x with its fraction cut off.
  predicate CutOff(r: int, x: real) {
    if x < 0.0 then x <= r as real < x + 1.0 else x - 1.0 < r as real <= x
  }

  function FixedSize(b: u32): nat {
    if Exp(b) >= 157 then Mant(b) * 128 else Mant(b) * 128 / IntPow2(157 - Exp(b))
  }

  lemma FixedIs(b: u32)
    ensures FixedWord(b) == if Sign(b) == 1 then 0 - FixedSize(b) else FixedSize(b)
  {
    if Exp(b) <= 126 {
      IntPow2Grows(31, 157 - Exp(b));
      IntPow2At31();
      DivUnique(Mant(b) * 128, IntPow2(157 - Exp(b)), 0);
    }
    if Exp(b) == 157 {
      assert IntPow2(0) == 1;
    }
  }

  // x / d is the integer part of y == x / d.
  lemma IntegerPart(x: nat, d: nat, y: real)
    requires 0 < d && Times(y, d as real) == x as real
    ensures (x / d) as real <= y < (x / d) as real + 1.0
  {
    var q := x / d;
    assert x == q * d + x % d && (q + 1) * d == q * d + d;
    ProductsAsReal(q, d);
    Squeeze(q as real, y, d as real, x as real);
  }

  function Times(x: real, y: real): real {
    x * y
  }

  lemma ProductsAsReal(q: nat, d: nat)
    ensures Times(q as real, d as real) == (q * d) as real
    ensures Times(q as real + 1.0, d as real) == ((q + 1) * d) as real
  {
    RealTimes(q, d);
    RealTimes(q + 1, d);
    assert (q + 1) as real == q as real + 1.0;
  }

  lemma Squeeze(q: real, y: real, p: real, x: real)
    requires 0.0 < p && Times(y, p) == x && Times(q, p) <= x < Times(q + 1.0, p)
    ensures q <= y < q + 1.0
  {
    if y < q { ProductLess(y, q, p); }
    if q + 1.0 < y { ProductLess(q + 1.0, y, p); }
  }

  lemma ProductLess(x: real, y: real, p: real)
    requires 0.0 < p && x < y
    ensures Times(x, p) < Times(y, p)
  {
    assert (y - x) * p > 0.0;
  }

  lemma SizeShifted(b: u32, n: nat)
    requires n == 157 - Exp(b)
    ensures Times(Size(b), IntPow2(n) as real) == (Mant(b) * 128) as real
  {
    hide Pow2, Scaled, Times, Mant, Exp;
    TimesPow2(Size(b), n);
    ScaledTwice(Mant(b) as real, Exp(b) - 150, n);
    ScaledUp(Mant(b), 7);
    IntPow2Add(0, 7);
  }

  lemma TimesPow2(x: real, n: nat)
    ensures Times(x, IntPow2(n) as real) == Scaled(x, n)
  {
    Pow2IsInt(n);
  }

  lemma FixedSmall(b: u32)
    requires Exp(b) <= 157
    ensures FixedSize(b) as real <= Size(b) < FixedSize(b) as real + 1.0
  {
    hide Pow2, Scaled, Size, Times;
    SizeShifted(b, 157 - Exp(b));
    IntegerPart(Mant(b) * 128, IntPow2(157 - Exp(b)), Size(b));
    assert IntPow2(0) == 1;
  }

  lemma FixedLarge(b: u32)
    requires Exp(b) > 157
    ensures Size(b) >= FixedSize(b) as real + 1.0
  {
    ScaledUp(Mant(b), Exp(b) - 150);
    IntPow2Grows(8, Exp(b) - 150);
    IntPow2Add(1, 7);
    assert IntPow2(1) == 2;
    MulLe(256, IntPow2(Exp(b) - 150), Mant(b));
  }

  // Larger numbers come out as if their exponent were the largest that fits.
  lemma FixedBeyond(b: u32)
    requires Exp(b) > 157
    ensures FixedWord(b) as real == Signed(Sign(b), Scaled(Mant(b) as real, 7))
  {
    FixedIs(b);
    ScaledUp(Mant(b), 7);
    IntPow2Add(0, 7);
    assert (0 - FixedSize(b)) as real == -(FixedSize(b) as real);
  }

  /**
    __fixsfsi cuts the fraction off exactly when the number fits an int32_t by its exponent: its size
    is below 2^31.
   */
  lemma FixedValueIff(b: u32)
    ensures CutOff(FixedWord(b), Value(b)) <==> Exp(b) <= 157
  {
    SizePositive(b);
    FixedIs(b);
    FieldsOfWord(b);
    if Exp(b) <= 157 { FixedSmall(b); } else { FixedLarge(b); }
    hide Pow2, Scaled, Size, Value, FixedSize;
    if Sign(b) == 1 {
      assert (0 - FixedSize(b)) as real == -(FixedSize(b) as real);
    }
  }
}
