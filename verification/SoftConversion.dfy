/** Conversions between int32_t and single precision, and the comparison of two words. */
module SoftConversion {
  import opened Arith
  import opened Bits
  import opened Single
  import opened Words

  const INT_MIN: int := -0x8000_0000

  type i32 = x: int | INT_MIN <= x < 0x8000_0000

  const FULL: nat := 0x100_0000

  // The mantissa and exponent that shifting a into [2^23, 2^24) ends with
  function Normal(a: nat, e: int): (r: (nat, int))
    requires 0 < a
    ensures HIDDEN <= r.0 < FULL
    decreases if a >= FULL then a else FULL - a
  {
    if a >= FULL then Normal(a / 2, e + 1)
    else if a < HIDDEN then Normal(2 * a, e - 1)
    else (a, e)
  }

  // The word without its sign bit
  function Unsigned(a: nat): int {
    if a == 0 then 0 else var (m, e) := Normal(a, 150); e * HIDDEN + (m - HIDDEN)
  }

  // a with all but its 24 leading bits cleared
  function Trunc24(a: nat): nat {
    if a < FULL then a else 2 * Trunc24(a / 2)
  }

  // a has 24 bits in front of k more, or j bits short of 24.
  lemma {:induction false} NormalShift(a: nat, e: int)
    requires 0 < a
    ensures var (m, x) := Normal(a, e);
            if a >= HIDDEN then x >= e && Trunc24(a) == m * IntPow2(x - e) <= a
            else x < e && a * IntPow2(e - x) == m
    decreases if a >= FULL then a else FULL - a
  {
    var (m, x) := Normal(a, e);
    if a >= FULL {
      NormalShift(a / 2, e + 1);
      Doubled(m, IntPow2(x - e - 1));
    } else if a < HIDDEN {
      NormalShift(2 * a, e - 1);
      if 2 * a >= HIDDEN {
        assert Normal(2 * a, e - 1) == (2 * a, e - 1);
        assert IntPow2(1) == 2;
      } else {
        Doubled(a, IntPow2(e - 1 - x));
      }
    }
  }

  // For a magnitude of 31 bits the exponent stays between 127 and 157.
  lemma NormalRange(a: nat)
    requires 0 < a < 0x8000_0000
    ensures 127 <= Normal(a, 150).1 <= 157
  {
    var (m, x) := Normal(a, 150);
    NormalShift(a, 150);
    if x > 157 {
      IntPow2Grows(8, x - 150);
      assert IntPow2(8) == 256 by { assert IntPow2(4) == 16; }
      MulLe(HIDDEN, m, IntPow2(x - 150));
    }
    if x < 127 {
      IntPow2Grows(24, 150 - x);
      Pow2At23();
      Pow2IsInt(23);
      MulLe(1, a, IntPow2(150 - x));
    }
  }

  // ---------- int32_t to float ----------

  // The word __floatsisf returns
  function FloatWord(x: int): u32
    requires INT_MIN < x < 0x8000_0000
  {
    if x == 0 then 0
    else
      NormalRange(Magnitude(x));
      (if x < 0 then SIGNBIT else 0) + Unsigned(Magnitude(x))
  }

  // INT_MIN has no negation in an int32_t: it stays negative under the first loop's arithmetic
  // shifts, and the loop does not end.
  method FloatSiSf(x: i32) returns (r: u32)
    requires x != INT_MIN
    ensures r == FloatWord(x)
  {
    var sign := if x >= 0 then 0 else 1;
    var af: nat := if x >= 0 then x else -x;
    var ae: int := 150;
    if af == 0 {
      return 0;
    }
    NormalRange(af);
    while af >= 0x100_0000                       // af & 0xff000000
      invariant 0 < af && Normal(af, ae) == Normal(Magnitude(x), 150)
      decreases af
    {
      ae := ae + 1;
      af := af / 2;
    }
    while af < 0x80_0000                         // (af & 0xff800000) == 0
      invariant 0 < af < FULL && Normal(af, ae) == Normal(Magnitude(x), 150)
      decreases FULL - af
    {
      ae := ae - 1;
      af := af * 2;
    }
    r := sign * SIGNBIT + ae * HIDDEN + af % 0x80_0000;
  }

  // The guard of the first loop on an int32_t: some bit of the top byte is set.
  predicate TopByteSet(af: int) {
    af < 0 || af >= 0x100_0000
  }

  // af after n arithmetic shifts to the right
  function Shifted(af: int, n: nat): int
    decreases n
  {
    if n == 0 then af else Shifted(af / 2, n - 1)
  }

  lemma {:induction false} NegativeNeverNormal(af: int, n: nat)
    requires af < 0
    ensures TopByteSet(Shifted(af, n))
    decreases n
  {
    if n > 0 { NegativeNeverNormal(af / 2, n - 1); }
  }

  // -x on an int32_t
  function Absolute(x: i32): i32 {
    if x >= 0 || x == INT_MIN then x else -x
  }

  lemma {:induction false} ShiftedSmall(af: nat, n: nat)
    requires af < FULL * IntPow2(n)
    ensures 0 <= Shifted(af, n) < FULL
    decreases n
  {
    if n > 0 { ShiftedSmall(af / 2, n - 1); }
  }

  // The first loop ends for every integer but the most negative one.
  lemma FirstLoopEndsIff(x: i32)
    ensures (exists n: nat :: !TopByteSet(Shifted(Absolute(x), n))) <==> x != INT_MIN
  {
    if x == INT_MIN {
      forall n: nat ensures TopByteSet(Shifted(INT_MIN, n)) {
        NegativeNeverNormal(INT_MIN, n);
      }
    } else {
      IntPow2At8();
      ShiftedSmall(Absolute(x), 8);
    }
  }

  // ---------- float to int32_t ----------

  // The integer __fixsfsi returns
  function FixedWord(b: u32): int {
    var shift := 157 - Exp(b);
    var af := if shift <= 0 then Mant(b) * 128 else if shift < 31 then Mant(b) * 128 / IntPow2(shift) else 0;
    if Sign(b) == 1 then -af else af
  }

  method FixSfSi(b: u32) returns (r: i32)
    ensures r == FixedWord(b)
  {
    var ae: int := Exp(b);
    var af: nat := Mant(b) * 128;
    var shift: int := 0x80 + 29 - ae;
    if shift > 0 {
      if shift < 31 {
        af := ShiftRight(af, shift);
      } else {
        af := 0;
      }
    }
    r := if Sign(b) == 1 then -(af as int) else af;
  }

  // af >>= n
  method ShiftRight(x: nat, n: nat) returns (r: nat)
    ensures r == x / IntPow2(n) && r <= x
  {
    r := x;
    var k := 0;
    while k < n
      invariant k <= n && r <= x && r == x / IntPow2(k)
    {
      DivDiv(x, IntPow2(k), 2);
      r := r / 2;
      k := k + 1;
    }
  }

  function Truncated(x: int): int {
    if x < 0 then 0 - Trunc24(-x) else Trunc24(x)
  }

  lemma FloatFields(x: int)
    requires INT_MIN < x < 0x8000_0000 && x != 0
    ensures var (b, (m, e)) := (FloatWord(x), Normal(Magnitude(x), 150));
            Mant(b) == m && Exp(b) == e && Sign(b) == if x < 0 then 1 else 0
  {
    NormalRange(Magnitude(x));
    var (m, e) := Normal(Magnitude(x), 150);
    PackedFields(if x < 0 then 1 else 0, e, m - HIDDEN);
    assert FloatWord(x) == Pack(if x < 0 then 1 else 0, e, m - HIDDEN);
  }

  // Converting to float and back truncates toward zero to 24 significant bits.
  lemma RoundTrip(x: int)
    requires INT_MIN < x < 0x8000_0000
    ensures FixedWord(FloatWord(x)) == Truncated(x)
  {
    hide Trunc24, IntPow2;
    if x != 0 {
      var a := Magnitude(x);
      var (m, e) := Normal(a, 150);
      FloatFields(x);
      NormalRange(a);
      NormalShift(a, 150);
      FixedMagnitude(a, m, e);
    } else {
      ZeroTrip();
    }
  }

  lemma ZeroTrip()
    ensures FixedWord(FloatWord(0)) == Truncated(0)
  {
  }

  lemma FixedMagnitude(a: nat, m: nat, e: int)
    requires 127 <= e <= 157 && 0 < a
    requires if a >= HIDDEN then e >= 150 && Trunc24(a) == m * IntPow2(e - 150)
             else e < 150 && a * IntPow2(150 - e) == m
    ensures e == 157 ==> m * 128 == Trunc24(a)
    ensures e < 157 ==> m * 128 / IntPow2(157 - e) == Trunc24(a)
  {
    if a >= HIDDEN {
      FixedFull(m, e);
    } else {
      FixedShort(a, m, e);
    }
  }

  lemma FixedFull(m: nat, e: int)
    requires 150 <= e <= 157
    ensures e == 157 ==> m * 128 == m * IntPow2(e - 150)
    ensures m * 128 / IntPow2(157 - e) == m * IntPow2(e - 150)
  {
    IntPow2Add(e - 150, 157 - e);
    Quotient(m, IntPow2(e - 150), IntPow2(157 - e));
  }

  lemma FixedShort(a: nat, m: nat, e: int)
    requires e < 150 && a * IntPow2(150 - e) == m
    ensures m * 128 / IntPow2(157 - e) == a
  {
    IntPow2Add(150 - e, 7);
    Regroup(a, IntPow2(150 - e), 128);
    DivUnique(m * 128, IntPow2(157 - e), a);
  }

  lemma Regroup(x: nat, y: nat, z: nat)
    ensures x * y * z == x * (y * z)
  {
  }

  lemma Quotient(x: nat, y: nat, d: nat)
    requires 0 < d
    ensures x * (y * d) / d == x * y && x * (y * d) == x * y * d
  {
    assert x * (y * d) == x * y * d;
    DivUnique(x * y * d, d, x * y);
  }

  // ---------- comparison ----------

  // The word as the int32_t the code compares
  function AsInt(b: u32): i32 {
    if b >= SIGNBIT then b - 0x1_0000_0000 else b
  }

  // b ^ SIGNBIT
  function FlipSign(b: u32): u32 {
    if b >= SIGNBIT then b - SIGNBIT else b + SIGNBIT
  }

  function Order(x: int, y: int): int {
    if x < y then -1 else if x > y then 1 else 0
  }

  function CmpWord(a1: u32, a2: u32): int {
    if Sign(a1) == 1 && Sign(a2) == 1 then Order(AsInt(FlipSign(a2)), AsInt(FlipSign(a1)))
    else Order(AsInt(a1), AsInt(a2))
  }

  method CmpSf2(a1: u32, a2: u32) returns (r: int)
    ensures r == CmpWord(a1, a2)
  {
    var l1, l2, i := a1, a2, 0;
    if Sign(l1) != 0 && Sign(l2) != 0 {
      l1 := FlipSign(l1);
      l2 := FlipSign(l2);
      i := 1;
    }
    if i == 0 {
      if AsInt(l1) < AsInt(l2) { return -1; }
      if AsInt(l1) > AsInt(l2) { return 1; }
      return 0;
    } else {
      if AsInt(l1) > AsInt(l2) { return -1; }
      if AsInt(l1) < AsInt(l2) { return 1; }
      return 0;
    }
  }

  function At(a: nat, e: int): int
    requires 0 < a
  {
    var (m, x) := Normal(a, e); x * HIDDEN + (m - HIDDEN)
  }

  // Words of larger numbers are larger, whatever the exponent counting starts from.
  lemma {:induction false} AtMonotone(a: nat, b: nat, e: int)
    requires 0 < a <= b
    ensures At(a, e) <= At(b, e)
    decreases b >= FULL, if b >= FULL then b else FULL - b
  {
    if b >= FULL {
      if a >= FULL {
        AtMonotone(a / 2, b / 2, e + 1);
      } else {
        AtBounds(a, e);
        AtBounds(b, e);
      }
    } else if a < HIDDEN {
      if b < HIDDEN {
        AtMonotone(2 * a, 2 * b, e - 1);
      } else {
        AtBounds(a, e);
      }
    }
  }

  lemma {:induction false} AtBounds(a: nat, e: int)
    requires 0 < a
    ensures a < FULL ==> At(a, e) < (e + 1) * HIDDEN
    ensures a < HIDDEN ==> At(a, e) < e * HIDDEN
    ensures a >= FULL ==> (e + 1) * HIDDEN <= At(a, e)
    decreases if a >= FULL then a else FULL - a
  {
    if a >= FULL {
      AtBounds(a / 2, e + 1);
      assert a / 2 < FULL ==> Normal(a / 2, e + 1) == (a / 2, e + 1);
    } else if a < HIDDEN {
      AtBounds(2 * a, e - 1);
    }
  }

  // Truncating first does not change the word.
  lemma {:induction false} AtTruncated(a: nat, e: int)
    requires 0 < a
    ensures 0 < Trunc24(a) && At(Trunc24(a), e) == At(a, e)
    decreases a
  {
    if a >= FULL {
      AtTruncated(a / 2, e + 1);
      TruncLarge(a);
    }
  }

  lemma {:induction false} TruncLarge(a: nat)
    ensures a >= HIDDEN ==> Trunc24(a) >= HIDDEN
    ensures a >= FULL ==> Trunc24(a) >= FULL
    decreases a
  {
    if a >= FULL { TruncLarge(a / 2); }
  }

  // The order of the words is the order of the truncated magnitudes.
  lemma UnsignedOrder(a: nat, b: nat)
    requires a < 0x8000_0000 && b < 0x8000_0000
    ensures Order(Unsigned(a), Unsigned(b)) == Order(Trunc24(a), Trunc24(b))
    ensures 0 <= Unsigned(a) < SIGNBIT
  {
    UnsignedRange(a);
    UnsignedRange(b);
    if a > 0 && b > 0 {
      AtTruncated(a, 150);
      AtTruncated(b, 150);
      if Trunc24(a) <= Trunc24(b) { AtMonotone(Trunc24(a), Trunc24(b), 150); }
      if Trunc24(b) <= Trunc24(a) { AtMonotone(Trunc24(b), Trunc24(a), 150); }
      if Unsigned(a) == Unsigned(b) {
        RoundTrip(a);
        RoundTrip(b);
      }
    } else {
      if a > 0 { AtTruncated(a, 150); }
      if b > 0 { AtTruncated(b, 150); }
    }
  }

  lemma UnsignedRange(a: nat)
    requires a < 0x8000_0000
    ensures 0 <= Unsigned(a) < SIGNBIT && (0 < a ==> 0 < Unsigned(a))
  {
    if a > 0 { NormalRange(a); }
  }

  // Comparing two converted integers compares the integers truncated to 24 significant bits;
  // below 2^24 that is the integers themselves.
  lemma OrderEmbedding(x: int, y: int)
    requires INT_MIN < x < 0x8000_0000 && INT_MIN < y < 0x8000_0000
    ensures CmpWord(FloatWord(x), FloatWord(y)) == Order(Truncated(x), Truncated(y))
    ensures Magnitude(x) < FULL && Magnitude(y) < FULL ==> CmpWord(FloatWord(x), FloatWord(y)) == Order(x, y)
  {
    UnsignedOrder(Magnitude(x), Magnitude(y));
    UnsignedOrder(Magnitude(y), Magnitude(x));
    WordParts(x);
    WordParts(y);
  }

  lemma WordParts(x: int)
    requires INT_MIN < x < 0x8000_0000
    ensures var (b, u) := (FloatWord(x), Unsigned(Magnitude(x)));
            if x < 0 then Sign(b) == 1 && AsInt(b) < 0 && AsInt(FlipSign(b)) == u
            else Sign(b) == 0 && AsInt(b) == u
    ensures if x < 0 then Truncated(x) < 0 else Truncated(x) >= 0
  {
    UnsignedRange(Magnitude(x));
    if x < 0 { AtTruncated(Magnitude(x), 150); }
  }
}
