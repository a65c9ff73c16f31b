/** The single-precision word as the soft-float library reads it. */
module Single {
  import opened Arith
  import opened Words

  const HIDDEN: nat := 0x80_0000      // 1 << 23
  const SIGNBIT: nat := 0x8000_0000

  function Sign(b: u32): nat {
    b / 0x8000_0000
  }

  function Exp(b: u32): nat {
    b / 0x80_0000 % 256
  }

  function Mant(b: u32): (m: nat)
    ensures HIDDEN <= m < 2 * HIDDEN
  {
    b % 0x80_0000 + HIDDEN
  }

  // (s) | ((e) << 23) | (m) on 32 bits, for a fraction of 23 bits: bits of e above the exponent field
  // fall on the sign bit and beyond.
  function Pack(sign: nat, e: int, fraction: nat): u32
    requires sign < 2 && fraction < HIDDEN
  {
    (if sign == 1 || e % 512 >= 256 then SIGNBIT else 0) + e % 256 * HIDDEN + fraction
  }

  lemma PackedFields(sign: nat, e: int, fraction: nat)
    requires sign < 2 && fraction < HIDDEN
    ensures var b := Pack(sign, e, fraction);
            && Mant(b) == fraction + HIDDEN && Exp(b) == e % 256
            && Sign(b) == if e % 512 >= 256 then 1 else sign
  {
  }

  function Pow2(e: int): (r: real)
    ensures r > 0.0
    decreases if e < 0 then -e else e
  {
    if e == 0 then 1.0 else if e > 0 then 2.0 * Pow2(e - 1) else Pow2(e + 1) / 2.0
  }

  function Scaled(x: real, e: int): real {
    x * Pow2(e)
  }

  function Signed(sign: nat, x: real): real {
    if sign == 1 then -x else x
  }

  // For a normal number this is its IEEE 754 value; the library reads every word but 0 this way.
  function Value(b: u32): real {
    Signed(Sign(b), Scaled(Mant(b) as real, Exp(b) - 150))
  }

  function Abs(x: real): real {
    if x < 0.0 then -x else x
  }

  lemma {:induction false} Pow2Add(x: int, n: nat)
    ensures Pow2(x + n) == Pow2(x) * Pow2(n)
    decreases n
  {
    hide Pow2;
    if n == 0 {
      Pow2Zero(Pow2(x));
    } else {
      Pow2Add(x, n - 1);
      Pow2Step(x + n - 1);
      Pow2Step(n - 1);
      TwiceProduct(Pow2(x), Pow2(n - 1));
    }
  }

  lemma Pow2Zero(x: real)
    ensures x * Pow2(0) == x
  {
  }

  lemma TwiceProduct(x: real, y: real)
    ensures x * (2.0 * y) == 2.0 * (x * y)
  {
  }

  lemma Pow2Step(e: int)
    ensures Pow2(e + 1) == 2.0 * Pow2(e)
  {
  }

  lemma {:induction false} Pow2Increasing(x: int, n: nat)
    requires 0 < n
    ensures Pow2(x) < Pow2(x + n)
    decreases n
  {
    Pow2Step(x + n - 1);
    if n > 1 { Pow2Increasing(x, n - 1); }
  }

  lemma Pow2At23()
    ensures Pow2(23) == 8388608.0 && Pow2(-1) == 0.5
  {
    assert Pow2(4) == 16.0;
    Pow2Add(4, 4);
    Pow2Add(8, 8);
    Pow2Add(16, 4);
    Pow2Add(20, 3);
    assert Pow2(3) == 8.0;
  }

  // w is m * 2^e, with at most 24 significant bits.
  ghost predicate Is24Bit(w: real, m: int, e: int) {
    -0x100_0000 < m < 0x100_0000 && w == Scaled(m as real, e)
  }

  // v is the one number of at most 24 significant bits that is nearest to x: IEEE 754-2019,
  // section 4.3.1, where no tie is to be broken.
  ghost predicate IsNearest(v: real, x: real) {
    && (exists m, e :: Is24Bit(v, m, e))
    && forall w, m, e | Is24Bit(w, m, e) && w != v :: Abs(v - x) < Abs(w - x)
  }

  lemma {:induction false} Pow2IsInt(n: nat)
    ensures Pow2(n) == IntPow2(n) as real
  {
    if n > 0 { Pow2IsInt(n - 1); }
  }

  lemma {:induction false} Pow2Negative(e: int)
    requires e < 0
    ensures Pow2(e) <= 0.5
    decreases -e
  {
    if e < -1 { Pow2Negative(e + 1); }
  }

  // Next to the integer r, with 2^23 <= r and r nearest to q, no other number of 24 significant
  // bits comes as close to q.
  lemma NearestInteger(q: real, r: nat, m: int, d: int)
    requires NearInteger(q, r)
    requires -0x100_0000 < m < 0x100_0000 && Scaled(m as real, d) != r as real
    ensures Abs(r as real - q) < Abs(Scaled(m as real, d) - q)
  {
    if d >= 0 {
      Pow2IsInt(d);
      RealTimes(m, IntPow2(d));
      FartherInteger(q, r, m * IntPow2(d));
    } else {
      Pow2Negative(d);
      SmallTimesHalf(m, Pow2(d));
      FartherBelow(q, r, Scaled(m as real, d));
    }
  }

  lemma RealTimes(m: int, k: int)
    ensures (m as real) * (k as real) == (m * k) as real
  {
  }

  lemma FartherInteger(q: real, r: nat, j: int)
    requires NearInteger(q, r) && j != r
    ensures Abs(r as real - q) < Abs(j as real - q)
  {
  }

  lemma FartherBelow(q: real, r: nat, w: real)
    requires NearInteger(q, r) && w < 8388608.0
    ensures Abs(r as real - q) < Abs(w - q)
  {
    assert r == HIDDEN || r as real >= 8388609.0;
  }

  ghost predicate NearInteger(q: real, r: nat) {
    8388608.0 <= q && HIDDEN <= r < 2 * HIDDEN && -0.5 < r as real - q < 0.5
  }

  lemma SmallTimesHalf(m: int, p: real)
    requires m < 0x100_0000 && 0.0 < p <= 0.5
    ensures (m as real) * p < 8388608.0
  {
    if m <= 0 {
      assert (m as real) * p <= 0.0;
    } else {
      assert (m as real) * p <= (m as real) * 0.5;
    }
  }

  // Signs and scales do not change which of two numbers is nearer.
  lemma ScaledDistance(sign: nat, y: real, q: real, s: int)
    ensures Abs(Signed(sign, Scaled(y, s)) - Signed(sign, Scaled(q, s))) == Scaled(Abs(y - q), s)
  {
    var p := Pow2(s);
    assert p > 0.0;
    assert (y - q) * p == y * p - q * p;
    if y < q {
      assert (y - q) * p < 0.0;
    } else {
      assert (y - q) * p >= 0.0;
    }
  }

  lemma ScaledLess(x: real, y: real, s: int)
    requires x < y
    ensures Scaled(x, s) < Scaled(y, s)
  {
    var p := Pow2(s);
    assert p > 0.0;
    assert (y - x) * p > 0.0;
    assert (y - x) * p == y * p - x * p;
  }

  // The same at any scale and of either sign
  lemma NearestScaled(sign: nat, q: real, r: nat, s: int)
    requires sign < 2 && NearInteger(q, r)
    ensures IsNearest(Signed(sign, Scaled(r as real, s)), Signed(sign, Scaled(q, s)))
  {
    var v, x := Signed(sign, Scaled(r as real, s)), Signed(sign, Scaled(q, s));
    var r' := if sign == 1 then -(r as int) else r as int;
    assert Is24Bit(v, r', s);
    forall w, m, e | Is24Bit(w, m, e) && w != v ensures Abs(v - x) < Abs(w - x) {
      Farther(sign, q, r, s, w, m, e);
    }
  }

  lemma Farther(sign: nat, q: real, r: nat, s: int, w: real, m: int, e: int)
    requires sign < 2 && NearInteger(q, r) && Is24Bit(w, m, e) && w != Signed(sign, Scaled(r as real, s))
    ensures Abs(Signed(sign, Scaled(r as real, s)) - Signed(sign, Scaled(q, s)))
            < Abs(w - Signed(sign, Scaled(q, s)))
  {
    var m' := if sign == 1 then -m else m;
    var y := Scaled(m' as real, e - s);
    Rescaled(sign, w, m, e, s);
    NearestInteger(q, r, m', e - s);
    ScaledDistance(sign, r as real, q, s);
    ScaledDistance(sign, y, q, s);
    ScaledLess(Abs(r as real - q), Abs(y - q), s);
  }

  lemma Rescaled(sign: nat, w: real, m: int, e: int, s: int)
    requires Is24Bit(w, m, e)
    ensures w == Signed(sign, Scaled(Scaled((if sign == 1 then -m else m) as real, e - s), s))
  {
    ScaledTwice((if sign == 1 then -m else m) as real, e - s, s);
  }

  lemma ScaledTwice(x: real, d: int, s: int)
    ensures Scaled(Scaled(x, d), s) == Scaled(x, d + s)
  {
    Pow2Sum(d, s);
    Associate(x, Pow2(d), Pow2(s));
  }

  lemma Associate(x: real, d: real, p: real)
    ensures x * d * p == x * (d * p)
  {
  }

  lemma Pow2Sum(x: int, y: int)
    ensures Pow2(x + y) == Pow2(x) * Pow2(y)
  {
    if y >= 0 {
      Pow2Add(x, y);
    } else {
      Pow2Inverse(0 - y);
      Pow2Drop(x + y, 0 - y, x);
    }
  }

  lemma Pow2Drop(z: int, n: nat, x: int)
    requires z + n == x && Pow2(0 - n) * Pow2(n) == 1.0
    ensures Pow2(z) == Pow2(x) * Pow2(0 - n)
  {
    Pow2Add(z, n);
    hide Pow2;
    Cancel(Pow2(z), Pow2(n), Pow2(0 - n), Pow2(x));
  }

  lemma Pow2Inverse(n: nat)
    ensures Pow2(0 - n) * Pow2(n) == 1.0
  {
    Pow2Add(0 - n, n);
  }

  lemma Cancel(z: real, n: real, y: real, x: real)
    requires x == z * n && y * n == 1.0
    ensures z == x * y
  {
    assert x * y == z * (n * y);
  }
}
