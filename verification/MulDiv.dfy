/** Multiplication and division in software on 32- and 64-bit words. */
module MulDiv {
  import opened Arith
  import opened Words

  const W64: nat := 0x1_0000_0000_0000_0000

  type u64 = x: nat | x < W64

  // ---------- multiplication ----------

  // One round of shift-and-add with every sum reduced modulo w: what is dropped is a multiple of w.
  lemma AddShift(a: nat, b: nat, answer: nat, k: int, w: nat) returns (k': int)
    requires a < w && answer < w && 0 < b
    ensures var answer' := if b % 2 == 1 then Wrap(answer + a, w) else answer;
            answer' + Wrap(2 * a, w) * (b / 2) + k' * w == answer + a * b + k * w
  {
    var h := b / 2;
    var c := if b % 2 == 1 && answer + a >= w then 1 else 0;
    Halves(a, h, b % 2);
    if 2 * a >= w {
      k' := k + c + h;
      Spread(2 * a, w, h);
      Sum3(k, c, h, w);
    } else {
      k' := k + c;
      Sum3(k, c, 0, w);
      Spread(2 * a, 0, h);
    }
  }

  lemma Halves(a: nat, h: nat, bit: nat)
    requires bit < 2
    ensures a * (2 * h + bit) == 2 * a * h + (if bit == 1 then a else 0)
  {
  }

  lemma Spread(x: nat, w: nat, h: nat)
    requires w <= x
    ensures (x - w) * h == x * h - h * w
  {
  }

  lemma Sum3(k: int, c: int, h: int, w: nat)
    ensures (k + c + h) * w == k * w + c * w + h * w
  {
  }

  // Addition and shift of w-words: the sum of two of them, less w if it does not fit
  function Wrap(x: nat, w: nat): (r: nat)
    requires x < 2 * w
    ensures r < w && (r == x || r + w == x)
  {
    if x < w then x else x - w
  }

  // The loop __mulsi3 and __muldsi3 share
  method ShiftAdd(a0: nat, b0: nat, w: nat) returns (answer: nat)
    requires a0 < w && b0 < w
    ensures answer == a0 * b0 % w
  {
    var a, b := a0, b0;
    answer := 0;
    ghost var k: int := 0;
    while b != 0
      invariant 0 <= a < w && 0 <= answer < w && 0 <= b && answer + a * b + k * w == a0 * b0
      decreases b
    {
      k := AddShift(a, b, answer, k, w);
      if b % 2 == 1 {
        answer := Wrap(answer + a, w);
      }
      a := Wrap(2 * a, w);
      b := b / 2;
    }
    RemainderIs(a0 * b0, w, answer, k);
  }

  lemma RemainderIs(x: nat, w: nat, r: nat, k: int)
    requires r < w && x == r + k * w
    ensures x % w == r && x / w == k
  {
    if k < 0 { MulLe(k, -1, w); }
    DivUnique(x, w, k);
  }

  method MulSi3(a: u32, b: u32) returns (r: u32)
    ensures r == a * b % W32
  {
    r := ShiftAdd(a, b, W32);
  }

  method MulDSi3(a: u32, b: u32) returns (r: u64)
    ensures r == a * b
  {
    r := ShiftAdd(a, b, W64);
    ProductFits(a, b);
  }

  lemma ProductFits(a: u32, b: u32)
    ensures a * b % W64 == a * b
  {
    ProductBound(a, b);
    RemainderIs(a * b, W64, a * b, 0);
  }

  lemma ProductBound(a: u32, b: u32)
    ensures a * b < W64
  {
    MulLe(a, W32 - 1, b);
  }

  // A 64-bit product from three 32-bit ones; the high halves' product falls off.
  method MulDi3(a: u64, b: u64) returns (v: u64)
    ensures v == a * b % W64
  {
    var al, ah := a % W32, a / W32;
    var bl, bh := b % W32, b / W32;
    v := MulDSi3(al, bl);
    var x := MulSi3(al, bh);
    var y := MulSi3(ah, bl);
    var cross := (x + y) % W32;
    PartialProducts(al, ah, bl, bh, x, y, cross);
    v := (v + cross * W32) % W64;
  }

  lemma PartialProducts(al: nat, ah: nat, bl: nat, bh: nat, x: nat, y: nat, cross: nat)
    requires x == al * bh % W32 && y == ah * bl % W32 && cross == (x + y) % W32
    ensures (al * bl + cross * W32) % W64 == (al + ah * W32) * (bl + bh * W32) % W64
  {
    var k := al * bh / W32 + ah * bl / W32 + (x + y) / W32;
    assert al * bh + ah * bl == cross + k * W32;
    CrossMultiply(al, ah, bl, bh);
    SameRemainder(al * bl + cross * W32, (al + ah * W32) * (bl + bh * W32), k + ah * bh, W64);
  }

  lemma CrossMultiply(al: nat, ah: nat, bl: nat, bh: nat)
    ensures (al + ah * W32) * (bl + bh * W32) == al * bl + (al * bh + ah * bl) * W32 + ah * bh * W64
  {
    Expand(al, ah * W32, bl, bh * W32);
    Reorder(al, bh, W32);
    Reorder(ah, bl, W32);
    Reorder(ah, bh, W32);
  }

  lemma Expand(p: nat, q: nat, r: nat, s: nat)
    ensures (p + q) * (r + s) == p * r + p * s + q * r + q * s
  {
  }

  lemma Reorder(x: nat, y: nat, w: nat)
    ensures x * (y * w) == x * y * w && x * w * y == x * y * w && x * w * (y * w) == x * y * w * w
  {
  }

  lemma SameRemainder(x: nat, y: nat, k: nat, w: nat)
    requires y == x + k * w && 0 < w
    ensures y % w == x % w
  {
    assert x == x / w * w + x % w;
    Sum3(x / w, k, 0, w);
    RemainderIs(y, w, x % w, x / w + k);
  }

  // ---------- division ----------

  // den is den0 times the power of two qbit; a zero qbit marks the end of the second loop.
  ghost predicate LinedUp(den0: nat, den: nat, qbit: nat, k: nat) {
    qbit == IntPow2(k) && den == den0 * qbit
  }

  lemma ShiftUp(den0: nat, den: nat, qbit: nat, k: nat)
    requires LinedUp(den0, den, qbit, k)
    ensures LinedUp(den0, den * 2, qbit * 2, k + 1)
  {
    assert den0 * (qbit * 2) == den0 * qbit * 2;
  }

  lemma ShiftDown(den0: nat, den: nat, qbit: nat, k: nat)
    requires LinedUp(den0, den, qbit, k)
    ensures if k == 0 then den == den0 && qbit / 2 == 0
            else LinedUp(den0, den / 2, qbit / 2, k - 1) && den == 2 * (den / 2)
  {
    if k > 0 {
      assert qbit == 2 * (qbit / 2);
      assert den0 * qbit == 2 * (den0 * (qbit / 2));
    }
  }

  // Both unsigned divisions, on words with `top` as their sign bit: line the divisor up with the top
  // bit, then subtract and shift back.
  method ShiftSubtract(num0: nat, den0: nat, top: nat) returns (quot: nat, num: nat)
    requires num0 < 2 * top && 0 < den0 < 2 * top
    ensures quot == num0 / den0 && num == num0 % den0
  {
    var den: nat, qbit: nat := den0, 1;
    ghost var k: nat := 0;
    quot, num := 0, num0;
    while den < top
      invariant 0 < den < 2 * top && LinedUp(den0, den, qbit, k)
      decreases top - den
    {
      ShiftUp(den0, den, qbit, k);
      k := k + 1;
      den := den * 2;
      qbit := qbit * 2;
    }
    while qbit != 0
      invariant num0 == quot * den0 + num
      invariant if qbit == 0 then num < den0 else LinedUp(den0, den, qbit, k) && num < 2 * den
      decreases qbit
    {
      ShiftDown(den0, den, qbit, k);
      if den <= num {
        Regroup(quot, qbit, den0);
        num := num - den;
        quot := quot + qbit;
      }
      den := den / 2;
      qbit := qbit / 2;
      k := if k > 0 then k - 1 else 0;
    }
    DivUnique(num0, den0, quot);
  }

  lemma Regroup(quot: nat, qbit: nat, den0: nat)
    ensures (quot + qbit) * den0 == quot * den0 + den0 * qbit
  {
  }

  method UDivModSi4(num: u32, den: u32, mod: bool) returns (r: u32)
    ensures r == if den == 0 then 0 else if mod then num % den else num / den
  {
    if den == 0 {
      return 0;
    }
    var q, n := ShiftSubtract(num, den, 0x8000_0000);
    r := if mod then n else q;
  }

  // `rem0` is what the remainder's variable held, or None for a null pointer; a zero divisor leaves it alone.
  method UDivModDi4(num: u64, den: u64, rem0: Option<u64>) returns (quot: u64, rem: Option<u64>)
    ensures quot == if den == 0 then 0 else num / den
    ensures rem == if den == 0 || rem0 == None then rem0 else Some(num % den)
  {
    if den == 0 {
      return 0, rem0;
    }
    var n;
    quot, n := ShiftSubtract(num, den, 0x8000_0000_0000_0000);
    rem := if rem0 == None then None else Some(n);
  }

  // ---------- signed division ----------

  const H32: nat := 0x8000_0000
  const H64: nat := 0x8000_0000_0000_0000

  // Signed words: half is the magnitude of the most negative one, which is its own negation.
  predicate IsSigned(x: int, half: nat) {
    0 - half <= x < half
  }

  function Negate(x: int, half: nat): int {
    if x == 0 - half then x else -x
  }

  function ToUnsigned(x: int, half: nat): nat
    requires IsSigned(x, half)
  {
    if x < 0 then x + 2 * half else x
  }

  function ToSigned(u: nat, half: nat): int {
    if u >= half then u - 2 * half else u
  }

  function Ratio(n: int, d: int): nat
    requires d != 0
  {
    Quot(Magnitude(n), Magnitude(d))
  }

  // C's quotient and remainder: truncation toward zero, the remainder takes the dividend's sign.
  function TruncDiv(n: int, d: int): int
    requires d != 0
  {
    if (n < 0) == (d < 0) then Ratio(n, d) else 0 - Ratio(n, d)
  }

  function TruncRem(n: int, d: int): int
    requires d != 0
  {
    if n < 0 then 0 - Magnitude(n) % Magnitude(d) else Magnitude(n) % Magnitude(d)
  }

  lemma TruncDivRem(n: int, d: int)
    requires d != 0
    ensures n == TruncDiv(n, d) * d + TruncRem(n, d)
    ensures Magnitude(TruncRem(n, d)) < Magnitude(d)
  {
    var q, m := Magnitude(n) / Magnitude(d), Magnitude(d);
    assert Magnitude(n) == q * m + Magnitude(n) % m;
    SignedProducts(q, m);
  }

  lemma SignedProducts(q: int, m: int)
    ensures (0 - q) * m == -(q * m) && q * -m == -(q * m) && (0 - q) * -m == q * m
  {
  }

  // What the code computes: the remainder gets its sign from both operands.
  function SignedQuot(n: int, d: int, half: nat): int
    requires IsSigned(n, half) && IsSigned(d, half) && d != 0
  {
    var v := ToSigned(Ratio(n, d), half);
    if (n < 0) == (d < 0) then v else Negate(v, half)
  }

  function SignedRem(n: int, d: int): int
    requires d != 0
  {
    if (n < 0) == (d < 0) then Magnitude(n) % Magnitude(d) else 0 - Magnitude(n) % Magnitude(d)
  }

  lemma AbsoluteWord(x: int, half: nat)
    requires IsSigned(x, half)
    ensures ToUnsigned(if x < 0 then Negate(x, half) else x, half) == Magnitude(x) <= half
  {
  }

  lemma RemainderSmall(n: int, d: int, half: nat)
    requires IsSigned(n, half) && IsSigned(d, half) && d != 0
    ensures var r := Magnitude(n) % Magnitude(d);
            r < half && ToSigned(r, half) == r && Negate(r, half) == -r
  {
  }

  method DivModSi4(num0: int, den0: int, mod: bool) returns (v: int)
    requires IsSigned(num0, H32) && IsSigned(den0, H32)
    ensures v == if den0 == 0 then 0 else if mod then SignedRem(num0, den0) else SignedQuot(num0, den0, H32)
  {
    var num, den, neg := num0, den0, 0;
    if num < 0 {
      num := Negate(num, H32);
      neg := 1;
    }
    if den < 0 {
      den := Negate(den, H32);
      neg := 1 - neg;
    }
    AbsoluteWord(num0, H32);
    AbsoluteWord(den0, H32);
    var u := UDivModSi4(ToUnsigned(num, H32), ToUnsigned(den, H32), mod);
    if den0 != 0 { RemainderSmall(num0, den0, H32); }
    v := ToSigned(u, H32);
    if neg == 1 {
      v := Negate(v, H32);
    }
  }

  method DivModDi4(num0: int, den0: int, rem0: Option<int>) returns (v: int, rem: Option<int>)
    requires IsSigned(num0, H64) && IsSigned(den0, H64) && (rem0.Some? ==> IsSigned(rem0.value, H64))
    ensures v == if den0 == 0 then 0 else SignedQuot(num0, den0, H64)
    ensures rem == if rem0 == None then None
                   else if den0 != 0 then Some(SignedRem(num0, den0))
                   else if num0 < 0 then Some(Negate(rem0.value, H64)) else rem0
  {
    var num, den, neg := num0, den0, 0;
    if num < 0 {
      num := Negate(num, H64);
      neg := 1;
    }
    if den < 0 {
      den := Negate(den, H64);
      neg := 1 - neg;
    }
    AbsoluteWord(num0, H64);
    AbsoluteWord(den0, H64);
    var held: Option<u64> := if rem0 == None then None else Some(ToUnsigned(rem0.value, H64));
    var q, r := UDivModDi4(ToUnsigned(num, H64), ToUnsigned(den, H64), held);
    if den0 != 0 { RemainderSmall(num0, den0, H64); }
    v := ToSigned(q, H64);
    rem := if r == None then None else Some(ToSigned(r.value, H64));
    if neg == 1 {
      v := Negate(v, H64);
      if rem != None {
        rem := Some(Negate(rem.value, H64));
      }
    }
  }

  // The quotient is C's for every pair of operands whose quotient is representable.
  lemma QuotientIff(n: int, d: int, half: nat)
    requires IsSigned(n, half) && IsSigned(d, half) && d != 0 && 1 < half
    ensures SignedQuot(n, d, half) == TruncDiv(n, d) <==> !(n == 0 - half && d == -1)
  {
    var x, m := Magnitude(n), Magnitude(d);
    if m == 1 {
      DivUnique(x, 1, x);
    } else {
      DivMonotone(x, half, m);
      HalfShrinks(half, m);
    }
  }

  lemma HalfShrinks(half: nat, m: nat)
    requires 0 < half && 1 < m
    ensures half / m < half
  {
    var q := half / m;
    assert half == q * m + half % m;
    MulLe(2, m, q);
    assert q * m == m * q;
  }

  // The exception gives the most negative number itself.
  lemma QuotientOverflow(half: nat)
    requires 1 < half
    ensures SignedQuot(0 - half, -1, half) == 0 - half
  {
    DivUnique(half, 1, half);
  }

  // The remainder is C's exactly for a positive divisor or a division that leaves none; for a negative divisor
  // it is C's with the other sign.
  lemma RemainderIff(n: int, d: int)
    requires d != 0
    ensures SignedRem(n, d) == TruncRem(n, d) <==> d > 0 || Magnitude(n) % Magnitude(d) == 0
    ensures d < 0 ==> SignedRem(n, d) == 0 - TruncRem(n, d)
  {
  }
}
