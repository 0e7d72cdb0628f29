/** Leading zeros, and sums, differences, products and quotients of wide words. */
module Arith128 {
  import opened Machine
  import opened Powers
  import opened Words
  import opened Shifts

  // ---------------------------------------------------------------------------
  // Leading zeros

  /** The 256-entry table. */
  function CountLeadingZeros8(i: int): (n: nat)
    requires 0 <= i < 256
    ensures n <= 8
  {
    if i == 0 then 8 else if i < 2 then 7 else if i < 4 then 6 else if i < 8 then 5
    else if i < 16 then 4 else if i < 32 then 3 else if i < 64 then 2 else if i < 128 then 1 else 0
  }

  /** `count` shifts bring the most significant set bit of `a` to the top. */
  ghost predicate Normalizes(a: Word, count: nat) {
    0x8000_0000_0000_0000 <= a * P2(count) < 0x1_0000_0000_0000_0000
  }

  method CountLeadingZeros64(a: Word) returns (count: nat)
    ensures count <= 64
    ensures a == 0 ==> count == 64
    ensures a != 0 ==> count < 64 && Normalizes(a, count)
  {
    hide Normalizes, Low32;
    count := 32;
    var a32 := Low32(a);
    if 0x1_0000_0000 <= a {
      count := 0;
      a32 := a / 0x1_0000_0000;
    } else {
      Low32Small(a);
    }
    ghost var top, high := a32, count;
    if a32 < 0x10000 {
      Low32Small(a32 * 0x10000);
      count := count + 16;
      a32 := Low32(a32 * 0x10000);
    }
    if a32 < 0x1000000 {
      Low32Small(a32 * 0x100);
      count := count + 8;
      a32 := Low32(a32 * 0x100);
    }
    if a != 0 {
      Normalized(a, top, high, count - high, a32);
    }
    count := count + CountLeadingZeros8(a32 / 0x1000000);
  }

  /** What a 32-bit variable keeps of a value. */
  function Low32(x: int): int { x % 0x1_0000_0000 }

  lemma Low32Small(x: int)
    requires 0 <= x < 0x1_0000_0000
    ensures Low32(x) == x
  {
  }

  lemma Normalized(a: Word, top: int, high: nat, s: nat, t: int)
    requires (high == 32 && top == a) || (high == 0 && top == a / 0x1_0000_0000)
    requires (s == 0 && t == top) || (s == 8 && t == top * 0x100)
               || (s == 16 && t == top * 0x10000) || (s == 24 && t == top * 0x1000000)
    requires 0x1000000 <= t < 0x1_0000_0000
    ensures var k := CountLeadingZeros8(t / 0x1000000);
            high + s + k < 64 && Normalizes(a, high + s + k)
  {
    hide P2, CountLeadingZeros8, Normalizes;
    P2Small();
    P2Add(8, 8);
    P2Add(16, 8);
    assert t == top * P2(s);
    TopByte(t);
    TopWord(a, top, high, s, CountLeadingZeros8(t / 0x1000000));
  }

  lemma TopByte(t: int)
    requires 0x1000000 <= t < 0x1_0000_0000
    ensures 0x8000_0000 <= t * P2(CountLeadingZeros8(t / 0x1000000)) < 0x1_0000_0000
    ensures CountLeadingZeros8(t / 0x1000000) < 8
  {
    var k := CountLeadingZeros8(t / 0x1000000);
    assert P2(0) == 1 && P2(1) == 2 && P2(2) == 4 && P2(3) == 8;
    assert P2(4) == 16 && P2(5) == 32 && P2(6) == 64 && P2(7) == 128;
  }

  lemma TopWord(a: Word, top: int, high: nat, s: nat, k: nat)
    requires (high == 32 && top == a) || (high == 0 && top == a / 0x1_0000_0000)
    requires 0x8000_0000 <= (top * P2(s)) * P2(k) < 0x1_0000_0000
    requires s + k < 32
    ensures Normalizes(a, high + s + k)
  {
    hide P2, Normalizes;
    P2Add(s, k);
    Associate(top, P2(s), P2(k));
    if high == 32 {
      LowWord(a, s + k);
    } else {
      HighWord(a, s + k);
    }
  }

  lemma LowWord(a: Word, n: nat)
    requires 0x8000_0000 <= a * P2(n) < 0x1_0000_0000
    ensures Normalizes(a, 32 + n)
  {
    hide P2;
    P2Constants();
    P2Add(32, n);
    Associate(a, 0x1_0000_0000, P2(n));
  }

  lemma HighWord(a: Word, n: nat)
    requires n < 32 && 0x8000_0000 <= (a / 0x1_0000_0000) * P2(n) < 0x1_0000_0000
    ensures Normalizes(a, n)
  {
    hide P2;
    P2Constants();
    P2Add(n, 32 - n);
    Room(a / 0x1_0000_0000, P2(n), P2(32 - n), a % 0x1_0000_0000);
  }

  lemma Associate(a: int, b: int, c: int)
    ensures a * (b * c) == (a * b) * c
  {
  }

  lemma FactorLess(a: int, b: int, p: int)
    requires p > 0 && a * p < b * p
    ensures a < b
  {
  }

  lemma Room(top: int, p: int, q: int, low: int)
    requires p > 0 && q > 0 && p * q == 0x1_0000_0000
    requires 0x8000_0000 <= top * p < 0x1_0000_0000 && 0 <= low < 0x1_0000_0000
    ensures 0x8000_0000_0000_0000 <= (top * 0x1_0000_0000 + low) * p < 0x1_0000_0000_0000_0000
  {
    FactorLess(top, q, p);
    ProductBound(top, q, p, 0x1_0000_0000);
    ProductBound(low, 0x1_0000_0000, p, 0x1_0000_0000 * p);
    assert (top * 0x1_0000_0000 + low) * p == 0x1_0000_0000 * (top * p) + low * p;
  }

  // ---------------------------------------------------------------------------
  // Sums and differences modulo 2^128

  function Add128(a64: Word, a0: Word, b64: Word, b0: Word): U128 {
    var v0 := Wrap(a0 + b0);
    U128(Wrap(a64 + b64 + Bit(v0 < a0)), v0)
  }

  function Sub128(a64: Word, a0: Word, b64: Word, b0: Word): U128 {
    U128(Wrap(a64 - b64 - Bit(a0 < b0)), Wrap(a0 - b0))
  }

  lemma SumCarry(a: Word, b: Word)
    ensures a + b == Bit(Wrap(a + b) < a) * 0x1_0000_0000_0000_0000 + Wrap(a + b)
  {
  }

  lemma HighWrap(h: int, v0: Word)
    ensures U128(Wrap(h), v0).Value()
            == (h * 0x1_0000_0000_0000_0000 + v0) % 0x1_0000_0000_0000_0000_0000_0000_0000_0000
  {
    var q := h / 0x1_0000_0000_0000_0000;
    DivModUnique(h * 0x1_0000_0000_0000_0000 + v0, 0x1_0000_0000_0000_0000_0000_0000_0000_0000, q,
                 Wrap(h) * 0x1_0000_0000_0000_0000 + v0);
  }

  lemma Add128Value(a64: Word, a0: Word, b64: Word, b0: Word)
    ensures Add128(a64, a0, b64, b0).Value()
            == (U128(a64, a0).Value() + U128(b64, b0).Value()) % 0x1_0000_0000_0000_0000_0000_0000_0000_0000
  {
    hide Wrap;
    SumCarry(a0, b0);
    HighWrap(a64 + b64 + Bit(Wrap(a0 + b0) < a0), Wrap(a0 + b0));
  }

  lemma Sub128Value(a64: Word, a0: Word, b64: Word, b0: Word)
    ensures Sub128(a64, a0, b64, b0).Value()
            == (U128(a64, a0).Value() - U128(b64, b0).Value()) % 0x1_0000_0000_0000_0000_0000_0000_0000_0000
  {
    assert a0 - b0 == Wrap(a0 - b0) - Bit(a0 < b0) * 0x1_0000_0000_0000_0000;
    hide Wrap;
    HighWrap(a64 - b64 - Bit(a0 < b0), Wrap(a0 - b0));
  }

  // ---------------------------------------------------------------------------
  // Products

  method Mul64To128(a: Word, b: Word) returns (z: U128)
    ensures z.Value() == a * b
  {
    hide Or, Wrap, Bit;
    var a32, a0 := a / 0x1_0000_0000, a % 0x1_0000_0000;
    var b32, b0 := b / 0x1_0000_0000, b % 0x1_0000_0000;
    HalfProduct(a0, b0);
    HalfProduct(a32, b0);
    HalfProduct(a0, b32);
    HalfProduct(a32, b32);
    var v0: Word := a0 * b0;
    var mid1: Word := a32 * b0;
    var mid2: Word := a0 * b32;
    var v64: Word := a32 * b32;
    ghost var p00, p10, p01, p11 := v0, mid1, mid2, v64;
    var mid := Wrap(mid1 + mid2);
    var carry: Word := if mid < mid1 then 0x1_0000_0000 else 0;
    CarryWord(carry, mid);
    v64 := Wrap(v64 + Or(carry, mid / 0x1_0000_0000));
    mid := Wrap(mid * 0x1_0000_0000);
    v0 := Wrap(v0 + mid);
    v64 := Wrap(v64 + Bit(v0 < mid));
    z := U128(v64, v0);
    Carries(p00, p10, p01, p11);
    Schoolbook(a32, a0, b32, b0);
  }

  lemma CarryWord(carry: Word, mid: Word)
    requires carry == 0 || carry == 0x1_0000_0000
    ensures Or(carry, mid / 0x1_0000_0000) == carry + mid / 0x1_0000_0000
  {
    hide Or;
    P2Constants();
    OrDisjoint(carry, mid / 0x1_0000_0000, 32);
  }

  lemma HalfProduct(x: int, y: int)
    requires 0 <= x < 0x1_0000_0000 && 0 <= y < 0x1_0000_0000
    ensures 0 <= x * y <= 0xFFFF_FFFE_0000_0001
  {
    ScaledOrder(y, x, 0xFFFF_FFFF);
    ScaledOrder(0xFFFF_FFFF, y, 0xFFFF_FFFF);
  }

  lemma ScaledOrder(k: int, x: int, y: int)
    requires 0 <= k && 0 <= x <= y
    ensures 0 <= k * x <= k * y
  {
  }

  lemma Schoolbook(a32: int, a0: int, b32: int, b0: int)
    ensures (a32 * 0x1_0000_0000 + a0) * (b32 * 0x1_0000_0000 + b0) ==
            a32 * b32 * 0x1_0000_0000_0000_0000 + (a32 * b0 + a0 * b32) * 0x1_0000_0000 + a0 * b0
  {
  }

  /** The partial products are added with no carry lost. */
  lemma Carries(p00: Word, p10: Word, p01: Word, p11: Word)
    requires p00 <= 0xFFFF_FFFE_0000_0001 && p10 <= 0xFFFF_FFFE_0000_0001
    requires p01 <= 0xFFFF_FFFE_0000_0001 && p11 <= 0xFFFF_FFFE_0000_0001
    ensures var mid := Wrap(p10 + p01);
            var high := Wrap(p11 + ((if mid < p10 then 0x1_0000_0000 else 0) + mid / 0x1_0000_0000));
            var low := Wrap(mid * 0x1_0000_0000);
            var v0 := Wrap(p00 + low);
            U128(Wrap(high + Bit(v0 < low)), v0).Value()
              == p11 * 0x1_0000_0000_0000_0000 + (p10 + p01) * 0x1_0000_0000 + p00
  {
    var mid := Wrap(p10 + p01);
    var c := Bit(mid < p10);
    SumCarry(p10, p01);
    var m32, m0 := mid / 0x1_0000_0000, mid % 0x1_0000_0000;
    assert c * 0x1_0000_0000 + m32 <= 0x1_FFFF_FFFC;
    var low: Word := m0 * 0x1_0000_0000;
    DivModUnique(mid * 0x1_0000_0000, 0x1_0000_0000_0000_0000, m32, low);
    SumCarry(low, p00);
    hide Wrap;
    WrapSmall(p11 + (c * 0x1_0000_0000 + m32));
    WrapSmall(p11 + (c * 0x1_0000_0000 + m32) + Bit(Wrap(low + p00) < low));
  }

  // ---------------------------------------------------------------------------
  // The over-estimating quotient

  /** A 128-bit word holding a small signed value, read by its top bit. */
  lemma SignRead(w: U128, v: int)
    requires w.Value() == v % 0x1_0000_0000_0000_0000_0000_0000_0000_0000
    requires -0x8000_0000_0000_0000_0000_0000_0000_0000 <= v < 0x8000_0000_0000_0000_0000_0000_0000_0000
    ensures w.v64 >= 0x8000_0000_0000_0000 <==> v < 0
    ensures v >= 0 ==> w.Value() == v
  {
  }

  lemma SplitProduct(b: int, b32: int, bl: int, k: int)
    requires b == b32 * 0x1_0000_0000 + bl
    ensures b * k == (k * b32) * 0x1_0000_0000 + k * bl
    ensures b * (k * 0x1_0000_0000) == (b * k) * 0x1_0000_0000
  {
  }

  /** The first 32-bit digit is too large by at most two. */
  lemma FirstDigit(a64: Word, a0: Word, b: Word, b32: int, z32: int)
    requires 0x8000_0000_0000_0000 <= b && a64 < b && b32 == b / 0x1_0000_0000
    requires z32 == if b32 * 0x1_0000_0000 <= a64 then 0xFFFF_FFFF else a64 / b32
    ensures 0 <= z32 < 0x1_0000_0000
    ensures var v := a64 * 0x1_0000_0000_0000_0000 + a0 - b * (z32 * 0x1_0000_0000);
            -0x1_0000_0000_0000_0000_0000_0000 < v < b * 0x1_0000_0000
  {
    if b32 * 0x1_0000_0000 > a64 {
      var bl := b % 0x1_0000_0000;
      assert b == b32 * 0x1_0000_0000 + bl;
      QuotientDigit(a64, a0, b, b32, bl, z32);
    }
  }

  lemma QuotientDigit(a64: Word, a0: Word, b: int, b32: int, bl: int, z32: int)
    requires b == b32 * 0x1_0000_0000 + bl && 0 < b32 < 0x1_0000_0000 && 0 <= bl < 0x1_0000_0000
    requires a64 < b32 * 0x1_0000_0000 && z32 == a64 / b32
    ensures 0 <= z32 < 0x1_0000_0000
    ensures var v := a64 * 0x1_0000_0000_0000_0000 + a0 - b * (z32 * 0x1_0000_0000);
            -0x1_0000_0000_0000_0000_0000_0000 < v < b * 0x1_0000_0000
  {
    DigitRange(a64, b32, z32);
    SplitProduct(b, b32, bl, z32);
    HalfProduct(z32, bl);
    DigitBounds(a64, a0, b, b32, bl, z32 * b32, z32 * bl, b * (z32 * 0x1_0000_0000));
  }

  lemma DigitBounds(a64: int, a0: int, b: int, b32: int, bl: int, zb: int, zl: int, term: int)
    requires b == b32 * 0x1_0000_0000 + bl && 0 <= bl && 0 <= a0 < 0x1_0000_0000_0000_0000
    requires term == (zb * 0x1_0000_0000 + zl) * 0x1_0000_0000
    requires 0 <= a64 - zb < b32 && 0 <= zl <= 0xFFFF_FFFE_0000_0001
    ensures -0x1_0000_0000_0000_0000_0000_0000 < a64 * 0x1_0000_0000_0000_0000 + a0 - term < b * 0x1_0000_0000
  {
  }

  lemma DigitRange(a: int, d: int, k: int)
    requires d > 0 && 0 <= a < d * 0x1_0000_0000 && k == a / d
    ensures 0 <= k < 0x1_0000_0000 && 0 <= a - k * d < d
  {
    assert a == k * d + a % d;
    FactorLess(k, 0x1_0000_0000, d);
    FactorLess(-1, k, d);
  }

  /** The second digit, estimated from the high half of the divisor. */
  lemma SecondDigit(b: Word, b32: int, v: int, r: int, z0: int)
    requires 0x8000_0000_0000_0000 <= b && b32 == b / 0x1_0000_0000
    requires 0 <= v < b * 0x1_0000_0000 && r == v / 0x1_0000_0000
    requires z0 == if b32 * 0x1_0000_0000 <= r then 0xFFFF_FFFF else r / b32
    ensures 0 <= z0 < 0x1_0000_0000
    ensures v / b <= z0 <= v / b + 2
  {
    var q0, bl := v / b, b % 0x1_0000_0000;
    DigitRange(v, b, q0);
    SplitProduct(b, b32, bl, q0);
    HalfProduct(q0, bl);
    assert q0 * b32 <= r;
    DigitAtLeast(q0, b32, r, z0);
    SplitProduct(b, b32, bl, z0);
    HalfProduct(z0, bl);
    NotAboveByTwo(b, z0, v);
  }

  lemma NotAboveByTwo(b: int, z0: int, v: int)
    requires b > 0 && b * z0 <= v + 2 * b
    ensures z0 <= v / b + 2
  {
    assert (z0 - 2) * b == b * z0 - 2 * b;
    AtMostQuotient(z0 - 2, b, v);
  }

  lemma DigitAtLeast(q0: int, b32: int, r: int, z0: int)
    requires b32 > 0 && 0 <= q0 < 0x1_0000_0000 && q0 * b32 <= r
    requires z0 == if b32 * 0x1_0000_0000 <= r then 0xFFFF_FFFF else r / b32
    ensures q0 <= z0 < 0x1_0000_0000 && z0 * b32 <= r
  {
    AtMostQuotient(q0, b32, r);
    if b32 * 0x1_0000_0000 > r {
      assert r == z0 * b32 + r % b32;
      FactorLess(z0, 0x1_0000_0000, b32);
    }
  }

  lemma AtMostQuotient(k: int, d: int, v: int)
    requires d > 0 && k * d <= v
    ensures k <= v / d
  {
    assert v == v / d * d + v % d;
    FactorLess(k, v / d + 1, d);
  }

  lemma PositiveFactor(b: int, z: int)
    requires b > 0 && b * z > 0
    ensures z > 0
  {
  }

  lemma AddMod(v: int, d: int)
    ensures (v % 0x1_0000_0000_0000_0000_0000_0000_0000_0000 + d) % 0x1_0000_0000_0000_0000_0000_0000_0000_0000
            == (v + d) % 0x1_0000_0000_0000_0000_0000_0000_0000_0000
  {
  }

  /** The two words that are added hold b * 2^32. */
  lemma DivisorWords(b: Word)
    ensures U128(b / 0x1_0000_0000, Wrap(b * 0x1_0000_0000)).Value() == b * 0x1_0000_0000
  {
    var hi, lo := b / 0x1_0000_0000, b % 0x1_0000_0000;
    DivModUnique(b * 0x1_0000_0000, 0x1_0000_0000_0000_0000, hi, lo * 0x1_0000_0000);
  }

  lemma MiddleWord(rem: U128, v: int, b: Word)
    requires rem.Value() == v && 0 <= v < b * 0x1_0000_0000
    ensures Or(Wrap(rem.v64 * 0x1_0000_0000), rem.v0 / 0x1_0000_0000) == v / 0x1_0000_0000
  {
    hide Or;
    assert rem.v64 < 0x1_0000_0000;
    var hi := Wrap(rem.v64 * 0x1_0000_0000);
    assert hi == rem.v64 * 0x1_0000_0000;
    P2Constants();
    OrDisjoint(hi, rem.v0 / 0x1_0000_0000, 32);
  }

  lemma TotalQuotient(a: int, b: int, z: int, v: int)
    requires b > 0 && v == a - b * z
    ensures a / b == z + v / b
  {
    var q := v / b;
    assert v == q * b + v % b;
    assert a == (z + q) * b + v % b;
    DivModUnique(a, b, z + q, v % b);
  }

  /** `rem` holds the remainder `v` for the digit estimate `z`; `rounds` corrections
      have brought it up from above -2^96. */
  ghost predicate Correcting(a: int, b: Word, z: int, rem: U128, v: int, rounds: nat) {
    && 0 <= z < 0x1_0000_0000_0000_0000 && z % 0x1_0000_0000 == 0
    && v == a - b * z
    && (rounds - 2) * 0x8000_0000_0000_0000_0000_0000 < v < b * 0x1_0000_0000
    && rem.Value() == v % 0x1_0000_0000_0000_0000_0000_0000_0000_0000
    && rounds <= 2
  }

  lemma CorrectionStep(a: int, b: Word, z: int, rem: U128, v: int, rounds: nat)
    requires 0x8000_0000_0000_0000 <= b && 0 <= a
    requires Correcting(a, b, z, rem, v, rounds) && 0x8000_0000_0000_0000 <= rem.v64
    ensures rounds < 2 && 0x1_0000_0000 <= z
    ensures Correcting(a, b, z - 0x1_0000_0000, Add128(rem.v64, rem.v0, b / 0x1_0000_0000, Wrap(b * 0x1_0000_0000)),
                       v + b * 0x1_0000_0000, rounds + 1)
  {
    hide Add128, Wrap;
    Add128Value(rem.v64, rem.v0, b / 0x1_0000_0000, Wrap(b * 0x1_0000_0000));
    SignRead(rem, v);
    PositiveFactor(b, z);
    DivisorWords(b);
    AddMod(v, b * 0x1_0000_0000);
    assert b * (z - 0x1_0000_0000) == b * z - b * 0x1_0000_0000;
  }

  lemma CorrectionDone(a: int, b: Word, z: int, rem: U128, v: int, rounds: nat)
    requires Correcting(a, b, z, rem, v, rounds) && rem.v64 < 0x8000_0000_0000_0000
    ensures 0 <= v < b * 0x1_0000_0000 && rem.Value() == v && v == a - b * z
  {
    SignRead(rem, v);
  }

  /** The estimate exceeds the truncated quotient by at most two; the correction loop
      runs at most twice. */
  method EstimateDiv128To64(a64: Word, a0: Word, b: Word) returns (z: Word, ghost rounds: nat)
    requires 0x8000_0000_0000_0000 <= b
    ensures b <= a64 ==> z == 0xFFFF_FFFF_FFFF_FFFF
    ensures a64 < b ==> var q := (a64 * 0x1_0000_0000_0000_0000 + a0) / b; q <= z <= q + 2
    ensures rounds <= 2
  {
    hide Or, Wrap, Add128, Sub128, Correcting;
    rounds := 0;
    if b <= a64 {
      z := 0xFFFF_FFFF_FFFF_FFFF;
      return;
    }
    var b32 := b / 0x1_0000_0000;
    ghost var a, z32 := U128(a64, a0).Value(), if b32 * 0x1_0000_0000 <= a64 then 0xFFFF_FFFF else a64 / b32;
    FirstDigit(a64, a0, b, b32, z32);
    WrapSmall(z32 * 0x1_0000_0000);
    z := if b32 * 0x1_0000_0000 <= a64 then 0xFFFF_FFFF_0000_0000 else Wrap((a64 / b32) * 0x1_0000_0000);
    var term := Mul64To128(b, z);
    var rem := Sub128(a64, a0, term.v64, term.v0);
    ghost var v := a - b * z;
    assert Correcting(a, b, z, rem, v, rounds) by {
      Sub128Value(a64, a0, term.v64, term.v0);
      StartsCorrecting(a, b, z32, rem, v);
    }
    while 0x8000_0000_0000_0000 <= rem.v64
      invariant Correcting(a, b, z, rem, v, rounds) && rounds <= 2
      decreases 2 - rounds
    {
      CorrectionStep(a, b, z, rem, v, rounds);
      WrapSmall(z - 0x1_0000_0000);
      z := Wrap(z - 0x1_0000_0000);
      rem := Add128(rem.v64, rem.v0, b32, Wrap(b * 0x1_0000_0000));
      v, rounds := v + b * 0x1_0000_0000, rounds + 1;
    }
    CorrectionDone(a, b, z, rem, v, rounds);
    var rem32 := Or(Wrap(rem.v64 * 0x1_0000_0000), rem.v0 / 0x1_0000_0000);
    MiddleWord(rem, v, b);
    var z0 := if b32 * 0x1_0000_0000 <= rem32 then 0xFFFF_FFFF else rem32 / b32;
    SecondDigit(b, b32, v, rem32, z0);
    TotalQuotient(a, b, z, v);
    AppendDigit(a, b, z, rem, v, rounds, z0);
    z := Or(z, z0);
  }

  lemma StartsCorrecting(a: int, b: Word, z32: int, rem: U128, v: int)
    requires 0 <= z32 < 0x1_0000_0000 && v == a - b * (z32 * 0x1_0000_0000)
    requires -0x1_0000_0000_0000_0000_0000_0000 < v < b * 0x1_0000_0000
    requires rem.Value() == v % 0x1_0000_0000_0000_0000_0000_0000_0000_0000
    ensures Correcting(a, b, z32 * 0x1_0000_0000, rem, v, 0)
  {
  }

  lemma AppendDigit(a: int, b: Word, z: Word, rem: U128, v: int, rounds: nat, z0: Word)
    requires Correcting(a, b, z, rem, v, rounds) && z0 < 0x1_0000_0000
    ensures Or(z, z0) == z + z0
  {
    hide Or;
    P2Constants();
    OrDisjoint(z, z0, 32);
  }
}
