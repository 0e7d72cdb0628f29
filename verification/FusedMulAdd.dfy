/** Double-precision fused multiply-add. */
module FusedMulAdd {
  import opened Machine
  import opened Powers
  import opened Rounding
  import opened Sticky
  import opened Words
  import opened Shifts
  import opened Arith128
  import opened RoundPack
  import opened Kernel
  import opened Multiply
  import opened Sum

  // ---------------------------------------------------------------------------
  // The product and the addend at a common scale

  /** `p` is the magnitude of the product, `prod` its 128-bit significand at `exp`. */
  ghost predicate ProductIs(prod: U128, exp: int, p: real) {
    && 0x2000_0000_0000_0000 <= prod.v64 < 0x4000_0000_0000_0000
    && prod.Value() % 2 == 0
    && p / Exp2(exp - 1084) == prod.Value() as real / 18446744073709551616.0
  }

  /** `c` is the magnitude of the addend, `sigC` its significand at `exp`. */
  ghost predicate AddendIs(sigC: Word, exp: int, c: real) {
    && 0x2000_0000_0000_0000 <= sigC < 0x4000_0000_0000_0000
    && sigC % 2 == 0
    && c / Exp2(exp - 1084) == sigC as real
  }

  lemma SquareRange(fa: int, fb: int, sigA: int, sigB: int, p: int)
    requires 0x10_0000_0000_0000 <= fa < 0x20_0000_0000_0000
    requires 0x10_0000_0000_0000 <= fb < 0x20_0000_0000_0000
    requires sigA == fa * 0x400 && sigB == fb * 0x400 && p == sigA * sigB
    ensures p == (fa * fb) * 0x10_0000 && p % 2 == 0
    ensures 0x1000_0000_0000_0000_0000_0000_0000_0000 <= p < 0x4000_0000_0000_0000_0000_0000_0000_0000
  {
    SquareBounds(fa, fb);
    var m := fa * fb;
    assert p == m * 0x10_0000;
    DivModUnique(p, 2, m * 0x8_0000, 0);
  }

  lemma SquareScale(fa: int, ea: int, fb: int, eb: int, x: real)
    requires x == (fa as real * Exp2(ea - 1075)) * (fb as real * Exp2(eb - 1075))
    ensures x / Exp2(ea + eb - 0x3FE - 1084) == ((fa * fb) * 0x10_0000) as real / 18446744073709551616.0
  {
    hide Exp2, P2;
    var m := (fa * fb) as real;
    ScaledProduct(fa, ea - 1075, fb, eb - 1075);
    assert ea - 1075 + (eb - 1075) == ea + eb - 2150;
    ScaleQuotient(m, ea + eb - 2150, ea + eb - 0x3FE - 1084);
    ScaleDown(m, 44);
    P2Constants();
    P2Add(11, 32);
    P2Step(43);
  }

  /** Normalizing the product by one place. */
  lemma ProductOnce(prod: U128, exp: int, p: real)
    requires 0x1000_0000_0000_0000 <= prod.v64 < 0x2000_0000_0000_0000 && prod.Value() % 2 == 0
    requires p / Exp2(exp - 1084) == prod.Value() as real / 18446744073709551616.0
    ensures ProductIs(ShortShift128Left(prod.v64, prod.v0, 1), exp - 1, p)
  {
    hide Exp2, P2, ShortShift128Left, ProductIs;
    var z, v := ShortShift128Left(prod.v64, prod.v0, 1), prod.Value();
    assert z.Value() == v * 2 by {
      P2Constants();
      ShortShift128LeftCorrect(prod.v64, prod.v0, 1);
    }
    DivModUnique(z.Value(), 2, v, 0);
    assert p / Exp2(exp - 1 - 1084) == z.Value() as real / 18446744073709551616.0 by {
      P2Constants();
      Rescale(p, exp - 1084, 1);
      assert exp - 1084 - 1 == exp - 1 - 1084;
    }
    ProductReady(z, exp - 1, p);
  }

  /** Multiplies the significands of two operands. */
  method ProductOf(a: Word, ea: ExpSig, b: Word, eb: ExpSig) returns (expProd: int, sigProd: U128)
    requires Operand(a, ea) && Operand(b, eb)
    ensures IsFinite(a) && IsFinite(b) && -1200 <= expProd <= 3100
    ensures ProductIs(sigProd, expProd, AbsValue(a) * AbsValue(b))
  {
    hide Exp2, P2, AbsValue, Or, Operand, ShiftLeft, ShortShift128Left, ProductIs;
    P2Constants();
    ghost var fa := OperandValue(a, ea, 10);
    ghost var fb := OperandValue(b, eb, 10);
    ghost var p := AbsValue(a) * AbsValue(b);
    expProd := ea.exp + eb.exp - 0x3FE;
    var sigA := ShiftLeft(Or(ea.sig, 0x10_0000_0000_0000), 10);
    var sigB := ShiftLeft(Or(eb.sig, 0x10_0000_0000_0000), 10);
    sigProd := Mul64To128(sigA, sigB);
    SquareRange(fa, fb, sigA, sigB, sigProd.Value());
    SquareScale(fa, ea.exp, fb, eb.exp, p);
    if sigProd.v64 < 0x2000_0000_0000_0000 {
      ProductOnce(sigProd, expProd, p);
      expProd := expProd - 1;
      sigProd := ShortShift128Left(sigProd.v64, sigProd.v0, 1);
    } else {
      ProductReady(sigProd, expProd, p);
    }
  }

  lemma ProductReady(prod: U128, exp: int, p: real)
    requires 0x2000_0000_0000_0000 <= prod.v64 < 0x4000_0000_0000_0000 && prod.Value() % 2 == 0
    requires p / Exp2(exp - 1084) == prod.Value() as real / 18446744073709551616.0
    ensures ProductIs(prod, exp, p)
  {
  }

  /** The addend's significand, shifted to the product's position. */
  method AddendOf(c: Word, ec: ExpSig) returns (sigC: Word)
    requires Operand(c, ec)
    ensures IsFinite(c) && -51 <= ec.exp <= 0x7FE
    ensures AddendIs(sigC, ec.exp, AbsValue(c))
  {
    hide Exp2, P2, AbsValue, Or, Operand, ShiftLeft;
    P2Constants();
    ghost var f := OperandValue(c, ec, 9);
    sigC := ShiftLeft(Or(ec.sig, 0x10_0000_0000_0000), 9);
    AddendScale(f, ec.exp, AbsValue(c));
  }

  lemma AddendScale(f: int, e: int, c: real)
    requires c == f as real * Exp2(e - 1075)
    ensures c / Exp2(e - 1084) == (f * 0x200) as real
  {
    hide Exp2, P2;
    ScaleQuotient(f as real, e - 1075, e - 1084);
    var n := 9;
    assert e - 1075 - (e - 1084) == n;
    Exp2Nat(n);
    P2Constants();
  }

  // ---------------------------------------------------------------------------
  // Aligning

  /** Shifting the high word and jamming the low one shifts the whole. */
  lemma JamTwoWords(v: U128, n: nat)
    ensures Jam(JamRight(v.v64, n), v.v0 != 0) == JamRight(v.Value(), 64 + n)
  {
    hide P2;
    P2Add(64, n);
    P2Constants();
    var p := P2(n);
    var q, r := v.v64 / p, v.v64 % p;
    SplitLong(v.v64, v.v0, p, q, r);
    DivModUnique(v.Value(), 0x1_0000_0000_0000_0000 * p, q, r * 0x1_0000_0000_0000_0000 + v.v0);
  }

  lemma SplitLong(a: int, b: int, p: int, q: int, r: int)
    requires a == q * p + r && 0 <= r < p && 0 <= b < 0x1_0000_0000_0000_0000
    ensures a * 0x1_0000_0000_0000_0000 + b == q * (0x1_0000_0000_0000_0000 * p) + (r * 0x1_0000_0000_0000_0000 + b)
    ensures 0 <= r * 0x1_0000_0000_0000_0000 + b < 0x1_0000_0000_0000_0000 * p
  {
    assert q * (0x1_0000_0000_0000_0000 * p) == (q * p) * 0x1_0000_0000_0000_0000;
  }

  /** The scale of a value at an exponent n larger. */
  lemma ScaleUp(x: real, e: int, n: nat)
    ensures x / Exp2(e + n) == x / Exp2(e) / P2(n) as real
  {
    hide Exp2, P2;
    Rescale(x, e + n, n);
    assert e + n - n == e;
  }

  lemma ProductAligned(prod: U128, exp: int, p: real, n: nat)
    requires ProductIs(prod, exp, p)
    ensures Near(2, JamRight(prod.Value(), 64 + n), p / Exp2(exp + n - 1084))
  {
    hide Exp2, P2, Near, JamRight;
    var v := prod.Value();
    ScaleUp(p, exp - 1084, n);
    assert exp - 1084 + n == exp + n - 1084;
    P2Add(64, n);
    P2Constants();
    TwoQuotients(v as real, 18446744073709551616.0, P2(n) as real, P2(64 + n) as real);
    NearExact(v);
    NearJamRight(2, v, 64 + n, v as real);
  }

  lemma TwoQuotients(v: real, s: real, p: real, t: real)
    requires s > 0.0 && p > 0.0 && t == s * p && t > 0.0
    ensures v / s / p == v / t
  {
    var w := v / s / p;
    assert w * p == v / s;
    assert w * p * s == v;
    assert w * t == w * p * s;
  }

  lemma JamOr(c: int, z: int, sticky: bool)
    requires c % 2 == 0
    ensures Jam(c + z, sticky) == c + Jam(z, sticky)
  {
  }

  lemma JamRightBelow(a: int, n: nat, b: int)
    requires 0 <= a < b && b % 2 == 0
    ensures 0 <= JamRight(a, n) < b
    ensures n > 0 ==> 2 * JamRight(a, n) <= b
  {
    hide P2;
    QuotientBound(a, P2(n));
    if n == 0 {
      P2Constants();
    } else {
      QuarterBound(a, n);
      if 2 * (a / P2(n)) == a {
        HalfExact(a, n);
      }
    }
  }

  lemma HalfExact(a: int, n: nat)
    requires n > 0 && a >= 0 && 2 * (a / P2(n)) == a
    ensures a % P2(n) == 0
  {
    hide P2;
    P2Step(n - 1);
    var p, q := P2(n), a / P2(n);
    assert a == q * p + a % p;
    ScaledOrder(q, 2, p);
  }

  // ---------------------------------------------------------------------------
  // Sums

  /** The addend has the larger exponent, or both are equal. */
  lemma SumAtAddend(prod: U128, expProd: int, p: real, sigC: Word, expC: int, c: real, n: nat)
    requires ProductIs(prod, expProd, p) && AddendIs(sigC, expC, c) && expC == expProd + n
    ensures 0 <= JamRight(prod.v64, n) < 0x4000_0000_0000_0000
    ensures var z := Jam(sigC + JamRight(prod.v64, n), prod.v0 != 0);
            && 0x2000_0000_0000_0000 <= z < 0x8000_0000_0000_0000
            && Near(2, z, (p + c) / Exp2(expC - 1084))
  {
    hide Exp2, P2, Near, JamRight;
    JamTwoWords(prod, n);
    ProductAligned(prod, expProd, p, n);
    JamRightBelow(prod.v64, n, 0x4000_0000_0000_0000);
    JamOr(sigC, JamRight(prod.v64, n), prod.v0 != 0);
    QuotientSum(p, c, Exp2(expC - 1084));
    NearPlus(sigC, JamRight(prod.Value(), 64 + n), p / Exp2(expC - 1084));
    assert (p + c) / Exp2(expC - 1084) == sigC as real + p / Exp2(expC - 1084);
  }

  /** The addend as a 128-bit number, shifted to the product's exponent. */
  lemma AddendAligned(sigC: Word, exp: int, c: real, n: nat)
    requires AddendIs(sigC, exp, c) && n > 0
    ensures var t := sigC * 0x1_0000_0000_0000_0000;
            && 0 <= 2 * JamRight(t, n) <= 0x4000_0000_0000_0000_0000_0000_0000_0000
            && Near(2, JamRight(t, n), t as real / P2(n) as real)
            && c / Exp2(exp + n - 1084) == t as real / P2(n) as real / 18446744073709551616.0
  {
    hide Exp2, P2, Near, JamRight;
    var t := sigC * 0x1_0000_0000_0000_0000;
    JamRightBelow(t, n, 0x4000_0000_0000_0000_0000_0000_0000_0000);
    NearExact(t);
    NearJamRight(2, t, n, t as real);
    ScaleUp(c, exp - 1084, n);
    assert exp - 1084 + n == exp + n - 1084;
    QuotientOrder(sigC as real, P2(n) as real);
  }

  lemma QuotientOrder(m: real, p: real)
    requires p > 0.0
    ensures m / p == m * 18446744073709551616.0 / p / 18446744073709551616.0
  {
    var w := m / p;
    assert w * p == m;
    assert (w * 18446744073709551616.0) * p == m * 18446744073709551616.0;
  }

  /** The product has the larger exponent. */
  lemma SumAtProduct(prod: U128, expProd: int, p: real, sigC: Word, expC: int, c: real, n: nat)
    requires ProductIs(prod, expProd, p) && AddendIs(sigC, expC, c) && expProd == expC + n && n > 0
    ensures var w := prod.Value() + JamRight(sigC * 0x1_0000_0000_0000_0000, n);
            && 0x2000_0000_0000_0000_0000_0000_0000_0000 <= w < 0x8000_0000_0000_0000_0000_0000_0000_0000
            && 0x2000_0000_0000_0000 <= JamRight(w, 64) < 0x8000_0000_0000_0000
            && Near(2, JamRight(w, 64), (p + c) / Exp2(expProd - 1084))
  {
    hide Exp2, P2, Near, JamRight, ProductIs, AddendIs;
    var t, v := sigC * 0x1_0000_0000_0000_0000, prod.Value();
    ProductFacts(prod, expProd, p);
    AddendAligned(sigC, expC, c, n);
    var z, y := JamRight(t, n), t as real / P2(n) as real;
    NearPlus(v, z, y);
    P2Constants();
    NearJamRight(2, v + z, 64, v as real + y);
    SumQuotient(p, c, Exp2(expProd - 1084), v as real, y);
    HighWordRange(v + z);
  }

  lemma SumQuotient(p: real, c: real, u: real, v: real, y: real)
    requires u > 0.0 && p / u == v / 18446744073709551616.0 && c / u == y / 18446744073709551616.0
    ensures (p + c) / u == (v + y) / 18446744073709551616.0
  {
    QuotientSum(p, c, u);
  }

  lemma HighWordRange(w: int)
    requires 0x2000_0000_0000_0000_0000_0000_0000_0000 <= w < 0x8000_0000_0000_0000_0000_0000_0000_0000
    ensures 0x2000_0000_0000_0000 <= JamRight(w, 64) < 0x8000_0000_0000_0000
  {
    hide P2;
    P2Constants();
  }

  // ---------------------------------------------------------------------------
  // Differences

  /** `w` stands for the exact difference, at `exp` and 64 bits further down: exactly,
      unless nearly all its bits are significant. */
  ghost predicate DifferenceIs(w: int, exp: int, x: real) {
    && 0 < w < 0x4000_0000_0000_0000_0000_0000_0000_0000
    && var y := x / Exp2(exp - 1084) * 18446744073709551616.0;
       y == w as real || (Near(2, w, y) && w >= 0x1000_0000_0000_0000_0000_0000_0000_0000)
  }

  lemma DifferenceAtProduct(prod: U128, expProd: int, p: real, sigC: Word, expC: int, c: real, n: nat)
    requires ProductIs(prod, expProd, p) && AddendIs(sigC, expC, c) && expProd == expC + n && n > 0
    ensures DifferenceIs(prod.Value() - JamRight(sigC * 0x1_0000_0000_0000_0000, n), expProd, p - c)
  {
    hide Exp2, P2, Near, JamRight, DifferenceIs, ProductIs, AddendIs;
    var t, v := sigC * 0x1_0000_0000_0000_0000, prod.Value();
    ProductFacts(prod, expProd, p);
    AddendFacts(sigC, expC, c);
    AddendAligned(sigC, expC, c, n);
    var z, y := JamRight(t, n), t as real / P2(n) as real;
    NearPlus(v, z, y);
    SmallerByAlignment(t, n);
    DifferenceQuotient(p, c, Exp2(expProd - 1084), v as real, y);
    DifferenceMade(v - z, expProd, p - c, v as real - y);
  }

  lemma ProductFacts(prod: U128, exp: int, p: real)
    requires ProductIs(prod, exp, p)
    ensures 0x2000_0000_0000_0000_0000_0000_0000_0000 <= prod.Value() < 0x4000_0000_0000_0000_0000_0000_0000_0000
    ensures prod.Value() % 2 == 0 && p / Exp2(exp - 1084) == prod.Value() as real / 18446744073709551616.0
  {
    hide Exp2;
  }

  lemma AddendFacts(sigC: Word, exp: int, c: real)
    requires AddendIs(sigC, exp, c)
    ensures var t := sigC * 0x1_0000_0000_0000_0000;
            && 0x2000_0000_0000_0000_0000_0000_0000_0000 <= t < 0x4000_0000_0000_0000_0000_0000_0000_0000 && t % 2 == 0
            && c / Exp2(exp - 1084) == t as real / 18446744073709551616.0
  {
    hide Exp2;
    DivModUnique(sigC * 0x1_0000_0000_0000_0000, 2, sigC * 0x8000_0000_0000_0000, 0);
  }

  lemma DifferenceQuotient(p: real, c: real, u: real, v: real, y: real)
    requires u > 0.0 && p / u == v / 18446744073709551616.0 && c / u == y / 18446744073709551616.0
    ensures (p - c) / u == (v - y) / 18446744073709551616.0
  {
    QuotientSum(p, c, u);
  }

  lemma DifferenceMade(w: int, exp: int, x: real, y: real)
    requires 0 < w < 0x4000_0000_0000_0000_0000_0000_0000_0000
    requires x / Exp2(exp - 1084) == y / 18446744073709551616.0
    requires y == w as real || (Near(2, w, y) && w >= 0x1000_0000_0000_0000_0000_0000_0000_0000)
    ensures DifferenceIs(w, exp, x)
  {
    hide Exp2, Near;
    assert x / Exp2(exp - 1084) * 18446744073709551616.0 == y;
  }

  /** One place shifts off nothing; two or more leave less than half. */
  lemma SmallerByAlignment(t: int, n: nat)
    requires 0 <= t < 0x4000_0000_0000_0000_0000_0000_0000_0000 && t % 2 == 0 && n > 0
    ensures 0 <= JamRight(t, n) < 0x2000_0000_0000_0000_0000_0000_0000_0000
    ensures n == 1 ==> t as real / P2(n) as real == JamRight(t, n) as real
    ensures n > 1 ==> JamRight(t, n) <= 0x1000_0000_0000_0000_0000_0000_0000_0000
  {
    QuarterBound(t, n);
    if n == 1 {
      ExactHalf(t, n);
    }
  }

  lemma DifferenceAtAddend(prod: U128, expProd: int, p: real, sigC: Word, expC: int, c: real, n: nat)
    requires ProductIs(prod, expProd, p) && AddendIs(sigC, expC, c) && expC == expProd + n && n > 0
    ensures DifferenceIs(sigC * 0x1_0000_0000_0000_0000 - JamRight(prod.Value(), n), expC, c - p)
  {
    hide Exp2, P2, Near, JamRight, DifferenceIs, ProductIs, AddendIs;
    var t, v := sigC * 0x1_0000_0000_0000_0000, prod.Value();
    ProductFacts(prod, expProd, p);
    AddendFacts(sigC, expC, c);
    NearExact(v);
    NearJamRight(2, v, n, v as real);
    var z, y := JamRight(v, n), v as real / P2(n) as real;
    NearPlus(t, z, y);
    SmallerByAlignment(v, n);
    assert p / Exp2(expC - 1084) == y / 18446744073709551616.0 by {
      ScaleUp(p, expProd - 1084, n);
      assert expProd - 1084 + n == expC - 1084;
      SwapQuotients(v as real, P2(n) as real);
    }
    DifferenceQuotient(c, p, Exp2(expC - 1084), t as real, y);
    DifferenceMade(t - z, expC, c - p, t as real - y);
  }

  lemma SwapQuotients(v: real, p: real)
    requires p > 0.0
    ensures v / 18446744073709551616.0 / p == v / p / 18446744073709551616.0
  {
    var w := v / p;
    assert w * p == v;
    assert (w / 18446744073709551616.0) * p == v / 18446744073709551616.0;
  }

  /** Equal exponents: the 128-bit difference is exact. */
  lemma DifferenceEqual(prod: U128, expProd: int, p: real, sigC: Word, c: real)
    requires ProductIs(prod, expProd, p) && AddendIs(sigC, expProd, c)
    ensures var d := prod.Value() - sigC * 0x1_0000_0000_0000_0000;
            && (d == 0 <==> p == c)
            && (d > 0 ==> DifferenceIs(d, expProd, p - c))
            && (d < 0 ==> DifferenceIs(-d, expProd, c - p))
  {
    hide Exp2, Near;
    QuotientSum(p, c, Exp2(expProd - 1084));
    QuotientSum(c, p, Exp2(expProd - 1084));
    ZeroQuotient(p - c, Exp2(expProd - 1084));
  }

  // ---------------------------------------------------------------------------
  // Normalizing a difference

  lemma FewShifts(v64: int, w: int, sc: nat)
    requires w >= 0x1000_0000_0000_0000_0000_0000_0000_0000 && v64 == w / 0x1_0000_0000_0000_0000
    requires v64 * P2(sc) < 0x8000_0000_0000_0000
    ensures sc <= 2
  {
    hide P2;
    if sc > 2 {
      P2Small();
      P2Step(2);
      P2Monotone(3, sc);
      ScaledOrder(v64, 8, P2(sc));
      assert false;
    }
  }

  lemma ShiftedNear512(w: int, y: real, v64: int, sc: nat, w': int, y': real)
    requires y == w as real || (Near(2, w, y) && w >= 0x1000_0000_0000_0000_0000_0000_0000_0000)
    requires v64 == w / 0x1_0000_0000_0000_0000 && v64 * P2(sc) < 0x8000_0000_0000_0000
    requires w' == w * P2(sc) && y' == y * P2(sc) as real
    ensures Near(512, w', y')
  {
    hide P2, Near;
    if y == w as real {
      RealOfProduct(w, P2(sc));
      ExactlyNear(w', y');
    } else {
      FewShifts(v64, w, sc);
      NearShiftLeft(sc, w, y, w', y');
    }
  }

  lemma ShiftedScale(x: real, exp: int, sc: nat, y: real, y': real)
    requires y == x / Exp2(exp - 1084) * 18446744073709551616.0 && y' == y * P2(sc) as real
    ensures y' / 18446744073709551616.0 == x / Exp2(exp - sc - 1084)
  {
    hide Exp2, P2;
    Rescale(x, exp - 1084, sc);
    assert exp - 1084 - sc == exp - sc - 1084;
    MoveDivision(x / Exp2(exp - 1084), P2(sc) as real);
  }

  lemma ShiftedDifference(w: int, exp: int, x: real, v64: int, sc: nat)
    requires DifferenceIs(w, exp, x) && v64 == w / 0x1_0000_0000_0000_0000
    requires v64 * P2(sc) < 0x8000_0000_0000_0000
    ensures Near(512, JamRight(w * P2(sc), 64), x / Exp2(exp - sc - 1084))
  {
    hide Exp2, P2, Near, JamRight;
    var y := x / Exp2(exp - 1084) * 18446744073709551616.0;
    var w', y' := w * P2(sc), y * P2(sc) as real;
    ShiftedNear512(w, y, v64, sc, w', y');
    ShiftedScale(x, exp, sc, y, y');
    assert P2(64) as real == 18446744073709551616.0 by { P2Constants(); }
    NearJamRight(512, w', 64, y');
  }

  lemma MoveDivision(m: real, p: real)
    ensures m * 18446744073709551616.0 * p / 18446744073709551616.0 == m * p
  {
    assert m * 18446744073709551616.0 * p == m * p * 18446744073709551616.0;
  }

  lemma ExactlyNear(w: int, y: real)
    requires y == w as real
    ensures Near(512, w, y)
  {
  }

  lemma ShiftRoom(v64: int, sc: nat)
    requires 0 < v64 < 0x4000_0000_0000_0000
    requires sc < 64 && 0x4000_0000_0000_0000 <= v64 * P2(sc) < 0x8000_0000_0000_0000
    ensures sc > 0 && v64 * P2(sc) + P2(sc) <= 0x8000_0000_0000_0000
  {
    hide P2;
    P2Constants();
    ScaledOrder(P2(sc), 1, v64);
    P2Add(sc, 63 - sc);
    FactorLess(v64, P2(63 - sc), P2(sc));
    ProductBound(v64, P2(63 - sc), P2(sc), 0x8000_0000_0000_0000);
  }

  /** The usual case: the high word is not empty.  The count is never zero. */
  lemma LongNormalized(v: U128, exp: int, x: real, sc: nat)
    requires DifferenceIs(v.Value(), exp, x) && v.v64 > 0
    requires sc < 64 && 0x4000_0000_0000_0000 <= v.v64 * P2(sc) < 0x8000_0000_0000_0000
    ensures sc > 0
    ensures var z := ShortShift128Left(v.v64, v.v0, sc);
            && 0x4000_0000_0000_0000 <= z.v64 < 0x8000_0000_0000_0000
            && Near(512, Jam(z.v64, z.v0 != 0), x / Exp2(exp - sc - 1084))
  {
    hide Exp2, P2, Near, JamRight, ShortShift128Left, Jam;
    ShiftRoom(v.v64, sc);
    ShortShift128LeftCorrect(v.v64, v.v0, sc);
    var z := ShortShift128Left(v.v64, v.v0, sc);
    ShiftedDifference(v.Value(), exp, x, v.v64, sc);
    JamHighWord(z);
    ShiftedHigh(v, z, P2(sc));
  }

  lemma ShiftedHigh(v: U128, z: U128, p: int)
    requires p > 0 && z.Value() == v.Value() * p
    requires 0x4000_0000_0000_0000 <= v.v64 * p && v.v64 * p + p <= 0x8000_0000_0000_0000
    ensures 0x4000_0000_0000_0000 <= z.v64 < 0x8000_0000_0000_0000
  {
    assert z.Value() == (v.v64 * p) * 0x1_0000_0000_0000_0000 + v.v0 * p;
    ScaledOrder(p, 0, v.v0);
    FactorBelow(v.v0, 0x1_0000_0000_0000_0000, p);
  }

  lemma JamHighWord(z: U128)
    ensures JamRight(z.Value(), 64) == Jam(z.v64, z.v0 != 0)
  {
    hide P2;
    P2Constants();
  }

  /** Only the low word is left: cancellation that deep is exact. */
  lemma ShortDifference(v: U128, exp: int, x: real)
    requires DifferenceIs(v.Value(), exp, x) && v.v64 == 0
    ensures v.v0 > 0 && x / Exp2(exp - 64 - 1084) == v.v0 as real
  {
    hide Exp2, P2;
    Rescale(x, exp - 1084, 64);
    assert exp - 1084 - 64 == exp - 64 - 1084;
    P2Constants();
  }

  lemma ShortNormalized(w: Word, exp: int, x: real, sc: nat)
    requires x / Exp2(exp - 1084) == w as real && w < 0x8000_0000_0000_0000
    requires sc < 64 && 0x4000_0000_0000_0000 <= w * P2(sc) < 0x8000_0000_0000_0000
    ensures ShortShift128Left(w, 0, sc) == U128(w * P2(sc), 0)
    ensures Near(512, w * P2(sc), x / Exp2(exp - sc - 1084))
  {
    hide Exp2, P2, Near, ShortShift128Left;
    ScaledOrder(P2(sc), 1, w);
    ShortShift128LeftCorrect(w, 0, sc);
    SameWords(ShortShift128Left(w, 0, sc), w, P2(sc));
    Rescale(x, exp - 1084, sc);
    assert exp - 1084 - sc == exp - sc - 1084;
    RealOfProduct(w, P2(sc));
    ExactlyNear(w * P2(sc), x / Exp2(exp - sc - 1084));
  }

  lemma SameWords(z: U128, w: Word, p: int)
    requires z.Value() == U128(w, 0).Value() * p && 0 <= w * p < 0x1_0000_0000_0000_0000
    ensures z == U128(w * p, 0)
  {
    assert U128(w, 0).Value() * p == (w * p) * 0x1_0000_0000_0000_0000;
  }

  /** One bit too many: shifted back down, jamming. */
  lemma ShortHalved(w: Word, exp: int, x: real)
    requires x / Exp2(exp - 1084) == w as real && w >= 0x8000_0000_0000_0000
    ensures 0x4000_0000_0000_0000 <= ShortShift64RightJam(w, 1) < 0x8000_0000_0000_0000
    ensures Near(512, ShortShift64RightJam(w, 1), x / Exp2(exp + 1 - 1084))
  {
    hide Exp2, P2, Near;
    ShortShift64RightJamCorrect(w, 1);
    P2Constants();
    ScaleUp(x, exp - 1084, 1);
    assert exp - 1084 + 1 == exp + 1 - 1084;
    ExactlyNear(w, w as real);
    NearJamRight(512, w, 1, w as real);
  }

  method NormalizeDifference(v0: U128, exp0: int, ghost x: real) returns (expZ: int, sigZ: Word)
    requires DifferenceIs(v0.Value(), exp0, x)
    ensures exp0 - 128 <= expZ <= exp0
    ensures 0x4000_0000_0000_0000 <= sigZ < 0x8000_0000_0000_0000
    ensures Near(512, sigZ, x / Exp2(expZ - 1084))
  {
    hide Exp2, P2, Near, ShortShift128Left, ShortShift64RightJam, DifferenceIs, Normalizes;
    var sigZ128 := v0;
    expZ := exp0;
    if sigZ128.v64 == 0 {
      ShortDifference(sigZ128, expZ, x);
      expZ := expZ - 64;
      sigZ128 := U128(sigZ128.v0, 0);
    }
    var clz := CountLeadingZeros64(sigZ128.v64);
    var shiftCount := clz as int - 1;
    if sigZ128.v64 < 0x8000_0000_0000_0000 {
      LeadingZeros(sigZ128.v64, clz);
    } else {
      NoLeadingZeros(sigZ128.v64, clz);
    }
    ghost var short := v0.v64 == 0;
    expZ := expZ - shiftCount;
    if shiftCount < 0 {
      if !short {
        HighWordSmall(v0, exp0, x);
      }
      ShortHalved(sigZ128.v64, exp0 - 64, x);
      sigZ := ShortShift64RightJam(sigZ128.v64, -shiftCount);
    } else {
      if short {
        ShortNormalized(sigZ128.v64, exp0 - 64, x, shiftCount);
      } else {
        LongNormalized(v0, exp0, x, shiftCount);
      }
      sigZ128 := ShortShift128Left(sigZ128.v64, sigZ128.v0, shiftCount);
      sigZ := sigZ128.v64;
    }
    sigZ := JamWord(sigZ, sigZ128.v0 != 0);
  }

  lemma NoLeadingZeros(a: Word, clz: nat)
    requires a >= 0x8000_0000_0000_0000 && Normalizes(a, clz)
    ensures clz == 0
  {
    hide P2;
    if clz > 0 {
      P2Step(clz - 1);
      ScaledOrder(a, 2, P2(clz));
      assert false;
    }
  }

  lemma HighWordSmall(v: U128, exp: int, x: real)
    requires DifferenceIs(v.Value(), exp, x)
    ensures v.v64 < 0x4000_0000_0000_0000
  {
  }

  // ---------------------------------------------------------------------------
  // The operation

  /** Equal signs: the magnitudes add. */
  method AddAligned(s: FloatState, signZ: bool, expProd: int, sigProd0: U128, expC: int, sigC: Word, ghost p: real,
                    ghost c: real)
    returns (z: Word)
    requires ProductIs(sigProd0, expProd, p) && AddendIs(sigC, expC, c)
    requires -1200 <= expProd <= 3100 && -51 <= expC <= 0x7FE
    modifies s`exceptionFlags
    ensures p + c >= 0.0
    ensures z == Rounded(s.roundingMode, signZ, p + c)
    ensures s.exceptionFlags == old(s.exceptionFlags) + RoundFlags(s.roundingMode, s.detectTininess, signZ, p + c)
  {
    hide Exp2, P2, Near, Rounded, RoundFlags, JamRight, Shift64RightJam, Shift128RightJam, Add128, Wrap, ProductIs,
         AddendIs, Jam, Packable;
    var sigProd := sigProd0;
    var expDiff := expProd - expC;
    var expZ, sigZ;
    AddendWord(sigC, expC, c);
    if expDiff <= 0 {
      expZ := expC;
      SumAtAddend(sigProd, expProd, p, sigC, expC, c, -expDiff);
      if expDiff != 0 {
        Shift64RightJamCorrect(sigProd.v64, -expDiff);
        sigProd := U128(Shift64RightJam(sigProd.v64, -expDiff), sigProd.v0);
      } else {
        NoShift(sigProd.v64);
      }
      WrapSmall(sigC + sigProd.v64);
      JamWordIs(Wrap(sigC + sigProd.v64), sigProd.v0 != 0);
      sigZ := JamWord(Wrap(sigC + sigProd.v64), sigProd.v0 != 0);
    } else {
      expZ := expProd;
      var sigC128 := Shift128RightJam(sigC, 0, expDiff);
      var sigZ128 := Add128(sigProd.v64, sigProd.v0, sigC128.v64, sigC128.v0);
      SumAtProduct(sigProd, expProd, p, sigC, expC, c, expDiff);
      SumWords(sigProd, sigC, expDiff);
      JamHighWord(sigZ128);
      JamWordIs(sigZ128.v64, sigZ128.v0 != 0);
      sigZ := JamWord(sigZ128.v64, sigZ128.v0 != 0);
    }
    NormalizeOnce(sigZ, (p + c) / Exp2(expZ - 1084), expZ, p + c);
    if sigZ < 0x4000_0000_0000_0000 {
      expZ := expZ - 1;
      WrapSmall(sigZ * 2);
      sigZ := Wrap(sigZ * 2);
    }
    NormalPackable(expZ, sigZ);
    z := RoundPackToF64(s, signZ, expZ, sigZ, p + c);
  }

  lemma AddendWord(sigC: Word, exp: int, c: real)
    requires AddendIs(sigC, exp, c)
    ensures sigC < 0x4000_0000_0000_0000
  {
  }

  lemma NoShift(a: Word)
    ensures JamRight(a, 0) == a
  {
    assert P2(0) == 1;
  }

  lemma JamWordIs(a: Word, sticky: bool)
    ensures JamWord(a, sticky) == Jam(a, sticky)
  {
  }

  lemma SumWords(prod: U128, sigC: Word, n: nat)
    requires n > 0
    requires 0 <= prod.Value() + JamRight(sigC * 0x1_0000_0000_0000_0000, n)
               < 0x1_0000_0000_0000_0000_0000_0000_0000_0000
    ensures var t := Shift128RightJam(sigC, 0, n);
            Add128(prod.v64, prod.v0, t.v64, t.v0).Value() == prod.Value() + JamRight(sigC * 0x1_0000_0000_0000_0000, n)
  {
    hide P2, JamRight, Shift128RightJam, Add128;
    Shift128RightJamCorrect(sigC, 0, n);
    var t := Shift128RightJam(sigC, 0, n);
    Add128Value(prod.v64, prod.v0, t.v64, t.v0);
    var w := prod.Value() + t.Value();
    DivModUnique(w, 0x1_0000_0000_0000_0000_0000_0000_0000_0000, 0, w);
  }

  lemma DifferenceWords(a: U128, b: U128)
    requires 0 <= a.Value() - b.Value()
    ensures Sub128(a.v64, a.v0, b.v64, b.v0).Value() == a.Value() - b.Value()
  {
    hide Sub128;
    Sub128Value(a.v64, a.v0, b.v64, b.v0);
    var d := a.Value() - b.Value();
    DivModUnique(d, 0x1_0000_0000_0000_0000_0000_0000_0000_0000, 0, d);
  }

  lemma DifferencePositive(w: int, exp: int, x: real)
    requires DifferenceIs(w, exp, x)
    ensures 0 < w < 0x4000_0000_0000_0000_0000_0000_0000_0000
  {
  }

  /** The 128-bit difference of the aligned magnitudes, and its sign and exponent. */
  method AlignedDifference(signProd: bool, expProd: int, sigProd: U128, expC: int, sigC: Word, ghost p: real,
                           ghost c: real)
    returns (cancels: bool, signZ: bool, expZ: int, sigZ128: U128)
    requires ProductIs(sigProd, expProd, p) && AddendIs(sigC, expC, c)
    ensures cancels <==> p == c && expProd == expC
    ensures !cancels ==>
              && (expZ == expProd || expZ == expC)
              && DifferenceIs(sigZ128.Value(), expZ, if signZ == signProd then p - c else c - p)
  {
    hide Exp2, P2, Near, JamRight, Shift128RightJam, Sub128, ProductIs, AddendIs, DifferenceIs;
    signZ, cancels := signProd, false;
    var expDiff := expProd - expC;
    if expDiff < 0 {
      signZ := !signProd;
      expZ := expC;
      var shifted := Shift128RightJam(sigProd.v64, sigProd.v0, -expDiff);
      sigZ128 := Sub128(sigC, 0, shifted.v64, shifted.v0);
      SubtractProduct(sigProd, expProd, p, sigC, expC, c, -expDiff);
    } else if expDiff == 0 {
      expZ := expProd;
      DifferenceEqual(sigProd, expProd, p, sigC, c);
      EqualWords(sigProd, sigC, expProd, p, c);
      sigZ128 := Sub128(sigProd.v64, sigProd.v0, sigC, 0);
      if sigZ128.v64 == 0 && sigZ128.v0 == 0 {
        cancels := true;
        return;
      }
      if sigZ128.v64 >= 0x8000_0000_0000_0000 {
        signZ := !signZ;
        sigZ128 := Sub128(0, 0, sigZ128.v64, sigZ128.v0);
      }
    } else {
      expZ := expProd;
      var sigC128 := Shift128RightJam(sigC, 0, expDiff);
      sigZ128 := Sub128(sigProd.v64, sigProd.v0, sigC128.v64, sigC128.v0);
      SubtractAddend(sigProd, expProd, p, sigC, expC, c, expDiff);
    }
  }

  lemma SubtractProduct(prod: U128, expProd: int, p: real, sigC: Word, expC: int, c: real, n: nat)
    requires ProductIs(prod, expProd, p) && AddendIs(sigC, expC, c) && expC == expProd + n && n > 0
    ensures var t := Shift128RightJam(prod.v64, prod.v0, n);
            DifferenceIs(Sub128(sigC, 0, t.v64, t.v0).Value(), expC, c - p)
  {
    hide Exp2, P2, Near, JamRight, Shift128RightJam, Sub128, ProductIs, AddendIs, DifferenceIs;
    var t := Shift128RightJam(prod.v64, prod.v0, n);
    Shift128RightJamCorrect(prod.v64, prod.v0, n);
    DifferenceAtAddend(prod, expProd, p, sigC, expC, c, n);
    DifferencePositive(sigC * 0x1_0000_0000_0000_0000 - JamRight(prod.Value(), n), expC, c - p);
    DifferenceWords(U128(sigC, 0), t);
  }

  lemma SubtractAddend(prod: U128, expProd: int, p: real, sigC: Word, expC: int, c: real, n: nat)
    requires ProductIs(prod, expProd, p) && AddendIs(sigC, expC, c) && expProd == expC + n && n > 0
    ensures var t := Shift128RightJam(sigC, 0, n);
            DifferenceIs(Sub128(prod.v64, prod.v0, t.v64, t.v0).Value(), expProd, p - c)
  {
    hide Exp2, P2, Near, JamRight, Shift128RightJam, Sub128, ProductIs, AddendIs, DifferenceIs;
    var t := Shift128RightJam(sigC, 0, n);
    Shift128RightJamCorrect(sigC, 0, n);
    DifferenceAtProduct(prod, expProd, p, sigC, expC, c, n);
    DifferencePositive(prod.Value() - JamRight(sigC * 0x1_0000_0000_0000_0000, n), expProd, p - c);
    DifferenceWords(prod, t);
  }

  /** Opposite signs: the magnitudes subtract, and may cancel. */
  method SubAligned(s: FloatState, signProd: bool, expProd: int, sigProd: U128, expC: int, sigC: Word,
                    ghost p: real, ghost c: real)
    returns (z: Word)
    requires ProductIs(sigProd, expProd, p) && AddendIs(sigC, expC, c)
    requires -1200 <= expProd <= 3100 && -51 <= expC <= 0x7FE
    modifies s`exceptionFlags
    ensures var v := if signProd then c - p else p - c;
            && z == RoundReal(s.roundingMode, s.roundingMode == Min, v)
            && s.exceptionFlags == old(s.exceptionFlags) + RealFlags(s.roundingMode, s.detectTininess, v)
  {
    hide Exp2, Near, Rounded, RoundFlags, RoundReal, RealFlags, ProductIs, AddendIs, DifferenceIs, Packable, Pack;
    var cancels, signZ, expZ, sigZ128 := AlignedDifference(signProd, expProd, sigProd, expC, sigC, p, c);
    if cancels {
      RoundsToZero(s.roundingMode, s.detectTininess, s.roundingMode == Min);
      z := Pack(s.roundingMode == Min, 0, 0);
      return;
    }
    ghost var x := if signZ == signProd then p - c else c - p;
    var sigZ;
    expZ, sigZ := NormalizeDifference(sigZ128, expZ, x);
    NormalPackable(expZ, sigZ);
    z := RoundPackToF64(s, signZ, expZ, sigZ, x);
    NearPositive(sigZ, x, Exp2(expZ - 1084));
    RoundSignedNonzero(s.roundingMode, s.detectTininess, s.roundingMode == Min, signZ, x,
                       if signProd then c - p else p - c);
  }

  lemma NearPositive(sig: Word, x: real, u: real)
    requires u > 0.0 && 0x4000_0000_0000_0000 <= sig < 0x8000_0000_0000_0000 && Near(512, sig, x / u)
    ensures x > 0.0
  {
    NearBounds(sig, x / u);
    PositiveQuotient(x, u);
  }

  /** At equal exponents the sign is read from the top bit of the difference. */
  lemma EqualWords(prod: U128, sigC: Word, exp: int, p: real, c: real)
    requires ProductIs(prod, exp, p) && AddendIs(sigC, exp, c)
    ensures var d := prod.Value() - sigC * 0x1_0000_0000_0000_0000;
            var z := Sub128(prod.v64, prod.v0, sigC, 0);
            && (z.v64 == 0 && z.v0 == 0 <==> d == 0)
            && (z.v64 >= 0x8000_0000_0000_0000 <==> d < 0)
            && (d >= 0 ==> z.Value() == d)
            && (d < 0 ==> Sub128(0, 0, z.v64, z.v0).Value() == -d)
  {
    hide Sub128, Exp2;
    var d := prod.Value() - sigC * 0x1_0000_0000_0000_0000;
    var z := Sub128(prod.v64, prod.v0, sigC, 0);
    assert z.Value() == d % 0x1_0000_0000_0000_0000_0000_0000_0000_0000 by {
      Sub128Value(prod.v64, prod.v0, sigC, 0);
    }
    ReadDifference(z, d);
  }

  lemma ReadDifference(z: U128, d: int)
    requires -0x8000_0000_0000_0000_0000_0000_0000_0000 <= d < 0x8000_0000_0000_0000_0000_0000_0000_0000
    requires z.Value() == d % 0x1_0000_0000_0000_0000_0000_0000_0000_0000
    ensures z.v64 == 0 && z.v0 == 0 <==> d == 0
    ensures z.v64 >= 0x8000_0000_0000_0000 <==> d < 0
    ensures d >= 0 ==> z.Value() == d
    ensures d < 0 ==> Sub128(0, 0, z.v64, z.v0).Value() == -d
  {
    hide Sub128;
    SignRead(z, d);
    ZeroWords(z);
    if d < 0 {
      NegateWords(z, -d);
    }
  }

  lemma ZeroWords(z: U128)
    ensures z.Value() == 0 <==> z.v64 == 0 && z.v0 == 0
  {
  }

  lemma NegateWords(z: U128, m: int)
    requires 0 < m <= 0x8000_0000_0000_0000_0000_0000_0000_0000
    requires z.Value() == (-m) % 0x1_0000_0000_0000_0000_0000_0000_0000_0000
    ensures Sub128(0, 0, z.v64, z.v0).Value() == m && z.Value() != 0
  {
    hide Sub128;
    DivModUnique(-m, 0x1_0000_0000_0000_0000_0000_0000_0000_0000, -1, 0x1_0000_0000_0000_0000_0000_0000_0000_0000 - m);
    Negate128(z);
  }

  lemma Negate128(z: U128)
    requires z.Value() != 0
    ensures Sub128(0, 0, z.v64, z.v0).Value() == 0x1_0000_0000_0000_0000_0000_0000_0000_0000 - z.Value()
  {
    hide Wrap;
    if z.v0 == 0 {
      WrapSmall(0);
      NegateWord(z.v64);
    } else {
      NegateWord(z.v0);
      NegateWord(z.v64 + 1);
    }
  }

  lemma NegateWord(a: int)
    requires 0 < a <= 0x1_0000_0000_0000_0000
    ensures Wrap(-a) == 0x1_0000_0000_0000_0000 - a
  {
  }

  // ---------------------------------------------------------------------------
  // The whole operation

  /** Which of the two terms is negated. */
  datatype Op = Plain | SubC | SubProd

  function SignOfProduct(op: Op, a: Word, b: Word): bool { (SignOf(a) != SignOf(b)) != op.SubProd? }
  function SignOfAddend(op: Op, c: Word): bool { SignOf(c) != op.SubC? }

  /** The value to be rounded. */
  ghost function ExactMulAdd(op: Op, a: Word, b: Word, c: Word): real
    requires IsFinite(a) && IsFinite(b) && IsFinite(c)
  {
    var p := Value(a) * Value(b);
    (if op.SubProd? then -p else p) + (if op.SubC? then -Value(c) else Value(c))
  }

  /** A zero product and an infinite addend both return the addend as it was given, so a
      requested negation of it is lost, unless two zeros cancel. */
  predicate LosesNegation(op: Op, a: Word, b: Word, c: Word) {
    && op.SubC? && IsFinite(a) && IsFinite(b)
    && (|| IsInf(c)
        || (IsFinite(c) && (IsZero(a) || IsZero(b)) && (!IsZero(c) || SignOfProduct(op, a, b) == SignOfAddend(op, c))))
  }

  lemma InfiniteAddend(op: Op, a: Word, b: Word, c: Word)
    requires IsFinite(a) && IsFinite(b) && IsInf(c)
    ensures c == Pack(SignOfAddend(op, c), 0x7FF, 0) <==> !LosesNegation(op, a, b, c)
  {
    InfinityWord(c);
    PackExact(true, 0x7FF, 0);
    PackExact(false, 0x7FF, 0);
  }

  lemma TermsOf(op: Op, a: Word, b: Word, c: Word) returns (p: real, q: real)
    requires IsFinite(a) && IsFinite(b) && IsFinite(c)
    ensures p == AbsValue(a) * AbsValue(b) && q == AbsValue(c) && p >= 0.0
    ensures ExactMulAdd(op, a, b, c)
                == (if SignOfProduct(op, a, b) then -p else p) + (if SignOfAddend(op, c) then -q else q)
  {
    hide AbsValue, Value, SignOf;
    p := ProductOfSigned(a, b);
    q := AbsValue(c);
    SignedValue(c);
  }

  lemma SignedValue(c: Word)
    requires IsFinite(c)
    ensures Value(c) == if SignOf(c) then -AbsValue(c) else AbsValue(c)
  {
  }

  lemma RoundOwnValue(mode: Mode, tininess: Tininess, zeroNeg: bool, c: Word)
    requires IsFinite(c) && (IsZero(c) ==> zeroNeg == SignOf(c))
    ensures RoundReal(mode, zeroNeg, Value(c)) == c
    ensures RealFlags(mode, tininess, Value(c)) == {}
  {
    hide Mag, RoundMag, RoundFlags;
    FieldsOf(c);
    var m := c % 0x8000_0000_0000_0000;
    RoundRepresentable(mode, tininess, SignOf(c), m);
    if IsZero(c) {
      ZeroValue(c);
      RoundsToZero(mode, tininess, zeroNeg);
    } else {
      NonzeroValue(c);
      RoundSignedNonzero(mode, tininess, zeroNeg, SignOf(c), AbsValue(c), Value(c));
    }
  }

  /** The exit for a zero product. */
  method ZeroProductExit(s: FloatState, op: Op, a: Word, b: Word, c: Word) returns (z: Word)
    requires IsFinite(a) && IsFinite(b) && IsFinite(c) && (IsZero(a) || IsZero(b))
    ensures var v, zero := ExactMulAdd(op, a, b, c),
                           ZeroSign(s.roundingMode, SignOfProduct(op, a, b), SignOfAddend(op, c));
            && (LosesNegation(op, a, b, c) <==> z != RoundReal(s.roundingMode, zero, v))
            && (LosesNegation(op, a, b, c) ==> z == c)
            && RealFlags(s.roundingMode, s.detectTininess, v) == {}
  {
    hide Mag, RoundReal, RealFlags, AbsValue, Pack;
    var signProd, signC := SignOfProduct(op, a, b), SignOfAddend(op, c);
    z := c;
    if ExpOf(c) == 0 && FracOf(c) == 0 && signProd != signC {
      z := Pack(s.roundingMode == Min, 0, 0);
    }
    ZeroProductCases(s.roundingMode, s.detectTininess, op, a, b, c);
  }

  lemma ZeroProductCases(mode: Mode, tininess: Tininess, op: Op, a: Word, b: Word, c: Word)
    requires IsFinite(a) && IsFinite(b) && IsFinite(c) && (IsZero(a) || IsZero(b))
    ensures var v, zero := ExactMulAdd(op, a, b, c), ZeroSign(mode, SignOfProduct(op, a, b), SignOfAddend(op, c));
            var z := if IsZero(c) && SignOfProduct(op, a, b) != SignOfAddend(op, c) then Pack(mode == Min, 0, 0) else c;
            && (LosesNegation(op, a, b, c) <==> z != RoundReal(mode, zero, v))
            && RealFlags(mode, tininess, v) == {}
  {
    hide Mag, RoundReal, RealFlags, AbsValue, Pack;
    var v, zero := ExactMulAdd(op, a, b, c), ZeroSign(mode, SignOfProduct(op, a, b), SignOfAddend(op, c));
    if IsZero(a) { ZeroValue(a); } else { ZeroValue(b); }
    assert v == if op.SubC? then -Value(c) else Value(c);
    if IsZero(c) {
      ZeroValue(c);
      RoundsToZero(mode, tininess, zero);
      ZeroResult(c, zero);
    } else if op.SubC? {
      NegatedWord(mode, tininess, zero, c);
    } else {
      RoundOwnValue(mode, tininess, zero, c);
    }
  }

  lemma ZeroResult(c: Word, zero: bool)
    requires IsZero(c)
    ensures c == Pack(zero, 0, 0) <==> SignOf(c) == zero
  {
    FieldsOf(c);
    PackExact(zero, 0, 0);
  }

  /** The negated addend is another word. */
  lemma NegatedWord(mode: Mode, tininess: Tininess, zero: bool, c: Word)
    requires IsFinite(c) && !IsZero(c)
    ensures RoundReal(mode, zero, -Value(c)) != c
    ensures RealFlags(mode, tininess, -Value(c)) == {}
  {
    hide Mag, RoundMag, RoundReal, RealFlags;
    FieldsOf(c);
    NonzeroValue(c);
    var m := c % 0x8000_0000_0000_0000;
    RoundRealExact(mode, tininess, zero, -Value(c), m);
  }

  /** Rounds the product alone. */
  method RoundProduct(s: FloatState, signZ: bool, expProd: int, sigProd: U128, ghost p: real) returns (z: Word)
    requires ProductIs(sigProd, expProd, p) && -1200 <= expProd <= 3100
    modifies s`exceptionFlags
    ensures p >= 0.0
    ensures z == Rounded(s.roundingMode, signZ, p)
    ensures s.exceptionFlags == old(s.exceptionFlags) + RoundFlags(s.roundingMode, s.detectTininess, signZ, p)
  {
    hide Exp2, Near, Rounded, RoundFlags, ProductIs, Packable, Wrap;
    ProductAlone(sigProd, expProd, p);
    var expZ := expProd - 1;
    WrapSmall(sigProd.v64 * 2);
    var sigZ := JamWord(Wrap(sigProd.v64 * 2), sigProd.v0 != 0);
    NormalPackable(expZ, sigZ);
    z := RoundPackToF64(s, signZ, expZ, sigZ, p);
  }

  lemma ProductAlone(prod: U128, exp: int, p: real)
    requires ProductIs(prod, exp, p)
    ensures var z := JamWord(prod.v64 * 2, prod.v0 != 0);
            && 0x4000_0000_0000_0000 <= z < 0x8000_0000_0000_0000
            && prod.v64 * 2 < 0x8000_0000_0000_0000
            && Near(512, z, p / Exp2(exp - 1 - 1084))
  {
    hide Exp2, P2;
    Rescale(p, exp - 1084, 1);
    assert exp - 1084 - 1 == exp - 1 - 1084;
    P2Constants();
    var y := p / Exp2(exp - 1 - 1084);
    assert y == prod.Value() as real / 18446744073709551616.0 * 2.0;
    DoubledNear(prod, y);
    NearCoarsest(1, JamWord(prod.v64 * 2, prod.v0 != 0), y);
  }

  lemma DoubledNear(prod: U128, y: real)
    requires prod.v64 < 0x4000_0000_0000_0000 && y == prod.Value() as real / 18446744073709551616.0 * 2.0
    ensures Near(2, JamWord(prod.v64 * 2, prod.v0 != 0), y)
  {
    assert y == (2 * prod.v64) as real + 2.0 * (prod.v0 as real / 18446744073709551616.0);
  }

  /** Both terms nonzero, or the addend zero. */
  method MulAddNonzero(s: FloatState, op: Op, a: Word, b: Word, c: Word) returns (z: Word)
    requires IsFinite(a) && IsFinite(b) && IsFinite(c) && !IsZero(a) && !IsZero(b)
    modifies s`exceptionFlags
    ensures var v, zero := ExactMulAdd(op, a, b, c),
                           ZeroSign(s.roundingMode, SignOfProduct(op, a, b), SignOfAddend(op, c));
            && z == RoundReal(s.roundingMode, zero, v)
            && s.exceptionFlags == old(s.exceptionFlags) + RealFlags(s.roundingMode, s.detectTininess, v)
  {
    hide Exp2, Rounded, RoundFlags, RoundReal, RealFlags, AbsValue, Value, ProductIs, AddendIs, Operand, SignOf,
         ExactMulAdd;
    var signProd, signC := SignOfProduct(op, a, b), SignOfAddend(op, c);
    ghost var v := ExactMulAdd(op, a, b, c);
    ghost var zero := ZeroSign(s.roundingMode, signProd, signC);
    ghost var p, q := TermsOf(op, a, b, c);
    ProductPositive(a, b, p);
    var normA := NormOperand(a);
    var normB := NormOperand(b);
    var expProd, sigProd := ProductOf(a, normA, b, normB);
    if ExpOf(c) == 0 && FracOf(c) == 0 {
      ZeroValue(c);
      RoundSignedNonzero(s.roundingMode, s.detectTininess, zero, signProd, p, v);
      z := RoundProduct(s, signProd, expProd, sigProd, p);
      return;
    }
    var normC := NormOperand(c);
    var sigC := AddendOf(c, normC);
    if signProd == signC {
      RoundSignedNonzero(s.roundingMode, s.detectTininess, zero, signProd, p + q, v);
      z := AddAligned(s, signProd, expProd, sigProd, normC.exp, sigC, p, q);
    } else {
      z := SubAligned(s, signProd, expProd, sigProd, normC.exp, sigC, p, q);
    }
  }

  lemma ProductPositive(a: Word, b: Word, p: real)
    requires IsFinite(a) && IsFinite(b) && !IsZero(a) && !IsZero(b) && p == AbsValue(a) * AbsValue(b)
    ensures p > 0.0
  {
    hide AbsValue;
    NonzeroValue(a);
    NonzeroValue(b);
    Positive(AbsValue(a), AbsValue(b));
  }

  /** The exit for an infinite factor. */
  method InfProdArg(s: FloatState, signProd: bool, magBits: bool, signC: bool, c: Word) returns (z: Word)
    modifies s`exceptionFlags
    ensures !magBits ==> z == DEFAULT_NAN && IsNaN(z) && s.exceptionFlags == old(s.exceptionFlags) + {Invalid}
    ensures magBits && IsNaN(c) ==>
              && z == DEFAULT_NAN && IsNaN(z)
              && s.exceptionFlags == old(s.exceptionFlags) + (if IsSigNaN(c) then {Invalid} else {})
    ensures magBits && IsInf(c) && signProd != signC ==>
              z == DEFAULT_NAN && IsNaN(z) && s.exceptionFlags == old(s.exceptionFlags) + {Invalid}
    ensures magBits && !IsNaN(c) && (IsInf(c) ==> signProd == signC) ==>
              z == Pack(signProd, 0x7FF, 0) && s.exceptionFlags == old(s.exceptionFlags)
  {
    hide Pack, IsSigNaN;
    QuietWords(signProd);
    if magBits {
      z := Pack(signProd, 0x7FF, 0);
      if ExpOf(c) != 0x7FF {
        return;
      }
      if FracOf(c) != 0 {
        z := PropagateNaNF64UI(s, z, c);
        return;
      }
      if signProd == signC {
        return;
      }
    }
    s.Raise({Invalid});
    z := PropagateNaNF64UI(s, DEFAULT_NAN, c);
  }

  lemma QuietWords(sign: bool)
    ensures !IsSigNaN(Pack(sign, 0x7FF, 0)) && !IsSigNaN(DEFAULT_NAN) && !IsSigNaN(0)
  {
    PackExact(sign, 0x7FF, 0);
  }

  /** For finite operands the exact value of the product plus the addend, each negated
      as requested, is rounded once, if and only if no negation is lost. */
  method F64MulAdd(s: FloatState, op: Op, a: Word, b: Word, c: Word) returns (z: Word)
    modifies s`exceptionFlags
    ensures IsFinite(a) && IsFinite(b) && IsFinite(c) ==>
              var v, zero := ExactMulAdd(op, a, b, c),
                             ZeroSign(s.roundingMode, SignOfProduct(op, a, b), SignOfAddend(op, c));
              && (z == RoundReal(s.roundingMode, zero, v) <==> !LosesNegation(op, a, b, c))
              && (LosesNegation(op, a, b, c) ==> z == c)
              && s.exceptionFlags == old(s.exceptionFlags) + RealFlags(s.roundingMode, s.detectTininess, v)
    ensures IsFinite(a) && IsFinite(b) && IsInf(c) ==>
              && (z == Pack(SignOfAddend(op, c), 0x7FF, 0) <==> !LosesNegation(op, a, b, c))
              && z == c && s.exceptionFlags == old(s.exceptionFlags)
    ensures IsFinite(a) && IsFinite(b) && IsNaN(c) ==>
              && z == DEFAULT_NAN && IsNaN(z)
              && s.exceptionFlags == old(s.exceptionFlags) + (if IsSigNaN(c) then {Invalid} else {})
    ensures IsNaN(a) || IsNaN(b) ==>
              && z == DEFAULT_NAN && IsNaN(z)
              && s.exceptionFlags == old(s.exceptionFlags)
                   + (if IsSigNaN(a) || IsSigNaN(b) || IsSigNaN(c) then {Invalid} else {})
    ensures (IsInf(a) && IsZero(b)) || (IsZero(a) && IsInf(b)) ==>
              z == DEFAULT_NAN && IsNaN(z) && s.exceptionFlags == old(s.exceptionFlags) + {Invalid}
    ensures (IsInf(a) && !IsNaN(b) && !IsZero(b)) || (IsInf(b) && !IsNaN(a) && !IsZero(a)) ==>
              if IsNaN(c) then
                && z == DEFAULT_NAN && IsNaN(z)
                && s.exceptionFlags == old(s.exceptionFlags) + (if IsSigNaN(c) then {Invalid} else {})
              else if IsInf(c) && SignOfProduct(op, a, b) != SignOfAddend(op, c) then
                z == DEFAULT_NAN && IsNaN(z) && s.exceptionFlags == old(s.exceptionFlags) + {Invalid}
              else
                z == Pack(SignOfProduct(op, a, b), 0x7FF, 0) && s.exceptionFlags == old(s.exceptionFlags)
  {
    hide RoundReal, RealFlags, ExactMulAdd, Pack, IsSigNaN, SignOf, SignOfProduct, SignOfAddend;
    var expA, sigA, expB, sigB, expC, sigC := ExpOf(a), FracOf(a), ExpOf(b), FracOf(b), ExpOf(c), FracOf(c);
    var signProd, signC := SignOfProduct(op, a, b), SignOfAddend(op, c);
    QuietWords(signProd);
    if (expA == 0x7FF && (sigA != 0 || (expB == 0x7FF && sigB != 0))) || (expA != 0x7FF && expB == 0x7FF && sigB != 0) {
      z := PropagateNaNF64UI(s, a, b);
      z := PropagateNaNF64UI(s, z, c);
      return;
    }
    if expA == 0x7FF {
      z := InfProdArg(s, signProd, expB != 0 || sigB != 0, signC, c);
      return;
    }
    if expB == 0x7FF {
      z := InfProdArg(s, signProd, expA != 0 || sigA != 0, signC, c);
      return;
    }
    if expC == 0x7FF {
      if sigC != 0 {
        z := PropagateNaNF64UI(s, 0, c);
        return;
      }
      InfiniteAddend(op, a, b, c);
      z := c;
      return;
    }
    if (expA == 0 && sigA == 0) || (expB == 0 && sigB == 0) {
      z := ZeroProductExit(s, op, a, b, c);
      return;
    }
    z := MulAddNonzero(s, op, a, b, c);
  }

  /** Two inputs on which the negation is lost: 0 * 1 - 1 comes out as 1, and 1 * 1 - inf as inf. */
  method NegationLost(s: FloatState, one: Word, inf: Word) returns (y: Word, z: Word)
    requires one == 0x3FF0_0000_0000_0000 && inf == 0x7FF0_0000_0000_0000
    modifies s`exceptionFlags
    ensures IsFinite(0) && IsFinite(one) && IsInf(inf)
    ensures y == one && ExactMulAdd(SubC, 0, one, one) == -Value(one) < 0.0
    ensures z == inf && SignOfAddend(SubC, inf)
  {
    hide AbsValue, RoundReal, RealFlags;
    ZeroValue(0);
    NonzeroValue(one);
    y := F64MulAdd(s, SubC, 0, one, one);
    z := F64MulAdd(s, SubC, one, one, inf);
  }
}
