/** Double-precision addition and subtraction. */
module Sum {
  import opened Machine
  import opened Powers
  import opened Rounding
  import opened Sticky
  import opened Words
  import opened Shifts
  import opened Arith128
  import opened RoundPack
  import opened Kernel

  /** The significand shifted left by k, with the hidden bit, or doubled when the
      operand is subnormal. */
  function Shifted(ui: Word, k: nat): int
  {
    if ExpOf(ui) != 0 then (FracOf(ui) + 0x10_0000_0000_0000) * P2(k) else FracOf(ui) * P2(k + 1)
  }

  lemma ShiftedValue(ui: Word, k: nat)
    requires IsFinite(ui)
    ensures AbsValue(ui) == Shifted(ui, k) as real * Exp2(ExpOf(ui) - 1075 - k)
  {
    hide Exp2, P2;
    FieldsOf(ui);
    var e, f, m := ExpOf(ui), FracOf(ui), ui % 0x8000_0000_0000_0000;
    assert m / 0x10_0000_0000_0000 == e && m % 0x10_0000_0000_0000 == f;
    if e == 0 {
      Exp2Add(e - 1075 - k, k + 1);
      Exp2Nat(k + 1);
      assert e - 1075 - k + (k + 1) == e - 1074;
      RealAssociate(f, P2(k + 1), f * P2(k + 1), Exp2(e - 1075 - k), Exp2(e - 1074));
    } else {
      Exp2Add(e - 1075 - k, k);
      Exp2Nat(k);
      assert e - 1075 - k + k == e - 1075;
      RealAssociate(f + 0x10_0000_0000_0000, P2(k), (f + 0x10_0000_0000_0000) * P2(k),
                    Exp2(e - 1075 - k), Exp2(e - 1075));
    }
  }

  /** A sum with a jammed addend. */
  lemma NearPlus(c: int, z: int, y: real)
    requires c % 2 == 0 && Near(2, z, y)
    ensures Near(2, c + z, c as real + y)
    ensures Near(2, c - z, c as real - y)
  {
  }

  /** An operand brought to the exponent of a larger one. */
  lemma AlignTo(ui: Word, k: nat, e: int, n: nat)
    requires IsFinite(ui) && n > 0 && e == ExpOf(ui) + n
    ensures Near(2, JamRight(Shifted(ui, k), n), AbsValue(ui) / Exp2(e - 1075 - k))
    ensures AbsValue(ui) / Exp2(e - 1075 - k) == Shifted(ui, k) as real / P2(n) as real
  {
    hide Exp2, P2, AbsValue, Shifted, Near;
    var m := Shifted(ui, k);
    ShiftedValue(ui, k);
    ScaleQuotient(m as real, ExpOf(ui) - 1075 - k, e - 1075 - k);
    assert ExpOf(ui) - 1075 - k - (e - 1075 - k) == -(n as int);
    ScaleDown(m as real, n as int);
    assert AbsValue(ui) / Exp2(e - 1075 - k) == m as real / P2(n) as real;
    NearExact(m);
    NearJamRight(2, m, n, m as real);
  }

  lemma NearExact(m: int)
    ensures Near(2, m, m as real)
  {
  }

  lemma SameExponent(ui: Word, k: nat)
    requires IsFinite(ui)
    ensures AbsValue(ui) / Exp2(ExpOf(ui) - 1075 - k) == Shifted(ui, k) as real
  {
    hide Exp2, P2, AbsValue, Shifted;
    ShiftedValue(ui, k);
    CancelScale(Shifted(ui, k) as real, Exp2(ExpOf(ui) - 1075 - k));
  }

  lemma CancelScale(m: real, u: real)
    requires u > 0.0
    ensures m * u / u == m
  {
  }

  lemma QuotientSum(a: real, b: real, u: real)
    requires u > 0.0
    ensures (a + b) / u == a / u + b / u && (a - b) / u == a / u - b / u
  {
  }

  lemma ShiftedRange(ui: Word, k: nat)
    requires k <= 10
    ensures 0 <= Shifted(ui, k) < 0x20_0000_0000_0000 * P2(k)
    ensures ExpOf(ui) != 0 ==> Shifted(ui, k) >= 0x10_0000_0000_0000 * P2(k)
    ensures k > 0 ==> Shifted(ui, k) % 2 == 0
  {
    hide P2;
    FieldsOf(ui);
    P2Step(k);
    var f, p := FracOf(ui), P2(k);
    if ExpOf(ui) != 0 {
      ScaledOrder(p, 0x10_0000_0000_0000, f + 0x10_0000_0000_0000);
      FactorBelow(f + 0x10_0000_0000_0000, 0x20_0000_0000_0000, p);
    } else {
      ScaledOrder(2 * p, 0, f);
      FactorBelow(f, 0x10_0000_0000_0000, 2 * p);
    }
    if k > 0 {
      P2Step(k - 1);
      EvenFactor(f, P2(k - 1));
      EvenFactor(f + 0x10_0000_0000_0000, P2(k - 1));
      EvenFactor(f, p);
    }
  }

  lemma FactorBelow(a: int, b: int, p: int)
    requires a < b && p > 0
    ensures a * p < b * p
  {
  }

  lemma EvenFactor(f: int, h: int)
    ensures (f * (2 * h)) % 2 == 0
  {
    assert f * (2 * h) == 2 * (f * h);
  }

  // ---------------------------------------------------------------------------
  // Magnitude sums

  /** The code's shifted fraction plus hidden bit is the aligned significand. */
  lemma ShiftedWord(ui: Word)
    ensures ShiftLeft(FracOf(ui), 9) == FracOf(ui) * 0x200 < 0x2000_0000_0000_0000
    ensures ShiftLeft(FracOf(ui), 10) == FracOf(ui) * 0x400 < 0x4000_0000_0000_0000
    ensures Shifted(ui, 9)
                == FracOf(ui) * 0x200 + (if ExpOf(ui) != 0 then 0x2000_0000_0000_0000 else FracOf(ui) * 0x200)
    ensures Shifted(ui, 10)
                == FracOf(ui) * 0x400 + (if ExpOf(ui) != 0 then 0x4000_0000_0000_0000 else FracOf(ui) * 0x400)
  {
    hide P2, Wrap;
    FieldsOf(ui);
    P2Constants();
    WrapSmall(FracOf(ui) * 0x200);
    WrapSmall(FracOf(ui) * 0x400);
  }

  /** The larger operand plus the other one, aligned and jammed. */
  lemma UnequalSum(big: Word, small: Word, n: nat, x: real)
    requires IsFinite(big) && IsFinite(small) && n > 0 && ExpOf(big) == ExpOf(small) + n
    requires x == AbsValue(big) + AbsValue(small)
    ensures var z := Shifted(big, 9) + JamRight(Shifted(small, 9), n);
            && 0x2000_0000_0000_0000 <= z < 0x8000_0000_0000_0000
            && Near(2, z, x / Exp2(ExpOf(big) - 1084))
    ensures 0 <= JamRight(Shifted(small, 9), n) <= 0x2000_0000_0000_0000
  {
    hide Exp2, P2, AbsValue, Shifted, Near, JamRight;
    P2Constants();
    var e := ExpOf(big);
    ShiftedRange(big, 9);
    ShiftedRange(small, 9);
    SameExponent(big, 9);
    AlignTo(small, 9, e, n);
    assert e - 1075 - 9 == e - 1084;
    QuotientSum(AbsValue(big), AbsValue(small), Exp2(e - 1084));
    var c, z, y := Shifted(big, 9), JamRight(Shifted(small, 9), n), AbsValue(small) / Exp2(e - 1084);
    assert x / Exp2(e - 1084) == c as real + y;
    NearPlus(c, z, y);
    JamRightHalf(Shifted(small, 9), n);
  }

  lemma JamRightHalf(a: int, n: nat)
    requires 0 <= a < 0x4000_0000_0000_0000 && n > 0
    ensures 0 <= JamRight(a, n) <= 0x2000_0000_0000_0000
  {
    QuarterBound(a, n);
  }

  lemma QuarterBound(a: int, n: nat)
    requires a >= 0 && n > 0
    ensures 0 <= 2 * (a / P2(n)) <= a
    ensures n > 1 ==> 4 * (a / P2(n)) <= a
  {
    hide P2;
    P2Step(n - 1);
    var p := P2(n);
    assert a == a / p * p + a % p;
    QuotientBound(a, p);
    ScaledOrder(a / p, 2, p);
    if n > 1 {
      P2Step(n - 2);
      ScaledOrder(a / p, 4, p);
    }
  }

  lemma EqualSum(a: Word, b: Word, x: real)
    requires IsFinite(a) && IsFinite(b) && ExpOf(a) == ExpOf(b) != 0
    requires x == AbsValue(a) + AbsValue(b)
    ensures var z := Shifted(a, 9) + Shifted(b, 9);
            && 0x4000_0000_0000_0000 <= z < 0x8000_0000_0000_0000
            && Near(512, z, x / Exp2(ExpOf(a) - 1084))
  {
    hide Exp2, P2, AbsValue, Shifted;
    P2Constants();
    var e := ExpOf(a);
    ShiftedRange(a, 9);
    ShiftedRange(b, 9);
    SameExponent(a, 9);
    SameExponent(b, 9);
    assert e - 1075 - 9 == e - 1084;
    QuotientSum(AbsValue(a), AbsValue(b), Exp2(e - 1084));
  }

  /** Two subnormal magnitudes add exactly. */
  lemma SubnormalSum(mode: Mode, tininess: Tininess, neg: bool, a: Word, b: Word, x: real)
    requires IsFinite(a) && IsFinite(b) && ExpOf(a) == ExpOf(b) == 0
    requires x == AbsValue(a) + AbsValue(b)
    ensures x >= 0.0
    ensures Rounded(mode, neg, x) == Pack(neg, 0, Wrap(a + b) % 0x8000_0000_0000_0000)
    ensures RoundFlags(mode, tininess, neg, x) == {}
  {
    hide Exp2, P2, Mag, RoundMag, RoundFlags, Pack, Wrap, ExpOf, FracOf, AbsValue;
    var fa, fb := FracOf(a), FracOf(b);
    FieldsOf(a);
    FieldsOf(b);
    SubnormalMag(a, ExpOf(a));
    SubnormalMag(b, ExpOf(a));
    MagLinear(ExpOf(a), fa + fb);
    DistributeScale(fa, fb, Exp2(ExpOf(a) - 1074));
    RoundRepresentable(mode, tininess, neg, fa + fb);
    assert x == Mag(fa + fb);
    MaskedSum(a, b);
    PackExact(neg, 0, fa + fb);
  }

  lemma SubnormalMag(a: Word, e: int)
    requires IsFinite(a) && ExpOf(a) == e == 0
    ensures AbsValue(a) == FracOf(a) as real * Exp2(e - 1074)
  {
    hide Exp2, Mag;
    FieldsOf(a);
    MagLinear(e, FracOf(a));
    assert e * 0x10_0000_0000_0000 + FracOf(a) == a % 0x8000_0000_0000_0000;
  }

  /** Whatever the two signs, masking the sum leaves the sum of the fractions. */
  lemma MaskedSum(a: Word, b: Word)
    requires ExpOf(a) == ExpOf(b) == 0
    ensures Wrap(a + b) % 0x8000_0000_0000_0000 == FracOf(a) + FracOf(b)
  {
    hide ExpOf, FracOf;
    FieldsOf(a);
    FieldsOf(b);
  }

  lemma DistributeScale(a: int, b: int, u: real)
    ensures (a + b) as real * u == a as real * u + b as real * u
  {
  }

  /** Adds the magnitudes; the sum has sign `signZ`. */
  method AddMagsF64(s: FloatState, uiA: Word, uiB: Word, signZ: bool) returns (z: Word)
    modifies s`exceptionFlags
    ensures IsFinite(uiA) && IsFinite(uiB) ==>
              var x := AbsValue(uiA) + AbsValue(uiB);
              && z == Rounded(s.roundingMode, signZ, x)
              && s.exceptionFlags == old(s.exceptionFlags) + RoundFlags(s.roundingMode, s.detectTininess, signZ, x)
    ensures IsNaN(uiA) || IsNaN(uiB) ==>
              && z == DEFAULT_NAN && IsNaN(z)
              && s.exceptionFlags == old(s.exceptionFlags) + (if IsSigNaN(uiA) || IsSigNaN(uiB) then {Invalid} else {})
    ensures (IsInf(uiA) && !IsNaN(uiB)) || (IsInf(uiB) && !IsNaN(uiA)) ==>
              && z == (if IsInf(uiA) then uiA else Pack(signZ, 0x7FF, 0))
              && s.exceptionFlags == old(s.exceptionFlags)
  {
    hide Exp2, P2, Rounded, RoundFlags, AbsValue, Near, Pack, IsSigNaN, Packable, SignOf, Wrap, Shifted, JamRight,
         Shift64RightJam, ShiftLeft;
    var expA, expB := ExpOf(uiA), ExpOf(uiB);
    var expDiff := expA - expB;
    var sigA, sigB := ShiftLeft(FracOf(uiA), 9), ShiftLeft(FracOf(uiB), 9);
    var expZ, sigZ;
    ShiftedWord(uiA);
    ShiftedWord(uiB);
    ghost var x := if IsFinite(uiA) && IsFinite(uiB) then AbsValue(uiA) + AbsValue(uiB) else 0.0;
    if expDiff == 0 {
      if expA == 0x7FF {
        if sigA != 0 || sigB != 0 {
          z := PropagateNaNF64UI(s, uiA, uiB);
          return;
        }
        z := uiA;
        return;
      }
      if expA == 0 {
        SubnormalSum(s.roundingMode, s.detectTininess, signZ, uiA, uiB, x);
        z := Pack(signZ, 0, Wrap(uiA + uiB) % 0x8000_0000_0000_0000);
        return;
      }
      expZ := expA;
      EqualSum(uiA, uiB, x);
      WrapSmall(0x4000_0000_0000_0000 + sigA + sigB);
      sigZ := Wrap(0x4000_0000_0000_0000 + sigA + sigB);
    } else {
      if expDiff < 0 {
        if expB == 0x7FF {
          if sigB != 0 {
            z := PropagateNaNF64UI(s, uiA, uiB);
            return;
          }
          z := Pack(signZ, 0x7FF, 0);
          return;
        }
        expZ := expB;
        UnequalSum(uiB, uiA, -expDiff, x);
        WrapSmall(sigA + (if expA != 0 then 0x2000_0000_0000_0000 else sigA));
        sigA := Wrap(sigA + (if expA != 0 then 0x2000_0000_0000_0000 else sigA));
        Shift64RightJamCorrect(sigA, -expDiff);
        sigA := Shift64RightJam(sigA, -expDiff);
      } else {
        if expA == 0x7FF {
          if sigA != 0 {
            z := PropagateNaNF64UI(s, uiA, uiB);
            return;
          }
          z := uiA;
          return;
        }
        expZ := expA;
        UnequalSum(uiA, uiB, expDiff, x);
        WrapSmall(sigB + (if expB != 0 then 0x2000_0000_0000_0000 else sigB));
        sigB := Wrap(sigB + (if expB != 0 then 0x2000_0000_0000_0000 else sigB));
        Shift64RightJamCorrect(sigB, expDiff);
        sigB := Shift64RightJam(sigB, expDiff);
      }
      WrapSmall(0x2000_0000_0000_0000 + sigA + sigB);
      sigZ := Wrap(0x2000_0000_0000_0000 + sigA + sigB);
      NormalizeOnce(sigZ, x / Exp2(expZ - 1084), expZ, x);
      if sigZ < 0x4000_0000_0000_0000 {
        expZ := expZ - 1;
        WrapSmall(sigZ * 2);
        sigZ := Wrap(sigZ * 2);
      }
    }
    NormalPackable(expZ, sigZ);
    z := RoundPackToF64(s, signZ, expZ, sigZ, x);
  }

  lemma NormalPackable(exp: int, sig: Word)
    requires -0x8000 <= exp < 0x8000 && 0x4000_0000_0000_0000 <= sig < 0x8000_0000_0000_0000
    ensures Packable(exp, sig)
  {
  }

  // ---------------------------------------------------------------------------
  // Magnitude differences

  /** The larger operand minus the other one, aligned and jammed. */
  lemma UnequalDifference(big: Word, small: Word, n: nat, x: real)
    requires IsFinite(big) && IsFinite(small) && n > 0 && ExpOf(big) == ExpOf(small) + n
    requires x == AbsValue(big) - AbsValue(small)
    ensures var z := Shifted(big, 10) - JamRight(Shifted(small, 10), n);
            && 0 < z < 0x8000_0000_0000_0000
            && Aligned(z, x / Exp2(ExpOf(big) - 1 - 1084))
    ensures 0 <= JamRight(Shifted(small, 10), n) < 0x4000_0000_0000_0000
  {
    hide Exp2, P2, AbsValue, Shifted, Near, JamRight;
    P2Constants();
    var e := ExpOf(big);
    ShiftedRange(big, 10);
    ShiftedRange(small, 10);
    SameExponent(big, 10);
    AlignTo(small, 10, e, n);
    assert e - 1075 - 10 == e - 1 - 1084;
    var u := Exp2(e - 1 - 1084);
    QuotientSum(AbsValue(big), AbsValue(small), u);
    var c, z, y := Shifted(big, 10), JamRight(Shifted(small, 10), n), AbsValue(small) / u;
    assert x / u == c as real - y;
    NearPlus(c, z, y);
    JamRightQuarter(Shifted(small, 10), n);
    if n == 1 {
      ExactHalf(Shifted(small, 10), n);
    }
  }

  /** A difference of one place is exact; a larger one leaves at most a quarter. */
  lemma JamRightQuarter(a: int, n: nat)
    requires 0 <= a < 0x8000_0000_0000_0000 && a % 2 == 0 && n > 0
    ensures 0 <= JamRight(a, n) < 0x4000_0000_0000_0000
    ensures n > 1 ==> JamRight(a, n) <= 0x2000_0000_0000_0000
  {
    QuarterBound(a, n);
    if n == 1 {
      ExactHalf(a, n);
    }
  }

  lemma ExactHalf(a: int, n: nat)
    requires a % 2 == 0 && n == 1
    ensures JamRight(a, n) == a / 2 && a as real / P2(n) as real == (a / 2) as real
  {
    assert P2(1) == 2;
  }

  /** Equal exponents: the hidden bits cancel and nothing is lost. */
  lemma EqualDifference(a: Word, b: Word, x: real)
    requires IsFinite(a) && IsFinite(b) && ExpOf(a) == ExpOf(b) && FracOf(b) <= FracOf(a)
    requires x == AbsValue(a) - AbsValue(b)
    ensures var e := if ExpOf(a) == 0 then 1 else ExpOf(a);
            x / Exp2(e - 1 - 1084) == (FracOf(a) * 0x400 - FracOf(b) * 0x400) as real
    ensures x == 0.0 <==> FracOf(a) == FracOf(b)
  {
    hide Exp2, P2, AbsValue, Shifted;
    P2Constants();
    var k := if ExpOf(a) == 0 then 9 else 10;
    var e := if ExpOf(a) == 0 then 1 else ExpOf(a);
    FieldsOf(a);
    FieldsOf(b);
    ShiftedWord(a);
    ShiftedWord(b);
    SameExponent(a, k);
    SameExponent(b, k);
    assert ExpOf(a) - 1075 - k == e - 1 - 1084;
    var u := Exp2(e - 1 - 1084);
    QuotientSum(AbsValue(a), AbsValue(b), u);
    ZeroQuotient(x, u);
  }

  lemma ZeroQuotient(x: real, u: real)
    requires u > 0.0
    ensures x / u == 0.0 <==> x == 0.0
  {
  }

  /** Subtracts the magnitudes; the difference is negated if `signZ0` is set. */
  method SubMagsF64(s: FloatState, uiA: Word, uiB: Word, signZ0: bool) returns (z: Word)
    modifies s`exceptionFlags
    ensures IsFinite(uiA) && IsFinite(uiB) ==>
              var d := AbsValue(uiA) - AbsValue(uiB);
              var v := if signZ0 then -d else d;
              && z == RoundReal(s.roundingMode, s.roundingMode == Min, v)
              && s.exceptionFlags == old(s.exceptionFlags) + RealFlags(s.roundingMode, s.detectTininess, v)
    ensures IsNaN(uiA) || IsNaN(uiB) ==>
              && z == DEFAULT_NAN && IsNaN(z)
              && s.exceptionFlags == old(s.exceptionFlags) + (if IsSigNaN(uiA) || IsSigNaN(uiB) then {Invalid} else {})
    ensures IsInf(uiA) && IsInf(uiB) ==>
              z == DEFAULT_NAN && IsNaN(z) && s.exceptionFlags == old(s.exceptionFlags) + {Invalid}
    ensures IsInf(uiA) && IsFinite(uiB) ==> z == uiA && s.exceptionFlags == old(s.exceptionFlags)
    ensures IsFinite(uiA) && IsInf(uiB) ==> z == Pack(!signZ0, 0x7FF, 0) && s.exceptionFlags == old(s.exceptionFlags)
  {
    hide Exp2, P2, Rounded, RoundFlags, RoundReal, RealFlags, AbsValue, Near, Pack, IsSigNaN, SignOf, Wrap,
         Shifted, JamRight, Shift64RightJam, ShiftLeft, Or;
    var signZ := signZ0;
    var expA, expB := ExpOf(uiA), ExpOf(uiB);
    var expDiff := expA - expB;
    var sigA, sigB := ShiftLeft(FracOf(uiA), 10), ShiftLeft(FracOf(uiB), 10);
    var expZ, sigZ;
    ShiftedWord(uiA);
    ShiftedWord(uiB);
    FieldsOf(uiA);
    FieldsOf(uiB);
    ghost var d := if IsFinite(uiA) && IsFinite(uiB) then AbsValue(uiA) - AbsValue(uiB) else 0.0;
    ghost var v := if signZ then -d else d;
    if expDiff > 0 {
      if expA == 0x7FF {
        if sigA != 0 {
          z := PropagateNaNF64UI(s, uiA, uiB);
          return;
        }
        z := uiA;
        return;
      }
      UnequalDifference(uiA, uiB, expDiff, d);
      WrapSmall(sigB + (if expB != 0 then 0x4000_0000_0000_0000 else sigB));
      sigB := Wrap(sigB + (if expB != 0 then 0x4000_0000_0000_0000 else sigB));
      Shift64RightJamCorrect(sigB, expDiff);
      sigB := Shift64RightJam(sigB, expDiff);
      OrTop(FracOf(uiA));
      sigA := Or(sigA, 0x4000_0000_0000_0000);
      expZ := expA;
      WrapSmall(sigA - sigB);
      sigZ := Wrap(sigA - sigB);
      z := SubPack(s, signZ, expZ, sigZ, d, v);
      return;
    }
    if expDiff < 0 {
      if expB == 0x7FF {
        if sigB != 0 {
          z := PropagateNaNF64UI(s, uiA, uiB);
          return;
        }
        z := Pack(!signZ, 0x7FF, 0);
        return;
      }
      UnequalDifference(uiB, uiA, -expDiff, -d);
      WrapSmall(sigA + (if expA != 0 then 0x4000_0000_0000_0000 else sigA));
      sigA := Wrap(sigA + (if expA != 0 then 0x4000_0000_0000_0000 else sigA));
      Shift64RightJamCorrect(sigA, -expDiff);
      sigA := Shift64RightJam(sigA, -expDiff);
      OrTop(FracOf(uiB));
      sigB := Or(sigB, 0x4000_0000_0000_0000);
      signZ := !signZ;
      expZ := expB;
      WrapSmall(sigB - sigA);
      sigZ := Wrap(sigB - sigA);
      z := SubPack(s, signZ, expZ, sigZ, -d, v);
      return;
    }
    if expA == 0x7FF {
      if sigA != 0 || sigB != 0 {
        z := PropagateNaNF64UI(s, uiA, uiB);
        return;
      }
      s.Raise({Invalid});
      z := DEFAULT_NAN;
      return;
    }
    if expA == 0 {
      expA := 1;
      expB := 1;
    }
    if sigB < sigA {
      EqualDifference(uiA, uiB, d);
      expZ := expA;
      WrapSmall(sigA - sigB);
      sigZ := Wrap(sigA - sigB);
      z := SubPack(s, signZ, expZ, sigZ, d, v);
    } else if sigA < sigB {
      EqualDifference(uiB, uiA, -d);
      signZ := !signZ;
      expZ := expB;
      WrapSmall(sigB - sigA);
      sigZ := Wrap(sigB - sigA);
      z := SubPack(s, signZ, expZ, sigZ, -d, v);
    } else {
      EqualDifference(uiA, uiB, d);
      RoundsToZero(s.roundingMode, s.detectTininess, s.roundingMode == Min);
      z := Pack(s.roundingMode == Min, 0, 0);
    }
  }

  lemma OrTop(f: Word)
    requires f < 0x10_0000_0000_0000
    ensures f * 0x400 < 0x4000_0000_0000_0000
    ensures Or(f * 0x400, 0x4000_0000_0000_0000) == f * 0x400 + 0x4000_0000_0000_0000
  {
    hide Or, OrBits, P2;
    P2Constants();
    OrCommutes(f * 0x400, 0x4000_0000_0000_0000, 64);
    OrBitsDisjoint(0x4000_0000_0000_0000, f * 0x400, 64, 62);
    OrIsBits(f * 0x400, 0x4000_0000_0000_0000);
  }

  lemma OrIsBits(a: Word, b: Word)
    ensures a < P2(64) && b < P2(64) && Or(a, b) == OrBits(a, b, 64)
  {
    hide P2;
    P2Constants();
  }

  /** The common exit: a nonzero difference `x`, as a signed value `v`. */
  method SubPack(s: FloatState, signZ: bool, expZ: int, sigZ: Word, ghost x: real, ghost v: real) returns (z: Word)
    requires 1 <= expZ < 0x7FF && sigZ > 0
    requires Aligned(sigZ, x / Exp2(expZ - 1 - 1084)) && v == if signZ then -x else x
    modifies s`exceptionFlags
    ensures z == RoundReal(s.roundingMode, s.roundingMode == Min, v)
    ensures s.exceptionFlags == old(s.exceptionFlags) + RealFlags(s.roundingMode, s.detectTininess, v)
  {
    hide Exp2, Rounded, RoundFlags, RoundReal, RealFlags;
    PositiveAligned(sigZ, x / Exp2(expZ - 1 - 1084));
    PositiveQuotient(x, Exp2(expZ - 1 - 1084));
    hide Aligned;
    RoundSignedNonzero(s.roundingMode, s.detectTininess, s.roundingMode == Min, signZ, x, v);
    z := NormRoundPackToF64(s, signZ, expZ - 1, sigZ, x);
  }

  lemma PositiveAligned(sig: Word, y: real)
    requires sig > 0 && Aligned(sig, y)
    ensures y > 0.0
  {
  }

  lemma PositiveQuotient(x: real, u: real)
    requires u > 0.0 && x / u > 0.0
    ensures x > 0.0
  {
    assert x / u * u == x;
    Positive(x / u, u);
  }

  // ---------------------------------------------------------------------------

  /** The sign of an exactly zero sum or difference. */
  function ZeroSign(mode: Mode, signA: bool, signB: bool): bool {
    if signA == signB then signA else mode == Min
  }

  /** The sum of two finite numbers is rounded once. */
  method F64Add(s: FloatState, a: Word, b: Word) returns (z: Word)
    modifies s`exceptionFlags
    ensures IsFinite(a) && IsFinite(b) ==>
              var v := Value(a) + Value(b);
              && z == RoundReal(s.roundingMode, ZeroSign(s.roundingMode, SignOf(a), SignOf(b)), v)
              && s.exceptionFlags == old(s.exceptionFlags) + RealFlags(s.roundingMode, s.detectTininess, v)
    ensures IsNaN(a) || IsNaN(b) ==>
              && z == DEFAULT_NAN && IsNaN(z)
              && s.exceptionFlags == old(s.exceptionFlags) + (if IsSigNaN(a) || IsSigNaN(b) then {Invalid} else {})
    ensures IsInf(a) && IsInf(b) && SignOf(a) != SignOf(b) ==>
              z == DEFAULT_NAN && IsNaN(z) && s.exceptionFlags == old(s.exceptionFlags) + {Invalid}
    ensures IsInf(a) && !IsNaN(b) && (IsInf(b) ==> SignOf(a) == SignOf(b)) ==>
              z == a && s.exceptionFlags == old(s.exceptionFlags)
    ensures IsFinite(a) && IsInf(b) ==> z == b && s.exceptionFlags == old(s.exceptionFlags)
  {
    hide Exp2, Rounded, RoundFlags, RoundReal, RealFlags, AbsValue, IsSigNaN, Pack;
    var signA, signB := SignOf(a), SignOf(b);
    InfinityWord(b);
    if signA == signB {
      if IsFinite(a) && IsFinite(b) {
        RoundSigned(s.roundingMode, s.detectTininess, signA, AbsValue(a) + AbsValue(b), Value(a) + Value(b));
      }
      z := AddMagsF64(s, a, b, signA);
    } else {
      z := SubMagsF64(s, a, b, signA);
    }
  }

  /** The difference of two finite numbers is rounded once. */
  method F64Sub(s: FloatState, a: Word, b: Word) returns (z: Word)
    modifies s`exceptionFlags
    ensures IsFinite(a) && IsFinite(b) ==>
              var v := Value(a) - Value(b);
              && z == RoundReal(s.roundingMode, ZeroSign(s.roundingMode, SignOf(a), !SignOf(b)), v)
              && s.exceptionFlags == old(s.exceptionFlags) + RealFlags(s.roundingMode, s.detectTininess, v)
    ensures IsNaN(a) || IsNaN(b) ==>
              && z == DEFAULT_NAN && IsNaN(z)
              && s.exceptionFlags == old(s.exceptionFlags) + (if IsSigNaN(a) || IsSigNaN(b) then {Invalid} else {})
    ensures IsInf(a) && IsInf(b) && SignOf(a) == SignOf(b) ==>
              z == DEFAULT_NAN && IsNaN(z) && s.exceptionFlags == old(s.exceptionFlags) + {Invalid}
    ensures IsInf(a) && !IsNaN(b) && (IsInf(b) ==> SignOf(a) != SignOf(b)) ==>
              z == a && s.exceptionFlags == old(s.exceptionFlags)
    ensures IsFinite(a) && IsInf(b) ==> z == Pack(!SignOf(b), 0x7FF, 0) && s.exceptionFlags == old(s.exceptionFlags)
  {
    hide Exp2, Rounded, RoundFlags, RoundReal, RealFlags, AbsValue, IsSigNaN, Pack;
    var signA, signB := SignOf(a), SignOf(b);
    if signA == signB {
      z := SubMagsF64(s, a, b, signA);
    } else {
      if IsFinite(a) && IsFinite(b) {
        RoundSigned(s.roundingMode, s.detectTininess, signA, AbsValue(a) + AbsValue(b), Value(a) - Value(b));
      }
      z := AddMagsF64(s, a, b, signA);
    }
  }

  lemma InfinityWord(b: Word)
    ensures IsInf(b) ==> b == Pack(SignOf(b), 0x7FF, 0)
  {
    FieldsOf(b);
    PackExact(SignOf(b), 0x7FF, 0);
  }
}
