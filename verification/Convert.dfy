/** Conversions between doubles and 64-bit integers. */
module Convert {
  import opened Machine
  import opened Powers
  import opened Rounding
  import opened Words
  import opened Shifts
  import opened Arith128
  import opened RoundPack
  import opened Kernel

  const INT64_MAX: int := 0x7FFF_FFFF_FFFF_FFFF
  const INT64_MIN: int := -0x8000_0000_0000_0000

  /** `v` is the integer part of `y`, and `extra` tells where the fraction lies
      relative to zero and one half. */
  ghost predicate Split(v: int, extra: int, y: real) {
    && v as real <= y < (v + 1) as real
    && (extra == 0 <==> y == v as real)
    && (extra < 0x8000_0000_0000_0000 <==> y - v as real < 0.5)
    && (extra == 0x8000_0000_0000_0000 <==> y - v as real == 0.5)
  }

  /** The shift keeps the integer part, and of the fraction all that rounding needs. The
      fraction may already have been cut down to a word by an earlier shift. */
  lemma Shift64ExtraCorrect(a: Word, extra: Word, count: nat, y: real)
    requires count > 0 && Split(a, extra, y)
    ensures var z := Shift64ExtraRightJam(a, extra, count); Split(z.v, z.extra, y / P2(count) as real)
  {
    hide P2, Split, Shift64ExtraRightJam;
    if count < 64 {
      ExtraShort(a, extra, count, y);
    } else {
      ExtraLong(a, extra, count, y);
    }
  }

  /** With count 0 the word itself becomes the fraction. That is right exactly when it lies
      where the fraction did relative to zero and one half. */
  lemma Shift64ExtraZero(a: Word, extra: Word, y: real)
    requires Split(a, extra, y)
    ensures var z := Shift64ExtraRightJam(a, extra, 0);
            && z.v == a
            && (Split(z.v, z.extra, y) <==> SamePlace(JamWord(a, extra != 0), extra))
    ensures extra == 0 ==> (SamePlace(JamWord(a, extra != 0), extra) <==> a == 0)
  {
    hide P2;
    assert P2(0) == 1 by { P2Constants(); }
    assert ShiftRight(a, 0) == a && ShiftLeft(a, 0) == a by { NoShiftAtAll(a); }
  }

  predicate SamePlace(x: Word, y: Word) {
    && (x == 0 <==> y == 0)
    && (x < 0x8000_0000_0000_0000 <==> y < 0x8000_0000_0000_0000)
    && (x == 0x8000_0000_0000_0000 <==> y == 0x8000_0000_0000_0000)
  }

  lemma ExtraLong(a: Word, extra: Word, count: nat, y: real)
    requires count >= 64 && Split(a, extra, y)
    ensures var z := Shift64ExtraRightJam(a, extra, count); Split(z.v, z.extra, y / P2(count) as real)
  {
    hide P2, Split;
    P2Constants();
    if count == 64 {
      FractionWord(a, P2(count), 1, 0, a, extra, y);
    } else {
      P2Step(64);
      P2Monotone(65, count);
      SmallFraction(a, extra, P2(count), y);
    }
  }

  lemma ExtraShort(a: Word, extra: Word, count: nat, y: real)
    requires 0 < count < 64 && Split(a, extra, y)
    ensures var z := Shift64ExtraRightJam(a, extra, count); Split(z.v, z.extra, y / P2(count) as real)
  {
    hide P2, Split, JamWord, Shift64ExtraRightJam;
    var p, q := P2(count), P2(64 - count);
    var v, r := ExtraParts(a, extra, count, p, q);
    FractionWord(a, p, q, v, r, extra, y);
  }

  lemma ExtraParts(a: Word, extra: Word, count: nat, p: int, q: int) returns (v: int, r: int)
    requires 0 < count < 64 && p == P2(count) && q == P2(64 - count)
    ensures p % 2 == 0 && p * q == 0x1_0000_0000_0000_0000 && a == v * p + r && 0 <= r < p && 0 <= r * q
    ensures 0 <= v < 0x1_0000_0000_0000_0000 && r * q < 0x1_0000_0000_0000_0000
    ensures Shift64ExtraRightJam(a, extra, count) == U64Extra(v, JamWord(r * q, extra != 0))
  {
    hide P2, ShiftLeft, JamWord;
    P2Complement(count);
    P2Step(count - 1);
    v, r := a / p, a % p;
    ScaledRoom(r, p, q);
    assert ShiftLeft(a, 64 - count) == r * q by { ShiftLeftComplement(a, count); }
    assert v == ShiftRight(a, count);
    DivModUnique(64 - count, 64, 0, 64 - count);
  }

  lemma FractionWord(a: int, p: int, q: int, v: int, r: int, extra: Word, y: real)
    requires p > 0 && p % 2 == 0 && q > 0 && p * q == 0x1_0000_0000_0000_0000
    requires a == v * p + r && 0 <= r < p && Split(a, extra, y)
    ensures 0 <= r * q < 0x1_0000_0000_0000_0000 && Split(v, JamWord(r * q, extra != 0), y / p as real)
  {
    var h := p / 2;
    assert 2 * (h * q) == p * q;
    ScaledPlace(r, h, q);
    ScaledRoom(r, p, q);
    var g := y / p as real - v as real;
    DividedPlace(y, a, v, r, p, h);
    assert g < 0.5 <==> r * q < 0x8000_0000_0000_0000;
    assert g == 0.5 <==> r * q == 0x8000_0000_0000_0000 && extra == 0;
  }

  lemma ScaledPlace(r: int, h: int, q: int)
    requires q > 0 && 0 <= r
    ensures (r * q < h * q <==> r < h) && (r * q == h * q <==> r == h) && (r * q == 0 <==> r == 0)
  {
    if r < h {
      assert (h - r) * q > 0;
    } else if r > h {
      assert (r - h) * q > 0;
    }
    if r > 0 {
      ProductSign(r, q);
      assert r * q > 0;
    }
  }

  lemma ScaledRoom(r: int, p: int, q: int)
    requires q > 0 && 0 <= r < p
    ensures 0 <= r * q < p * q
  {
    assert (p - r) * q > 0;
    assert r * q >= 0;
  }

  lemma DividedPlace(y: real, a: int, v: int, r: int, p: int, h: int)
    requires p == 2 * h > 0 && a == v * p + r && 0 <= r < p && a as real <= y < (a + 1) as real
    ensures var g := y / p as real - v as real;
            && 0.0 <= g < 1.0
            && (g == 0.0 <==> r == 0 && y == a as real)
            && (g < 0.5 <==> r < h)
            && (g == 0.5 <==> r == h && y == a as real)
  {
    var g := y / p as real - v as real;
    var x := r as real + (y - a as real);
    assert y / p as real * p as real == y;
    assert v as real * p as real == (v * p) as real;
    assert g * p as real == x;
    UnitFraction(g, p as real, x);
    HalfPlace(g, h as real, x);
  }

  lemma HalfPlace(g: real, h: real, x: real)
    requires h > 0.0 && g * (2.0 * h) == x
    ensures (g == 0.0 <==> x == 0.0) && (g < 0.5 <==> x < h) && (g == 0.5 <==> x == h)
  {
    assert (g - 0.5) * (2.0 * h) == x - h;
  }

  lemma UnitFraction(f: real, p: real, r: real)
    requires p > 0.0 && f * p == r && 0.0 <= r < p
    ensures 0.0 <= f < 1.0
  {
  }

  lemma SmallFraction(a: Word, extra: Word, p: int, y: real)
    requires p >= 0x2_0000_0000_0000_0000 && Split(a, extra, y)
    ensures Split(0, JamWord(Bit(a != 0), extra != 0), y / p as real)
  {
    var w := y / p as real;
    assert w * p as real == y;
    HalfBound(w, p as real, y);
  }

  lemma HalfBound(y: real, p: real, a: real)
    requires p > 0.0 && y * p == a && 0.0 <= a && 2.0 * a < p
    ensures 0.0 <= y < 0.5 && (y == 0.0 <==> a == 0.0)
  {
  }

  // ---------------------------------------------------------------------------
  // Rounding and saturating

  /** The integer that `y`, negated if `neg`, rounds to. */
  ghost function RoundToInt(mode: Mode, neg: bool, y: real): int {
    if neg then -RoundInt(mode, neg, y) else RoundInt(mode, neg, y)
  }

  /** What it means for the signed value: the nearest integer, a tie going to the even one or
      away from zero, or the next integer on the side asked for. */
  lemma RoundToIntIs(mode: Mode, neg: bool, y: real)
    requires y >= 0.0
    ensures var n, v := RoundToInt(mode, neg, y), if neg then -y else y;
            match mode
            case NearEven =>
              -0.5 <= n as real - v <= 0.5 && (n as real - v == 0.5 || v - n as real == 0.5 ==> n % 2 == 0)
            case NearMaxMag =>
              -0.5 <= n as real - v <= 0.5 && (n as real - v == 0.5 ==> !neg) && (v - n as real == 0.5 ==> neg)
            case MinMag => if neg then v <= n as real < v + 1.0 else v - 1.0 < n as real <= v
            case Min => v - 1.0 < n as real <= v
            case Max => v <= n as real < v + 1.0
  {
  }

  predicate FitsInt64(n: int) { INT64_MIN <= n <= INT64_MAX }

  /** The increment decision on the fraction word is the mode's decision on the fraction. */
  lemma IncrementCorrect(mode: Mode, neg: bool, v: int, extra: Word, y: real)
    requires Split(v, extra, y)
    ensures RoundInt(mode, neg, y) ==
            var up := match mode
                      case NearEven => extra > 0x8000_0000_0000_0000 || (extra == 0x8000_0000_0000_0000 && v % 2 == 1)
                      case NearMaxMag => extra >= 0x8000_0000_0000_0000
                      case MinMag => false
                      case Min => neg && extra != 0
                      case Max => !neg && extra != 0;
            if up then v + 1 else v
  {
    assert y.Floor == v;
  }

  /** Rounds a fixed-point value with 64 integer and 64 fraction bits; a result that
      does not fit raises invalid and saturates. */
  method RoundPackToI64(s: FloatState, sign: bool, sig64_0: Word, sig0: Word, roundingMode: Mode, exact: bool,
                        ghost y: real)
    returns (z: int)
    requires Split(sig64_0, sig0, y)
    modifies s`exceptionFlags
    ensures var n := RoundToInt(roundingMode, sign, y);
            if FitsInt64(n) then
              && z == n
              && s.exceptionFlags == old(s.exceptionFlags) + (if exact && y != y.Floor as real then {Inexact} else {})
            else
              && z == (if sign then INT64_MIN else INT64_MAX)
              && s.exceptionFlags == old(s.exceptionFlags) + {Invalid}
  {
    hide Split, RoundInt, SignedOf;
    IncrementCorrect(roundingMode, sign, sig64_0, sig0, y);
    FloorSplit(sig64_0, sig0, y);
    var sig64 := sig64_0;
    var roundNearestEven := roundingMode == NearEven;
    var increment := 0x8000_0000_0000_0000 <= sig0;
    if !roundNearestEven && roundingMode != NearMaxMag {
      increment := roundingMode != MinMag && roundingMode == (if sign then Min else Max) && sig0 != 0;
    }
    if increment {
      sig64 := Wrap(sig64 as int + 1);
      if sig64 == 0 {
        s.Raise({Invalid});
        z := if sign then -0x7FFF_FFFF_FFFF_FFFF - 1 else 0x7FFF_FFFF_FFFF_FFFF;
        return;
      }
      if sig0 % 0x8000_0000_0000_0000 == 0 && roundNearestEven {
        sig64 := sig64 - sig64 % 2;
      }
    }
    SignedIs(sign, sig64);
    z := SignedOf(sign, sig64);
    if z != 0 && ((z < 0) != sign) {
      s.Raise({Invalid});
      z := if sign then -0x7FFF_FFFF_FFFF_FFFF - 1 else 0x7FFF_FFFF_FFFF_FFFF;
      return;
    }
    if exact && sig0 != 0 {
      s.Raise({Inexact});
    }
  }

  /** The magnitude, negated if the sign asks for it, read as a signed word. */
  function SignedOf(sign: bool, sig64: Word): int {
    var ui := if sign then Wrap(0 - sig64 as int) else sig64;
    if ui < 0x8000_0000_0000_0000 then ui else ui - 0x1_0000_0000_0000_0000
  }

  /** A sign that comes out wrong is how an overflow shows. */
  lemma SignedIs(sign: bool, sig64: Word)
    ensures var z, n := SignedOf(sign, sig64), if sign then -(sig64 as int) else sig64;
            && ((z != 0 && (z < 0) != sign) <==> !FitsInt64(n))
            && (FitsInt64(n) ==> z == n)
  {
  }

  lemma FloorSplit(v: int, extra: int, y: real)
    requires Split(v, extra, y)
    ensures y.Floor == v && (y == y.Floor as real <==> extra == 0)
  {
  }

  // ---------------------------------------------------------------------------
  // Double to integer

  lemma LargeSplit(a: Word, exp: int, sig: int)
    requires IsFinite(a) && exp == ExpOf(a) && 0x433 <= exp <= 0x43E && sig == FracOf(a) + 0x10_0000_0000_0000
    ensures 0 <= sig * P2(exp - 0x433) < 0x1_0000_0000_0000_0000
    ensures Split(sig * P2(exp - 0x433), 0, AbsValue(a))
  {
    hide Exp2, P2, AbsValue;
    DecodeNormal(a);
    var n := exp - 0x433;
    assert exp - 1075 == n;
    Exp2Nat(n);
    P2Constants();
    P2Monotone(n, 11);
    ScaledOrder(sig, P2(n), 0x800);
    RealOfProduct(sig, P2(n));
  }

  lemma WholeSplit(a: Word)
    ensures Split(a, 0, a as real)
  {
  }

  lemma SmallSplit(a: Word, exp: int, sig: Word)
    requires IsFinite(a) && exp == ExpOf(a) < 0x433
    requires sig == FracOf(a) + (if exp != 0 then 0x10_0000_0000_0000 else 0)
    ensures var z := Shift64ExtraRightJam(sig, 0, 0x433 - exp); Split(z.v, z.extra, AbsValue(a))
  {
    hide Exp2, P2, AbsValue, Split, Shift64ExtraRightJam, ExpOf, FracOf;
    if exp != 0 {
      DecodeNormal(a);
      var n := 0x433 - exp;
      assert exp - 1075 == -n;
      ScaleDown(sig as real, n);
      assert AbsValue(a) == sig as real / P2(n) as real;
      WholeSplit(sig);
      Shift64ExtraCorrect(sig, 0, n, sig as real);
    } else {
      TinySplit(a, exp, sig);
    }
  }

  /** A subnormal number is shifted one place too far, which no rounding can notice. */
  lemma TinySplit(a: Word, exp: int, sig: Word)
    requires IsFinite(a) && exp == ExpOf(a) == 0 && sig == FracOf(a)
    ensures var z := Shift64ExtraRightJam(sig, 0, 0x433 - exp); Split(z.v, z.extra, AbsValue(a))
  {
    hide Exp2, P2, Split, Mag;
    FieldsOf(a);
    MagLinear(exp, sig);
    assert exp * 0x10_0000_0000_0000 + sig == a % 0x8000_0000_0000_0000;
    var n := 1074 - exp;
    assert exp - 1074 == -n;
    ScaleDown(sig as real, n);
    assert AbsValue(a) == sig as real / P2(n) as real;
    P2Constants();
    P2Step(64);
    P2Monotone(65, n);
    WholeSplit(sig);
    SmallFraction(sig, 0, P2(n), sig as real);
    assert Shift64ExtraRightJam(sig, 0, 0x433 - exp) == U64Extra(0, Bit(sig != 0));
  }

  lemma HugeValue(mode: Mode, a: Word)
    requires IsFinite(a) && ExpOf(a) > 0x43E
    ensures !FitsInt64(RoundToInt(mode, SignOf(a), AbsValue(a)))
  {
    hide Exp2, P2, AbsValue;
    DecodeNormal(a);
    var e := ExpOf(a);
    var f := FracOf(a) + 0x10_0000_0000_0000;
    var n := e - 1075;
    Exp2Nat(n);
    P2Add(12, n - 12);
    P2Constants();
    P2Step(11);
    P2Monotone(0, n - 12);
    ProductAtLeast(f as real, P2(n) as real);
    RoundIntLarge(mode, SignOf(a), AbsValue(a));
  }

  lemma ProductAtLeast(f: real, p: real)
    requires f >= 4503599627370496.0 && p >= 4096.0
    ensures f * p >= 18446744073709551616.0
  {
    assert f * p >= f * 4096.0;
  }

  lemma RoundIntLarge(mode: Mode, neg: bool, y: real)
    requires y >= 18446744073709551616.0
    ensures RoundInt(mode, neg, y) >= 0x1_0000_0000_0000_0000
  {
  }

  /** The mode's integer rounding of every finite double, saturated if it does not fit. */
  method F64ToI64(s: FloatState, a: Word, roundingMode: Mode, exact: bool) returns (z: int)
    modifies s`exceptionFlags
    ensures IsFinite(a) ==>
              var n := RoundToInt(roundingMode, SignOf(a), AbsValue(a));
              if FitsInt64(n) then
                && z == n
                && s.exceptionFlags == old(s.exceptionFlags)
                     + (if exact && AbsValue(a) != AbsValue(a).Floor as real then {Inexact} else {})
              else
                && z == (if SignOf(a) then INT64_MIN else INT64_MAX)
                && s.exceptionFlags == old(s.exceptionFlags) + {Invalid}
    ensures !IsFinite(a) ==>
              z == (if SignOf(a) then INT64_MIN else INT64_MAX) && s.exceptionFlags == old(s.exceptionFlags) + {Invalid}
  {
    hide Exp2, P2, AbsValue, Split, RoundToInt, Shift64ExtraRightJam, Or, Wrap;
    var sign, exp, sig := SignOf(a), ExpOf(a), FracOf(a);
    FieldsOf(a);
    if exp != 0 {
      OrHidden(sig);
      sig := Or(sig, 0x10_0000_0000_0000);
    }
    var shiftCount := 0x433 - exp;
    var sigExtra;
    if shiftCount <= 0 {
      if 0x43E < exp {
        if IsFinite(a) {
          HugeValue(roundingMode, a);
        }
        s.Raise({Invalid});
        z := if !sign then 0x7FFF_FFFF_FFFF_FFFF else -0x7FFF_FFFF_FFFF_FFFF - 1;
        return;
      }
      LargeSplit(a, exp, sig);
      WrapSmall(sig * P2(-shiftCount));
      sigExtra := U64Extra(ShiftLeft(sig, -shiftCount), 0);
    } else {
      SmallSplit(a, exp, sig);
      sigExtra := Shift64ExtraRightJam(sig, 0, shiftCount);
    }
    z := RoundPackToI64(s, sign, sigExtra.v, sigExtra.extra, roundingMode, exact, AbsValue(a));
  }

  // ---------------------------------------------------------------------------
  // Integer to double

  /** Every 64-bit integer is rounded once. */
  method I64ToF64(s: FloatState, a: int) returns (z: Word)
    requires FitsInt64(a)
    modifies s`exceptionFlags
    ensures z == RoundReal(s.roundingMode, false, a as real)
    ensures s.exceptionFlags == old(s.exceptionFlags) + RealFlags(s.roundingMode, s.detectTininess, a as real)
  {
    hide Exp2, RoundReal, RealFlags, Rounded, RoundFlags, Pack;
    var sign := a < 0;
    if a % 0x8000_0000_0000_0000 == 0 {
      if sign {
        LeastInteger(s.roundingMode, s.detectTininess);
      } else {
        RoundsToZero(s.roundingMode, s.detectTininess, false);
        PackExact(false, 0, 0);
      }
      z := if sign then Pack(true, 0x43E, 0) else 0;
      return;
    }
    ghost var x := if sign then (-a) as real else a as real;
    var sig: Word := if sign then -a else a;
    RoundSignedNonzero(s.roundingMode, s.detectTininess, false, sign, x, a as real);
    UnitScale(sig, x);
    z := NormRoundPackToF64(s, sign, 0x43C, sig, x);
  }

  lemma UnitScale(sig: Word, x: real)
    requires sig < 0x8000_0000_0000_0000 && x == sig as real
    ensures Aligned(sig, x / Exp2(0x43C - 1084))
  {
    hide Exp2;
    Exp2Zero();
    assert 0x43C - 1084 == 0;
  }

  lemma LeastInteger(mode: Mode, tininess: Tininess)
    ensures RoundReal(mode, false, INT64_MIN as real) == Pack(true, 0x43E, 0)
    ensures RealFlags(mode, tininess, INT64_MIN as real) == {}
  {
    hide Exp2, P2, Mag, RoundMag, RoundFlags, Rounded, RoundReal, RealFlags;
    var e := 0x43D;
    MagLinear(e, 0x10_0000_0000_0000);
    var n := e - 1074;
    Exp2Nat(n);
    P2Constants();
    var m := 0x43E0_0000_0000_0000;
    assert e * 0x10_0000_0000_0000 + 0x10_0000_0000_0000 == m;
    assert n == 11;
    assert Mag(m) == 9223372036854775808.0;
    RoundRepresentable(mode, tininess, true, m);
    RoundSignedNonzero(mode, tininess, false, true, Mag(m), INT64_MIN as real);
    PackExact(true, 0x43E, 0);
    RoundedWord(mode, true, Mag(m), m);
  }

  lemma RoundedWord(mode: Mode, neg: bool, x: real, m: int)
    requires x >= 0.0 && RoundMag(mode, neg, x) == m
    ensures Rounded(mode, neg, x) == (if neg then 0x8000_0000_0000_0000 else 0) + m
  {
    hide RoundMag;
  }

  // ---------------------------------------------------------------------------
  // There and back

  lemma SmallInteger(n: int) returns (enc: int)
    requires 0 <= n <= 0x20_0000_0000_0000
    ensures 0 <= enc <= 0x7FEF_FFFF_FFFF_FFFF && Mag(enc) == n as real
  {
    hide Exp2, Mag;
    Exp2Zero();
    var e := 0;
    if n < 0x20_0000_0000_0000 {
      enc := Representable(n, e);
    } else {
      Exp2Step(e);
      enc := Representable(0x10_0000_0000_0000, e + 1);
    }
  }

  lemma RoundIntExact(mode: Mode, n: int)
    ensures RoundInt(mode, n < 0, (if n < 0 then -n else n) as real) == if n < 0 then -n else n
  {
  }

  /** Up to 2^53 in magnitude, converting an integer to a double and back gives the
      integer again, in every mode and with no exception. */
  method IntegerRoundTrip(s: FloatState, n: int, roundingMode: Mode, exact: bool) returns (r: int)
    requires -0x20_0000_0000_0000 <= n <= 0x20_0000_0000_0000
    modifies s`exceptionFlags
    ensures r == n && s.exceptionFlags == old(s.exceptionFlags)
  {
    hide Exp2, Mag, RoundReal, RealFlags, RoundInt, Value, AbsValue, SignOf, IsFinite;
    ghost var enc := SmallInteger(if n < 0 then -n else n);
    RoundRealExact(s.roundingMode, s.detectTininess, false, n as real, enc);
    RoundIntExact(roundingMode, n);
    var d := I64ToF64(s, n);
    MagnitudeOf(d, n);
    r := F64ToI64(s, d, roundingMode, exact);
  }

  lemma MagnitudeOf(d: Word, n: int)
    requires IsFinite(d) && Value(d) == n as real && SignOf(d) == (n < 0)
    ensures AbsValue(d) == (if n < 0 then -n else n) as real && AbsValue(d).Floor as real == AbsValue(d)
  {
    hide AbsValue;
  }
}
