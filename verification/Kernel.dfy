/** Field access, normalization and the packing routine shared by the operations. */
module Kernel {
  import opened Machine
  import opened Powers
  import opened Rounding
  import opened Sticky
  import opened Words
  import opened Arith128
  import opened RoundPack

  // ---------------------------------------------------------------------------
  // Values

  predicate IsNaN(ui: Word) { ExpOf(ui) == 0x7FF && FracOf(ui) != 0 }
  predicate IsInf(ui: Word) { ExpOf(ui) == 0x7FF && FracOf(ui) == 0 }
  predicate IsFinite(ui: Word) { ExpOf(ui) != 0x7FF }
  predicate IsZero(ui: Word) { ExpOf(ui) == 0 && FracOf(ui) == 0 }

  predicate IsSigNaN(ui: Word) {
    (ui / 0x8_0000_0000_0000) % 0x1000 == 0xFFE && ui % 0x8_0000_0000_0000 != 0
  }

  /** The magnitude of a finite word. */
  ghost function AbsValue(ui: Word): (r: real)
    requires IsFinite(ui)
    ensures r >= 0.0
  {
    FieldsOf(ui);
    Mag(ui % 0x8000_0000_0000_0000)
  }

  ghost function Value(ui: Word): real
    requires IsFinite(ui)
  {
    if SignOf(ui) then -AbsValue(ui) else AbsValue(ui)
  }

  lemma FieldsOf(ui: Word)
    ensures ui % 0x8000_0000_0000_0000 == ExpOf(ui) * 0x10_0000_0000_0000 + FracOf(ui)
    ensures ui == (if SignOf(ui) then 0x8000_0000_0000_0000 else 0) + ui % 0x8000_0000_0000_0000
    ensures 0 <= ExpOf(ui) <= 0x7FF && 0 <= FracOf(ui) < 0x10_0000_0000_0000
  {
  }

  /** The classes of words, by the magnitude bits: NaNs are above infinity, a signaling one has
      bit 51 clear. */
  lemma Classes(ui: Word)
    ensures var mag := ui % 0x8000_0000_0000_0000;
            && (IsNaN(ui) <==> mag > 0x7FF0_0000_0000_0000) && (IsInf(ui) <==> mag == 0x7FF0_0000_0000_0000)
            && (IsFinite(ui) <==> mag < 0x7FF0_0000_0000_0000) && (IsZero(ui) <==> mag == 0)
            && (IsSigNaN(ui) <==> IsNaN(ui) && ui / 0x8_0000_0000_0000 % 2 == 0)
            && (SignOf(ui) <==> ui >= 0x8000_0000_0000_0000)
    ensures IsNaN(DEFAULT_NAN) && !IsSigNaN(DEFAULT_NAN)
  {
    FieldsOf(ui);
    FieldsOf(DEFAULT_NAN);
    var h, l := ui / 0x8_0000_0000_0000, ui % 0x8_0000_0000_0000;
    assert ui == h * 0x8_0000_0000_0000 + l;
    assert h == h / 2 * 2 + h % 2;
    assert ui / 0x10_0000_0000_0000 == h / 2;
    assert FracOf(ui) == h % 2 * 0x8_0000_0000_0000 + l;
    assert h % 0x1000 == h / 2 % 0x800 * 2 + h % 2;
  }

  /** Some words and the numbers they stand for. */
  lemma Anchors()
    ensures IsFinite(0x3FF0_0000_0000_0000) && Value(0x3FF0_0000_0000_0000) == 1.0
    ensures IsFinite(0xC008_0000_0000_0000) && Value(0xC008_0000_0000_0000) == -3.0
  {
    hide Exp2;
    UnitScale();
    assert Mag(0x3FF0_0000_0000_0000) == 0x10_0000_0000_0000 as real * Exp2(-52);
    assert Mag(0x4008_0000_0000_0000) == 0x18_0000_0000_0000 as real * Exp2(-51);
  }

  lemma UnitScale()
    ensures 0x10_0000_0000_0000 as real * Exp2(-52) == 1.0
    ensures Exp2(-51) == 2.0 * Exp2(-52)
  {
    hide Exp2;
    Exp2Zero();
    Exp2Step(-52);
    Exp2Add(-52, 52);
    Exp2Nat(52);
    P2Constants();
  }

  /** `sig * 2^(exp - 1075)` is the magnitude of `ui`, and `sig` has its hidden bit. */
  ghost predicate Decoded(ui: Word, exp: int, sig: int) {
    && IsFinite(ui)
    && 0x10_0000_0000_0000 <= sig < 0x20_0000_0000_0000
    && -51 <= exp <= 0x7FE
    && AbsValue(ui) == sig as real * Exp2(exp - 1075)
  }

  datatype ExpSig = ExpSig(exp: int, sig: Word)

  /** Moves the leading bit of a subnormal fraction to the hidden position. */
  method NormSubnormalF64Sig(sig: Word) returns (z: ExpSig)
    requires 0 < sig < 0x10_0000_0000_0000
    ensures -51 <= z.exp <= 0
    ensures 0x10_0000_0000_0000 <= z.sig < 0x20_0000_0000_0000
    ensures z.sig == sig * P2(1 - z.exp)
  {
    var clz := CountLeadingZeros64(sig);
    SubnormalShift(sig, clz);
    var shiftCount: int := clz - 11;
    WrapSmall(sig * P2(shiftCount));
    z := ExpSig(1 - shiftCount, ShiftLeft(sig, shiftCount));
  }

  lemma SubnormalShift(sig: Word, clz: nat)
    requires 0 < sig < 0x10_0000_0000_0000 && clz < 64 && Normalizes(sig, clz)
    ensures 12 <= clz
    ensures 0x10_0000_0000_0000 <= sig * P2(clz - 11) < 0x20_0000_0000_0000
  {
    hide P2;
    P2Constants();
    if clz < 12 {
      P2Monotone(clz, 11);
      ScaledOrder(sig, P2(clz), 0x800);
      assert false;
    }
    P2Add(clz - 11, 11);
    Associate(sig, P2(clz - 11), 0x800);
  }

  lemma DecodeNormal(ui: Word)
    requires IsFinite(ui) && ExpOf(ui) != 0
    ensures Decoded(ui, ExpOf(ui), FracOf(ui) + 0x10_0000_0000_0000)
  {
    hide Exp2;
    FieldsOf(ui);
    var m := ui % 0x8000_0000_0000_0000;
    assert m / 0x10_0000_0000_0000 == ExpOf(ui) && m % 0x10_0000_0000_0000 == FracOf(ui);
  }

  lemma DecodeSubnormal(ui: Word, exp: int, sig: int)
    requires IsFinite(ui) && ExpOf(ui) == 0
    requires -51 <= exp <= 0 && 0x10_0000_0000_0000 <= sig < 0x20_0000_0000_0000
    requires sig == FracOf(ui) * P2(1 - exp)
    ensures Decoded(ui, exp, sig)
  {
    hide Exp2, P2;
    FieldsOf(ui);
    var e, f := ExpOf(ui), FracOf(ui);
    assert AbsValue(ui) == f as real * Exp2(e - 1074);
    Exp2Add(exp - 1075, 1 - exp);
    Exp2Nat(1 - exp);
    assert exp - 1075 + (1 - exp) == e - 1074;
    RealAssociate(f, P2(1 - exp), sig, Exp2(exp - 1075), Exp2(e - 1074));
  }

  lemma RealAssociate(f: int, p: int, sig: int, u: real, v: real)
    requires sig == f * p && v == u * p as real
    ensures f as real * v == sig as real * u
  {
    assert sig as real == f as real * p as real;
  }

  /** An operand whose significand still lacks the hidden bit, or already has it. */
  ghost predicate Operand(ui: Word, e: ExpSig) {
    && e.sig < 0x20_0000_0000_0000
    && Decoded(ui, e.exp, if e.sig < 0x10_0000_0000_0000 then e.sig + 0x10_0000_0000_0000 else e.sig)
  }

  /** The fields of a nonzero finite number, a subnormal one normalized. */
  method NormOperand(ui: Word) returns (e: ExpSig)
    requires IsFinite(ui) && !IsZero(ui)
    ensures Operand(ui, e)
  {
    hide Decoded, P2;
    e := ExpSig(ExpOf(ui), FracOf(ui));
    if e.exp == 0 {
      var norm := NormSubnormalF64Sig(e.sig);
      DecodeSubnormal(ui, norm.exp, norm.sig);
      e := norm;
    } else {
      DecodeNormal(ui);
    }
  }

  /** Setting the hidden bit and shifting it up. */
  lemma HiddenBit(f: Word, k: nat)
    requires f < 0x20_0000_0000_0000 && k <= 11
    ensures Or(f, 0x10_0000_0000_0000) == if f < 0x10_0000_0000_0000 then f + 0x10_0000_0000_0000 else f
    ensures ShiftLeft(Or(f, 0x10_0000_0000_0000), k) == Or(f, 0x10_0000_0000_0000) * P2(k)
  {
    hide Or, P2, Wrap;
    OrHidden(f);
    P2Constants();
    P2Monotone(k, 11);
    ScaledOrder(Or(f, 0x10_0000_0000_0000), P2(k), 0x800);
    WrapSmall(Or(f, 0x10_0000_0000_0000) * P2(k));
  }

  /** The full significand of an operand, as it enters the arithmetic. */
  lemma OperandValue(ui: Word, e: ExpSig, k: nat) returns (f: int)
    requires Operand(ui, e) && k <= 11
    ensures 0x10_0000_0000_0000 <= f < 0x20_0000_0000_0000
    ensures f == Or(e.sig, 0x10_0000_0000_0000) && ShiftLeft(f, k) == f * P2(k)
    ensures -51 <= e.exp <= 0x7FE && IsFinite(ui)
    ensures AbsValue(ui) == f as real * Exp2(e.exp - 1075)
  {
    hide Or, P2, ShiftLeft, AbsValue, Exp2;
    HiddenBit(e.sig, k);
    f := Or(e.sig, 0x10_0000_0000_0000);
  }

  // ---------------------------------------------------------------------------
  // Normalize, round and pack

  /** `sig` stands for `y`, exactly unless it keeps at least 55 bits. */
  ghost predicate Aligned(sig: Word, y: real) {
    && sig < 0x8000_0000_0000_0000
    && (y == sig as real || (Near(2, sig, y) && sig >= 0x40_0000_0000_0000))
  }

  lemma ShiftedNear(sig: Word, y: real, n: nat)
    requires Aligned(sig, y) && sig != 0 && n < 63
    requires 0x4000_0000_0000_0000 <= sig * P2(n) < 0x8000_0000_0000_0000
    ensures Near(512, sig * P2(n), y * P2(n) as real)
    ensures n >= 10 ==> y == sig as real
  {
    hide P2;
    if y == sig as real {
      assert y * P2(n) as real == (sig * P2(n)) as real;
    } else {
      if n > 8 {
        P2Constants();
        P2Monotone(9, n);
        ScaledOrder(sig, 0x200, P2(n));
        assert false;
      }
      NearShiftLeft(n, sig, y, sig * P2(n), y * P2(n) as real);
    }
  }

  /** Moving the scale by n places. */
  lemma Rescale(x: real, e: int, n: nat)
    ensures x / Exp2(e - n) == x / Exp2(e) * P2(n) as real
  {
    hide Exp2, P2;
    Exp2Add(e - n, n);
    Exp2Nat(n);
    QuotientScale(x, Exp2(e - n), P2(n) as real, Exp2(e));
  }

  lemma QuotientScale(x: real, u: real, p: real, v: real)
    requires u > 0.0 && p > 0.0 && v == u * p
    ensures x / u == x / v * p
  {
    assert x / v * v == x;
    assert (x / v * p) * u == x / v * (u * p);
  }

  /** An exact result that needs no rounding. */
  lemma PackedExactly(mode: Mode, tininess: Tininess, neg: bool, sig: Word, exp: int, n: nat, x: real)
    requires 10 <= n && 0 <= exp < 0x7FD
    requires 0x10_0000_0000_0000 <= sig * P2(n - 10) < 0x20_0000_0000_0000
    requires x == sig as real * Exp2(exp + n - 1084)
    ensures x >= 0.0
    ensures RoundMag(mode, neg, x) == exp * 0x10_0000_0000_0000 + sig * P2(n - 10)
    ensures RoundFlags(mode, tininess, neg, x) == {}
  {
    hide Exp2, P2, Mag, RoundMag, RoundFlags;
    var m := sig * P2(n - 10);
    MagLinear(exp, m);
    Exp2Add(exp - 1074, n - 10);
    Exp2Nat(n - 10);
    assert exp - 1074 + (n - 10) == exp + n - 1084;
    RealAssociate(sig, P2(n - 10), m, Exp2(exp - 1074), Exp2(exp + n - 1084));
    var enc := exp * 0x10_0000_0000_0000 + m;
    assert x == Mag(enc);
    RoundRepresentable(mode, tininess, neg, enc);
  }

  lemma LeadingZeros(sig: Word, clz: nat)
    requires 0 < sig < 0x8000_0000_0000_0000 && clz < 64 && Normalizes(sig, clz)
    ensures clz >= 1
    ensures 0x4000_0000_0000_0000 <= sig * P2(clz - 1) < 0x8000_0000_0000_0000
    ensures clz >= 11 ==> 0x10_0000_0000_0000 <= sig * P2(clz - 11) < 0x20_0000_0000_0000
  {
    hide P2;
    P2Constants();
    if clz >= 1 {
      P2Add(clz - 1, 1);
      Associate(sig, P2(clz - 1), 2);
      if clz >= 11 {
        P2Add(clz - 11, 11);
        Associate(sig, P2(clz - 11), 0x800);
      }
    }
  }

  /** The slow path: the shifted significand stands for the same value. */
  lemma NormSlow(exp0: int, sig: Word, x: real, n: nat)
    requires -0x4000 <= exp0 < 0x4000
    requires Aligned(sig, x / Exp2(exp0 - 1084))
    requires n < 64 && (sig == 0 ==> n == 63 && exp0 < 0x83C)
    requires sig != 0 ==> n < 63 && 0x4000_0000_0000_0000 <= sig * P2(n) < 0x8000_0000_0000_0000
    ensures Packable(exp0 - n, ShiftLeft(sig, n))
    ensures Near(512, ShiftLeft(sig, n), x / Exp2(exp0 - n - 1084))
  {
    hide Exp2, P2, Wrap, Near, Aligned;
    var y := x / Exp2(exp0 - 1084);
    var y' := x / Exp2(exp0 - n - 1084);
    Rescale(x, exp0 - 1084, n);
    assert exp0 - 1084 - n == exp0 - n - 1084;
    assert y' == y * P2(n) as real;
    if sig != 0 {
      ShiftedNear(sig, y, n);
      WrapSmall(sig * P2(n));
    } else {
      NearZero(sig, y);
      WrapSmall(sig);
    }
  }

  /** The fast path: nothing is discarded and the exponent is in range. */
  lemma NormFast(mode: Mode, tininess: Tininess, neg: bool, exp0: int, sig: Word, x: real, n: nat)
    requires Aligned(sig, x / Exp2(exp0 - 1084))
    requires 10 <= n < 64 && 0 <= exp0 - n < 0x7FD
    requires sig != 0 ==> 0x10_0000_0000_0000 <= sig * P2(n - 10) < 0x20_0000_0000_0000
    requires sig != 0 ==> n < 63 && 0x4000_0000_0000_0000 <= sig * P2(n) < 0x8000_0000_0000_0000
    ensures x >= 0.0
    ensures Pack(neg, if sig != 0 then exp0 - n else 0, ShiftLeft(sig, n - 10)) == Rounded(mode, neg, x)
    ensures RoundFlags(mode, tininess, neg, x) == {}
  {
    hide Exp2, P2, Wrap, Pack, RoundMag, RoundFlags, Near;
    var y := x / Exp2(exp0 - 1084);
    assert x == y * Exp2(exp0 - 1084);
    if sig == 0 {
      WrapSmall(0);
      NearZero(sig, y);
      RoundZero(mode, tininess, neg, sig, y, x);
      PackExact(neg, 0, 0);
    } else {
      ShiftedNear(sig, y, n);
      WrapSmall(sig * P2(n - 10));
      assert exp0 - n + n - 1084 == exp0 - 1084;
      PackedExactly(mode, tininess, neg, sig, exp0 - n, n, x);
      PackExact(neg, exp0 - n, sig * P2(n - 10));
    }
  }

  lemma NearZero(sig: Word, y: real)
    requires sig == 0 && Aligned(sig, y)
    ensures y == 0.0 && Near(512, sig, y)
  {
  }

  /** Rounds and packs a significand that need not be normalized. */
  method NormRoundPackToF64(s: FloatState, sign: bool, exp0: int, sig: Word, ghost x: real) returns (z: Word)
    requires -0x4000 <= exp0 < 0x4000
    requires Aligned(sig, x / Exp2(exp0 - 1084))
    requires sig == 0 ==> exp0 < 0x83C
    modifies s`exceptionFlags
    ensures x >= 0.0
    ensures z == Rounded(s.roundingMode, sign, x)
    ensures s.exceptionFlags == old(s.exceptionFlags) + RoundFlags(s.roundingMode, s.detectTininess, sign, x)
  {
    hide Exp2, P2, RoundMag, RoundFlags, Near, Normalizes, Pack, Rounded, ShiftLeft, Aligned, Packable;
    var clz := CountLeadingZeros64(sig);
    SmallWord(sig, x / Exp2(exp0 - 1084));
    if sig != 0 {
      LeadingZeros(sig, clz);
    }
    var shiftCount: int := clz - 1;
    var exp := exp0 - shiftCount;
    if 10 <= shiftCount && exp % 0x10000 < 0x7FD {
      NormFast(s.roundingMode, s.detectTininess, sign, exp0, sig, x, shiftCount);
      z := Pack(sign, if sig != 0 then exp else 0, ShiftLeft(sig, shiftCount - 10));
    } else {
      NormSlow(exp0, sig, x, shiftCount);
      z := RoundPackToF64(s, sign, exp, ShiftLeft(sig, shiftCount), x);
    }
  }

  lemma SmallWord(sig: Word, y: real)
    requires Aligned(sig, y)
    ensures sig < 0x8000_0000_0000_0000
  {
  }

  /** Doubling a significand that is one bit short. */
  lemma NormalizeOnce(sigZ: int, y: real, exp: int, x: real)
    requires 0x2000_0000_0000_0000 <= sigZ < 0x8000_0000_0000_0000
    requires Near(2, sigZ, y) && y == x / Exp2(exp - 1084)
    ensures sigZ >= 0x4000_0000_0000_0000 ==> Near(512, sigZ, x / Exp2(exp - 1084))
    ensures Near(512, 2 * sigZ, x / Exp2(exp - 1 - 1084))
  {
    hide Exp2, Near, P2;
    P2Constants();
    NearCoarsest(1, sigZ, y);
    Rescale(x, exp - 1084, 1);
    assert exp - 1084 - 1 == exp - 1 - 1084;
    NearShiftLeft(1, sigZ, y, 2 * sigZ, x / Exp2(exp - 1 - 1084));
  }

  // ---------------------------------------------------------------------------
  // Correct rounding of a signed real

  /** The word nearest to `v` in the given mode; an exact zero has the given sign. */
  ghost function RoundReal(mode: Mode, zeroNeg: bool, v: real): Word {
    if v == 0.0 then (if zeroNeg then 0x8000_0000_0000_0000 else 0)
    else Rounded(mode, v < 0.0, if v < 0.0 then -v else v)
  }

  ghost function RealFlags(mode: Mode, tininess: Tininess, v: real): set<Flag> {
    RoundFlags(mode, tininess, v < 0.0, if v < 0.0 then -v else v)
  }

  lemma RoundSigned(mode: Mode, tininess: Tininess, neg: bool, x: real, v: real)
    requires x >= 0.0 && v == if neg then -x else x
    ensures RoundReal(mode, neg, v) == Rounded(mode, neg, x)
    ensures RealFlags(mode, tininess, v) == RoundFlags(mode, tininess, neg, x)
  {
    hide Mag, RoundMag, RoundFlags;
    if v == 0.0 {
      var zero := 0;
      RoundZero(mode, tininess, neg, zero, v, x);
      RoundZero(mode, tininess, false, zero, v, x);
    }
  }

  lemma RoundSignedNonzero(mode: Mode, tininess: Tininess, zeroNeg: bool, neg: bool, x: real, v: real)
    requires x > 0.0 && v == if neg then -x else x
    ensures RoundReal(mode, zeroNeg, v) == Rounded(mode, neg, x)
    ensures RealFlags(mode, tininess, v) == RoundFlags(mode, tininess, neg, x)
  {
    hide RoundMag, RoundFlags;
  }

  function Abs(v: real): real { if v < 0.0 then -v else v }

  /** What correct rounding means for signed values, if the result is finite: no finite number
      is closer in the nearest modes; in the others the result lies on the side asked for, and
      every finite number on that side is at least as far away. */
  lemma RoundedRightly(mode: Mode, zeroNeg: bool, v: real, w: Word)
    requires IsFinite(w)
    ensures var z := RoundReal(mode, zeroNeg, v);
            && !IsNaN(z)
            && (IsFinite(z) ==>
                  match mode
                  case NearEven => Abs(Value(z) - v) <= Abs(Value(w) - v)
                  case NearMaxMag => Abs(Value(z) - v) <= Abs(Value(w) - v)
                  case MinMag => Abs(Value(z)) <= Abs(v) && (Abs(Value(w)) <= Abs(v) ==> Abs(Value(w)) <= Abs(Value(z)))
                  case Min => Value(z) <= v && (Value(w) <= v ==> Value(w) <= Value(z))
                  case Max => v <= Value(z) && (v <= Value(w) ==> Value(z) <= Value(w)))
  {
    hide Mag, RoundMag, Exp2;
    var neg, x, k, zero := v < 0.0, Abs(v), w % 0x8000_0000_0000_0000, 0;
    var z, m := RoundReal(mode, zeroNeg, v), RoundMag(mode, neg, x);
    Classes(z);
    Classes(w);
    MagZero(zero);
    RealParts(mode, zeroNeg, v);
    if IsFinite(z) {
      if mode.NearEven? || mode.NearMaxMag? {
        RoundIsNearest(mode, neg, x, k);
        RoundIsNearest(mode, neg, x, zero);
      } else {
        RoundIsDirected(mode, neg, x, k);
        MagMonotone(m, INFINITY);
      }
    }
  }

  lemma RealParts(mode: Mode, zeroNeg: bool, v: real)
    ensures var z, m := RoundReal(mode, zeroNeg, v), RoundMag(mode, v < 0.0, Abs(v));
            && z % 0x8000_0000_0000_0000 == m && (v != 0.0 ==> (SignOf(z) <==> v < 0.0))
            && (v == 0.0 ==> m == 0)
  {
    hide Mag, RoundMag;
    if v == 0.0 {
      RoundsToZero(mode, BeforeRounding, false);
      RoundSigned(mode, BeforeRounding, false, v, v);
    }
  }

  /** The result for an exact zero. */
  lemma RoundsToZero(mode: Mode, tininess: Tininess, neg: bool)
    ensures RoundReal(mode, neg, 0.0) == Pack(neg, 0, 0)
    ensures RealFlags(mode, tininess, 0.0) == {}
  {
    hide Mag, RoundMag, RoundFlags;
    var zero, v := 0, 0.0;
    RoundZero(mode, tininess, false, zero, v, v);
  }

  lemma ZeroValue(ui: Word)
    requires IsZero(ui)
    ensures AbsValue(ui) == 0.0 && Value(ui) == 0.0
  {
    hide Mag;
    FieldsOf(ui);
    MagZero(ui % 0x8000_0000_0000_0000);
  }

  lemma NonzeroValue(ui: Word)
    requires IsFinite(ui) && !IsZero(ui)
    ensures AbsValue(ui) > 0.0
  {
    hide Exp2, Mag;
    FieldsOf(ui);
    var zero := 0;
    MagZero(zero);
    MagMonotone(zero, ui % 0x8000_0000_0000_0000);
  }

  method PropagateNaNF64UI(s: FloatState, uiA: Word, uiB: Word) returns (z: Word)
    modifies s`exceptionFlags
    ensures z == DEFAULT_NAN && IsNaN(z)
    ensures s.exceptionFlags == old(s.exceptionFlags) + (if IsSigNaN(uiA) || IsSigNaN(uiB) then {Invalid} else {})
  {
    if IsSigNaN(uiA) || IsSigNaN(uiB) {
      s.Raise({Invalid});
    }
    z := DEFAULT_NAN;
  }

  // ---------------------------------------------------------------------------
  // Representable values

  /** Any multiple of a sufficiently coarse power of two with at most 53 bits. */
  lemma {:induction false} Representable(m: int, e: int) returns (enc: int)
    requires 0 <= m < 0x20_0000_0000_0000 && -1074 <= e <= 971
    ensures 0 <= enc <= 0x7FEF_FFFF_FFFF_FFFF
    ensures Mag(enc) == m as real * Exp2(e)
    decreases e + 1074
  {
    hide Exp2, Mag;
    if e == -1074 || m >= 0x10_0000_0000_0000 {
      var exp := e + 1074;
      MagLinear(exp, m);
      enc := exp * 0x10_0000_0000_0000 + m;
    } else {
      enc := Representable(2 * m, e - 1);
      Exp2Step(e - 1);
      HalfScale(m, Exp2(e - 1), Exp2(e));
    }
  }

  lemma HalfScale(m: int, u: real, v: real)
    requires v == 2.0 * u
    ensures (2 * m) as real * u == m as real * v
  {
  }

  /** A representable real is rounded to the word that denotes it. */
  lemma RoundRealExact(mode: Mode, tininess: Tininess, zeroNeg: bool, v: real, enc: int)
    requires 0 <= enc <= 0x7FEF_FFFF_FFFF_FFFF && Mag(enc) == if v < 0.0 then -v else v
    ensures RealFlags(mode, tininess, v) == {}
    ensures var w := RoundReal(mode, zeroNeg, v);
            IsFinite(w) && Value(w) == v && SignOf(w) == (if v == 0.0 then zeroNeg else v < 0.0)
  {
    hide Exp2, Mag, RoundFlags, RoundMag;
    RoundRepresentable(mode, tininess, v < 0.0, enc);
    if v == 0.0 {
      var zero := 0;
      MagZero(zero);
      if enc > 0 {
        MagMonotone(zero, enc);
      }
    }
    WordOf(if v == 0.0 then zeroNeg else v < 0.0, enc);
  }

  lemma WordOf(neg: bool, enc: int)
    requires 0 <= enc <= 0x7FEF_FFFF_FFFF_FFFF
    ensures var w := (if neg then 0x8000_0000_0000_0000 else 0) + enc;
            IsFinite(w) && SignOf(w) == neg && AbsValue(w) == Mag(enc)
  {
    hide Mag;
  }

  // ---------------------------------------------------------------------------
  // Scales

  lemma ScaleQuotient(m: real, a: int, b: int)
    ensures m * Exp2(a) / Exp2(b) == m * Exp2(a - b)
  {
    hide Exp2;
    Exp2Add(a - b, b);
    CancelFactor(m, Exp2(a - b), Exp2(b), Exp2(a));
  }

  lemma CancelFactor(m: real, u: real, v: real, w: real)
    requires v > 0.0 && w == u * v
    ensures m * w / v == m * u
  {
    assert m * (u * v) == (m * u) * v;
  }

  lemma ScaleDown(m: real, n: int)
    requires n >= 0
    ensures m * Exp2(-n) == m / P2(n) as real
  {
    hide Exp2, P2;
    Exp2Zero();
    Exp2Add(-n, n);
    Exp2Nat(n);
    Reciprocal(m, Exp2(-n), P2(n) as real);
  }

  lemma Reciprocal(m: real, u: real, p: real)
    requires p > 0.0 && u * p == 1.0
    ensures m * u == m / p
  {
    assert m / p * p == m;
    assert (m * u) * p == m * (u * p);
  }

  lemma ScaledProduct(a: int, e: int, b: int, f: int)
    ensures (a as real * Exp2(e)) * (b as real * Exp2(f)) == (a * b) as real * Exp2(e + f)
  {
    hide Exp2;
    Exp2Add(e, f);
    FourProduct(a as real, Exp2(e), b as real, Exp2(f));
    RealOfProduct(a, b);
  }

  lemma RealOfProduct(a: int, b: int)
    ensures (a * b) as real == a as real * b as real
  {
  }

  lemma FourProduct(a: real, u: real, b: real, v: real)
    ensures (a * u) * (b * v) == (a * b) * (u * v)
  {
  }
}
