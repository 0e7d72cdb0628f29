/** Double-precision multiplication. */
module Multiply {
  import opened Machine
  import opened Powers
  import opened Rounding
  import opened Sticky
  import opened Words
  import opened Arith128
  import opened RoundPack
  import opened Kernel

  /** The 128-bit product of the shifted significands. */
  lemma ProductRange(fa: int, fb: int, sigA: int, sigB: int, p: int)
    requires 0x10_0000_0000_0000 <= fa < 0x20_0000_0000_0000
    requires 0x10_0000_0000_0000 <= fb < 0x20_0000_0000_0000
    requires sigA == fa * 0x400 && sigB == fb * 0x800 && p == sigA * sigB
    ensures p == (fa * fb) * 0x20_0000
    ensures 0x2000_0000_0000_0000_0000_0000_0000_0000 <= p < 0x8000_0000_0000_0000_0000_0000_0000_0000
  {
    SquareBounds(fa, fb);
  }

  lemma SquareBounds(fa: int, fb: int)
    requires 0x10_0000_0000_0000 <= fa < 0x20_0000_0000_0000
    requires 0x10_0000_0000_0000 <= fb < 0x20_0000_0000_0000
    ensures 0x100_0000_0000_0000_0000_0000_0000 <= fa * fb < 0x400_0000_0000_0000_0000_0000_0000
  {
    ScaledOrder(fa, 0x10_0000_0000_0000, fb);
    ScaledOrder(fa, fb, 0x1F_FFFF_FFFF_FFFF);
  }

  /** At the exponent the routine computes, the exact product is the 128-bit product
      over 2^64. */
  lemma ProductScale(fa: int, ea: int, fb: int, eb: int, x: real)
    requires x == (fa as real * Exp2(ea - 1075)) * (fb as real * Exp2(eb - 1075))
    ensures x / Exp2(ea + eb - 0x3FF - 1084) == ((fa * fb) * 0x20_0000) as real / 0x1_0000_0000_0000_0000 as real
  {
    hide Exp2, P2;
    var m := (fa * fb) as real;
    ScaledProduct(fa, ea - 1075, fb, eb - 1075);
    assert ea - 1075 + (eb - 1075) == ea + eb - 2150;
    ScaleQuotient(m, ea + eb - 2150, ea + eb - 0x3FF - 1084);
    ScaleDown(m, 43);
    P2Constants();
    P2Add(11, 32);
  }

  /** The jammed high word, normalized or one bit short of it, stands for the product. */
  lemma ProductNear(p: int, y: real, sigZ: int)
    requires 0x2000_0000_0000_0000_0000_0000_0000_0000 <= p < 0x8000_0000_0000_0000_0000_0000_0000_0000
    requires y == p as real / 0x1_0000_0000_0000_0000 as real
    requires sigZ == Jam(p / 0x1_0000_0000_0000_0000, p % 0x1_0000_0000_0000_0000 != 0)
    ensures 0x2000_0000_0000_0000 <= sigZ < 0x8000_0000_0000_0000
    ensures Near(2, sigZ, y)
  {
    hide P2;
    P2Constants();
    NearJamRight(2, p, 64, p as real);
  }

  method InfArg(s: FloatState, signZ: bool, magBits: bool) returns (z: Word)
    modifies s`exceptionFlags
    ensures z == if magBits then Pack(signZ, 0x7FF, 0) else DEFAULT_NAN
    ensures s.exceptionFlags == old(s.exceptionFlags) + (if magBits then {} else {Invalid})
  {
    if !magBits {
      s.Raise({Invalid});
      z := DEFAULT_NAN;
    } else {
      z := Pack(signZ, 0x7FF, 0);
    }
  }

  ghost predicate SignedProduct(a: Word, b: Word, neg: bool, x: real)
    requires IsFinite(a) && IsFinite(b)
  {
    && x == AbsValue(a) * AbsValue(b) && x >= 0.0
    && Value(a) * Value(b) == if neg then -x else x
  }

  lemma ProductOfSigned(a: Word, b: Word) returns (x: real)
    requires IsFinite(a) && IsFinite(b)
    ensures SignedProduct(a, b, SignOf(a) != SignOf(b), x)
  {
    hide AbsValue;
    x := AbsValue(a) * AbsValue(b);
    ProductSigns(AbsValue(a), AbsValue(b));
  }

  lemma ProductSigns(p: real, q: real)
    requires p >= 0.0 && q >= 0.0
    ensures p * q >= 0.0
    ensures (-p) * q == -(p * q) && p * (-q) == -(p * q) && (-p) * (-q) == p * q
  {
  }

  /** The product of two finite numbers is rounded once. */
  method F64Mul(s: FloatState, a: Word, b: Word) returns (z: Word)
    modifies s`exceptionFlags
    ensures IsFinite(a) && IsFinite(b) ==>
              && z == RoundReal(s.roundingMode, SignOf(a) != SignOf(b), Value(a) * Value(b))
              && s.exceptionFlags == old(s.exceptionFlags)
                   + RealFlags(s.roundingMode, s.detectTininess, Value(a) * Value(b))
    ensures IsNaN(a) || IsNaN(b) ==>
              && z == DEFAULT_NAN && IsNaN(z)
              && s.exceptionFlags == old(s.exceptionFlags) + (if IsSigNaN(a) || IsSigNaN(b) then {Invalid} else {})
    ensures (IsInf(a) && IsZero(b)) || (IsZero(a) && IsInf(b)) ==>
              z == DEFAULT_NAN && IsNaN(z) && s.exceptionFlags == old(s.exceptionFlags) + {Invalid}
    ensures (IsInf(a) && !IsNaN(b) && !IsZero(b)) || (IsInf(b) && !IsNaN(a) && !IsZero(a)) ==>
              z == Pack(SignOf(a) != SignOf(b), 0x7FF, 0) && s.exceptionFlags == old(s.exceptionFlags)
  {
    hide Exp2, P2, RoundReal, RealFlags, Rounded, RoundFlags, AbsValue, Value, Near, Or, Pack, IsSigNaN, Packable,
         SignOf;
    var signA, expA, sigA := SignOf(a), ExpOf(a), FracOf(a);
    var signB, expB, sigB := SignOf(b), ExpOf(b), FracOf(b);
    var signZ := signA != signB;
    if expA == 0x7FF {
      if sigA != 0 || (expB == 0x7FF && sigB != 0) {
        z := PropagateNaNF64UI(s, a, b);
        return;
      }
      z := InfArg(s, signZ, expB != 0 || sigB != 0);
      return;
    }
    if expB == 0x7FF {
      if sigB != 0 {
        z := PropagateNaNF64UI(s, a, b);
        return;
      }
      z := InfArg(s, signZ, expA != 0 || sigA != 0);
      return;
    }
    ghost var x := ProductOfSigned(a, b);
    RoundSigned(s.roundingMode, s.detectTininess, signZ, x, Value(a) * Value(b));
    if expA == 0 && sigA == 0 {
      ZeroProduct(a, b, x);
      PackExact(signZ, 0, 0);
      RoundsToZero(s.roundingMode, s.detectTininess, signZ);
      z := Pack(signZ, 0, 0);
      return;
    }
    var normA := NormOperand(a);
    if expB == 0 && sigB == 0 {
      ZeroProduct(b, a, x);
      RoundsToZero(s.roundingMode, s.detectTininess, signZ);
      z := Pack(signZ, 0, 0);
      return;
    }
    var normB := NormOperand(b);
    z := MulNonzero(s, signZ, a, normA, b, normB, x);
  }

  lemma ZeroProduct(a: Word, b: Word, x: real)
    requires IsZero(a) && IsFinite(b) && (x == AbsValue(a) * AbsValue(b) || x == AbsValue(b) * AbsValue(a))
    ensures Value(a) * Value(b) == 0.0 && Value(b) * Value(a) == 0.0
  {
    hide AbsValue;
    ZeroValue(a);
  }

  /** Multiplies the significands and keeps the high word, jammed. */
  method MulNonzero(s: FloatState, signZ: bool, ghost a: Word, ea: ExpSig, ghost b: Word, eb: ExpSig, ghost x: real)
    returns (z: Word)
    requires Operand(a, ea) && Operand(b, eb) && x == AbsValue(a) * AbsValue(b)
    modifies s`exceptionFlags
    ensures x >= 0.0
    ensures z == Rounded(s.roundingMode, signZ, x)
    ensures s.exceptionFlags == old(s.exceptionFlags) + RoundFlags(s.roundingMode, s.detectTininess, signZ, x)
  {
    hide Exp2, P2, Rounded, RoundFlags, AbsValue, Near, Or, Wrap, Operand, ShiftLeft;
    P2Constants();
    ghost var fa := OperandValue(a, ea, 10);
    ghost var fb := OperandValue(b, eb, 11);
    var expZ := ea.exp + eb.exp - 0x3FF;
    var sigA := ShiftLeft(Or(ea.sig, 0x10_0000_0000_0000), 10);
    var sigB := ShiftLeft(Or(eb.sig, 0x10_0000_0000_0000), 11);
    var sigZ128 := Mul64To128(sigA, sigB);
    ghost var p := sigZ128.Value();
    ProductRange(fa, fb, sigA, sigB, p);
    ProductScale(fa, ea.exp, fb, eb.exp, x);
    var sigZ := JamWord(sigZ128.v64, sigZ128.v0 != 0);
    ProductNear(p, x / Exp2(expZ - 1084), sigZ);
    NormalizeOnce(sigZ, x / Exp2(expZ - 1084), expZ, x);
    if sigZ < 0x4000_0000_0000_0000 {
      expZ := expZ - 1;
      WrapSmall(sigZ * 2);
      sigZ := Wrap(sigZ * 2);
    }
    z := RoundPackToF64(s, signZ, expZ, sigZ, x);
  }
}
