/** Double-precision division. */
module Divide {
  import opened Machine
  import opened Powers
  import opened Rounding
  import opened Sticky
  import opened Words
  import opened Arith128
  import opened RoundPack
  import opened Kernel

  /** The real quotient lies in the cell of the truncated one. */
  lemma RealQuotient(a: int, b: int)
    requires b > 0
    ensures var y := a as real / b as real;
            && (a / b) as real <= y < (a / b + 1) as real
            && (y == (a / b) as real <==> a % b == 0)
  {
    var q, r := a / b, a % b;
    assert a == q * b + r;
    QuotientCell(q as real, r as real, b as real, a as real);
  }

  lemma QuotientCell(q: real, r: real, b: real, a: real)
    requires 0.0 <= r < b && a == q * b + r
    ensures q <= a / b < q + 1.0 && (a / b == q <==> r == 0.0)
  {
    var t := a / b;
    assert t * b == a;
    CellOf(t, q, r, b);
  }

  lemma CellOf(t: real, q: real, r: real, b: real)
    requires 0.0 <= r < b && t * b == q * b + r
    ensures q <= t < q + 1.0 && (t == q <==> r == 0.0)
  {
    assert (t - q) * b == r;
    UnitCell(t - q, b, r);
  }

  lemma UnitCell(d: real, b: real, r: real)
    requires 0.0 <= r < b && d * b == r
    ensures 0.0 <= d < 1.0 && (d == 0.0 <==> r == 0.0)
  {
  }

  /** An estimate whose low nine bits exceed two need not be corrected: it lies between
      the same multiples of 512 as the quotient. */
  lemma UncorrectedNear(q: int, z: int, y: real)
    requires q <= z <= q + 2 && z % 512 > 2
    requires q as real <= y < (q + 1) as real
    ensures Near(512, z, y)
  {
  }

  /** The truncated quotient, jammed by its remainder, stands for the exact one. */
  lemma CorrectedNear(q: int, inexact: bool, y: real)
    requires q as real <= y < (q + 1) as real && (y == q as real <==> !inexact)
    ensures Near(2, Jam(q, inexact), y)
  {
  }

  /** The scaled operands, the larger significand halved when it would not fit. */
  ghost predicate Scaled(fa: int, fb: int, sigA: Word, sigB: Word, k: int) {
    && 0x10_0000_0000_0000 <= fa < 0x20_0000_0000_0000
    && 0x10_0000_0000_0000 <= fb < 0x20_0000_0000_0000
    && sigB == fb * 0x800
    && ((k == 0 && sigA == fa * 0x400 && 2 * sigA < sigB) || (k == 1 && sigA == fa * 0x200 && sigB <= 4 * sigA))
  }

  lemma QuotientRange(fa: int, fb: int, sigA: Word, sigB: Word, k: int)
    requires Scaled(fa, fb, sigA, sigB, k)
    ensures sigA < sigB && sigB >= 0x8000_0000_0000_0000
    ensures 0x4000_0000_0000_0000 <= (sigA * 0x1_0000_0000_0000_0000) / sigB < 0x8000_0000_0000_0000
  {
    var a := sigA * 0x1_0000_0000_0000_0000;
    assert 0x4000_0000_0000_0000 * sigB <= a < 0x8000_0000_0000_0000 * sigB;
    AtMostQuotient(0x4000_0000_0000_0000, sigB, a);
    assert a == a / sigB * sigB + a % sigB;
    FactorLess(a / sigB, 0x8000_0000_0000_0000, sigB);
  }

  /** The exact quotient of sigA * 2^64 by sigB. */
  ghost predicate IsQuotient(y: real, sigA: Word, sigB: Word) {
    sigB > 0 && y == (sigA * 0x1_0000_0000_0000_0000) as real / sigB as real
  }

  /** At the exponent the routine computes, the exact quotient is sigA * 2^64 / sigB. */
  lemma QuotientScaled(fa: int, ea: int, fb: int, eb: int, sigA: Word, sigB: Word, k: int, x: real)
    requires Scaled(fa, fb, sigA, sigB, k)
    requires x == (fa as real * Exp2(ea - 1075)) / (fb as real * Exp2(eb - 1075))
    ensures IsQuotient(x / Exp2(ea - eb + 0x3FD + k - 1084), sigA, sigB)
  {
    hide Exp2, P2;
    var w := fa as real / fb as real;
    QuotientOfScaled(fa as real, ea - 1075, fb as real, eb - 1075);
    assert ea - 1075 - (eb - 1075) == ea - eb;
    ScaleQuotient(w, ea - eb, ea - eb + 0x3FD + k - 1084);
    var n := 63 - k;
    assert ea - eb - (ea - eb + 0x3FD + k - 1084) == n;
    Exp2Nat(n);
    P2Constants();
    SameRatio(fa as real, fb as real, P2(n) as real, (sigA * 0x1_0000_0000_0000_0000) as real, sigB as real);
  }

  lemma QuotientOfScaled(a: real, e: int, b: real, f: int)
    requires b > 0.0
    ensures b * Exp2(f) > 0.0
    ensures (a * Exp2(e)) / (b * Exp2(f)) == (a / b) * Exp2(e - f)
  {
    hide Exp2;
    Exp2Add(e - f, f);
    Positive(b, Exp2(f));
    FactorQuotient(a, b, Exp2(e - f), Exp2(f), Exp2(e));
  }

  lemma FactorQuotient(a: real, b: real, u: real, v: real, w: real)
    requires b > 0.0 && v > 0.0 && b * v > 0.0 && w == u * v
    ensures (a * w) / (b * v) == (a / b) * u
  {
    var t := a / b;
    assert t * b == a;
    assert (t * u) * (b * v) == (t * b) * (u * v);
  }

  lemma SameRatio(fa: real, fb: real, p: real, a: real, b: real)
    requires fb > 0.0 && b == 2048.0 * fb && a == fa * p * 2048.0
    ensures (fa / fb) * p == a / b
  {
    var t := fa / fb;
    assert t * fb == fa;
    assert (t * p) * b == 2048.0 * p * (t * fb);
  }

  // ---------------------------------------------------------------------------
  // The correction loop

  /** The remainder for an estimate that is `k` above the truncated quotient. */
  ghost function Excess(b: int, r: int, k: int): int {
    if k == 0 then r else if k == 1 then r - b else r - 2 * b
  }

  /** `rem` holds the signed remainder for an estimate `k` too large. */
  ghost predicate Remaining(b: Word, r: int, k: int, rem: U128) {
    && 0 <= r < b && 0 <= k <= 2
    && rem.Value() == Excess(b, r, k) % 0x1_0000_0000_0000_0000_0000_0000_0000_0000
  }

  lemma RemainderStart(a: int, b: Word, q: int, r: int, z: int, rem: U128)
    requires a == q * b + r && 0 <= r < b && q <= z <= q + 2
    requires rem.Value() == (a - b * z) % 0x1_0000_0000_0000_0000_0000_0000_0000_0000
    ensures Remaining(b, r, z - q, rem)
  {
    ExcessIs(a, b, q, r, z);
  }

  lemma ExcessIs(a: int, b: int, q: int, r: int, z: int)
    requires a == q * b + r && q <= z <= q + 2
    ensures a - b * z == Excess(b, r, z - q)
  {
    var k := z - q;
    assert b * z == q * b + k * b;
    assert k == 0 || k == 1 || k == 2;
  }

  lemma RemainderStep(b: Word, r: int, k: int, rem: U128)
    requires Remaining(b, r, k, rem) && rem.v64 >= 0x8000_0000_0000_0000
    ensures k > 0 && Remaining(b, r, k - 1, Add128(rem.v64, rem.v0, 0, b))
  {
    hide Add128;
    Add128Value(rem.v64, rem.v0, 0, b);
    SignRead(rem, Excess(b, r, k));
    AddMod(Excess(b, r, k), b);
  }

  lemma RemainderDone(b: Word, r: int, k: int, rem: U128)
    requires Remaining(b, r, k, rem) && rem.v64 < 0x8000_0000_0000_0000
    ensures k == 0 && rem.v0 == r
  {
    SignRead(rem, Excess(b, r, k));
  }

  /** `q` is the truncated and `y` the exact quotient of sigA * 2^64 by sigB. */
  ghost predicate Quotients(sigA: Word, sigB: Word, q: int, y: real) {
    && sigA < sigB && 0x8000_0000_0000_0000 <= sigB
    && q == (sigA * 0x1_0000_0000_0000_0000) / sigB
    && 0x4000_0000_0000_0000 <= q < 0x8000_0000_0000_0000
    && q as real <= y < (q + 1) as real
    && (y == q as real <==> (sigA * 0x1_0000_0000_0000_0000) % sigB == 0)
  }

  ghost predicate Division(a: int, b: int, q: int, r: int) {
    a == q * b + r && 0 <= r < b
  }

  method FirstRemainder(sigA: Word, sigB: Word, sigZ: Word, ghost q: int, ghost r: int) returns (rem: U128)
    requires Division(sigA * 0x1_0000_0000_0000_0000, sigB, q, r) && q <= sigZ <= q + 2
    ensures Remaining(sigB, r, sigZ - q, rem)
  {
    hide Sub128, Remaining;
    var term := Mul64To128(sigB, sigZ);
    rem := Sub128(sigA, 0, term.v64, term.v0);
    Sub128Value(sigA, 0, term.v64, term.v0);
    RemainderStart(sigA * 0x1_0000_0000_0000_0000, sigB, q, r, sigZ, rem);
  }

  /** Brings an over-estimate down to the truncated quotient and jams the remainder. */
  method CorrectQuotient(sigA: Word, sigB: Word, z0: Word, ghost q: int, ghost r: int) returns (sigZ: Word)
    requires Division(sigA * 0x1_0000_0000_0000_0000, sigB, q, r)
    requires 0 <= q <= z0 <= q + 2
    ensures sigZ == Jam(q, r != 0)
  {
    hide Add128, Remaining, Wrap, Division;
    sigZ := z0;
    var rem := FirstRemainder(sigA, sigB, sigZ, q, r);
    while 0x8000_0000_0000_0000 <= rem.v64
      invariant q <= sigZ && Remaining(sigB, r, sigZ - q, rem)
      decreases sigZ - q
    {
      RemainderStep(sigB, r, sigZ - q, rem);
      WrapSmall(sigZ - 1);
      sigZ := Wrap(sigZ - 1);
      rem := Add128(rem.v64, rem.v0, 0, sigB);
    }
    RemainderDone(sigB, r, sigZ - q, rem);
    sigZ := JamWord(sigZ, rem.v0 != 0);
  }

  lemma SigNear(sigA: Word, sigB: Word, q: int, y: real)
    requires Quotients(sigA, sigB, q, y)
    ensures var z := Jam(q, (sigA * 0x1_0000_0000_0000_0000) % sigB != 0);
            0x4000_0000_0000_0000 <= z < 0x8000_0000_0000_0000 && Near(512, z, y)
    ensures forall z :: q <= z <= q + 2 && z % 512 > 2 ==>
              0x4000_0000_0000_0000 <= z < 0x8000_0000_0000_0000 && Near(512, z, y)
  {
    hide Near, P2;
    P2Constants();
    var r := (sigA * 0x1_0000_0000_0000_0000) % sigB;
    CorrectedNear(q, r != 0, y);
    NearCoarsest(1, Jam(q, r != 0), y);
    forall z | q <= z <= q + 2 && z % 512 > 2
      ensures 0x4000_0000_0000_0000 <= z < 0x8000_0000_0000_0000 && Near(512, z, y)
    {
      UncorrectedNear(q, z, y);
      CellRange(q, z);
    }
  }

  /** The quotient significand, corrected only where the rounding could see the error. */
  method QuotientSig(sigA: Word, sigB: Word, ghost q: int, ghost y: real) returns (sigZ: Word)
    requires Quotients(sigA, sigB, q, y)
    ensures 0x4000_0000_0000_0000 <= sigZ < 0x8000_0000_0000_0000
    ensures Near(512, sigZ, y)
  {
    hide Near, Jam;
    ghost var rounds;
    sigZ, rounds := EstimateDiv128To64(sigA, 0, sigB);
    SigNear(sigA, sigB, q, y);
    if sigZ % 0x200 <= 2 {
      sigZ := CorrectQuotient(sigA, sigB, sigZ, q, (sigA * 0x1_0000_0000_0000_0000) % sigB);
    }
  }

  lemma CellRange(q: int, z: int)
    requires 0x4000_0000_0000_0000 <= q < 0x8000_0000_0000_0000
    requires q <= z <= q + 2 && z % 512 > 2
    ensures z < 0x8000_0000_0000_0000
  {
  }

  // ---------------------------------------------------------------------------

  method DivNonzero(s: FloatState, signZ: bool, ghost a: Word, ea: ExpSig, ghost b: Word, eb: ExpSig, ghost x: real)
    returns (z: Word)
    requires Operand(a, ea) && Operand(b, eb) && AbsValue(b) != 0.0 && x == AbsValue(a) / AbsValue(b)
    modifies s`exceptionFlags
    ensures x >= 0.0
    ensures z == Rounded(s.roundingMode, signZ, x)
    ensures s.exceptionFlags == old(s.exceptionFlags) + RoundFlags(s.roundingMode, s.detectTininess, signZ, x)
  {
    hide Exp2, P2, Rounded, RoundFlags, AbsValue, Near, Or, Wrap, Operand, ShiftLeft, Scaled, Quotients;
    ghost var fa, fb, k := DivSetup(a, ea, b, eb);
    var expZ := ea.exp - eb.exp + 0x3FD;
    var sigA := ShiftLeft(Or(ea.sig, 0x10_0000_0000_0000), 10);
    var sigB := ShiftLeft(Or(eb.sig, 0x10_0000_0000_0000), 11);
    WrapSmall(sigA + sigA);
    if sigB <= Wrap(sigA + sigA) {
      expZ := expZ + 1;
      sigA := sigA / 2;
    }
    ghost var q, y := DivExact(a, ea, fa, b, eb, fb, sigA, sigB, k, x);
    var sigZ := QuotientSig(sigA, sigB, q, y);
    z := RoundPackToF64(s, signZ, expZ, sigZ, x);
  }

  /** The shifted significands, and whether the dividend will be halved. */
  lemma DivSetup(a: Word, ea: ExpSig, b: Word, eb: ExpSig) returns (fa: int, fb: int, k: int)
    requires Operand(a, ea) && Operand(b, eb)
    ensures IsFinite(a) && IsFinite(b) && -51 <= ea.exp <= 0x7FE && -51 <= eb.exp <= 0x7FE
    ensures AbsValue(a) == fa as real * Exp2(ea.exp - 1075) && AbsValue(b) == fb as real * Exp2(eb.exp - 1075)
    ensures var sigA, sigB := ShiftLeft(Or(ea.sig, 0x10_0000_0000_0000), 10),
                              ShiftLeft(Or(eb.sig, 0x10_0000_0000_0000), 11);
            && sigA < 0x8000_0000_0000_0000
            && k == (if sigB <= sigA + sigA then 1 else 0)
            && Scaled(fa, fb, if k == 1 then sigA / 2 else sigA, sigB, k)
  {
    hide Exp2, P2, AbsValue, Or, Wrap, Operand, ShiftLeft, Scaled;
    P2Constants();
    fa := OperandValue(a, ea, 10);
    fb := OperandValue(b, eb, 11);
    k := if fb * 0x800 <= fa * 0x400 + fa * 0x400 then 1 else 0;
    ScaledOperands(fa, fb, k);
  }

  lemma DivExact(a: Word, ea: ExpSig, fa: int, b: Word, eb: ExpSig, fb: int, sigA: Word, sigB: Word, k: int, x: real)
    returns (q: int, y: real)
    requires IsFinite(a) && IsFinite(b) && AbsValue(b) != 0.0 && x == AbsValue(a) / AbsValue(b)
    requires AbsValue(a) == fa as real * Exp2(ea.exp - 1075) && AbsValue(b) == fb as real * Exp2(eb.exp - 1075)
    requires Scaled(fa, fb, sigA, sigB, k)
    ensures Quotients(sigA, sigB, q, y)
    ensures y == x / Exp2(ea.exp - eb.exp + 0x3FD + k - 1084)
  {
    hide Exp2, AbsValue, Scaled, Quotients, IsQuotient;
    QuotientScaled(fa, ea.exp, fb, eb.exp, sigA, sigB, k, x);
    y := x / Exp2(ea.exp - eb.exp + 0x3FD + k - 1084);
    q := QuotientsOf(fa, fb, sigA, sigB, k, y);
  }

  lemma QuotientsOf(fa: int, fb: int, sigA: Word, sigB: Word, k: int, y: real) returns (q: int)
    requires Scaled(fa, fb, sigA, sigB, k) && IsQuotient(y, sigA, sigB)
    ensures Quotients(sigA, sigB, q, y)
  {
    hide Scaled;
    QuotientRange(fa, fb, sigA, sigB, k);
    RealQuotient(sigA * 0x1_0000_0000_0000_0000, sigB);
    q := (sigA * 0x1_0000_0000_0000_0000) / sigB;
  }

  lemma ScaledOperands(fa: int, fb: int, k: int)
    requires 0x10_0000_0000_0000 <= fa < 0x20_0000_0000_0000
    requires 0x10_0000_0000_0000 <= fb < 0x20_0000_0000_0000
    requires k == if fb * 0x800 <= fa * 0x400 + fa * 0x400 then 1 else 0
    ensures k == 0 ==> Scaled(fa, fb, fa * 0x400, fb * 0x800, k)
    ensures k == 1 ==> Scaled(fa, fb, (fa * 0x400) / 2, fb * 0x800, k)
  {
    DivModUnique(fa * 0x400, 2, fa * 0x200, 0);
  }

  lemma QuotientOfSigned(a: Word, b: Word) returns (x: real)
    requires IsFinite(a) && IsFinite(b) && AbsValue(b) != 0.0
    ensures Value(b) != 0.0 && x == AbsValue(a) / AbsValue(b) && x >= 0.0
    ensures Value(a) / Value(b) == if SignOf(a) != SignOf(b) then -x else x
  {
    hide AbsValue;
    x := AbsValue(a) / AbsValue(b);
    QuotientSigns(AbsValue(a), AbsValue(b));
  }

  lemma QuotientSigns(p: real, q: real)
    requires p >= 0.0 && q > 0.0
    ensures p / q >= 0.0
    ensures (-p) / q == -(p / q) && p / (-q) == -(p / q) && (-p) / (-q) == p / q
  {
    var t := p / q;
    assert t * q == p;
    assert (-t) * q == -p && (-t) * (-q) == p && t * (-q) == -p;
  }

  /** The quotient of two finite numbers is rounded once. */
  method F64Div(s: FloatState, a: Word, b: Word) returns (z: Word)
    modifies s`exceptionFlags
    ensures IsFinite(a) && IsFinite(b) && !IsZero(b) ==>
              && Value(b) != 0.0
              && z == RoundReal(s.roundingMode, SignOf(a) != SignOf(b), Value(a) / Value(b))
              && s.exceptionFlags == old(s.exceptionFlags)
                   + RealFlags(s.roundingMode, s.detectTininess, Value(a) / Value(b))
    ensures IsNaN(a) || IsNaN(b) ==>
              && z == DEFAULT_NAN && IsNaN(z)
              && s.exceptionFlags == old(s.exceptionFlags) + (if IsSigNaN(a) || IsSigNaN(b) then {Invalid} else {})
    ensures (IsInf(a) && IsInf(b)) || (IsZero(a) && IsZero(b)) ==>
              z == DEFAULT_NAN && IsNaN(z) && s.exceptionFlags == old(s.exceptionFlags) + {Invalid}
    ensures IsFinite(a) && !IsZero(a) && IsZero(b) ==>
              z == Pack(SignOf(a) != SignOf(b), 0x7FF, 0) && s.exceptionFlags == old(s.exceptionFlags) + {DivByZero}
    ensures IsInf(a) && IsFinite(b) ==>
              z == Pack(SignOf(a) != SignOf(b), 0x7FF, 0) && s.exceptionFlags == old(s.exceptionFlags)
    ensures IsFinite(a) && IsInf(b) ==>
              z == Pack(SignOf(a) != SignOf(b), 0, 0) && s.exceptionFlags == old(s.exceptionFlags)
  {
    hide Exp2, P2, RoundReal, RealFlags, Rounded, RoundFlags, AbsValue, Value, Near, Or, Pack, IsSigNaN, Packable,
         SignOf;
    var signA, expA, sigA := SignOf(a), ExpOf(a), FracOf(a);
    var signB, expB, sigB := SignOf(b), ExpOf(b), FracOf(b);
    var signZ := signA != signB;
    if expA == 0x7FF {
      if sigA != 0 {
        z := PropagateNaNF64UI(s, a, b);
        return;
      }
      if expB == 0x7FF {
        if sigB != 0 {
          z := PropagateNaNF64UI(s, a, b);
          return;
        }
        s.Raise({Invalid});
        z := DEFAULT_NAN;
        return;
      }
      z := Pack(signZ, 0x7FF, 0);
      return;
    }
    if expB == 0x7FF {
      if sigB != 0 {
        z := PropagateNaNF64UI(s, a, b);
        return;
      }
      z := Pack(signZ, 0, 0);
      return;
    }
    if expB == 0 && sigB == 0 {
      if expA == 0 && sigA == 0 {
        s.Raise({Invalid});
        z := DEFAULT_NAN;
        return;
      }
      s.Raise({DivByZero});
      z := Pack(signZ, 0x7FF, 0);
      return;
    }
    var normB := NormOperand(b);
    NonzeroValue(b);
    ghost var x := QuotientOfSigned(a, b);
    RoundSigned(s.roundingMode, s.detectTininess, signZ, x, Value(a) / Value(b));
    if expA == 0 && sigA == 0 {
      ZeroValue(a);
      RoundsToZero(s.roundingMode, s.detectTininess, signZ);
      z := Pack(signZ, 0, 0);
      return;
    }
    var normA := NormOperand(a);
    z := DivNonzero(s, signZ, a, normA, b, normB, x);
  }
}
