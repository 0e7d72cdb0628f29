/** The rounding point of the double-precision kernel. */
module RoundPack {
  import opened Machine
  import opened Powers
  import opened Rounding
  import opened Sticky
  import opened Words
  import opened Shifts

  const DEFAULT_NAN: Word := 0xFFFF_FFFF_FFFF_FFFF

  /** The kernel's global state. */
  class FloatState {
    var roundingMode: Mode
    var detectTininess: Tininess
    var exceptionFlags: set<Flag>

    constructor ()
      ensures roundingMode == NearEven && detectTininess == BeforeRounding && exceptionFlags == {}
    {
      roundingMode, detectTininess, exceptionFlags := NearEven, BeforeRounding, {};
    }

    method Raise(flags: set<Flag>)
      modifies this`exceptionFlags
      ensures exceptionFlags == old(exceptionFlags) + flags
    {
      exceptionFlags := exceptionFlags + flags;
    }
  }

  function SignOf(ui: Word): bool { ui / 0x8000_0000_0000_0000 == 1 }
  function ExpOf(ui: Word): int { (ui / 0x10_0000_0000_0000) % 0x800 }
  function FracOf(ui: Word): int { ui % 0x10_0000_0000_0000 }

  /** The three fields are added, so a significand with its hidden bit set carries
      into the exponent. */
  function Pack(sign: bool, exp: int, sig: int): Word {
    Wrap((if sign then 0x8000_0000_0000_0000 else 0) + exp * 0x10_0000_0000_0000 + sig)
  }

  lemma Exp2Ten(e: int)
    ensures Exp2(e + 10) == 1024.0 * Exp2(e)
  {
    hide Exp2;
    Exp2Step(e); Exp2Step(e + 1); Exp2Step(e + 2); Exp2Step(e + 3); Exp2Step(e + 4);
    Exp2Step(e + 5); Exp2Step(e + 6); Exp2Step(e + 7); Exp2Step(e + 8); Exp2Step(e + 9);
  }

  lemma NearBounds(sig: int, y: real)
    requires 0 <= sig < 0x8000_0000_0000_0000 && Near(512, sig, y)
    ensures 0.0 <= y < 0x8000_0000_0000_0000 as real
    ensures sig >= 0x4000_0000_0000_0000 ==> y >= 0x4000_0000_0000_0000 as real
    ensures sig == 0 ==> y == 0.0
  {
    assert sig >= 0x4000_0000_0000_0000 ==> sig - sig % 512 >= 0x4000_0000_0000_0000;
    assert sig - sig % 512 + 512 <= 0x8000_0000_0000_0000;
  }

  lemma Regroup(y: real, u: real, v: real)
    requires v == 1024.0 * u
    ensures y * u == (y / 1024.0) * v
  {
  }

  /** A normalized significand, or one already at the subnormal exponent. */
  lemma RoundInRange(mode: Mode, neg: bool, exp: int, sig: int, y: real, x: real)
    requires 0 <= exp <= 0x7FD
    requires 0 <= sig < 0x8000_0000_0000_0000
    requires exp == 0 || sig >= 0x4000_0000_0000_0000
    requires Near(512, sig, y) && x == y * Exp2(exp - 1084)
    ensures x >= 0.0 && x < Mag(INFINITY)
    ensures RoundMag(mode, neg, x) == exp * 0x10_0000_0000_0000 + RoundSig(mode, neg, sig)
    ensures Exact(x) <==> sig % 0x400 == 0
  {
    hide Exp2, Mag, Near, RoundMag, RoundSig, RoundInt, Exact;
    Exp2Ten(exp - 1084);
    NearBounds(sig, y);
    Regroup(y, Exp2(exp - 1084), Exp2(exp - 1074));
    RoundScaled(mode, neg, exp, y / 1024.0, x);
    RoundSigCorrect(mode, neg, sig, y);
  }

  lemma RoundSigRange(mode: Mode, neg: bool, sig: int)
    requires 0 <= sig < 0x8000_0000_0000_0000
    ensures 0 <= RoundSig(mode, neg, sig) <= 0x20_0000_0000_0000
    ensures RoundSig(mode, neg, sig) == 0x20_0000_0000_0000 <==>
                sig + RoundIncrement(mode, neg) >= 0x8000_0000_0000_0000
    ensures sig >= 0x4000_0000_0000_0000 ==> RoundSig(mode, neg, sig) >= 0x10_0000_0000_0000
  {
    var z := (sig + RoundIncrement(mode, neg)) / 0x400;
    assert z % 2 == 1 ==> z < 0x20_0000_0000_0000;
    assert sig >= 0x4000_0000_0000_0000 && z % 2 == 1 ==> z > 0x10_0000_0000_0000;
  }

  lemma ProductOrder(a: real, b: real, u: real, v: real)
    requires 0.0 <= a <= b && 0.0 < u <= v
    ensures a * u <= b * v
  {
    assert a * u <= a * v;
    assert a * v <= b * v;
  }

  /** A normalized significand at a non-negative exponent is not below the smallest
      normal number. */
  lemma NotTiny(exp: int, y: real, x: real)
    requires 0 <= exp && y >= 0x4000_0000_0000_0000 as real && x == y * Exp2(exp - 1084)
    ensures x >= Mag(0x10_0000_0000_0000)
  {
    hide Exp2, Mag;
    var e := 0;
    MagLinear(e, 0x10_0000_0000_0000);
    Exp2Ten(e - 1084);
    Exp2Monotone(e - 1084, exp - 1084);
    ProductOrder(0x4000_0000_0000_0000 as real, y, Exp2(e - 1084), Exp2(exp - 1084));
  }

  lemma InRangeFlags(mode: Mode, tininess: Tininess, neg: bool, exp: int, sig: int, y: real, x: real)
    requires 0 <= exp <= 0x7FD
    requires 0 <= sig < 0x8000_0000_0000_0000
    requires sig >= 0x4000_0000_0000_0000 || (exp == 0 && sig % 0x400 == 0)
    requires Near(512, sig, y) && x == y * Exp2(exp - 1084)
    ensures x >= 0.0
    ensures RoundFlags(mode, tininess, neg, x) ==
            (if sig % 0x400 == 0 then {} else {Inexact})
            + (if exp == 0x7FD && sig + RoundIncrement(mode, neg) >= 0x8000_0000_0000_0000 then {Overflow} else {})
  {
    hide Exp2, Mag, Near, RoundMag, RoundSig, RoundInt, Exact, RoundIncrement;
    RoundInRange(mode, neg, exp, sig, y, x);
    RoundSigRange(mode, neg, sig);
    NearBounds(sig, y);
    if sig >= 0x4000_0000_0000_0000 {
      NotTiny(exp, y, x);
    }
  }

  /** Below the normal range the significand is first shifted to the subnormal
      exponent; jamming keeps what rounding needs. */
  lemma RoundSubnormal(mode: Mode, neg: bool, exp: int, sig: int, y: real, x: real)
    requires exp < 0
    requires 0 <= sig < 0x8000_0000_0000_0000
    requires Near(512, sig, y) && x == y * Exp2(exp - 1084)
    ensures x >= 0.0 && x < Mag(INFINITY)
    ensures RoundMag(mode, neg, x) == RoundSig(mode, neg, JamRight(sig, -exp))
    ensures Exact(x) <==> JamRight(sig, -exp) % 0x400 == 0
    ensures 0 <= JamRight(sig, -exp) < 0x8000_0000_0000_0000
  {
    hide Exp2, Mag, Near, RoundMag, RoundSig, RoundInt, Exact, P2, JamRight;
    var n := -exp;
    var sig', y' := JamRight(sig, n), y / P2(n) as real;
    JamRightRange(sig, n);
    NearJamRight(512, sig, n, y);
    Exp2Add(exp - 1084, n);
    Exp2Nat(n);
    var e := exp + n;
    MoveScale(y, P2(n) as real, Exp2(exp - 1084), Exp2(e - 1084));
    RoundInRange(mode, neg, e, sig', y', x);
  }

  lemma MoveScale(y: real, p: real, u: real, v: real)
    requires p > 0.0 && v == u * p
    ensures y * u == (y / p) * v
  {
    assert (y / p) * p == y;
    assert (y / p) * (u * p) == ((y / p) * p) * u;
  }

  lemma JamRightRange(sig: int, n: nat)
    requires 0 <= sig < 0x8000_0000_0000_0000 && n > 0
    ensures 0 <= JamRight(sig, n) < 0x8000_0000_0000_0000
  {
    QuotientBound(sig, P2(n));
    P2Step(n - 1);
    var p := P2(n);
    assert sig == sig / p * p + sig % p;
    assert sig / p * p >= sig / p * 2;
  }

  lemma StrictProduct(a: real, b: real, u: real)
    requires a < b && u > 0.0
    ensures a * u < b * u
  {
  }

  lemma BelowNormal(exp: int, y: real, x: real)
    requires exp < 0 && 0.0 <= y < 0x8000_0000_0000_0000 as real && x == y * Exp2(exp - 1084)
    ensures x < Mag(0x10_0000_0000_0000)
  {
    hide Exp2, Mag;
    var e := 0;
    MagLinear(e, 0x10_0000_0000_0000);
    Exp2Ten(e - 1084);
    Exp2Step(e - 1085);
    Exp2Monotone(exp - 1084, e - 1085);
    var v := Exp2(e - 1085);
    ProductOrder(y, y, Exp2(exp - 1084), v);
    StrictProduct(y, 9223372036854775808.0, v);
    assert x <= y * v;
    assert x < 9223372036854775808.0 * v;
    assert Mag(0x10_0000_0000_0000) == 9223372036854775808.0 * v;
  }

  lemma TwiceQuotient(y: real, v: real, u: real)
    requires v > 0.0 && u == 2048.0 * v
    ensures 2.0 * (y * v) / u == y / 1024.0
  {
    assert 2.0 * (y * v) == (y / 1024.0) * u;
  }

  lemma SmallQuotient(y: real, x: real, v: real, u: real)
    requires v > 0.0 && u == 4096.0 * v && 0.0 <= x <= y * v && y < 0x8000_0000_0000_0000 as real
    ensures 0.0 <= 2.0 * x / u < 0x10_0000_0000_0000 as real
  {
    StrictProduct(y, 9223372036854775808.0, v);
    var w := 2.0 * x / u;
    assert w * u == 2.0 * x;
    assert x < 9223372036854775808.0 * v;
    assert 4503599627370496.0 * u == 18446744073709551616.0 * v;
    QuotientBelow(w, 4503599627370496.0, u);
  }

  lemma QuotientBelow(w: real, b: real, u: real)
    requires u > 0.0 && 0.0 <= w * u < b * u
    ensures 0.0 <= w < b
  {
  }

  lemma RoundIntSmall(mode: Mode, neg: bool, w: real)
    requires 0.0 <= w < 0x10_0000_0000_0000 as real
    ensures RoundInt(mode, neg, w) <= 0x10_0000_0000_0000
  {
  }

  /** One place below the normal range, tininess after rounding is decided by the
      same increment. */
  lemma JustBelowNormal(mode: Mode, neg: bool, exp: int, sig: int, y: real, x: real)
    requires exp == -1
    requires 0 <= sig < 0x8000_0000_0000_0000
    requires Near(512, sig, y) && x == y * Exp2(exp - 1084)
    ensures RoundInt(mode, neg, 2.0 * x / Exp2(MIN_EXPONENT - 1075)) == RoundSig(mode, neg, sig)
  {
    hide Exp2, Near, RoundSig, RoundInt;
    RoundSigCorrect(mode, neg, sig, y);
    Exp2Ten(exp - 1083);
    Exp2Step(exp - 1084);
    assert MIN_EXPONENT - 1075 == exp - 1073;
    TwiceQuotient(y, Exp2(exp - 1084), Exp2(MIN_EXPONENT - 1075));
    assert 2.0 * x / Exp2(MIN_EXPONENT - 1075) == y / 1024.0;
  }

  lemma FarBelowNormal(mode: Mode, neg: bool, exp: int, y: real, x: real)
    requires exp < -1
    requires 0.0 <= y < 0x8000_0000_0000_0000 as real && x == y * Exp2(exp - 1084) && x >= 0.0
    ensures RoundInt(mode, neg, 2.0 * x / Exp2(MIN_EXPONENT - 1075)) <= 0x10_0000_0000_0000
  {
    hide Exp2, RoundInt;
    var e := MIN_EXPONENT;
    Exp2Ten(e - 1085);
    Exp2Step(e - 1086);
    Exp2Step(e - 1087);
    Exp2Monotone(exp - 1084, e - 1087);
    ProductOrder(y, y, Exp2(exp - 1084), Exp2(e - 1087));
    SmallQuotient(y, x, Exp2(e - 1087), Exp2(MIN_EXPONENT - 1075));
    RoundIntSmall(mode, neg, 2.0 * x / Exp2(MIN_EXPONENT - 1075));
  }

  /** Tininess of a value below the normal range. */
  lemma SubnormalTiny(mode: Mode, tininess: Tininess, neg: bool, exp: int, sig: int, y: real, x: real)
    requires exp < 0
    requires 0 <= sig < 0x8000_0000_0000_0000
    requires Near(512, sig, y) && x == y * Exp2(exp - 1084) && x >= 0.0
    ensures Tiny(mode, tininess, neg, x) <==>
            (tininess.BeforeRounding? || exp < -1 || sig + RoundIncrement(mode, neg) < 0x8000_0000_0000_0000)
  {
    hide Exp2, Mag, Near, RoundSig, RoundInt, RoundIncrement;
    NearBounds(sig, y);
    BelowNormal(exp, y, x);
    if exp == -1 {
      RoundSigRange(mode, neg, sig);
      JustBelowNormal(mode, neg, exp, sig, y, x);
    } else {
      FarBelowNormal(mode, neg, exp, y, x);
    }
  }

  lemma SubnormalFlags(mode: Mode, tininess: Tininess, neg: bool, exp: int, sig: int, y: real, x: real)
    requires exp < 0
    requires 0 <= sig < 0x8000_0000_0000_0000
    requires Near(512, sig, y) && x == y * Exp2(exp - 1084)
    ensures x >= 0.0
    ensures RoundFlags(mode, tininess, neg, x) ==
            if JamRight(sig, -exp) % 0x400 == 0 then {}
            else if tininess.BeforeRounding? || exp < -1 || sig + RoundIncrement(mode, neg) < 0x8000_0000_0000_0000
            then {Inexact, Underflow} else {Inexact}
  {
    hide Exp2, Mag, Near, RoundMag, RoundSig, RoundInt, Exact, JamRight, RoundIncrement, Tiny;
    RoundSubnormal(mode, neg, exp, sig, y, x);
    RoundSigRange(mode, neg, JamRight(sig, -exp));
    SubnormalTiny(mode, tininess, neg, exp, sig, y, x);
  }

  /** Beyond the largest binade. */
  lemma RoundOverflow(mode: Mode, tininess: Tininess, neg: bool, exp: int, sig: int, y: real, x: real)
    requires exp > 0x7FD
    requires 0x4000_0000_0000_0000 <= sig < 0x8000_0000_0000_0000
    requires Near(512, sig, y) && x == y * Exp2(exp - 1084)
    ensures x >= 0.0
    ensures RoundMag(mode, neg, x) == if RoundIncrement(mode, neg) == 0 then 0x7FEF_FFFF_FFFF_FFFF else INFINITY
    ensures RoundFlags(mode, tininess, neg, x) == {Overflow, Inexact}
  {
    hide Exp2, Mag, Near, Below;
    NearBounds(sig, y);
    var e := 0x7FD;
    MagLinear(e, 0x20_0000_0000_0000);
    Exp2Ten(e - 1084);
    Exp2Step(e - 1084);
    Exp2Monotone(e - 1083, exp - 1084);
    ProductOrder(0x4000_0000_0000_0000 as real, y, Exp2(e - 1083), Exp2(exp - 1084));
    assert x >= Mag(INFINITY);
    var lo := 0x7FEF_FFFF_FFFF_FFFF;
    MagIncreases(lo);
    BelowUnique(lo, x);
    MagMonotone(0x10_0000_0000_0000, INFINITY);
  }

  /** What the routine returns and raises, by exponent range. */
  function PackedMag(mode: Mode, neg: bool, exp: int, sig: int): int {
    var inc := RoundIncrement(mode, neg);
    if exp < 0 then RoundSig(mode, neg, JamRight(sig, -exp))
    else if exp > 0x7FD then if inc == 0 then 0x7FEF_FFFF_FFFF_FFFF else INFINITY
    else if sig == 0 then 0
    else exp * 0x10_0000_0000_0000 + RoundSig(mode, neg, sig)
  }

  function PackedFlags(mode: Mode, tininess: Tininess, neg: bool, exp: int, sig: int): set<Flag> {
    var over := sig + RoundIncrement(mode, neg) >= 0x8000_0000_0000_0000;
    if exp < 0 then
      if JamRight(sig, -exp) % 0x400 == 0 then {}
      else if tininess.BeforeRounding? || exp < -1 || !over then {Inexact, Underflow} else {Inexact}
    else if exp > 0x7FD then {Overflow, Inexact}
    else (if sig % 0x400 == 0 then {} else {Inexact}) + (if exp == 0x7FD && over then {Overflow} else {})
  }

  ghost predicate Packable(exp: int, sig: int) {
    && -0x8000 <= exp < 0x8000
    && 0 <= sig < 0x8000_0000_0000_0000
    && (sig >= 0x4000_0000_0000_0000 || exp < 0 || (exp == 0 && sig % 0x400 == 0) || (sig == 0 && exp < 0x7FD))
  }

  /** A single rounding of the exact value, over the whole exponent range. */
  lemma PackedIsRounded(mode: Mode, tininess: Tininess, neg: bool, exp: int, sig: int, x: real)
    requires Packable(exp, sig) && Near(512, sig, x / Exp2(exp - 1084))
    ensures x >= 0.0
    ensures PackedMag(mode, neg, exp, sig) == RoundMag(mode, neg, x)
    ensures PackedFlags(mode, tininess, neg, exp, sig) == RoundFlags(mode, tininess, neg, x)
  {
    hide Near, Exp2, Mag, RoundMag, RoundFlags, RoundSig, RoundIncrement, JamRight, Exact;
    var y := x / Exp2(exp - 1084);
    assert x == y * Exp2(exp - 1084);
    if exp < 0 {
      RoundSubnormal(mode, neg, exp, sig, y, x);
      SubnormalFlags(mode, tininess, neg, exp, sig, y, x);
    } else if exp > 0x7FD {
      RoundOverflow(mode, tininess, neg, exp, sig, y, x);
    } else if sig >= 0x4000_0000_0000_0000 || exp == 0 {
      RoundInRange(mode, neg, exp, sig, y, x);
      InRangeFlags(mode, tininess, neg, exp, sig, y, x);
      RoundSigZero(mode, neg);
    } else {
      RoundZero(mode, tininess, neg, sig, y, x);
    }
  }

  lemma RoundSigZero(mode: Mode, neg: bool)
    ensures RoundSig(mode, neg, 0) == 0 && RoundIncrement(mode, neg) < 0x400
  {
  }

  lemma RoundZero(mode: Mode, tininess: Tininess, neg: bool, sig: int, y: real, x: real)
    requires sig == 0 && Near(512, sig, y) && (y == 0.0 ==> x == 0.0)
    ensures x == 0.0 && RoundMag(mode, neg, x) == 0 && RoundFlags(mode, tininess, neg, x) == {}
    ensures PackedFlags(mode, tininess, neg, 1, sig) == {}
  {
    hide Mag, RoundFlags, RoundMag;
    assert Mag(sig) == 0.0 by { MagZero(sig); }
    RoundRepresentable(mode, tininess, neg, sig);
  }

  lemma MagZero(m: int)
    requires m == 0
    ensures Mag(m) == 0.0
  {
    hide Exp2;
  }

  /** Rounds and packs.  `x` is the exact magnitude for which `sig` and `exp` stand:
      at the scale 2^(exp - 1084) it is near `sig`.  A significand that is not
      normalized needs a negative exponent, or must be exact. */
  method RoundPackToF64(s: FloatState, sign: bool, exp0: int, sig0: Word, ghost x: real) returns (z: Word)
    requires Packable(exp0, sig0)
    requires Near(512, sig0, x / Exp2(exp0 - 1084))
    modifies s`exceptionFlags
    ensures x >= 0.0
    ensures z == Rounded(s.roundingMode, sign, x)
    ensures s.exceptionFlags == old(s.exceptionFlags) + RoundFlags(s.roundingMode, s.detectTininess, sign, x)
  {
    hide Near, Exp2, RoundMag, RoundFlags, JamRight, Shift64RightJam, Wrap, Pack, RoundSig;
    PackedIsRounded(s.roundingMode, s.detectTininess, sign, exp0, sig0, x);
    var exp, sig := exp0, sig0;
    var roundingMode := s.roundingMode;
    var roundNearestEven := roundingMode == NearEven;
    var roundIncrement := 0x200;
    if !roundNearestEven && roundingMode != NearMaxMag {
      roundIncrement := if roundingMode == MinMag || roundingMode == (if sign then Max else Min) then 0 else 0x3FF;
    }
    assert roundIncrement == RoundIncrement(roundingMode, sign);
    var roundBits := sig % 0x400;
    WrapSmall(sig + roundIncrement);
    if 0x7FD <= exp % 0x10000 {
      if exp < 0 {
        var isTiny := s.detectTininess == BeforeRounding || exp < -1
                      || Wrap(sig + roundIncrement) < 0x8000_0000_0000_0000;
        Shift64RightJamCorrect(sig, -exp);
        JamRightRange(sig, -exp);
        sig := Shift64RightJam(sig, -exp);
        exp := 0;
        roundBits := sig % 0x400;
        if isTiny && roundBits != 0 {
          s.Raise({Underflow});
        }
      } else if 0x7FD < exp || 0x8000_0000_0000_0000 <= Wrap(sig + roundIncrement) {
        s.Raise({Overflow, Inexact});
        PackExact(sign, 0x7FF, 0);
        RoundSigRange(roundingMode, sign, sig);
        z := Pack(sign, 0x7FF, 0) - (if roundIncrement == 0 then 1 else 0);
        return;
      }
    }
    RoundSigZero(roundingMode, sign);
    RoundSigRange(roundingMode, sign, sig);
    z := RoundInPlace(s, sign, exp, sig, roundBits, roundIncrement);
  }

  /** The exit for a result in range: round the low bits away and add up the fields. */
  method RoundInPlace(s: FloatState, sign: bool, exp: int, sig0: Word, roundBits: int,
                      roundIncrement: int) returns (z: Word)
    requires 0 <= exp <= 0x7FD && sig0 < 0x8000_0000_0000_0000
    requires roundBits == sig0 % 0x400 && roundIncrement == RoundIncrement(s.roundingMode, sign)
    requires exp == 0x7FD ==> sig0 + roundIncrement < 0x8000_0000_0000_0000
    modifies s`exceptionFlags
    ensures var m := RoundSig(s.roundingMode, sign, sig0);
            z == (if sign then SIGN else 0) + (if m == 0 then 0 else exp * 0x10_0000_0000_0000 + m)
    ensures s.exceptionFlags == old(s.exceptionFlags) + (if sig0 % 0x400 == 0 then {} else {Inexact})
  {
    hide Wrap, Pack, RoundSig, RoundIncrement;
    if roundBits != 0 {
      s.Raise({Inexact});
    }
    RoundSigRange(s.roundingMode, sign, sig0);
    RoundSigSteps(s.roundingMode, sign, sig0);
    var sig := Wrap(sig0 + roundIncrement) / 0x400;
    if roundBits == 0x200 && s.roundingMode == NearEven {
      sig := sig - sig % 2;
    }
    PackExact(sign, if sig != 0 then exp else 0, sig);
    z := Pack(sign, if sig != 0 then exp else 0, sig);
  }

  lemma RoundSigSteps(mode: Mode, neg: bool, sig: int)
    requires 0 <= sig < 0x8000_0000_0000_0000
    ensures var t := Wrap(sig + RoundIncrement(mode, neg)) / 0x400;
            RoundSig(mode, neg, sig) == if sig % 0x400 == 0x200 && mode == NearEven then t - t % 2 else t
  {
    WrapSmall(sig + RoundIncrement(mode, neg));
  }

  lemma PackExact(sign: bool, exp: int, sig: int)
    requires 0 <= exp * 0x10_0000_0000_0000 + sig < 0x8000_0000_0000_0000
    ensures Pack(sign, exp, sig) == (if sign then 0x8000_0000_0000_0000 else 0) + exp * 0x10_0000_0000_0000 + sig
  {
    WrapSmall((if sign then 0x8000_0000_0000_0000 else 0) + exp * 0x10_0000_0000_0000 + sig);
  }
}
