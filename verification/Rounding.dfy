/**
 Binary64 values and the five rounding directions of IEEE 754-2008, section 4.3,
 stated over the reals.

 A finite magnitude is an encoding `m`, the low 63 bits of the word: the exponent
 field above 52 fraction bits.  Encodings are ordered as the values they denote,
 so the two neighbours of a real `x` are `Below(x)` and `Below(x) + 1`, and
 correct rounding is a choice between the two.
*/
module Rounding {
  import opened Powers

  datatype Mode = NearEven | MinMag | Min | Max | NearMaxMag
  datatype Tininess = BeforeRounding | AfterRounding
  datatype Flag = Inexact | Underflow | Overflow | DivByZero | Invalid

  const INFINITY: int := 0x7FF0_0000_0000_0000
  const SIGN: int := 0x8000_0000_0000_0000             // 2^63
  const MIN_EXPONENT: int := 1  // biased exponent of the smallest normal numbers

  /** The magnitude an encoding denotes.  The encoding of infinity is given the
      value it would have if the exponent range went on: 2^1024. */
  ghost function Mag(m: int): (r: real)
    requires 0 <= m <= INFINITY
    ensures r >= 0.0
  {
    var e := m / 0x10_0000_0000_0000;
    if e == 0 then (m % 0x10_0000_0000_0000) as real * Exp2(e - 1074)
    else (m % 0x10_0000_0000_0000 + 0x10_0000_0000_0000) as real * Exp2(e - 1075)
  }

  /** `lo` is the greatest finite encoding whose magnitude is at most `x`. */
  ghost predicate Brackets(lo: int, x: real)
  {
    && 0 <= lo <= 0x7FEF_FFFF_FFFF_FFFF
    && Mag(lo) <= x
    && (lo < 0x7FEF_FFFF_FFFF_FFFF ==> x < Mag(lo + 1))
  }

  /** Whether a value strictly between two neighbours moves up to the one of larger
      magnitude: `below` and `above` are its distances to them, `odd` tells whether
      the lower one is odd. */
  predicate GoesUp(mode: Mode, neg: bool, odd: bool, below: real, above: real) {
    match mode
    case NearEven => above < below || (above == below && odd)
    case NearMaxMag => above <= below
    case MinMag => false
    case Min => neg
    case Max => !neg
  }

  /** Rounding to an integer. */
  function RoundInt(mode: Mode, neg: bool, y: real): int {
    var n := y.Floor;
    if y == n as real then n
    else if GoesUp(mode, neg, n % 2 == 1, y - n as real, (n + 1) as real - y) then n + 1
    else n
  }

  lemma {:induction false} BracketExists(x: real, top: int) returns (lo: int)
    requires x >= 0.0
    requires 0 <= top <= 0x7FEF_FFFF_FFFF_FFFF
    requires top < 0x7FEF_FFFF_FFFF_FFFF ==> x < Mag(top + 1)
    ensures Brackets(lo, x)
    decreases top
  {
    if top == 0 || Mag(top) <= x {
      lo := top;
    } else {
      lo := BracketExists(x, top - 1);
    }
  }

  ghost function Below(x: real): (lo: int)
    requires x >= 0.0
    ensures Brackets(lo, x)
  {
    assert exists lo :: Brackets(lo, x) by {
      var lo := BracketExists(x, 0x7FEF_FFFF_FFFF_FFFF);
    }
    var lo :| Brackets(lo, x);
    lo
  }

  /** Correct rounding of the magnitude `x` of a value whose sign is `neg`. */
  ghost function RoundMag(mode: Mode, neg: bool, x: real): (m: int)
    requires x >= 0.0
    ensures 0 <= m <= INFINITY
  {
    var lo := Below(x);
    if Mag(lo) == x then lo
    else if GoesUp(mode, neg, lo % 2 == 1, x - Mag(lo), Mag(lo + 1) - x) then lo + 1
    else lo
  }

  /** The word with sign `neg` and the correctly rounded magnitude. */
  ghost function Rounded(mode: Mode, neg: bool, x: real): (w: int)
    requires x >= 0.0
    ensures 0 <= w < 2 * SIGN
  {
    (if neg then SIGN else 0) + RoundMag(mode, neg, x)
  }

  ghost predicate Exact(x: real)
    requires x >= 0.0
  {
    Mag(Below(x)) == x
  }

  /** Sections 7.4 and 7.5: overflow when the result, rounded as if the exponent
      range were unbounded, is too large; underflow when it is tiny and inexact.
      After rounding, tiny means that a 53-bit result of unbounded exponent range
      stays below the smallest normal number. */
  ghost predicate Overflows(mode: Mode, neg: bool, x: real)
    requires x >= 0.0
  {
    Mag(INFINITY) <= x || RoundMag(mode, neg, x) == INFINITY
  }

  ghost predicate Tiny(mode: Mode, tininess: Tininess, neg: bool, x: real)
    requires x >= 0.0
  {
    && x < Mag(0x10_0000_0000_0000)
    && (tininess.AfterRounding? ==> RoundInt(mode, neg, 2.0 * x / Exp2(MIN_EXPONENT - 1075)) < 0x20_0000_0000_0000)
  }

  ghost function RoundFlags(mode: Mode, tininess: Tininess, neg: bool, x: real): set<Flag>
    requires x >= 0.0
  {
    (if Exact(x) then {} else {Inexact})
    + (if Overflows(mode, neg, x) then {Overflow} else {})
    + (if !Exact(x) && Tiny(mode, tininess, neg, x) then {Underflow} else {})
  }

  // ---------------------------------------------------------------------------
  // Encodings and magnitudes

  /** Within one binade, and across its upper end, magnitudes are equally spaced. */
  lemma MagLinear(exp: int, s: int)
    requires 0 <= exp <= 0x7FD
    requires 0 <= s <= 0x20_0000_0000_0000
    requires exp == 0 || 0x10_0000_0000_0000 <= s
    ensures Mag(exp * 0x10_0000_0000_0000 + s) == s as real * Exp2(exp - 1074)
  {
    hide Exp2;
    var m := exp * 0x10_0000_0000_0000 + s;
    Exp2Step(exp - 1074);
    if s < 0x10_0000_0000_0000 {
      assert m / 0x10_0000_0000_0000 == 0 && m % 0x10_0000_0000_0000 == s;
    } else if s < 0x20_0000_0000_0000 {
      assert m / 0x10_0000_0000_0000 == exp + 1 && m % 0x10_0000_0000_0000 == s - 0x10_0000_0000_0000;
    } else {
      assert m / 0x10_0000_0000_0000 == exp + 2 && m % 0x10_0000_0000_0000 == 0;
    }
  }

  lemma MagNext(exp: int, s: int)
    requires 0 <= exp <= 0x7FD
    requires 0 <= s < 0x20_0000_0000_0000
    requires exp == 0 || 0x10_0000_0000_0000 <= s
    ensures Mag(exp * 0x10_0000_0000_0000 + s + 1) == Mag(exp * 0x10_0000_0000_0000 + s) + Exp2(exp - 1074)
  {
    hide Mag, Exp2;
    MagLinear(exp, s);
    MagLinear(exp, s + 1);
    var u := Exp2(exp - 1074);
    assert (s + 1) as real * u == s as real * u + u;
  }

  lemma MagIncreases(m: int)
    requires 0 <= m < INFINITY
    ensures Mag(m) < Mag(m + 1)
  {
    hide Exp2, Mag;
    var e := m / 0x10_0000_0000_0000;
    var exp := if e == 0 then 0 else e - 1;
    var s := m - exp * 0x10_0000_0000_0000;
    MagNext(exp, s);
  }

  lemma {:induction false} MagMonotone(a: int, b: int)
    requires 0 <= a <= b <= INFINITY
    ensures Mag(a) <= Mag(b)
    ensures a < b ==> Mag(a) < Mag(b)
    decreases b - a
  {
    hide Mag;
    if a < b {
      MagMonotone(a, b - 1);
      MagIncreases(b - 1);
    }
  }

  lemma BelowUnique(lo: int, x: real)
    requires x >= 0.0
    requires Brackets(lo, x)
    ensures Below(x) == lo
  {
    hide Mag;
    var b := Below(x);
    if b < lo {
      MagMonotone(b + 1, lo);
    } else if lo < b {
      MagMonotone(lo + 1, b);
    }
  }

  // ---------------------------------------------------------------------------
  // What rounding means

  /** A representable value rounds to itself, in every mode and with no exception. */
  lemma RoundRepresentable(mode: Mode, tininess: Tininess, neg: bool, m: int)
    requires 0 <= m <= 0x7FEF_FFFF_FFFF_FFFF
    ensures RoundMag(mode, neg, Mag(m)) == m
    ensures Exact(Mag(m))
    ensures RoundFlags(mode, tininess, neg, Mag(m)) == {}
  {
    hide Mag;
    MagIncreases(m);
    BelowUnique(m, Mag(m));
    MagMonotone(m, INFINITY);
  }

  /** In the nearest modes no encoding is closer than the result. */
  lemma RoundIsNearest(mode: Mode, neg: bool, x: real, k: int)
    requires x >= 0.0
    requires mode.NearEven? || mode.NearMaxMag?
    requires 0 <= k <= INFINITY
    ensures var d := Mag(RoundMag(mode, neg, x)) - x;
            (d <= Mag(k) - x || d <= x - Mag(k)) && (-d <= Mag(k) - x || -d <= x - Mag(k))
  {
    hide Mag;
    var lo := Below(x);
    if k <= lo {
      MagMonotone(k, lo);
    } else {
      MagMonotone(lo + 1, k);
    }
    MagIncreases(lo);
  }

  /** In the directed modes the result is the neighbour on the prescribed side, and
      nothing lies between it and `x`. */
  lemma RoundIsDirected(mode: Mode, neg: bool, x: real, k: int)
    requires x >= 0.0
    requires mode.MinMag? || mode.Min? || mode.Max?
    requires 0 <= k <= 0x7FEF_FFFF_FFFF_FFFF
    ensures var r, away := Mag(RoundMag(mode, neg, x)), (mode.Min? && neg) || (mode.Max? && !neg);
            if away then
              && (x <= r || (Mag(INFINITY) < x && RoundMag(mode, neg, x) == INFINITY))
              && (x <= Mag(k) ==> r <= Mag(k))
            else r <= x && (Mag(k) <= x ==> Mag(k) <= r)
  {
    hide Mag;
    var lo := Below(x);
    if k <= lo {
      MagMonotone(k, lo);
    } else {
      MagMonotone(lo + 1, k);
    }
    MagIncreases(lo);
  }

  /** A value halfway between two neighbours goes to the even one, or to the larger one. */
  lemma RoundTie(neg: bool, x: real, lo: int)
    requires 0 <= lo < 0x7FEF_FFFF_FFFF_FFFF && x == (Mag(lo) + Mag(lo + 1)) / 2.0
    ensures RoundMag(NearEven, neg, x) == (if lo % 2 == 0 then lo else lo + 1) && RoundMag(NearEven, neg, x) % 2 == 0
    ensures RoundMag(NearMaxMag, neg, x) == lo + 1
  {
    hide Mag;
    MagIncreases(lo);
    BelowUnique(lo, x);
  }

  /** What the flags say: inexact, that the result is not the value itself; overflow, that the
      value is out of range or rounds out of it; underflow, that it is inexact and tiny. */
  lemma FlagsMean(mode: Mode, tininess: Tininess, neg: bool, x: real)
    requires x >= 0.0
    ensures var flags, m := RoundFlags(mode, tininess, neg, x), RoundMag(mode, neg, x);
            && (Inexact in flags <==> Mag(m) != x || x >= Mag(INFINITY))
            && (Overflow in flags <==> m == INFINITY || x >= Mag(INFINITY))
            && (Overflow in flags ==> Inexact in flags)
            && (Underflow in flags ==> Inexact in flags && x < Mag(0x10_0000_0000_0000))
            && (Underflow in flags && Overflow in flags ==> false)
            && (tininess.BeforeRounding? && Inexact in flags && x < Mag(0x10_0000_0000_0000) ==> Underflow in flags)
            && Invalid !in flags && DivByZero !in flags
  {
    hide Mag;
    var lo := Below(x);
    MagMonotone(lo, INFINITY);
    MagIncreases(lo);
    MagMonotone(0x10_0000_0000_0000, 0x7FEF_FFFF_FFFF_FFFF);
    MagIncreases(0x7FEF_FFFF_FFFF_FFFF);
  }

  /** Rounding preserves order. */
  lemma RoundMonotone(mode: Mode, neg: bool, x: real, y: real)
    requires 0.0 <= x <= y
    ensures RoundMag(mode, neg, x) <= RoundMag(mode, neg, y)
  {
    hide Mag;
    var a, b := Below(x), Below(y);
    if b < a {
      MagMonotone(b + 1, a);
    }
  }

  // ---------------------------------------------------------------------------
  // Rounding in a binade is rounding to an integer

  lemma GoesUpScale(mode: Mode, neg: bool, odd: bool, below: real, above: real, u: real, below': real, above': real)
    requires u > 0.0 && below' == below * u && above' == above * u
    ensures GoesUp(mode, neg, odd, below', above') == GoesUp(mode, neg, odd, below, above)
  {
    assert above < below <==> above * u < below * u;
    assert above == below <==> above * u == below * u;
  }

  /** The position of `x == y * u` among the multiples of `u`. */
  lemma ScaleFraction(s: real, y: real, u: real, x: real, lo: real, hi: real)
    requires u > 0.0 && 0.0 <= s <= y < s + 1.0
    requires x == y * u && lo == s * u && hi == lo + u
    ensures 0.0 <= lo <= x < hi
    ensures x - lo == (y - s) * u && hi - x == (s + 1.0 - y) * u
    ensures x == lo <==> y == s
  {
    Positive(s + 1.0 - y, u);
    assert hi - x == (s + 1.0 - y) * u;
  }

  lemma Positive(a: real, u: real)
    requires a > 0.0 && u > 0.0
    ensures a * u > 0.0
  {
  }

  lemma BelowScaled(exp: int, y: real, x: real)
    requires 0 <= exp <= 0x7FD
    requires 0.0 <= y < 0x20_0000_0000_0000 as real
    requires exp == 0 || 0x10_0000_0000_0000 as real <= y
    requires x == y * Exp2(exp - 1074)
    ensures x >= 0.0 && x < Mag(INFINITY)
    ensures Below(x) == exp * 0x10_0000_0000_0000 + y.Floor
    ensures x - Mag(Below(x)) == (y - y.Floor as real) * Exp2(exp - 1074)
    ensures Mag(Below(x) + 1) - x == ((y.Floor + 1) as real - y) * Exp2(exp - 1074)
    ensures x == Mag(Below(x)) <==> y == y.Floor as real
  {
    hide Mag, Exp2, Below;
    var s := y.Floor;
    var lo := exp * 0x10_0000_0000_0000 + s;
    assert Mag(lo) == s as real * Exp2(exp - 1074) && Mag(lo + 1) == Mag(lo) + Exp2(exp - 1074) by {
      MagLinear(exp, s);
      MagNext(exp, s);
    }
    ScaleFraction(s as real, y, Exp2(exp - 1074), x, Mag(lo), Mag(lo + 1));
    BelowUnique(lo, x);
    MagMonotone(lo + 1, INFINITY);
  }

  lemma RoundScaled(mode: Mode, neg: bool, exp: int, y: real, x: real)
    requires 0 <= exp <= 0x7FD
    requires 0.0 <= y < 0x20_0000_0000_0000 as real
    requires exp == 0 || 0x10_0000_0000_0000 as real <= y
    requires x == y * Exp2(exp - 1074)
    ensures x >= 0.0 && x < Mag(INFINITY)
    ensures RoundMag(mode, neg, x) == exp * 0x10_0000_0000_0000 + RoundInt(mode, neg, y)
    ensures Exact(x) <==> y == y.Floor as real
  {
    hide Mag, Exp2, GoesUp, Below, RoundMag, RoundInt, Exact, Placed;
    PlacedScaled(exp, y, x);
    Parity(exp, y.Floor);
    GoesUpPlaced(mode, neg, exp, y, x);
    RoundAlike(mode, neg, x, y);
  }

  /** The distances of `x` from its neighbours are those of `y`, scaled. */
  ghost predicate Placed(exp: int, y: real, x: real)
    requires x >= 0.0
  {
    && x - Mag(Below(x)) == (y - y.Floor as real) * Exp2(exp - 1074)
    && Mag(Below(x) + 1) - x == ((y.Floor + 1) as real - y) * Exp2(exp - 1074)
  }

  lemma PlacedScaled(exp: int, y: real, x: real)
    requires 0 <= exp <= 0x7FD
    requires 0.0 <= y < 0x20_0000_0000_0000 as real
    requires exp == 0 || 0x10_0000_0000_0000 as real <= y
    requires x == y * Exp2(exp - 1074)
    ensures x >= 0.0 && x < Mag(INFINITY) && Below(x) == exp * 0x10_0000_0000_0000 + y.Floor
    ensures Placed(exp, y, x) && (x == Mag(Below(x)) <==> y == y.Floor as real)
  {
    hide Mag, Exp2, Below;
    BelowScaled(exp, y, x);
  }

  lemma GoesUpPlaced(mode: Mode, neg: bool, exp: int, y: real, x: real)
    requires x >= 0.0 && Placed(exp, y, x) && Below(x) % 2 == y.Floor % 2
    ensures GoesUp(mode, neg, Below(x) % 2 == 1, x - Mag(Below(x)), Mag(Below(x) + 1) - x)
            == GoesUp(mode, neg, y.Floor % 2 == 1, y - y.Floor as real, (y.Floor + 1) as real - y)
  {
    hide Mag, Exp2, Below, GoesUp;
    var s, lo := y.Floor, Below(x);
    GoesUpScale(mode, neg, s % 2 == 1, y - s as real, (s + 1) as real - y,
                Exp2(exp - 1074), x - Mag(lo), Mag(lo + 1) - x);
  }

  /** If the two positions between neighbours decide alike, so do the roundings. */
  lemma RoundAlike(mode: Mode, neg: bool, x: real, y: real)
    requires x >= 0.0
    requires x == Mag(Below(x)) <==> y == y.Floor as real
    requires GoesUp(mode, neg, Below(x) % 2 == 1, x - Mag(Below(x)), Mag(Below(x) + 1) - x)
             == GoesUp(mode, neg, y.Floor % 2 == 1, y - y.Floor as real, (y.Floor + 1) as real - y)
    ensures RoundMag(mode, neg, x) - Below(x) == RoundInt(mode, neg, y) - y.Floor
    ensures Exact(x) <==> y == y.Floor as real
  {
    hide Mag, GoesUp, Below;
  }

  lemma Parity(exp: int, s: int)
    ensures (exp * 0x10_0000_0000_0000 + s) % 2 == s % 2
  {
    EvenOffset(exp * 0x8_0000_0000_0000, s);
  }

  lemma EvenOffset(h: int, s: int)
    ensures (2 * h + s) % 2 == s % 2
  {
  }
}
