/**
 Jammed significands.  The kernel keeps, in place of an exact real `y`, an integer
 `s` whose low bits only say on which side of the rounding positions `y` lies.
*/
module Sticky {
  import opened Powers
  import opened Rounding

  /** `s` stands for `y` at granularity `g`: they are equal if `s` is a multiple of `g`,
      and otherwise lie strictly between the same two multiples. */
  ghost predicate Near(g: int, s: int, y: real)
    requires g > 0
  {
    if s % g == 0 then y == s as real
    else (s - s % g) as real < y < (s - s % g + g) as real
  }

  /** The least significant bit is set if any discarded bit was. */
  function Jam(s: int, sticky: bool): (z: int)
    ensures z == s || z == s + 1
  {
    if sticky && s % 2 == 0 then s + 1 else s
  }

  /** The exact quotient by 2^n, jammed. */
  function JamRight(a: int, n: nat): int {
    Jam(a / P2(n), a % P2(n) != 0)
  }

  // ---------------------------------------------------------------------------
  // Division with remainder

  /** Dividing by 2d is dividing by 2 and then by d. */
  lemma DivModTwice(a: int, d: int)
    requires d > 0
    ensures a / (2 * d) == (a / 2) / d
    ensures a % (2 * d) == a % 2 + 2 * ((a / 2) % d)
  {
    var h := a / 2;
    var q, r := h / d, h % d;
    assert h == q * d + r;
    assert a == q * (2 * d) + (a % 2 + 2 * r);
    DivModUnique(a, 2 * d, q, a % 2 + 2 * r);
  }

  // ---------------------------------------------------------------------------
  // How nearness is carried along

  /** A remainder by 2d is the remainder by d, or d more. */
  lemma ModDouble(a: int, d: int)
    requires d > 0
    ensures a % (2 * d) == a % d || a % (2 * d) == a % d + d
  {
    var q, r := a / (2 * d), a % (2 * d);
    assert a == q * (2 * d) + r == (2 * q) * d + r;
    if r < d {
      DivModUnique(a, d, 2 * q, r);
    } else {
      assert a == (2 * q + 1) * d + (r - d);
      DivModUnique(a, d, 2 * q + 1, r - d);
    }
  }

  lemma NearDouble(g: int, s: int, y: real)
    requires g > 0 && Near(g, s, y)
    ensures Near(2 * g, 2 * s, 2.0 * y)
  {
    DivModTwice(2 * s, g);
  }

  lemma NearCoarser(g: int, s: int, y: real)
    requires g > 0 && Near(g, s, y)
    ensures Near(2 * g, s, y)
  {
    ModDouble(s, g);
  }

  lemma {:induction false} NearShift(n: nat, s: int, y: real, s': int, y': real)
    requires Near(2, s, y)
    requires s' == s * P2(n) && y' == y * P2(n) as real
    ensures Near(P2(n + 1), s', y')
  {
    hide P2, Near;
    P2Step(n);
    if n == 0 {
      P2Constants();
    } else {
      P2Step(n - 1);
      var h, z := s * P2(n - 1), y * P2(n - 1) as real;
      NearShift(n - 1, s, y, h, z);
      TwiceProduct(s, P2(n - 1), P2(n));
      TwiceRealProduct(y, P2(n - 1) as real, P2(n) as real);
      NearTwice(P2(n), h, z, P2(n + 1), s', y');
    }
  }

  lemma NearTwice(g: int, h: int, z: real, g': int, s': int, y': real)
    requires g > 0 && Near(g, h, z) && g' == 2 * g && s' == 2 * h && y' == 2.0 * z
    ensures Near(g', s', y')
  {
    hide Near;
    NearDouble(g, h, z);
  }

  lemma TwiceProduct(a: int, p: int, q: int)
    requires q == 2 * p
    ensures a * q == 2 * (a * p)
  {
  }

  lemma TwiceRealProduct(a: real, p: real, q: real)
    requires q == 2.0 * p
    ensures a * q == 2.0 * (a * p)
  {
  }

  lemma {:induction false} NearCoarsest(n: nat, s: int, y: real)
    requires n <= 9 && Near(P2(n), s, y)
    ensures Near(512, s, y)
    decreases 9 - n
  {
    P2Constants();
    if n < 9 {
      P2Step(n);
      NearCoarser(P2(n), s, y);
      NearCoarsest(n + 1, s, y);
    }
  }

  /** The granularity that rounding needs survives a shift by up to eight places. */
  lemma NearShiftLeft(n: nat, s: int, y: real, s': int, y': real)
    requires n <= 8 && Near(2, s, y)
    requires s' == s * P2(n) && y' == y * P2(n) as real
    ensures Near(512, s', y')
  {
    hide Near, P2;
    NearShift(n, s, y, s', y');
    NearCoarsest(n + 1, s', y');
  }

  // ---------------------------------------------------------------------------
  // Jamming right shifts

  lemma JamHalfFine(a: int, y: real)
    requires Near(2, a, y)
    ensures Near(2, Jam(a / 2, a % 2 != 0), y / 2.0)
  {
  }

  lemma JamHalfCoarse(a: int, y: real)
    requires Near(512, a, y)
    ensures Near(512, Jam(a / 2, a % 2 != 0), y / 2.0)
  {
    hide Near, Jam;
    SplitTen(a);
    JamHalfAt(a / 1024, (a / 512) % 2, a % 512, y);
  }

  lemma SplitTen(a: int)
    ensures a == 1024 * (a / 1024) + 512 * ((a / 512) % 2) + a % 512
  {
    assert a / 1024 == (a / 512) / 2;
  }

  lemma JamHalfAt(j: int, b: int, r: int, y: real)
    requires 0 <= b <= 1 && 0 <= r < 512
    requires Near(512, 1024 * j + 512 * b + r, y)
    ensures var a := 1024 * j + 512 * b + r; Near(512, Jam(a / 2, a % 2 != 0), y / 2.0)
  {
    hide Near;
    var a, d := 1024 * j + 512 * b + r, 256 * b + r / 2;
    NearPlace(2 * j + b, r, y);
    JamOffset(256 * j, d, r % 2 != 0);
    assert a / 2 == 2 * (256 * j) + d && a % 2 == r % 2;
    NearMultiple(j, Jam(d, r % 2 != 0), y / 2.0);
  }

  lemma JamOffset(h: int, d: int, sticky: bool)
    ensures Jam(2 * h + d, sticky) == 2 * h + Jam(d, sticky)
  {
  }

  lemma NearPlace(k: int, r: int, y: real)
    requires 0 <= r < 512 && Near(512, 512 * k + r, y)
    ensures if r == 0 then y == (512 * k) as real else (512 * k) as real < y < (512 * k + 512) as real
  {
    assert (512 * k + r) % 512 == r;
  }

  lemma NearMultiple(j: int, c: int, y: real)
    requires 0 <= c < 512
    requires if c == 0 then y == (512 * j) as real else (512 * j) as real < y < (512 * j + 512) as real
    ensures Near(512, 512 * j + c, y)
  {
    assert (512 * j + c) % 512 == c;
  }

  lemma JamHalf(g: int, a: int, y: real)
    requires g == 2 || g == 512
    requires Near(g, a, y)
    ensures Near(g, Jam(a / 2, a % 2 != 0), y / 2.0)
  {
    hide Near;
    if g == 2 {
      JamHalfFine(a, y);
    } else {
      JamHalfCoarse(a, y);
    }
  }

  /** Setting the last bit changes neither the quotient by an even number nor,
      except from zero, whether there is a remainder. */
  lemma JamDivides(h: int, d: int, sticky: bool)
    requires d > 0 && d % 2 == 0
    ensures Jam(h, sticky) / d == h / d
    ensures Jam(h, sticky) % d != 0 <==> (h % d != 0 || sticky)
  {
    if sticky && h % 2 == 0 {
      var q, r := h / d, h % d;
      assert h == q * d + r;
      EvenRemainder(h, d);
      DivModUnique(h + 1, d, q, r + 1);
    } else if sticky {
      EvenRemainder(h, d);
    }
  }

  lemma EvenRemainder(h: int, d: int)
    requires d > 0 && d % 2 == 0
    ensures (h % d) % 2 == h % 2
  {
    var q, e := h / d, d / 2;
    assert h == q * d + h % d;
    assert q * d == 2 * (q * e);
  }

  /** Jamming shifts compose. */
  lemma JamRightStep(a: int, n: nat)
    requires n > 1
    ensures JamRight(a, n) == JamRight(Jam(a / 2, a % 2 != 0), n - 1)
  {
    hide P2;
    var d := P2(n - 1);
    P2Step(n - 1);
    P2Step(n - 2);
    DivModTwice(a, d);
    JamDivides(a / 2, d, a % 2 != 0);
  }

  /** A jamming shift keeps every comparison with the multiples of `g`. */
  lemma {:induction false} NearJamRight(g: int, a: int, n: nat, y: real)
    requires g == 2 || g == 512
    requires n > 0 && Near(g, a, y)
    ensures Near(g, JamRight(a, n), y / P2(n) as real)
    decreases n
  {
    JamHalf(g, a, y);
    if n == 1 {
      assert P2(n) == 2;
    } else {
      hide P2, Near;
      JamRightStep(a, n);
      NearJamRight(g, Jam(a / 2, a % 2 != 0), n - 1, y / 2.0);
      P2Step(n - 1);
      HalfQuotient(y, P2(n - 1) as real);
    }
  }

  lemma HalfQuotient(y: real, p: real)
    requires p > 0.0
    ensures y / 2.0 / p == y / (2.0 * p)
  {
  }

  // ---------------------------------------------------------------------------
  // Rounding the low ten bits away

  function RoundIncrement(mode: Mode, neg: bool): (inc: int)
    ensures inc == 0 || inc == 0x200 || inc == 0x3FF
  {
    if mode.NearEven? || mode.NearMaxMag? then 0x200
    else if mode.MinMag? || mode == (if neg then Max else Min) then 0
    else 0x3FF
  }

  /** The significand after the increment is added, the low bits dropped, and a
      tie sent to the even neighbour. */
  function RoundSig(mode: Mode, neg: bool, sig: int): int {
    var z := (sig + RoundIncrement(mode, neg)) / 0x400;
    if sig % 0x400 == 0x200 && mode.NearEven? then z - z % 2 else z
  }

  /** Adding the mode's increment and truncating rounds every real that the
      significand stands for. */
  lemma RoundSigCorrect(mode: Mode, neg: bool, sig: int, y: real)
    requires sig >= 0 && Near(512, sig, y)
    ensures RoundInt(mode, neg, y / 1024.0) == RoundSig(mode, neg, sig)
    ensures (y / 1024.0).Floor == sig / 0x400
    ensures y / 1024.0 == (y / 1024.0).Floor as real <==> sig % 0x400 == 0
  {
    var n, r := sig / 0x400, sig % 0x400;
    NearPosition(n, r, y);
    RoundSigUp(mode, neg, n, r);
    assert (y / 1024.0).Floor == n;
  }

  lemma RoundSigUp(mode: Mode, neg: bool, n: int, r: int)
    requires 0 <= r < 0x400
    ensures RoundSig(mode, neg, 0x400 * n + r) ==
            if r != 0 && GoesUp(mode, neg, n % 2 == 1, r as real, (0x400 - r) as real) then n + 1 else n
  {
    var s := 0x400 * n + r;
    assert s % 0x400 == r;
    assert (s + 0x200) / 0x400 == if r < 0x200 then n else n + 1;
    assert (s + 0x3FF) / 0x400 == if r == 0 then n else n + 1;
    assert s / 0x400 == n;
  }

  /** Where `y` lies relative to the rounding positions around it. */
  lemma NearPosition(n: int, r: int, y: real)
    requires 0 <= r < 0x400
    requires Near(512, 0x400 * n + r, y)
    ensures n as real <= y / 1024.0 < (n + 1) as real
    ensures r == 0 <==> y / 1024.0 == n as real
    ensures r < 0x200 <==> y / 1024.0 - n as real < (n + 1) as real - y / 1024.0
    ensures r == 0x200 <==> y / 1024.0 - n as real == (n + 1) as real - y / 1024.0
  {
    var s := 0x400 * n + r;
    if r < 0x200 {
      DivModUnique(s, 512, 2 * n, r);
      PositionIn(n, 0, r, y);
    } else {
      DivModUnique(s, 512, 2 * n + 1, r - 0x200);
      PositionIn(n, 0x200, r - 0x200, y);
    }
  }

  /** The place of `y` in the half that starts `h` above 1024n. */
  lemma PositionIn(n: int, h: int, d: int, y: real)
    requires (h == 0 || h == 0x200) && 0 <= d < 0x200
    requires if d == 0 then y == (0x400 * n + h) as real
                else (0x400 * n + h) as real < y < (0x400 * n + h + 512) as real
    ensures n as real <= y / 1024.0 < (n + 1) as real
    ensures h + d == 0 <==> y / 1024.0 == n as real
    ensures h + d < 0x200 <==> y / 1024.0 - n as real < (n + 1) as real - y / 1024.0
    ensures h + d == 0x200 <==> y / 1024.0 - n as real == (n + 1) as real - y / 1024.0
  {
  }
}
