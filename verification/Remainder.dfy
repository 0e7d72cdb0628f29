/** Double-precision remainder. */
module Remainder {
  import opened Machine
  import opened Powers
  import opened Rounding
  import opened Words
  import opened Shifts
  import opened Arith128
  import opened RoundPack
  import opened Kernel
  import opened Sum

  // ---------------------------------------------------------------------------
  // One reduction step

  /** `q` is the truncated quotient of sigA * 2^64 by sigB, or one or two less. */
  ghost predicate NearlyQuotient(sigA: int, sigB: int, q: int) {
    q >= 0 && sigB * q <= sigA * 0x1_0000_0000_0000_0000 < sigB * q + 3 * sigB
  }

  /** Two less than the estimate never exceeds the quotient. */
  lemma BackedOff(sigA: Word, sigB: Word, est: Word)
    requires 0x8000_0000_0000_0000 <= sigB
    requires var q := (sigA * 0x1_0000_0000_0000_0000 + 0) / sigB; q <= est <= q + 2
    ensures NearlyQuotient(sigA, sigB, if 2 < est then est - 2 else 0)
  {
    var a := sigA * 0x1_0000_0000_0000_0000;
    var q := a / sigB;
    var t := if 2 < est then est - 2 else 0;
    assert a == q * sigB + a % sigB;
    QuotientBound(a, sigB);
    assert q - 2 <= t <= q;
    ScaledOrder(sigB, t, q);
    BackedOffBy(sigB, q, t);
  }

  lemma BackedOffBy(b: int, q: int, t: int)
    requires b > 0 && q - 2 <= t <= q
    ensures b * q <= b * t + 2 * b
  {
    ScaledOrder(b, q - t, 2);
    assert b * (q - t) == b * q - b * t;
  }

  lemma WrapNegated(x: int)
    ensures Wrap(0 - Wrap(x)) == Wrap(-x)
  {
    var n := 0x1_0000_0000_0000_0000;
    var q, r := x / n, x % n;
    if r == 0 {
      DivModUnique(-x, n, -q, 0);
    } else {
      DivModUnique(-x, n, -q - 1, n - r);
      DivModUnique(-r, n, -1, n - r);
    }
  }

  /** Sixty-two bits of the quotient are taken off; the word arithmetic loses nothing. */
  lemma ReduceStep(sigA: Word, sigB: Word, q: Word)
    requires sigA < sigB && sigA % 4 == 0 && sigB % 16 == 0
    requires NearlyQuotient(sigA, sigB, q)
    ensures var t := Wrap(0 - Wrap((sigB / 4) * q));
            t == sigA * 0x4000_0000_0000_0000 - (sigB / 4) * q && t < sigB && t % 4 == 0
  {
    hide Wrap;
    EvenHalves(sigA, sigB);
    var h, m := sigB / 4, sigB / 16;
    FourFold(h, q, sigB);
    FourFold(m, q, h);
    var t := sigA * 0x4000_0000_0000_0000 - h * q;
    WrapNegated(h * q);
    WrapIs(-(h * q), -(sigA / 4), t);
    DivModUnique(t, 4, (sigA / 4) * 0x4000_0000_0000_0000 - m * q, 0);
  }

  lemma WrapIs(x: int, k: int, t: int)
    requires x == k * 0x1_0000_0000_0000_0000 + t && 0 <= t < 0x1_0000_0000_0000_0000
    ensures Wrap(x) == t
  {
    DivModUnique(x, 0x1_0000_0000_0000_0000, k, t);
  }

  // ---------------------------------------------------------------------------
  // The last quotient bits

  /** Keeping only the top bits of the quotient still leaves less than three divisors. */
  lemma LastBits(sigA: int, sigB: int, q: int, p: int, g: int, qs: int)
    requires sigA >= 0 && sigB > 0 && p > 0 && g > 0 && p * g == 0x1_0000_0000_0000_0000
    requires NearlyQuotient(sigA, sigB, q) && qs == q / g
    ensures sigB * qs <= sigA * p < sigB * qs + 3 * sigB
  {
    assert q == qs * g + q % g;
    assert sigA * 0x1_0000_0000_0000_0000 == (sigA * p) * g by { Associate(sigA, p, g); }
    LastLower(sigB, q, qs, g, sigA * p);
    LastUpper(sigB, q, qs, g, sigA * p);
  }

  lemma LastLower(b: int, q: int, qs: int, g: int, a: int)
    requires b > 0 && g > 0 && qs * g <= q && b * q <= a * g
    ensures b * qs <= a
  {
    ScaledOrderAny(b, qs * g, q);
    Associate(b, qs, g);
    NotGreater(b * qs, a, g);
  }

  lemma LastUpper(b: int, q: int, qs: int, g: int, a: int)
    requires b > 0 && g > 0 && q < qs * g + g && a * g < b * q + 3 * b
    ensures a < b * qs + 3 * b
  {
    assert q + 3 <= qs * g + g + 2 * g;
    assert qs * g + g + 2 * g == (qs + 3) * g;
    ScaledOrderAny(b, q + 3, (qs + 3) * g);
    assert b * (q + 3) == b * q + 3 * b;
    Associate(b, qs + 3, g);
    FactorLess(a, b * (qs + 3), g);
    assert b * (qs + 3) == b * qs + 3 * b;
  }

  lemma ScaledOrderAny(k: int, x: int, y: int)
    requires 0 <= k && x <= y
    ensures k * x <= k * y
  {
  }

  lemma NotGreater(x: int, y: int, g: int)
    requires g > 0 && x * g <= y * g
    ensures x <= y
  {
  }

  lemma LastStep(sigA: Word, sigB: Word, q: Word, d: nat)
    requires 0 < d <= 64 && sigA < sigB && sigA % 4 == 0 && sigB % 16 == 0
    requires NearlyQuotient(sigA, sigB, q)
    ensures var qs := ShiftRight(q, 64 - d);
            var t := Wrap(ShiftLeft(sigA / 2, d - 1) - Wrap((sigB / 4) * qs));
            && sigA * P2(d) == sigB * qs + 4 * t
            && t < 3 * (sigB / 4)
  {
    hide P2, Wrap, NearlyQuotient;
    EvenHalves(sigA, sigB);
    var qs := q / P2(64 - d);
    P2Complement(d);
    LastBits(sigA, sigB, q, P2(d), P2(64 - d), qs);
    P2Step(d - 1);
    var w, h := sigA / 2, sigB / 4;
    var x, y := w * P2(d - 1), h * qs;
    FourTimes(w, P2(d - 1), sigA, P2(d));
    FourFold(h, qs, sigB);
    WrapDifference(x, y, x - y);
  }

  lemma EvenHalves(a: int, b: int)
    requires a % 4 == 0 && b % 16 == 0
    ensures a == 2 * (a / 2) && b == 4 * (b / 4) && b / 4 == 4 * (b / 16)
  {
    DivModUnique(a, 2, 2 * (a / 4), 0);
    DivModUnique(b, 4, 4 * (b / 16), 0);
  }

  lemma FourTimes(w: int, e: int, a: int, p: int)
    requires a == 2 * w && p == 2 * e
    ensures a * p == 4 * (w * e)
  {
  }

  lemma FourFold(h: int, q: int, b: int)
    requires b == 4 * h
    ensures b * q == 4 * (h * q)
  {
  }

  lemma WrapDifference(x: int, y: int, t: int)
    requires t == x - y && 0 <= t < 0x1_0000_0000_0000_0000
    ensures Wrap(Wrap(x) - Wrap(y)) == t
  {
    var n := 0x1_0000_0000_0000_0000;
    var k := y / n - x / n;
    assert x == x / n * n + x % n && y == y / n * n + y % n;
    WrapIs(Wrap(x) - Wrap(y), k, t);
  }

  // ---------------------------------------------------------------------------
  // The whole reduction

  /** The original dividend is `n` divisors and `r`, scaled by 2^d. */
  ghost predicate Reduced(a: int, b: int, n: int, r: int, d: nat) {
    a == n * b + r * P2(d)
  }

  lemma ReducedStart(sigA: int, b: int, d: nat, q: int)
    requires q == 0 || q == 1
    ensures Reduced(sigA * P2(d), b, q * P2(d), sigA - q * b, d)
    ensures d > 0 ==> (q * P2(d)) % 2 == 0
    ensures d == 0 ==> q * P2(d) == q
  {
    if d > 0 {
      P2Step(d - 1);
      EvenFactor(q, P2(d - 1));
    }
  }

  lemma ReducedStep(a: int, b: int, n: int, r: int, d: nat, q: int, t: int)
    requires Reduced(a, b, n, r, d) && d > 64 && b % 16 == 0
    requires t == r * 0x4000_0000_0000_0000 - (b / 4) * q
    ensures Reduced(a, b, n + q * P2(d - 64), t, d - 62)
    ensures (q * P2(d - 64)) % 2 == 0
  {
    hide P2;
    P2Constants();
    P2Add(62, d - 62);
    P2Add(2, d - 64);
    P2Small();
    P2Step(d - 65);
    EvenFactor(q, P2(d - 65));
    EvenHalves(0, b);
    StepAlgebra(b, b / 4, n, r, q, t, P2(d), P2(d - 62), P2(d - 64));
  }

  lemma StepAlgebra(b: int, h: int, n: int, r: int, q: int, t: int, p: int, p62: int, p64: int)
    requires b == 4 * h && p == 0x4000_0000_0000_0000 * p62 && p62 == 4 * p64
    requires t == r * 0x4000_0000_0000_0000 - h * q
    ensures n * b + r * p == (n + q * p64) * b + t * p62
  {
    assert t * p62 == (r * 0x4000_0000_0000_0000) * p62 - (h * q) * p62;
    assert (r * 0x4000_0000_0000_0000) * p62 == r * p;
    assert (h * q) * (4 * p64) == (q * p64) * (4 * h);
    assert (n + q * p64) * b == n * b + (q * p64) * b;
  }

  lemma ReducedLast(a: int, b: int, n: int, r: int, d: nat, qs: int, t: int)
    requires Reduced(a, b, n, r, d) && r * P2(d) == b * qs + 4 * t
    ensures a == (n + qs) * b + 4 * t
  {
    assert (n + qs) * b == n * b + b * qs;
  }

  function SignedInt(neg: bool, m: int): int { if neg then -m else m }

  /** The dividend is `n` divisors and the remainder, both in quarters. */
  ghost predicate Leaves(a: int, b: int, n: int, r: int) {
    a == n * (4 * b) + 4 * r
  }

  lemma OneMore(a: int, b: int, n: int, r: int)
    requires Leaves(a, b, n, r)
    ensures Leaves(a, b, n + 1, r - b) && Leaves(a, b, n - 1, r + b)
  {
    assert (n + 1) * (4 * b) == n * (4 * b) + 4 * b;
    assert (n - 1) * (4 * b) == n * (4 * b) - 4 * b;
  }

  /** A word holding a signed number. */
  lemma TwosComplement(r: int)
    requires -0x8000_0000_0000_0000 <= r < 0x8000_0000_0000_0000
    ensures Wrap(r) >= 0x8000_0000_0000_0000 <==> r < 0
    ensures r >= 0 ==> Wrap(r) == r
    ensures r < 0 ==> Wrap(0 - Wrap(r)) == -r
  {
  }

  lemma WrapSum(r: int, d: int)
    ensures Wrap(Wrap(r) + d) == Wrap(r + d)
  {
    var n := 0x1_0000_0000_0000_0000;
    var k := r / n;
    var m := (Wrap(r) + d) / n;
    DivModUnique(r + d, n, k + m, (Wrap(r) + d) % n);
  }

  ghost predicate SameParity(n: int, q: int) { n % 2 == q % 2 }

  lemma NextParity(n: int, q: Word)
    requires SameParity(n, q)
    ensures SameParity(n + 1, Wrap(q + 1))
  {
    assert Wrap(q + 1) == q + 1 || (q % 2 == 1 && Wrap(q + 1) == 0);
  }

  lemma ReadParity(n: int, q: Word)
    requires SameParity(n, q)
    ensures q % 2 == 1 <==> (n - 1) % 2 == 0
    ensures q % 2 != 1 <==> n % 2 == 0
  {
  }

  /** Subtracts divisors until the remainder turns negative, then keeps whichever of the
      last two is nearer to zero, or the one with the even quotient. */
  method NearestRemainder(sigA0: Word, sigB: Word, q0: Word, ghost a: int, ghost n0: int)
    returns (signZ: bool, sigZ: Word, ghost n: int)
    requires 0x2000_0000_0000_0000 <= sigB < 0x4000_0000_0000_0000
    requires sigA0 < 3 * sigB && Leaves(a, sigB, n0, sigA0) && SameParity(n0, q0)
    ensures Leaves(a, sigB, n, SignedInt(signZ, sigZ))
    ensures 2 * sigZ <= sigB && (2 * sigZ == sigB ==> n % 2 == 0)
    ensures signZ ==> sigZ > 0
  {
    hide Wrap, Leaves, SameParity;
    var q, sigA, alternateSigA := q0, sigA0, sigA0;
    ghost var r: int := sigA0 as int - sigB;
    n := n0 + 1;
    OneMore(a, sigB, n0, sigA0);
    NextParity(n0, q);
    TwosComplement(r);
    q := Wrap(q as int + 1);
    sigA := Wrap(sigA as int - sigB);
    while sigA < 0x8000_0000_0000_0000
      invariant 0 <= r + sigB < 3 * sigB && sigA == Wrap(r) && alternateSigA == r + sigB
      invariant sigA >= 0x8000_0000_0000_0000 <==> r < 0
      invariant Leaves(a, sigB, n, r)
      invariant SameParity(n, q)
      decreases r + sigB
    {
      TwosComplement(r);
      alternateSigA := sigA;
      NextParity(n, q);
      q := Wrap(q as int + 1);
      sigA := Wrap(sigA as int - sigB);
      OneMore(a, sigB, n, r);
      r, n := r - sigB, n + 1;
      TwosComplement(r);
    }
    var sigMean := Wrap(sigA as int + alternateSigA);
    WrapSum(r, alternateSigA);
    TwosComplement(r + alternateSigA);
    ReadParity(n, q);
    if 0x8000_0000_0000_0000 <= sigMean || (sigMean == 0 && q % 2 == 1) {
      sigA := alternateSigA;
      OneMore(a, sigB, n, r);
      r, n := r + sigB, n - 1;
    }
    TwosComplement(r);
    signZ := 0x8000_0000_0000_0000 <= sigA;
    sigZ := if signZ then Wrap(0 - sigA as int) else sigA;
  }

  /** Reduces sigA * 2^expDiff by sigB, 62 quotient bits at a time; an exponent
      difference of -1 has already been applied to sigA. */
  method Reduce(sigA0: Word, sigB0: Word, expDiff0: int) returns (signZ: bool, sigZ: Word, ghost n: int)
    requires 0x8000_0000_0000_0000 <= sigB0 && sigB0 % 16 == 0 && sigA0 % 16 == 0
    requires expDiff0 >= -1
    ensures Leaves(sigA0 * P2(if expDiff0 < 0 then 0 else expDiff0), sigB0 / 4, n, SignedInt(signZ, sigZ))
    ensures 2 * sigZ <= sigB0 / 4 && (2 * sigZ == sigB0 / 4 ==> n % 2 == 0)
    ensures signZ ==> sigZ > 0
  {
    hide P2, Wrap, Leaves, Reduced, NearlyQuotient, ShiftLeft, ShiftRight, SameParity;
    var sigA: Word, sigB: Word, expDiff := sigA0, sigB0, expDiff0;
    ghost var d: nat := if expDiff0 < 0 then 0 else expDiff0;
    ghost var a := sigA0 * P2(d);
    var q: Word := if sigB <= sigA then 1 else 0;
    ReducedStart(sigA, sigB, d, q);
    n := q * P2(d);
    if q != 0 {
      sigA := sigA - sigB;
    }
    MultipleOfFour(sigA0, sigB0, sigA);
    assert d > 0 ==> n % 2 == 0;
    expDiff := expDiff - 64;
    while 0 < expDiff
      invariant Reduced(a, sigB, n, sigA, d)
      invariant d == (if expDiff + 64 < 0 then 0 else expDiff + 64)
      invariant sigA < sigB && sigA % 4 == 0
      invariant d > 0 ==> n % 2 == 0
      invariant d == 0 ==> n == q
      decreases expDiff
    {
      ghost var rounds;
      q, rounds := EstimateDiv128To64(sigA, 0, sigB);
      BackedOff(sigA, sigB, q);
      q := if 2 < q then q - 2 else 0;
      ReduceStep(sigA, sigB, q);
      ReducedStep(a, sigB, n, sigA, d, q, Wrap(0 - Wrap((sigB / 4) * q)));
      EvenSum(n, q * P2(d - 64));
      n := n + q * P2(d - 64);
      d := d - 62;
      sigA := Wrap(0 - Wrap((sigB / 4) * q));
      expDiff := expDiff - 62;
    }
    expDiff := expDiff + 64;
    if 0 < expDiff {
      ghost var rounds;
      q, rounds := EstimateDiv128To64(sigA, 0, sigB);
      BackedOff(sigA, sigB, q);
      q := if 2 < q then q - 2 else 0;
      LastStep(sigA, sigB, q, expDiff);
      q := ShiftRight(q, 64 - expDiff);
      ghost var t := Wrap(ShiftLeft(sigA / 2, expDiff - 1) - Wrap((sigB / 4) * q));
      LastLeaves(a, sigB, n, sigA, d, q, t);
      sigB := sigB / 4;
      sigA := Wrap(ShiftLeft(sigA / 2, expDiff - 1) - Wrap(sigB * q));
      n := n + q;
    } else {
      QuarterLeaves(a, sigB, n, sigA, d, q);
      sigA := sigA / 4;
      sigB := sigB / 4;
    }
    signZ, sigZ, n := NearestRemainder(sigA, sigB, q, a, n);
  }

  lemma MultipleOfFour(sigA0: Word, sigB0: Word, sigA: int)
    requires 0x8000_0000_0000_0000 <= sigB0 && sigB0 % 16 == 0 && sigA0 % 16 == 0
    requires sigA == if sigB0 <= sigA0 then sigA0 - sigB0 else sigA0
    ensures 0 <= sigA < sigB0 && sigA % 4 == 0
  {
    DivModUnique(sigA0, 4, 4 * (sigA0 / 16), 0);
    DivModUnique(sigA0 - sigB0, 4, 4 * (sigA0 / 16) - 4 * (sigB0 / 16), 0);
  }

  lemma EvenSum(n: int, m: int)
    requires n % 2 == 0 && m % 2 == 0
    ensures (n + m) % 2 == 0
  {
  }

  lemma LastLeaves(a: int, b: Word, n: int, r: int, d: nat, q: Word, t: Word)
    requires Reduced(a, b, n, r, d) && r * P2(d) == b * q + 4 * t && b % 16 == 0 && n % 2 == 0
    ensures Leaves(a, b / 4, n + q, t) && SameParity(n + q, q)
  {
    hide P2;
    ReducedLast(a, b, n, r, d, q, t);
    EvenHalves(0, b);
    var h := n / 2;
    assert n + q == 2 * h + q;
    EvenOffset(h, q);
  }

  lemma QuarterLeaves(a: int, b: Word, n: int, r: Word, d: nat, q: Word)
    requires Reduced(a, b, n, r, d) && d == 0 && n == q && b % 16 == 0 && r % 4 == 0
    ensures Leaves(a, b / 4, n, r / 4) && SameParity(n, q)
  {
    assert P2(0) == 1;
    EvenHalves(0, b);
  }

  // ---------------------------------------------------------------------------
  // From integers to values

  /** An integer within half of a real, or at half and even, is what it rounds to. */
  lemma NearestUnique(y: real, m: int)
    requires -0.5 <= y - m as real <= 0.5
    requires (y - m as real == 0.5 || y - m as real == -0.5) ==> m % 2 == 0
    ensures RoundInt(NearEven, false, y) == m
  {
    if y >= m as real {
      assert y.Floor == m;
    } else {
      assert y.Floor == m - 1;
    }
  }

  /** The quotient of the magnitudes differs from `n` by the remainder over the divisor. */
  lemma NearestQuotient(a: real, b: real, n: int, r: real)
    requires b > 0.0 && a == n as real * b + r
    requires -b <= 2.0 * r <= b && ((2.0 * r == b || 2.0 * r == -b) ==> n % 2 == 0)
    ensures RoundInt(NearEven, false, a / b) == n
    ensures RoundInt(NearEven, false, -(a / b)) == -n
  {
    hide RoundInt;
    var y := a / b;
    var e := y - n as real;
    assert y * b == a;
    assert e * b == r;
    FractionBounds(e, b, r);
    NearestUnique(y, n);
    NearestUnique(-y, -n);
  }

  lemma FractionBounds(e: real, b: real, r: real)
    requires b > 0.0 && e * b == r && -b <= 2.0 * r <= b
    ensures -0.5 <= e <= 0.5
    ensures e == 0.5 <==> 2.0 * r == b
    ensures e == -0.5 <==> 2.0 * r == -b
  {
  }

  /** The exact dividend in the unit of the divisor's shifted significand. */
  lemma DividendUnit(fa: int, ea: int, eb: int, sigA: int, d: nat)
    requires (ea >= eb && d == ea - eb && sigA == fa * 0x800) || (ea == eb - 1 && d == 0 && sigA == fa * 0x400)
    ensures fa as real * Exp2(ea - 1075) == (sigA * P2(d)) as real * Exp2(eb - 1086)
  {
    hide Exp2, P2;
    P2Constants();
    if ea >= eb {
      Exp2Add(eb - 1086, 11 + d);
      Exp2Nat(11 + d);
      P2Add(11, d);
      assert eb - 1086 + (11 + d) == ea - 1075;
      Associate(fa, 0x800, P2(d));
      RealAssociate(fa, P2(11 + d), sigA * P2(d), Exp2(eb - 1086), Exp2(ea - 1075));
    } else {
      Exp2Add(eb - 1086, 10);
      Exp2Nat(10);
      assert eb - 1086 + 10 == ea - 1075;
      RealAssociate(fa, 0x400, sigA, Exp2(eb - 1086), Exp2(ea - 1075));
    }
  }

  lemma DivisorUnit(fb: int, eb: int)
    ensures fb as real * Exp2(eb - 1075) == (fb * 0x800) as real * Exp2(eb - 1086)
  {
    hide Exp2, P2;
    P2Constants();
    Exp2Add(eb - 1086, 11);
    Exp2Nat(11);
    RealAssociate(fb, 0x800, fb * 0x800, Exp2(eb - 1086), Exp2(eb - 1075));
  }

  /** `n` is the nearest integer to the quotient, the even one in a tie, and `t` what is left. */
  ghost predicate NearestMultiple(av: real, bv: real, n: int, t: real) {
    && bv > 0.0 && av == n as real * bv + t && -bv <= 2.0 * t <= bv
    && RoundInt(NearEven, false, av / bv) == n && RoundInt(NearEven, false, -(av / bv)) == -n
  }

  /** What the integer reduction means for the magnitudes. */
  lemma RemainderMeans(av: real, bv: real, a: int, sigB: Word, eb: int, n: int, r: int, t: real)
    requires 0x8000_0000_0000_0000 <= sigB && sigB % 16 == 0
    requires av == a as real * Exp2(eb - 1086) && bv == sigB as real * Exp2(eb - 1086)
    requires Leaves(a, sigB / 4, n, r) && t == r as real * Exp2(eb - 1084)
    requires -(sigB / 4) <= 2 * r <= sigB / 4 && ((2 * r == sigB / 4 || 2 * r == -(sigB / 4)) ==> n % 2 == 0)
    ensures NearestMultiple(av, bv, n, t)
  {
    hide Exp2, RoundInt, Leaves;
    RemainderParts(av, bv, a, sigB, eb, n, r);
  }

  lemma RemainderParts(av: real, bv: real, a: int, sigB: Word, eb: int, n: int, r: int)
    requires 0x8000_0000_0000_0000 <= sigB && sigB % 16 == 0
    requires av == a as real * Exp2(eb - 1086) && bv == sigB as real * Exp2(eb - 1086)
    requires Leaves(a, sigB / 4, n, r)
    requires -(sigB / 4) <= 2 * r <= sigB / 4 && ((2 * r == sigB / 4 || 2 * r == -(sigB / 4)) ==> n % 2 == 0)
    ensures bv > 0.0
    ensures av == n as real * bv + r as real * Exp2(eb - 1084)
    ensures -bv <= 2.0 * (r as real * Exp2(eb - 1084)) <= bv
    ensures RoundInt(NearEven, false, av / bv) == n && RoundInt(NearEven, false, -(av / bv)) == -n
  {
    hide Exp2, RoundInt;
    EvenHalves(0, sigB);
    var u := Exp2(eb - 1086);
    Exp2Step(eb - 1086);
    Exp2Step(eb - 1085);
    assert a == n * sigB + 4 * r;
    UnitAlgebra(a, n, sigB, r, u);
    var h := sigB / 4;
    UnitBounds(h, r, u);
    var t := r as real * Exp2(eb - 1084);
    assert t == 4.0 * (r as real * u) && bv == 4.0 * (h as real * u);
    NearestQuotient(av, bv, n, t);
  }

  lemma UnitAlgebra(a: int, n: int, b: int, r: int, u: real)
    requires a == n * b + 4 * r
    ensures a as real * u == n as real * (b as real * u) + 4.0 * (r as real * u)
  {
    RealOfProduct(n, b);
    assert (n as real * b as real) * u == n as real * (b as real * u);
  }

  lemma UnitBounds(h: int, r: int, u: real)
    requires u > 0.0 && h > 0 && -h <= 2 * r <= h
    ensures h as real * u > 0.0
    ensures -(h as real * u) <= 2.0 * (r as real * u) <= h as real * u
    ensures 2.0 * (r as real * u) == h as real * u <==> 2 * r == h
    ensures 2.0 * (r as real * u) == -(h as real * u) <==> 2 * r == -h
  {
    var x, y := 2.0 * r as real, h as real;
    Positive(y, u);
    ScaleCompare(x, y, u);
    ScaleCompare(x, -y, u);
    assert x * u == 2.0 * (r as real * u);
    assert (-y) * u == -(y * u);
  }

  lemma ScaleCompare(x: real, y: real, u: real)
    requires u > 0.0
    ensures x <= y <==> x * u <= y * u
    ensures x == y <==> x * u == y * u
    ensures x >= y <==> x * u >= y * u
  {
  }

  // ---------------------------------------------------------------------------
  // The remainder is representable

  /** Every finite magnitude is a multiple of the smallest one. */
  lemma Integral(ui: Word, e: int) returns (k: int)
    requires IsFinite(ui) && e == -1074
    ensures k >= 0 && AbsValue(ui) == k as real * Exp2(e)
  {
    hide Exp2, P2;
    FieldsOf(ui);
    var x, f, m := ExpOf(ui), FracOf(ui), ui % 0x8000_0000_0000_0000;
    assert m / 0x10_0000_0000_0000 == x && m % 0x10_0000_0000_0000 == f;
    if x == 0 {
      k := f;
      assert x - 1074 == e;
    } else {
      var g := f + 0x10_0000_0000_0000;
      Exp2Add(e, x - 1);
      Exp2Nat(x - 1);
      assert e + (x - 1) == x - 1075;
      k := g * P2(x - 1);
      ScaledOrder(g, 0, P2(x - 1));
      RealAssociate(g, P2(x - 1), k, Exp2(e), Exp2(x - 1075));
    }
  }

  /** A divisor near the subnormal range: the remainder has few bits. */
  lemma SmallRemainder(a: Word, b: Word, fb: int, eb: int, n: int, t: real, x: real) returns (enc: int)
    requires IsFinite(a) && IsFinite(b) && eb <= 1 && 0 < fb < 0x20_0000_0000_0000
    requires AbsValue(b) == fb as real * Exp2(eb - 1075)
    requires AbsValue(a) == n as real * AbsValue(b) + t && x == (if t < 0.0 then -t else t) && 2.0 * x <= AbsValue(b)
    ensures 0 <= enc <= 0x7FEF_FFFF_FFFF_FFFF && Mag(enc) == x
  {
    hide Exp2, Mag, AbsValue;
    var e := -1074;
    var u := Exp2(e);
    var ka := Integral(a, e);
    var kb := Integral(b, e);
    var k := ka - n * kb;
    Exp2Monotone(eb - 1075, e);
    ProductOrder(fb as real, fb as real, Exp2(eb - 1075), u);
    IntegralDifference(ka, n, kb, u);
    assert t == k as real * u;
    var m := if k < 0 then -k else k;
    MagnitudeScaled(k, u, t, x, m);
    SmallMultiple53(m, u, x, fb);
    enc := Representable(m, e);
  }

  lemma IntegralDifference(ka: int, n: int, kb: int, u: real)
    ensures ka as real * u - n as real * (kb as real * u) == (ka - n * kb) as real * u
  {
    RealOfProduct(n, kb);
    assert (n as real * kb as real) * u == n as real * (kb as real * u);
    assert (ka - n * kb) as real == ka as real - n as real * kb as real;
  }

  lemma MagnitudeScaled(k: int, u: real, t: real, x: real, m: int)
    requires u > 0.0 && t == k as real * u && x == (if t < 0.0 then -t else t) && m == (if k < 0 then -k else k)
    ensures x == m as real * u
  {
    if k > 0 {
      Positive(k as real, u);
    } else if k < 0 {
      Positive(-(k as real), u);
      assert (-(k as real)) * u == -(k as real * u);
    }
  }

  lemma SmallMultiple53(m: int, u: real, x: real, fb: int)
    requires u > 0.0 && x == m as real * u && 2.0 * x <= fb as real * u && 0 < fb < 0x20_0000_0000_0000
    ensures m < 0x20_0000_0000_0000
  {
    ScaleCompare(2.0 * m as real, fb as real, u);
    assert (2.0 * m as real) * u == 2.0 * x;
  }

  /** A normal divisor: the remainder is a multiple of its last place, or of half. */
  lemma LargeRemainder(sigA: Word, sigB: Word, d: nat, eb: int, n: int, r: int, sigZ: int) returns (enc: int)
    requires sigA % 1024 == 0 && sigB % 2048 == 0 && 2 <= eb <= 0x7FE
    requires Leaves(sigA * P2(d), sigB / 4, n, r) && (r == sigZ || r == -sigZ) && 0 <= sigZ && 2 * sigZ <= sigB / 4
    ensures 0 <= enc <= 0x7FEF_FFFF_FFFF_FFFF && Mag(enc) == sigZ as real * Exp2(eb - 1084)
  {
    hide Exp2, P2, Mag;
    var m := LowBitsClear(sigA, sigB, P2(d), n, r, sigZ);
    Exp2Add(eb - 1084, 8);
    Exp2Nat(8);
    P2Small();
    assert eb - 1084 + 8 == eb - 1076;
    RealAssociate(m, 256, sigZ, Exp2(eb - 1084), Exp2(eb - 1076));
    enc := Representable(m, eb - 1076);
  }

  lemma LowBitsClear(sigA: Word, sigB: Word, p: int, n: int, r: int, sigZ: int) returns (m: int)
    requires sigA % 1024 == 0 && sigB % 2048 == 0
    requires Leaves(sigA * p, sigB / 4, n, r) && (r == sigZ || r == -sigZ) && 0 <= sigZ && 2 * sigZ <= sigB / 4
    ensures sigZ == m * 256 && 0 <= m < 0x20_0000_0000_0000
  {
    var j, k := sigA / 1024, sigB / 2048;
    DivModUnique(sigB, 4, 512 * k, 0);
    var w := j * p - 2 * (n * k);
    assert sigA * p == 1024 * (j * p) by { assert sigA == 1024 * j; assert (1024 * j) * p == 1024 * (j * p); }
    assert n * (4 * (512 * k)) == 2048 * (n * k);
    assert r == 256 * w;
    m := if r == sigZ then w else -w;
  }

  // ---------------------------------------------------------------------------

  /** The shared scale of the operands. */
  lemma RemSetup(a: Word, ea: ExpSig, b: Word, eb: ExpSig) returns (fa: int, fb: int)
    requires Operand(a, ea) && Operand(b, eb)
    ensures IsFinite(a) && IsFinite(b) && -51 <= ea.exp <= 0x7FE && -51 <= eb.exp <= 0x7FE
    ensures 0x10_0000_0000_0000 <= fa < 0x20_0000_0000_0000 && 0x10_0000_0000_0000 <= fb < 0x20_0000_0000_0000
    ensures AbsValue(a) == fa as real * Exp2(ea.exp - 1075) && AbsValue(b) == fb as real * Exp2(eb.exp - 1075)
    ensures ShiftLeft(Or(ea.sig, 0x10_0000_0000_0000), 11) == fa * 0x800
    ensures ShiftLeft(Or(eb.sig, 0x10_0000_0000_0000), 11) == fb * 0x800
  {
    hide Exp2, P2, AbsValue, Or, Operand, ShiftLeft;
    P2Constants();
    fa := OperandValue(a, ea, 11);
    fb := OperandValue(b, eb, 11);
  }

  /** A dividend of less than half the divisor is its own remainder. */
  lemma TooSmall(av: real, bv: real, fa: int, ea: int, fb: int, eb: int)
    requires 0 < fa < 0x20_0000_0000_0000 && 0x10_0000_0000_0000 <= fb && ea < eb - 1
    requires av == fa as real * Exp2(ea - 1075) && bv == fb as real * Exp2(eb - 1075)
    ensures NearestMultiple(av, bv, 0, av)
  {
    hide Exp2, RoundInt;
    var n := 0;
    var u := Exp2(ea - 1075);
    Exp2Step(ea - 1075);
    Exp2Step(ea - 1074);
    Exp2Monotone(ea - 1073, eb - 1075);
    ProductOrder(4503599627370496.0, fb as real, Exp2(ea - 1073), Exp2(eb - 1075));
    StrictProduct(fa as real, 9007199254740992.0, u);
    Positive(fa as real, u);
    assert bv >= 4503599627370496.0 * (4.0 * u);
    assert av < 9007199254740992.0 * u;
    NearestQuotient(av, bv, n, av);
  }

  /** `z` is a - n * b with n the integer nearest to a / b, ties going to even; a zero
      remainder has the sign of `a`. */
  ghost predicate IsRemainder(z: Word, a: Word, b: Word)
    requires IsFinite(a) && IsFinite(b) && Value(b) != 0.0
  {
    var n := RoundInt(NearEven, false, Value(a) / Value(b));
    && IsFinite(z)
    && Value(z) == Value(a) - n as real * Value(b)
    && (Value(z) == 0.0 ==> SignOf(z) == SignOf(a))
  }

  lemma SignedRemainder(z: Word, a: Word, b: Word, av: real, bv: real, n: int, t: real)
    requires IsFinite(a) && IsFinite(b) && IsFinite(z)
    requires av == AbsValue(a) && bv == AbsValue(b) && NearestMultiple(av, bv, n, t)
    requires Value(z) == (if SignOf(a) then -t else t) && (t == 0.0 ==> SignOf(z) == SignOf(a))
    ensures Value(b) != 0.0 && IsRemainder(z, a, b)
  {
    hide AbsValue, RoundInt, SignOf, IsFinite;
    SignedQuotients(av, bv);
    var m := RoundInt(NearEven, false, Value(a) / Value(b));
    assert m == if SignOf(a) == SignOf(b) then n else -n;
    assert m as real * Value(b) == (if SignOf(a) then -(n as real * bv) else n as real * bv);
  }

  lemma SignedQuotients(p: real, q: real)
    requires q > 0.0
    ensures (-p) / q == -(p / q) && p / (-q) == -(p / q) && (-p) / (-q) == p / q
  {
    var t := p / q;
    assert t * q == p;
    assert (-t) * q == -p && (-t) * (-q) == p && t * (-q) == -p;
  }

  /** The packed result denotes the remainder exactly. */
  lemma PackedRemainder(mode: Mode, tininess: Tininess, z: Word, signA: bool, signZ: bool, t: real, x: real, enc: int)
    requires x >= 0.0 && t == (if signZ then -x else x) && (signZ ==> x > 0.0)
    requires 0 <= enc <= 0x7FEF_FFFF_FFFF_FFFF && Mag(enc) == x
    requires z == Rounded(mode, signA != signZ, x)
    ensures RoundFlags(mode, tininess, signA != signZ, x) == {}
    ensures IsFinite(z) && Value(z) == (if signA then -t else t) && (t == 0.0 ==> SignOf(z) == signA)
  {
    hide Mag, Rounded, RoundFlags, RoundReal, RealFlags;
    var neg := signA != signZ;
    var v := if neg then -x else x;
    RoundSigned(mode, tininess, neg, x, v);
    RoundRealExact(mode, tininess, neg, v, enc);
  }

  method RemNonzero(s: FloatState, a: Word, ea: ExpSig, b: Word, eb: ExpSig) returns (z: Word)
    requires Operand(a, ea) && Operand(b, eb)
    modifies s`exceptionFlags
    ensures IsFinite(a) && IsFinite(b) && Value(b) != 0.0 && IsRemainder(z, a, b)
    ensures s.exceptionFlags == old(s.exceptionFlags)
  {
    hide Exp2, P2, AbsValue, Value, Or, Operand, ShiftLeft, Leaves, IsRemainder, NearestMultiple, Mag, Rounded,
         RoundFlags, Aligned, SignOf, IsFinite;
    ghost var fa, fb := RemSetup(a, ea, b, eb);
    ghost var av, bv := AbsValue(a), AbsValue(b);
    var expDiff := ea.exp - eb.exp;
    var sigA := ShiftLeft(Or(ea.sig, 0x10_0000_0000_0000), 11);
    var sigB := ShiftLeft(Or(eb.sig, 0x10_0000_0000_0000), 11);
    if expDiff < 0 {
      if expDiff < -1 {
        TooSmall(av, bv, fa, ea.exp, fb, eb.exp);
        OwnRemainder(a);
        SignedRemainder(a, a, b, av, bv, 0, av);
        z := a;
        return;
      }
      sigA := sigA / 2;
    }
    ghost var d: nat := if expDiff < 0 then 0 else expDiff;
    ShiftedMultiples(fa, fb, sigA, sigB);
    DividendUnit(fa, ea.exp, eb.exp, sigA, d);
    DivisorUnit(fb, eb.exp);
    var signZ, sigZ;
    ghost var n;
    signZ, sigZ, n := Reduce(sigA, sigB, expDiff);
    ghost var t, x, enc := RemainderFacts(a, b, fb, eb.exp, sigA, sigB, d, n, signZ, sigZ);
    z := NormRoundPackToF64(s, SignOf(a) != signZ, eb.exp, sigZ, x);
    PackedRemainder(s.roundingMode, s.detectTininess, z, SignOf(a), signZ, t, x, enc);
    SignedRemainder(z, a, b, av, bv, n, t);
  }

  lemma OwnRemainder(a: Word)
    requires IsFinite(a)
    ensures Value(a) == if SignOf(a) then -AbsValue(a) else AbsValue(a)
  {
  }

  lemma ShiftedMultiples(fa: int, fb: int, sigA: Word, sigB: Word)
    requires 0x10_0000_0000_0000 <= fb < 0x20_0000_0000_0000
    requires (sigA == fa * 0x800 || sigA == (fa * 0x800) / 2) && sigB == fb * 0x800
    ensures (fa * 0x800) / 2 == fa * 0x400
    ensures 0x8000_0000_0000_0000 <= sigB && sigB % 16 == 0 && sigA % 16 == 0 && sigA % 1024 == 0 && sigB % 2048 == 0
  {
    DivModUnique(fa * 0x800, 2, fa * 0x400, 0);
    if sigA == fa * 0x800 {
      DivModUnique(sigA, 16, fa * 0x80, 0);
      DivModUnique(sigA, 1024, fa * 2, 0);
    } else {
      DivModUnique(sigA, 16, fa * 0x40, 0);
      DivModUnique(sigA, 1024, fa, 0);
    }
    DivModUnique(sigB, 16, fb * 0x80, 0);
    DivModUnique(sigB, 2048, fb, 0);
  }

  /** The remainder as a real, its magnitude, and the encoding of that magnitude. */
  lemma RemainderFacts(a: Word, b: Word, fb: int, eb: int, sigA: Word, sigB: Word, d: nat, n: int, signZ: bool,
                       sigZ: Word)
    returns (t: real, x: real, enc: int)
    requires IsFinite(a) && IsFinite(b) && -51 <= eb <= 0x7FE
    requires 0 < fb < 0x20_0000_0000_0000 && AbsValue(b) == fb as real * Exp2(eb - 1075)
    requires 0x8000_0000_0000_0000 <= sigB && sigB % 16 == 0 && sigA % 1024 == 0 && sigB % 2048 == 0
    requires AbsValue(a) == (sigA * P2(d)) as real * Exp2(eb - 1086) && AbsValue(b) == sigB as real * Exp2(eb - 1086)
    requires Leaves(sigA * P2(d), sigB / 4, n, SignedInt(signZ, sigZ))
    requires 2 * sigZ <= sigB / 4 && (2 * sigZ == sigB / 4 ==> n % 2 == 0) && (signZ ==> sigZ > 0)
    ensures NearestMultiple(AbsValue(a), AbsValue(b), n, t)
    ensures x >= 0.0 && t == (if signZ then -x else x) && (signZ ==> x > 0.0)
    ensures 0 <= enc <= 0x7FEF_FFFF_FFFF_FFFF && Mag(enc) == x
    ensures Aligned(sigZ, x / Exp2(eb - 1084))
  {
    hide Exp2, P2, AbsValue, Leaves, Mag, Aligned, NearestMultiple;
    var r := SignedInt(signZ, sigZ);
    var u := Exp2(eb - 1084);
    t, x := SignedScale(signZ, sigZ, u);
    assert NearestMultiple(AbsValue(a), AbsValue(b), n, t) by {
      RemainderMeans(AbsValue(a), AbsValue(b), sigA * P2(d), sigB, eb, n, r, t);
    }
    assert Aligned(sigZ, x / u) by {
      ExactAligned(sigZ, x, u);
    }
    if eb <= 1 {
      enc := SmallEncoding(a, b, fb, eb, n, t, x);
    } else {
      enc := LargeRemainder(sigA, sigB, d, eb, n, r, sigZ);
    }
  }

  lemma SmallEncoding(a: Word, b: Word, fb: int, eb: int, n: int, t: real, x: real) returns (enc: int)
    requires IsFinite(a) && IsFinite(b) && eb <= 1 && 0 < fb < 0x20_0000_0000_0000
    requires AbsValue(b) == fb as real * Exp2(eb - 1075)
    requires NearestMultiple(AbsValue(a), AbsValue(b), n, t) && x >= 0.0 && (t == x || t == -x)
    ensures 0 <= enc <= 0x7FEF_FFFF_FFFF_FFFF && Mag(enc) == x
  {
    hide Exp2, AbsValue, RoundInt, Mag;
    enc := SmallRemainder(a, b, fb, eb, n, t, x);
  }

  lemma SignedScale(signZ: bool, sigZ: Word, u: real) returns (t: real, x: real)
    requires u > 0.0 && (signZ ==> sigZ > 0)
    ensures t == SignedInt(signZ, sigZ) as real * u && x == sigZ as real * u
    ensures x >= 0.0 && t == (if signZ then -x else x) && (signZ ==> x > 0.0)
  {
    x := sigZ as real * u;
    t := SignedInt(signZ, sigZ) as real * u;
    NonnegativeScale(sigZ, u);
  }

  lemma ExactAligned(sig: Word, x: real, u: real)
    requires u > 0.0 && x == sig as real * u && sig < 0x8000_0000_0000_0000
    ensures Aligned(sig, x / u)
  {
    CancelScale(sig as real, u);
  }

  lemma NonnegativeScale(m: int, u: real)
    requires m >= 0 && u > 0.0
    ensures m as real * u >= 0.0 && (m > 0 ==> m as real * u > 0.0)
    ensures (-m) as real * u == -(m as real * u)
  {
  }

  /** The remainder of a finite number by a finite nonzero one is exact. */
  method F64Rem(s: FloatState, a: Word, b: Word) returns (z: Word)
    modifies s`exceptionFlags
    ensures IsFinite(a) && IsFinite(b) && !IsZero(b) ==>
              Value(b) != 0.0 && IsRemainder(z, a, b) && s.exceptionFlags == old(s.exceptionFlags)
    ensures IsFinite(a) && IsInf(b) ==> z == a && s.exceptionFlags == old(s.exceptionFlags)
    ensures IsNaN(a) || IsNaN(b) ==>
              && z == DEFAULT_NAN && IsNaN(z)
              && s.exceptionFlags == old(s.exceptionFlags) + (if IsSigNaN(a) || IsSigNaN(b) then {Invalid} else {})
    ensures (IsInf(a) && !IsNaN(b)) || (IsFinite(a) && IsZero(b)) ==>
              z == DEFAULT_NAN && IsNaN(z) && s.exceptionFlags == old(s.exceptionFlags) + {Invalid}
  {
    hide IsSigNaN, IsRemainder, Value, Operand;
    var expA, sigA, expB, sigB := ExpOf(a), FracOf(a), ExpOf(b), FracOf(b);
    if expA == 0x7FF {
      if sigA != 0 || (expB == 0x7FF && sigB != 0) {
        z := PropagateNaNF64UI(s, a, b);
        return;
      }
      s.Raise({Invalid});
      z := DEFAULT_NAN;
      return;
    }
    if expB == 0x7FF {
      if sigB != 0 {
        z := PropagateNaNF64UI(s, a, b);
        return;
      }
      z := a;
      return;
    }
    if expB == 0 && sigB == 0 {
      s.Raise({Invalid});
      z := DEFAULT_NAN;
      return;
    }
    var normB := NormOperand(b);
    if expA == 0 && sigA == 0 {
      ZeroRemainder(a, b);
      z := a;
      return;
    }
    var normA := NormOperand(a);
    z := RemNonzero(s, a, normA, b, normB);
  }

  lemma ZeroRemainder(a: Word, b: Word)
    requires IsZero(a) && IsFinite(b) && !IsZero(b)
    ensures Value(b) != 0.0 && IsRemainder(a, a, b)
  {
    hide AbsValue;
    ZeroValue(a);
    NonzeroValue(b);
    NearestUnique(0.0, 0);
  }
}
