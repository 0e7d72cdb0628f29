/** Powers of two, over the integers and over the reals. */
module Powers {

  /** 2^n as an integer. */
  function P2(n: nat): (p: int)
    ensures p >= 1
  {
    if n == 0 then 1 else 2 * P2(n - 1)
  }

  /** 2^e as a real, for every integer e. */
  ghost function Exp2(e: int): (p: real)
    ensures p > 0.0
    decreases if e < 0 then -e else e
  {
    if e == 0 then 1.0 else if e > 0 then 2.0 * Exp2(e - 1) else Exp2(e + 1) / 2.0
  }

  lemma Exp2Zero()
    ensures Exp2(0) == 1.0
  {
  }

  lemma Exp2Step(e: int)
    ensures Exp2(e + 1) == 2.0 * Exp2(e)
  {
  }

  lemma {:induction false} Exp2Add(a: int, b: int)
    ensures Exp2(a + b) == Exp2(a) * Exp2(b)
    decreases if b < 0 then -b else b
  {
    hide Exp2;
    Exp2Zero();
    if b > 0 {
      Exp2Add(a, b - 1);
      Exp2Step(a + b - 1);
      Exp2Step(b - 1);
    } else if b < 0 {
      Exp2Add(a, b + 1);
      Exp2Step(a + b);
      Exp2Step(b);
    }
  }

  /** The two powers agree where both are defined. */
  lemma {:induction false} Exp2Nat(n: nat)
    ensures Exp2(n) == P2(n) as real
  {
    if n > 0 {
      Exp2Nat(n - 1);
    }
  }

  lemma P2Step(n: nat)
    ensures P2(n + 1) == 2 * P2(n)
  {
  }

  lemma {:induction false} P2Add(a: nat, b: nat)
    ensures P2(a + b) == P2(a) * P2(b)
    decreases b
  {
    if b > 0 {
      hide P2;
      P2Add(a, b - 1);
      P2Step(a + b - 1);
      P2Step(b - 1);
    }
  }

  lemma {:induction false} P2Monotone(a: nat, b: nat)
    requires a <= b
    ensures P2(a) <= P2(b)
    decreases b
  {
    if a < b {
      P2Monotone(a, b - 1);
    }
  }

  lemma {:induction false} Exp2Monotone(a: int, b: int)
    requires a <= b
    ensures Exp2(a) <= Exp2(b)
    decreases b - a
  {
    if a < b {
      Exp2Monotone(a, b - 1);
      Exp2Step(b - 1);
    }
  }

  lemma P2Small()
    ensures P2(0) == 1 && P2(1) == 2 && P2(2) == 4 && P2(4) == 16 && P2(8) == 256
  {
  }

  /** The powers that occur as word constants. */
  lemma P2Constants()
    ensures P2(0) == 1 && P2(1) == 2
    ensures P2(9) == 0x200
    ensures P2(10) == 0x400
    ensures P2(11) == 0x800
    ensures P2(32) == 0x1_0000_0000
    ensures P2(52) == 0x10_0000_0000_0000
    ensures P2(53) == 0x20_0000_0000_0000
    ensures P2(62) == 0x4000_0000_0000_0000
    ensures P2(63) == 0x8000_0000_0000_0000
    ensures P2(64) == 0x1_0000_0000_0000_0000
  {
    hide P2;
    P2Small();
    P2Add(8, 1); P2Add(8, 2); P2Add(8, 8); P2Add(16, 16); P2Add(32, 16);
    P2Add(48, 4); P2Add(10, 1); P2Add(52, 1); P2Add(52, 10); P2Add(62, 1); P2Add(62, 2);
  }

  lemma SmallMultiple(k: int, d: int)
    requires d > 0 && -d < k * d < d
    ensures k == 0
  {
  }

  /** A number is divided in only one way. */
  lemma DivModUnique(x: int, d: int, q: int, r: int)
    requires d > 0 && x == q * d + r && 0 <= r < d
    ensures x / d == q && x % d == r
  {
    var p := x / d;
    assert x == p * d + x % d;
    assert (q - p) * d == q * d - p * d;
    SmallMultiple(q - p, d);
  }

  lemma MultipleMod(q: int, d: int)
    requires d > 0
    ensures (q * d) % d == 0
  {
    DivModUnique(q * d, d, q, 0);
  }
}
