/**
 The 64- and 128-bit word primitives of the floating-point kernel.  Words are
 integers below 2^64, and every operation that can leave that range is reduced
 explicitly.
*/
module Words {
  import opened Machine
  import opened Powers
  import opened Sticky

  datatype U128 = U128(v64: Word, v0: Word) {
    function Value(): (v: int)
      ensures 0 <= v < 0x1_0000_0000_0000_0000_0000_0000_0000_0000
    {
      v64 * 0x1_0000_0000_0000_0000 + v0
    }
  }

  datatype U64Extra = U64Extra(v: Word, extra: Word)

  function Wrap(x: int): Word {
    x % 0x1_0000_0000_0000_0000
  }

  function Bit(b: bool): Word {
    if b then 1 else 0
  }

  function ShiftLeft(a: Word, n: nat): Word {
    Wrap(a * P2(n))
  }

  function ShiftRight(a: Word, n: nat): (r: Word)
    ensures r <= a
  {
    QuotientBound(a, P2(n));
    a / P2(n)
  }

  lemma QuotientBound(a: int, d: int)
    requires a >= 0 && d >= 1
    ensures 0 <= a / d <= a
  {
  }

  lemma WrapSmall(x: int)
    requires 0 <= x < 0x1_0000_0000_0000_0000
    ensures Wrap(x) == x
  {
  }

  // ---------------------------------------------------------------------------
  // Jamming shifts

  function Shift64RightJam(a: Word, count: nat): Word {
    if count < 64 then JamWord(ShiftRight(a, count), ShiftLeft(a, (64 - count) % 64) != 0)
    else Bit(a != 0)
  }

  function ShortShift64RightJam(a: Word, count: nat): Word
    requires count < 64
  {
    JamWord(ShiftRight(a, count), a % P2(count) != 0)
  }

  function Shift64ExtraRightJam(a: Word, extra: Word, count: nat): U64Extra {
    if count < 64 then U64Extra(ShiftRight(a, count), JamWord(ShiftLeft(a, (64 - count) % 64), extra != 0))
    else U64Extra(0, JamWord(if count == 64 then a else Bit(a != 0), extra != 0))
  }

  function Shift128RightJam(a64: Word, a0: Word, count: nat): U128 {
    if count < 64 then
      var neg := (64 - count) % 64;
      U128(ShiftRight(a64, count), JamWord(Or(ShiftLeft(a64, neg), ShiftRight(a0, count)), ShiftLeft(a0, neg) != 0))
    else if count < 128 then
      U128(0, JamWord(ShiftRight(a64, count - 64), a64 % P2(count - 64) != 0 || a0 != 0))
    else
      U128(0, Bit(a64 != 0 || a0 != 0))
  }

  function ShortShift128Left(a64: Word, a0: Word, count: nat): U128
    requires count < 64
  {
    U128(Or(ShiftLeft(a64, count), ShiftRight(a0, (64 - count) % 64)), ShiftLeft(a0, count))
  }

  function JamWord(a: Word, sticky: bool): Word {
    if sticky && a % 2 == 0 then a + 1 else a
  }

  /** Bitwise or, one bit at a time. */
  function Or(a: Word, b: Word): (r: Word) {
    P2Constants();
    OrBits(a, b, 64)
  }

  function OrBits(a: int, b: int, n: nat): (r: int)
    requires 0 <= a < P2(n) && 0 <= b < P2(n)
    ensures 0 <= r < P2(n)
  {
    if n == 0 then 0
    else
      assert P2(n) == 2 * P2(n - 1);
      2 * OrBits(a / 2, b / 2, n - 1) + (if a % 2 == 1 || b % 2 == 1 then 1 else 0)
  }

  // ---------------------------------------------------------------------------
  // Bitwise or as a sum

  lemma {:induction false} OrBitsDisjoint(a: int, b: int, n: nat, k: nat)
    requires 0 <= a < P2(n) && 0 <= b < P2(n)
    requires a % P2(k) == 0 && b < P2(k)
    ensures OrBits(a, b, n) == a + b
    decreases n
  {
    if n > 0 {
      if k == 0 {
        OrBitsDisjoint(a / 2, b / 2, n - 1, k);
      } else {
        hide P2;
        P2Step(k - 1);
        P2Step(n - 1);
        DivModTwice(a, P2(k - 1));
        OrBitsDisjoint(a / 2, b / 2, n - 1, k - 1);
      }
    }
  }

  lemma {:induction false} OrBitsAbsorbs(f: int, n: nat, k: nat)
    requires k < n && 0 <= f < P2(k)
    ensures P2(k) + f < P2(n) && P2(k) < P2(n)
    ensures OrBits(P2(k) + f, P2(k), n) == P2(k) + f
    decreases k
  {
    P2Monotone(k + 1, n);
    P2Step(k);
    if k == 0 {
      P2Step(n - 1);
      OrBitsDisjoint(0, 0, n - 1, 0);
    } else {
      P2Step(k - 1);
      P2Step(n - 1);
      OrBitsAbsorbs(f / 2, n - 1, k - 1);
    }
  }

  /** Operands with no bit in common. */
  lemma OrDisjoint(a: Word, b: Word, k: nat)
    requires a % P2(k) == 0 && b < P2(k)
    ensures Or(a, b) == a + b
  {
    hide OrBits, P2;
    P2Constants();
    OrBitsDisjoint(a, b, 64, k);
  }

  /** Setting the hidden bit of a significand, whether or not it is already set. */
  lemma OrHidden(f: Word)
    requires f < 0x20_0000_0000_0000
    ensures Or(f, 0x10_0000_0000_0000) == if f < 0x10_0000_0000_0000 then f + 0x10_0000_0000_0000 else f
  {
    hide OrBits, P2;
    P2Constants();
    if f < 0x10_0000_0000_0000 {
      OrCommutes(f, 0x10_0000_0000_0000, 64);
      assert 0x10_0000_0000_0000 % P2(52) == 0;
      OrBitsDisjoint(0x10_0000_0000_0000, f, 64, 52);
    } else {
      OrBitsAbsorbs(f - 0x10_0000_0000_0000, 64, 52);
    }
  }

  lemma {:induction false} OrCommutes(a: int, b: int, n: nat)
    requires 0 <= a < P2(n) && 0 <= b < P2(n)
    ensures OrBits(a, b, n) == OrBits(b, a, n)
    decreases n
  {
    if n > 0 {
      P2Step(n - 1);
      OrCommutes(a / 2, b / 2, n - 1);
    }
  }
}
