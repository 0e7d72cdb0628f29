/** What the shift primitives compute: exact quotients by powers of two, jammed. */
module Shifts {
  import opened Machine
  import opened Powers
  import opened Sticky
  import opened Words

  lemma P2Complement(count: nat)
    requires count <= 64
    ensures P2(count) * P2(64 - count) == 0x1_0000_0000_0000_0000
  {
    hide P2;
    P2Add(count, 64 - count);
    P2Constants();
  }

  lemma ProductBound(r: int, p: int, q: int, t: int)
    requires 0 <= r < p && q > 0 && p * q == t
    ensures 0 <= r * q && r * q + q <= t
  {
    AtLeastOnce(p - r, q);
    assert (p - r) * q == p * q - r * q;
  }

  lemma AtLeastOnce(k: int, q: int)
    requires k >= 1 && q >= 0
    ensures k * q >= q
  {
  }

  lemma Distribute(k: int, p: int, r: int, q: int)
    ensures (k * p + r) * q == k * (p * q) + r * q
  {
  }

  lemma LowBits(a: int, p: int, q: int, t: int)
    requires p > 0 && q > 0 && p * q == t
    ensures t > 0 && (a * q) % t == (a % p) * q
    ensures 0 <= (a % p) * q && (a % p) * q + q <= t
  {
    var k, r := a / p, a % p;
    ProductBound(r, p, q, t);
    Distribute(k, p, r, q);
    DivModUnique(a * q, t, k, r * q);
  }

  /** Shifting left by the complement of `count` keeps exactly the low `count` bits. */
  lemma ShiftLeftComplement(a: Word, count: nat)
    requires 0 < count <= 64
    ensures ShiftLeft(a, 64 - count) == (a % P2(count)) * P2(64 - count)
    ensures ShiftLeft(a, 64 - count) + P2(64 - count) <= 0x1_0000_0000_0000_0000
    ensures ShiftLeft(a, 64 - count) != 0 <==> a % P2(count) != 0
  {
    hide P2;
    P2Complement(count);
    LowBits(a, P2(count), P2(64 - count), 0x1_0000_0000_0000_0000);
    NonzeroProduct(a % P2(count), P2(64 - count));
  }

  lemma NonzeroProduct(r: int, q: int)
    requires q > 0
    ensures r * q != 0 <==> r != 0
  {
  }

  lemma BigPower(a: int, count: nat)
    requires count >= 64 && 0 <= a < 0x1_0000_0000_0000_0000
    ensures a / P2(count) == 0 && a % P2(count) == a
  {
    hide P2;
    P2Constants();
    P2Monotone(64, count);
    DivModUnique(a, P2(count), 0, a);
  }

  /** The shift jams, for every count but zero. */
  lemma Shift64RightJamCorrect(a: Word, count: nat)
    requires count > 0
    ensures Shift64RightJam(a, count) == JamRight(a, count)
  {
    hide P2;
    if count < 64 {
      ShiftLeftComplement(a, count);
    } else {
      BigPower(a, count);
    }
  }

  /** At count zero nothing is shifted off, yet the last bit is set: the result is
      right exactly for zero and for odd words. */
  lemma Shift64RightJamZero(a: Word)
    ensures Shift64RightJam(a, 0) == a <==> (a == 0 || a % 2 == 1)
  {
    assert P2(0) == 1;
  }

  lemma ShortShift64RightJamCorrect(a: Word, count: nat)
    requires count < 64
    ensures ShortShift64RightJam(a, count) == JamRight(a, count)
  {
    hide P2;
  }

  lemma Jam128(v64: Word, v0: Word, sticky: bool)
    ensures U128(v64, JamWord(v0, sticky)).Value() == Jam(U128(v64, v0).Value(), sticky)
  {
    var h := v64 * 0x8000_0000_0000_0000;
    assert (2 * h + v0) % 2 == v0 % 2;
  }

  lemma Shift128Low(a64: Word, a0: Word, count: nat) returns (v0: Word)
    requires 0 < count < 64
    ensures v0 == (a64 % P2(count)) * P2(64 - count) + a0 / P2(count)
    ensures Or(ShiftLeft(a64, 64 - count), ShiftRight(a0, count)) == v0
  {
    hide P2, Or, Wrap, ShiftLeft;
    var p, q := P2(count), P2(64 - count);
    P2Complement(count);
    var hi, lo := ShiftLeft(a64, 64 - count), a0 / p;
    ShiftLeftComplement(a64, count);
    WordQuotient(a0, p, q);
    MultipleMod(a64 % p, q);
    OrDisjoint(hi, lo, 64 - count);
    v0 := hi + lo;
  }

  /** The short case of the 128-bit shift. */
  lemma Shift128Short(a64: Word, a0: Word, count: nat)
    requires 0 < count < 64
    ensures Shift128RightJam(a64, a0, count).Value() == JamRight(U128(a64, a0).Value(), count)
  {
    hide P2, Or, Wrap, ShiftLeft, JamWord, Jam;
    var p, q, v := P2(count), P2(64 - count), U128(a64, a0).Value();
    QuotientBound(a64, p);
    var v64: Word := a64 / p;
    var v0 := Shift128Low(a64, a0, count);
    assert Shift128RightJam(a64, a0, count) == U128(v64, JamWord(v0, a0 % p != 0)) by {
      ShiftLeftComplement(a0, count);
    }
    assert v / p == U128(v64, v0).Value() && v % p == a0 % p by {
      P2Complement(count);
      SplitQuotient(a64, a0, p, q, v64, (a64 % p) * q, a0 / p);
    }
    Jam128(v64, v0, a0 % p != 0);
  }

  lemma WordQuotient(a: Word, p: int, q: int)
    requires p > 0 && q > 0 && p * q == 0x1_0000_0000_0000_0000
    ensures a / p < q
  {
    assert a == (a / p) * p + a % p;
  }

  lemma SplitQuotient(a64: int, a0: int, p: int, q: int, v64: int, hi: int, lo: int)
    requires p > 0 && q > 0 && p * q == 0x1_0000_0000_0000_0000
    requires v64 == a64 / p && hi == (a64 % p) * q && lo == a0 / p
    ensures (a64 * 0x1_0000_0000_0000_0000 + a0) / p == v64 * 0x1_0000_0000_0000_0000 + (hi + lo)
    ensures (a64 * 0x1_0000_0000_0000_0000 + a0) % p == a0 % p
  {
    var r := a64 % p;
    assert a64 == v64 * p + r;
    assert a0 == lo * p + a0 % p;
    assert hi * p == r * 0x1_0000_0000_0000_0000;
    assert (v64 * 0x1_0000_0000_0000_0000 + (hi + lo)) * p == (v64 * p) * 0x1_0000_0000_0000_0000 + hi * p + lo * p;
    DivModUnique(a64 * 0x1_0000_0000_0000_0000 + a0, p, v64 * 0x1_0000_0000_0000_0000 + (hi + lo), a0 % p);
  }

  lemma Shift128Long(a64: Word, a0: Word, count: nat)
    requires 64 <= count
    ensures Shift128RightJam(a64, a0, count).Value() == JamRight(U128(a64, a0).Value(), count)
  {
    hide P2;
    P2Constants();
    var v := U128(a64, a0).Value();
    if count < 128 {
      var p := P2(count - 64);
      P2Add(count - 64, 64);
      var q, r := a64 / p, a64 % p;
      assert v == q * (p * 0x1_0000_0000_0000_0000) + (r * 0x1_0000_0000_0000_0000 + a0) by {
        assert a64 == q * p + r;
      }
      assert r * 0x1_0000_0000_0000_0000 + a0 < p * 0x1_0000_0000_0000_0000;
      DivModUnique(v, P2(count), q, r * 0x1_0000_0000_0000_0000 + a0);
      Jam128(0, ShiftRight(a64, count - 64), r != 0 || a0 != 0);
    } else {
      P2Add(64, 64);
      P2Monotone(128, count);
      DivModUnique(v, P2(count), 0, v);
    }
  }

  lemma Shift128RightJamCorrect(a64: Word, a0: Word, count: nat)
    requires count > 0
    ensures Shift128RightJam(a64, a0, count).Value() == JamRight(U128(a64, a0).Value(), count)
  {
    hide *;
    if count < 64 {
      Shift128Short(a64, a0, count);
    } else {
      Shift128Long(a64, a0, count);
    }
  }

  /** With count 0 the code folds the high word into the low one. It returns its argument
      exactly when the low word already has all those bits and is zero or odd. */
  lemma Shift128RightJamZero(a64: Word, a0: Word)
    ensures Shift128RightJam(a64, a0, 0) == U128(a64, a0) <==> Or(a64, a0) == a0 && (a0 == 0 || a0 % 2 == 1)
  {
    hide Or, Wrap, ShiftLeft, ShiftRight;
    NoShiftAtAll(a64);
    NoShiftAtAll(a0);
    OrLowBit(a64, a0);
  }

  lemma NoShiftAtAll(a: Word)
    ensures ShiftLeft(a, 0) == a && ShiftRight(a, 0) == a
  {
    assert P2(0) == 1;
  }

  lemma OrLowBit(a: Word, b: Word)
    ensures Or(a, b) % 2 == 1 <==> a % 2 == 1 || b % 2 == 1
  {
    var n := 64;
    P2Constants();
    LowBitOf(a, b, n);
  }

  lemma LowBitOf(a: int, b: int, n: nat)
    requires 0 < n && 0 <= a < P2(n) && 0 <= b < P2(n)
    ensures OrBits(a, b, n) % 2 == 1 <==> a % 2 == 1 || b % 2 == 1
  {
  }

  /** A left shift that loses no bit.  The low word is moved up correctly unless the
      count is zero and the low word is not. */
  lemma ShortShift128LeftCorrect(a64: Word, a0: Word, count: nat)
    requires count < 64
    requires count > 0 || a0 == 0
    requires a64 * P2(count) + P2(count) <= 0x1_0000_0000_0000_0000
    ensures ShortShift128Left(a64, a0, count).Value() == U128(a64, a0).Value() * P2(count)
  {
    hide *;
    if count == 0 {
      ShortShift128LeftZero(a64, a0);
    } else {
      ShortShift128LeftCarry(a64, a0, count);
    }
  }

  /** With count 0 the low word is folded into the high one. The code returns its argument
      exactly when the high word already has all those bits. */
  lemma ShortShift128LeftZero(a64: Word, a0: Word)
    ensures ShortShift128Left(a64, a0, 0) == U128(a64, a0) <==> Or(a64, a0) == a64
    ensures a0 == 0 ==> ShortShift128Left(a64, a0, 0) == U128(a64, a0)
    ensures U128(a64, a0).Value() * P2(0) == U128(a64, a0).Value()
  {
    hide Or, ShiftLeft, ShiftRight;
    NoShiftAtAll(a64);
    NoShiftAtAll(a0);
    assert P2(0) == 1;
    if a0 == 0 {
      OrDisjoint(a64, 0, 0);
    }
  }

  /** For a positive count the result is the product modulo 2^128: bits shifted off the top
      are dropped and nothing else. */
  lemma ShortShift128LeftValue(a64: Word, a0: Word, count: nat)
    requires 0 < count < 64
    ensures ShortShift128Left(a64, a0, count).Value()
            == (U128(a64, a0).Value() * P2(count)) % 0x1_0000_0000_0000_0000_0000_0000_0000_0000
  {
    hide P2, Or, Wrap, ShiftLeft, ShiftRight;
    var p, q := P2(count), P2(64 - count);
    assert p * q == 0x1_0000_0000_0000_0000 by {
      P2Complement(count);
    }
    var top, kept := Parts(a64, q, p);
    RowRoom(kept, q, p);
    assert ShiftLeft(kept, count) == ShiftLeft(a64, count) by {
      ShiftLeftComplement(a64, 64 - count);
      ShiftLeftComplement(kept, 64 - count);
      DivModUnique(kept, q, 0, kept);
    }
    ShortShift128LeftCarry(kept, a0, count);
    DroppedTop(a64, a0, p, q, top, kept);
  }

  lemma RowRoom(kept: int, q: int, p: int)
    requires 0 <= kept < q && 0 < p && p * q == 0x1_0000_0000_0000_0000
    ensures kept * p + p <= 0x1_0000_0000_0000_0000 && kept < 0x1_0000_0000_0000_0000
  {
    assert (kept + 1) * p <= q * p;
    assert kept * 1 <= kept * p;
  }

  lemma DroppedTop(a64: Word, a0: Word, p: int, q: int, top: int, kept: Word)
    requires 0 < p && 0 < q && p * q == 0x1_0000_0000_0000_0000 && a64 == top * q + kept && 0 <= kept < q
    ensures U128(kept, a0).Value() * p
            == (U128(a64, a0).Value() * p) % 0x1_0000_0000_0000_0000_0000_0000_0000_0000
  {
    var small, all := U128(kept, a0).Value() * p, U128(a64, a0).Value() * p;
    assert (top * q) * p == top * 0x1_0000_0000_0000_0000;
    assert all == top * 0x1_0000_0000_0000_0000_0000_0000_0000_0000 + small;
    assert (kept + 1) * p <= q * p;
    assert small < (kept + 1) * p * 0x1_0000_0000_0000_0000;
    ProductSign(U128(kept, a0).Value(), p);
    DivModUnique(all, 0x1_0000_0000_0000_0000_0000_0000_0000_0000, top, small);
  }

  lemma ShortLeftWords(a64: Word, a0: Word, count: nat)
    requires 0 < count < 64
    ensures ShortShift128Left(a64, a0, count)
            == U128(Or(ShiftLeft(a64, count), ShiftRight(a0, 64 - count)), ShiftLeft(a0, count))
    ensures ShiftRight(a0, 64 - count) == a0 / P2(64 - count)
  {
    hide P2, Or, Wrap, ShiftLeft;
    DivModUnique(64 - count, 64, 0, 64 - count);
  }

  lemma ShortShift128LeftCarry(a64: Word, a0: Word, count: nat)
    requires 0 < count < 64
    requires a64 * P2(count) + P2(count) <= 0x1_0000_0000_0000_0000
    ensures ShortShift128Left(a64, a0, count).Value() == U128(a64, a0).Value() * P2(count)
  {
    hide P2, Or, Wrap, ShiftLeft, ShiftRight, ShortShift128Left;
    var p, q, z := P2(count), P2(64 - count), ShortShift128Left(a64, a0, count);
    ShortLeftWords(a64, a0, count);
    assert p * q == 0x1_0000_0000_0000_0000 by {
      P2Complement(count);
    }
    var hi, lo := Parts(a0, q, p);
    assert z.v64 == a64 * p + hi by {
      CarryIn(a64, hi, count);
    }
    assert z.v0 == lo * p by {
      ShiftLeftComplement(a0, 64 - count);
    }
    MovedUp(a64, a0, p, q, hi, lo, z);
  }

  lemma Parts(a: Word, q: int, p: int) returns (hi: Word, lo: int)
    requires q > 0 && p > 0 && p * q == 0x1_0000_0000_0000_0000
    ensures hi == a / q && lo == a % q && a == hi * q + lo && hi < p
  {
    QuotientBound(a, q);
    WordQuotient(a, q, p);
    hi, lo := a / q, a % q;
  }

  /** The high word takes the carry into the place that the shift has freed. */
  lemma CarryIn(a64: Word, hi: Word, count: nat)
    requires a64 * P2(count) + P2(count) <= 0x1_0000_0000_0000_0000 && hi < P2(count)
    ensures Or(ShiftLeft(a64, count), hi) == a64 * P2(count) + hi
  {
    hide P2, Or, Wrap;
    var x := a64 * P2(count);
    ProductSign(a64, P2(count));
    WrapSmall(x);
    MultipleMod(a64, P2(count));
    OrDisjoint(ShiftLeft(a64, count), hi, count);
  }

  lemma ProductSign(a: int, b: int)
    requires 0 <= a && 0 <= b
    ensures 0 <= a * b
  {
  }

  lemma MovedUp(a64: Word, a0: Word, p: int, q: int, hi: int, lo: int, z: U128)
    requires p * q == 0x1_0000_0000_0000_0000 && a0 == hi * q + lo && z.v64 == a64 * p + hi && z.v0 == lo * p
    ensures z.Value() == U128(a64, a0).Value() * p
  {
    assert (hi * q) * p == hi * 0x1_0000_0000_0000_0000;
    assert a0 * p == (hi * q) * p + lo * p;
  }
}
