/** One step of xorshift32, on 32-bit words: what it computes, bit by bit, and that it is a
    bijection. */
module XorshiftStep {

  // ---------------------------------------------------------------- the step is a bijection

  function Shl5(x: bv32): bv32 { x ^ (x << 5) }
  function Shl10(x: bv32): bv32 { x ^ (x << 10) }
  function Shl13(x: bv32): bv32 { x ^ (x << 13) }
  function Shl20(x: bv32): bv32 { x ^ (x << 20) }
  function Shl26(x: bv32): bv32 { x ^ (x << 26) }
  function Shr17(x: bv32): bv32 { x ^ (x >> 17) }

  /** One xorshift step: `x ^= x << 13; x ^= x >> 17; x ^= x << 5`. */
  function Step(x: bv32): bv32 {
    Shl5(Shr17(Shl13(x)))
  }

  /** Xoring a word with a shift of itself, done twice, is doing it once with twice the shift;
      with a shift of 32 or more it is doing nothing. */
  lemma Twice5(y: bv32)
    ensures Shl5(Shl5(y)) == Shl10(y)
  {
    calc {
      Shl5(Shl5(y));
      Shl5(y ^ (y << 5));
      (y ^ (y << 5)) ^ ((y ^ (y << 5)) << 5);
      y ^ (y << 10);
      Shl10(y);
    }
  }

  lemma Twice10(y: bv32)
    ensures Shl10(Shl10(y)) == Shl20(y)
  {
    calc {
      Shl10(Shl10(y));
      Shl10(y ^ (y << 10));
      (y ^ (y << 10)) ^ ((y ^ (y << 10)) << 10);
      y ^ (y << 20);
      Shl20(y);
    }
  }

  lemma Twice13(y: bv32)
    ensures Shl13(Shl13(y)) == Shl26(y)
  {
    calc {
      Shl13(Shl13(y));
      Shl13(y ^ (y << 13));
      (y ^ (y << 13)) ^ ((y ^ (y << 13)) << 13);
      y ^ (y << 26);
      Shl26(y);
    }
  }

  lemma Twice20(y: bv32)
    ensures Shl20(Shl20(y)) == y
  {
    calc {
      Shl20(Shl20(y));
      Shl20(y ^ (y << 20));
      (y ^ (y << 20)) ^ ((y ^ (y << 20)) << 20);
      y;
    }
  }

  lemma Twice26(y: bv32)
    ensures Shl26(Shl26(y)) == y
  {
    calc {
      Shl26(Shl26(y));
      Shl26(y ^ (y << 26));
      (y ^ (y << 26)) ^ ((y ^ (y << 26)) << 26);
      y;
    }
  }

  lemma Twice17(y: bv32)
    ensures Shr17(Shr17(y)) == y
  {
    calc {
      Shr17(Shr17(y));
      Shr17(y ^ (y >> 17));
      (y ^ (y >> 17)) ^ ((y ^ (y >> 17)) >> 17);
      y;
    }
  }

  function UnShl5(y: bv32): bv32 { Shl5(Shl10(Shl20(y))) }

  function UnShl13(y: bv32): bv32 { Shl13(Shl26(y)) }

  /** The inverse step. */
  function Unstep(y: bv32): bv32 {
    UnShl13(Shr17(UnShl5(y)))
  }

  lemma Commute5And10(y: bv32)
    ensures Shl10(Shl5(y)) == Shl5(Shl10(y))
  {
    hide Shl5, Shl10;
    Twice5(y);
    Twice5(Shl5(y));
  }

  lemma Shl5Inverse(y: bv32)
    ensures UnShl5(Shl5(y)) == y && Shl5(UnShl5(y)) == y
  {
    hide Shl5, Shl10, Shl20;
    calc {
      Shl20(Shl5(y));
      { Twice10(Shl5(y)); }
      Shl10(Shl10(Shl5(y)));
      { Commute5And10(y); }
      Shl10(Shl5(Shl10(y)));
      { Commute5And10(Shl10(y)); }
      Shl5(Shl10(Shl10(y)));
      { Twice10(y); }
      Shl5(Shl20(y));
    }
    Commute5And10(Shl20(y));
    Twice5(Shl10(Shl20(y)));
    Twice10(Shl20(y));
    Twice20(y);
  }

  lemma Shl13Inverse(y: bv32)
    ensures UnShl13(Shl13(y)) == y && Shl13(UnShl13(y)) == y
  {
    hide Shl13, Shl26;
    Twice13(y);
    Twice13(Shl13(y));
    Twice13(Shl26(y));
    Twice26(y);
  }

  /** The step is a bijection on 32-bit words: `Unstep` undoes it on either side. */
  lemma StepBijective(x: bv32)
    ensures Unstep(Step(x)) == x && Step(Unstep(x)) == x
  {
    hide Shl5, Shl13, Shr17, UnShl5, UnShl13;
    Shl13Inverse(x);
    Twice17(Shl13(x));
    Shl5Inverse(Shr17(Shl13(x)));
    Shl5Inverse(x);
    Twice17(UnShl5(x));
    Shl13Inverse(Shr17(UnShl5(x)));
  }

  lemma StepOfZero()
    ensures Step(0) == 0
  {
    assert Shl13(0) == 0 && Shr17(0) == 0 && Shl5(0) == 0;
  }

  lemma StepInjective(x: bv32, y: bv32)
    ensures Step(x) == Step(y) <==> x == y
  {
    hide Step, Unstep;
    StepBijective(x);
    StepBijective(y);
  }

  /** Only zero steps to zero. */
  lemma StepNonzero(x: bv32)
    ensures Step(x) == 0 <==> x == 0
  {
    hide Step;
    StepOfZero();
    StepInjective(x, 0);
  }

  // ---------------------------------------------------------------- what the step computes

  lemma Shl13Is(x: bv32)
    ensures Shl13(x) == x ^ (x << 13)
  {
  }

  lemma Shr17Is(x: bv32)
    ensures Shr17(x) == x ^ (x >> 17)
  {
  }

  lemma Shl5Is(x: bv32)
    ensures Shl5(x) == x ^ (x << 5)
  {
  }

  /** The outputs that follow the seed 0x12345678. */
  lemma StepInNumbers()
    ensures Step(0x1234_5678) == 0x8798_5AA5 && Step(0x8798_5AA5) == 0x155B_24A3 && Step(0x155B_24A3) == 0x4820_F4C4
  {
  }

  /** Bit `i` of a word. */
  function Bit(x: bv32, i: bv32): bv32
    requires i < 32
  {
    (x >> i) & 1
  }

  lemma BitsDetermine(x: bv32, y: bv32)
    requires forall i: bv32 :: i < 32 ==> Bit(x, i) == Bit(y, i)
    ensures x == y
  {
    assert Bit(x, 0) == Bit(y, 0) && Bit(x, 1) == Bit(y, 1) && Bit(x, 2) == Bit(y, 2) && Bit(x, 3) == Bit(y, 3);
    assert Bit(x, 4) == Bit(y, 4) && Bit(x, 5) == Bit(y, 5) && Bit(x, 6) == Bit(y, 6) && Bit(x, 7) == Bit(y, 7);
    assert Bit(x, 8) == Bit(y, 8) && Bit(x, 9) == Bit(y, 9) && Bit(x, 10) == Bit(y, 10) && Bit(x, 11) == Bit(y, 11);
    assert Bit(x, 12) == Bit(y, 12) && Bit(x, 13) == Bit(y, 13) && Bit(x, 14) == Bit(y, 14) && Bit(x, 15) == Bit(y, 15);
    assert Bit(x, 16) == Bit(y, 16) && Bit(x, 17) == Bit(y, 17) && Bit(x, 18) == Bit(y, 18) && Bit(x, 19) == Bit(y, 19);
    assert Bit(x, 20) == Bit(y, 20) && Bit(x, 21) == Bit(y, 21) && Bit(x, 22) == Bit(y, 22) && Bit(x, 23) == Bit(y, 23);
    assert Bit(x, 24) == Bit(y, 24) && Bit(x, 25) == Bit(y, 25) && Bit(x, 26) == Bit(y, 26) && Bit(x, 27) == Bit(y, 27);
    assert Bit(x, 28) == Bit(y, 28) && Bit(x, 29) == Bit(y, 29) && Bit(x, 30) == Bit(y, 30) && Bit(x, 31) == Bit(y, 31);
  }

  /** The input bits that bit `i` is the xor of after `x ^= x << 13` ... */
  function After13(x: bv32, i: bv32): bv32
    requires i < 32
  {
    (x >> i) ^ (if i >= 13 then x >> (i - 13) else 0)
  }

  /** ... after `x ^= x >> 17` ... */
  function After17(x: bv32, i: bv32): bv32
    requires i < 32
  {
    After13(x, i) ^ (if i < 15 then After13(x, i + 17) else 0)
  }

  /** ... and after `x ^= x << 5`; only the lowest bit counts. */
  function After5(x: bv32, i: bv32): bv32
    requires i < 32
  {
    After17(x, i) ^ (if i >= 5 then After17(x, i - 5) else 0)
  }

  lemma Left13Bit(x: bv32, y: bv32, i: bv32)
    requires i < 32 && y == x ^ (x << 13)
    ensures (y >> i) & 1 == After13(x, i) & 1
  {
  }

  lemma Right17Bit(y: bv32, z: bv32, i: bv32)
    requires i < 32 && z == y ^ (y >> 17)
    ensures (z >> i) & 1 == ((y >> i) ^ (if i < 15 then y >> (i + 17) else 0)) & 1
  {
  }

  lemma Left5Bit(z: bv32, r: bv32, i: bv32)
    requires i < 32 && r == z ^ (z << 5)
    ensures (r >> i) & 1 == ((z >> i) ^ (if i >= 5 then z >> (i - 5) else 0)) & 1
  {
  }

  lemma XorLow(u: bv32, v: bv32, p: bv32, q: bv32)
    requires u & 1 == p & 1 && v & 1 == q & 1
    ensures (u ^ v) & 1 == (p ^ q) & 1
  {
  }

  lemma Shl13Bit(x: bv32, i: bv32)
    requires i < 32
    ensures (Shl13(x) >> i) & 1 == After13(x, i) & 1
  {
    hide Shl13, After13;
    Shl13Is(x);
    Left13Bit(x, Shl13(x), i);
  }

  lemma Shr17Bit(y: bv32, i: bv32)
    requires i < 32
    ensures (Shr17(y) >> i) & 1 == ((y >> i) ^ (if i < 15 then y >> (i + 17) else 0)) & 1
  {
    hide Shr17;
    Shr17Is(y);
    Right17Bit(y, Shr17(y), i);
  }

  lemma Shl5Bit(z: bv32, i: bv32)
    requires i < 32
    ensures (Shl5(z) >> i) & 1 == ((z >> i) ^ (if i >= 5 then z >> (i - 5) else 0)) & 1
  {
    hide Shl5;
    Shl5Is(z);
    Left5Bit(z, Shl5(z), i);
  }

  lemma Shr17Shl13Bit(x: bv32, i: bv32)
    requires i < 32
    ensures (Shr17(Shl13(x)) >> i) & 1 == After17(x, i) & 1
  {
    hide Shl13, Shr17, After13;
    var y := Shl13(x);
    Shr17Bit(y, i);
    Shl13Bit(x, i);
    if i < 15 {
      Shl13Bit(x, i + 17);
      XorLow(y >> i, y >> (i + 17), After13(x, i), After13(x, i + 17));
    }
  }

  lemma StepBit(x: bv32, i: bv32)
    requires i < 32
    ensures (Step(x) >> i) & 1 == After5(x, i) & 1
  {
    hide Shl13, Shr17, Shl5, After17;
    var z := Shr17(Shl13(x));
    Shl5Bit(z, i);
    Shr17Shl13Bit(x, i);
    if i >= 5 {
      Shr17Shl13Bit(x, i - 5);
      XorLow(z >> i, z >> (i - 5), After17(x, i), After17(x, i - 5));
    }
  }

  /** `r` is the word the step makes of `x`, bit by bit. */
  ghost predicate StepsTo(x: bv32, r: bv32) {
    forall i: bv32 :: i < 32 ==> Bit(r, i) == After5(x, i) & 1
  }

  lemma BitIs(r: bv32, i: bv32)
    requires i < 32
    ensures Bit(r, i) == (r >> i) & 1
  {
  }

  /** Exactly one word is. */
  lemma StepIsBitwise(x: bv32, r: bv32)
    ensures StepsTo(x, r) <==> r == Step(x)
  {
    hide Bit, After5, Step;
    forall i: bv32 | i < 32
      ensures Bit(Step(x), i) == After5(x, i) & 1
    {
      BitIs(Step(x), i);
      StepBit(x, i);
    }
    if StepsTo(x, r) {
      BitsDetermine(r, Step(x));
    }
  }
}
