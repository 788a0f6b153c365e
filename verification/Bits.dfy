/** Bit operations on natural numbers and 64-bit words, defined bit by bit, and what shifts and masks mean. */
module Bits {
  import opened Ints
  import opened Powers

  const MAX64: nat := 0xFFFF_FFFF_FFFF_FFFF

  function And(a: nat, b: nat): nat {
    if a == 0 || b == 0 then 0
    else 2 * And(a / 2, b / 2) + (if a % 2 == 1 && b % 2 == 1 then 1 else 0)
  }

  function Xor(a: nat, b: nat): nat
    decreases a + b
  {
    if a == 0 then b else if b == 0 then a
    else 2 * Xor(a / 2, b / 2) + (if a % 2 != b % 2 then 1 else 0)
  }

  /** Drops the n low bits, one at a time. */
  function Shr(a: nat, n: nat): nat {
    if n == 0 then a else Shr(a / 2, n - 1)
  }

  /** The shifts of a 64-bit machine word: what is shifted out is lost. */
  function Shr64(a: uint64, n: nat): uint64 {
    ShrBound(a, n);
    Shr(a, n)
  }

  function Shl64(a: uint64, n: nat): uint64 {
    a * Pow2(n) % (MAX64 + 1)
  }

  function Xor64(a: uint64, b: uint64): uint64 {
    Pow2Values();
    XorBound(a, b, 64);
    Xor(a, b)
  }

  function Not64(a: uint64): uint64 {
    MAX64 - a
  }

  lemma {:induction false} ShrBound(a: nat, n: nat)
    ensures Shr(a, n) <= a
  {
    if n > 0 {
      ShrBound(a / 2, n - 1);
    }
  }

  /** Dropping n bits is dividing by 2^n. */
  lemma {:induction false} ShrDivides(a: nat, n: nat)
    ensures Shr(a, n) == a / Pow2(n)
  {
    if n > 0 {
      var d := Pow2(n - 1);
      ShrDivides(a / 2, n - 1);
      HalfDivides(a, d);
    }
  }

  lemma HalfDivides(a: nat, d: nat)
    requires d >= 1
    ensures a / 2 / d == a / (2 * d)
  {
    var q := a / 2 / d;
    var r := a / 2 % d;
    assert a / 2 == q * d + r;
    assert a == q * (2 * d) + (2 * r + a % 2);
    DivUnique(a, 2 * d, q, 2 * r + a % 2);
  }

  // ---------------------------------------------------------------- bits

  lemma {:induction false} AndBound(a: nat, b: nat)
    ensures And(a, b) <= a && And(a, b) <= b
  {
    if a != 0 && b != 0 {
      AndBound(a / 2, b / 2);
    }
  }

  lemma {:induction false} XorBound(a: nat, b: nat, n: nat)
    requires a < Pow2(n) && b < Pow2(n)
    ensures Xor(a, b) < Pow2(n)
  {
    if a != 0 && b != 0 {
      XorBound(a / 2, b / 2, n - 1);
    }
  }

  lemma {:induction false} XorCancel(a: nat, b: nat)
    ensures Xor(Xor(a, b), b) == a
    decreases a + b
  {
    if a != 0 && b != 0 {
      XorStep(a, b);
      XorStep(Xor(a, b), b);
      XorCancel(a / 2, b / 2);
    } else if b != 0 {
      XorZero(b, b);
    }
  }

  lemma {:induction false} XorZero(a: nat, b: nat)
    ensures Xor(a, b) == 0 <==> a == b
    decreases a + b
  {
    if a != 0 && b != 0 {
      XorZero(a / 2, b / 2);
    }
  }

  /** Masking two words with one mask and comparing is masking their difference. */
  lemma {:induction false} AndOverXor(a: nat, b: nat, m: nat)
    ensures And(Xor(a, b), m) == Xor(And(a, m), And(b, m))
    decreases a + b + m
  {
    if m != 0 && a != 0 && b != 0 {
      AndOverXor(a / 2, b / 2, m / 2);
      XorStep(a, b);
      AndStep(Xor(a, b), m);
      AndStep(a, m);
      AndStep(b, m);
      XorStep(And(a, m), And(b, m));
    }
  }

  lemma XorStep(a: nat, b: nat)
    ensures Xor(a, b) / 2 == Xor(a / 2, b / 2)
    ensures Xor(a, b) % 2 == (if a % 2 != b % 2 then 1 else 0)
  {}

  lemma AndStep(a: nat, b: nat)
    ensures And(a, b) / 2 == And(a / 2, b / 2)
    ensures And(a, b) % 2 == (if a % 2 == 1 && b % 2 == 1 then 1 else 0)
  {}

  lemma {:induction false} XorShift(a: nat, b: nat, n: nat)
    ensures Shr(Xor(a, b), n) == Xor(Shr(a, n), Shr(b, n))
    decreases n
  {
    if n > 0 {
      XorShift(a / 2, b / 2, n - 1);
      XorStep(a, b);
    }
  }

  /** Xor of two xors may be regrouped. */
  lemma {:induction false} XorSwap(a: nat, b: nat, c: nat, d: nat)
    ensures Xor(Xor(a, b), Xor(c, d)) == Xor(Xor(a, c), Xor(b, d))
    decreases a + b + c + d
  {
    hide Xor;
    XorStep(a, b);
    XorStep(c, d);
    XorStep(a, c);
    XorStep(b, d);
    XorStep(Xor(a, b), Xor(c, d));
    XorStep(Xor(a, c), Xor(b, d));
    if a + b + c + d == 0 {
      XorZero(0, 0);
    } else {
      XorSwap(a / 2, b / 2, c / 2, d / 2);
    }
  }

  /** What is shifted out of a word has no part in what stays. */
  lemma {:induction false} XorLow(a: nat, b: nat, n: nat)
    ensures Xor(a, b) % Pow2(n) == Xor(a % Pow2(n), b % Pow2(n))
  {
    if n == 0 {
      XorZero(0, 0);
    } else {
      hide Xor;
      XorStep(a, b);
      XorStep(a % Pow2(n), b % Pow2(n));
      LowBits(a, Pow2(n - 1));
      LowBits(b, Pow2(n - 1));
      LowBits(Xor(a, b), Pow2(n - 1));
      XorLow(a / 2, b / 2, n - 1);
    }
  }

  lemma LowBits(a: nat, d: nat)
    requires d >= 1
    ensures a % (2 * d) / 2 == a / 2 % d && a % (2 * d) % 2 == a % 2
  {
    var q, r := a / 2 / d, a / 2 % d;
    assert a / 2 == q * d + r;
    assert a == q * (2 * d) + (2 * r + a % 2);
    DivUnique(a, 2 * d, q, 2 * r + a % 2);
  }

  lemma {:induction false} XorScaled(a: nat, b: nat, n: nat)
    ensures Xor(a * Pow2(n), b * Pow2(n)) == Xor(a, b) * Pow2(n)
  {
    hide Xor;
    if n > 0 {
      hide Pow2;
      XorScaled(a, b, n - 1);
      Pow2Next(n - 1);
      XorDoubled(a, b, Pow2(n - 1));
    }
  }

  lemma XorDoubled(a: nat, b: nat, d: nat)
    requires Xor(a * d, b * d) == Xor(a, b) * d
    ensures Xor(a * (2 * d), b * (2 * d)) == Xor(a, b) * (2 * d)
  {
    hide Xor;
    Doubled(a, d);
    Doubled(b, d);
    Doubled(Xor(a, b), d);
    XorEven(a * d, b * d);
  }

  lemma XorEven(a: nat, b: nat)
    ensures Xor(2 * a, 2 * b) == 2 * Xor(a, b)
  {
    hide Xor;
    XorStep(2 * a, 2 * b);
  }

  lemma Zeroes(n: nat)
    ensures Shl64(0, n) == 0 && Shr64(0, n) == 0 && Xor64(0, 0) == 0
  {
    hide Pow2;
    ShrBound(0, n);
    assert 0 * Pow2(n) == 0;
  }

  lemma ShlXor(a: uint64, b: uint64, n: nat)
    ensures Shl64(Xor64(a, b), n) == Xor64(Shl64(a, n), Shl64(b, n))
  {
    hide Xor, Pow2;
    Pow2Values();
    XorScaled(a, b, n);
    XorLow(a * Pow2(n), b * Pow2(n), 64);
  }

  /** A word that its own shift leaves alone is zero. */
  lemma FixedByShr(d: nat, n: nat)
    requires n > 0 && Shr(d, n) == d
    ensures d == 0
  {
    ShrBound(d / 2, n - 1);
  }

  lemma FixedByShl(d: uint64)
    requires Shl64(d, 23) == d
    ensures d == 0
  {
    hide Pow2;
    Pow2Values();
    Pow2Add(16, 7);
    Pow2Seven();
    var q := d * 0x80_0000 / (MAX64 + 1);
    assert d * 0x7F_FFFF == q * (MAX64 + 1);
    assert d == (MAX64 + 1) * (32 * d - q * 0x400000800001);
  }

  lemma Pow2Seven()
    ensures Pow2(7) == 128
  {
    assert Pow2(3) == 8;
  }

  lemma {:induction false} AndOnes(x: nat, w: nat)
    requires x < Pow2(w)
    ensures And(x, Pow2(w) - 1) == x
  {
    if w > 0 && x > 0 {
      hide And;
      AndOnes(x / 2, w - 1);
      AndStep(x, Pow2(w) - 1);
    }
  }

  /** A mask of ones above bit k clears the k low bits. */
  lemma {:induction false} AndHighOnes(x: nat, w: nat, k: nat)
    requires x < Pow2(w) && k <= w
    ensures Pow2(k) <= Pow2(w)
    ensures And(x, Pow2(w) - Pow2(k)) == Shr(x, k) * Pow2(k)
    decreases k
  {
    Pow2Monotone(k, w);
    if k == 0 {
      AndOnes(x, w);
    } else {
      AndHighOnes(x / 2, w - 1, k - 1);
      DoubledMask(x, Pow2(w - 1) - Pow2(k - 1), Shr(x, k), Pow2(k - 1));
    }
  }

  lemma DoubledMask(x: nat, m: nat, q: nat, d: nat)
    requires And(x / 2, m) == q * d
    ensures And(x, 2 * m) == q * (2 * d)
  {
    hide And;
    AndStep(x, 2 * m);
    assert 2 * m / 2 == m;
    Doubled(q, d);
  }

  /** The shifts by whole bytes that take addresses apart. */
  lemma ByteShifts(x: nat)
    ensures Shr(x, 0) == x && Shr(x, 8) == x / 0x100 && Shr(x, 16) == x / 0x1_0000 && Shr(x, 24) == x / 0x100_0000
    ensures Shr(x, 32) == x / 0x1_0000_0000 && Shr(x, 48) == x / 0x1_0000_0000_0000
  {
    hide Pow2;
    Pow2Values();
    Pow2Add(16, 8);
    Pow2Add(32, 16);
    ShrDivides(x, 8);
    ShrDivides(x, 16);
    ShrDivides(x, 24);
    ShrDivides(x, 32);
    ShrDivides(x, 48);
  }

  lemma Doubled(q: int, d: int)
    ensures 2 * (q * d) == q * (2 * d)
  {}

  // ---------------------------------------------------------------- single bits

  predicate Bit(a: nat, k: nat) {
    Shr(a, k) % 2 == 1
  }

  lemma XorBit(a: nat, b: nat, k: nat)
    ensures Bit(Xor(a, b), k) <==> Bit(a, k) != Bit(b, k)
  {
    hide Xor, Shr;
    XorShift(a, b, k);
    XorStep(Shr(a, k), Shr(b, k));
  }

  lemma {:induction false} ShrBit(a: nat, n: nat, k: nat)
    ensures Bit(Shr(a, n), k) <==> Bit(a, n + k)
  {
    if n > 0 {
      ShrBit(a / 2, n - 1, k);
    }
  }

  lemma {:induction false} LowBit(a: nat, m: nat, k: nat)
    ensures Bit(a % Pow2(m), k) <==> k < m && Bit(a, k)
    decreases m
  {
    if m == 0 {
      ShrBound(0, k);
    } else {
      LowBits(a, Pow2(m - 1));
      if k > 0 {
        LowBit(a / 2, m - 1, k - 1);
      }
    }
  }

  lemma {:induction false} ScaledBit(a: nat, n: nat, k: nat)
    ensures Bit(a * Pow2(n), k) <==> n <= k && Bit(a, k - n)
    decreases n
  {
    if n > 0 {
      Doubled(a, Pow2(n - 1));
      if k > 0 {
        ScaledBit(a, n - 1, k - 1);
      }
    }
  }

  /** Shifting a machine word up moves every bit, and loses those that do not fit. */
  lemma ShlBit(a: uint64, n: nat, k: nat)
    ensures Bit(Shl64(a, n), k) <==> n <= k < 64 && Bit(a, k - n)
  {
    hide Pow2, Bit;
    Pow2Values();
    LowBit(a * Pow2(n), 64, k);
    ScaledBit(a, n, k);
  }
}
