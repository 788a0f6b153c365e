/** Powers of two, bit lengths, and the quotient and remainder laws used with them. */
module Powers {
  function Pow2(n: nat): (r: nat)
    ensures 1 <= r
  {
    if n == 0 then 1 else 2 * Pow2(n - 1)
  }

  /** The number of bits needed for x; zero needs none. */
  function BitLen(x: nat): nat {
    if x == 0 then 0 else 1 + BitLen(x / 2)
  }

  lemma BitLenZero(x: nat)
    ensures BitLen(x) == 0 <==> x == 0
  {}

  lemma {:induction false} BitLenBound(x: nat, n: nat)
    requires x < Pow2(n)
    ensures BitLen(x) <= n
  {
    if x > 0 {
      BitLenBound(x / 2, n - 1);
    }
  }

  lemma {:induction false} Pow2Monotone(m: nat, n: nat)
    requires m <= n
    ensures Pow2(m) <= Pow2(n)
  {
    if m < n {
      Pow2Monotone(m, n - 1);
    }
  }

  lemma Pow2Next(n: nat)
    ensures Pow2(n + 1) == 2 * Pow2(n)
  {}

  lemma {:induction false} Pow2Add(m: nat, n: nat)
    ensures Pow2(m + n) == Pow2(m) * Pow2(n)
  {
    if m > 0 {
      Pow2Add(m - 1, n);
    }
  }

  lemma Pow2Values()
    ensures Pow2(8) == 0x100 && Pow2(16) == 0x1_0000 && Pow2(32) == 0x1_0000_0000
    ensures Pow2(38) == 0x40_0000_0000 && Pow2(40) == 0x100_0000_0000
    ensures Pow2(64) == 0x1_0000_0000_0000_0000
  {
    assert Pow2(4) == 16 && Pow2(6) == 64;
    Pow2Add(4, 4);
    Pow2Add(8, 8);
    Pow2Add(16, 16);
    Pow2Add(32, 6);
    Pow2Add(32, 8);
    Pow2Add(32, 32);
  }

  lemma DivUnique(a: nat, d: nat, q: int, r: nat)
    requires a == q * d + r && r < d
    ensures a / d == q && a % d == r
  {
    var q' := a / d;
    var r' := a % d;
    assert a == q' * d + r';
    if q' < q {
      MulGap(q', q, d);
    } else if q < q' {
      MulGap(q, q', d);
    }
  }

  lemma {:induction false} MulGap(x: int, y: int, d: nat)
    requires x < y
    ensures x * d + d <= y * d
    decreases y - x
  {
    MulNext(y - 1, d);
    if x + 1 < y {
      MulGap(x, y - 1, d);
    }
  }

  lemma MulNext(x: int, d: nat)
    ensures (x + 1) * d == x * d + d
  {}
}
