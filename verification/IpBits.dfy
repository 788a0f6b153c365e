/**
 * The 128-bit words behind IP addresses, as two 64-bit halves, and what their
 * masks mean as integer division.
 */
module IpBits {
  import opened Bits
  import opened Ints
  import opened Powers

  datatype U128 = U128(hi: uint64, lo: uint64) {
    function Value(): nat {
      hi * 0x1_0000_0000_0000_0000 + lo
    }

    predicate IsZero() {
      hi == 0 && lo == 0
    }

    function Meet(m: U128): U128 {
      AndBound(hi, m.hi);
      AndBound(lo, m.lo);
      U128(And(hi, m.hi), And(lo, m.lo))
    }

    function Differ(m: U128): U128 {
      U128(Xor64(hi, m.hi), Xor64(lo, m.lo))
    }

    /** The low half plus one; its carry goes to the high half, whose carry is lost. */
    function AddOne(): U128 {
      if lo < MAX64 then U128(hi, lo + 1) else U128(if hi < MAX64 then hi + 1 else 0, 0)
    }

    function SubOne(): U128 {
      if lo > 0 then U128(hi, lo - 1) else U128(if hi > 0 then hi - 1 else MAX64, MAX64)
    }
  }

  function Mask6(n: nat): U128
    requires n <= 128
  {
    U128(Not64(Shr64(MAX64, n)), Shl64(MAX64, 128 - n))
  }

  lemma ShrOnes(n: nat)
    ensures Shr64(MAX64, n) == if n <= 64 then Pow2(64 - n) - 1 else 0
  {
    hide Shr;
    Pow2Values();
    ShrDivides(MAX64, n);
    if n <= 64 {
      Pow2Add(64 - n, n);
      OnesOver(Pow2(64 - n), Pow2(n));
    } else {
      Pow2Monotone(65, n);
      DivUnique(MAX64, Pow2(n), 0, MAX64);
    }
  }

  lemma OnesOver(e: nat, d: nat)
    requires e >= 1 && d >= 1
    ensures (e * d - 1) / d == e - 1
  {
    assert e * d - 1 == (e - 1) * d + (d - 1);
    DivUnique(e * d - 1, d, e - 1, d - 1);
  }

  lemma ShlOnes(n: nat)
    requires n <= 128
    ensures n <= 64 ==> Pow2(n) <= MAX64 + 1
    ensures Shl64(MAX64, n) == if n <= 64 then MAX64 + 1 - Pow2(n) else 0
  {
    hide Pow2;
    Pow2Values();
    if n <= 64 {
      Pow2Monotone(n, 64);
      LostOnes(MAX64 + 1, Pow2(n));
    } else {
      Pow2Add(n - 64, 64);
      Multiple(MAX64 * Pow2(n - 64), MAX64 + 1);
    }
  }

  lemma LostOnes(t: nat, d: nat)
    requires 1 <= d <= t
    ensures (t - 1) * d % t == t - d
  {
    assert (t - 1) * d == (d - 1) * t + (t - d);
    DivUnique((t - 1) * d, t, d - 1, t - d);
  }

  lemma Multiple(q: nat, t: nat)
    requires t >= 1
    ensures q * t % t == 0
  {
    DivUnique(q * t, t, q, 0);
  }

  /** Below 64 bits the mask lies in the high half, above in both. */
  lemma MaskHalves(n: nat)
    requires n <= 128
    ensures Mask6(n).hi == if n <= 64 then MAX64 + 1 - Pow2(64 - n) else MAX64
    ensures Mask6(n).lo == if n < 64 then 0 else MAX64 + 1 - Pow2(128 - n)
  {
    hide Shr64, Shl64, Pow2;
    ShrOnes(n);
    ShlOnes(128 - n);
  }

  lemma HighMasked(hi: nat, lo: nat, t: nat, d: nat)
    requires lo < t && d >= 1
    ensures (hi * t + lo) / (d * t) == hi / d
  {
    HighParts(hi, lo, t, d, hi / d, hi % d);
  }

  lemma HighParts(hi: nat, lo: nat, t: nat, d: nat, q: int, r: nat)
    requires lo < t && r < d && hi == q * d + r
    ensures (hi * t + lo) / (d * t) == q
  {
    Distribute(q, d, r, t);
    MulGap(r, d, t);
    DivUnique(hi * t + lo, d * t, q, r * t + lo);
  }

  lemma LowMasked(hi: nat, lo: nat, e: nat, d: nat)
    requires d >= 1
    ensures (hi * (e * d) + lo) / d == hi * e + lo / d
  {
    LowParts(hi, lo, e, d, lo / d, lo % d);
  }

  lemma LowParts(hi: nat, lo: nat, e: nat, d: nat, q: int, r: nat)
    requires r < d && lo == q * d + r
    ensures (hi * (e * d) + lo) / d == hi * e + q
  {
    Distribute(hi, e, q, d);
    DivUnique(hi * (e * d) + lo, d, hi * e + q, r);
  }

  /** Masking with the top n bits clears the other 128 - n: integer division, then multiplication. */
  lemma MaskedValue(u: U128, n: nat)
    requires n <= 128
    ensures u.Meet(Mask6(n)).Value() == u.Value() / Pow2(128 - n) * Pow2(128 - n)
  {
    hide *;
    if n < 64 {
      MeetBelow(u, n);
    } else {
      MeetAbove(u, n);
    }
  }

  lemma MeetBelow(u: U128, n: nat)
    requires n < 64
    ensures u.Meet(Mask6(n)).Value() == u.Value() / Pow2(128 - n) * Pow2(128 - n)
  {
    hide Mask6, Pow2, And, Shr;
    var d := Pow2(64 - n);
    Pow2Values();
    MaskHalves(n);
    AndHighOnes(u.hi, 64, 64 - n);
    ShrDivides(u.hi, 64 - n);
    Pow2Add(64 - n, 64);
    HighMasked(u.hi, u.lo, MAX64 + 1, d);
    AndZero(u.lo);
    Regroup(u.hi / d, d, MAX64 + 1);
  }

  lemma AndZero(x: nat)
    ensures And(x, 0) == 0
  {}

  lemma Regroup(x: int, y: int, z: int)
    ensures x * y * z == x * (y * z)
  {}

  lemma MeetAbove(u: U128, n: nat)
    requires 64 <= n <= 128
    ensures u.Meet(Mask6(n)).Value() == u.Value() / Pow2(128 - n) * Pow2(128 - n)
  {
    hide Mask6, Pow2, And, Shr;
    Pow2Values();
    MaskHalves(n);
    var d, e := Pow2(128 - n), Pow2(n - 64);
    AndOnes(u.hi, 64);
    if n == 64 {
      Pow2Zero();
    }
    AndHighOnes(u.lo, 64, 128 - n);
    ShrDivides(u.lo, 128 - n);
    Pow2Add(n - 64, 128 - n);
    LowMasked(u.hi, u.lo, e, d);
    Distribute(u.hi, e, u.lo / d, d);
  }

  lemma Pow2Zero()
    ensures Pow2(0) == 1
  {}

  lemma Distribute(x: int, y: int, z: int, d: int)
    ensures (x * y + z) * d == x * (y * d) + z * d
  {}

  lemma DivEqual(x: nat, y: nat, d: nat)
    requires d >= 1
    ensures x / d * d == y / d * d <==> x / d == y / d
  {
    var p, q := x / d, y / d;
    if p < q {
      MulGap(p, q, d);
    } else if q < p {
      MulGap(q, p, d);
    }
  }

  lemma ValueUnique(a: U128, b: U128)
    requires a.Value() == b.Value()
    ensures a == b
  {}

  /** The difference of two words vanishes under a mask exactly when they agree on its top n bits. */
  lemma MaskedDiffer(a: U128, b: U128, n: nat)
    requires n <= 128
    ensures a.Differ(b).Meet(Mask6(n)).IsZero() <==> a.Value() / Pow2(128 - n) == b.Value() / Pow2(128 - n)
  {
    hide Mask6, Pow2, And, Xor;
    var m := Mask6(n);
    AndOverXor(a.hi, b.hi, m.hi);
    AndOverXor(a.lo, b.lo, m.lo);
    XorZero(And(a.hi, m.hi), And(b.hi, m.hi));
    XorZero(And(a.lo, m.lo), And(b.lo, m.lo));
    MaskedValue(a, n);
    MaskedValue(b, n);
    DivEqual(a.Value(), b.Value(), Pow2(128 - n));
    if a.Meet(m).Value() == b.Meet(m).Value() {
      ValueUnique(a.Meet(m), b.Meet(m));
    }
  }

  const MAX128: nat := 0xFFFF_FFFF_FFFF_FFFF_FFFF_FFFF_FFFF_FFFF

  /** The carry between the halves is right: these are plus one and minus one, wrapping around. */
  lemma OneMoreOneLess(u: U128)
    ensures u.AddOne().Value() == if u.Value() == MAX128 then 0 else u.Value() + 1
    ensures u.SubOne().Value() == if u.Value() == 0 then MAX128 else u.Value() - 1
  {}
}
