/** Network prefixes: membership, overlap and canonical form, against integer division. */
module IpPrefix {
  import opened Bits
  import opened Ints
  import opened IpAddr
  import opened IpBits
  import opened Options
  import opened Powers

  datatype Prefix = Prefix(ip: Addr, bitsPlusOne: nat) {
    predicate IsValid() { bitsPlusOne > 0 }

    function Bits(): int { bitsPlusOne - 1 }

    predicate IsSingleIP() { IsValid() && Bits() == ip.BitLen() }

    function Masked(): Prefix {
      var m := Keep(ip, Bits());
      if m.Some? then m.value else NO_PREFIX
    }

    predicate Contains(a: Addr)
      requires Made(this)
    {
      if !IsValid() || a.HasZone() then false
      else if ip.BitLen() == 0 || a.BitLen() == 0 || ip.BitLen() != a.BitLen() then false
      else if a.Is4() then
        Shr64(Xor64(a.addr.lo, ip.addr.lo), And(32 - Bits(), 63)) % 0x1_0000_0000 == 0
      else a.addr.Differ(ip.addr).Meet(Mask6(Bits())).IsZero()
    }

    predicate Overlaps(o: Prefix) {
      if !IsValid() || !o.IsValid() then false
      else if this == o then true
      else if ip.Is4() != o.ip.Is4() then false
      else
        var minBits := if Bits() < o.Bits() then Bits() else o.Bits();
        if minBits == 0 then true
        else
          var p, q := Keep(ip, minBits), Keep(o.ip, minBits);
          p.Some? && q.Some? && p.value.ip == q.value.ip
    }
  }

  const NO_PREFIX: Prefix := Prefix(ZERO, 0)

  function PrefixFrom(ip: Addr, bits: int): Prefix {
    Prefix(ip.WithoutZone(), if !ip.z.Z0? && 0 <= bits <= ip.BitLen() then bits + 1 else 0)
  }

  /** The source's Addr.Prefix: keeps the top b bits of ip, or fails when b is out of range. */
  function Keep(ip: Addr, b: int): Option<Prefix> {
    if b < 0 then None
    else match ip.z
      case Z0 => Some(NO_PREFIX)
      case Z4 => if b > 32 then None else Some(PrefixFrom(Addr(ip.addr.Meet(Mask6(b + 96)), Z4), b))
      case Z6(_) => if b > 128 then None else Some(PrefixFrom(Addr(ip.addr.Meet(Mask6(b)), ip.z), b))
  }

  /** What every prefix built by this package satisfies. */
  predicate Made(p: Prefix) {
    && Proper(p.ip)
    && !p.ip.HasZone()
    && p.Bits() <= p.ip.BitLen()
    && (p.ip.z.Z0? ==> p.bitsPlusOne == 0)
  }

  /** The network part of an address: its number without the host bits. */
  function Network(ip: Addr, bits: int): int
    requires 0 <= bits <= ip.BitLen()
  {
    ip.Number() / Pow2(ip.BitLen() - bits)
  }

  /** Every constructor makes such a prefix, and PrefixFrom is valid exactly for a length in range. */
  lemma PrefixFromMade(ip: Addr, bits: int)
    requires Proper(ip)
    ensures Made(PrefixFrom(ip, bits))
    ensures PrefixFrom(ip, bits).IsValid() <==> !ip.z.Z0? && 0 <= bits <= ip.BitLen()
    ensures PrefixFrom(ip, bits).IsValid() ==> PrefixFrom(ip, bits).Bits() == bits
  {}

  /** Masking an IPv4 address in its mapped form keeps the 96 bits of the map. */
  lemma Keep4(ip: Addr, b: nat)
    requires IpAddr.IsValid(ip) && ip.Is4() && b <= 32
    ensures var m := Addr(ip.addr.Meet(Mask6(b + 96)), Z4);
      && Proper(m)
      && m.Number() == ip.Number() / Pow2(32 - b) * Pow2(32 - b)
  {
    hide Mask6, Pow2, And;
    Pow2Values();
    MaskedValue(ip.addr, b + 96);
    Pow2Add(b, 32 - b);
    var d, e := Pow2(32 - b), Pow2(b);
    LowMasked(0xffff, ip.Number(), e, d);
    Distribute(0xffff, e, ip.Number() / d, d);
    QuotientBound(ip.Number(), e, d);
    var m := ip.addr.Meet(Mask6(b + 96));
    assert m.Value() == 0xffff * 0x1_0000_0000 + ip.Number() / d * d;
  }

  lemma QuotientBound(x: nat, e: nat, d: nat)
    requires d >= 1 && x < e * d
    ensures 0 <= x / d < e
    ensures 0 <= x / d * d <= x
  {
    var q := x / d;
    assert x == q * d + x % d;
    if q >= e {
      MulOrder(e, q, d);
    }
  }

  lemma MulOrder(x: int, y: int, d: nat)
    requires x <= y
    ensures x * d <= y * d
  {
    assert (y - x) * d >= 0;
  }

  /** Keeping b bits rounds the number down to a multiple of 2^(BitLen-b), and fails exactly out of range. */
  lemma KeepNumber(ip: Addr, b: int)
    requires IpAddr.IsValid(ip)
    ensures Keep(ip, b).Some? <==> 0 <= b <= ip.BitLen()
    ensures Keep(ip, b).Some? ==>
              var p := Keep(ip, b).value;
              && Made(p) && p.IsValid() && p.Bits() == b
              && p.ip.z == ip.WithoutZone().z
              && p.ip.Number() == ip.Number() / Pow2(ip.BitLen() - b) * Pow2(ip.BitLen() - b)
  {
    hide Mask6, Pow2, And;
    if 0 <= b <= ip.BitLen() {
      if ip.Is4() {
        Keep4(ip, b);
      } else {
        MaskedValue(ip.addr, b);
      }
    }
  }

  // ---------------------------------------------------------------- membership

  /** Two IPv4 words differ only below bit 32, so the truncation and the shift mask lose nothing. */
  lemma Contains4(x: uint64, y: uint64, k: nat)
    requires x / 0x1_0000_0000 == 0xffff && y / 0x1_0000_0000 == 0xffff && k <= 32
    ensures Shr64(Xor64(x, y), And(k, 63)) % 0x1_0000_0000 == 0
      <==> x % 0x1_0000_0000 / Pow2(k) == y % 0x1_0000_0000 / Pow2(k)
  {
    hide Shr, Xor, And, Pow2;
    AndSixBits(k);
    DifferBelow(x, y);
    ShrBound(Xor(x, y), k);
    XorShift(x, y, k);
    XorZero(Shr(x, k), Shr(y, k));
    MappedAgree(x, y, k);
  }

  lemma DifferBelow(x: nat, y: nat)
    requires x / 0x1_0000_0000 == 0xffff && y / 0x1_0000_0000 == 0xffff
    ensures Xor(x, y) < 0x1_0000_0000
  {
    hide Shr, Xor;
    XorShift(x, y, 32);
    ByteShifts(Xor(x, y));
    ByteShifts(x);
    ByteShifts(y);
    XorZero(0xffff, 0xffff);
  }

  lemma MappedAgree(x: nat, y: nat, k: nat)
    requires x / 0x1_0000_0000 == 0xffff && y / 0x1_0000_0000 == 0xffff && k <= 32
    ensures Shr(x, k) == Shr(y, k) <==> x % 0x1_0000_0000 / Pow2(k) == y % 0x1_0000_0000 / Pow2(k)
  {
    hide Shr, Pow2;
    MappedShift(x, k);
    MappedShift(y, k);
  }

  lemma MappedShift(x: nat, k: nat)
    requires x / 0x1_0000_0000 == 0xffff && k <= 32
    ensures Shr(x, k) == 0xffff * Pow2(32 - k) + x % 0x1_0000_0000 / Pow2(k)
  {
    hide Shr, Pow2;
    ShrDivides(x, k);
    Pow2Values();
    Pow2Add(32 - k, k);
    LowMasked(0xffff, x % 0x1_0000_0000, Pow2(32 - k), Pow2(k));
  }

  lemma AndSixBits(k: nat)
    requires k <= 32
    ensures And(k, 63) == k
  {
    assert Pow2(6) == 64;
    AndOnes(k, 6);
  }

  /** A prefix contains an address exactly when the families match, it has no zone, and the networks agree. */
  lemma ContainsIff(p: Prefix, a: Addr)
    requires Made(p) && Proper(a)
    ensures p.Contains(a) <==>
              p.IsValid() && a.z == p.ip.z && Network(a, p.Bits()) == Network(p.ip, p.Bits())
  {
    hide Shr64, Xor64, Mask6, Pow2, And;
    if p.IsValid() && a.z == p.ip.z {
      if a.Is4() {
        Contains4(a.addr.lo, p.ip.addr.lo, 32 - p.Bits());
      } else {
        MaskedDiffer(a.addr, p.ip.addr, p.Bits());
      }
    }
  }

  lemma ContainsItself(p: Prefix)
    requires Made(p) && p.IsValid()
    ensures p.Contains(p.ip)
  {
    ContainsIff(p, p.ip);
  }

  /** Agreeing on more bits is agreeing on fewer. */
  lemma Coarser(a: Addr, b: Addr, few: int, many: int)
    requires a.z == b.z && 0 <= few <= many <= a.BitLen()
    requires Network(a, many) == Network(b, many)
    ensures Network(a, few) == Network(b, few)
  {
    hide Pow2;
    var len := a.BitLen();
    Pow2Add(many - few, len - many);
    DivTwice(a.Number(), Pow2(many - few), Pow2(len - many));
    DivTwice(b.Number(), Pow2(many - few), Pow2(len - many));
  }

  lemma DivTwice(x: nat, e: nat, d: nat)
    requires e >= 1 && d >= 1
    ensures e * d >= 1
    ensures x / (e * d) == x / d / e
  {
    DivParts(x, e, d, x / d, x % d, x / d / e, x / d % e);
  }

  lemma DivParts(x: nat, e: nat, d: nat, q: int, r: nat, q': int, r': nat)
    requires x == q * d + r && r < d
    requires q == q' * e + r' && r' < e
    ensures e * d >= 1
    ensures x / (e * d) == q'
  {
    Distribute(q', e, r', d);
    MulGap(r', e, d);
    DivUnique(x, e * d, q', r' * d + r);
  }

  // ---------------------------------------------------------------- overlap

  /** The shorter of two lengths. */
  function Shorter(p: Prefix, o: Prefix): int {
    if p.Bits() < o.Bits() then p.Bits() else o.Bits()
  }

  /** Overlapping is agreeing on the bits both prefixes fix. */
  lemma OverlapsNetwork(p: Prefix, o: Prefix)
    requires Made(p) && Made(o)
    ensures p.Overlaps(o) <==>
              && p.IsValid() && o.IsValid() && p.ip.z == o.ip.z
              && Network(p.ip, Shorter(p, o)) == Network(o.ip, Shorter(p, o))
  {
    hide Keep, Pow2;
    if p.IsValid() && o.IsValid() && p.ip.z == o.ip.z {
      var min := Shorter(p, o);
      KeepNumber(p.ip, min);
      KeepNumber(o.ip, min);
      DivEqual(p.ip.Number(), o.ip.Number(), Pow2(p.ip.BitLen() - min));
      var a, b := Keep(p.ip, min).value.ip, Keep(o.ip, min).value.ip;
      if a.Number() == b.Number() {
        NumberUnique(a, b);
      }
      if min == 0 {
        WholeNetwork(p.ip);
        WholeNetwork(o.ip);
      }
    }
  }

  lemma WholeNetwork(ip: Addr)
    requires IpAddr.IsValid(ip)
    ensures Network(ip, 0) == 0
  {
    hide Pow2;
    Pow2Values();
    Pow2Add(64, 64);
    NumberLimit(ip);
  }

  /** Two prefixes overlap exactly when some address is in both. */
  lemma OverlapsIff(p: Prefix, o: Prefix)
    requires Made(p) && Made(o)
    ensures p.Overlaps(o) <==> exists a: Addr :: Proper(a) && p.Contains(a) && o.Contains(a)
  {
    hide Prefix.Contains, Prefix.Overlaps, Network;
    OverlapsNetwork(p, o);
    if p.Overlaps(o) {
      Covers(if p.Bits() < o.Bits() then p else o, if p.Bits() < o.Bits() then o else p);
      ContainsItself(p);
      ContainsItself(o);
    }
    if a: Addr :| Proper(a) && p.Contains(a) && o.Contains(a) {
      ContainsIff(p, a);
      ContainsIff(o, a);
      Coarser(a, p.ip, Shorter(p, o), p.Bits());
      Coarser(a, o.ip, Shorter(p, o), o.Bits());
    }
  }

  lemma Covers(wide: Prefix, narrow: Prefix)
    requires Made(wide) && Made(narrow) && wide.IsValid() && wide.Bits() <= narrow.Bits()
    requires wide.ip.z == narrow.ip.z && Network(wide.ip, wide.Bits()) == Network(narrow.ip, wide.Bits())
    ensures wide.Contains(narrow.ip)
  {
    ContainsIff(wide, narrow.ip);
  }

  /** Overlapping prefixes are nested: the longer one's addresses are all in the shorter one. */
  lemma OverlapNests(wide: Prefix, narrow: Prefix, a: Addr)
    requires Made(wide) && Made(narrow) && Proper(a)
    requires wide.Overlaps(narrow) && wide.Bits() <= narrow.Bits()
    ensures narrow.Contains(a) ==> wide.Contains(a)
  {
    hide Prefix.Contains, Prefix.Overlaps, Network;
    OverlapsNetwork(wide, narrow);
    if narrow.Contains(a) {
      ContainsIff(narrow, a);
      Coarser(a, narrow.ip, wide.Bits(), narrow.Bits());
      ContainsIff(wide, a);
    }
  }

  // ---------------------------------------------------------------- canonical form

  lemma MaskedNumber(p: Prefix)
    requires Made(p) && p.IsValid()
    ensures Made(p.Masked()) && p.Masked().IsValid() && p.Masked().Bits() == p.Bits() && p.Masked().ip.z == p.ip.z
    ensures p.Masked().ip.Number() == Network(p.ip, p.Bits()) * Pow2(p.ip.BitLen() - p.Bits())
    ensures Network(p.Masked().ip, p.Bits()) == Network(p.ip, p.Bits())
  {
    hide Keep, Pow2;
    KeepNumber(p.ip, p.Bits());
    var d := Pow2(p.ip.BitLen() - p.Bits());
    Rounded(p.ip.Number(), d);
  }

  lemma Rounded(x: nat, d: nat)
    requires d >= 1
    ensures x / d * d / d == x / d
  {
    var q := x / d;
    MulOrder(1, d, x + 1);
    QuotientBound(x, x + 1, d);
    DivUnique(q * d, d, q, 0);
  }

  /** Masking an invalid prefix gives the zero prefix. */
  lemma MaskedInvalid(p: Prefix)
    requires Made(p) && !p.IsValid()
    ensures p.Masked() == NO_PREFIX
  {}

  /** Masking keeps exactly the members, and masking again changes nothing. */
  lemma MaskedSameMembers(p: Prefix, a: Addr)
    requires Made(p) && Proper(a)
    ensures Made(p.Masked())
    ensures p.Masked().Contains(a) <==> p.Contains(a)
    ensures p.Masked().Masked() == p.Masked()
  {
    hide Prefix.Contains, Network, Keep, Pow2;
    if p.IsValid() {
      MaskedNumber(p);
      MaskedNumber(p.Masked());
      ContainsIff(p, a);
      ContainsIff(p.Masked(), a);
      NumberUnique(p.Masked().Masked().ip, p.Masked().ip);
    } else {
      MaskedInvalid(p);
      MaskedInvalid(NO_PREFIX);
      NothingContained(p, a);
      NothingContained(NO_PREFIX, a);
    }
  }

  lemma NothingContained(p: Prefix, a: Addr)
    requires Made(p) && !p.IsValid()
    ensures !p.Contains(a)
  {}

  ghost predicate SameMembers(p: Prefix, o: Prefix)
    requires Made(p) && Made(o)
  {
    forall a: Addr :: Proper(a) ==> (p.Contains(a) <==> o.Contains(a))
  }

  /** The address of a family with a given number. */
  function WithNumber(ip: Addr, n: nat): (a: Addr)
    requires IpAddr.IsValid(ip) && n <= Last(ip)
    ensures IpAddr.IsValid(a) && a.z == ip.z && a.Number() == n
  {
    if ip.Is4() then Addr(U128(0, 0xffff * 0x1_0000_0000 + n), Z4)
    else Addr(U128(n / 0x1_0000_0000_0000_0000, n % 0x1_0000_0000_0000_0000), ip.z)
  }

  /** The neighbour of network q: the one that differs in the last network bit. */
  function Neighbour(q: nat): nat {
    if q % 2 == 0 then q + 1 else q - 1
  }

  lemma NeighbourNumber(x: nat, e: nat, d: nat)
    requires e >= 1 && d >= 1 && x < 2 * e * d
    ensures x / d >= 0
    ensures 0 <= Neighbour(x / d) * d < 2 * e * d
    ensures Neighbour(x / d) * d / d == Neighbour(x / d)
    ensures Neighbour(x / d) * d / (2 * d) == x / (2 * d)
  {
    QuotientBound(x, 2 * e, d);
    var q := x / d;
    var n := Neighbour(q);
    MulGap(n, 2 * e, d);
    DivUnique(n * d, d, n, 0);
    DivTwice(n * d, 2, d);
    DivTwice(x, 2, d);
  }

  /** A longer prefix misses some address of a shorter one. */
  lemma LongerIsSmaller(p: Prefix, o: Prefix) returns (a: Addr)
    requires Made(p) && Made(o) && p.IsValid() && o.IsValid()
    requires p.Bits() < o.Bits() && p.Contains(o.ip)
    ensures Proper(a) && p.Contains(a) && !o.Contains(a)
  {
    hide Prefix.Contains, Pow2, Neighbour;
    ContainsIff(p, o.ip);
    var len, bits := o.ip.BitLen(), o.Bits();
    var x, d, e := o.ip.Number(), Pow2(len - bits), Pow2(bits - 1);
    Pow2Add(bits - 1, len - bits);
    Pow2Add(bits, len - bits);
    FamilySize(o.ip);
    Pow2Next(bits - 1);
    Pow2Next(len - bits);
    NeighbourNumber(x, e, d);
    var n := Neighbour(x / d) * d;
    a := WithNumber(o.ip, n);
    NeighbourDiffers(x / d);
    Coarser(a, o.ip, p.Bits(), bits - 1);
    ContainsIff(p, a);
    ContainsIff(o, a);
  }

  lemma NeighbourDiffers(q: nat)
    ensures Neighbour(q) != q
  {}

  lemma FamilySize(ip: Addr)
    requires IpAddr.IsValid(ip)
    ensures Pow2(ip.BitLen()) == Last(ip) + 1
    ensures ip.Number() <= Last(ip)
  {
    hide Pow2;
    Pow2Values();
    Pow2Add(64, 64);
    NumberLimit(ip);
  }

  /** Two valid prefixes mask to the same value exactly when they hold the same addresses. */
  lemma MaskedIsCanonical(p: Prefix, o: Prefix)
    requires Made(p) && Made(o) && p.IsValid() && o.IsValid()
    ensures p.Masked() == o.Masked() <==> SameMembers(p, o)
  {
    hide Prefix.Contains, Prefix.Masked, Network, Pow2;
    if p.Masked() == o.Masked() {
      forall a: Addr | Proper(a)
        ensures p.Contains(a) <==> o.Contains(a)
      {
        MaskedSameMembers(p, a);
        MaskedSameMembers(o, a);
      }
    }
    if SameMembers(p, o) {
      ContainsItself(p);
      ContainsItself(o);
      SameLength(p, o);
      SameLength(o, p);
      ContainsIff(p, o.ip);
      MaskedNumber(p);
      MaskedNumber(o);
      NumberUnique(p.Masked().ip, o.Masked().ip);
    }
  }

  lemma SameLength(p: Prefix, o: Prefix)
    requires Made(p) && Made(o) && p.IsValid() && o.IsValid()
    requires SameMembers(p, o)
    ensures p.Bits() >= o.Bits()
  {
    hide Prefix.Contains;
    ContainsItself(o);
    if p.Bits() < o.Bits() {
      var a := LongerIsSmaller(p, o);
    }
  }

  /** A prefix is a single address exactly when it contains no other one. */
  lemma SingleIP(p: Prefix)
    requires Made(p) && p.IsValid()
    ensures p.IsSingleIP() <==> forall a: Addr :: Proper(a) && p.Contains(a) ==> a == p.ip
  {
    hide Prefix.Contains;
    if p.IsSingleIP() {
      forall a: Addr | Proper(a) && p.Contains(a)
        ensures a == p.ip
      {
        ContainsIff(p, a);
        FullNetwork(a);
        FullNetwork(p.ip);
        NumberUnique(a, p.ip);
      }
    } else {
      var o := Prefix(p.ip, p.ip.BitLen() + 1);
      ContainsItself(p);
      ContainsItself(o);
      var a := LongerIsSmaller(p, o);
    }
  }

  lemma FullNetwork(ip: Addr)
    ensures Network(ip, ip.BitLen()) == ip.Number()
  {}
}
