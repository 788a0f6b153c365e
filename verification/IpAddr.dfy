/** The address type: a 128-bit number with its family and zone, and its byte and word views. */
module IpAddr {
  import opened Bits
  import opened Bytes
  import opened Ints
  import opened IpBits

  /** The family tag: no address, IPv4, or IPv6 with an interned zone name, empty for none. */
  datatype Family = Z0 | Z4 | Z6(zone: string)

  datatype Addr = Addr(addr: U128, z: Family) {
    predicate Is4() { z.Z4? }

    predicate Is6() { z.Z6? }

    predicate HasZone() { z.Z6? && z.zone != "" }

    predicate Is4In6() {
      Is6() && addr.hi == 0 && Shr64(addr.lo, 32) == 0xffff
    }

    function BitLen(): nat {
      match z
      case Z0 => 0
      case Z4 => 32
      case Z6(_) => 128
    }

    function Unmap(): Addr {
      if Is4In6() then Addr(addr, Z4) else this
    }

    function WithZone(zone: string): Addr {
      if Is6() then Addr(addr, Z6(zone)) else this
    }

    function WithoutZone(): Addr {
      if Is6() then Addr(addr, Z6("")) else this
    }

    /** The 16-bit word i, counted from the most significant one. */
    function Word(i: nat): uint16
      requires i < 8
    {
      Shr64(if i < 4 then addr.hi else addr.lo, (3 - i % 4) * 16) % 0x1_0000
    }

    /** The byte i of an IPv4 address. */
    function V4(i: nat): byte
      requires i < 4
    {
      Shr64(addr.lo, (3 - i) * 8) % 0x100
    }

    /** The address as a number of BitLen bits. */
    function Number(): nat {
      if Is4() then addr.lo % 0x1_0000_0000 else addr.Value()
    }

    function Next(): Addr {
      var n := addr.AddOne();
      if (if Is4() then n.lo % 0x1_0000_0000 == 0 else n.IsZero()) then ZERO else Addr(n, z)
    }

    function Prev(): Addr {
      if (if Is4() then addr.lo % 0x1_0000_0000 == 0 else addr.IsZero()) then ZERO else Addr(addr.SubOne(), z)
    }
  }

  const ZERO: Addr := Addr(U128(0, 0), Z0)

  /** What every address made by this package satisfies: an IPv4 address holds its IPv4-mapped form. */
  predicate Proper(ip: Addr) {
    match ip.z
    case Z0 => ip == ZERO
    case Z4 => ip.addr.hi == 0 && ip.addr.lo / 0x1_0000_0000 == 0xffff
    case Z6(_) => true
  }

  predicate IsValid(ip: Addr) {
    Proper(ip) && !ip.z.Z0?
  }

  function AddrFrom4(b: seq<byte>): (ip: Addr)
    requires |b| == 4
    ensures IsValid(ip) && ip.Is4()
    ensures ip.Number() == b[0] as int * 0x100_0000 + b[1] as int * 0x1_0000 + b[2] as int * 0x100 + b[3]
  {
    Addr(U128(0, 0xffff_0000_0000 + b[0] as int * 0x100_0000 + b[1] as int * 0x1_0000 + b[2] as int * 0x100 + b[3]), Z4)
  }

  function BeUint64(b: seq<byte>): uint64
    requires |b| == 8
  {
    b[7] as int + b[6] as int * 0x100 + b[5] as int * 0x1_0000 + b[4] as int * 0x100_0000
    + b[3] as int * 0x1_0000_0000 + b[2] as int * 0x100_0000_0000
    + b[1] as int * 0x1_0000_0000_0000 + b[0] as int * 0x100_0000_0000_0000
  }

  function AddrFrom16(b: seq<byte>): Addr
    requires |b| == 16
  {
    Addr(U128(BeUint64(b[..8]), BeUint64(b[8..])), Z6(""))
  }

  lemma BigEndian8(b: seq<byte>)
    requires |b| == 8
    ensures BeUint64(b) == BigEndian(b)
  {
    hide BigEndian;
    assert b[..0] == [] && b[..8] == b;
    BigEndianOfNone();
    BigEndianStep(b, 1);
    BigEndianStep(b, 2);
    BigEndianStep(b, 3);
    BigEndianStep(b, 4);
    BigEndianStep(b, 5);
    BigEndianStep(b, 6);
    BigEndianStep(b, 7);
    BigEndianStep(b, 8);
  }

  /** Bytes, most significant first, spell the address's number. */
  lemma BytesSpellNumber(b: seq<byte>)
    ensures |b| == 16 ==> AddrFrom16(b).Number() == BigEndian(b)
    ensures |b| == 4 ==> AddrFrom4(b).Number() == BigEndian(b)
  {
    hide BigEndian, BeUint64;
    if |b| == 16 {
      BigEndian8(b[..8]);
      BigEndian8(b[8..]);
      BigEndianJoin(b, 16);
      assert b[..16] == b;
    } else if |b| == 4 {
      assert b[..0] == [] && b[..4] == b;
      BigEndianOfNone();
      BigEndianStep(b, 1);
      BigEndianStep(b, 2);
      BigEndianStep(b, 3);
      BigEndianStep(b, 4);
    }
  }

  /** The first eight bytes count 2^64 times. */
  lemma BigEndianJoin(b: seq<byte>, n: nat)
    requires |b| == 16 && n == 16
    ensures BigEndian(b[..n]) == BigEndian(b[..8]) * 0x1_0000_0000_0000_0000 + BigEndian(b[8..])
  {
    JoinUpTo(b, 8);
    assert b[8..][..8] == b[8..];
    assert Pow256(4) == 0x1_0000_0000;
    assert Pow256(6) == 0x1_0000_0000_0000;
  }

  lemma {:induction false} JoinUpTo(b: seq<byte>, n: nat)
    requires |b| == 16 && n <= 8
    ensures BigEndian(b[..8 + n]) == BigEndian(b[..8]) * Pow256(n) + BigEndian(b[8..][..n])
  {
    hide BigEndian;
    if n == 0 {
      BigEndianOfNone();
      assert b[8..][..0] == [] && b[..8 + 0] == b[..8];
    } else {
      JoinUpTo(b, n - 1);
      BigEndianStep(b, 8 + n);
      BigEndianStep(b[8..], n);
      Shifted(BigEndian(b[..8]), Pow256(n - 1));
    }
  }

  lemma Shifted(x: nat, p: nat)
    ensures x * p * 256 == x * (256 * p)
  {}

  /** The eight 16-bit words, most significant first. */
  function Words(ip: Addr): (w: seq<uint16>)
    ensures |w| == 8
  {
    [ip.Word(0), ip.Word(1), ip.Word(2), ip.Word(3), ip.Word(4), ip.Word(5), ip.Word(6), ip.Word(7)]
  }

  /** Each word as two bytes, high byte first. */
  function BytesOf(w: seq<uint16>): (b: seq<byte>)
    ensures |b| == 2 * |w|
  {
    if w == [] then [] else [w[0] / 256, w[0] % 256] + BytesOf(w[1..])
  }

  lemma {:induction false} BytesOfConcat(v: seq<uint16>, w: seq<uint16>)
    ensures BytesOf(v + w) == BytesOf(v) + BytesOf(w)
  {
    if v == [] {
      assert v + w == w;
    } else {
      assert (v + w)[1..] == v[1..] + w;
      BytesOfConcat(v[1..], w);
    }
  }

  /** Four words of a 64-bit half, and their bytes, rebuild it. */
  lemma HalfRebuilt(x: uint64, a: uint16, b: uint16, c: uint16, d: uint16)
    requires a == Shr64(x, 48) % 0x1_0000 && b == Shr64(x, 32) % 0x1_0000
    requires c == Shr64(x, 16) % 0x1_0000 && d == Shr64(x, 0) % 0x1_0000
    ensures BeUint64([a / 256, a % 256, b / 256, b % 256, c / 256, c % 256, d / 256, d % 256]) == x
  {
    hide Shr, BeUint64;
    ByteShifts(x);
    BeWords(a, b, c, d);
    Quarters(x);
  }

  lemma Quarters(x: nat)
    requires x < 0x1_0000_0000_0000_0000
    ensures x == x / 0x1_0000_0000_0000 * 0x1_0000_0000_0000 + x / 0x1_0000_0000 % 0x1_0000 * 0x1_0000_0000
                 + x / 0x1_0000 % 0x1_0000 * 0x1_0000 + x % 0x1_0000
    ensures x / 0x1_0000_0000_0000 < 0x1_0000
  {
    var p, q, r := x / 0x1_0000, x / 0x1_0000_0000, x / 0x1_0000_0000_0000;
    assert q == p / 0x1_0000;
    assert r == q / 0x1_0000;
  }

  lemma BeWords(a: uint16, b: uint16, c: uint16, d: uint16)
    ensures BeUint64([a / 256, a % 256, b / 256, b % 256, c / 256, c % 256, d / 256, d % 256])
         == a as int * 0x1_0000_0000_0000 + b as int * 0x1_0000_0000 + c as int * 0x1_0000 + d
  {
    assert a == a / 256 * 256 + a % 256;
    assert b == b / 256 * 256 + b % 256;
    assert c == c / 256 * 256 + c % 256;
    assert d == d / 256 * 256 + d % 256;
  }

  /** The sixteen bytes of the eight words rebuild the address. */
  lemma WordsRebuild(ip: Addr)
    ensures AddrFrom16(BytesOf(Words(ip))) == Addr(ip.addr, Z6(""))
  {
    hide Shr64, BeUint64;
    var w := Words(ip);
    var b := BytesOf(w);
    var h := [w[0] / 256, w[0] % 256, w[1] / 256, w[1] % 256, w[2] / 256, w[2] % 256, w[3] / 256, w[3] % 256];
    var l := [w[4] / 256, w[4] % 256, w[5] / 256, w[5] % 256, w[6] / 256, w[6] % 256, w[7] / 256, w[7] % 256];
    FourWords(w[0], w[1], w[2], w[3]);
    FourWords(w[4], w[5], w[6], w[7]);
    assert w == [w[0], w[1], w[2], w[3]] + [w[4], w[5], w[6], w[7]];
    BytesOfConcat([w[0], w[1], w[2], w[3]], [w[4], w[5], w[6], w[7]]);
    assert b[..8] == h && b[8..] == l;
    HalfRebuilt(ip.addr.hi, w[0], w[1], w[2], w[3]);
    HalfRebuilt(ip.addr.lo, w[4], w[5], w[6], w[7]);
  }

  lemma FourWords(a: uint16, b: uint16, c: uint16, d: uint16)
    ensures BytesOf([a, b, c, d]) == [a / 256, a % 256, b / 256, b % 256, c / 256, c % 256, d / 256, d % 256]
  {
    assert [a, b, c, d][1..] == [b, c, d] && [b, c, d][1..] == [c, d] && [c, d][1..] == [d] && [d][1..] == [];
    assert BytesOf([c, d]) == [c / 256, c % 256, d / 256, d % 256];
  }

  /** The four bytes of an IPv4 address rebuild it. */
  lemma BytesRebuild4(ip: Addr)
    requires IsValid(ip) && ip.Is4()
    ensures AddrFrom4([ip.V4(0), ip.V4(1), ip.V4(2), ip.V4(3)]) == ip
  {
    hide Shr;
    var x := ip.addr.lo;
    ByteShifts(x);
    Octets(x);
  }

  lemma Octets(x: nat)
    requires x / 0x1_0000_0000 == 0xffff
    ensures x == 0xffff_0000_0000 + x / 0x100_0000 % 0x100 * 0x100_0000 + x / 0x1_0000 % 0x100 * 0x1_0000
                 + x / 0x100 % 0x100 * 0x100 + x % 0x100
  {
    var p, q, r := x / 0x100, x / 0x1_0000, x / 0x100_0000;
    assert q == p / 0x100;
    assert r == q / 0x100;
    assert x / 0x1_0000_0000 == r / 0x100;
  }

  /** The mapped test reads the same bits as the IPv4 invariant. */
  lemma Mapped(ip: Addr)
    ensures ip.Is4In6() <==> ip.Is6() && ip.addr.hi == 0 && ip.addr.lo / 0x1_0000_0000 == 0xffff
    ensures Proper(ip) ==> Proper(ip.Unmap())
    ensures ip.Is4In6() ==> IsValid(ip.Unmap()) && ip.Unmap().Is4()
  {
    hide Shr;
    ByteShifts(ip.addr.lo);
  }

  /** The last address of a family. */
  function Last(ip: Addr): nat {
    if ip.Is4() then 0xffff_ffff else MAX128
  }

  /** Next steps to the following number of the same family, and runs out exactly at the last one. */
  lemma NextIsSuccessor(ip: Addr)
    requires IsValid(ip)
    ensures ip.Number() == Last(ip) ==> ip.Next() == ZERO
    ensures ip.Number() != Last(ip) ==>
              IsValid(ip.Next()) && ip.Next().z == ip.z && ip.Next().Number() == ip.Number() + 1
  {
    if ip.Is4() {
      NextWithin4(ip.addr.lo);
    } else {
      OneMoreOneLess(ip.addr);
    }
  }

  lemma NextWithin4(x: nat)
    requires x / 0x1_0000_0000 == 0xffff
    ensures x < MAX64
    ensures (x + 1) % 0x1_0000_0000 == 0 <==> x % 0x1_0000_0000 == 0xffff_ffff
    ensures (x + 1) % 0x1_0000_0000 != 0 ==>
              && (x + 1) / 0x1_0000_0000 == 0xffff
              && (x + 1) % 0x1_0000_0000 == x % 0x1_0000_0000 + 1
  {
    var r := x % 0x1_0000_0000;
    assert x == 0xffff * 0x1_0000_0000 + r;
  }

  /** Prev steps to the preceding number of the same family, and runs out exactly at zero. */
  lemma PrevIsPredecessor(ip: Addr)
    requires IsValid(ip)
    ensures ip.Number() == 0 ==> ip.Prev() == ZERO
    ensures ip.Number() != 0 ==>
              IsValid(ip.Prev()) && ip.Prev().z == ip.z && ip.Prev().Number() == ip.Number() - 1
  {
    OneMoreOneLess(ip.addr);
  }

  lemma NumberLimit(ip: Addr)
    ensures ip.Number() <= Last(ip)
  {}

  /** A valid address is its family and its number. */
  lemma NumberUnique(a: Addr, b: Addr)
    requires IsValid(a) && IsValid(b) && a.z == b.z && a.Number() == b.Number()
    ensures a == b
  {
    ValueUnique(a.addr, b.addr);
  }

  /** Stepping forward and back, or back and forward, returns to the same address. */
  lemma NextPrev(ip: Addr)
    requires IsValid(ip)
    ensures ip.Number() != Last(ip) ==> ip.Next().Prev() == ip
    ensures ip.Number() != 0 ==> ip.Prev().Next() == ip
  {
    hide Addr.Next, Addr.Prev, Addr.Number, IsValid;
    NextIsSuccessor(ip);
    PrevIsPredecessor(ip);
    if ip.Number() != Last(ip) {
      PrevIsPredecessor(ip.Next());
      NumberUnique(ip.Next().Prev(), ip);
    }
    if ip.Number() != 0 {
      NumberLimit(ip);
      NextIsSuccessor(ip.Prev());
      NumberUnique(ip.Prev().Next(), ip);
    }
  }
}
