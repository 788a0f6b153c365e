/** The xorshift128+ generator and its seeding, which writes into the caller's bytes. */
module XorShift {
  import opened Bits
  import opened Bytes
  import opened Ints
  import opened Powers

  datatype Gen = Gen(s0: uint64, s1: uint64) {
    function Mixed(): uint64 {
      var x := Xor64(s0, Shl64(s0, 23));
      Xor64(x, Xor64(Xor64(s1, Shr64(x, 17)), Shr64(s1, 26)))
    }

    function Step(): Gen {
      Gen(s1, Mixed())
    }

    function Output(): uint64 {
      (Mixed() + s1) % TWO_64
    }
  }

  /** The second word is mixed in the same way whatever the first is. */
  lemma MixedDiffer(x: uint64, z: uint64, y: uint64)
    requires Xor64(x, Xor64(Xor64(y, Shr64(x, 17)), Shr64(y, 26)))
          == Xor64(z, Xor64(Xor64(y, Shr64(z, 17)), Shr64(y, 26)))
    ensures x == z
  {
    hide Xor, Shr, Pow2;
    var sx, sz, sy, d := Shr(x, 17), Shr(z, 17), Shr(y, 26), Xor(x, z);
    XorZero(Xor(x, Xor(Xor(y, sx), sy)), Xor(z, Xor(Xor(y, sz), sy)));
    XorSwap(x, Xor(Xor(y, sx), sy), z, Xor(Xor(y, sz), sy));
    XorSwap(Xor(y, sx), sy, Xor(y, sz), sy);
    XorSwap(y, sx, y, sz);
    XorZero(y, y);
    XorZero(sy, sy);
    XorWithZero(Xor(sx, sz));
    XorShift(x, z, 17);
    XorZero(d, Shr(d, 17));
    FixedByShr(d, 17);
    XorZero(x, z);
  }

  lemma ShiftedDiffer(a: uint64, b: uint64)
    requires Xor64(a, Shl64(a, 23)) == Xor64(b, Shl64(b, 23))
    ensures a == b
  {
    hide Xor, Shl64, Pow2;
    var sa, sb, d := Shl64(a, 23), Shl64(b, 23), Xor64(a, b);
    XorZero(Xor(a, sa), Xor(b, sb));
    XorSwap(a, sa, b, sb);
    ShlXor(a, b, 23);
    XorZero(d, Shl64(d, 23));
    FixedByShl(d);
    XorZero(a, b);
  }

  /** One step loses nothing: generators that agree after it agreed before. */
  lemma StepInjective(g: Gen, h: Gen)
    ensures g.Step() == h.Step() <==> g == h
  {
    hide Xor64, Shl64, Shr64;
    if g.Step() == h.Step() {
      MixedDiffer(Xor64(g.s0, Shl64(g.s0, 23)), Xor64(h.s0, Shl64(h.s0, 23)), g.s1);
      ShiftedDiffer(g.s0, h.s0);
    }
  }

  function Steps(g: Gen, n: nat): Gen {
    if n == 0 then g else Steps(g, n - 1).Step()
  }

  /** Two ends are in lockstep exactly when they started so; and only the zero state ever leads to it. */
  lemma {:induction false} Lockstep(g: Gen, h: Gen, n: nat)
    ensures Steps(g, n) == Steps(h, n) <==> g == h
    ensures Steps(g, n) == Gen(0, 0) <==> g == Gen(0, 0)
  {
    hide Gen.Step;
    if n > 0 {
      StepInjective(Steps(g, n - 1), Steps(h, n - 1));
      StepInjective(Steps(g, n - 1), Gen(0, 0));
      ZeroStays();
      Lockstep(g, h, n - 1);
    }
  }

  lemma ZeroStays()
    ensures Gen(0, 0).Step() == Gen(0, 0)
  {
    hide Shl64, Shr64, Xor64;
    Zeroes(23);
    Zeroes(17);
    Zeroes(26);
  }

  /** The first word with itself shifted up by 23. */
  predicate SpreadBit(s0: uint64, k: nat) {
    k < 64 && Bit(s0, k) != (k >= 23 && Bit(s0, k - 23))
  }

  /**
   * The step of xorshift128+ bit by bit: the second word moves up, and bit k of
   * the new one is the parity of bits k and k - 23 of the first, of both 17
   * places higher, and of bits k and k + 26 of the second.  The number drawn is
   * the sum of the two words as they stand afterwards.
   */
  lemma StepBits(g: Gen, k: nat)
    requires k < 64
    ensures g.Step().s0 == g.s1 && g.Output() == (g.Step().s0 + g.Step().s1) % TWO_64
    ensures Bit(g.Step().s1, k) <==>
      SpreadBit(g.s0, k) != (Bit(g.s1, k) != (SpreadBit(g.s0, k + 17) != Bit(g.s1, k + 26)))
  {
    hide Bit, Shr, Xor, Shl64;
    var x := Xor64(g.s0, Shl64(g.s0, 23));
    Spread(g.s0, k);
    Spread(g.s0, k + 17);
    ShrBit(x, 17, k);
    ShrBit(g.s1, 26, k);
    XorBit(g.s1, Shr(x, 17), k);
    XorBit(Xor(g.s1, Shr(x, 17)), Shr(g.s1, 26), k);
    XorBit(x, Xor(Xor(g.s1, Shr(x, 17)), Shr(g.s1, 26)), k);
  }

  lemma Spread(s0: uint64, k: nat)
    ensures Bit(Xor64(s0, Shl64(s0, 23)), k) <==> SpreadBit(s0, k)
  {
    hide Bit, Xor, Shl64;
    XorBit(s0, Shl64(s0, 23), k);
    ShlBit(s0, 23, k);
    HighBit(s0, k);
  }

  /** A machine word has 64 bits. */
  lemma HighBit(a: uint64, k: nat)
    ensures Bit(a, k) ==> k < 64
  {
    hide Bit, Pow2;
    Pow2Values();
    LowBit(a, 64, k);
  }

  lemma XorWithZero(a: nat)
    ensures Xor(a, 0) == a == Xor(0, a)
  {}

  function U64LE(b: bytes): uint64
    requires |b| >= 8
  {
    b[0] as int + b[1] as int * 0x100 + b[2] as int * 0x1_0000 + b[3] as int * 0x100_0000 + b[4] as int * 0x1_0000_0000
    + b[5] as int * 0x100_0000_0000 + b[6] as int * 0x1_0000_0000_0000 + b[7] as int * 0x100_0000_0000_0000
  }

  /** Eight bytes, least significant first. */
  lemma SeedOrder(b: bytes)
    requires |b| == 8
    ensures U64LE(b) == LittleEndian(b)
  {
    hide LittleEndian;
    LittleEndian4(b[4..]);
    LittleEndianStep(b);
    LittleEndianStep(b[1..]);
    LittleEndianStep(b[2..]);
    LittleEndianStep(b[3..]);
    assert b[1..][1..] == b[2..] && b[2..][1..] == b[3..] && b[3..][1..] == b[4..];
  }

  function Seeded(b: bytes): Gen
    requires |b| >= 16
  {
    Gen(U64LE(b[..8]), U64LE(b[8..16]))
  }

  /** The seed as InitFromBinAndLength leaves it: the length in place of the first two bytes. */
  function WithLength(b: bytes, length: nat): (r: bytes)
    requires |b| >= 2
    ensures |r| == |b| && r[2..] == b[2..]
  {
    PutU16LE(length % TWO_16) + b[2..]
  }

  /** The generator after seeding with a length: the first two bytes of the seed have no say in it. */
  function SeededWithLength(tail: bytes, length: nat): Gen
    requires |tail| >= 14
  {
    Seeded(PutU16LE(length % TWO_16) + tail).Step().Step().Step().Step()
  }

  /** Seeding again with the same length changes nothing. */
  lemma SeedingTwice(b: bytes, length: nat)
    requires |b| >= 16
    ensures WithLength(WithLength(b, length), length) == WithLength(b, length)
    ensures SeededWithLength(WithLength(b, length)[2..], length) == SeededWithLength(b[2..], length)
  {}

  class XorShift128Plus {
    var s0: uint64
    var s1: uint64

    constructor ()
      ensures State() == Gen(0, 0)
    {
      s0, s1 := 0, 0;
    }

    function State(): Gen
      reads this
    {
      Gen(s0, s1)
    }

    method Next() returns (r: uint64)
      modifies this
      ensures State() == old(State()).Step() && r == old(State()).Output()
    {
      var x, y := s0, s1;
      s0 := y;
      x := Xor64(x, Shl64(x, 23));
      x := Xor64(x, Xor64(Xor64(y, Shr64(x, 17)), Shr64(y, 26)));
      s1 := x;
      r := (x + y) % TWO_64;
    }

    /** A seed shorter than 16 bytes is padded in a variable that shadows the one used, and slicing panics. */
    method InitFromBin(bin: bytes) returns (ok: bool)
      modifies this
      ensures ok <==> |bin| >= 16
      ensures ok ==> State() == Seeded(bin)
    {
      if |bin| < 16 {
        return false;
      }
      s0, s1 := U64LE(bin[..8]), U64LE(bin[8..16]);
      ok := true;
    }

    /**
     * Seeds from a hash and a length; the length is left behind in the hash.
     * With fewer than 16 bytes it panics, but not before the length is written.
     */
    method InitFromBinAndLength(bin: array<byte>, length: nat) returns (ok: bool)
      modifies this, bin
      ensures ok <==> bin.Length >= 16
      ensures bin[..] == if bin.Length >= 2 then WithLength(old(bin[..]), length) else old(bin[..])
      ensures ok ==> State() == SeededWithLength(old(bin[2..]), length)
    {
      hide Gen.Mixed, U64LE;
      ghost var was := bin[..];
      if bin.Length < 2 {
        return false;
      }
      var l := length % TWO_16;
      bin[0], bin[1] := l % 256, l / 256;
      assert bin[..] == WithLength(was, length);
      assert PutU16LE(l) + was[2..] == bin[..];
      if bin.Length < 16 {
        return false;
      }
      var full := bin[..];
      s0, s1 := U64LE(full[..8]), U64LE(full[8..16]);
      ghost var g := State();
      var i := 0;
      while i < 4
        invariant 0 <= i <= 4 && bin[..] == full
        invariant State() == if i == 0 then g else if i == 1 then g.Step() else if i == 2 then g.Step().Step()
          else if i == 3 then g.Step().Step().Step() else g.Step().Step().Step().Step()
      {
        var _ := Next();
        i := i + 1;
      }
      ok := true;
    }
  }
}
