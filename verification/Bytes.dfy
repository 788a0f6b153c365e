/** Bytes and the fixed-width integers written with them. */
module Bytes {
  import opened Ints

  type bytes = seq<byte>

  function PutU16BE(n: uint16): (b: bytes)
    ensures |b| == 2
  {
    [n / 256, n % 256]
  }

  function U16BE(b: bytes): uint16
    requires 2 <= |b|
  {
    b[0] as int * 256 + b[1]
  }

  function PutU16LE(n: uint16): (b: bytes)
    ensures |b| == 2
  {
    [n % 256, n / 256]
  }

  function U16LE(b: bytes): uint16
    requires 2 <= |b|
  {
    b[1] as int * 256 + b[0]
  }

  function PutU32BE(n: uint32): (b: bytes)
    ensures |b| == 4
  {
    [n / 0x100_0000, n / 0x1_0000 % 256, n / 0x100 % 256, n % 256]
  }

  function PutU32LE(n: uint32): (b: bytes)
    ensures |b| == 4
  {
    [n % 256, n / 0x100 % 256, n / 0x1_0000 % 256, n / 0x100_0000]
  }

  function U32BE(b: bytes): uint32
    requires 4 <= |b|
  {
    b[0] as int * 0x100_0000 + b[1] as int * 0x1_0000 + b[2] as int * 0x100 + b[3]
  }

  function Zeros(n: nat): (b: bytes)
    ensures |b| == n
  {
    seq(n, _ => 0)
  }

  lemma RoundTrip16(n: uint16, w: bytes)
    ensures U16BE(PutU16BE(n) + w) == n && U16LE(PutU16LE(n) + w) == n
  {}

  lemma RoundTrip32(n: uint32, w: bytes)
    ensures U32BE(PutU32BE(n) + w) == n
  {
    var b := PutU32BE(n) + w;
    assert b[0] == n / 0x100_0000 && b[1] == n / 0x1_0000 % 256 && b[2] == n / 0x100 % 256 && b[3] == n % 256;
    Quarters(n);
  }

  // ---------- byte order ----------

  /** The number that bytes stand for, most significant first. */
  function BigEndian(b: bytes): nat {
    if b == [] then 0 else BigEndian(b[..|b| - 1]) * 256 + b[|b| - 1]
  }

  /** The number that bytes stand for, least significant first. */
  function LittleEndian(b: bytes): nat {
    if b == [] then 0 else b[0] + 256 * LittleEndian(b[1..])
  }

  function Pow256(n: nat): (p: nat)
    ensures p >= 1
  {
    if n == 0 then 1 else 256 * Pow256(n - 1)
  }

  lemma BigEndianOfNone()
    ensures BigEndian([]) == 0
  {}

  lemma BigEndianStep(b: bytes, n: nat)
    requires 0 < n <= |b|
    ensures BigEndian(b[..n]) == BigEndian(b[..n - 1]) * 256 + b[n - 1]
  {
    assert b[..n][..n - 1] == b[..n - 1];
  }

  lemma Big4(n: uint32)
    ensures BigEndian(PutU32BE(n)) == n
  {
    hide BigEndian;
    var b := PutU32BE(n);
    assert b[..0] == [] && b[..4] == b;
    BigEndianOfNone();
    BigEndianStep(b, 1);
    BigEndianStep(b, 2);
    BigEndianStep(b, 3);
    BigEndianStep(b, 4);
    Quarters(n);
  }

  lemma Big2(n: uint16)
    ensures BigEndian(PutU16BE(n)) == n
  {
    hide BigEndian;
    var b := PutU16BE(n);
    assert b[..0] == [] && b[..2] == b;
    BigEndianOfNone();
    BigEndianStep(b, 1);
    BigEndianStep(b, 2);
  }

  lemma Quarters(n: uint32)
    ensures n == ((n / 0x100_0000 * 256 + n / 0x1_0000 % 256) * 256 + n / 0x100 % 256) * 256 + n % 256
  {
    assert n / 0x1_0000 == n / 0x100_0000 * 256 + n / 0x1_0000 % 256;
    assert n / 0x100 == n / 0x1_0000 * 256 + n / 0x100 % 256;
  }

  /** Four bytes hold a number, most or least significant byte first, and two a shorter one. */
  lemma ByteOrder(n: uint32, m: uint16)
    ensures BigEndian(PutU32BE(n)) == n && LittleEndian(PutU32LE(n)) == n
    ensures BigEndian(PutU16BE(m)) == m && LittleEndian(PutU16LE(m)) == m
  {
    hide BigEndian, LittleEndian;
    Big4(n);
    Big2(m);
    LittleEndian2(PutU16LE(m));
    LittleEndian4(PutU32LE(n));
    Quarters(n);
  }

  lemma LittleEndian2(b: bytes)
    requires |b| == 2
    ensures LittleEndian(b) == b[0] as int + b[1] as int * 0x100
  {
    assert b[1..][1..] == [];
    LittleEndianStep(b);
    LittleEndianStep(b[1..]);
  }

  lemma LittleEndian4(b: bytes)
    requires |b| == 4
    ensures LittleEndian(b) == b[0] as int + b[1] as int * 0x100 + b[2] as int * 0x1_0000 + b[3] as int * 0x100_0000
  {
    hide LittleEndian;
    LittleEndianStep(b);
    LittleEndianStep(b[1..]);
    LittleEndian2(b[1..][1..]);
  }

  lemma LittleEndianStep(b: bytes)
    requires b != []
    ensures LittleEndian(b) == b[0] + 256 * LittleEndian(b[1..])
  {}

  /** All the parts, one after another. */
  function Flatten(parts: seq<bytes>): bytes {
    if parts == [] then [] else parts[0] + Flatten(parts[1..])
  }

  /** Cuts data into parts of a given size, and a last one of what is left. */
  function Cut(b: bytes, size: nat): seq<bytes>
    requires size > 0
    decreases |b|
  {
    if |b| > size then [b[..size]] + Cut(b[size..], size) else if b == [] then [] else [b]
  }

  lemma {:induction false} FlattenAppend(xs: seq<bytes>, ys: seq<bytes>)
    ensures Flatten(xs + ys) == Flatten(xs) + Flatten(ys)
  {
    if xs == [] {
      assert xs + ys == ys;
    } else {
      assert (xs + ys)[1..] == xs[1..] + ys;
      FlattenAppend(xs[1..], ys);
      assert xs[0] + Flatten(xs[1..]) + Flatten(ys) == xs[0] + (Flatten(xs[1..]) + Flatten(ys));
    }
  }

  lemma FlattenOne(b: bytes)
    ensures Flatten([b]) == b
  {
    assert [b][1..] == [];
  }

  /** Cutting loses nothing, and makes no empty part and none above the size. */
  lemma {:induction false} CutFlattens(b: bytes, size: nat)
    requires size > 0
    ensures Flatten(Cut(b, size)) == b
    ensures forall i :: 0 <= i < |Cut(b, size)| ==> 1 <= |Cut(b, size)[i]| <= size
    decreases |b|
  {
    if |b| > size {
      CutFlattens(b[size..], size);
      assert b == b[..size] + b[size..];
    } else if b != [] {
      assert [b][1..] == [];
    }
  }

  lemma CutMore(b: bytes, size: nat)
    requires 0 < size < |b|
    ensures Cut(b, size) == [b[..size]] + Cut(b[size..], size)
  {}

  lemma CutLast(b: bytes, size: nat)
    requires size > 0 && |b| <= size
    ensures Cut(b, size) == if b == [] then [] else [b]
  {}

  /** One round of a loop that cuts what is left of b. */
  lemma CutStep(b: bytes, n: nat, size: nat)
    requires size > 0 && n < |b|
    ensures var m := if n + size > |b| then |b| - n else size;
      Cut(b[n..], size) == [b[n..n + m]] + Cut(b[n + m..], size)
  {
    var rest := b[n..];
    if |rest| > size {
      assert rest[..size] == b[n..n + size] && rest[size..] == b[n + size..];
    } else {
      assert b[n..|b|] == rest && b[|b|..] == [];
    }
  }

  /** What a stream of two parts can be cut to. */
  lemma PrefixSplit(cut: bytes, head: bytes, tail: bytes)
    requires cut <= head + tail
    ensures cut < head || (head <= cut && cut[|head|..] <= tail)
  {
    var all := head + tail;
    assert cut == all[..|cut|];
    if |cut| < |head| {
      assert cut == head[..|cut|];
    } else {
      assert cut[..|head|] == head && cut[|head|..] == tail[..|cut| - |head|];
    }
  }

  lemma Cancel(a: bytes, b: bytes, c: bytes, d: bytes)
    requires a + b + c <= a + d
    ensures b + c <= d
  {
    var x, y := a + b + c, a + d;
    assert y[..|x|] == x;
    assert x[|a|..] == b + c && y[|a|..] == d;
    assert d[..|b + c|] == y[|a|..|x|] == x[|a|..];
  }

  lemma PrefixOfSum(a: bytes, b: bytes, c: bytes)
    ensures a <= a + b + c
  {}

  lemma TooLong(a: bytes, b: bytes, c: bytes)
    requires |c| < |b|
    ensures !(a + b <= a + c)
  {}

  /** What a write that falls short leaves behind. */
  lemma PartSent(before: bytes, buf: bytes, sent: nat)
    requires sent <= |buf|
    ensures before <= before + buf[..sent] <= before + buf
    ensures sent == |buf| ==> before + buf[..sent] == before + buf
  {
    assert before + buf == before + buf[..sent] + buf[sent..];
  }
}
