/** The text form of addresses: decimal and hex fields, and the run of zero words that "::" stands for. */
module IpFormat {
  import opened Ints
  import opened IpAddr
  import opened Seqs

  const DIGITS: string := "0123456789abcdef"

  function Digit(d: nat): char
    requires d < 16
  {
    DIGITS[d]
  }

  /** The numeral of n in base ten or sixteen, without leading zeros. */
  function Numeral(n: nat, base: nat): string
    requires base == 10 || base == 16
    decreases n
  {
    if n < base then [Digit(n)] else Numeral(n / base, base) + [Digit(n % base)]
  }

  lemma DigitZero(d: nat)
    requires d < 16
    ensures Digit(d) == '0' <==> d == 0
  {}

  lemma {:induction false} NoLeadingZero(n: nat, base: nat)
    requires base == 10 || base == 16
    ensures |Numeral(n, base)| >= 1
    ensures Numeral(n, base)[0] == '0' <==> n == 0
    decreases n
  {
    hide Digit;
    if n >= base {
      NoLeadingZero(n / base, base);
    } else {
      DigitZero(n);
    }
  }

  /** The digits above the last one; none for zero. */
  function Upper(n: nat, base: nat): string
    requires base == 10 || base == 16
  {
    if n == 0 then "" else Numeral(n, base)
  }

  lemma UpperStep(n: nat, base: nat)
    requires base == 10 || base == 16
    ensures Numeral(n, base) == Upper(n / base, base) + [Digit(n % base)]
    ensures n > 0 ==> Upper(n, base) == Upper(n / base, base) + [Digit(n % base)]
  {
    hide Digit;
    if n < base {
      assert "" + [Digit(n)] == [Digit(n)];
    }
  }

  function AppendDecimal(b: string, x: byte): (r: string)
    ensures r == b + Numeral(x, 10)
  {
    Decimal3(x);
    var b1 := if x >= 100 then b + [Digit(x / 100)] else b;
    var b2 := if x >= 10 then b1 + [Digit(x / 10 % 10)] else b1;
    b2 + [Digit(x % 10)]
  }

  lemma Decimal3(x: byte)
    ensures Numeral(x, 10) == Upper(x / 10, 10) + [Digit(x % 10)]
    ensures Upper(x / 10, 10) == if x >= 10 then Upper(x / 100, 10) + [Digit(x / 10 % 10)] else ""
    ensures Upper(x / 100, 10) == if x >= 100 then [Digit(x / 100)] else ""
  {
    hide Digit;
    UpperStep(x, 10);
    UpperStep(x / 10, 10);
    assert x / 10 / 10 == x / 100;
  }

  function AppendHex(b: string, x: uint16): (r: string)
    ensures r == b + Numeral(x, 16)
  {
    HexJoin(b, x);
    var b1 := if x >= 0x1000 then b + [Digit(x / 0x1000)] else b;
    var b2 := if x >= 0x100 then b1 + [Digit(x / 0x100 % 16)] else b1;
    var b3 := if x >= 0x10 then b2 + [Digit(x / 0x10 % 16)] else b2;
    b3 + [Digit(x % 16)]
  }

  lemma HexJoin(b: string, x: uint16)
    ensures var b1 := if x >= 0x1000 then b + [Digit(x / 0x1000)] else b;
      var b2 := if x >= 0x100 then b1 + [Digit(x / 0x100 % 16)] else b1;
      var b3 := if x >= 0x10 then b2 + [Digit(x / 0x10 % 16)] else b2;
      b3 + [Digit(x % 16)] == b + Numeral(x, 16)
  {
    hide Digit, Numeral, Upper;
    Hex4(x);
    Associate(b, Upper(x / 0x1000, 16), [Digit(x / 0x100 % 16)]);
    Associate(b, Upper(x / 0x100, 16), [Digit(x / 0x10 % 16)]);
    Associate(b, Upper(x / 0x10, 16), [Digit(x % 16)]);
  }

  lemma Hex4(x: uint16)
    ensures Numeral(x, 16) == Upper(x / 0x10, 16) + [Digit(x % 16)]
    ensures Upper(x / 0x10, 16) == if x >= 0x10 then Upper(x / 0x100, 16) + [Digit(x / 0x10 % 16)] else ""
    ensures Upper(x / 0x100, 16) == if x >= 0x100 then Upper(x / 0x1000, 16) + [Digit(x / 0x100 % 16)] else ""
    ensures Upper(x / 0x1000, 16) == if x >= 0x1000 then [Digit(x / 0x1000)] else ""
  {
    hide Digit;
    UpperStep(x, 16);
    UpperStep(x / 0x10, 16);
    UpperStep(x / 0x100, 16);
    assert x / 0x10 / 0x10 == x / 0x100 && x / 0x100 / 0x10 == x / 0x1000;
  }

  function Dotted(a: byte, b: byte, c: byte, d: byte): string {
    Numeral(a, 10) + "." + Numeral(b, 10) + "." + Numeral(c, 10) + "." + Numeral(d, 10)
  }

  method AppendTo4(ret: string, ip: Addr) returns (r: string)
    ensures r == ret + Dotted(ip.V4(0), ip.V4(1), ip.V4(2), ip.V4(3))
  {
    hide Addr.V4, Numeral;
    ghost var a, b, c, d := Numeral(ip.V4(0), 10), Numeral(ip.V4(1), 10), Numeral(ip.V4(2), 10), Numeral(ip.V4(3), 10);
    r := AppendDecimal(ret, ip.V4(0));
    r := r + ".";
    Associate(ret, a, ".");
    r := AppendDecimal(r, ip.V4(1));
    Associate(ret, a + ".", b);
    r := r + ".";
    Associate(ret, a + "." + b, ".");
    r := AppendDecimal(r, ip.V4(2));
    Associate(ret, a + "." + b + ".", c);
    r := r + ".";
    Associate(ret, a + "." + b + "." + c, ".");
    r := AppendDecimal(r, ip.V4(3));
    Associate(ret, a + "." + b + "." + c + ".", d);
  }

  // ---------------------------------------------------------------- the zero run

  /** Where "::" goes: words start up to but not including end; 255 for nowhere. */
  datatype Run = Run(start: nat, end: nat) {
    function Length(): int { end - start }
  }

  const NOWHERE: Run := Run(255, 255)

  /** How many words from i on are zero. */
  function ZerosAt(w: seq<uint16>, i: nat): nat
    requires i <= |w|
    decreases |w| - i
  {
    if i < |w| && w[i] == 0 then 1 + ZerosAt(w, i + 1) else 0
  }

  lemma {:induction false} ZerosAtRange(w: seq<uint16>, i: nat)
    requires i <= |w|
    ensures i + ZerosAt(w, i) <= |w|
    ensures forall k :: i <= k < i + ZerosAt(w, i) ==> w[k] == 0
    ensures i + ZerosAt(w, i) < |w| ==> w[i + ZerosAt(w, i)] != 0
    decreases |w| - i
  {
    if i < |w| && w[i] == 0 {
      ZerosAtRange(w, i + 1);
    }
  }

  /** The longest run among those that start before n: at least two words, the first of its length. */
  function BestRun(w: seq<uint16>, n: nat): Run
    requires n <= |w|
  {
    if n == 0 then NOWHERE
    else
      var best := BestRun(w, n - 1);
      var l := ZerosAt(w, n - 1);
      if l >= 2 && l > best.Length() then Run(n - 1, n - 1 + l) else best
  }

  /** A range of zero words. */
  ghost predicate ZeroRange(w: seq<uint16>, i: nat, j: nat) {
    i <= j <= |w| && forall k :: i <= k < j ==> w[k] == 0
  }

  lemma {:induction false} BestRunUpTo(w: seq<uint16>, n: nat)
    requires n <= |w| < 255
    ensures var r := BestRun(w, n);
      && (r == NOWHERE || (r.start < n && r.Length() >= 2 && r.Length() == ZerosAt(w, r.start)))
      && (forall i :: 0 <= i < n && ZerosAt(w, i) >= 2 ==> ZerosAt(w, i) <= r.Length())
      && (forall i :: 0 <= i < n && i < r.start && ZerosAt(w, i) >= 2 ==> ZerosAt(w, i) < r.Length())
  {
    if n > 0 {
      BestRunUpTo(w, n - 1);
    }
  }

  lemma {:induction false} ZeroRangeFits(w: seq<uint16>, i: nat, j: nat)
    requires ZeroRange(w, i, j)
    ensures j - i <= ZerosAt(w, i)
    decreases j - i
  {
    if i < j {
      ZeroRangeFits(w, i + 1, j);
    }
  }

  /**
   * Section 4.2 of RFC 5952: "::" shortens a run only if it has two words or
   * more, it covers the whole run, no run is longer, and among equals it is the first.
   */
  lemma RunIsCanonical(w: seq<uint16>)
    requires |w| == 8
    ensures var r := BestRun(w, 8);
      && (r == NOWHERE <==> forall i: nat, j: nat :: ZeroRange(w, i, j) ==> j - i < 2)
      && (r != NOWHERE ==>
            && r.start + 2 <= r.end <= 8 && ZeroRange(w, r.start, r.end)
            && (r.end < 8 ==> w[r.end] != 0) && (r.start > 0 ==> w[r.start - 1] != 0)
            && forall i: nat, j: nat :: ZeroRange(w, i, j) ==>
                 j - i <= r.Length() && (j - i == r.Length() ==> r.start <= i))
  {
    var r := BestRun(w, 8);
    BestRunUpTo(w, 8);
    forall i: nat, j: nat | ZeroRange(w, i, j) && j - i >= 2
      ensures r != NOWHERE && j - i <= r.Length() && (j - i == r.Length() ==> r.start <= i)
    {
      ZeroRangeFits(w, i, j);
    }
    if r != NOWHERE {
      ZerosAtRange(w, r.start);
      assert ZeroRange(w, r.start, r.start + 2);
      if r.start > 0 && w[r.start - 1] == 0 {
        assert ZeroRange(w, r.start - 1, r.end);
      }
    }
  }

  /** The search loop, in eight-bit arithmetic with 255 for no run yet. */
  method FindRun(w: seq<uint16>) returns (zeroStart: byte, zeroEnd: byte)
    requires |w| == 8
    ensures Run(zeroStart, zeroEnd) == BestRun(w, 8)
  {
    zeroStart, zeroEnd := 255, 255;
    var i: byte := 0;
    while i < 8
      invariant 0 <= i <= 8 && zeroStart <= zeroEnd
      invariant Run(zeroStart, zeroEnd) == BestRun(w, i)
    {
      var j := i;
      while j < 8 && w[j] == 0
        invariant i <= j <= 8
        invariant ZerosAt(w, i) == j - i + ZerosAt(w, j)
      {
        j := j + 1;
      }
      var l := j - i;
      if l >= 2 && l > zeroEnd - zeroStart {
        zeroStart, zeroEnd := i, j;
      }
      i := i + 1;
    }
  }

  // ---------------------------------------------------------------- IPv6 text

  /** Hex fields with colons between them. */
  function Fields(w: seq<uint16>): string {
    if w == [] then "" else if |w| == 1 then Numeral(w[0], 16)
    else Fields(w[..|w| - 1]) + ":" + Numeral(w[|w| - 1], 16)
  }

  /** Eight words in text, the words of the run replaced by "::". */
  function Text6(w: seq<uint16>, r: Run): string
    requires |w| == 8
  {
    if r.start <= r.end <= 8 then Fields(w[..r.start]) + "::" + Fields(w[r.end..]) else Fields(w)
  }

  lemma FieldsSnoc(w: seq<uint16>, from: nat, i: nat)
    requires from <= i < |w|
    ensures Fields(w[from..i + 1])
         == if i > from then Fields(w[from..i]) + ":" + Numeral(w[i], 16) else Numeral(w[i], 16)
  {
    var v := w[from..i + 1];
    assert v[|v| - 1] == w[i] && v[..|v| - 1] == w[from..i];
  }

  /** What the printing loop has written when it comes to word i. */
  function Printed(w: seq<uint16>, r: Run, i: nat): string
    requires i <= |w| && (i <= r.start || r.start <= r.end <= i)
  {
    if i <= r.start then Fields(w[0..i]) else Fields(w[0..r.start]) + "::" + Fields(w[r.end..i])
  }

  lemma PrintedStep(w: seq<uint16>, r: Run, i: nat)
    requires i < |w| && r.start <= r.end && (i < r.start || r.start < r.end <= i)
    ensures Printed(w, r, i + 1) == Printed(w, r, i) + (if 0 < i && r.end != i then ":" else "") + Numeral(w[i], 16)
  {
    hide Fields, Numeral;
    FieldsEmpty();
    if i < r.start {
      FieldsSnoc(w, 0, i);
      assert i == 0 ==> w[0..i] == [];
    } else {
      FieldsSnoc(w, r.end, i);
      assert i == r.end ==> w[r.end..i] == [];
      if i > r.end {
        Associate(Fields(w[0..r.start]) + "::", Fields(w[r.end..i]), ":");
        Associate(Fields(w[0..r.start]) + "::", Fields(w[r.end..i]) + ":", Numeral(w[i], 16));
      }
    }
  }

  lemma FieldsEmpty()
    ensures Fields([]) == ""
  {}

  lemma PrintedAll(w: seq<uint16>, r: Run)
    requires |w| == 8 && (r == NOWHERE || r.start < r.end <= 8)
    ensures Printed(w, r, 0) == ""
    ensures Printed(w, r, 8) == Text6(w, r)
  {
    hide Fields;
    FieldsEmpty();
    assert w[0..0] == [];
    assert w[0..8] == w;
    if r != NOWHERE {
      assert w[r.end..] == w[r.end..8] && w[0..r.start] == w[..r.start];
    }
  }

  /** Writing "::" passes over the run. */
  lemma PrintedRun(w: seq<uint16>, r: Run)
    requires r.start < r.end <= |w|
    ensures Printed(w, r, r.start) + "::" == Printed(w, r, r.end)
  {
    hide Fields;
    FieldsEmpty();
    assert w[r.end..r.end] == [];
  }

  /** The printing loop: it writes every word outside the run once, in order. */
  method AppendWords(ret: string, w: seq<uint16>, zeroStart: byte, zeroEnd: byte) returns (r: string)
    requires |w| == 8
    requires zeroStart == zeroEnd == 255 || zeroStart < zeroEnd <= 8
    ensures r == ret + Text6(w, Run(zeroStart, zeroEnd))
  {
    hide Printed, Text6, Numeral;
    ghost var run := Run(zeroStart, zeroEnd);
    r := ret;
    PrintedAll(w, run);
    var i := 0;
    while i < 8
      invariant 0 <= i <= 8
      invariant i <= zeroStart || zeroEnd < i || i == 8
      invariant r == ret + Printed(w, run, i)
    {
      if i == zeroStart {
        r := r + "::";
        PrintedRun(w, run);
        Associate(ret, Printed(w, run, zeroStart), "::");
        i := zeroEnd;
        if i >= 8 {
          break;
        }
        PrintedStep(w, run, i);
        Associate(ret, Printed(w, run, i), Numeral(w[i], 16));
      } else {
        PrintedStep(w, run, i);
        ghost var t := Printed(w, run, i);
        if i > 0 {
          r := r + ":";
          Associate(ret, t, ":");
          t := t + ":";
        }
        Associate(ret, t, Numeral(w[i], 16));
      }
      r := AppendHex(r, w[i]);
      i := i + 1;
    }
  }

  // ---------------------------------------------------------------- whole addresses

  function ZoneText(zone: string): string {
    if zone == "" then "" else "%" + zone
  }

  function Dotted4(ip: Addr): string {
    Dotted(ip.V4(0), ip.V4(1), ip.V4(2), ip.V4(3))
  }

  /** IPv6 text without its zone; an IPv4-mapped address keeps its dotted form. */
  function Body6(ip: Addr): string {
    if ip.Is4In6() then "::ffff:" + Dotted4(ip.Unmap()) else Text6(Words(ip), BestRun(Words(ip), 8))
  }

  /** The text of an address. */
  function Text(ip: Addr): string {
    match ip.z
    case Z0 => "invalid IP"
    case Z4 => Dotted4(ip)
    case Z6(zone) => Body6(ip) + ZoneText(zone)
  }

  method AppendZone(ret: string, zone: string) returns (r: string)
    ensures r == ret + ZoneText(zone)
  {
    r := ret;
    if zone != "" {
      r := r + "%";
      r := r + zone;
    }
  }

  method AppendTo4In6(ret: string, ip: Addr) returns (r: string)
    requires ip.Is4In6()
    ensures r == ret + Text(ip)
  {
    r := ret + "::ffff:";
    r := AppendTo4(r, ip.Unmap());
    Associate(ret, "::ffff:", Dotted4(ip.Unmap()));
    r := AppendZone(r, ip.z.zone);
    Associate(ret, Body6(ip), ZoneText(ip.z.zone));
  }

  method AppendTo6(ret: string, ip: Addr) returns (r: string)
    requires ip.Is6() && !ip.Is4In6()
    ensures r == ret + Text(ip)
  {
    hide BestRun, Text6;
    RunIsCanonical(Words(ip));
    var zeroStart, zeroEnd := FindRun(Words(ip));
    r := AppendWords(ret, Words(ip), zeroStart, zeroEnd);
    r := AppendZone(r, ip.z.zone);
    Associate(ret, Body6(ip), ZoneText(ip.z.zone));
  }

  method AddrString(ip: Addr) returns (r: string)
    ensures r == Text(ip)
  {
    match ip.z {
      case Z0 => r := "invalid IP";
      case Z4 => r := AppendTo4("", ip);
      case Z6(_) =>
        if ip.Is4In6() {
          r := AppendTo4In6("", ip);
        } else {
          r := AppendTo6("", ip);
        }
    }
  }

  /** Twenty digits are enough for a 64-bit value. */
  method Uitoa(val: nat) returns (r: string)
    requires val < 0x1_0000_0000_0000_0000
    ensures r == Numeral(val, 10)
  {
    hide Numeral, Digit;
    NumeralStep(0);
    assert Digit(0) == '0' by { DigitZero(0); }
    if val == 0 {
      return "0";
    }
    var buf := new char[20];
    var v: nat := val;
    var i := 19;
    TenToTwenty();
    while v >= 10
      invariant 0 <= i <= 19
      invariant v < TenTo(i + 1)
      invariant Numeral(val, 10) == Numeral(v, 10) + buf[i + 1..]
    {
      var q := v / 10;
      NumeralStep(v);
      assert TenTo(i + 1) == 10 * TenTo(i);
      ghost var low := buf[i + 1..];
      buf[i] := Digit(v - q * 10);
      assert buf[i..] == [Digit(v % 10)] + low;
      Associate(Numeral(q, 10), [Digit(v % 10)], low);
      i := i - 1;
      v := q;
    }
    NumeralStep(v);
    ghost var low := buf[i + 1..];
    buf[i] := Digit(v);
    assert buf[i..] == [Digit(v)] + low;
    r := buf[i..];
  }

  lemma NumeralStep(n: nat)
    ensures Numeral(n, 10) == if n < 10 then [Digit(n)] else Numeral(n / 10, 10) + [Digit(n % 10)]
  {}

  function TenTo(n: nat): nat {
    if n == 0 then 1 else 10 * TenTo(n - 1)
  }

  lemma TenToTwenty()
    ensures TenTo(0) == 1 && TenTo(20) > 0x1_0000_0000_0000_0000
  {
    assert TenTo(4) == 10_000;
    assert TenTo(8) == 100_000_000;
    assert TenTo(12) == 1_000_000_000_000;
    assert TenTo(16) == 10_000_000_000_000_000;
  }
}
