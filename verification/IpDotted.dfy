/** Dotted addresses: the texts that are accepted are exactly those that are printed. */
module IpDotted {
  import opened Ints
  import opened IpFormat
  import opened IpParse
  import opened Options
  import opened Seqs

  // ---------------------------------------------------------------- which characters occur

  predicate Plain(c: char) {
    IsDecimal(c) || 'a' <= c <= 'f' || c == '.' || c == ':'
  }

  predicate AllPlain(s: string) {
    forall i :: 0 <= i < |s| ==> Plain(s[i])
  }

  lemma DigitIs(d: nat)
    requires d < 16
    ensures IsHex(Digit(d)) && HexValue(Digit(d)) == d
    ensures Plain(Digit(d)) && Digit(d) != '.' && Digit(d) != ':'
    ensures d < 10 ==> IsDecimal(Digit(d)) && (Digit(d) - '0') as int == d
  {}

  /** A numeral is made of digits of its base. */
  lemma {:induction false} NumeralDigits(n: nat, base: nat)
    requires base == 10 || base == 16
    ensures |Numeral(n, base)| >= 1
    ensures forall i :: 0 <= i < |Numeral(n, base)| ==> IsHex(Numeral(n, base)[i])
    ensures forall i :: 0 <= i < |Numeral(n, base)| ==> Plain(Numeral(n, base)[i])
    ensures base == 10 ==> forall i :: 0 <= i < |Numeral(n, base)| ==> IsDecimal(Numeral(n, base)[i])
    decreases n
  {
    hide Digit, Plain, IsHex, IsDecimal;
    DigitIs(n % base);
    if n >= base {
      NumeralDigits(n / base, base);
    }
  }

  // ---------------------------------------------------------------- dotted addresses

  /** Reading an octet's numeral leaves its value. */
  lemma {:induction false} OctetRead(s: string, i: nat, n: nat, done: seq<byte>)
    requires n <= 255 && |done| <= 3
    requires i + |Numeral(n, 10)| <= |s| && s[i..i + |Numeral(n, 10)|] == Numeral(n, 10)
    ensures Octets4(s, i, 0, 0, done) == Octets4(s, i + |Numeral(n, 10)|, n, |Numeral(n, 10)|, done)
    decreases n
  {
    hide Digit, Octets4;
    var t := Numeral(n, 10);
    DigitIs(n % 10);
    assert s[i + |t| - 1] == t[|t| - 1];
    if n < 10 {
      OctetStep(s, i, 0, 0, n, done);
    } else {
      var u := Numeral(n / 10, 10);
      assert s[i..i + |u|] == t[..|u|];
      OctetRead(s, i, n / 10, done);
      OctetStep(s, i + |u|, n / 10, |u|, n % 10, done);
    }
  }

  lemma OctetStep(s: string, i: nat, val: nat, digLen: nat, d: nat, done: seq<byte>)
    requires i < |s| && d < 10 && val * 10 + d <= 255 && |done| <= 3 && (val > 0 || digLen == 0)
    requires IsDecimal(s[i]) && (s[i] - '0') as int == d
    ensures Octets4(s, i, val, digLen, done) == Octets4(s, i + 1, val * 10 + d, digLen + 1, done)
  {}

  /** Reading an octet and its dot. */
  lemma OctetAndDot(s: string, i: nat, n: byte, rest: string, done: seq<byte>)
    requires i <= |s| && s[i..] == Numeral(n, 10) + "." + rest && rest != "" && |done| < 3
    ensures var j := i + |Numeral(n, 10)| + 1;
      && j <= |s| && s[j..] == rest && Octets4(s, i, 0, 0, done) == Octets4(s, j, 0, 0, done + [n])
  {
    hide Octets4, Numeral;
    var t := Numeral(n, 10);
    NumeralDigits(n, 10);
    var k := i + |t|;
    assert s[i..][..|t|] == t && s[i..][..|t|] == s[i..k];
    assert s[k] == s[i..][|t|] == '.';
    assert s[k - 1] == s[i..][|t| - 1] == t[|t| - 1];
    assert s[k + 1..] == s[i..][|t| + 1..] == rest;
    OctetRead(s, i, n, done);
    DotStep(s, k, n, |t|, done);
  }

  lemma DotStep(s: string, k: nat, n: byte, digLen: nat, done: seq<byte>)
    requires 0 < k < |s| - 1 && |done| < 3 && s[k] == '.' && IsDecimal(s[k - 1])
    ensures Octets4(s, k, n, digLen, done) == Octets4(s, k + 1, 0, 0, done + [n])
  {}

  lemma DottedParts(a: byte, b: byte, c: byte, d: byte)
    ensures Dotted(a, b, c, d)
         == Numeral(a, 10) + "." + (Numeral(b, 10) + "." + (Numeral(c, 10) + "." + Numeral(d, 10)))
  {
    hide Numeral;
    var A, B, C, D := Numeral(a, 10), Numeral(b, 10), Numeral(c, 10), Numeral(d, 10);
    Associate(A + "." + B + ".", C + ".", D);
    Associate(A + "." + B + ".", C, ".");
    Associate(A + ".", B + ".", C + "." + D);
    Associate(A + ".", B, ".");
  }

  /** Dotted text reads back as its four octets. */
  lemma DottedRead(a: byte, b: byte, c: byte, d: byte)
    ensures Fields4(Dotted(a, b, c, d)) == Ok([a, b, c, d])
  {
    hide Octets4, Numeral, Dotted;
    DottedParts(a, b, c, d);
    var s := Dotted(a, b, c, d);
    var C := Numeral(c, 10) + "." + Numeral(d, 10);
    var B := Numeral(b, 10) + "." + C;
    assert s[0..] == s;
    OctetAndDot(s, 0, a, B, []);
    var i := |Numeral(a, 10)| + 1;
    OctetAndDot(s, i, b, C, [a]);
    var j := i + |Numeral(b, 10)| + 1;
    NumeralDigits(d, 10);
    OctetAndDot(s, j, c, Numeral(d, 10), [a, b]);
    var k := j + |Numeral(c, 10)| + 1;
    assert [] + [a] == [a] && [a] + [b] == [a, b] && [a, b] + [c] == [a, b, c];
    assert s[k..k + |Numeral(d, 10)|] == s[k..];
    OctetRead(s, k, d, [a, b, c]);
    LastOctet(s, d, |Numeral(d, 10)|, [a, b, c]);
    assert k + |Numeral(d, 10)| == |s|;
    assert [a, b, c] + [d] == [a, b, c, d];
  }

  lemma LastOctet(s: string, n: byte, digLen: nat, done: seq<byte>)
    requires |done| == 3
    ensures Octets4(s, |s|, n, digLen, done) == Ok(done + [n])
  {}

  lemma DottedPlain(a: byte, b: byte, c: byte, d: byte)
    ensures AllPlain(Dotted(a, b, c, d))
    ensures Dotted(a, b, c, d) != "" && IsDecimal(Dotted(a, b, c, d)[0])
    ensures exists k :: 0 < k < |Dotted(a, b, c, d)| && Dotted(a, b, c, d)[k] == '.'
                        && forall i :: 0 <= i < k ==> IsDecimal(Dotted(a, b, c, d)[i])
  {
    hide Numeral, Dotted;
    DottedParts(a, b, c, d);
    NumeralDigits(a, 10);
    NumeralDigits(b, 10);
    NumeralDigits(c, 10);
    NumeralDigits(d, 10);
    var s := Dotted(a, b, c, d);
    var k := |Numeral(a, 10)|;
    assert s[k] == '.';
  }

  // ---------------------------------------------------------------- nothing else is accepted

  /** Octets in text, joined by dots. */
  function JoinDots(b: seq<byte>): string {
    if b == [] then "" else if |b| == 1 then Numeral(b[0], 10) else Numeral(b[0], 10) + ("." + JoinDots(b[1..]))
  }

  lemma DottedIsJoin(b: seq<byte>)
    requires |b| == 4
    ensures JoinDots(b) == Dotted(b[0], b[1], b[2], b[3])
  {
    hide Numeral;
    DottedParts(b[0], b[1], b[2], b[3]);
    var c, d := b[1..], b[2..];
    assert c[0] == b[1] && c[1..] == d && d[0] == b[2] && d[1..] == [b[3]];
    var z := Numeral(b[3], 10);
    assert JoinDots([b[3]]) == z;
    assert JoinDots(d) == Numeral(b[2], 10) + ("." + z);
    Regroup(Numeral(b[0], 10), Numeral(b[1], 10) + ("." + JoinDots(d)));
    Regroup(Numeral(b[1], 10), Numeral(b[2], 10) + ("." + z));
    Regroup(Numeral(b[2], 10), z);
  }

  lemma Regroup(a: string, b: string)
    ensures a + ("." + b) == a + "." + b
  {}

  /** The digits of the octet being read, in front of character i. */
  predicate Reading(s: string, i: nat, val: nat, digLen: nat) {
    && digLen <= i <= |s|
    && (digLen > 0 ==> s[i - digLen..i] == Numeral(val, 10))
    && (digLen == 0 ==> val == 0 && (i == 0 || (s[i - 1] == '.' && i < |s|)))
  }

  lemma ReadingDigit(s: string, i: nat, val: nat, digLen: nat)
    requires Reading(s, i, val, digLen) && i < |s| && IsDecimal(s[i]) && !(digLen == 1 && val == 0)
    ensures Reading(s, i + 1, val * 10 + (s[i] - '0') as int, digLen + 1)
  {
    hide Digit;
    var d: nat := (s[i] - '0') as int;
    DecimalDigit(s[i]);
    if digLen == 0 {
      assert s[i..i + 1] == [s[i]] == Numeral(d, 10);
    } else {
      ShortZero(val);
      assert s[i - digLen..i + 1] == s[i - digLen..i] + [s[i]];
      UpperStep(val * 10 + d, 10);
      assert (val * 10 + d) / 10 == val && (val * 10 + d) % 10 == d;
    }
  }

  lemma DecimalDigit(c: char)
    requires IsDecimal(c)
    ensures Digit((c - '0') as int) == c
  {}

  lemma ShortZero(val: nat)
    ensures val == 0 ==> |Numeral(val, 10)| == 1
  {}

  /** What one more character can be in a text that is accepted. */
  lemma AcceptedStep(s: string, i: nat, val: nat, digLen: nat, done: seq<byte>)
    requires i <= |s| && val <= 255 && |done| <= 3 && Octets4(s, i, val, digLen, done).Ok?
    ensures i == |s| ==> |done| == 3 && Octets4(s, i, val, digLen, done).value == done + [val]
    ensures i < |s| && IsDecimal(s[i]) ==>
      && !(digLen == 1 && val == 0) && val * 10 + (s[i] - '0') as int <= 255
      && Octets4(s, i, val, digLen, done) == Octets4(s, i + 1, val * 10 + (s[i] - '0') as int, digLen + 1, done)
    ensures i < |s| && !IsDecimal(s[i]) ==>
      && s[i] == '.' && 0 < i < |s| - 1 && s[i - 1] != '.' && |done| < 3
      && Octets4(s, i, val, digLen, done) == Octets4(s, i + 1, 0, 0, done + [val])
  {
    hide IsDecimal;
  }

  lemma ReadingFacts(s: string, i: nat, val: nat, digLen: nat)
    requires Reading(s, i, val, digLen)
    ensures digLen <= i <= |s| && (digLen > 0 ==> s[i - digLen..i] == Numeral(val, 10))
    ensures digLen == 0 ==> i == 0 || (s[i - 1] == '.' && i < |s|)
  {}

  lemma ReadingDot(s: string, i: nat)
    requires i < |s| - 1 && s[i] == '.'
    ensures Reading(s, i + 1, 0, 0)
  {}

  lemma AroundDot(s: string, start: nat, i: nat)
    requires start <= i < |s| && s[i] == '.'
    ensures s[start..] == s[start..i] + ("." + s[i + 1..])
  {}

  /** What was read to the end: the text from the current octet on is that of the octets still to come. */
  lemma {:induction false} OctetsBack(s: string, i: nat, val: nat, digLen: nat, done: seq<byte>)
    requires val <= 255 && |done| <= 3 && Reading(s, i, val, digLen) && (i == 0 ==> done == [])
    requires Octets4(s, i, val, digLen, done).Ok?
    ensures var b := Octets4(s, i, val, digLen, done).value;
      b[..|done|] == done && s[i - digLen..] == JoinDots(b[|done|..])
    decreases |s| - i
  {
    hide Numeral, JoinDots, Octets4, Reading;
    ReadingFacts(s, i, val, digLen);
    AcceptedStep(s, i, val, digLen, done);
    var b := Octets4(s, i, val, digLen, done).value;
    var start := i - digLen;
    if i == |s| {
      assert b[|done|..] == [val];
      OneOctet(val);
      assert s[start..] == s[start..i];
    } else if IsDecimal(s[i]) {
      ReadingDigit(s, i, val, digLen);
      OctetsBack(s, i + 1, val * 10 + (s[i] - '0') as int, digLen + 1, done);
    } else {
      ReadingDot(s, i);
      OctetsBack(s, i + 1, 0, 0, done + [val]);
      OneFewer(b, done, val);
      MoreOctets(b[|done|..]);
      AroundDot(s, start, i);
    }
  }

  lemma OneFewer(b: seq<byte>, done: seq<byte>, val: byte)
    requires |done| < |b| && b[..|done| + 1] == done + [val]
    ensures b[..|done|] == done && b[|done|] == val && b[|done|..][1..] == b[|done| + 1..]
  {
    assert b[..|done|] == b[..|done| + 1][..|done|];
    assert b[|done|] == b[..|done| + 1][|done|];
  }

  lemma OneOctet(val: byte)
    ensures JoinDots([val]) == Numeral(val, 10)
  {}

  lemma MoreOctets(b: seq<byte>)
    requires |b| > 1
    ensures JoinDots(b) == Numeral(b[0], 10) + ("." + JoinDots(b[1..]))
  {}

  /** A text is accepted exactly when it is the canonical text of four octets, which are then the result. */
  lemma FieldsExactly(s: string, b: seq<byte>)
    ensures Fields4(s) == Ok(b) <==> |b| == 4 && s == Dotted(b[0], b[1], b[2], b[3])
  {
    hide Octets4, Numeral, JoinDots, Dotted;
    if Fields4(s).Ok? {
      var r := Fields4(s).value;
      OctetsBack(s, 0, 0, 0, []);
      assert s[0..] == s && r[0..] == r;
      DottedIsJoin(r);
      DottedRead(r[0], r[1], r[2], r[3]);
      assert r == [r[0], r[1], r[2], r[3]];
    }
    if |b| == 4 && s == Dotted(b[0], b[1], b[2], b[3]) {
      DottedRead(b[0], b[1], b[2], b[3]);
      assert b == [b[0], b[1], b[2], b[3]];
    }
  }
}
