/** CIDR notation: printing and parsing of prefixes. */
module IpPrefixText {
  import D = IpDotted
  import opened IpAddr
  import opened IpFormat
  import P = IpParse
  import opened IpPrefix
  import R = IpRoundTrip
  import opened Options
  import opened Seqs

  datatype Error = NoSlash | BadAddress(cause: P.Error) | HasZone | BadBits | OutOfRange

  // ---------------------------------------------------------------- printing

  function Text(p: Prefix): string {
    if !p.IsValid() then "invalid Prefix" else IpFormat.Text(p.ip) + "/" + Numeral(p.Bits(), 10)
  }

  method Itoa(val: int) returns (r: string)
    requires -0x8000_0000_0000_0000 <= val < 0x8000_0000_0000_0000
    ensures r == if val < 0 then "-" + Numeral(-val, 10) else Numeral(val, 10)
  {
    if val < 0 {
      r := Uitoa(-val);
      r := "-" + r;
    } else {
      r := Uitoa(val);
    }
  }

  method PrefixString(p: Prefix) returns (r: string)
    requires p.Bits() <= 128
    ensures r == Text(p)
  {
    if !p.IsValid() {
      return "invalid Prefix";
    }
    var a := AddrString(p.ip);
    var b := Itoa(p.Bits());
    r := a + "/" + b;
  }

  /** The appending form prints the same, except that the zero prefix prints nothing. */
  method AppendTo(b: string, p: Prefix) returns (r: string)
    requires Made(p)
    ensures r == b + if p == NO_PREFIX then "" else Text(p)
  {
    hide Numeral, IpFormat.Text;
    if p == NO_PREFIX {
      return b;
    }
    if !p.IsValid() {
      return b + "invalid Prefix";
    }
    BareText(p.ip);
    if p.ip.Is4() {
      r := AppendTo4(b, p.ip);
    } else {
      if p.ip.Is4In6() {
        r := b + "::ffff:";
        r := AppendTo4(r, p.ip.Unmap());
        Associate(b, "::ffff:", Dotted4(p.ip.Unmap()));
      } else {
        r := AppendTo6(b, p.ip);
      }
    }
    r := r + "/";
    Associate(b, IpFormat.Text(p.ip), "/");
    r := AppendDecimal(r, p.Bits());
    Associate(b, IpFormat.Text(p.ip) + "/", Numeral(p.Bits(), 10));
  }

  lemma BareText(ip: Addr)
    requires IsValid(ip) && !ip.HasZone()
    ensures ip.Is4() ==> IpFormat.Text(ip) == Dotted4(ip)
    ensures ip.Is4In6() ==> IpFormat.Text(ip) == "::ffff:" + Dotted4(ip.Unmap())
  {
    assert ip.Is6() ==> Body6(ip) + "" == Body6(ip);
  }

  // ---------------------------------------------------------------- parsing

  function Digits(s: string, acc: nat): Option<nat> {
    if s == "" then Some(acc)
    else if P.IsDecimal(s[0]) then Digits(s[1..], acc * 10 + (s[0] - '0') as int)
    else None
  }

  /** strconv.Atoi: an optional sign, digits, and a value in the range of int. */
  function Atoi(s: string): Option<int> {
    var signed := s != "" && (s[0] == '-' || s[0] == '+');
    var digits := if signed then s[1..] else s;
    if digits == "" then None
    else match Digits(digits, 0)
      case None => None
      case Some(n) =>
        var v := if signed && s[0] == '-' then 0 - n as int else n as int;
        if -0x8000_0000_0000_0000 <= v < 0x8000_0000_0000_0000 then Some(v) else None
  }

  function ParsePrefix(s: string): Result<Prefix, Error> {
    var i := P.LastIndexByte(s, '/');
    if i < 0 then Err(NoSlash)
    else match P.Parse(s[..i])
      case Err(e) => Err(BadAddress(e))
      case Ok(ip) =>
        var bitsStr := s[i + 1..];
        if ip.HasZone() then Err(HasZone)
        else if |bitsStr| > 1 && !('1' <= bitsStr[0] <= '9') then Err(BadBits)
        else match Atoi(bitsStr)
          case None => Err(BadBits)
          case Some(bits) =>
            var maxBits := if ip.Is6() then 128 else 32;
            if bits < 0 || bits > maxBits then Err(OutOfRange) else Ok(PrefixFrom(ip, bits))
  }

  /** Whatever ParsePrefix accepts is a valid prefix. */
  lemma ParsedPrefixIsValid(s: string)
    requires ParsePrefix(s).Ok?
    ensures Made(ParsePrefix(s).value) && ParsePrefix(s).value.IsValid()
  {
    hide P.ParseFrom, Atoi;
    R.ParsedIsValid(s[..P.LastIndexByte(s, '/')], 0);
  }

  lemma {:induction false} DigitsConcat(s: string, t: string, acc: nat)
    requires Digits(s, acc).Some?
    ensures Digits(s + t, acc) == Digits(t, Digits(s, acc).value)
    decreases |s|
  {
    if s == "" {
      assert s + t == t;
    } else {
      assert (s + t)[1..] == s[1..] + t;
      DigitsConcat(s[1..], t, acc * 10 + (s[0] - '0') as int);
    }
  }

  lemma {:induction false} NumeralRead(n: nat)
    ensures Digits(Numeral(n, 10), 0) == Some(n)
    decreases n
  {
    hide Digit;
    D.DigitIs(n % 10);
    var last := [Digit(n % 10)];
    assert last[1..] == "";
    if n >= 10 {
      NumeralRead(n / 10);
      DigitsConcat(Numeral(n / 10, 10), last, 0);
    }
  }

  lemma AtoiNumeral(n: nat)
    requires n < 0x8000_0000_0000_0000
    ensures Atoi(Numeral(n, 10)) == Some(n)
    ensures |Numeral(n, 10)| > 1 ==> '1' <= Numeral(n, 10)[0] <= '9'
  {
    hide Numeral, Digits;
    NumeralRead(n);
    D.NumeralDigits(n, 10);
    NoLeadingZero(n, 10);
    ZeroIsShort();
    assert P.IsDecimal(Numeral(n, 10)[0]);
  }

  lemma ZeroIsShort()
    ensures |Numeral(0, 10)| == 1
  {}

  lemma {:induction false} LastIndexAfter(body: string, c: char, tail: string)
    requires forall i :: 0 <= i < |tail| ==> tail[i] != c
    ensures P.LastIndexByte(body + [c] + tail, c) == |body|
    decreases |tail|
  {
    var s := body + [c] + tail;
    if tail == "" {
      assert s == body + [c];
    } else {
      var t := tail[..|tail| - 1];
      LastIndexAfter(body, c, t);
      assert s[..|s| - 1] == body + [c] + t;
    }
  }

  /** ParsePrefix undoes String, for every valid prefix. */
  lemma ParseUndoesText(p: Prefix)
    requires Made(p) && p.IsValid()
    ensures ParsePrefix(Text(p)) == Ok(p)
  {
    hide P.Parse, IpFormat.Text, Numeral, Atoi;
    var a, b := IpFormat.Text(p.ip), Numeral(p.Bits(), 10);
    D.NumeralDigits(p.Bits(), 10);
    LastIndexAfter(a, '/', b);
    var s := Text(p);
    assert s == a + ['/'] + b;
    assert s[..|a|] == a && s[|a| + 1..] == b;
    R.ParseUndoesText(p.ip);
    AtoiNumeral(p.Bits());
  }

  // ---------------------------------------------------------------- nothing else is accepted

  lemma {:induction false} DigitsFront(s: string, acc: nat)
    requires s != "" && Digits(s, acc).Some?
    ensures Digits(s[..|s| - 1], acc).Some? && P.IsDecimal(s[|s| - 1])
    decreases |s|
  {
    if |s| > 1 {
      assert s[..|s| - 1][1..] == s[1..][..|s| - 2];
      DigitsFront(s[1..], acc * 10 + (s[0] - '0') as int);
    }
  }

  lemma LastDigit(c: char, acc: nat)
    requires P.IsDecimal(c)
    ensures Digits([c], acc) == Some(acc * 10 + (c - '0') as int)
    ensures Digit((c - '0') as int) == c
  {
    assert [c][1..] == "";
  }

  /** Digits without a leading zero are the numeral of their value. */
  lemma {:induction false} DigitsNumeral(s: string)
    requires s != "" && Digits(s, 0).Some? && (|s| > 1 ==> s[0] != '0')
    ensures s == Numeral(Digits(s, 0).value, 10)
    decreases |s|
  {
    hide Digit, Digits;
    var u, c := s[..|s| - 1], s[|s| - 1];
    DigitsFront(s, 0);
    LastDigit(c, 0);
    assert s == u + [c];
    if u == "" {
      assert s == [c];
    } else {
      DigitsNumeral(u);
      var m := Digits(u, 0).value;
      DigitsConcat(u, [c], 0);
      LastDigit(c, m);
      NoLeadingZero(m, 10);
      var d: nat := (c - '0') as int;
      assert (m * 10 + d) / 10 == m && (m * 10 + d) % 10 == d;
    }
  }

  /** The text of a length: a numeral without sign or leading zeros. */
  lemma BitsNumeral(s: string, bits: int)
    requires Atoi(s) == Some(bits) && bits >= 0 && (|s| > 1 ==> '1' <= s[0] <= '9')
    ensures s == Numeral(bits, 10)
  {
    hide Digits, Numeral;
    DigitsNumeral(s);
  }

  ghost predicate Spells(s: string, p: Prefix, t: string, ip: Addr) {
    && P.Parse(t) == Ok(ip) && !ip.HasZone() && 0 <= p.Bits() <= (if ip.Is6() then 128 else 32)
    && s == t + "/" + Numeral(p.Bits(), 10) && p == PrefixFrom(ip, p.Bits())
  }

  /** Accepted is an address without a zone, a slash, and the canonical numeral of a length that fits; nothing else. */
  lemma ParsePrefixExactly(s: string, p: Prefix)
    ensures ParsePrefix(s) == Ok(p) <==> exists t, ip :: Spells(s, p, t, ip)
  {
    hide P.ParseFrom, Atoi, Numeral, Digits;
    if ParsePrefix(s) == Ok(p) {
      var i := P.LastIndexByte(s, '/');
      var t, b := s[..i], s[i + 1..];
      var ip := P.Parse(t).value;
      BitsNumeral(b, Atoi(b).value);
      R.ParsedIsValid(t, 0);
      assert p.Bits() == Atoi(b).value;
      LastIndexIs(s, '/');
      assert s == t + "/" + b;
      assert Spells(s, p, t, ip);
    }
    if t, ip :| Spells(s, p, t, ip) {
      var b := Numeral(p.Bits(), 10);
      D.NumeralDigits(p.Bits(), 10);
      LastIndexAfter(t, '/', b);
      assert s == t + ['/'] + b;
      assert s[..|t|] == t && s[|t| + 1..] == b;
      AtoiNumeral(p.Bits());
    }
  }

  lemma {:induction false} LastIndexIs(s: string, c: char)
    ensures P.LastIndexByte(s, c) >= 0 ==> s[P.LastIndexByte(s, c)] == c
  {
    if s != "" {
      LastIndexIs(s[..|s| - 1], c);
    }
  }
}
