/** Parsing of addresses: the loops over the text, each proved against a recursive description. */
module IpParse {
  import opened Bytes
  import opened Ints
  import opened IpAddr
  import opened IpBits
  import opened Options

  datatype Error =
    | MissingAddress | UnableToParse
    | LeadingZero | OctetTooBig | EmptyOctet | TooLong4 | Unexpected4 | TooShort4
    | EmptyZone | LongGroup | GroupTooBig | EmptyGroup | MisplacedIPv4 | NoRoomForIPv4
    | WantColon | ColonAtEnd | SecondEllipsis | Trailing | TooShort6 | EmptyEllipsis

  type Answer<+T> = Result<T, Error>

  function IsDecimal(c: char): bool { '0' <= c <= '9' }

  /** The first or last place of a character in a text, or -1. */
  function IndexByte(s: string, c: char): (i: int)
    ensures -1 <= i < |s|
  {
    if s == "" then -1 else if s[0] == c then 0
    else var i := IndexByte(s[1..], c); if i < 0 then -1 else i + 1
  }

  function LastIndexByte(s: string, c: char): (i: int)
    ensures -1 <= i < |s|
  {
    if s == "" then -1 else if s[|s| - 1] == c then |s| - 1 else LastIndexByte(s[..|s| - 1], c)
  }

  // ---------------------------------------------------------------- IPv4 fields

  /** The rest of a dotted address from character i, with the finished octets and the digits of the current one. */
  function Octets4(s: string, i: nat, val: nat, digLen: nat, done: seq<byte>): (r: Answer<seq<byte>>)
    requires i <= |s| && val <= 255 && |done| <= 3
    ensures r.Ok? ==> |r.value| == 4
    decreases |s| - i
  {
    if i == |s| then
      if |done| < 3 then Err(TooShort4) else Ok(done + [val])
    else if IsDecimal(s[i]) then
      if digLen == 1 && val == 0 then Err(LeadingZero)
      else
        var v := val * 10 + (s[i] - '0') as int;
        if v > 255 then Err(OctetTooBig) else Octets4(s, i + 1, v, digLen + 1, done)
    else if s[i] == '.' then
      if i == 0 || i == |s| - 1 || s[i - 1] == '.' then Err(EmptyOctet)
      else if |done| == 3 then Err(TooLong4)
      else Octets4(s, i + 1, 0, 0, done + [val])
    else Err(Unexpected4)
  }

  function Fields4(s: string): (r: Answer<seq<byte>>)
    ensures r.Ok? ==> |r.value| == 4
  {
    Octets4(s, 0, 0, 0, [])
  }

  method ParseIPv4Fields(text: string, off: nat, end: nat, fields: array<byte>, at: nat) returns (r: Answer<()>)
    requires off <= end <= |text| && at + 4 <= fields.Length
    modifies fields
    ensures r.Ok? <==> Fields4(text[off..end]).Ok?
    ensures r.Err? ==> Fields4(text[off..end]) == Err(r.error)
    ensures r.Ok? ==> fields[at..at + 4] == Fields4(text[off..end]).value
    ensures forall k :: 0 <= k < fields.Length && !(at <= k < at + 4) ==> fields[k] == old(fields[k])
  {
    var val, pos, digLen := 0, 0, 0;
    var s := text[off..end];
    var i := 0;
    while i < |s|
      invariant 0 <= i <= |s| && 0 <= val <= 255 && 0 <= pos <= 3 && digLen >= 0
      invariant Fields4(s) == Octets4(s, i, val, digLen, fields[at..at + pos])
      invariant forall k :: 0 <= k < fields.Length && !(at <= k < at + 4) ==> fields[k] == old(fields[k])
    {
      if '0' <= s[i] <= '9' {
        if digLen == 1 && val == 0 {
          return Err(LeadingZero);
        }
        val := val * 10 + (s[i] as int - '0' as int);
        digLen := digLen + 1;
        if val > 255 {
          return Err(OctetTooBig);
        }
      } else if s[i] == '.' {
        if i == 0 || i == |s| - 1 || s[i - 1] == '.' {
          return Err(EmptyOctet);
        }
        if pos == 3 {
          return Err(TooLong4);
        }
        ghost var done := fields[at..at + pos];
        fields[at + pos] := val;
        assert fields[at..at + pos + 1] == done + [val];
        pos := pos + 1;
        val := 0;
        digLen := 0;
      } else {
        return Err(Unexpected4);
      }
      i := i + 1;
    }
    if pos < 3 {
      return Err(TooShort4);
    }
    ghost var done := fields[at..at + pos];
    fields[at + 3] := val;
    assert fields[at..at + 4] == done + [val];
    r := Ok(());
  }

  method ParseIPv4(s: string) returns (r: Answer<Addr>)
    ensures r == Parse4(s)
  {
    var fields := new byte[4];
    var e := ParseIPv4Fields(s, 0, |s|, fields, 0);
    assert s[0..|s|] == s;
    if e.Err? {
      return Err(e.error);
    }
    assert fields[0..4] == fields[..];
    r := Ok(AddrFrom4(fields[..]));
  }

  function Parse4(s: string): Answer<Addr> {
    match Fields4(s)
    case Err(e) => Err(e)
    case Ok(f) => Ok(AddrFrom4(f))
  }

  // ---------------------------------------------------------------- hex groups

  function IsHex(c: char): bool { '0' <= c <= '9' || 'a' <= c <= 'f' || 'A' <= c <= 'F' }

  function HexValue(c: char): (v: nat)
    requires IsHex(c)
    ensures v < 16
  {
    if '0' <= c <= '9' then (c - '0') as int
    else if 'a' <= c <= 'f' then (c - 'a') as int + 10
    else (c - 'A') as int + 10
  }

  /** How far the digits go and the number they spell. */
  datatype Group = Group(off: nat, acc: nat)

  function ScanFrom(s: string, off: nat, acc: nat): (r: Answer<Group>)
    requires off <= |s| && acc <= 0xffff
    ensures r.Ok? ==> off <= r.value.off <= |s| && r.value.acc <= 0xffff
    decreases |s| - off
  {
    if off < |s| && IsHex(s[off]) then
      var v := acc * 16 + HexValue(s[off]);
      if off > 3 then Err(LongGroup) else if v > 0xffff then Err(GroupTooBig) else ScanFrom(s, off + 1, v)
    else Ok(Group(off, acc))
  }

  /** The accumulator stays below 2^20, so its 32 bits never overflow. */
  method ScanGroup(s: string) returns (r: Answer<Group>)
    ensures r == ScanFrom(s, 0, 0)
  {
    var off, acc := 0, 0;
    while off < |s|
      invariant 0 <= off <= |s| && 0 <= acc <= 0xffff
      invariant ScanFrom(s, 0, 0) == ScanFrom(s, off, acc)
    {
      var c := s[off];
      if '0' <= c <= '9' {
        acc := acc * 16 + (c as int - '0' as int);
      } else if 'a' <= c <= 'f' {
        acc := acc * 16 + (c as int - 'a' as int + 10);
      } else if 'A' <= c <= 'F' {
        acc := acc * 16 + (c as int - 'A' as int + 10);
      } else {
        break;
      }
      if off > 3 {
        return Err(LongGroup);
      }
      if acc > 0xffff {
        return Err(GroupTooBig);
      }
      off := off + 1;
    }
    r := Ok(Group(off, acc));
  }

  // ---------------------------------------------------------------- IPv6

  /** The bytes read, where the ellipsis was among them (-1 for none), and what is left of the text. */
  datatype Parsed = Parsed(bytes: seq<byte>, ellipsis: int, rest: string)

  /** The rest of an address when the bytes of b are already read. */
  function Groups(s: string, b: seq<byte>, ell: int): (r: Answer<Parsed>)
    requires |b| % 2 == 0 && |b| <= 16 && -1 <= ell <= |b|
    ensures r.Ok? ==> |r.value.bytes| <= 16 && -1 <= r.value.ellipsis <= |r.value.bytes|
    decreases |s|
  {
    if |b| == 16 then Ok(Parsed(b, ell, s))
    else
      var scan := ScanFrom(s, 0, 0);
      if scan.Err? then Err(scan.error)
      else
        var off := scan.value.off;
        if off == 0 then Err(EmptyGroup)
        else if off < |s| && s[off] == '.' then
          if ell < 0 && |b| != 12 then Err(MisplacedIPv4)
          else if |b| + 4 > 16 then Err(NoRoomForIPv4)
          else
            var f := Fields4(s);
            if f.Err? then Err(f.error) else Ok(Parsed(b + f.value, ell, ""))
        else AfterGroup(s[off..], b + [scan.value.acc / 256, scan.value.acc % 256], ell)
  }

  /** What must follow a group: nothing, or a colon and another group, or the ellipsis. */
  function AfterGroup(s: string, b: seq<byte>, ell: int): (r: Answer<Parsed>)
    requires |b| % 2 == 0 && |b| <= 16 && -1 <= ell <= |b|
    ensures r.Ok? ==> |r.value.bytes| <= 16 && -1 <= r.value.ellipsis <= |r.value.bytes|
    decreases |s|
  {
    if s == "" then Ok(Parsed(b, ell, ""))
    else if s[0] != ':' then Err(WantColon)
    else if |s| == 1 then Err(ColonAtEnd)
    else if s[1] == ':' then
      if ell >= 0 then Err(SecondEllipsis)
      else if |s| == 2 then Ok(Parsed(b, |b|, ""))
      else Groups(s[2..], b, |b|)
    else Groups(s[1..], b, ell)
  }

  /** Everything must be used, and the ellipsis must stand for something exactly when bytes are missing. */
  function Finish(p: Parsed): (r: Answer<seq<byte>>)
    requires |p.bytes| <= 16 && -1 <= p.ellipsis <= |p.bytes|
    ensures r.Ok? ==> |r.value| == 16
  {
    if p.rest != "" then Err(Trailing)
    else if |p.bytes| < 16 then
      if p.ellipsis < 0 then Err(TooShort6)
      else Ok(p.bytes[..p.ellipsis] + Zeros(16 - |p.bytes|) + p.bytes[p.ellipsis..])
    else if p.ellipsis >= 0 then Err(EmptyEllipsis)
    else Ok(p.bytes)
  }

  /** An address without its zone. */
  function Body(s: string): Answer<Addr> {
    var leading := |s| >= 2 && s[0] == ':' && s[1] == ':';
    if leading && |s| == 2 then Ok(Addr(U128(0, 0), Z6("")))
    else
      var p := if leading then Groups(s[2..], [], 0) else Groups(s, [], -1);
      if p.Err? then Err(p.error)
      else
        var f := Finish(p.value);
        if f.Err? then Err(f.error) else Ok(AddrFrom16(f.value))
  }

  function WithZone(a: Answer<Addr>, zone: string): Answer<Addr> {
    if a.Err? then a else Ok(a.value.WithZone(zone))
  }

  function Parse6(s: string): Answer<Addr> {
    var i := IndexByte(s, '%');
    if i == -1 then Body(s)
    else if i == |s| - 1 then Err(EmptyZone)
    else WithZone(Body(s[..i]), s[i + 1..])
  }

  /** The first character that tells the forms apart decides. */
  function ParseFrom(s: string, i: nat): Answer<Addr>
    requires i <= |s|
    decreases |s| - i
  {
    if i == |s| then Err(UnableToParse)
    else if s[i] == '.' then Parse4(s)
    else if s[i] == ':' then Parse6(s)
    else if s[i] == '%' then Err(MissingAddress)
    else ParseFrom(s, i + 1)
  }

  function Parse(s: string): Answer<Addr> {
    ParseFrom(s, 0)
  }

  method ShiftToEnd(ip: array<byte>, i: nat, ellipsis: nat)
    requires ip.Length == 16 && ellipsis <= i < 16
    modifies ip
    ensures ip[..ellipsis] == old(ip[..ellipsis]) && ip[ellipsis + (16 - i)..] == old(ip[ellipsis..i])
  {
    var n := 16 - i;
    ghost var was := ip[..];
    var j := i - 1;
    while j >= ellipsis
      invariant ellipsis - 1 <= j <= i - 1
      invariant forall k :: j < k < i ==> ip[k + n] == was[k]
      invariant forall k :: 0 <= k <= j || 0 <= k < ellipsis ==> ip[k] == was[k]
    {
      ip[j + n] := ip[j];
      j := j - 1;
    }
  }

  /** Moves what follows the ellipsis to the end, in place, and clears the gap. */
  method ExpandEllipsis(ip: array<byte>, i: nat, ellipsis: nat)
    requires ip.Length == 16 && ellipsis <= i < 16
    modifies ip
    ensures ip[..] == old(ip[..ellipsis]) + Zeros(16 - i) + old(ip[ellipsis..i])
  {
    var n := 16 - i;
    ShiftToEnd(ip, i, ellipsis);
    ghost var was := ip[..];
    var k := ellipsis;
    while k < ellipsis + n
      invariant ellipsis <= k <= ellipsis + n
      invariant forall m :: ellipsis <= m < k ==> ip[m] == 0
      invariant ip[..ellipsis] == was[..ellipsis] && ip[ellipsis + n..] == was[ellipsis + n..]
    {
      ip[k] := 0;
      k := k + 1;
    }
    assert ip[ellipsis..ellipsis + n] == Zeros(n);
    assert ip[..] == ip[..ellipsis] + ip[ellipsis..ellipsis + n] + ip[ellipsis + n..];
  }

  method StoreGroup(ip: array<byte>, i: nat, acc: uint16)
    requires i + 2 <= ip.Length
    modifies ip
    ensures ip[..i + 2] == old(ip[..i]) + [acc / 256, acc % 256]
  {
    ip[i] := acc / 256;
    ip[i + 1] := acc % 256;
  }

  /** What follows a group: the text of the next one, if there is more, and the ellipsis as it then stands. */
  method Separator(rest: string, i: nat, ellipsis: int, ghost b: seq<byte>) returns (r: Answer<(string, int)>)
    requires |b| == i && i % 2 == 0 && i <= 16 && -1 <= ellipsis <= i
    ensures r.Err? ==> AfterGroup(rest, b, ellipsis) == Err(r.error)
    ensures r.Ok? ==> |r.value.0| <= |rest| && r.value.0 == rest[|rest| - |r.value.0|..] && -1 <= r.value.1 <= i
    ensures r.Ok? && r.value.0 == "" ==> AfterGroup(rest, b, ellipsis) == Ok(Parsed(b, r.value.1, ""))
    ensures r.Ok? && r.value.0 != "" ==> AfterGroup(rest, b, ellipsis) == Groups(r.value.0, b, r.value.1)
  {
    hide Groups;
    var s := rest;
    if |s| == 0 {
      return Ok((s, ellipsis));
    }
    if s[0] != ':' {
      return Err(WantColon);
    } else if |s| == 1 {
      return Err(ColonAtEnd);
    }
    s := s[1..];
    if s[0] == ':' {
      if ellipsis >= 0 {
        return Err(SecondEllipsis);
      }
      s := s[1..];
      assert s == rest[2..];
      return Ok((s, i));
    }
    r := Ok((s, ellipsis));
  }

  method EmbeddedIPv4(text: string, end: nat, s: string, ip: array<byte>, i: nat, ellipsis: int) returns (r: Answer<()>)
    requires ip.Length == 16 && i < 16 && -1 <= ellipsis <= i
    requires |s| <= end <= |text| && text[end - |s|..end] == s
    modifies ip
    ensures r.Ok? <==> (ellipsis >= 0 || i == 12) && i + 4 <= 16 && Fields4(s).Ok?
    ensures r.Ok? ==> ip[..i + 4] == old(ip[..i]) + Fields4(s).value
    ensures r.Err? ==> r.error == if ellipsis < 0 && i != 12 then MisplacedIPv4
                                  else if i + 4 > 16 then NoRoomForIPv4
                                  else Fields4(s).error
  {
    hide Fields4;
    if ellipsis < 0 && i != 12 {
      return Err(MisplacedIPv4);
    }
    if i + 4 > 16 {
      return Err(NoRoomForIPv4);
    }
    ghost var b := ip[..i];
    r := ParseIPv4Fields(text, end - |s|, end, ip, i);
    if r.Ok? {
      assert ip[..i] == b;
      assert ip[..i + 4] == ip[..i] + ip[i..i + 4];
    }
  }

  /** The loop over the groups of an address. */
  method ReadGroups(text: string, end: nat, body: string, ip: array<byte>, before: int)
    returns (r: Answer<(nat, int, string)>)
    requires ip.Length == 16 && -1 <= before <= 0
    requires |body| <= end <= |text| && text[end - |body|..end] == body
    modifies ip
    ensures r.Err? ==> Groups(body, [], before) == Err(r.error)
    ensures r.Ok? ==> r.value.0 <= 16 && -1 <= r.value.1 <= r.value.0
    ensures r.Ok? ==> Groups(body, [], before) == Ok(Parsed(ip[..r.value.0], r.value.1, r.value.2))
  {
    hide ScanFrom, Fields4, AfterGroup;
    var s, i, ellipsis := body, 0, before;
    assert ip[..0] == [];
    while i < 16
      invariant 0 <= i <= 16 && i % 2 == 0 && -1 <= ellipsis <= i
      invariant |s| <= end && text[end - |s|..end] == s
      invariant Groups(body, [], before) == Groups(s, ip[..i], ellipsis)
      decreases 16 - i
    {
      ghost var b := ip[..i];
      var scan := ScanGroup(s);
      if scan.Err? {
        return Err(scan.error);
      }
      var off, acc := scan.value.off, scan.value.acc;
      if off == 0 {
        return Err(EmptyGroup);
      }
      if off < |s| && s[off] == '.' {
        var e := EmbeddedIPv4(text, end, s, ip, i, ellipsis);
        if e.Err? {
          return Err(e.error);
        }
        return Ok((i + 4, ellipsis, ""));
      }
      StoreGroup(ip, i, acc);
      i := i + 2;
      s := s[off..];
      var next := Separator(s, i, ellipsis, ip[..i]);
      if next.Err? {
        return Err(next.error);
      }
      s, ellipsis := next.value.0, next.value.1;
      if |s| == 0 {
        return Ok((i, ellipsis, s));
      }
    }
    r := Ok((i, ellipsis, s));
  }

  /** What ReadGroups leaves, expanded to sixteen bytes in place. */
  method FinishInPlace(ip: array<byte>, i: nat, ellipsis: int, rest: string) returns (r: Answer<()>)
    requires ip.Length == 16 && i <= 16 && -1 <= ellipsis <= i
    modifies ip
    ensures r.Err? ==> old(Finish(Parsed(ip[..i], ellipsis, rest))) == Err(r.error)
    ensures r.Ok? ==> old(Finish(Parsed(ip[..i], ellipsis, rest))) == Ok(ip[..])
  {
    if |rest| != 0 {
      return Err(Trailing);
    }
    if i < 16 {
      if ellipsis < 0 {
        return Err(TooShort6);
      }
      assert ip[..i][..ellipsis] == ip[..ellipsis] && ip[..i][ellipsis..] == ip[ellipsis..i];
      ExpandEllipsis(ip, i, ellipsis);
    } else {
      if ellipsis >= 0 {
        return Err(EmptyEllipsis);
      }
      assert ip[..i] == ip[..];
    }
    r := Ok(());
  }

  method ParseIPv6(text: string) returns (r: Answer<Addr>)
    ensures r == Parse6(text)
  {
    hide Groups, BeUint64, Finish, IndexByte;
    var s, zone := text, "";
    var at := IndexByte(s, '%');
    if at != -1 {
      s, zone := s[..at], s[at + 1..];
      if zone == "" {
        return Err(EmptyZone);
      }
    }
    var end := |text| - if |zone| > 0 then |zone| + 1 else 0;
    assert text[..end] == s;
    ZonedBody(text, s, zone);
    var ip := new byte[16];
    var ellipsis := -1;
    if |s| >= 2 && s[0] == ':' && s[1] == ':' {
      ellipsis := 0;
      s := s[2..];
      if |s| == 0 {
        return Ok(Addr(U128(0, 0), Z6("")).WithZone(zone));
      }
    }
    var g := ReadGroups(text, end, s, ip, ellipsis);
    if g.Err? {
      return Err(g.error);
    }
    var e := FinishInPlace(ip, g.value.0, g.value.1, g.value.2);
    if e.Err? {
      return Err(e.error);
    }
    r := Ok(AddrFrom16(ip[..]).WithZone(zone));
  }

  lemma ZonedBody(text: string, s: string, zone: string)
    requires zone == "" ==> s == text && IndexByte(text, '%') == -1
    requires zone != "" ==> |s| == IndexByte(text, '%') && s == text[..|s|] && zone == text[|s| + 1..]
    ensures Parse6(text) == WithZone(Body(s), zone)
  {}

  method ParseAddr(s: string) returns (r: Answer<Addr>)
    ensures r == Parse(s)
  {
    for i := 0 to |s|
      invariant Parse(s) == ParseFrom(s, i)
    {
      match s[i] {
        case '.' => r := ParseIPv4(s); return;
        case ':' => r := ParseIPv6(s); return;
        case '%' => return Err(MissingAddress);
        case _ =>
      }
    }
    r := Err(UnableToParse);
  }
}
